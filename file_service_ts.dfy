/** The frontend's file service: a file's type from its name and the icon
    of each type, together with the file record the frontend receives. */
module FrontendFileService {
  import opened Common
  import ScannerService

  /** A file record as the frontend holds it. */
  datatype FileNode = FileNode(id: nat, courseId: nat, name: string, path: string, fileType: string,
                               parentId: Option<nat>, isDirectory: bool, size: Option<nat>)

  datatype FileType = Pdf | Video | Audio | Image | Text | Epub | Folder | Unknown

  /** The string value of each member of the `FileType` enum. */
  function TypeName(t: FileType): string
  {
    match t
    case Pdf => "pdf"
    case Video => "video"
    case Audio => "audio"
    case Image => "image"
    case Text => "text"
    case Epub => "epub"
    case Folder => "folder"
    case Unknown => "unknown"
  }

  /** The `switch` of `getFileType` on a lower-cased extension. */
  function TypeOfExtension(ext: string): (t: FileType)
    ensures t != Folder
  {
    if ext == "pdf" then Pdf
    else if ext == "mp4" || ext == "avi" || ext == "mkv" || ext == "mov" || ext == "webm" then Video
    else if ext == "mp3" || ext == "wav" || ext == "ogg" || ext == "m4a" then Audio
    else if ext == "jpg" || ext == "jpeg" || ext == "png" || ext == "gif" || ext == "bmp" || ext == "webp" then Image
    else if ext == "txt" || ext == "md" || ext == "log" then Text
    else if ext == "epub" then Epub
    else Unknown
  }

  /** `filename.split('.').pop()`: the text after the last dot, or the whole
      name when there is no dot. */
  function LastPiece(filename: string): (ext: string)
    ensures '.' !in ext && EndsWith(filename, ext)
    ensures |ext| < |filename| ==> filename[|filename| - |ext| - 1] == '.'
  {
    filename[LastIndexOf(filename, '.') + 1..]
  }

  /** It is the last piece `split('.')` gives. */
  lemma LastPieceIsLastSplit(filename: string)
    ensures var parts := Split(filename, '.'); parts[|parts| - 1] == LastPiece(filename)
  {
    assert filename[0..] == filename;
  }

  /** `getFileType`: the lower-cased last piece looked up; never a folder,
      "unknown" exactly when the piece is not a known extension. */
  function GetFileType(filename: string): (t: FileType)
    ensures t != Folder
  {
    TypeOfExtension(Lower(LastPiece(filename)))
  }

  /** `getFileIcon`: total; the generic icon only for an unknown type. */
  function GetFileIcon(t: FileType): (icon: string)
    ensures t == Folder ==> icon == "folder"
    ensures icon == "insert_drive_file" <==> t == Unknown
  {
    match t
    case Pdf => "picture_as_pdf"
    case Video => "video_library"
    case Audio => "audio_file"
    case Image => "image"
    case Text => "description"
    case Epub => "menu_book"
    case Folder => "folder"
    case Unknown => "insert_drive_file"
  }

  /** A dotless name is its own extension, so "pdf" is a PDF. */
  lemma DotlessNameIsExtension(filename: string)
    requires '.' !in filename
    ensures GetFileType(filename) == TypeOfExtension(Lower(filename))
  {
    assert LastIndexOf(filename, '.') == -1;
    assert filename[0..] == filename;
  }

  lemma PdfExtensionsAgree(ext: string)
    requires ext == "pdf"
    ensures ScannerService.TypeOfExtension("." + ext) == "pdf"
  {
    if ext == "pdf" {
      assert "." + ext == ".pdf";
    }
  }

  lemma VideoExtensionsAgree(ext: string)
    requires ext == "mp4" || ext == "avi" || ext == "mkv" || ext == "mov" || ext == "webm"
    ensures ScannerService.TypeOfExtension("." + ext) == "video"
  {
    if ext == "mp4" {
      assert "." + ext == ".mp4";
    }
    else if ext == "avi" {
      assert "." + ext == ".avi";
    }
    else if ext == "mkv" {
      assert "." + ext == ".mkv";
    }
    else if ext == "mov" {
      assert "." + ext == ".mov";
    }
    else if ext == "webm" {
      assert "." + ext == ".webm";
    }
  }

  lemma AudioExtensionsAgree(ext: string)
    requires ext == "mp3" || ext == "wav" || ext == "ogg" || ext == "m4a"
    ensures ScannerService.TypeOfExtension("." + ext) == "audio"
  {
    if ext == "mp3" {
      assert "." + ext == ".mp3";
    }
    else if ext == "wav" {
      assert "." + ext == ".wav";
    }
    else if ext == "ogg" {
      assert "." + ext == ".ogg";
    }
    else if ext == "m4a" {
      assert "." + ext == ".m4a";
    }
  }

  lemma ImageExtensionsAgree(ext: string)
    requires ext == "jpg" || ext == "jpeg" || ext == "png" || ext == "gif" || ext == "bmp" || ext == "webp"
    ensures ScannerService.TypeOfExtension("." + ext) == "image"
  {
    if ext == "jpg" {
      assert "." + ext == ".jpg";
    }
    else if ext == "jpeg" {
      assert "." + ext == ".jpeg";
    }
    else if ext == "png" {
      assert "." + ext == ".png";
    }
    else if ext == "gif" {
      assert "." + ext == ".gif";
    }
    else if ext == "bmp" {
      assert "." + ext == ".bmp";
    }
    else if ext == "webp" {
      assert "." + ext == ".webp";
    }
  }

  lemma TextExtensionsAgree(ext: string)
    requires ext == "txt" || ext == "md" || ext == "log"
    ensures ScannerService.TypeOfExtension("." + ext) == "text"
  {
    if ext == "txt" {
      assert "." + ext == ".txt";
    }
    else if ext == "md" {
      assert "." + ext == ".md";
    }
    else if ext == "log" {
      assert "." + ext == ".log";
    }
  }

  lemma EpubExtensionsAgree(ext: string)
    requires ext == "epub"
    ensures ScannerService.TypeOfExtension("." + ext) == "epub"
  {
    if ext == "epub" {
      assert "." + ext == ".epub";
    }
  }

  /** Every extension the frontend recognises has the same type in the
      scanner's table, under the same name with a leading dot. */
  lemma TablesAgree(ext: string)
    requires TypeOfExtension(ext) != Unknown
    ensures ScannerService.TypeOfExtension("." + ext) == TypeName(TypeOfExtension(ext))
  {
    if ext == "pdf" {
      PdfExtensionsAgree(ext);
    }
    else if ext == "mp4" || ext == "avi" || ext == "mkv" || ext == "mov" || ext == "webm" {
      VideoExtensionsAgree(ext);
    }
    else if ext == "mp3" || ext == "wav" || ext == "ogg" || ext == "m4a" {
      AudioExtensionsAgree(ext);
    }
    else if ext == "jpg" || ext == "jpeg" || ext == "png" || ext == "gif" || ext == "bmp" || ext == "webp" {
      ImageExtensionsAgree(ext);
    }
    else if ext == "txt" || ext == "md" || ext == "log" {
      TextExtensionsAgree(ext);
    }
    else if ext == "epub" {
      EpubExtensionsAgree(ext);
    }
  }

  /** For a name whose last dot is neither its first nor its last
      character, the scanner's suffix is that dot and the last piece. */
  lemma SuffixIsDotAndLastPiece(filename: string)
    requires '/' !in filename && 0 < LastIndexOf(filename, '.') < |filename| - 1
    ensures PathSuffix(filename) == "." + LastPiece(filename)
  {
    var i := LastIndexOf(filename, '.');
    PathSuffixWithoutSlash(filename);
    assert NameSuffix(filename) == filename[i..];
    assert LastPiece(filename) == filename[i + 1..];
    SplitAt(filename, i);
  }

  lemma SplitAt(s: string, i: nat)
    requires i < |s|
    ensures s[i..] == [s[i]] + s[i + 1..]
  {
  }

  /** A name without a slash is its own last component. */
  lemma PathSuffixWithoutSlash(p: string)
    requires '/' !in p
    ensures PathSuffix(p) == NameSuffix(p)
  {
    LastIndexOfAbsent(p, '/');
    assert p[LastIndexOf(p, '/') + 1..] == p;
  }

  lemma LowerDot(s: string)
    ensures Lower("." + s) == "." + Lower(s)
  {
  }

  /** For a file name whose last dot is not its first character, the
      scanner gives the type the frontend gives, whenever the frontend
      recognises the extension. */
  lemma {:induction false} AgreesWithScanner(filename: string)
    requires '/' !in filename && LastIndexOf(filename, '.') > 0
    requires GetFileType(filename) != Unknown
    ensures TypeName(GetFileType(filename)) == ScannerService.FileTypeOf(filename)
  {
    var piece := LastPiece(filename);
    assert piece != "" by {
      assert Lower("") == "";
    }
    SuffixIsDotAndLastPiece(filename);
    LowerDot(piece);
    TablesAgree(Lower(piece));
  }

  /** A leading dot is where they part: ".pdf" is a PDF here and unknown to
      the scanner, which reads it as a hidden file without a suffix. */
  lemma LeadingDotDisagrees()
    ensures GetFileType(".pdf") == Pdf
    ensures ScannerService.FileTypeOf(".pdf") == ScannerService.UnknownType
  {
    var name := ".pdf";
    assert name[0] == '.' && name[1] == 'p' && name[2] == 'd' && name[3] == 'f';
    assert LastIndexOf(name, '.') == 0;
    assert LastPiece(name) == "pdf";
    assert Lower("pdf") == "pdf";
    LastIndexOfAbsent(name, '/');
    assert name[0..] == name;
    assert PathSuffix(name) == "";
  }

  /** The dotless name "pdf" is a PDF. */
  lemma DotlessPdfIsPdf()
    ensures GetFileType("pdf") == Pdf
  {
    var name := "pdf";
    assert name[0] == 'p' && name[1] == 'd' && name[2] == 'f';
    assert Lower(name) == name;
    DotlessNameIsExtension(name);
  }
}
