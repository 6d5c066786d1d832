/** The file-security checks: containment of a path in a root, the extension
    allow-list, the MIME consistency check, the size ceiling, file-name
    sanitising, and the combined file check. */
module SecurityUtils {
  import opened Common
  import Config
  import Ordering

  /** The outcome of a check: valid, or invalid with the message shown. */
  datatype Verdict = Valid | Invalid(message: string)

  /** What the checks ask of the file system. `realpath` yields the absolute
      canonical form of a path, or None when resolving it raises; `size` is
      None when the size cannot be read; `raised` is the text of the
      exception a failing call on a path raises. */
  datatype FileSystem = FileSystem(
    realpath: string -> Option<string>,
    isLink: string -> bool,
    pathExists: string -> bool,
    isFile: string -> bool,
    size: string -> Option<int>,
    raised: string -> string)

  const TraversalMessage: string := "Path traversal detected: file is outside root directory"
  const SymlinkMessage: string := "Symlink points outside root directory"
  const NoExtensionMessage: string := "File has no extension"
  const PathErrorPrefix: string := "Path validation error: "
  const SizeErrorPrefix: string := "Error checking file size: "

  /** The MIME type each extension is expected to carry. */
  const AllowedMimeTypes: map<string, string> := map[
    ".pdf" := "application/pdf",
    ".mp4" := "video/mp4",
    ".mp3" := "audio/mpeg",
    ".txt" := "text/plain",
    ".docx" := "application/vnd.openxmlformats-officedocument.wordprocessingml.document",
    ".jpg" := "image/jpeg",
    ".jpeg" := "image/jpeg",
    ".png" := "image/png",
    ".epub" := "application/epub+zip",
    ".mkv" := "video/x-matroska",
    ".avi" := "video/x-msvideo",
    ".mov" := "video/quicktime",
    ".wav" := "audio/wav",
    ".flac" := "audio/flac",
    ".gif" := "image/gif",
    ".webp" := "image/webp"]

  /** Guessed types accepted whatever the extension says. */
  const MimeAliases: set<string> := {"application/octet-stream", "text/plain"}

  /** The full path check: the resolved file lies (as a string prefix) under
      the resolved root, a link resolves under the root, the file exists and
      is a regular file, checked in that order. */
  function ValidatePath(filePath: string, rootPath: string, fs: FileSystem): (r: Verdict)
    ensures r.Valid? <==>
      fs.realpath(filePath).Some? && fs.realpath(rootPath).Some?
      && StartsWith(fs.realpath(filePath).value, fs.realpath(rootPath).value)
      && fs.pathExists(fs.realpath(filePath).value) && fs.isFile(fs.realpath(filePath).value)
    ensures fs.realpath(filePath).Some? && fs.realpath(rootPath).Some?
            && !StartsWith(fs.realpath(filePath).value, fs.realpath(rootPath).value)
            ==> r == Invalid(TraversalMessage)
    ensures fs.realpath(filePath).None? ==> r == Invalid(PathErrorPrefix + fs.raised(filePath))
    ensures fs.realpath(filePath).Some? && fs.realpath(rootPath).None?
            ==> r == Invalid(PathErrorPrefix + fs.raised(rootPath))
  {
    match (fs.realpath(filePath), fs.realpath(rootPath))
    case (Some(absFile), Some(absRoot)) =>
      if !StartsWith(absFile, absRoot) then Invalid(TraversalMessage)
      else if fs.isLink(filePath) && !StartsWith(fs.realpath(filePath).value, absRoot) then
        Invalid(SymlinkMessage)
      else if !fs.pathExists(absFile) then Invalid("File does not exist")
      else if !fs.isFile(absFile) then Invalid("Path is not a file")
      else Valid
    case (None, _) => Invalid(PathErrorPrefix + fs.raised(filePath))
    case (_, None) => Invalid(PathErrorPrefix + fs.raised(rootPath))
  }

  /** The symbolic-link check can never fail: it re-resolves the same path
      that already passed the containment check, so a link pointing outside
      the root is reported as path traversal instead. */
  lemma SymlinkCheckNeverFires(filePath: string, rootPath: string, fs: FileSystem)
    ensures ValidatePath(filePath, rootPath, fs) != Invalid(SymlinkMessage)
  {
    assert TraversalMessage != SymlinkMessage;
    assert forall t :: (PathErrorPrefix + t)[0] != SymlinkMessage[0];
  }

  /** The lower-cased `splitext` extension of a file name. */
  function LowerExtension(fileName: string): (ext: string)
    ensures ext == [] || (ext[0] == '.' && '.' !in ext[1..])
  {
    Lower(SplitExt(fileName).1)
  }

  /** The extension check: an extension is present and is one of the
      allowed entries. */
  function ValidateExtension(fileName: string, allowed: seq<string>): (r: Verdict)
    ensures r.Valid? <==> LowerExtension(fileName) != [] && LowerExtension(fileName) in allowed
    ensures LowerExtension(fileName) == [] ==> r == Invalid(NoExtensionMessage)
  {
    var ext := LowerExtension(fileName);
    if ext == [] then Invalid(NoExtensionMessage)
    else if ext !in allowed then
      Invalid("File extension '" + ext + "' is not allowed. Allowed: " + JoinWith(allowed, ", "))
    else Valid
  }

  /** The scanner's extension check and the settings' `is_extension_allowed`
      agree on every name that has an extension; they differ only on names
      without one, which the check refuses and `is_extension_allowed` admits
      exactly when the allow-list has an empty entry (a stray comma). */
  lemma {:induction false} ExtensionChecksAgree(setting: string, fileName: string)
    ensures LowerExtension(fileName) != [] ==>
      (ValidateExtension(fileName, Config.AllowedExtensionsList(setting)).Valid?
       <==> Config.IsExtensionAllowed(setting, fileName))
    ensures LowerExtension(fileName) == [] ==>
      ValidateExtension(fileName, Config.AllowedExtensionsList(setting)).Invalid?
      && (Config.IsExtensionAllowed(setting, fileName) <==> [] in Config.AllowedExtensionsList(setting))
  {
  }

  /** The MIME check: the extension must have an expected type, and a
      guessed type (None when it cannot be guessed) must equal it or be one
      of the generic aliases. */
  function ValidateMimeType(filePath: string, guessed: Option<string>): (r: Verdict)
    ensures r.Valid? <==>
      LowerExtension(filePath) in AllowedMimeTypes
      && (guessed.None? || guessed.value == []
          || guessed.value == AllowedMimeTypes[LowerExtension(filePath)]
          || guessed.value in MimeAliases)
  {
    var ext := LowerExtension(filePath);
    if ext !in AllowedMimeTypes then Invalid("No MIME type mapping for extension '" + ext + "'")
    else
      var expected := AllowedMimeTypes[ext];
      match guessed
      case Some(g) =>
        if g != [] && g != expected && g !in MimeAliases then
          Invalid("MIME type mismatch: expected '" + expected + "', got '" + g + "'")
        else Valid
      case None => Valid
  }

  const MiB: int := 1048576

  /** The hundredths of `n / MiB` as `:.2f` prints them: the nearest
      hundredth, a tie going to the even one. The quotient of a number
      below 2^53 by a power of two is an exact binary fraction, so Python
      rounds the exact value. */
  function Hundredths(n: nat): (h: nat)
    ensures h * MiB <= 100 * n + MiB / 2 && 100 * n <= h * MiB + MiB / 2
    ensures 2 * (100 * n - h * MiB) == MiB || 2 * (h * MiB - 100 * n) == MiB ==> h % 2 == 0
  {
    var q, rem := (100 * n) / MiB, (100 * n) % MiB;
    if 2 * rem > MiB || (2 * rem == MiB && q % 2 == 1) then q + 1 else q
  }

  /** Two decimal digits, with a leading zero. */
  function TwoDigits(n: nat): (s: string)
    requires n < 100
    ensures |s| == 2 && '0' <= s[0] <= '9' && '0' <= s[1] <= '9'
    ensures (s[0] - '0') as int * 10 + (s[1] - '0') as int == n
  {
    ['0' + (n / 10) as char, '0' + (n % 10) as char]
  }

  /** `f"{x / (1024 * 1024):.2f}"`: megabytes with two decimals, a minus
      sign kept even when the value rounds to zero. */
  function Megabytes(x: int): (s: string)
    ensures var a := if x < 0 then -x else x;
      s == (if x < 0 then "-" else "") + NatString(Hundredths(a) / 100) + "." + TwoDigits(Hundredths(a) % 100)
    ensures |s| >= 4 && s[|s| - 3] == '.'
  {
    var a := if x < 0 then -x else x;
    (if x < 0 then "-" else "") + NatString(Hundredths(a) / 100) + "." + TwoDigits(Hundredths(a) % 100)
  }

  /** The refusal of a file above the ceiling, both sizes in megabytes. */
  function OverLimitMessage(size: int, maxSize: int): string
  {
    "File size (" + Megabytes(size) + " MB) exceeds limit (" + Megabytes(maxSize) + " MB)"
  }

  /** The size check on a measured size (None: reading it raised, with the
      text `raised`): at most the ceiling passes. */
  function CheckSize(size: Option<int>, maxSize: int, raised: string): (r: Verdict)
    ensures r.Valid? <==> size.Some? && size.value <= maxSize
    ensures size.None? ==> r == Invalid(SizeErrorPrefix + raised)
    ensures size.Some? && size.value > maxSize ==> r == Invalid(OverLimitMessage(size.value, maxSize))
  {
    match size
    case None => Invalid(SizeErrorPrefix + raised)
    case Some(s) => if s > maxSize then Invalid(OverLimitMessage(s, maxSize)) else Valid
  }

  /** A 1.5 MiB file under a 1 MiB ceiling. */
  lemma OverLimitExample(raised: string)
    ensures CheckSize(Some(1572864), MiB, raised) == Invalid("File size (1.50 MB) exceeds limit (1.00 MB)")
  {
    MegabytesExamples();
    assert OverLimitMessage(1572864, MiB) == "File size (1.50 MB) exceeds limit (1.00 MB)";
  }

  lemma MegabytesExamples()
    ensures Megabytes(1572864) == "1.50" && Megabytes(MiB) == "1.00"
  {
    assert Hundredths(1572864) == 150;
    assert Hundredths(MiB) == 100;
    assert NatString(1) == "1";
    assert TwoDigits(50) == "50" && TwoDigits(0) == "00";
  }

  /** `validate_file_size`: the ceiling is `maxSize` when given, otherwise
      the configured MAX_FILE_SIZE. */
  function ValidateFileSize(filePath: string, maxSize: Option<int>, settings: Config.Settings, fs: FileSystem): (r: Verdict)
    ensures var limit := if maxSize.Some? then maxSize.value else settings.maxFileSize;
      r.Valid? <==> fs.size(filePath).Some? && fs.size(filePath).value <= limit
    ensures fs.size(filePath).None? ==> r == Invalid(SizeErrorPrefix + fs.raised(filePath))
  {
    CheckSize(fs.size(filePath), if maxSize.Some? then maxSize.value else settings.maxFileSize, fs.raised(filePath))
  }

  /** A file exactly at the ceiling passes and one byte more fails. */
  lemma SizeCeilingIsInclusive(maxSize: int, raised: string)
    ensures CheckSize(Some(maxSize), maxSize, raised).Valid?
    ensures CheckSize(Some(maxSize + 1), maxSize, raised).Invalid?
    ensures CheckSize(None, maxSize, raised).Invalid?
  {
  }

  /** The combined check: path, then extension, then size; the first failure
      is returned. The MIME check is not part of it. */
  function ValidateFile(filePath: string, rootPath: string, settings: Config.Settings, fs: FileSystem): (r: Verdict)
    ensures r.Valid? <==>
      ValidatePath(filePath, rootPath, fs).Valid?
      && ValidateExtension(filePath, Config.AllowedExtensionsList(settings.allowedExtensions)).Valid?
      && ValidateFileSize(filePath, None, settings, fs).Valid?
    ensures ValidatePath(filePath, rootPath, fs).Invalid? ==> r == ValidatePath(filePath, rootPath, fs)
    ensures ValidatePath(filePath, rootPath, fs).Valid?
            && ValidateExtension(filePath, Config.AllowedExtensionsList(settings.allowedExtensions)).Invalid?
            ==> r == ValidateExtension(filePath, Config.AllowedExtensionsList(settings.allowedExtensions))
  {
    var p := ValidatePath(filePath, rootPath, fs);
    if p.Invalid? then p
    else
      var e := ValidateExtension(filePath, Config.AllowedExtensionsList(settings.allowedExtensions));
      if e.Invalid? then e
      else ValidateFileSize(filePath, None, settings, fs)
  }

  /** `is_safe_path`: the resolved path starts, as a string, with the
      resolved root; a resolution error gives false. */
  predicate IsSafePath(path: string, rootPath: string, realpath: string -> Option<string>)
    ensures IsSafePath(path, rootPath, realpath) ==>
              realpath(path).Some? && realpath(rootPath).Some?
              && |realpath(rootPath).value| <= |realpath(path).value|
    ensures realpath(path).Some? && realpath(path) == realpath(rootPath) ==> IsSafePath(path, rootPath, realpath)
  {
    match (realpath(path), realpath(rootPath))
    case (Some(p), Some(r)) => StartsWith(p, r)
    case _ => false
  }

  /** The prefix test is not a directory test: a sibling whose name extends
      the root's last component counts as inside the root. */
  lemma SiblingPassesPrefixTest(realpath: string -> Option<string>)
    requires realpath("/a/bc") == Some("/a/bc") && realpath("/a/b") == Some("/a/b")
    ensures IsSafePath("/a/bc", "/a/b", realpath)
  {
    assert "/a/bc"[..4] == "/a/b";
  }

  /** Every path under a root, separator included, passes. */
  lemma ChildPassesPrefixTest(path: string, rootPath: string, realpath: string -> Option<string>)
    requires realpath(path).Some? && realpath(rootPath).Some?
    requires realpath(path).value == realpath(rootPath).value + "/" + path
    ensures IsSafePath(path, rootPath, realpath)
  {
    assert realpath(path).value[..|realpath(rootPath).value|] == realpath(rootPath).value;
  }

  const MaxNameLength: int := 255
  const KeptStemLength: int := 250

  /** The first three steps: separators become '_', NULs are dropped, and
      leading and trailing dots and spaces are stripped. */
  function CleanName(fileName: string): (r: string)
    ensures '/' !in r && '\\' !in r && '\0' !in r
    ensures |r| > 0 ==> r[0] !in {'.', ' '} && r[|r| - 1] !in {'.', ' '}
  {
    var noSlash := ReplaceChar(fileName, '/', "_");
    var noSep := ReplaceChar(noSlash, '\\', "_");
    var noNul := ReplaceChar(noSep, '\0', "");
    assert '/' !in noSlash;
    assert '/' !in noSep && '\\' !in noSep;
    assert '/' !in noNul && '\\' !in noNul && '\0' !in noNul;
    Strip(noNul, {'.', ' '})
  }

  /** `sanitize_filename` as written: a cleaned name longer than 255
      characters keeps the first 250 characters of its stem and its whole
      extension. */
  function SanitizeFilename(fileName: string): (r: string)
    ensures '/' !in r && '\\' !in r && '\0' !in r
    ensures |CleanName(fileName)| <= MaxNameLength ==> r == CleanName(fileName)
    ensures |CleanName(fileName)| > MaxNameLength ==>
      r == Ordering.Take(SplitExt(CleanName(fileName)).0, KeptStemLength) + SplitExt(CleanName(fileName)).1
  {
    var name := CleanName(fileName);
    if |name| > MaxNameLength then
      var split := SplitExt(name);
      var kept := Ordering.Take(split.0, KeptStemLength);
      NoCharsKept(split.0, split.1, kept);
      kept + split.1
    else name
  }

  /** Cutting the stem and re-attaching the extension introduces no
      separator or NUL that the name did not have. */
  lemma NoCharsKept(stem: string, ext: string, kept: string)
    requires '/' !in stem + ext && '\\' !in stem + ext && '\0' !in stem + ext
    requires |kept| <= |stem| && kept == stem[..|kept|]
    ensures '/' !in kept + ext && '\\' !in kept + ext && '\0' !in kept + ext
  {
    forall c | c in kept
      ensures c in stem
    {
      var i :| 0 <= i < |kept| && kept[i] == c;
      assert stem[i] == c;
    }
  }

  /** The length limit does not hold: a name made of one letter, a dot and
      an extension body of 255 or more plain letters comes back unchanged,
      longer than 255 characters ("a." followed by 300 'b's has 302). */
  lemma {:induction false} SanitizeCanExceedLimit(tail: string)
    requires |tail| >= MaxNameLength
    requires forall k :: 0 <= k < |tail| ==> tail[k] == 'b'
    ensures |SanitizeFilename("a." + tail)| == |tail| + 2 > MaxNameLength
  {
    var long := "a." + tail;
    PlainLongName(tail);
    SanitizeKeepsOneLetterStem(long);
  }

  /** "a." followed by plain letters is already clean, and its extension
      starts at the dot. */
  lemma PlainLongName(tail: string)
    requires |tail| > 0
    requires forall k :: 0 <= k < |tail| ==> tail[k] == 'b'
    ensures var long := "a." + tail;
      CleanName(long) == long && SplitExt(long) == (long[..1], long[1..])
  {
    var long := "a." + tail;
    assert forall k :: 2 <= k < |long| ==> long[k] == 'b';
    PlainNameIsClean(long);
    PlainNameSplitsAtDot(long);
  }

  lemma PlainNameIsClean(long: string)
    requires |long| > 2 && long[..2] == "a."
    requires forall k :: 2 <= k < |long| ==> long[k] == 'b'
    ensures CleanName(long) == long
  {
    assert long[0] == 'a' && long[1] == '.' && long[|long| - 1] == 'b';
    assert forall k :: 0 <= k < |long| ==> long[k] in {'a', '.', 'b'};
    CleanKeepsPlainName(long);
  }

  lemma PlainNameSplitsAtDot(long: string)
    requires |long| > 2 && long[..2] == "a."
    requires forall k :: 2 <= k < |long| ==> long[k] == 'b'
    ensures SplitExt(long) == (long[..1], long[1..])
  {
    assert long[0] == 'a' && long[1] == '.';
    assert LastIndexOf(long, '/') == -1 by {
      assert forall k :: 0 <= k < |long| ==> long[k] != '/';
      LastIndexOfAbsent(long, '/');
    }
    assert LastIndexOf(long, '.') == 1 by { LastDotAfterRun(long, 1); }
    assert HasNonDot(long, 0, 1);
  }

  /** A clean name whose stem is one character keeps its length. */
  lemma SanitizeKeepsOneLetterStem(name: string)
    requires |name| >= 1 && CleanName(name) == name && SplitExt(name) == (name[..1], name[1..])
    ensures |SanitizeFilename(name)| == |name|
  {
    assert |Ordering.Take(name[..1], KeptStemLength)| == 1;
  }

  lemma {:induction false} LastDotAfterRun(s: string, at: nat)
    requires at < |s| && s[at] == '.'
    requires forall k :: at < k < |s| ==> s[k] != '.'
    ensures LastIndexOf(s, '.') == at
    decreases |s|
  {
    if s[|s| - 1] != '.' {
      LastDotAfterRun(s[..|s| - 1], at);
    }
  }

  /** A name without separators, NULs or edge dots and spaces is cleaned to
      itself. */
  lemma {:induction false} CleanKeepsPlainName(s: string)
    requires '/' !in s && '\\' !in s && '\0' !in s
    requires |s| > 0 ==> s[0] !in {'.', ' '} && s[|s| - 1] !in {'.', ' '}
    ensures CleanName(s) == s
  {
    ReplaceAbsent(s, '/', "_");
    ReplaceAbsent(s, '\\', "_");
    ReplaceAbsent(s, '\0', "");
    StripKeepsTrimmed(s, {'.', ' '});
  }

  lemma StripKeepsTrimmed(s: string, chars: set<char>)
    requires |s| > 0 ==> s[0] !in chars && s[|s| - 1] !in chars
    ensures Strip(s, chars) == s
  {
  }

  lemma {:induction false} ReplaceAbsent(s: string, target: char, replacement: string)
    requires target !in s
    ensures ReplaceChar(s, target, replacement) == s
    decreases |s|
  {
    if |s| > 0 {
      ReplaceAbsent(s[1..], target, replacement);
      assert s == [s[0]] + s[1..];
    }
  }

  /** The evidently intended sanitiser: the result never exceeds 255
      characters. The extension is kept whole when it fits, and the stem is
      cut to leave room for it; an extension longer than the limit is cut
      with the rest of the name. */
  function SanitizeFilenameBounded(fileName: string): (r: string)
    ensures '/' !in r && '\\' !in r && '\0' !in r
    ensures |r| <= MaxNameLength
    ensures |CleanName(fileName)| <= MaxNameLength ==> r == CleanName(fileName)
    ensures |CleanName(fileName)| > MaxNameLength && |SplitExt(CleanName(fileName)).1| <= MaxNameLength ==>
      EndsWith(r, SplitExt(CleanName(fileName)).1)
      && StartsWith(CleanName(fileName), r[..|r| - |SplitExt(CleanName(fileName)).1|])
  {
    BoundedName(CleanName(fileName))
  }

  /** The length bound applied to an already cleaned name. */
  function BoundedName(name: string): (r: string)
    requires '/' !in name && '\\' !in name && '\0' !in name
    ensures '/' !in r && '\\' !in r && '\0' !in r
    ensures |r| <= MaxNameLength
    ensures |name| <= MaxNameLength ==> r == name
    ensures |name| > MaxNameLength && |SplitExt(name).1| <= MaxNameLength ==>
      EndsWith(r, SplitExt(name).1) && StartsWith(name, r[..|r| - |SplitExt(name).1|])
  {
    if |name| > MaxNameLength then
      var (stem, ext) := SplitExt(name);
      if |ext| <= MaxNameLength then
        CutStem(stem, ext, MaxNameLength - |ext|)
      else
        assert name + "" == name;
        NoCharsKept(name, "", name[..MaxNameLength]);
        assert name[..MaxNameLength] + "" == name[..MaxNameLength];
        name[..MaxNameLength]
    else name
  }

  /** The stem cut to `room` characters, followed by the whole extension. */
  function CutStem(stem: string, ext: string, room: nat): (r: string)
    requires '/' !in stem + ext && '\\' !in stem + ext && '\0' !in stem + ext
    ensures '/' !in r && '\\' !in r && '\0' !in r
    ensures |r| <= room + |ext| && EndsWith(r, ext)
    ensures StartsWith(stem + ext, r[..|r| - |ext|])
  {
    var kept := if |stem| <= room then stem else stem[..room];
    NoCharsKept(stem, ext, kept);
    assert (kept + ext)[..|kept|] == kept;
    assert (stem + ext)[..|kept|] == kept;
    kept + ext
  }
}
