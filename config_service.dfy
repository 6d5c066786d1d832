/** The frontend's configuration service: the public configuration once it
    has been fetched, and the upload checks and labels computed from it.
    Before the configuration arrives every check refuses. */
module FrontendConfig {
  import opened Common
  import opened FrontendFileService

  /** The public configuration the backend serves. */
  datatype AppConfig = AppConfig(maxFileSize: int, allowedExtensions: seq<string>, scanDepth: int, environment: string)

  const UnknownSizeLabel: string := "Unknown"
  const ExtensionSeparator: string := ", "

  /** `getFileExtension`: no extension without a dot, else a dot and the
      lower-cased last piece. */
  function FileExtension(filename: string): (ext: string)
    ensures ext == "" <==> '.' !in filename
    ensures ext != "" ==> ext[0] == '.' && ext[1..] == Lower(LastPiece(filename)) && '.' !in ext[1..]
  {
    var parts := Split(filename, '.');
    LastPieceIsLastSplit(filename);
    SplitHasDot(filename);
    if |parts| < 2 then "" else "." + Lower(parts[|parts| - 1])
  }

  /** `split('.')` gives two or more pieces exactly when there is a dot. */
  lemma SplitHasDot(s: string)
    ensures |Split(s, '.')| >= 2 <==> '.' in s
  {
    var i := LastIndexOf(s, '.');
    if i < 0 {
      LastIndexOfNone(s, '.');
    } else {
      assert s[i] == '.';
    }
  }

  /** Every piece is written into the joined string. */
  lemma {:induction false} JoinContainsParts(parts: seq<string>, sep: string, k: nat)
    requires k < |parts|
    ensures Contains(JoinWith(parts, sep), parts[k])
    decreases |parts|
  {
    var n := |parts|;
    if n == 1 {
      ContainsInfix("", parts[0], "");
      assert "" + parts[0] + "" == parts[0];
    } else if k == n - 1 {
      ContainsInfix(JoinWith(parts[..n - 1], sep) + sep, parts[k], "");
      assert JoinWith(parts[..n - 1], sep) + sep + parts[k] + "" == JoinWith(parts, sep);
    } else {
      var front := JoinWith(parts[..n - 1], sep);
      JoinContainsParts(parts[..n - 1], sep, k);
      assert parts[..n - 1][k] == parts[k];
      assert StartsWith(JoinWith(parts, sep), front);
      ContainsFromPrefix(JoinWith(parts, sep), front, parts[k]);
    }
  }

  class ConfigService {
    var config: Option<AppConfig>

    constructor ()
      ensures config == None
    {
      config := None;
    }

    /** `loadConfig`: the fetched configuration becomes current. */
    method LoadConfig(fetched: AppConfig)
      modifies this
      ensures config == Some(fetched)
    {
      config := Some(fetched);
    }

    /** `isFileSizeAllowed`: refused before the configuration is known,
        else the size must not exceed the maximum. */
    function IsFileSizeAllowed(sizeInBytes: int): (allowed: bool)
      reads this
      ensures config.None? ==> !allowed
      ensures allowed <==> config.Some? && sizeInBytes <= config.value.maxFileSize
    {
      config.Some? && sizeInBytes <= config.value.maxFileSize
    }

    /** `isExtensionAllowed`: refused before the configuration is known,
        else the extension must be listed. */
    function IsExtensionAllowed(filename: string): (allowed: bool)
      reads this
      ensures config.None? ==> !allowed
      ensures allowed <==> config.Some? && FileExtension(filename) in config.value.allowedExtensions
      ensures allowed && '.' in filename ==> exists e :: e in config.value.allowedExtensions && |e| > 0 && e[0] == '.'
      ensures allowed && '.' !in filename ==> "" in config.value.allowedExtensions
    {
      config.Some? && FileExtension(filename) in config.value.allowedExtensions
    }

    /** `getMaxFileSizeFormatted`, with the number formatting as a
        parameter. */
    function MaxFileSizeFormatted(formatFileSize: int -> string): (text: string)
      reads this
      ensures config.None? ==> text == UnknownSizeLabel
      ensures config.Some? ==> text == formatFileSize(config.value.maxFileSize)
    {
      if config.None? then UnknownSizeLabel else formatFileSize(config.value.maxFileSize)
    }

    /** `getAllowedExtensionsString`: empty before the configuration is
        known, else the allowed extensions in order, joined by ", ", so
        that every one of them appears in the text. */
    function AllowedExtensionsString(): (text: string)
      reads this
      ensures config.None? ==> text == ""
      ensures config.Some? ==> text == JoinWith(config.value.allowedExtensions, ExtensionSeparator)
      ensures config.Some? ==> forall k :: 0 <= k < |config.value.allowedExtensions| ==>
                Contains(text, config.value.allowedExtensions[k])
    {
      if config.None? then ""
      else
        var exts := config.value.allowedExtensions;
        forall k | 0 <= k < |exts|
          ensures Contains(JoinWith(exts, ExtensionSeparator), exts[k])
        {
          JoinContainsParts(exts, ExtensionSeparator, k);
        }
        JoinWith(exts, ExtensionSeparator)
    }
  }
}
