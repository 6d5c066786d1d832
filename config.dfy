/** Application settings: the defaults, the field validators that reject a
    bad SECRET_KEY, MAX_FILE_SIZE or SCAN_DEPTH, the root-folder check, and
    the extension allow-list read from the comma-separated setting. */
module Config {
  import opened Common

  /** The outcome of a field validator: the accepted value, or the reason
      the settings object cannot be built. */
  datatype Validated<T> = Accepted(value: T) | Rejected(reason: string)

  /** The settings the modelled code reads. */
  datatype Settings = Settings(
    env: string,
    secretKey: string,
    maxFileSize: int,
    allowedExtensions: string,
    scanDepth: int,
    maxBackupsToKeep: int)

  const DefaultEnv: string := "development"
  const DefaultMaxFileSize: int := 104857600
  const DefaultAllowedExtensions: string := ".pdf,.mp4,.mp3,.txt,.docx,.jpg,.png,.epub"
  const DefaultScanDepth: int := 10
  const DefaultMaxBackupsToKeep: int := 10

  /** Substrings that mark a production secret key as weak. */
  const WeakKeys: seq<string> := ["my-secret-key", "change-this", "secret", "CHANGE-THIS", "dev-secret"]

  const MinSecretKeyLength: int := 32
  const MinMaxFileSize: int := 1024
  const MaxMaxFileSize: int := 5368709120
  const MinScanDepth: int := 1
  const MaxScanDepth: int := 50

  /** Python's `any(weak in v for weak in weaks)`. */
  function AnyContained(v: string, weaks: seq<string>): (b: bool)
    ensures b <==> exists w :: w in weaks && Contains(v, w)
  {
    if |weaks| == 0 then false
    else if Contains(v, weaks[0]) then
      assert weaks[0] in weaks;
      true
    else
      assert (exists w :: w in weaks && Contains(v, w)) ==> (exists w :: w in weaks[1..] && Contains(v, w)) by {
        if exists w :: w in weaks && Contains(v, w) {
          var w :| w in weaks && Contains(v, w);
          assert w in weaks[1..];
        }
      }
      AnyContained(v, weaks[1..])
  }

  /** The refusal of a weak key, with the command that makes a strong one. */
  const WeakSecretKeyMessage: string :=
    "SECRET_KEY is too weak for production! "
    + "Use: python -c 'import secrets; print(secrets.token_urlsafe(32))'"

  /** The SECRET_KEY validator. `env` is the already validated ENV field. */
  function ValidateSecretKey(env: string, v: string): (r: Validated<string>)
    ensures r.Accepted? ==> r.value == v
    ensures env != "production" ==> r.Accepted?
    ensures env == "production" ==>
      (r.Accepted? <==> |v| >= MinSecretKeyLength && forall w :: w in WeakKeys ==> !Contains(v, w))
    ensures r.Rejected? ==> r.reason == WeakSecretKeyMessage
  {
    if env == "production" && (AnyContained(v, WeakKeys) || |v| < MinSecretKeyLength) then
      Rejected(WeakSecretKeyMessage)
    else
      Accepted(v)
  }

  /** A key longer than the minimum is still refused in production when a
      longer weak entry such as "my-secret-key" contains a shorter one:
      every key holding "secret" anywhere is refused. */
  lemma {:induction false} SecretSubstringAlwaysRejected(v: string)
    requires Contains(v, "secret")
    ensures ValidateSecretKey("production", v).Rejected?
  {
    assert WeakKeys[2] == "secret";
    assert "secret" in WeakKeys;
  }

  /** The three entries "change-this", "secret" and "CHANGE-THIS" already
      decide the weak-key test: the other two entries contain "secret". */
  lemma {:induction false} WeakKeysReduceToThree(v: string)
    ensures AnyContained(v, WeakKeys) <==>
      Contains(v, "change-this") || Contains(v, "secret") || Contains(v, "CHANGE-THIS")
  {
    SecretInside("my-secret-key", 3);
    var dev := "dev-" + "secret";
    assert dev == "dev-secret";
    SecretInside(dev, 4);
    if Contains(v, "my-secret-key") {
      ContainsTrans(v, "my-secret-key", "secret");
    }
    if Contains(v, "dev-secret") {
      ContainsTrans(v, "dev-secret", "secret");
    }
    assert WeakKeys[2] == "secret";
    assert WeakKeys[1] == "change-this";
    assert WeakKeys[3] == "CHANGE-THIS";
  }

  lemma {:induction false} SecretInside(s: string, at: nat)
    requires at + 6 <= |s| && s[at..at + 6] == "secret"
    ensures Contains(s, "secret")
    decreases at
  {
    if at > 0 {
      assert s[1..][at - 1..at + 5] == s[at..at + 6];
      SecretInside(s[1..], at - 1);
    }
  }

  /** The MAX_FILE_SIZE validator: between 1 KiB and 5 GiB inclusive. */
  function ValidateMaxFileSize(v: int): (r: Validated<int>)
    ensures r.Accepted? <==> MinMaxFileSize <= v <= MaxMaxFileSize
    ensures r.Accepted? ==> r.value == v
  {
    if v < MinMaxFileSize then Rejected("MAX_FILE_SIZE must be at least 1KB")
    else if v > MaxMaxFileSize then Rejected("MAX_FILE_SIZE cannot exceed 5GB")
    else Accepted(v)
  }

  /** The SCAN_DEPTH validator: between 1 and 50 inclusive. */
  function ValidateScanDepth(v: int): (r: Validated<int>)
    ensures r.Accepted? <==> MinScanDepth <= v <= MaxScanDepth
    ensures r.Accepted? ==> r.value == v
  {
    if v < MinScanDepth then Rejected("SCAN_DEPTH must be at least 1")
    else if v > MaxScanDepth then Rejected("SCAN_DEPTH cannot exceed 50 (performance risk)")
    else Accepted(v)
  }

  /** The defaults pass their own validators. */
  lemma DefaultsAreAccepted()
    ensures ValidateMaxFileSize(DefaultMaxFileSize).Accepted?
    ensures ValidateScanDepth(DefaultScanDepth).Accepted?
  {
  }

  /** Directories that may never serve as the root folder. */
  const SystemDirs: seq<string> := [
    "/", "/bin", "/boot", "/dev", "/etc", "/lib", "/proc", "/root",
    "/sbin", "/sys", "/usr", "/var",
    "C:\\Windows", "C:\\Program Files", "C:\\Program Files (x86)"]

  /** What the file system says about a candidate root: whether it exists,
      is a directory and is readable, and its canonical form (None when
      canonicalisation raises, `raised` then being the exception's text). */
  datatype RootProbe = RootProbe(pathExists: bool, isDir: bool, readable: bool, canonical: Option<string>, raised: string)

  /** The catch-all report of an exception, with the exception's text. */
  const RootErrorPrefix: string := "Validation error: "

  /** The dictionary `validate_root_path` returns. */
  datatype RootReport = RootReport(
    valid: bool,
    pathExists: bool,
    readable: bool,
    canonical: bool,
    path: Option<string>,
    error: Option<string>)

  /** The root-folder check: exists, is a directory, is readable, has a
      canonical form, and that form is not a system directory, in that
      order; the first failing step leaves the flags set so far. */
  function ValidateRootPath(path: string, probe: RootProbe): (r: RootReport)
    ensures r.valid <==> probe.pathExists && probe.isDir && probe.readable
                         && probe.canonical.Some? && probe.canonical.value !in SystemDirs
    ensures r.valid ==> r.error == None && r.path == probe.canonical
    ensures !r.valid ==> r.error.Some?
    ensures r.pathExists == probe.pathExists
    ensures r.readable <==> probe.pathExists && probe.isDir && probe.readable
    ensures r.canonical <==> r.valid
    ensures r.path.Some? <==> r.readable && probe.canonical.Some?
    ensures r.path.Some? ==> r.path == probe.canonical
    ensures r.readable && probe.canonical.None? ==> r.error == Some(RootErrorPrefix + probe.raised)
  {
    var start := RootReport(false, false, false, false, None, None);
    if !probe.pathExists then start.(error := Some("Path does not exist: " + path))
    else
      var existing := start.(pathExists := true);
      if !probe.isDir then existing.(error := Some("Path is not a directory"))
      else if !probe.readable then existing.(error := Some("No read permission for path"))
      else
        var readable := existing.(readable := true);
        match probe.canonical
        case None => readable.(error := Some(RootErrorPrefix + probe.raised))
        case Some(c) =>
          var canon := readable.(path := Some(c), canonical := true);
          if c in SystemDirs then
            canon.(error := Some("Cannot use system directory as root folder"), canonical := false)
          else
            canon.(valid := true)
  }

  /** An existing path that is not a directory is reported as existing but
      neither readable nor valid. */
  lemma ExistingFileIsNotARoot(path: string, probe: RootProbe)
    requires probe.pathExists && !probe.isDir
    ensures var r := ValidateRootPath(path, probe);
      r.pathExists && !r.readable && !r.valid && r.error == Some("Path is not a directory")
  {
  }

  /** `get_allowed_extensions_list`: the setting split on ',' and each entry
      stripped of surrounding whitespace. */
  function AllowedExtensionsList(setting: string): (r: seq<string>)
    ensures |r| == |Split(setting, ',')|
    ensures forall k :: 0 <= k < |r| ==> r[k] == Strip(Split(setting, ',')[k], Whitespace)
    ensures forall k :: 0 <= k < |r| ==>
      ',' !in r[k] && (|r[k]| > 0 ==> r[k][0] !in Whitespace && r[k][|r[k]| - 1] !in Whitespace)
  {
    var parts := Split(setting, ',');
    seq(|parts|, k requires 0 <= k < |parts| => Strip(parts[k], Whitespace))
  }

  /** `is_extension_allowed`: the lower-cased `splitext` extension is one of
      the configured entries, compared as written. */
  predicate IsExtensionAllowed(setting: string, fileName: string)
    ensures IsExtensionAllowed(setting, fileName) <==>
              exists k :: 0 <= k < |Split(setting, ',')| && Strip(Split(setting, ',')[k], Whitespace) == Lower(SplitExt(fileName).1)
  {
    Lower(SplitExt(fileName).1) in AllowedExtensionsList(setting)
  }

  lemma {:induction false} LowerIdempotent(s: string)
    ensures Lower(Lower(s)) == Lower(s)
  {
    var l := Lower(s);
    assert forall i :: 0 <= i < |s| ==> LowerChar(l[i]) == l[i];
  }

  /** Entries are not lower-cased: an entry with an upper-case letter, such
      as ".PDF", never admits any file. */
  lemma {:induction false} UpperCaseEntryNeverMatches(setting: string, entry: string, fileName: string)
    requires entry in AllowedExtensionsList(setting)
    requires Lower(entry) != entry
    ensures Lower(SplitExt(fileName).1) != entry
  {
    LowerIdempotent(SplitExt(fileName).1);
  }
}
