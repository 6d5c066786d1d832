/** Helpers shared by every module: an optional value and the handful of
    string operations (lower-casing, prefix and substring tests, splitting,
    stripping, joining) that Python and TypeScript give the original code. */
module Common {

  datatype Option<+T> = None | Some(value: T)

  /** A value, or the message of the exception raised instead. */
  datatype Result<+T> = Ok(value: T) | Err(message: string)

  /** What an HTTP endpoint answers: a body, or the status and detail of
      the `HTTPException` it raised. */
  datatype Response<+T> = Success(body: T) | Failure(status: nat, detail: string)

  const BadRequest: nat := 400
  const Forbidden: nat := 403
  const NotFound: nat := 404

  /** ASCII lower-casing; letters outside A-Z are left alone. */
  function LowerChar(c: char): char
  {
    if 'A' <= c <= 'Z' then (c as int + 32) as char else c
  }

  function Lower(s: string): (r: string)
    ensures |r| == |s|
    ensures forall i :: 0 <= i < |s| ==> r[i] == LowerChar(s[i])
  {
    seq(|s|, i requires 0 <= i < |s| => LowerChar(s[i]))
  }

  predicate StartsWith(s: string, prefix: string)
  {
    |prefix| <= |s| && s[..|prefix|] == prefix
  }

  predicate EndsWith(s: string, suffix: string)
  {
    |suffix| <= |s| && s[|s| - |suffix|..] == suffix
  }

  /** Python's `sub in s` / TypeScript's `s.includes(sub)` on strings. */
  predicate Contains(s: string, sub: string)
  {
    StartsWith(s, sub) || (|s| > 0 && Contains(s[1..], sub))
  }

  /** Index of the last occurrence of `c`, or -1 (Python's `rfind`). */
  function LastIndexOf(s: string, c: char): (r: int)
    ensures -1 <= r < |s|
    ensures r >= 0 ==> s[r] == c
    ensures forall k :: r < k < |s| ==> s[k] != c
  {
    if |s| == 0 then -1
    else if s[|s| - 1] == c then |s| - 1
    else LastIndexOf(s[..|s| - 1], c)
  }

  /** Python's `str.split(sep)` with a one-character separator: always at
      least one piece, and the pieces joined back with `sep` give `s`. */
  function Split(s: string, sep: char): (r: seq<string>)
    ensures |r| >= 1
    ensures forall k :: 0 <= k < |r| ==> sep !in r[k]
    decreases |s|
  {
    var i := LastIndexOf(s, sep);
    if i < 0 then [s] else Split(s[..i], sep) + [s[i + 1..]]
  }

  /** Index of the first occurrence of `c`, or `|s|` when there is none. */
  function IndexOf(s: string, c: char): (n: nat)
    ensures n <= |s| && c !in s[..n]
    ensures n < |s| ==> s[n] == c
  {
    if |s| == 0 then 0
    else if s[0] == c then 0
    else
      var n := 1 + IndexOf(s[1..], c);
      assert s[..n] == [s[0]] + s[1..][..n - 1];
      n
  }

  /** The first piece of a split is the text before the first separator. */
  lemma {:induction false} SplitFirstPiece(s: string, sep: char)
    ensures Split(s, sep)[0] == s[..IndexOf(s, sep)]
    decreases |s|
  {
    var i := LastIndexOf(s, sep);
    if i >= 0 {
      SplitFirstPiece(s[..i], sep);
      IndexOfPrefix(s, i, sep);
      var n := IndexOf(s, sep);
      assert s[..i][..n] == s[..n];
    } else {
      LastIndexOfNone(s, sep);
      IndexOfAbsent(s, sep);
    }
  }

  lemma LastIndexOfNone(s: string, c: char)
    requires LastIndexOf(s, c) == -1
    ensures c !in s
  {
    assert forall k :: 0 <= k < |s| ==> s[k] != c;
  }

  lemma {:induction false} IndexOfAbsent(s: string, c: char)
    requires c !in s
    ensures IndexOf(s, c) == |s|
    decreases |s|
  {
    if |s| > 0 {
      assert s[0] in s;
      assert forall x :: x in s[1..] ==> x in s;
      IndexOfAbsent(s[1..], c);
    }
  }

  /** Cutting `s` at an occurrence of `c` (or at its end) keeps the first
      occurrence. */
  lemma {:induction false} IndexOfPrefix(s: string, i: nat, c: char)
    requires i <= |s| && (i < |s| ==> s[i] == c)
    ensures IndexOf(s[..i], c) == IndexOf(s, c)
    decreases |s|
  {
    if |s| > 0 && s[0] != c {
      assert s[..i][1..] == s[1..][..i - 1];
      IndexOfPrefix(s[1..], i - 1, c);
    }
  }

  /** Joins pieces with a separator (Python's `sep.join`, TypeScript's `join`). */
  function JoinWith(parts: seq<string>, sep: string): string
  {
    if |parts| == 0 then ""
    else if |parts| == 1 then parts[0]
    else JoinWith(parts[..|parts| - 1], sep) + sep + parts[|parts| - 1]
  }

  lemma {:induction false} SplitJoin(s: string, sep: char)
    ensures JoinWith(Split(s, sep), [sep]) == s
    decreases |s|
  {
    var i := LastIndexOf(s, sep);
    if i >= 0 {
      var left := Split(s[..i], sep);
      SplitJoin(s[..i], sep);
      assert Split(s, sep) == left + [s[i + 1..]];
      var parts := left + [s[i + 1..]];
      assert parts[..|parts| - 1] == left;
      assert s == s[..i] + [sep] + s[i + 1..];
    }
  }

  /** Python's `s.lstrip(chars)` then `rstrip(chars)`. */
  function StripLeft(s: string, chars: set<char>): (r: string)
    ensures |r| <= |s| && r == s[|s| - |r|..]
    ensures |r| > 0 ==> r[0] !in chars
    ensures forall k :: 0 <= k < |s| - |r| ==> s[k] in chars
  {
    if |s| > 0 && s[0] in chars then StripLeft(s[1..], chars) else s
  }

  function StripRight(s: string, chars: set<char>): (r: string)
    ensures |r| <= |s| && r == s[..|r|]
    ensures |r| > 0 ==> r[|r| - 1] !in chars
    ensures forall k :: |r| <= k < |s| ==> s[k] in chars
  {
    if |s| > 0 && s[|s| - 1] in chars then StripRight(s[..|s| - 1], chars) else s
  }

  /** How many characters of `chars` open `s`. */
  function Leading(s: string, chars: set<char>): (n: nat)
    ensures n <= |s|
    ensures forall k :: 0 <= k < n ==> s[k] in chars
    ensures n < |s| ==> s[n] !in chars
  {
    if |s| > 0 && s[0] in chars then 1 + Leading(s[1..], chars) else 0
  }

  lemma {:induction false} LeadingOfStripLeft(s: string, chars: set<char>)
    ensures Leading(s, chars) == |s| - |StripLeft(s, chars)|
    decreases |s|
  {
    if |s| > 0 && s[0] in chars {
      LeadingOfStripLeft(s[1..], chars);
    }
  }

  /** The result is the slice of `s` left once every stripped character
      at either end is gone. */
  function Strip(s: string, chars: set<char>): (r: string)
    ensures |r| <= |s|
    ensures |r| > 0 ==> r[0] !in chars && r[|r| - 1] !in chars
    ensures forall c :: c in r ==> c in s
    ensures var a := Leading(s, chars);
      a + |r| <= |s| && r == s[a..a + |r|] && forall k :: a + |r| <= k < |s| ==> s[k] in chars
  {
    var l := StripLeft(s, chars);
    var r := StripRight(l, chars);
    LeadingOfStripLeft(s, chars);
    StripSlice(s, l, r, chars);
    assert |r| > 0 ==> r[0] == l[0] && r[|r| - 1] !in chars;
    r
  }

  lemma StripSlice(s: string, l: string, r: string, chars: set<char>)
    requires |l| <= |s| && l == s[|s| - |l|..]
    requires |r| <= |l| && r == l[..|r|] && forall k :: |r| <= k < |l| ==> l[k] in chars
    ensures var a := |s| - |l|;
      r == s[a..a + |r|] && (forall k :: a + |r| <= k < |s| ==> s[k] in chars)
      && forall c :: c in r ==> c in s
  {
    var a := |s| - |l|;
    assert forall k :: a + |r| <= k < |s| ==> s[k] == l[k - a];
    assert forall i :: 0 <= i < |r| ==> r[i] == s[a + i];
  }

  /** The characters Python's argument-less `str.strip()` removes (ASCII). */
  const Whitespace: set<char> := {' ', '\t', '\n', '\r', '\U{000B}', '\U{000C}'}

  /** Python's `s.replace(old, new)` for a one-character `target`. */
  function ReplaceChar(s: string, target: char, replacement: string): (r: string)
    ensures target !in replacement ==> target !in r
    ensures forall c :: c in r ==> c in s || c in replacement
  {
    if |s| == 0 then ""
    else (if s[0] == target then replacement else [s[0]]) + ReplaceChar(s[1..], target, replacement)
  }

  /** True when some character of s[from..to] is not a dot. */
  predicate HasNonDot(s: string, from: int, to: int)
  {
    exists k :: from <= k < to && 0 <= k < |s| && s[k] != '.'
  }

  /** Python's `os.path.splitext`: the extension is the text from the last
      '.' of the last path component, provided some non-dot character
      precedes that '.' inside the component ("a.b" -> ".b", ".bashrc" ->
      "", "a." -> "."). Root and extension concatenate back to `p`. */
  function SplitExt(p: string): (r: (string, string))
    ensures r.0 + r.1 == p
    ensures r.1 != [] ==> r.1[0] == '.' && '.' !in r.1[1..] && '/' !in r.1
    ensures r.1 != [] ==> HasNonDot(p, LastIndexOf(p, '/') + 1, |r.0|)
  {
    var sep := LastIndexOf(p, '/');
    var dot := LastIndexOf(p, '.');
    if dot > sep && HasNonDot(p, sep + 1, dot) then (p[..dot], p[dot..]) else (p, "")
  }

  /** `pathlib.PurePath(p).suffix`: the text from the last '.' of the last
      component, unless that '.' is the component's first or last character. */
  function PathSuffix(p: string): (r: string)
    ensures r != [] ==> r[0] == '.' && '.' !in r[1..] && '/' !in r && |r| >= 2 && EndsWith(p, r)
  {
    NameSuffix(p[LastIndexOf(p, '/') + 1..])
  }

  /** The suffix of one path component. */
  function NameSuffix(name: string): (r: string)
    ensures r != [] ==> r[0] == '.' && '.' !in r[1..] && |r| >= 2 && EndsWith(name, r)
  {
    var i := LastIndexOf(name, '.');
    if 0 < i < |name| - 1 then name[i..] else ""
  }

  lemma {:induction false} ContainsFromPrefix(s: string, mid: string, sub: string)
    requires StartsWith(s, mid) && Contains(mid, sub)
    ensures Contains(s, sub)
    decreases |mid|
  {
    if !StartsWith(mid, sub) {
      assert StartsWith(s[1..], mid[1..]);
      ContainsFromPrefix(s[1..], mid[1..], sub);
    }
  }

  /** A string contains only what fits inside it. */
  lemma {:induction false} ContainsFits(s: string, sub: string)
    ensures Contains(s, sub) ==> |sub| <= |s|
  {
    if !StartsWith(s, sub) && |s| > 0 {
      ContainsFits(s[1..], sub);
    }
  }

  /** A string contains whatever is written somewhere inside it. */
  lemma {:induction false} ContainsInfix(before: string, sub: string, after: string)
    ensures Contains(before + sub + after, sub)
    decreases |before|
  {
    var s := before + sub + after;
    if |before| == 0 {
      assert s[..|sub|] == sub;
    } else {
      assert s[1..] == before[1..] + sub + after;
      ContainsInfix(before[1..], sub, after);
    }
  }

  /** Substring containment is transitive. */
  lemma {:induction false} ContainsTrans(s: string, mid: string, sub: string)
    requires Contains(s, mid) && Contains(mid, sub)
    ensures Contains(s, sub)
    decreases |s|
  {
    if StartsWith(s, mid) {
      ContainsFromPrefix(s, mid, sub);
    } else {
      ContainsTrans(s[1..], mid, sub);
    }
  }

  /** The decimal form of a natural number, as Python's `str` prints it. */
  function NatString(n: nat): (s: string)
    ensures |s| > 0 && forall i :: 0 <= i < |s| ==> '0' <= s[i] <= '9'
    decreases n
  {
    var digit := ['0' + (n % 10) as char];
    if n < 10 then digit else NatString(n / 10) + digit
  }

  /** Distinct numbers print differently. */
  lemma {:induction false} NatStringInjective(a: nat, b: nat)
    requires NatString(a) == NatString(b)
    ensures a == b
    decreases a
  {
    var sa, sb := NatString(a), NatString(b);
    assert sa[|sa| - 1] == '0' + (a % 10) as char;
    assert sb[|sb| - 1] == '0' + (b % 10) as char;
    assert a % 10 == b % 10;
    if a >= 10 && b >= 10 {
      assert sa[..|sa| - 1] == NatString(a / 10);
      assert sb[..|sb| - 1] == NatString(b / 10);
      NatStringInjective(a / 10, b / 10);
    } else {
      NatStringOneDigit(a);
      NatStringOneDigit(b);
    }
  }

  lemma NatStringOneDigit(n: nat)
    ensures |NatString(n)| == 1 <==> n < 10
  {
    if n >= 10 {
      assert |NatString(n)| == |NatString(n / 10)| + 1;
    }
  }

  /** A character that does not occur has no last occurrence. */
  lemma {:induction false} LastIndexOfAbsent(s: string, c: char)
    requires c !in s
    ensures LastIndexOf(s, c) == -1
    decreases |s|
  {
    if |s| > 0 {
      assert s[..|s| - 1] <= s;
      LastIndexOfAbsent(s[..|s| - 1], c);
    }
  }
}
