/** Text primitives with the exact semantics of the Python and JavaScript
    string methods the system uses: `str.split`, `str.join`, `str.strip`,
    `String.prototype.trim`, prefix and suffix tests, and decimal rendering. */
module Strings {
  import opened Base

  // ---------------------------------------------------------------------------
  // Occurrences, prefixes, suffixes
  // ---------------------------------------------------------------------------

  /** `p` occurs in `s` starting at index `i`. */
  predicate OccursAt(s: string, p: string, i: nat) {
    i + |p| <= |s| && s[i..i + |p|] == p
  }

  /** Python `p in s` / JavaScript `s.includes(p)`. */
  predicate Contains(s: string, p: string) {
    exists i: nat :: i <= |s| && OccursAt(s, p, i)
  }

  /** Python `s.startswith(p)` / JavaScript `s.startsWith(p)`. */
  predicate StartsWith(s: string, p: string) {
    |p| <= |s| && s[..|p|] == p
  }

  /** Python `s.endswith(p)` / JavaScript `s.endsWith(p)`. */
  predicate EndsWith(s: string, p: string) {
    |p| <= |s| && s[|s| - |p|..] == p
  }

  /** Index of the first occurrence of a non-empty `p` in `s` at or after `from`. */
  function FindFrom(s: string, p: string, from: nat): (r: Option<nat>)
    requires |p| > 0 && from <= |s|
    ensures r.Some? ==> from <= r.value && OccursAt(s, p, r.value)
    ensures forall j: nat :: from <= j && (r.None? || j < r.value) ==> !OccursAt(s, p, j)
    decreases |s| - from
  {
    if from + |p| > |s| then None
    else if s[from..from + |p|] == p then Some(from)
    else FindFrom(s, p, from + 1)
  }

  /** The first occurrence is the one `FindFrom` reports. */
  lemma FindFirst(s: string, p: string, i: nat)
    requires |p| > 0 && OccursAt(s, p, i)
    requires forall j: nat :: j < i ==> !OccursAt(s, p, j)
    ensures FindFrom(s, p, 0) == Some(i)
  {
  }

  /** Python `s.find(p) == -1`, in the terms of `Contains`. */
  lemma FindNoneIffAbsent(s: string, p: string)
    requires |p| > 0
    ensures FindFrom(s, p, 0).None? <==> !Contains(s, p)
  {
    if FindFrom(s, p, 0).Some? {
      assert OccursAt(s, p, FindFrom(s, p, 0).value);
    }
  }

  // ---------------------------------------------------------------------------
  // split / join
  // ---------------------------------------------------------------------------

  /** Python `s.split(sep)` for a non-empty separator: the pieces between
      non-overlapping occurrences, scanned left to right. */
  function Split(s: string, sep: string): (r: seq<string>)
    requires |sep| > 0
    ensures |r| >= 1
    decreases |s|
  {
    match FindFrom(s, sep, 0)
    case None => [s]
    case Some(i) => [s[..i]] + Split(s[i + |sep|..], sep)
  }

  /** Python `sep.join(xs)` / JavaScript `xs.join(sep)` on strings. */
  function Join(xs: seq<string>, sep: string): string
  {
    if |xs| == 0 then ""
    else if |xs| == 1 then xs[0]
    else xs[0] + sep + Join(xs[1..], sep)
  }

  /** Splitting never loses text: joining the pieces with the separator gives
      the input back, for every string. */
  lemma {:induction false} JoinSplit(s: string, sep: string)
    requires |sep| > 0
    ensures Join(Split(s, sep), sep) == s
    decreases |s|
  {
    var f := FindFrom(s, sep, 0);
    if f.Some? {
      var i := f.value;
      var rest := s[i + |sep|..];
      assert Split(s, sep) == [s[..i]] + Split(rest, sep);
      JoinSplit(rest, sep);
      JoinCons(s[..i], Split(rest, sep), sep);
      assert s[i..i + |sep|] == sep;
      assert s == s[..i] + s[i..i + |sep|] + rest;
    }
  }

  /** Joining a piece in front of a non-empty list adds it with one separator. */
  lemma JoinCons(x: string, xs: seq<string>, sep: string)
    requires |xs| >= 1
    ensures Join([x] + xs, sep) == x + sep + Join(xs, sep)
  {
    assert ([x] + xs)[1..] == xs;
  }

  /** The separator does not occur in `x + sep` before the end of `x`: the
      piece `x` can be told apart from the separator that follows it. */
  ghost predicate SeparableBy(x: string, sep: string) {
    forall k: nat :: k < |x| ==> !OccursAt(x + sep, sep, k)
  }

  /** Joining and then splitting gives the pieces back exactly when every
      piece is separable from the separator that follows it. */
  lemma {:induction false} SplitJoin(xs: seq<string>, sep: string)
    requires |sep| > 0 && |xs| >= 1
    requires forall i :: 0 <= i < |xs| ==> SeparableBy(xs[i], sep)
    ensures Split(Join(xs, sep), sep) == xs
  {
    var x := xs[0];
    if |xs| == 1 {
      forall j: nat | j + |sep| <= |x|
        ensures !OccursAt(x, sep, j)
      {
        PrefixOccurrence(x, sep, sep, j);
      }
      FindNoneIffAbsent(x, sep);
    } else {
      var rest := Join(xs[1..], sep);
      var s := x + sep + rest;
      assert Join(xs, sep) == s;
      forall j: nat | j < |x|
        ensures !OccursAt(s, sep, j)
      {
        PrefixOccurrence(x + sep, rest, sep, j);
      }
      assert s[|x|..|x| + |sep|] == sep;
      FindFirst(s, sep, |x|);
      assert s[..|x|] == x;
      assert s[|x| + |sep|..] == rest;
      SplitJoin(xs[1..], sep);
    }
  }

  /** An occurrence that ends inside `a` is an occurrence in `a` alone. */
  lemma PrefixOccurrence(a: string, b: string, p: string, j: nat)
    requires j + |p| <= |a|
    ensures OccursAt(a + b, p, j) <==> OccursAt(a, p, j)
  {
    assert (a + b)[j..j + |p|] == a[j..j + |p|];
  }

  /** For a one-character separator, being separable is just not containing it. */
  lemma SingleCharSeparable(x: string, c: char)
    requires forall i :: 0 <= i < |x| ==> x[i] != c
    ensures SeparableBy(x, [c])
  {
    forall k: nat | k < |x|
      ensures !OccursAt(x + [c], [c], k)
    {
      assert (x + [c])[k..k + 1] == [x[k]];
    }
  }

  // ---------------------------------------------------------------------------
  // Whitespace and trimming
  // ---------------------------------------------------------------------------

  /** Python `str.isspace` for one character: whitespace, separators and the
      Unicode space characters. `str.strip()` removes exactly these. */
  predicate IsPyWhitespace(c: char) {
    ('\t' <= c <= '\r') || ('\U{1c}' <= c <= '\U{1f}') || c == ' ' || c == '\U{85}' || c == '\U{a0}'
    || c == '\U{1680}' || ('\U{2000}' <= c <= '\U{200a}') || c == '\U{2028}' || c == '\U{2029}'
    || c == '\U{202f}' || c == '\U{205f}' || c == '\U{3000}'
  }

  /** ECMAScript WhiteSpace and LineTerminator: what `String.prototype.trim`
      removes and what the regular-expression class `\s` matches. */
  predicate IsJsWhitespace(c: char) {
    ('\t' <= c <= '\r') || c == ' ' || c == '\U{a0}' || c == '\U{1680}' || ('\U{2000}' <= c <= '\U{200a}')
    || c == '\U{2028}' || c == '\U{2029}' || c == '\U{202f}' || c == '\U{205f}' || c == '\U{3000}'
    || c == '\U{feff}'
  }

  /** `s` without its leading characters that satisfy `ws`. */
  function TrimStart(s: string, ws: char -> bool): (r: string)
    ensures |r| <= |s| && r == s[|s| - |r|..]
    ensures forall i :: 0 <= i < |s| - |r| ==> ws(s[i])
    ensures |r| > 0 ==> !ws(r[0])
  {
    if |s| > 0 && ws(s[0]) then TrimStart(s[1..], ws) else s
  }

  /** `s` without its trailing characters that satisfy `ws`. */
  function TrimEnd(s: string, ws: char -> bool): (r: string)
    ensures |r| <= |s| && r == s[..|r|]
    ensures forall i :: |r| <= i < |s| ==> ws(s[i])
    ensures |r| > 0 ==> !ws(r[|r| - 1])
  {
    if |s| > 0 && ws(s[|s| - 1]) then TrimEnd(s[..|s| - 1], ws) else s
  }

  /** Both ends trimmed. */
  function TrimBoth(s: string, ws: char -> bool): string {
    TrimEnd(TrimStart(s, ws), ws)
  }

  /** Python `s.strip()`. */
  function PyStrip(s: string): string {
    TrimBoth(s, IsPyWhitespace)
  }

  /** JavaScript `s.trim()`. */
  function JsTrim(s: string): string {
    TrimBoth(s, IsJsWhitespace)
  }

  /** Trimming gives the empty string exactly when every character is whitespace. */
  lemma TrimBothEmptyIff(s: string, ws: char -> bool)
    ensures TrimBoth(s, ws) == "" <==> forall i :: 0 <= i < |s| ==> ws(s[i])
  {
    var l := TrimStart(s, ws);
    if !forall i :: 0 <= i < |s| ==> ws(s[i]) {
      var i :| 0 <= i < |s| && !ws(s[i]);
      assert i >= |s| - |l|;
      assert l[i - (|s| - |l|)] == s[i];
      var r := TrimEnd(l, ws);
      assert |r| > i - (|s| - |l|);
    }
  }

  /** Trimming a string whose ends are not whitespace leaves it unchanged;
      conversely a trimmed string's ends are never whitespace. */
  lemma TrimBothFixedIff(s: string, ws: char -> bool)
    ensures TrimBoth(s, ws) == s <==> (|s| == 0 || (!ws(s[0]) && !ws(s[|s| - 1])))
  {
  }

  /** Trimming is idempotent. */
  lemma TrimBothIdempotent(s: string, ws: char -> bool)
    ensures TrimBoth(TrimBoth(s, ws), ws) == TrimBoth(s, ws)
  {
    var t := TrimBoth(s, ws);
    TrimBothFixedIff(t, ws);
    if |t| > 0 {
      var l := TrimStart(s, ws);
      assert t == l[..|t|];
      assert t[0] == l[0];
    }
  }

  // ---------------------------------------------------------------------------
  // Case and decimal rendering
  // ---------------------------------------------------------------------------

  /** Lower-casing restricted to ASCII letters. */
  function LowerAscii(s: string): (r: string)
    ensures |r| == |s|
    ensures forall i :: 0 <= i < |s| ==> r[i] == (if 'A' <= s[i] <= 'Z' then (s[i] as int + 32) as char else s[i])
  {
    if |s| == 0 then "" else LowerAscii(s[..|s| - 1]) + [LowerChar(s[|s| - 1])]
  }

  function LowerChar(c: char): char {
    if 'A' <= c <= 'Z' then (c as int + 32) as char else c
  }

  predicate IsDigit(c: char) {
    '0' <= c <= '9'
  }

  /** Non-empty and made only of the ASCII digits 0-9. */
  predicate AllDigits(s: string) {
    |s| > 0 && forall i :: 0 <= i < |s| ==> IsDigit(s[i])
  }

  function DigitChar(d: nat): char
    requires d < 10
  {
    ('0' as int + d) as char
  }

  /** Python `str(n)` / JavaScript `String(n)` for a natural number. */
  function NatToString(n: nat): (r: string)
    ensures AllDigits(r)
    ensures |r| == 1 || r[0] != '0'
  {
    if n < 10 then [DigitChar(n)] else NatToString(n / 10) + [DigitChar(n % 10)]
  }

  /** Decimal rendering of any integer, with a leading `-` when negative. */
  function IntToString(i: int): string {
    if i < 0 then "-" + NatToString(-i) else NatToString(i)
  }

  /** Value of a string of ASCII digits (Python `int(s)`; leading zeros allowed). */
  function DigitsValue(s: string): nat
    requires forall i :: 0 <= i < |s| ==> IsDigit(s[i])
  {
    if |s| == 0 then 0
    else
      assert IsDigit(s[|s| - 1]);
      10 * DigitsValue(s[..|s| - 1]) + (s[|s| - 1] as int - '0' as int)
  }

  /** Reading back a rendered number gives the number. */
  lemma {:induction false} DigitsValueOfNatToString(n: nat)
    ensures DigitsValue(NatToString(n)) == n
  {
    if n >= 10 {
      DigitsValueOfNatToString(n / 10);
      var r := NatToString(n);
      assert r[..|r| - 1] == NatToString(n / 10);
    }
  }

  // ---------------------------------------------------------------------------
  // Paths
  // ---------------------------------------------------------------------------

  /** Position of the last occurrence of `c` in `s`. */
  function LastIndexOf(s: string, c: char): (r: Option<nat>)
    ensures r.Some? ==> r.value < |s| && s[r.value] == c && forall j :: r.value < j < |s| ==> s[j] != c
    ensures r.None? ==> forall j :: 0 <= j < |s| ==> s[j] != c
  {
    if |s| == 0 then None
    else if s[|s| - 1] == c then Some(|s| - 1)
    else LastIndexOf(s[..|s| - 1], c)
  }

  /** `os.path.splitext(p)[-1]` on POSIX: from the last `.` of the final path
      component to the end, unless that component holds only dots before it
      (a leading-dot name such as `.csv` has no extension); otherwise `""`. */
  function Extension(p: string): (ext: string)
    ensures ext == "" || (ext[0] == '.' && EndsWith(p, ext))
    ensures forall i :: 1 <= i < |ext| ==> ext[i] != '.' && ext[i] != '/'
  {
    match LastIndexOf(p, '.')
    case None => ""
    case Some(dot) =>
      var slash := LastIndexOf(p, '/');
      var start := if slash.Some? then slash.value + 1 else 0;
      if slash.Some? && slash.value > dot then ""
      else if exists k :: start <= k < dot && p[k] != '.' then p[dot..]
      else ""
  }

  /** A file name whose stem ends in an ordinary character has the suffix
      it was given as its extension. */
  lemma ExtensionOfSuffix(stem: string, ext: string)
    requires |stem| > 0 && stem[|stem| - 1] != '.' && stem[|stem| - 1] != '/'
    requires |ext| > 0 && ext[0] == '.'
    requires forall i :: 1 <= i < |ext| ==> ext[i] != '.' && ext[i] != '/'
    ensures Extension(stem + ext) == ext
  {
    var p := stem + ext;
    assert LastIndexOf(p, '.') == Some(|stem|) by {
      var r := LastIndexOf(p, '.');
      assert p[|stem|] == '.';
      assert forall j :: |stem| < j < |p| ==> p[j] == ext[j - |stem|];
    }
    assert p[|stem| - 1] == stem[|stem| - 1];
    assert forall j :: |stem| - 1 < j < |p| ==> p[j] != '/' by {
      assert forall j :: |stem| <= j < |p| ==> p[j] == ext[j - |stem|];
    }
    assert p[|stem|..] == ext;
  }

  /** A name made of one dot and a suffix has no extension: `.csv` is a
      hidden file called `.csv`, not a CSV file. */
  lemma LeadingDotNoExtension(ext: string)
    requires |ext| > 0 && ext[0] == '.'
    requires forall i :: 1 <= i < |ext| ==> ext[i] != '.' && ext[i] != '/'
    ensures Extension(ext) == ""
  {
    assert LastIndexOf(ext, '.') == Some(0) by {
      assert ext[0] == '.';
    }
  }
}
