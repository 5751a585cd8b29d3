/** The pure helpers of the browser's `utils.js`: relative times, e-mail
    shape, required fields and accepted file types. */
module WebUtils {
  import opened Base
  import opened Strings

  // ---------------------------------------------------------------------------
  // TimeUtils.timeAgo
  // ---------------------------------------------------------------------------

  /** The units `timeAgo` tries, coarsest first, with their length in seconds. */
  const Units: seq<(string, nat)> := [("año", 31536000), ("mes", 2592000), ("semana", 604800),
                                      ("día", 86400), ("hora", 3600), ("minuto", 60)]

  /** The answer for less than a minute, a future date or an invalid date. */
  const JustNow: string := "hace un momento"

  /** Whole seconds from `dateMs` to `nowMs`: `Math.floor(ms / 1000)`, which
      for a positive divisor is Dafny's division. */
  function ElapsedSeconds(nowMs: int, dateMs: int): int {
    (nowMs - dateMs) / 1000
  }

  /** Index of the first unit, from `i` on, of which at least one whole
      period has elapsed; `|Units|` when there is none. */
  function UnitFrom(diff: int, i: nat): (k: nat)
    requires i <= |Units|
    ensures i <= k <= |Units|
    ensures k < |Units| ==> diff / Units[k].1 >= 1
    ensures forall j :: i <= j < k ==> diff / Units[j].1 < 1
    decreases |Units| - i
  {
    if i == |Units| then i
    else
      AtLeastOnePeriod(diff, Units[i].1);
      if diff / Units[i].1 >= 1 then i
      else UnitFrom(diff, i + 1)
  }

  /** At least one whole period has elapsed exactly when the elapsed time
      reaches the period. */
  lemma AtLeastOnePeriod(diff: int, size: int)
    requires size > 0
    ensures diff / size >= 1 <==> diff >= size
  {
    var q, r := diff / size, diff % size;
    assert diff == size * q + r && 0 <= r < size;
    if q >= 1 {
      assert size * q >= size;
    } else {
      assert size * q <= 0;
    }
  }

  /** The units tried before the chosen one have not elapsed, the chosen one has. */
  lemma UnitFromBounds(diff: int)
    ensures var k := UnitFrom(diff, 0);
      (k < |Units| ==> Units[k].1 <= diff) && forall j :: 0 <= j < k ==> diff < Units[j].1
  {
    var k := UnitFrom(diff, 0);
    if k < |Units| {
      AtLeastOnePeriod(diff, Units[k].1);
    }
    forall j | 0 <= j < k ensures diff < Units[j].1 {
      AtLeastOnePeriod(diff, Units[j].1);
    }
  }

  /** `hace N unit`, with `s` appended to the unit when N > 1. */
  function Phrase(n: nat, unit: string): string {
    "hace " + NatToString(n) + " " + unit + (if n > 1 then "s" else "")
  }

  /** `timeAgo(dateString)` for a date `dateMs` milliseconds after the epoch
      (`None` for a string `Date` cannot read) at time `nowMs`. */
  function TimeAgo(nowMs: int, dateMs: Option<int>): (r: string)
    ensures dateMs.None? ==> r == JustNow
    ensures dateMs.Some? && ElapsedSeconds(nowMs, dateMs.value) < 60 ==> r == JustNow
    ensures dateMs.Some? && ElapsedSeconds(nowMs, dateMs.value) >= 60 ==>
      var diff := ElapsedSeconds(nowMs, dateMs.value);
      exists k :: 0 <= k < |Units| && Units[k].1 <= diff
        && (forall j :: 0 <= j < k ==> diff < Units[j].1)
        && r == Phrase(diff / Units[k].1, Units[k].0)
  {
    match dateMs
    case None => JustNow
    case Some(d) =>
      var diff := ElapsedSeconds(nowMs, d);
      var k := UnitFrom(diff, 0);
      UnitFromBounds(diff);
      if k == |Units| then
        assert diff < Units[5].1;
        JustNow
      else
        Phrase(diff / Units[k].1, Units[k].0)
  }

  /** The unit chosen for an elapsed time (`|Units|` for "a moment ago"). */
  function UnitOf(diff: int): nat {
    UnitFrom(diff, 0)
  }

  /** A longer elapsed time never gets a finer unit. */
  lemma UnitMonotone(d1: int, d2: int)
    requires d1 <= d2
    ensures UnitOf(d2) <= UnitOf(d1)
  {
    var k := UnitOf(d1);
    UnitFromBounds(d1);
    UnitFromBounds(d2);
    if k < |Units| {
      assert Units[k].1 <= d2;
    }
  }

  /** The count shown is at least 1 and stays below one period of the next
      coarser unit: at most 12 months, 4 weeks, 6 days, 23 hours or 59
      minutes (a year count is unbounded). */
  lemma CountBounds(diff: int)
    requires UnitOf(diff) < |Units|
    ensures var k := UnitOf(diff);
      diff / Units[k].1 >= 1 && (k > 0 ==> (diff / Units[k].1) * Units[k].1 < Units[k - 1].1)
  {
    var k := UnitOf(diff);
    UnitFromBounds(diff);
    QuotientBounds(diff, Units[k].1);
  }

  /** A quotient times its divisor never exceeds the dividend, and is at
      least 1 once the dividend reaches the divisor. */
  lemma QuotientBounds(a: int, b: int)
    requires b > 0
    ensures (a / b) * b <= a
    ensures a >= b ==> a / b >= 1
  {
    assert a == b * (a / b) + a % b;
  }

  /** Two months render as `hace 2 mess`: the plural `s` is appended to `mes`. */
  lemma TwoMonthsAsWritten(nowMs: int)
    ensures TimeAgo(nowMs, Some(nowMs - 2 * 2592000 * 1000)) == "hace 2 mess"
  {
    var diff := ElapsedSeconds(nowMs, nowMs - 2 * 2592000 * 1000);
    assert diff == 5184000;
    assert UnitFrom(diff, 0) == 1;
    assert NatToString(2) == "2";
  }

  /** The Spanish plural of each unit name. */
  const SpanishPlurals: map<string, string> := map["año" := "años", "mes" := "meses",
    "semana" := "semanas", "día" := "días", "hora" := "horas", "minuto" := "minutos"]

  /** Spanish pluralisation: `s` after a vowel, `es` after a consonant. */
  function Plural(unit: string): string {
    if |unit| > 0 && unit[|unit| - 1] in "aeiouáéíóú" then unit + "s" else unit + "es"
  }

  /** The pluralisation rule gives the right plural for every unit. */
  lemma PluralRuleAgrees()
    ensures forall k :: 0 <= k < |Units| ==> Units[k].0 in SpanishPlurals && Plural(Units[k].0) == SpanishPlurals[Units[k].0]
  {
    forall k | 0 <= k < |Units|
      ensures Units[k].0 in SpanishPlurals && Plural(Units[k].0) == SpanishPlurals[Units[k].0]
    {
      assert k == 0 || k == 1 || k == 2 || k == 3 || k == 4 || k == 5;
    }
  }

  /** The phrase with the unit in grammatical number. */
  function PhraseIntended(n: nat, unit: string): string {
    "hace " + NatToString(n) + " " + (if n > 1 then Plural(unit) else unit)
  }

  /** `timeAgo` as evidently intended: the same unit and count, the unit in
      its Spanish plural when the count exceeds one. */
  function TimeAgoIntended(nowMs: int, dateMs: Option<int>): (r: string)
    ensures dateMs.None? || ElapsedSeconds(nowMs, dateMs.value) < 60 ==> r == TimeAgo(nowMs, dateMs)
    ensures dateMs.Some? && UnitOf(ElapsedSeconds(nowMs, dateMs.value)) < |Units| ==>
      var diff := ElapsedSeconds(nowMs, dateMs.value);
      var k := UnitOf(diff);
      var n := diff / Units[k].1;
      r == "hace " + NatToString(n) + " " + (if n > 1 then SpanishPlurals[Units[k].0] else Units[k].0)
  {
    PluralRuleAgrees();
    match dateMs
    case None => JustNow
    case Some(d) =>
      var diff := ElapsedSeconds(nowMs, d);
      var k := UnitOf(diff);
      UnitFromBounds(diff);
      if k == |Units| then
        assert diff < Units[5].1;
        JustNow
      else
        PhraseIntended(diff / Units[k].1, Units[k].0)
  }

  /** Two months render as `hace 2 meses` in the intended version. */
  lemma TwoMonthsIntended(nowMs: int)
    ensures TimeAgoIntended(nowMs, Some(nowMs - 2 * 2592000 * 1000)) == "hace 2 meses"
  {
    var diff := ElapsedSeconds(nowMs, nowMs - 2 * 2592000 * 1000);
    assert diff == 5184000;
    assert UnitFrom(diff, 0) == 1;
    assert NatToString(2) == "2";
  }

  // ---------------------------------------------------------------------------
  // FormUtils.validateEmail
  // ---------------------------------------------------------------------------

  /** The character class `[^\s@]`. */
  predicate EmailChar(c: char) {
    !IsJsWhitespace(c) && c != '@'
  }

  predicate AllEmailChars(s: string) {
    forall i :: 0 <= i < |s| ==> EmailChar(s[i])
  }

  /** What `/^[^\s@]+@[^\s@]+\.[^\s@]+$/` accepts: the string splits at an
      `@` and a later `.` into three non-empty runs of `[^\s@]`. */
  ghost predicate MatchesEmailRegex(s: string) {
    exists at, dot :: 0 < at < dot - 1 && dot < |s| - 1 && s[at] == '@' && s[dot] == '.'
      && AllEmailChars(s[..at]) && AllEmailChars(s[at + 1..dot]) && AllEmailChars(s[dot + 1..])
  }

  /** The domain has a `.` that is neither its first nor its last character. */
  predicate HasInnerDot(d: string) {
    exists k :: 0 < k < |d| - 1 && d[k] == '.'
  }

  /** `validateEmail(email)`: no whitespace, exactly one `@` with a
      non-empty part before it, and a domain with an inner `.`. */
  function ValidateEmail(email: string): (ok: bool)
    ensures '@' !in email ==> !ok
    ensures ok ==> |email| >= 5 && email[0] != '@' && email[|email| - 1] != '@'
  {
    (forall i :: 0 <= i < |email| ==> !IsJsWhitespace(email[i]))
    && match LastIndexOf(email, '@')
       case None => false
       case Some(at) =>
         at > 0 && (forall i :: 0 <= i < at ==> email[i] != '@') && HasInnerDot(email[at + 1..])
  }

  /** A slice is made of `[^\s@]` characters exactly when each of its
      positions in the whole string is. */
  lemma EmailCharsSlice(s: string, a: nat, b: nat)
    requires a <= b <= |s|
    ensures AllEmailChars(s[a..b]) <==> forall i :: a <= i < b ==> EmailChar(s[i])
  {
    assert forall i :: a <= i < b ==> s[a..b][i - a] == s[i];
  }

  /** A string the scan accepts matches the regular expression. */
  lemma ScanImpliesRegex(s: string)
    requires ValidateEmail(s)
    ensures MatchesEmailRegex(s)
  {
    var at := LastIndexOf(s, '@').value;
    var d := s[at + 1..];
    var k :| 0 < k < |d| - 1 && d[k] == '.';
    var dot := at + 1 + k;
    assert s[dot] == d[k];
    EmailCharsSlice(s, 0, at);
    EmailCharsSlice(s, at + 1, dot);
    EmailCharsSlice(s, dot + 1, |s|);
    assert s[..at] == s[0..at];
    assert s[dot + 1..] == s[dot + 1..|s|];
  }

  /** A string the regular expression matches is accepted by the scan. */
  lemma RegexImpliesScan(s: string)
    requires MatchesEmailRegex(s)
    ensures ValidateEmail(s)
  {
    var at, dot :| 0 < at < dot - 1 && dot < |s| - 1 && s[at] == '@' && s[dot] == '.'
      && AllEmailChars(s[..at]) && AllEmailChars(s[at + 1..dot]) && AllEmailChars(s[dot + 1..]);
    RegexRunsCover(s, at, dot);
    forall i | 0 <= i < |s| ensures !IsJsWhitespace(s[i]) {
      if i != at && i != dot {
        assert EmailChar(s[i]);
      }
    }
    LastIndexOfAt(s, '@', at);
    var d := s[at + 1..];
    assert d[dot - at - 1] == '.';
  }

  /** The three runs of a regular-expression match cover every position
      but the `@` and the `.`. */
  lemma RegexRunsCover(s: string, at: nat, dot: nat)
    requires at < dot < |s|
    requires AllEmailChars(s[..at]) && AllEmailChars(s[at + 1..dot]) && AllEmailChars(s[dot + 1..])
    ensures forall i :: 0 <= i < |s| && i != at && i != dot ==> EmailChar(s[i])
  {
    assert s[..at] == s[0..at];
    assert s[dot + 1..] == s[dot + 1..|s|];
    EmailCharsSlice(s, 0, at);
    EmailCharsSlice(s, at + 1, dot);
    EmailCharsSlice(s, dot + 1, |s|);
  }

  /** An occurrence with no later one is the last occurrence. */
  lemma LastIndexOfAt(s: string, c: char, k: nat)
    requires k < |s| && s[k] == c
    requires forall j :: k < j < |s| ==> s[j] != c
    ensures LastIndexOf(s, c) == Some(k)
  {
  }

  /** The scan accepts exactly what the regular expression accepts. */
  lemma ValidateEmailMatchesRegex(s: string)
    ensures ValidateEmail(s) <==> MatchesEmailRegex(s)
  {
    if ValidateEmail(s) {
      ScanImpliesRegex(s);
    }
    if MatchesEmailRegex(s) {
      RegexImpliesScan(s);
    }
  }

  // ---------------------------------------------------------------------------
  // FormUtils.validateRequired
  // ---------------------------------------------------------------------------

  /** A form control marked `required`: its `name` attribute (absent reads
      as `null`) and its current value. */
  datatype InputField = InputField(name: Option<string>, value: string)

  /** The field holds nothing but whitespace. */
  predicate Blank(f: InputField) {
    forall i :: 0 <= i < |f.value| ==> IsJsWhitespace(f.value[i])
  }

  /** `!field.value.trim()`: a field is blank exactly when trimming empties it. */
  lemma BlankIffTrimEmpty(f: InputField)
    ensures Blank(f) <==> JsTrim(f.value) == ""
  {
    TrimBothEmptyIff(f.value, IsJsWhitespace);
  }

  /** The message for one missing field. */
  function RequiredMessage(f: InputField): (m: string)
    ensures EndsWith(m, " es requerido")
  {
    var m := (if f.name.Some? then f.name.value else "null") + " es requerido";
    assert m[|m| - 13..] == " es requerido";
    m
  }

  /** How many of the fields are blank. */
  function CountBlank(fields: seq<InputField>): (n: nat)
    ensures n <= |fields|
    ensures n == 0 <==> forall i :: 0 <= i < |fields| ==> !Blank(fields[i])
  {
    if |fields| == 0 then 0
    else
      assert forall i :: 1 <= i < |fields| ==> fields[i] == fields[1..][i - 1];
      (if Blank(fields[0]) then 1 else 0) + CountBlank(fields[1..])
  }

  /** `validateRequired(form)`: one message per blank required field, each
      naming a blank field; no message when every required field is filled. */
  function ValidateRequired(fields: seq<InputField>): (errors: seq<string>)
    ensures |errors| == CountBlank(fields)
    ensures errors == [] <==> forall i :: 0 <= i < |fields| ==> !Blank(fields[i])
  {
    if |fields| == 0 then []
    else
      var rest := ValidateRequired(fields[1..]);
      if Blank(fields[0]) then [RequiredMessage(fields[0])] + rest else rest
  }

  /** The message names one of the blank fields. */
  predicate NamesBlankField(msg: string, fields: seq<InputField>) {
    exists j :: 0 <= j < |fields| && Blank(fields[j]) && msg == RequiredMessage(fields[j])
  }

  /** Every message names one of the blank fields. */
  lemma {:induction false} MessagesNameBlankFields(fields: seq<InputField>)
    ensures forall i :: 0 <= i < |ValidateRequired(fields)| ==> NamesBlankField(ValidateRequired(fields)[i], fields)
  {
    if |fields| > 0 {
      var rest := ValidateRequired(fields[1..]);
      MessagesNameBlankFields(fields[1..]);
      forall i | 0 <= i < |rest| ensures NamesBlankField(rest[i], fields) {
        var j :| 0 <= j < |fields[1..]| && Blank(fields[1..][j]) && rest[i] == RequiredMessage(fields[1..][j]);
        assert fields[1..][j] == fields[j + 1];
      }
      var errors := ValidateRequired(fields);
      if Blank(fields[0]) {
        assert errors == [RequiredMessage(fields[0])] + rest;
        forall i | 0 <= i < |errors| ensures NamesBlankField(errors[i], fields) {
          if i == 0 {
            assert errors[0] == RequiredMessage(fields[0]);
          } else {
            assert errors[i] == rest[i - 1];
          }
        }
      } else {
        assert errors == rest;
      }
    }
  }

  /** Messages come in document order: the first blank field is named first. */
  lemma {:induction false} FirstBlankReportedFirst(fields: seq<InputField>, i: nat)
    requires i < |fields| && Blank(fields[i]) && forall j :: 0 <= j < i ==> !Blank(fields[j])
    ensures |ValidateRequired(fields)| > 0 && ValidateRequired(fields)[0] == RequiredMessage(fields[i])
  {
    if i > 0 {
      assert fields[1..][i - 1] == fields[i];
      FirstBlankReportedFirst(fields[1..], i - 1);
    }
  }

  // ---------------------------------------------------------------------------
  // FileUtils.validateFileType
  // ---------------------------------------------------------------------------

  /** `t.replace('*', '')`: the first `*` removed, if any. */
  function RemoveFirstStar(t: string): (r: string)
    ensures '*' !in t ==> r == t
    ensures '*' in t ==> |r| == |t| - 1
  {
    if |t| == 0 then ""
    else if t[0] == '*' then t[1..]
    else [t[0]] + RemoveFirstStar(t[1..])
  }

  /** `validateFileType(file, allowedTypes)`: the MIME type is listed, or the
      lower-cased file name ends with an entry stripped of its first `*`. */
  function ValidateFileType(name: string, mime: string, allowed: seq<string>): (ok: bool)
    ensures mime in allowed ==> ok
    ensures |allowed| == 0 ==> !ok
    ensures ok && mime !in allowed ==>
              exists i :: 0 <= i < |allowed| && |RemoveFirstStar(allowed[i])| <= |name|
  {
    mime in allowed || exists i :: 0 <= i < |allowed| && EndsWith(LowerAscii(name), RemoveFirstStar(allowed[i]))
  }

  /** An entry `*` becomes empty, which every name ends with: any file passes. */
  lemma WildcardAcceptsEverything(name: string, mime: string, allowed: seq<string>)
    requires "*" in allowed
    ensures ValidateFileType(name, mime, allowed)
  {
    var i :| 0 <= i < |allowed| && allowed[i] == "*";
    assert RemoveFirstStar(allowed[i]) == "";
    var l := LowerAscii(name);
    assert l[|l| - 0..] == "";
  }

  /** A pattern `*.ext` accepts a file whose name ends in `.ext` in any mix
      of ASCII case, whatever its MIME type. */
  lemma StarSuffixAccepts(stem: string, ext: string, mime: string, allowed: seq<string>)
    requires "*" + ext in allowed && '*' !in ext && LowerAscii(ext) == ext
    ensures forall upper: string :: |upper| == |ext| && LowerAscii(upper) == ext ==>
      ValidateFileType(stem + upper, mime, allowed)
  {
    forall upper: string | |upper| == |ext| && LowerAscii(upper) == ext
      ensures ValidateFileType(stem + upper, mime, allowed)
    {
      var i :| 0 <= i < |allowed| && allowed[i] == "*" + ext;
      assert RemoveFirstStar(allowed[i]) == ext;
      LowerAsciiAppend(stem, upper);
    }
  }

  /** Lower-casing works character by character. */
  lemma LowerAsciiAppend(a: string, b: string)
    ensures LowerAscii(a + b) == LowerAscii(a) + LowerAscii(b)
  {
    var l := LowerAscii(a + b);
    assert forall i :: 0 <= i < |a| ==> (a + b)[i] == a[i];
    assert forall i :: |a| <= i < |a| + |b| ==> (a + b)[i] == b[i - |a|];
  }

  /** An entry with an upper-case ASCII letter is never matched by a file
      name, since names are lower-cased and entries are not: such an entry
      only works through the MIME type. */
  lemma UpperCaseEntryNeverMatchesName(name: string, t: string)
    requires exists j :: 0 <= j < |RemoveFirstStar(t)| && 'A' <= RemoveFirstStar(t)[j] <= 'Z'
    ensures !EndsWith(LowerAscii(name), RemoveFirstStar(t))
  {
    var e := RemoveFirstStar(t);
    var j :| 0 <= j < |e| && 'A' <= e[j] <= 'Z';
    var l := LowerAscii(name);
    if |e| <= |l| {
      var p := |l| - |e| + j;
      assert !('A' <= l[p] <= 'Z');
      assert l[|l| - |e|..][j] == l[p];
      assert l[|l| - |e|..][j] != e[j];
    }
  }
}
