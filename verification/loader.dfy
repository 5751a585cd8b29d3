/** The PubMed MEDLINE ("NBIB") text parser and the file loader's suffix
    dispatch and column selection. Records are split on the `PMID- ` marker;
    inside a record a tag line opens a field, indented lines continue it and
    any other line closes it and is examined again as a possible tag line. */
module Loader {
  import opened Base
  import opened Strings

  // ---------------------------------------------------------------------------
  // Tags and keys
  // ---------------------------------------------------------------------------

  /** The tag-to-column mapping, in the order tags are tried. */
  const Tags: seq<(string, string)> := [
    ("PMID", "pmid"), ("TI", "title"), ("AU", "authors"), ("AB", "abstract"),
    ("PY", "year"), ("JO", "journal"), ("VL", "volume"), ("IS", "issue"),
    ("SP", "start_page"), ("EP", "end_page"), ("DO", "doi"), ("LID", "lid"),
    ("ET", "editor"), ("PB", "publisher"), ("AD", "address"), ("LA", "language"),
    ("KW", "keywords")
  ]

  /** The column names of a parsed record, in mapping order. */
  const Columns: seq<string> := [
    "pmid", "title", "authors", "abstract", "year", "journal", "volume", "issue",
    "start_page", "end_page", "doi", "lid", "editor", "publisher", "address", "language",
    "keywords"
  ]

  /** Marker that starts every record of a MEDLINE export. */
  const Marker: string := "PMID- "

  /** Separator between a tag and its value. */
  const Dash: string := "- "

  /** Index of the first tag, at or after `from`, that `line` starts with. */
  function TagIndex(line: string, from: nat): (r: Option<nat>)
    requires from <= |Tags|
    ensures r.Some? ==> from <= r.value < |Tags| && StartsWith(line, Tags[r.value].0)
    ensures forall j :: from <= j < |Tags| && (r.None? || j < r.value) ==> !StartsWith(line, Tags[j].0)
    decreases |Tags| - from
  {
    if from == |Tags| then None
    else if StartsWith(line, Tags[from].0) then Some(from)
    else TagIndex(line, from + 1)
  }

  /** `line.split("- ", 1)[1].strip()`: the text after the first `"- "` of a
      line that has one, with no surrounding whitespace. */
  function ValueAfterDash(line: string): (v: string)
    requires Contains(line, Dash)
    ensures |v| <= |line| - |Dash|
  {
    FindNoneIffAbsent(line, Dash);
    var i := FindFrom(line, Dash, 0).value;
    PyStrip(line[i + |Dash|..])
  }

  /** `split("- ", 1)` splits at the first occurrence: the value is what
      follows the earliest `"- "` of the line, stripped, so it neither
      starts nor ends with whitespace. */
  lemma ValueAfterFirstDash(line: string)
    requires Contains(line, Dash)
    ensures exists i: nat :: i + |Dash| <= |line| && OccursAt(line, Dash, i)
              && (forall j: nat :: j < i ==> !OccursAt(line, Dash, j))
              && ValueAfterDash(line) == PyStrip(line[i + |Dash|..])
    ensures var v := ValueAfterDash(line); |v| > 0 ==> !IsPyWhitespace(v[0]) && !IsPyWhitespace(v[|v| - 1])
  {
    FindNoneIffAbsent(line, Dash);
    var i := FindFrom(line, Dash, 0).value;
    assert OccursAt(line, Dash, i);
  }

  // ---------------------------------------------------------------------------
  // Scanning the lines of one record
  // ---------------------------------------------------------------------------

  /** No field open (the accumulated content is empty), or a field open under
      a column with its non-empty content so far. */
  datatype FieldState = Idle | InField(key: string, content: string)

  /** Values collected so far, per column, in the order they were stored. */
  type Fields = map<string, seq<string>>

  /** Every column of the mapping has an entry. */
  predicate HasAllColumns(acc: Fields) {
    forall j :: 0 <= j < |Tags| ==> Tags[j].1 in acc
  }

  /** A field state whose open field, if any, is a known column holding text. */
  predicate ValidState(st: FieldState, acc: Fields) {
    st.InField? ==> st.key in acc && st.content != ""
  }

  /** What an idle scanner does with a line: the first tag in mapping order
      that is a prefix of the line opens its column, provided the line holds a
      `"- "` somewhere; an empty value opens nothing. */
  function OpenField(line: string): (st: FieldState)
    ensures st.InField? <==>
      Contains(line, Dash) && TagIndex(line, 0).Some? && ValueAfterDash(line) != ""
    ensures st.InField? ==>
      st.key == Tags[TagIndex(line, 0).value].1 && st.content == ValueAfterDash(line)
  {
    if !Contains(line, Dash) then Idle
    else match TagIndex(line, 0)
      case None => Idle
      case Some(j) =>
        var v := ValueAfterDash(line);
        if v == "" then Idle else InField(Tags[j].1, v)
  }

  /** The scanning loop from line `i` on. While a field is open, a line that
      starts with a space (and is not the last line) is appended to it; any
      other line, and the last line, stores the field and is then examined
      again with no field open. */
  function Scan(lines: seq<string>, i: nat, st: FieldState, acc: Fields): (r: Fields)
    requires 1 <= i <= |lines|
    requires HasAllColumns(acc) && ValidState(st, acc)
    ensures r.Keys == acc.Keys
    ensures forall k :: k in acc ==> acc[k] <= r[k]
    ensures forall k :: k in acc ==>
      forall m :: |acc[k]| <= m < |r[k]| ==> r[k][m] != ""
    decreases |lines| - i, if st.InField? then 1 else 0
  {
    if i == |lines| then acc
    else
      var line := lines[i];
      match st
      case Idle => Scan(lines, i + 1, OpenField(line), acc)
      case InField(k, c) =>
        if !StartsWith(line, " ") || i == |lines| - 1 then
          Scan(lines, i, Idle, acc[k := acc[k] + [c]])
        else
          Scan(lines, i + 1, InField(k, c + " " + PyStrip(line)), acc)
  }

  /** A last line met with no field open stores nothing, even when it is a
      tag line: a field opened on the final line is lost. */
  lemma LastLineIdleStoresNothing(lines: seq<string>, acc: Fields)
    requires |lines| >= 2 && HasAllColumns(acc)
    ensures Scan(lines, |lines| - 1, Idle, acc) == acc
  {
  }

  /** A field still open at the last line is stored as it stands: the last
      line is never appended to it as a continuation. */
  lemma {:induction false} LastLineClosesField(lines: seq<string>, k: string, c: string, acc: Fields)
    requires |lines| >= 2 && HasAllColumns(acc) && k in acc && c != ""
    ensures Scan(lines, |lines| - 1, InField(k, c), acc) == acc[k := acc[k] + [c]]
  {
    var acc' := acc[k := acc[k] + [c]];
    assert HasAllColumns(acc');
    LastLineIdleStoresNothing(lines, acc');
  }

  /** The value of a field opened with text `c` once the continuation lines
      `conts` are appended: each adds a single space and its stripped text. */
  function Continued(c: string, conts: seq<string>): string
    decreases |conts|
  {
    if |conts| == 0 then c else Continued(c + " " + PyStrip(conts[0]), conts[1..])
  }

  /** One continuation line of `Continued`. */
  lemma ContinuedStep(c: string, conts: seq<string>)
    requires |conts| > 0
    ensures Continued(c, conts) == Continued(c + " " + PyStrip(conts[0]), conts[1..])
  {
  }

  /** One continuation step of the scan. */
  lemma ScanContinues(lines: seq<string>, i: nat, k: string, c: string, acc: Fields)
    requires 1 <= i < |lines| - 1 && StartsWith(lines[i], " ")
    requires HasAllColumns(acc) && k in acc && c != ""
    ensures Scan(lines, i, InField(k, c), acc) == Scan(lines, i + 1, InField(k, c + " " + PyStrip(lines[i])), acc)
  {
  }

  /** One closing step of the scan. */
  lemma ScanCloses(lines: seq<string>, i: nat, k: string, c: string, acc: Fields)
    requires 1 <= i < |lines| && (!StartsWith(lines[i], " ") || i == |lines| - 1)
    requires HasAllColumns(acc) && k in acc && c != ""
    ensures HasAllColumns(acc[k := acc[k] + [c]])
    ensures Scan(lines, i, InField(k, c), acc) == Scan(lines, i, Idle, acc[k := acc[k] + [c]])
  {
  }

  /** Appending continuation lines to a non-empty text keeps it non-empty. */
  lemma {:induction false} ContinuedNonEmpty(c: string, conts: seq<string>)
    requires c != ""
    ensures Continued(c, conts) != ""
    decreases |conts|
  {
    if |conts| > 0 {
      var c' := c + " " + PyStrip(conts[0]);
      assert c'[0] == c[0];
      ContinuedNonEmpty(c', conts[1..]);
    }
  }

  /** The first line of a continuation run: the scan and the continued text
      both advance by that line. */
  lemma ContinuationHead(lines: seq<string>, i: nat, m: nat, k: string, c: string, acc: Fields)
    requires 1 <= i < m < |lines| && StartsWith(lines[i], " ")
    requires HasAllColumns(acc) && k in acc && c != ""
    ensures c + " " + PyStrip(lines[i]) != ""
    ensures Continued(c, lines[i..m]) == Continued(c + " " + PyStrip(lines[i]), lines[i + 1..m])
    ensures Scan(lines, i, InField(k, c), acc) == Scan(lines, i + 1, InField(k, c + " " + PyStrip(lines[i])), acc)
  {
    assert (c + " " + PyStrip(lines[i]))[0] == c[0];
    ContinuedFrom(c, lines, i, m);
    ScanContinues(lines, i, k, c, acc);
  }

  /** An open field followed by indented lines `i..m-1` (none of them the
      last line) reaches line `m` still open, holding `v`: the opened text
      with every continuation appended. */
  lemma {:induction false} ContinuationRun(lines: seq<string>, i: nat, m: nat, k: string, c: string, v: string, acc: Fields)
    requires 1 <= i <= m < |lines|
    requires HasAllColumns(acc) && k in acc && c != ""
    requires forall p :: i <= p < m ==> StartsWith(lines[p], " ")
    requires v == Continued(c, lines[i..m])
    ensures v != ""
    ensures Scan(lines, i, InField(k, c), acc) == Scan(lines, m, InField(k, v), acc)
    decreases m - i
  {
    ContinuedNonEmpty(c, lines[i..m]);
    if i == m {
      assert lines[i..m] == [];
    } else {
      ContinuationHead(lines, i, m, k, c, acc);
      ContinuationRun(lines, i + 1, m, k, c + " " + PyStrip(lines[i]), v, acc);
    }
  }

  /** `ContinuedStep` on a run of lines `i..m-1`. */
  lemma ContinuedFrom(c: string, lines: seq<string>, i: nat, m: nat)
    requires i < m <= |lines|
    ensures Continued(c, lines[i..m]) == Continued(c + " " + PyStrip(lines[i]), lines[i + 1..m])
  {
    var conts := lines[i..m];
    assert conts[0] == lines[i] && conts[1..] == lines[i + 1..m];
    ContinuedStep(c, conts);
  }

  /** An open field followed by its indented lines and a line `m` that
      closes it (unindented, or the last line) stores `v`, the opened text
      with every continuation appended; the scan goes on at line `m` with no
      field open, so the closing line is examined again as a tag line. */
  lemma ScanRun(lines: seq<string>, i: nat, m: nat, k: string, c: string, v: string, acc: Fields)
    requires 1 <= i <= m < |lines|
    requires HasAllColumns(acc) && k in acc && c != ""
    requires forall p :: i <= p < m ==> StartsWith(lines[p], " ")
    requires !StartsWith(lines[m], " ") || m == |lines| - 1
    requires v == Continued(c, lines[i..m])
    ensures Scan(lines, i, InField(k, c), acc) == Scan(lines, m, Idle, acc[k := acc[k] + [v]])
  {
    ContinuationRun(lines, i, m, k, c, v, acc);
    ScanCloses(lines, m, k, v, acc);
  }

  /** Every line of `xs`, stripped. */
  function StripAll(xs: seq<string>): (ys: seq<string>)
    ensures |ys| == |xs|
    ensures forall n :: 0 <= n < |xs| ==> ys[n] == PyStrip(xs[n])
    decreases |xs|
  {
    if |xs| == 0 then [] else [PyStrip(xs[0])] + StripAll(xs[1..])
  }

  /** The stored value is the opened text and the stripped continuation
      lines joined by single spaces. */
  lemma {:induction false} ContinuedJoins(c: string, conts: seq<string>)
    ensures Continued(c, conts) == Join([c] + StripAll(conts), " ")
    decreases |conts|
  {
    if |conts| > 0 {
      var c' := c + " " + PyStrip(conts[0]);
      ContinuedJoins(c', conts[1..]);
      var rest := StripAll(conts[1..]);
      assert StripAll(conts) == [PyStrip(conts[0])] + rest;
      JoinMerge(c, PyStrip(conts[0]), rest, " ");
    } else {
      assert [c] + StripAll(conts) == [c];
    }
  }

  /** Joining a first piece that already ends in `sep + b` is joining `b` as
      a piece of its own. */
  lemma JoinMerge(a: string, b: string, rest: seq<string>, sep: string)
    ensures Join([a + sep + b] + rest, sep) == a + sep + Join([b] + rest, sep)
  {
    if |rest| > 0 {
      JoinCons(a + sep + b, rest, sep);
      JoinCons(b, rest, sep);
    } else {
      assert [a + sep + b] + rest == [a + sep + b];
      assert [b] + rest == [b];
    }
  }

  // ---------------------------------------------------------------------------
  // Records
  // ---------------------------------------------------------------------------

  /** One parsed record: every column, `None` standing for a missing value (NaN). */
  type Record = map<string, Option<string>>

  /** The separator used to join the repeated values of a column. */
  function JoinSeparator(key: string): string {
    if key == "authors" then " and " else if key == "keywords" then "; " else ", "
  }

  /** A column's stored values as one cell: missing when there are none,
      otherwise joined with the column's separator. */
  function Normalize(key: string, vs: seq<string>): (cell: Option<string>)
    ensures cell.None? <==> |vs| == 0
    ensures |vs| == 1 ==> cell == Some(vs[0])
  {
    if |vs| == 0 then None else Some(Join(vs, JoinSeparator(key)))
  }

  /** The values of a column can be read back from its cell by splitting on
      the column's separator, provided no value runs into the separator. */
  lemma NormalizeRoundTrip(key: string, vs: seq<string>)
    requires |vs| >= 1
    requires forall m :: 0 <= m < |vs| ==> SeparableBy(vs[m], JoinSeparator(key))
    ensures Split(Normalize(key, vs).value, JoinSeparator(key)) == vs
  {
    SplitJoin(vs, JoinSeparator(key));
  }

  /** Every column with nothing collected. */
  function EmptyFields(): (acc: Fields)
    ensures HasAllColumns(acc)
    ensures forall k :: k in acc ==> acc[k] == []
  {
    map j | 0 <= j < |Tags| :: Tags[j].1 := []
  }

  /** Parse one record: its first line is the PMID, the rest are scanned. */
  function ParseBatch(batch: string): (rec: Record)
    ensures forall j :: 0 <= j < |Tags| ==> Tags[j].1 in rec
    ensures "pmid" in rec && rec["pmid"].Some? && StartsWith(rec["pmid"].value, PyStrip(Split(batch, "\n")[0]))
  {
    var lines := Split(batch, "\n");
    var acc0 := EmptyFields()["pmid" := [PyStrip(lines[0])]];
    var fields := Scan(lines, 1, Idle, acc0);
    assert [PyStrip(lines[0])] <= fields["pmid"];
    JoinStartsWithFirst(fields["pmid"], JoinSeparator("pmid"));
    map k | k in fields :: Normalize(k, fields[k])
  }

  /** A join starts with its first piece. */
  lemma {:induction false} JoinStartsWithFirst(xs: seq<string>, sep: string)
    requires |xs| >= 1
    ensures StartsWith(Join(xs, sep), xs[0])
  {
    if |xs| > 1 {
      assert Join(xs, sep) == xs[0] + (sep + Join(xs[1..], sep));
    }
  }

  /** `parse_nbib_file` on the text of a readable file: one record per
      `PMID- `-separated batch, the text before the first marker discarded. */
  function ParseText(text: string): (recs: seq<Record>)
    ensures |recs| == |Split(text, Marker)| - 1
    ensures forall n :: 0 <= n < |recs| ==>
      ("pmid" in recs[n] && recs[n]["pmid"].Some? &&
       StartsWith(recs[n]["pmid"].value, PyStrip(Split(Split(text, Marker)[n + 1], "\n")[0])))
  {
    var batches := Split(text, Marker)[1..];
    seq(|batches|, n requires 0 <= n < |batches| => ParseBatch(batches[n]))
  }

  /** Text without the marker has no records. */
  lemma NoMarkerNoRecords(text: string)
    requires !Contains(text, Marker)
    ensures ParseText(text) == []
  {
    FindNoneIffAbsent(text, Marker);
  }

  /** Whatever precedes the first marker does not affect the records. */
  lemma {:induction false} PreambleDiscarded(pre: string, rest: string)
    requires !Contains(pre + Marker[..|Marker| - 1], Marker)
    ensures ParseText(pre + Marker + rest) == ParseText(Marker + rest)
  {
    var s := pre + Marker + rest;
    forall j: nat | j < |pre|
      ensures !OccursAt(s, Marker, j)
    {
      PrefixOccurrence(pre + Marker[..|Marker| - 1], [Marker[|Marker| - 1]] + rest, Marker, j);
      assert (pre + Marker[..|Marker| - 1]) + ([Marker[|Marker| - 1]] + rest) == s;
      assert j <= |pre + Marker[..|Marker| - 1]|;
    }
    assert s[|pre|..|pre| + |Marker|] == Marker;
    FindFirst(s, Marker, |pre|);
    assert s[|pre| + |Marker|..] == rest;
    var t := Marker + rest;
    assert t[0..|Marker|] == Marker;
    FindFirst(t, Marker, 0);
    assert t[|Marker|..] == rest;
    assert Split(s, Marker)[1..] == Split(rest, Marker) == Split(t, Marker)[1..];
  }

  // ---------------------------------------------------------------------------
  // load_data: suffix dispatch and column selection
  // ---------------------------------------------------------------------------

  /** A table as pandas holds it: column names in order and one map per row.
      A cell is its text rendering, or `None` for NaN. */
  datatype Frame = Frame(columns: seq<string>, rows: seq<map<string, Option<string>>>)
  {
    /** `DataFrame.empty`: no columns or no rows. */
    predicate IsEmpty() {
      |columns| == 0 || |rows| == 0
    }
  }

  const EmptyFrame: Frame := Frame([], [])

  /** The frame `parse_nbib_file` builds from a file's text, or the empty frame
      when the file cannot be read. */
  function NbibFrame(text: Option<string>): (f: Frame)
    ensures text.None? ==> f == EmptyFrame
    ensures text.Some? ==> |f.rows| == |ParseText(text.value)|
    ensures |f.rows| > 0 ==> f.columns == Columns
  {
    match text
    case None => EmptyFrame
    case Some(t) =>
      var recs := ParseText(t);
      if |recs| == 0 then EmptyFrame else Frame(Columns, recs)
  }

  /** The columns kept by `load_data`, in this order; `label` only for test researches. */
  function TargetColumns(flagTest: bool): seq<string> {
    ["title", "authors", "year", "journal", "doi", "abstract"] + (if flagTest then ["label"] else [])
  }

  /** `c` as a one-element list when it is a column of `cols`, else nothing. */
  function IfPresent(c: string, cols: seq<string>): seq<string> {
    if c in cols then [c] else []
  }

  /** The target columns present in `cols`, in target order. */
  function ExistingColumns(cols: seq<string>, flagTest: bool): (ex: seq<string>)
    ensures forall c :: c in ex <==> c in cols && c in TargetColumns(flagTest)
  {
    IfPresent("title", cols) + IfPresent("authors", cols) + IfPresent("year", cols)
    + IfPresent("journal", cols) + IfPresent("doi", cols) + IfPresent("abstract", cols)
    + (if flagTest then IfPresent("label", cols) else [])
  }

  /** The elements of `xs` that satisfy `p`, in order. */
  function FilterSeq<T(!new)>(xs: seq<T>, p: T -> bool): (ys: seq<T>)
    ensures |ys| <= |xs|
    ensures forall y :: y in ys <==> y in xs && p(y)
    decreases |xs|
  {
    if |xs| == 0 then []
    else (if p(xs[0]) then [xs[0]] else []) + FilterSeq(xs[1..], p)
  }

  /** A row that has both a title and an abstract survives `dropna`. */
  predicate HasTitleAndAbstract(row: map<string, Option<string>>) {
    "title" in row && row["title"].Some? && "abstract" in row && row["abstract"].Some?
  }

  /** `row` restricted to the columns `cols`. */
  function Project(row: map<string, Option<string>>, cols: seq<string>): (r: map<string, Option<string>>)
    ensures forall c :: c in r <==> c in row && c in cols
    ensures forall c :: c in r ==> r[c] == row[c]
  {
    map c | c in row && c in cols :: row[c]
  }

  /** Filtering a concatenation filters each part. */
  lemma {:induction false} FilterSeqAppend<T(!new)>(xs: seq<T>, ys: seq<T>, p: T -> bool)
    ensures FilterSeq(xs + ys, p) == FilterSeq(xs, p) + FilterSeq(ys, p)
    decreases |xs|
  {
    if |xs| > 0 {
      assert (xs + ys)[0] == xs[0];
      assert (xs + ys)[1..] == xs[1..] + ys;
      FilterSeqAppend(xs[1..], ys, p);
    } else {
      assert xs + ys == ys;
    }
  }

  /** An element that satisfies the test is kept, right after the kept
      elements that precede it. */
  lemma {:induction false} FilterSeqAt<T(!new)>(xs: seq<T>, p: T -> bool, n: nat)
    requires n < |xs| && p(xs[n])
    ensures |FilterSeq(xs[..n], p)| < |FilterSeq(xs, p)|
    ensures FilterSeq(xs, p)[|FilterSeq(xs[..n], p)|] == xs[n]
    decreases n
  {
    if n > 0 {
      assert xs[..n][0] == xs[0];
      assert xs[..n][1..] == xs[1..][..n - 1];
      FilterSeqAt(xs[1..], p, n - 1);
    }
  }

  /** Every row restricted to the columns `cols`, in order. */
  function ProjectAll(rows: seq<map<string, Option<string>>>, cols: seq<string>): (r: seq<map<string, Option<string>>>)
    ensures |r| == |rows|
    ensures forall n :: 0 <= n < |rows| ==> r[n] == Project(rows[n], cols)
    decreases |rows|
  {
    if |rows| == 0 then [] else [Project(rows[0], cols)] + ProjectAll(rows[1..], cols)
  }

  /** When `title` and `abstract` are kept, projecting then dropping
      incomplete rows equals dropping them then projecting. */
  lemma {:induction false} FilterProjectCommute(rows: seq<map<string, Option<string>>>, cols: seq<string>)
    requires "title" in cols && "abstract" in cols
    ensures FilterSeq(ProjectAll(rows, cols), HasTitleAndAbstract)
         == ProjectAll(FilterSeq(rows, HasTitleAndAbstract), cols)
    decreases |rows|
  {
    if |rows| > 0 {
      var xs := ProjectAll(rows, cols);
      assert xs[1..] == ProjectAll(rows[1..], cols);
      assert HasTitleAndAbstract(xs[0]) == HasTitleAndAbstract(rows[0]);
      FilterProjectCommute(rows[1..], cols);
      var kept := FilterSeq(rows, HasTitleAndAbstract);
      if HasTitleAndAbstract(rows[0]) {
        assert kept[0] == rows[0];
        assert kept[1..] == FilterSeq(rows[1..], HasTitleAndAbstract);
      } else {
        assert kept == FilterSeq(rows[1..], HasTitleAndAbstract);
      }
    }
  }

  /** Column selection of `load_data` on a non-empty frame: the target columns
      present, in target order; rows without title or abstract dropped; a
      `KeyError` naming whichever of those two columns is absent; the empty
      frame when no target column is present. */
  function SelectColumns(df: Frame, flagTest: bool): (r: Outcome<Frame>)
    ensures r.Ok? && |r.value.columns| > 0 ==>
      (forall c :: c in r.value.columns <==> c in df.columns && c in TargetColumns(flagTest))
      && "title" in r.value.columns && "abstract" in r.value.columns
      && |r.value.rows| <= |df.rows|
      && forall n :: 0 <= n < |r.value.rows| ==> HasTitleAndAbstract(r.value.rows[n])
    ensures r.Raised? <==>
      (exists c :: c in df.columns && c in TargetColumns(flagTest))
      && ("title" !in df.columns || "abstract" !in df.columns)
    ensures r.Ok? && |r.value.columns| == 0 ==> r.value == EmptyFrame
    ensures r.Ok? && |r.value.columns| > 0 ==> r.value.columns == ExistingColumns(df.columns, flagTest)
    ensures r.Ok? && |r.value.columns| > 0 ==>
      r.value.rows == ProjectAll(FilterSeq(df.rows, HasTitleAndAbstract), r.value.columns)
    ensures r.Raised? && "title" !in df.columns && "abstract" !in df.columns ==> r.msg == "['title', 'abstract']"
    ensures r.Raised? && "title" !in df.columns && "abstract" in df.columns ==> r.msg == "['title']"
    ensures r.Raised? && "title" in df.columns && "abstract" !in df.columns ==> r.msg == "['abstract']"
  {
    var existing := ExistingColumns(df.columns, flagTest);
    if |existing| == 0 then Ok(EmptyFrame)
    else
      assert existing[0] in existing;
      if "title" !in existing && "abstract" !in existing then Raised("['title', 'abstract']")
      else if "title" !in existing then Raised("['title']")
      else if "abstract" !in existing then Raised("['abstract']")
      else Ok(Frame(existing, DropIncomplete(df.rows, existing)))
  }

  /** `df[cols].dropna(subset=['title', 'abstract'])` on the rows: each row
      restricted to `cols`, those without a title or an abstract dropped. */
  function DropIncomplete(rows: seq<map<string, Option<string>>>, cols: seq<string>): (r: seq<map<string, Option<string>>>)
    requires "title" in cols && "abstract" in cols
    ensures r == ProjectAll(FilterSeq(rows, HasTitleAndAbstract), cols)
    ensures |r| <= |rows|
    ensures forall n :: 0 <= n < |r| ==> HasTitleAndAbstract(r[n])
  {
    FilterProjectCommute(rows, cols);
    FilterSeq(ProjectAll(rows, cols), HasTitleAndAbstract)
  }

  /** Every input row with a title and an abstract appears in the selection,
      restricted to the selected columns, at the position given by the number
      of complete rows before it; and only those rows appear. */
  lemma SelectKeepsCompleteRows(df: Frame, flagTest: bool, n: nat)
    requires SelectColumns(df, flagTest).Ok? && |SelectColumns(df, flagTest).value.columns| > 0
    requires n < |df.rows| && HasTitleAndAbstract(df.rows[n])
    ensures var out := SelectColumns(df, flagTest).value;
      |out.rows| == |FilterSeq(df.rows, HasTitleAndAbstract)|
      && |FilterSeq(df.rows[..n], HasTitleAndAbstract)| < |out.rows|
      && out.rows[|FilterSeq(df.rows[..n], HasTitleAndAbstract)|] == Project(df.rows[n], out.columns)
  {
    FilterSeqAt(df.rows, HasTitleAndAbstract, n);
  }

  /** Complete rows keep their relative order in the selection: an earlier
      complete row lands at an earlier position. */
  lemma CompleteRowsKeepOrder(rows: seq<map<string, Option<string>>>, n: nat, m: nat)
    requires n < m < |rows| && HasTitleAndAbstract(rows[n])
    ensures |FilterSeq(rows[..n], HasTitleAndAbstract)| < |FilterSeq(rows[..m], HasTitleAndAbstract)|
  {
    assert rows[..m] == rows[..n] + rows[n..m];
    FilterSeqAppend(rows[..n], rows[n..m], HasTitleAndAbstract);
    assert rows[n..m][0] == rows[n];
  }

  /** The suffixes `load_data` knows. */
  predicate Supported(filename: string) {
    EndsWith(filename, ".nbib") || EndsWith(filename, ".csv") || EndsWith(filename, ".xlsx")
    || EndsWith(filename, ".bib")
  }

  /** `load_data(path, filename, flag_test)`. The file readers are parameters:
      `nbibText` is the file's text (`None` when it cannot be opened) and
      `csvFrame` / `xlsxFrame` are what pandas reads. */
  function LoadData(filename: string, flagTest: bool, nbibText: Option<string>,
                    csvFrame: Frame, xlsxFrame: Frame): (r: Outcome<Frame>)
    ensures !Supported(filename) ==>
      r == Raised("Unsupported file format: " + filename + ". Only supported: nbib, csv, xlsx, bib")
    ensures r.Ok? ==> r.value == EmptyFrame || |r.value.columns| > 0
  {
    if EndsWith(filename, ".nbib") then SelectOrEmpty(NbibFrame(nbibText), flagTest)
    else if EndsWith(filename, ".csv") then SelectOrEmpty(csvFrame, flagTest)
    else if EndsWith(filename, ".xlsx") then SelectOrEmpty(xlsxFrame, flagTest)
    else if EndsWith(filename, ".bib") then Ok(EmptyFrame)
    else Raised("Unsupported file format: " + filename + ". Only supported: nbib, csv, xlsx, bib")
  }

  /** A `.bib` file (that is not `.nbib`) loads as the empty frame, and a
      `.nbib`, `.csv` or `.xlsx` file never raises the unsupported-format error. */
  lemma LoadDataDispatch(filename: string, flagTest: bool, nbibText: Option<string>, csvFrame: Frame, xlsxFrame: Frame)
    ensures EndsWith(filename, ".bib") && !EndsWith(filename, ".nbib") ==>
      LoadData(filename, flagTest, nbibText, csvFrame, xlsxFrame) == Ok(EmptyFrame)
    ensures LoadData(filename, flagTest, nbibText, csvFrame, xlsxFrame).Raised? ==>
      !Supported(filename) || "title" !in LoadedColumns(filename, nbibText, csvFrame, xlsxFrame)
      || "abstract" !in LoadedColumns(filename, nbibText, csvFrame, xlsxFrame)
  {
    if EndsWith(filename, ".bib") {
      var n := |filename|;
      assert filename[n - 4..][1] == 'b';
      assert !EndsWith(filename, ".csv") && !EndsWith(filename, ".xlsx");
    }
    if EndsWith(filename, ".nbib") {
      SelectOrEmptyRaises(NbibFrame(nbibText), flagTest);
    } else if EndsWith(filename, ".csv") {
      SelectOrEmptyRaises(csvFrame, flagTest);
    } else if EndsWith(filename, ".xlsx") {
      SelectOrEmptyRaises(xlsxFrame, flagTest);
    }
  }

  /** Selection, after the empty-frame test, raises only for a frame that
      lacks `title` or `abstract`. */
  lemma SelectOrEmptyRaises(df: Frame, flagTest: bool)
    ensures SelectOrEmpty(df, flagTest).Raised? ==> "title" !in df.columns || "abstract" !in df.columns
  {
  }

  /** The columns of the frame read for `filename`, before selection. */
  function LoadedColumns(filename: string, nbibText: Option<string>, csvFrame: Frame, xlsxFrame: Frame): seq<string> {
    if EndsWith(filename, ".nbib") then NbibFrame(nbibText).columns
    else if EndsWith(filename, ".csv") then csvFrame.columns
    else if EndsWith(filename, ".xlsx") then xlsxFrame.columns
    else []
  }

  /** An empty frame passes through as the empty frame; otherwise columns are selected. */
  function SelectOrEmpty(df: Frame, flagTest: bool): (r: Outcome<Frame>)
    ensures df.IsEmpty() ==> r == Ok(EmptyFrame)
    ensures !df.IsEmpty() ==> r == SelectColumns(df, flagTest)
  {
    if df.IsEmpty() then Ok(EmptyFrame) else SelectColumns(df, flagTest)
  }

  /** The parser's columns include the six bibliographic ones and no `label`. */
  lemma ParserColumnsMembership(cols: seq<string>)
    requires cols == Columns
    ensures "title" in cols && "authors" in cols && "year" in cols
    ensures "journal" in cols && "doi" in cols && "abstract" in cols && "label" !in cols
  {
    assert cols[1] == "title" && cols[2] == "authors" && cols[4] == "year";
    assert cols[3] == "abstract" && cols[5] == "journal" && cols[10] == "doi";
    NoLabelColumn();
  }

  /** No parser column is called `label`. */
  lemma NoLabelColumn()
    ensures "label" !in Columns
  {
    forall i | 0 <= i < |Columns| ensures Columns[i] != "label" {
      assert |Columns[i]| != 5 || Columns[i][0] != 'l';
    }
  }

  /** A frame holding the six bibliographic columns and no `label` keeps
      exactly those six, in target order. */
  lemma BibliographicSelection(cols: seq<string>, flagTest: bool)
    requires "title" in cols && "authors" in cols && "year" in cols
    requires "journal" in cols && "doi" in cols && "abstract" in cols && "label" !in cols
    ensures ExistingColumns(cols, flagTest) == ["title", "authors", "year", "journal", "doi", "abstract"]
  {
  }

  /** Every record of a MEDLINE file has all columns, so selection keeps the
      six bibliographic columns and never raises. */
  lemma NbibSelection(text: string, flagTest: bool)
    requires |ParseText(text)| > 0
    ensures SelectOrEmpty(NbibFrame(Some(text)), flagTest).Ok?
    ensures SelectOrEmpty(NbibFrame(Some(text)), flagTest).value.columns
      == ["title", "authors", "year", "journal", "doi", "abstract"]
  {
    ParserColumnsMembership(NbibFrame(Some(text)).columns);
    BibliographicSelection(NbibFrame(Some(text)).columns, flagTest);
  }
}
