/** The browser's `APIClient`: base-URL choice, query strings, the error
    message of a failed request, the form `updateUser` sends, the CSV it
    uploads for training, and the session kept in `localStorage`. */
module ApiClient {
  import opened Base
  import opened Strings
  import opened JsValues
  import V = Values
  import MlRoutes

  // ---------------------------------------------------------------------------
  // Base URL
  // ---------------------------------------------------------------------------

  /** The parts of `window.location` the client reads. */
  datatype Location = Location(protocol: string, hostname: string, port: string, origin: string)

  /** The port the API server listens on during local development. */
  const ApiPort: string := "5010"

  predicate IsLocalHost(hostname: string) {
    hostname == "localhost" || hostname == "127.0.0.1"
  }

  /** `getDefaultBaseURL()`: the local API port on a development host, the
      page's own origin anywhere else; the page's port never matters. */
  function DefaultBaseUrl(loc: Location): (url: string)
    ensures IsLocalHost(loc.hostname) ==>
      StartsWith(url, loc.protocol + "//" + loc.hostname) && EndsWith(url, ":" + ApiPort)
    ensures !IsLocalHost(loc.hostname) ==> url == loc.origin
  {
    if IsLocalHost(loc.hostname) then loc.protocol + "//" + loc.hostname + ":" + ApiPort
    else loc.origin
  }

  /** The page's port is ignored when choosing the base URL. */
  lemma DefaultBaseUrlIgnoresPort(loc: Location, port: string)
    ensures DefaultBaseUrl(loc.(port := port)) == DefaultBaseUrl(loc)
  {
  }

  /** The client object: where it sends requests and whom it acts for. */
  datatype Client = Client(baseUrl: string, currentUser: Option<string>)

  /** `new APIClient(baseURL)`: an empty or missing base URL falls back to the
      default one; the current user is read from storage. */
  function NewClient(baseUrl: Option<string>, loc: Location, st: Storage): (c: Client)
    ensures baseUrl.Some? && baseUrl.value != "" ==> c.baseUrl == baseUrl.value
    ensures baseUrl.None? || baseUrl.value == "" ==> c.baseUrl == DefaultBaseUrl(loc)
    ensures c.currentUser == GetCurrentUser(st)
  {
    var url := if baseUrl.Some? && baseUrl.value != "" then baseUrl.value else DefaultBaseUrl(loc);
    Client(url, GetCurrentUser(st))
  }

  // ---------------------------------------------------------------------------
  // Query strings
  // ---------------------------------------------------------------------------

  /** One `name=value` pair as `URLSearchParams` serialises it, through the
      form-urlencoded byte serialiser `enc`. */
  function QueryPair(p: (string, JsValue), enc: string -> string): string {
    enc(p.0) + "=" + enc(ToStr(p.1))
  }

  function QueryPairs(params: Object, enc: string -> string): (ps: seq<string>)
    ensures |ps| == |params|
    ensures forall i :: 0 <= i < |params| ==> ps[i] == QueryPair(params[i], enc)
  {
    seq(|params|, i requires 0 <= i < |params| => QueryPair(params[i], enc))
  }

  /** The suffix `get(endpoint, params)` appends: nothing for no parameters,
      else `?` and the pairs joined with `&`. */
  function QueryString(params: Object, enc: string -> string): (q: string)
    ensures q == "" <==> |params| == 0
    ensures |params| > 0 ==> q[0] == '?' && q[1..] == Join(QueryPairs(params, enc), "&")
  {
    if |params| == 0 then "" else "?" + Join(QueryPairs(params, enc), "&")
  }

  /** The URL `get(endpoint, params)` requests. */
  function GetUrl(c: Client, endpoint: string, params: Object, enc: string -> string): (url: string)
    ensures StartsWith(url, c.baseUrl + endpoint)
    ensures |params| == 0 ==> url == c.baseUrl + endpoint
  {
    c.baseUrl + endpoint + QueryString(params, enc)
  }

  /** The serialiser never emits the two delimiters of a query string (the
      form-urlencoded serialiser percent-encodes both). */
  ghost predicate DelimiterFree(enc: string -> string) {
    forall s: string, i :: 0 <= i < |enc(s)| ==> enc(s)[i] != '&' && enc(s)[i] != '='
  }

  /** A server-side reading of a query string: split on `&`, then each
      piece on `=`, then decode both halves. */
  function ParseQuery(q: string, dec: string -> string): seq<(string, string)>
    requires |q| > 0
  {
    var pieces := Split(q[1..], "&");
    seq(|pieces|, i requires 0 <= i < |pieces| =>
      var kv := Split(pieces[i], "=");
      (dec(kv[0]), if |kv| > 1 then dec(kv[1]) else ""))
  }

  /** A string without `c` is separable by the one-character separator `c`. */
  lemma NoCharSeparable(x: string, c: char)
    requires forall i :: 0 <= i < |x| ==> x[i] != c
    ensures SeparableBy(x, [c])
  {
    SingleCharSeparable(x, c);
  }

  /** `name=value` splits back into its two halves on `=`. */
  lemma PairSplits(p: (string, JsValue), enc: string -> string)
    requires DelimiterFree(enc)
    ensures Split(QueryPair(p, enc), "=") == [enc(p.0), enc(ToStr(p.1))]
  {
    var k, v := enc(p.0), enc(ToStr(p.1));
    NoCharSeparable(k, '=');
    NoCharSeparable(v, '=');
    JoinCons(k, [v], "=");
    SplitJoin([k, v], "=");
  }

  /** Reading the query string back with the decoder of `enc` gives every
      parameter, in order, as its name and the string form of its value. */
  lemma QueryRoundTrip(params: Object, enc: string -> string, dec: string -> string)
    requires |params| > 0 && DelimiterFree(enc)
    requires forall s :: dec(enc(s)) == s
    ensures var r := ParseQuery(QueryString(params, enc), dec);
      |r| == |params| && forall i :: 0 <= i < |params| ==> r[i] == (params[i].0, ToStr(params[i].1))
  {
    var ps := QueryPairs(params, enc);
    forall i | 0 <= i < |ps| ensures SeparableBy(ps[i], "&") {
      var k, v := enc(params[i].0), enc(ToStr(params[i].1));
      assert ps[i] == k + "=" + v;
      assert forall j :: 0 <= j < |ps[i]| ==> ps[i][j] != '&' by {
        forall j | 0 <= j < |ps[i]| ensures ps[i][j] != '&' {
          if j < |k| { assert ps[i][j] == k[j]; }
          else if j > |k| { assert ps[i][j] == v[j - |k| - 1]; }
        }
      }
      NoCharSeparable(ps[i], '&');
    }
    SplitJoin(ps, "&");
    var q := QueryString(params, enc);
    assert Split(q[1..], "&") == ps;
    forall i | 0 <= i < |params|
      ensures ParseQuery(q, dec)[i] == (params[i].0, ToStr(params[i].1))
    {
      PairSplits(params[i], enc);
    }
  }

  // ---------------------------------------------------------------------------
  // makeRequest
  // ---------------------------------------------------------------------------

  /** What `fetch` resolved to: the status line and the body parsed as JSON
      (or the parse error). */
  datatype Fetched = Fetched(status: int, statusText: string, json: Outcome<V.Json>)

  /** `response.ok`. */
  predicate IsOk(status: int) {
    200 <= status <= 299
  }

  /** `o.k` for a parsed JSON body, for the scalar values the client reads. */
  function Property(body: V.Json, k: string): (v: JsValue)
    ensures !body.JObj? || k !in body.fields ==> v == Undefined
  {
    match body
    case JObj(f) =>
      if k !in f then Undefined
      else if !f[k].JVal? then Undefined
      else
        var x := f[k].v;
        if x.Null? then Null
        else if x.Bool? then Bool(x.b)
        else if x.Int? then Num(x.i)
        else if x.Str? then Str(x.s)
        else Undefined
    case _ => Undefined
  }

  /** The message of the error a non-ok response throws. */
  function ErrorMessage(f: Fetched): (m: string)
    ensures f.json.Ok? && Truthy(Property(f.json.value, "detail")) ==> m == ToStr(Property(f.json.value, "detail"))
    ensures (f.json.Raised? || !Truthy(Property(f.json.value, "detail"))) ==>
      m == "HTTP " + IntToString(f.status) + ": " + f.statusText
  {
    var errorData := if f.json.Ok? then f.json.value else V.JObj(map[]);
    var detail := Property(errorData, "detail");
    if Truthy(detail) then ToStr(detail) else "HTTP " + IntToString(f.status) + ": " + f.statusText
  }

  /** `makeRequest`: a network failure is rethrown, a non-ok status throws
      with `ErrorMessage`, and an ok status yields the parsed body. */
  function MakeRequest(fetched: Outcome<Fetched>): (r: Outcome<V.Json>)
    ensures fetched.Raised? ==> r == Raised(fetched.msg)
    ensures fetched.Ok? && !IsOk(fetched.value.status) ==> r == Raised(ErrorMessage(fetched.value))
    ensures fetched.Ok? && IsOk(fetched.value.status) ==> r == fetched.value.json
  {
    match fetched
    case Raised(m) => Raised(m)
    case Ok(f) => if !IsOk(f.status) then Raised(ErrorMessage(f)) else f.json
  }

  /** A server failure reaches the user as its own detail text when that is
      not empty, and as the status line otherwise. */
  lemma ServerDetailSurfaces(status: int, statusText: string, detail: string)
    requires 400 <= status <= 599
    ensures var f := Fetched(status, statusText, Ok(V.JObj(map["detail" := V.JStr(detail)])));
      MakeRequest(Ok(f)) == Raised(if detail != "" then detail else "HTTP " + IntToString(status) + ": " + statusText)
  {
  }

  // ---------------------------------------------------------------------------
  // Forms
  // ---------------------------------------------------------------------------

  /** A multipart or url-encoded form: its fields in append order. */
  type Form = seq<(string, string)>

  /** `updateUser` skips exactly `null`, `undefined` and `''`; `0` and `false`
      are sent. */
  function Sent(v: JsValue): (b: bool)
    ensures b <==> Truthy(v) || v == Bool(false) || v == Num(0)
  {
    v != Null && v != Undefined && v != Str("")
  }

  /** `e` is the form field of some sent entry of `userData`. */
  predicate FromSentEntry(userData: Object, e: (string, string)) {
    exists j :: 0 <= j < |userData| && Sent(userData[j].1) && e == (userData[j].0, ToStr(userData[j].1))
  }

  /** An entry of the tail is an entry of the whole object. */
  lemma FromSentEntryTail(userData: Object, e: (string, string))
    requires |userData| > 0 && FromSentEntry(userData[1..], e)
    ensures FromSentEntry(userData, e)
  {
    var j :| 0 <= j < |userData[1..]| && Sent(userData[1..][j].1) && e == (userData[1..][j].0, ToStr(userData[1..][j].1));
    assert userData[1..][j] == userData[j + 1];
  }

  /** The entries of `userData` that are sent, as form fields. */
  function SentFields(userData: Object): (f: Form)
    ensures |f| <= |userData|
    ensures forall i :: 0 <= i < |f| ==> FromSentEntry(userData, f[i])
    ensures forall j :: 0 <= j < |userData| && Sent(userData[j].1) ==>
      (userData[j].0, ToStr(userData[j].1)) in f
  {
    if |userData| == 0 then []
    else
      var rest := SentFields(userData[1..]);
      assert forall i :: 0 <= i < |rest| ==> FromSentEntry(userData, rest[i]) by {
        forall i | 0 <= i < |rest| ensures FromSentEntry(userData, rest[i]) {
          FromSentEntryTail(userData, rest[i]);
        }
      }
      assert forall j :: 1 <= j < |userData| ==> userData[j] == userData[1..][j - 1];
      if Sent(userData[0].1) then [(userData[0].0, ToStr(userData[0].1))] + rest else rest
  }

  /** The form `updateUser(username, userData)` sends: `username` first, then
      every sent entry of `userData`, and nothing else. */
  function UpdateUserForm(username: string, userData: Object): (f: Form)
    ensures |f| >= 1 && f[0] == ("username", username)
    ensures forall j :: 0 <= j < |userData| && Sent(userData[j].1) ==>
      (userData[j].0, ToStr(userData[j].1)) in f[1..]
    ensures forall i :: 1 <= i < |f| ==> FromSentEntry(userData, f[i])
  {
    var rest := SentFields(userData);
    assert forall i :: 1 <= i < |[("username", username)] + rest| ==> ([("username", username)] + rest)[i] == rest[i - 1];
    [("username", username)] + rest
  }

  /** The form `executeBatchInference` sends: the selected ids joined with `,`. */
  function BatchInferenceForm(username: string, modelId: string, articleIds: seq<string>): (f: Form)
    ensures |f| == 3 && f[0] == ("username", username) && f[1] == ("model_id", modelId)
    ensures f[2].0 == "article_ids"
  {
    [("username", username), ("model_id", modelId), ("article_ids", Join(articleIds, ","))]
  }

  /** The server's parsing of `article_ids` recovers the ids the client
      selected, when none is empty, holds a comma or carries surrounding
      blanks. */
  lemma BatchIdsRoundTrip(username: string, modelId: string, articleIds: seq<string>)
    requires |articleIds| >= 1
    requires forall i :: 0 <= i < |articleIds| ==> articleIds[i] != "" && PyStrip(articleIds[i]) == articleIds[i]
    requires forall i, j :: 0 <= i < |articleIds| && 0 <= j < |articleIds[i]| ==> articleIds[i][j] != ','
    ensures MlRoutes.ParseIds(BatchInferenceForm(username, modelId, articleIds)[2].1) == articleIds
  {
    MlRoutes.ParseJoinedIds(articleIds);
  }

  // ---------------------------------------------------------------------------
  // convertToCSV
  // ---------------------------------------------------------------------------

  /** `row[header] || ''` as a string: falsy values, `0` and `false` included,
      become empty. */
  function CellText(v: JsValue): (s: string)
    ensures !Truthy(v) ==> s == ""
    ensures Truthy(v) ==> s == ToStr(v)
  {
    if Truthy(v) then ToStr(v) else ""
  }

  /** `s.replace(/"/g, '""')`. */
  function Escape(s: string): (e: string)
    ensures |e| >= |s|
    ensures forall c :: c != '"' ==> (c in e <==> c in s)
    ensures '"' in e <==> '"' in s
  {
    if |s| == 0 then ""
    else
      var e := (if s[0] == '"' then "\"\"" else [s[0]]) + Escape(s[1..]);
      assert forall c :: c in s <==> c == s[0] || c in s[1..];
      e
  }

  /** A text without quotes is its own escape. */
  lemma {:induction false} EscapeKeepsPlain(s: string)
    ensures '"' !in s ==> Escape(s) == s
  {
    if |s| > 0 && '"' !in s {
      assert '"' !in s[1..];
      EscapeKeepsPlain(s[1..]);
      assert s == [s[0]] + s[1..];
    }
  }

  /** Reading an escaped text back: every `""` becomes `"`. */
  function Undouble(e: string): string
  {
    if |e| == 0 then ""
    else if |e| >= 2 && e[0] == '"' && e[1] == '"' then "\"" + Undouble(e[2..])
    else [e[0]] + Undouble(e[1..])
  }

  /** Doubling the quotes loses nothing. */
  lemma {:induction false} UndoubleEscape(s: string)
    ensures Undouble(Escape(s)) == s
  {
    if |s| > 0 {
      UndoubleEscape(s[1..]);
      var rest := Escape(s[1..]);
      if s[0] == '"' {
        assert Escape(s) == "\"\"" + rest;
        assert (("\"\"" + rest)[2..]) == rest;
      } else {
        assert Escape(s) == [s[0]] + rest;
        assert ([s[0]] + rest)[1..] == rest;
      }
      assert s == [s[0]] + s[1..];
    }
  }

  /** The text must be quoted: it holds a comma, a newline or a quote. */
  predicate NeedsQuotes(e: string) {
    ',' in e || '\n' in e || '"' in e
  }

  /** One CSV cell: the escaped text, wrapped in quotes exactly when it holds
      a comma, a newline or a quote. */
  function CsvCell(v: JsValue): (c: string)
    ensures NeedsQuotes(CellText(v)) ==> c == "\"" + Escape(CellText(v)) + "\""
    ensures !NeedsQuotes(CellText(v)) ==> c == CellText(v)
    ensures !Truthy(v) ==> c == ""
  {
    var e := Escape(CellText(v));
    EscapeKeepsPlain(CellText(v));
    assert NeedsQuotes(e) <==> NeedsQuotes(CellText(v)) by {
      assert ',' in e <==> ',' in CellText(v);
      assert '\n' in e <==> '\n' in CellText(v);
    }
    if NeedsQuotes(e) then "\"" + e + "\"" else e
  }

  /** A CSV reader's view of one cell: a quoted cell loses its quotes and
      has its doubled quotes undone; any other cell is taken as is. */
  function ReadCell(c: string): string {
    if |c| >= 2 && c[0] == '"' && c[|c| - 1] == '"' then Undouble(c[1..|c| - 1]) else c
  }

  /** Every cell reads back as the text of its value. */
  lemma CellRoundTrip(v: JsValue)
    ensures ReadCell(CsvCell(v)) == CellText(v)
  {
    var t := CellText(v);
    var c := CsvCell(v);
    if NeedsQuotes(t) {
      assert c[1..|c| - 1] == Escape(t);
      UndoubleEscape(t);
    } else if |c| >= 2 {
      assert c[0] in t;
    }
  }

  /** The cells of one data row, taken in header order. */
  function CsvCells(headers: seq<string>, row: Object): (cs: seq<string>)
    ensures |cs| == |headers|
    ensures forall j :: 0 <= j < |headers| ==> cs[j] == CsvCell(Get(row, headers[j]))
  {
    seq(|headers|, j requires 0 <= j < |headers| => CsvCell(Get(row, headers[j])))
  }

  /** The lines of the CSV text: the header line, then one line per record,
      every record read through the first record's keys. */
  function CsvLines(data: seq<Object>): (ls: seq<string>)
    requires |data| > 0
    ensures |ls| == |data| + 1
    ensures ls[0] == Join(Keys(data[0]), ",")
    ensures forall i :: 0 <= i < |data| ==> ls[i + 1] == Join(CsvCells(Keys(data[0]), data[i]), ",")
  {
    var headers := Keys(data[0]);
    [Join(headers, ",")] + seq(|data|, i requires 0 <= i < |data| => Join(CsvCells(headers, data[i]), ","))
  }

  /** `convertToCSV(data)`: `''` for `null` or no records, else the lines
      joined with `\n`, with no newline at the end. */
  function ConvertToCsv(data: Option<seq<Object>>): (csv: string)
    ensures data.None? || data.value == [] ==> csv == ""
    ensures data.Some? && data.value != [] ==> csv == Join(CsvLines(data.value), "\n")
  {
    if data.None? || data.value == [] then "" else Join(CsvLines(data.value), "\n")
  }

  /** No value text of the records contains `c`, and no key either. */
  predicate Avoids(data: seq<Object>, c: char) {
    (forall i, j :: 0 <= i < |data| && 0 <= j < |data[i]| ==> c !in data[i][j].0)
    && (forall i, j :: 0 <= i < |data| && 0 <= j < |data[i]| ==> c !in CellText(data[i][j].1))
  }

  /** Joining pieces that avoid `c` with a separator that avoids it gives a
      text that avoids it. */
  lemma {:induction false} JoinAvoids(xs: seq<string>, sep: string, c: char)
    requires c !in sep && forall i :: 0 <= i < |xs| ==> c !in xs[i]
    ensures c !in Join(xs, sep)
  {
    if |xs| > 1 {
      JoinAvoids(xs[1..], sep, c);
    }
  }

  /** A property the record does not have reads as `undefined`, whose cell is empty. */
  lemma GetAvoids(row: Object, k: string, c: char)
    requires forall j :: 0 <= j < |row| ==> c !in CellText(row[j].1)
    ensures c !in CellText(Get(row, k))
  {
    if |row| > 0 && row[0].0 != k {
      assert forall j :: 0 <= j < |row[1..]| ==> row[1..][j] == row[j + 1];
      GetAvoids(row[1..], k, c);
    }
  }

  /** Quoting and escaping add only quotes. */
  lemma CellAvoids(v: JsValue, c: char)
    requires c != '"' && c !in CellText(v)
    ensures c !in CsvCell(v)
  {
  }

  /** Every line avoids `c` when every key and value text avoids it. */
  lemma LinesAvoid(data: seq<Object>, c: char)
    requires |data| > 0 && Avoids(data, c) && c != ',' && c != '"'
    ensures forall i :: 0 <= i < |data| + 1 ==> c !in CsvLines(data)[i]
  {
    forall k | 0 <= k < |data| + 1 ensures c !in CsvLines(data)[k] {
      LineAvoidsAt(data, k, c);
    }
  }

  /** One line of the CSV text avoids `c`. */
  lemma LineAvoidsAt(data: seq<Object>, k: nat, c: char)
    requires |data| > 0 && k < |data| + 1 && Avoids(data, c) && c != ',' && c != '"'
    ensures c !in CsvLines(data)[k]
  {
    if k == 0 {
      HeaderLineAvoids(data, c);
    } else {
      var i := k - 1;
      var line := Join(CsvCells(Keys(data[0]), data[i]), ",");
      assert CsvLines(data)[i + 1] == line;
      RecordLineAvoids(data, i, c, line);
    }
  }

  /** The header line avoids `c`. */
  lemma HeaderLineAvoids(data: seq<Object>, c: char)
    requires |data| > 0 && Avoids(data, c) && c != ','
    ensures c !in Join(Keys(data[0]), ",")
  {
    var headers := Keys(data[0]);
    forall j | 0 <= j < |headers| ensures c !in headers[j] {
      assert headers[j] == data[0][j].0;
    }
    assert c !in ",";
    JoinAvoids(headers, ",", c);
  }

  /** The line of one record avoids `c`. */
  lemma RecordLineAvoids(data: seq<Object>, i: nat, c: char, line: string)
    requires i < |data| && Avoids(data, c) && c != ',' && c != '"'
    requires line == Join(CsvCells(Keys(data[0]), data[i]), ",")
    ensures c !in line
  {
    var headers := Keys(data[0]);
    var cs := CsvCells(headers, data[i]);
    forall j | 0 <= j < |cs| ensures c !in cs[j] {
      GetAvoids(data[i], headers[j], c);
      CellAvoids(Get(data[i], headers[j]), c);
    }
    assert c !in ",";
    JoinAvoids(cs, ",", c);
  }

  /** When no key or value holds a newline, splitting the CSV text on `\n`
      gives back the header line and exactly one line per record. */
  lemma CsvLinesRoundTrip(data: seq<Object>)
    requires |data| > 0 && Avoids(data, '\n')
    ensures Split(ConvertToCsv(Some(data)), "\n") == CsvLines(data)
  {
    var ls := CsvLines(data);
    LinesAvoid(data, '\n');
    forall i | 0 <= i < |ls| ensures SeparableBy(ls[i], "\n") {
      assert forall j :: 0 <= j < |ls[i]| ==> ls[i][j] != '\n';
      NoCharSeparable(ls[i], '\n');
    }
    SplitJoin(ls, "\n");
  }

  /** The text of a value has no comma, newline or quote. */
  predicate Plain(v: JsValue) {
    ',' !in CellText(v) && '\n' !in CellText(v) && '"' !in CellText(v)
  }

  /** A plain value's cell is its text, and a comma can follow it unmistakably. */
  lemma PlainCell(v: JsValue)
    requires Plain(v)
    ensures CsvCell(v) == CellText(v) && SeparableBy(CsvCell(v), ",")
  {
    var c := CsvCell(v);
    assert forall k :: 0 <= k < |c| ==> c[k] != ',' by {
      forall k | 0 <= k < |c| ensures c[k] != ',' {
        assert c[k] in CellText(v);
      }
    }
    NoCharSeparable(c, ',');
  }

  /** A record's line splits on `,` into its values' texts in header order,
      when every value of the record is plain. */
  lemma RowSplits(headers: seq<string>, row: Object)
    requires |headers| > 0 && forall j :: 0 <= j < |row| ==> Plain(row[j].1)
    ensures var fields := Split(Join(CsvCells(headers, row), ","), ",");
      |fields| == |headers| && forall j :: 0 <= j < |headers| ==> fields[j] == CellText(Get(row, headers[j]))
  {
    var cs := CsvCells(headers, row);
    forall j | 0 <= j < |cs| ensures cs[j] == CellText(Get(row, headers[j])) && SeparableBy(cs[j], ",") {
      var v := Get(row, headers[j]);
      GetAvoids(row, headers[j], ',');
      GetAvoids(row, headers[j], '\n');
      GetAvoids(row, headers[j], '"');
      PlainCell(v);
    }
    SplitJoin(cs, ",");
  }

  /** For plain values (no comma, newline or quote) every cell is the value's
      text, so splitting a record's line on `,` gives the texts in header
      order. */
  lemma CsvRowRoundTrip(data: seq<Object>, i: nat)
    requires |data| > 0 && i < |data| && |data[0]| > 0
    requires Avoids(data, ',') && Avoids(data, '\n') && Avoids(data, '"')
    ensures var lines := Split(ConvertToCsv(Some(data)), "\n");
      |lines| == |data| + 1
      && var fields := Split(lines[i + 1], ",");
         |fields| == |data[0]| && forall j :: 0 <= j < |fields| ==> fields[j] == CellText(Get(data[i], data[0][j].0))
  {
    CsvLinesRoundTrip(data);
    var lines := Split(ConvertToCsv(Some(data)), "\n");
    assert lines[i + 1] == Join(CsvCells(Keys(data[0]), data[i]), ",");
    assert forall j :: 0 <= j < |data[i]| ==> Plain(data[i][j].1);
    RowSplits(Keys(data[0]), data[i]);
  }

  /** The header line splits back into the first record's keys. */
  lemma CsvHeaderRoundTrip(data: seq<Object>)
    requires |data| > 0 && |data[0]| > 0 && Avoids(data, ',') && Avoids(data, '\n')
    ensures Split(Split(ConvertToCsv(Some(data)), "\n")[0], ",") == Keys(data[0])
  {
    CsvLinesRoundTrip(data);
    var headers := Keys(data[0]);
    forall j | 0 <= j < |headers| ensures SeparableBy(headers[j], ",") {
      assert ',' !in data[0][j].0;
      assert forall k :: 0 <= k < |headers[j]| ==> headers[j][k] != ',';
      NoCharSeparable(headers[j], ',');
    }
    SplitJoin(headers, ",");
  }

  // ---------------------------------------------------------------------------
  // Session
  // ---------------------------------------------------------------------------

  /** The storage key that holds the logged-in user. */
  const CurrentUserKey: string := "currentUser"

  /** The client and the browser storage it writes through. */
  datatype Session = Session(client: Client, storage: Storage)

  /** `getCurrentUser()`. */
  function GetCurrentUser(st: Storage): (u: Option<string>)
    ensures u.Some? <==> CurrentUserKey in st
    ensures u.Some? ==> u.value == st[CurrentUserKey]
  {
    GetItem(st, CurrentUserKey)
  }

  /** `isAuthenticated()`: some user is stored, even an empty name. */
  function IsAuthenticated(st: Storage): (b: bool)
    ensures b <==> CurrentUserKey in st
  {
    GetCurrentUser(st).Some?
  }

  /** `setCurrentUser(u)`: stored and remembered by the client; every other
      storage key is untouched. */
  function SetCurrentUser(s: Session, u: string): (r: Session)
    ensures GetCurrentUser(r.storage) == Some(u) && r.client.currentUser == Some(u)
    ensures r.client.baseUrl == s.client.baseUrl
    ensures forall k :: k != CurrentUserKey ==> (k in r.storage <==> k in s.storage)
    ensures forall k :: k != CurrentUserKey && k in s.storage ==> r.storage[k] == s.storage[k]
  {
    Session(s.client.(currentUser := Some(u)), s.storage[CurrentUserKey := u])
  }

  /** `removeCurrentUser()`: forgotten by storage and by the client; every
      other storage key is untouched. */
  function RemoveCurrentUser(s: Session): (r: Session)
    ensures GetCurrentUser(r.storage).None? && r.client.currentUser.None?
    ensures r.client.baseUrl == s.client.baseUrl
    ensures forall k :: k != CurrentUserKey ==> (k in r.storage <==> k in s.storage)
    ensures forall k :: k != CurrentUserKey && k in s.storage ==> r.storage[k] == s.storage[k]
  {
    Session(s.client.(currentUser := None), s.storage - {CurrentUserKey})
  }

  /** A page that may have been sent elsewhere. */
  datatype Guarded<+T> = Proceed(value: T) | Redirected(target: string, error: string)

  /** `requireAuthentication()`: the stored user, or a redirect to `/login`
      and the error `Authentication required`. */
  function RequireAuthentication(st: Storage): (r: Guarded<string>)
    ensures r.Proceed? <==> IsAuthenticated(st)
    ensures r.Proceed? ==> Some(r.value) == GetCurrentUser(st)
    ensures r.Redirected? ==> r.target == "/login" && r.error == "Authentication required"
  {
    match GetCurrentUser(st)
    case Some(u) => Proceed(u)
    case None => Redirected("/login", "Authentication required")
  }

  /** `login(username, password)` once the server has answered: a failed
      request is rethrown and stores nothing; a successful one stores the
      answer's `username` as a string. */
  function Login(s: Session, result: Outcome<V.Json>): (r: (Session, Outcome<V.Json>))
    ensures result.Raised? ==> r == (s, result)
    ensures result.Ok? ==>
      r.1 == result && GetCurrentUser(r.0.storage) == Some(ToStr(Property(result.value, "username")))
  {
    match result
    case Raised(_) => (s, result)
    case Ok(body) => (SetCurrentUser(s, ToStr(Property(body, "username"))), result)
  }

  /** `logout()`: the user is forgotten and the page goes to `/login`. */
  function Logout(s: Session): (r: (Session, string))
    ensures !IsAuthenticated(r.0.storage) && r.1 == "/login"
  {
    (RemoveCurrentUser(s), "/login")
  }

  /** After a successful login the session is authenticated as the user the
      server named; after logging out again, `requireAuthentication` sends
      the page to `/login`. */
  lemma LoginThenLogout(s: Session, username: string, body: map<string, V.Json>)
    requires "username" in body && body["username"] == V.JStr(username)
    ensures var (s1, _) := Login(s, Ok(V.JObj(body)));
      IsAuthenticated(s1.storage) && RequireAuthentication(s1.storage) == Proceed(username)
      && RequireAuthentication(Logout(s1).0.storage) == Redirected("/login", "Authentication required")
  {
  }
}
