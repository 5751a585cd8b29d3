/** The relational store behind the ORM classes. A table is its rows in
    insertion order (the order `.first()` and `.all()` see); a row maps
    column names to values. The operations here are the code every model
    class repeats: look-up by column, update of known attributes, delete,
    insertion checked at commit time, and unique-id generation. */
module Records {
  import opened Base
  import opened Values

  type Row = map<string, Value>
  type Table = seq<Row>

  /** A column's value, NULL when the row has no such column. */
  function Field(row: Row, col: string): Value {
    if col in row then row[col] else Null
  }

  /** `filter_by(col=v)` as a row predicate. */
  function ColEq(col: string, v: Value): Row -> bool {
    row => Field(row, col) == v
  }

  /** `filter_by(c1=v1, c2=v2)` as a row predicate. */
  function ColsEq(c1: string, v1: Value, c2: string, v2: Value): Row -> bool {
    row => Field(row, c1) == v1 && Field(row, c2) == v2
  }

  // ---------------------------------------------------------------------------
  // Queries
  // ---------------------------------------------------------------------------

  /** Index of the first row, at or after `from`, that satisfies `p`. */
  function FirstFrom(t: Table, p: Row -> bool, from: nat): (r: Option<nat>)
    requires from <= |t|
    ensures r.Some? ==> from <= r.value < |t| && p(t[r.value])
    ensures forall i :: from <= i < |t| && (r.None? || i < r.value) ==> !p(t[i])
    decreases |t| - from
  {
    if from == |t| then None
    else if p(t[from]) then Some(from)
    else FirstFrom(t, p, from + 1)
  }

  /** Index of the row `.filter(p).first()` returns. */
  function FirstWhere(t: Table, p: Row -> bool): Option<nat> {
    FirstFrom(t, p, 0)
  }

  /** The row `.filter(p).first()` returns, `None` when no row matches. */
  function GetWhere(t: Table, p: Row -> bool): (r: Option<Row>)
    ensures r.Some? <==> exists i :: 0 <= i < |t| && p(t[i])
    ensures r.Some? ==> r.value in t && p(r.value)
  {
    match FirstWhere(t, p)
    case None => None
    case Some(i) => Some(t[i])
  }

  /** The first match is the matching row no earlier row precedes. */
  lemma FirstWhereAt(t: Table, p: Row -> bool, i: nat)
    requires i < |t| && p(t[i])
    requires forall j :: 0 <= j < i ==> !p(t[j])
    ensures FirstWhere(t, p) == Some(i) && GetWhere(t, p) == Some(t[i])
  {
  }

  /** `.filter(p).first() is not None`. */
  predicate ExistsWhere(t: Table, p: Row -> bool) {
    exists i :: 0 <= i < |t| && p(t[i])
  }

  /** The rows `.filter(p).all()` returns, in table order. */
  function AllWhere(t: Table, p: Row -> bool): (rs: Table)
    ensures |rs| <= |t|
    ensures forall r :: r in rs ==> r in t && p(r)
    ensures forall i :: 0 <= i < |t| && p(t[i]) ==> t[i] in rs
  {
    if |t| == 0 then []
    else (if p(t[0]) then [t[0]] else []) + AllWhere(t[1..], p)
  }

  /** Filtering a concatenation filters each part, keeping the order. */
  lemma {:induction false} AllWhereAppend(t1: Table, t2: Table, p: Row -> bool)
    ensures AllWhere(t1 + t2, p) == AllWhere(t1, p) + AllWhere(t2, p)
  {
    if |t1| == 0 {
      assert t1 + t2 == t2;
    } else {
      assert (t1 + t2)[1..] == t1[1..] + t2;
      AllWhereAppend(t1[1..], t2, p);
    }
  }

  /** `.all()` is empty exactly when no row satisfies the predicate. */
  lemma AllWhereEmptyIff(t: Table, p: Row -> bool)
    ensures AllWhere(t, p) == [] <==> !ExistsWhere(t, p)
  {
    if AllWhere(t, p) != [] {
      var r := AllWhere(t, p)[0];
      assert r in t;
      var i :| 0 <= i < |t| && t[i] == r;
    }
  }

  /** `.all()` under a predicate no row satisfies is empty. */
  lemma {:induction false} AllWhereNone(t: Table, p: Row -> bool)
    requires !ExistsWhere(t, p)
    ensures AllWhere(t, p) == []
  {
    if |t| > 0 {
      assert !p(t[0]);
      assert !ExistsWhere(t[1..], p) by {
        forall i | 0 <= i < |t[1..]| ensures !p(t[1..][i]) {
          assert t[1..][i] == t[i + 1];
        }
      }
      AllWhereNone(t[1..], p);
    }
  }

  // ---------------------------------------------------------------------------
  // Updates and deletes
  // ---------------------------------------------------------------------------

  /** `setattr` for every key of `upd` that is an attribute of the row;
      other keys are ignored. */
  function SetKnown(row: Row, upd: map<string, Value>): (r: Row)
    ensures r.Keys == row.Keys
    ensures forall k :: k in row && k in upd ==> r[k] == upd[k]
    ensures forall k :: k in row && k !in upd ==> r[k] == row[k]
  {
    map k | k in row :: if k in upd then upd[k] else row[k]
  }

  /** Applying the same update twice is applying it once. */
  lemma SetKnownTwice(row: Row, upd: map<string, Value>)
    ensures SetKnown(SetKnown(row, upd), upd) == SetKnown(row, upd)
  {
    var a, b := SetKnown(SetKnown(row, upd), upd), SetKnown(row, upd);
    forall k | k in a ensures a[k] == b[k] {
    }
  }

  /** Two tables that agree on column `col` row by row find the same first
      row with `col == v`. */
  lemma {:induction false} FirstFromSameColumn(t: Table, u: Table, col: string, v: Value, from: nat)
    requires |t| == |u| && from <= |t|
    requires forall j :: 0 <= j < |t| ==> Field(t[j], col) == Field(u[j], col)
    ensures FirstFrom(t, ColEq(col, v), from) == FirstFrom(u, ColEq(col, v), from)
    decreases |t| - from
  {
    if from < |t| {
      FirstFromSameColumn(t, u, col, v, from + 1);
    }
  }

  /** Leaving out of `upd` keys the row does not have changes nothing. */
  lemma SetKnownDropsUnknown(row: Row, upd: map<string, Value>, drop: set<string>)
    requires forall k :: k in drop ==> k !in row
    ensures SetKnown(row, upd - drop) == SetKnown(row, upd)
  {
    var a, b := SetKnown(row, upd - drop), SetKnown(row, upd);
    forall k | k in row ensures a[k] == b[k] {
      assert k !in drop;
    }
  }

  /** The `update` class method: the first row satisfying `p` gets the known
      keys of `upd`; no matching row raises `msg`. */
  function UpdateWhere(t: Table, p: Row -> bool, upd: map<string, Value>, msg: string): (r: Outcome<Table>)
    ensures r.Raised? <==> !ExistsWhere(t, p)
    ensures r.Raised? ==> r.msg == msg
    ensures r.Ok? ==> (
      var i := FirstWhere(t, p).value;
      |r.value| == |t| && r.value[i] == SetKnown(t[i], upd)
      && forall j :: 0 <= j < |t| && j != i ==> r.value[j] == t[j])
  {
    match FirstWhere(t, p)
    case None => Raised(msg)
    case Some(i) => Ok(t[i := SetKnown(t[i], upd)])
  }

  /** The `deactivate` class method: the first row satisfying `p` gets
      `is_active = False` and nothing else changes; no matching row raises `msg`. */
  function Deactivate(t: Table, p: Row -> bool, msg: string): (r: Outcome<Table>)
    ensures r.Raised? <==> !ExistsWhere(t, p)
    ensures r.Raised? ==> r.msg == msg
    ensures r.Ok? ==> (
      var i := FirstWhere(t, p).value;
      |r.value| == |t|
      && r.value[i] == (if "is_active" in t[i] then t[i]["is_active" := Bool(false)] else t[i])
      && forall j :: 0 <= j < |t| && j != i ==> r.value[j] == t[j])
  {
    var r := UpdateWhere(t, p, map["is_active" := Bool(false)], msg);
    if r.Ok? then
      var i := FirstWhere(t, p).value;
      assert r.value[i] == (if "is_active" in t[i] then t[i]["is_active" := Bool(false)] else t[i]);
      r
    else r
  }

  /** The `delete` class method: the first row satisfying `p` is removed; no
      matching row raises `msg`. */
  function DeleteWhere(t: Table, p: Row -> bool, msg: string): (r: Outcome<Table>)
    ensures r.Raised? <==> !ExistsWhere(t, p)
    ensures r.Raised? ==> r.msg == msg
    ensures r.Ok? ==> (
      var i := FirstWhere(t, p).value;
      |r.value| == |t| - 1
      && (forall j :: 0 <= j < i ==> r.value[j] == t[j])
      && (forall j :: i < j < |t| ==> r.value[j - 1] == t[j]))
  {
    match FirstWhere(t, p)
    case None => Raised(msg)
    case Some(i) => Ok(t[..i] + t[i + 1..])
  }

  /** Deleting removes exactly one matching row: every other row is kept. */
  lemma DeleteKeepsOthers(t: Table, p: Row -> bool, msg: string)
    requires ExistsWhere(t, p)
    ensures multiset(DeleteWhere(t, p, msg).value) + multiset{t[FirstWhere(t, p).value]} == multiset(t)
  {
    var i := FirstWhere(t, p).value;
    assert t == t[..i] + [t[i]] + t[i + 1..];
  }

  // ---------------------------------------------------------------------------
  // Inserting: construction and commit-time constraints
  // ---------------------------------------------------------------------------

  /** A mapped class: its columns, primary-key columns, unique columns,
      NOT NULL columns, constant defaults and columns defaulting to the
      current time. */
  datatype Schema = Schema(
    name: string,
    columns: set<string>,
    key: seq<string>,
    unique: set<string>,
    notNull: set<string>,
    defaults: map<string, Value>,
    timeDefaults: set<string>)

  /** `cls(**dict_new)`: an unknown keyword raises (reported by `add` as
      "Error adding <class>"); columns not given take their default, or NULL. */
  function Construct(schema: Schema, dict: map<string, Value>, now: int): (r: Outcome<Row>)
    ensures r.Raised? <==> exists k :: k in dict && k !in schema.columns
    ensures r.Raised? ==> r.msg == "Error adding " + schema.name
    ensures r.Ok? ==> r.value.Keys == schema.columns
    ensures r.Ok? ==> forall k :: k in dict ==> k in r.value && r.value[k] == dict[k]
  {
    if exists k :: k in dict && k !in schema.columns then Raised("Error adding " + schema.name)
    else
      Ok(map c | c in schema.columns ::
        if c in dict then dict[c]
        else if c in schema.defaults then schema.defaults[c]
        else if c in schema.timeDefaults then Time(now)
        else Null)
  }

  /** The `add` class method: construct the row and put it in the session,
      whose table then ends with the new row. Constraints are only checked
      at commit. */
  function Insert(t: Table, schema: Schema, dict: map<string, Value>, now: int): (r: Outcome<Table>)
    ensures r.Raised? <==> exists k :: k in dict && k !in schema.columns
    ensures r.Raised? ==> r.msg == "Error adding " + schema.name
    ensures r.Ok? ==> |r.value| == |t| + 1 && r.value[..|t|] == t
    ensures r.Ok? ==> r.value[|t|].Keys == schema.columns
    ensures r.Ok? ==> forall k :: k in dict ==> k in r.value[|t|] && r.value[|t|][k] == dict[k]
  {
    match Construct(schema, dict, now)
    case Raised(m) => Raised(m)
    case Ok(row) => Ok(t + [row])
  }

  /** Every row of the table carries exactly the class's columns. */
  predicate Conforms(t: Table, schema: Schema) {
    forall i :: 0 <= i < |t| ==> t[i].Keys == schema.columns
  }

  /** `{row[keyCol]: row[valCol] for row in rows}`: later rows win on equal keys. */
  function ColumnMap(t: Table, keyCol: string, valCol: string): (m: map<Value, Value>)
    ensures forall k :: k in m <==> exists i :: 0 <= i < |t| && Field(t[i], keyCol) == k
    ensures forall k :: k in m ==> exists i :: 0 <= i < |t| && Field(t[i], keyCol) == k && m[k] == Field(t[i], valCol)
    decreases |t|
  {
    if |t| == 0 then map[]
    else
      var m0 := ColumnMap(t[..|t| - 1], keyCol, valCol);
      assert forall i :: 0 <= i < |t| - 1 ==> t[..|t| - 1][i] == t[i];
      m0[Field(t[|t| - 1], keyCol) := Field(t[|t| - 1], valCol)]
  }

  /** With distinct keys, every row's key maps to that row's value. */
  lemma {:induction false} ColumnMapDistinct(t: Table, keyCol: string, valCol: string, i: nat)
    requires i < |t|
    requires forall a, b :: 0 <= a < b < |t| ==> Field(t[a], keyCol) != Field(t[b], keyCol)
    ensures ColumnMap(t, keyCol, valCol)[Field(t[i], keyCol)] == Field(t[i], valCol)
    decreases |t|
  {
    if i < |t| - 1 {
      var t' := t[..|t| - 1];
      assert t'[i] == t[i];
      ColumnMapDistinct(t', keyCol, valCol, i);
    }
  }

  /** Two rows have the same primary key. */
  predicate SameKey(a: Row, b: Row, key: seq<string>) {
    forall j :: 0 <= j < |key| ==> Field(a, key[j]) == Field(b, key[j])
  }

  /** The constraints the database enforces when a session commits: every
      NOT NULL (and key) column is set, primary keys are distinct, and values
      of unique columns are distinct. */
  predicate Admissible(t: Table, schema: Schema) {
    (forall i, c :: 0 <= i < |t| && c in schema.notNull ==> Field(t[i], c) != Null)
    && (forall i, j :: 0 <= i < |t| && 0 <= j < |schema.key| ==> Field(t[i], schema.key[j]) != Null)
    && (forall i, j :: 0 <= i < j < |t| ==> !SameKey(t[i], t[j], schema.key))
    && (forall i, j, c :: 0 <= i < j < |t| && c in schema.unique && Field(t[i], c) != Null ==>
          Field(t[i], c) != Field(t[j], c))
  }

  /** Text of the database error a failed commit raises. */
  const IntegrityError: string := "IntegrityError"

  /** `db.session.commit()` of a session whose table would become `t`. */
  function Commit(t: Table, schema: Schema): (r: Outcome<Table>)
    ensures r.Ok? <==> Admissible(t, schema)
    ensures r.Ok? ==> r.value == t
  {
    if Admissible(t, schema) then Ok(t) else Raised(IntegrityError)
  }

  /** A row whose key is new and whose unique values are unused can be
      appended to an admissible table. */
  lemma {:induction false} InsertAdmissible(t: Table, row: Row, schema: Schema)
    requires Admissible(t, schema)
    requires forall c :: c in schema.notNull ==> Field(row, c) != Null
    requires forall j :: 0 <= j < |schema.key| ==> Field(row, schema.key[j]) != Null
    requires forall i :: 0 <= i < |t| ==> !SameKey(t[i], row, schema.key)
    requires forall i, c :: 0 <= i < |t| && c in schema.unique && Field(t[i], c) != Null ==>
      Field(t[i], c) != Field(row, c)
    ensures Admissible(t + [row], schema)
  {
    var t' := t + [row];
    assert forall i :: 0 <= i < |t| ==> t'[i] == t[i];
    assert t'[|t|] == row;
  }

  /** Updating columns that carry no constraint keeps a committable table
      committable. */
  lemma UpdateKeepsAdmissible(t: Table, p: Row -> bool, upd: map<string, Value>, msg: string, schema: Schema)
    requires Admissible(t, schema) && ExistsWhere(t, p)
    requires forall k :: k in upd ==> k !in schema.notNull && k !in schema.unique
    requires forall j :: 0 <= j < |schema.key| ==> schema.key[j] !in upd
    ensures Admissible(UpdateWhere(t, p, upd, msg).value, schema)
  {
    var i := FirstWhere(t, p).value;
    var r := UpdateWhere(t, p, upd, msg).value;
    assert forall j, c :: 0 <= j < |t| && c !in upd ==> Field(r[j], c) == Field(t[j], c);
    ConstrainedColumnsAgree(t, r, upd, schema);
  }

  /** A table that agrees with an admissible one on every column outside
      `upd`, where `upd` holds no constrained column, is admissible. */
  lemma ConstrainedColumnsAgree(t: Table, r: Table, upd: map<string, Value>, schema: Schema)
    requires Admissible(t, schema) && |r| == |t|
    requires forall k :: k in upd ==> k !in schema.notNull && k !in schema.unique
    requires forall j :: 0 <= j < |schema.key| ==> schema.key[j] !in upd
    requires forall j, c :: 0 <= j < |t| && c !in upd ==> Field(r[j], c) == Field(t[j], c)
    ensures Admissible(r, schema)
  {
    forall i, c | 0 <= i < |r| && c in schema.notNull ensures Field(r[i], c) != Null {
      assert Field(r[i], c) == Field(t[i], c);
    }
    forall i, j | 0 <= i < |r| && 0 <= j < |schema.key| ensures Field(r[i], schema.key[j]) != Null {
      assert Field(r[i], schema.key[j]) == Field(t[i], schema.key[j]);
    }
    forall i, j, c | 0 <= i < j < |r| && c in schema.unique && Field(r[i], c) != Null
      ensures Field(r[i], c) != Field(r[j], c)
    {
      assert Field(r[i], c) == Field(t[i], c) && Field(r[j], c) == Field(t[j], c);
    }
    forall i, j | 0 <= i < j < |r| ensures !SameKey(r[i], r[j], schema.key) {
      assert !SameKey(t[i], t[j], schema.key);
      var k :| 0 <= k < |schema.key| && Field(t[i], schema.key[k]) != Field(t[j], schema.key[k]);
      assert Field(r[i], schema.key[k]) != Field(r[j], schema.key[k]);
    }
  }

  /** Appending a row whose key is already taken cannot be committed. */
  lemma DuplicateKeyRejected(t: Table, row: Row, schema: Schema, i: nat)
    requires i < |t| && SameKey(t[i], row, schema.key)
    ensures Commit(t + [row], schema).Raised?
  {
    var t' := t + [row];
    assert t'[i] == t[i] && t'[|t|] == row;
  }

  // ---------------------------------------------------------------------------
  // Unique identifiers
  // ---------------------------------------------------------------------------

  /** The first of the drawn candidates that no row holds in column `col`:
      what `generate_unique_id` returns when `draws` are the successive
      `uuid4()` strings. `None` when every draw is taken. */
  function FirstFresh(t: Table, col: string, draws: seq<string>): (r: Option<string>)
    ensures r.Some? ==> r.value in draws && !ExistsWhere(t, ColEq(col, Str(r.value)))
    ensures r.None? <==> forall n :: 0 <= n < |draws| ==> ExistsWhere(t, ColEq(col, Str(draws[n])))
  {
    if |draws| == 0 then None
    else if !ExistsWhere(t, ColEq(col, Str(draws[0]))) then Some(draws[0])
    else FirstFresh(t, col, draws[1..])
  }

  /** `generate_unique_id` / `generate_unique_username`: draw candidates until
      one is not in the table. `draws` are the identifiers `uuid4()` yields, in
      order; at least one of them is free. */
  method GenerateUniqueId(t: Table, col: string, draws: seq<string>) returns (id: string)
    requires exists n :: 0 <= n < |draws| && !ExistsWhere(t, ColEq(col, Str(draws[n])))
    ensures !ExistsWhere(t, ColEq(col, Str(id)))
    ensures Some(id) == FirstFresh(t, col, draws)
  {
    var n := 0;
    while ExistsWhere(t, ColEq(col, Str(draws[n])))
      invariant 0 <= n < |draws|
      invariant FirstFresh(t, col, draws) == FirstFresh(t, col, draws[n..])
      invariant exists m :: n <= m < |draws| && !ExistsWhere(t, ColEq(col, Str(draws[m])))
      decreases |draws| - n
    {
      assert draws[n..][1..] == draws[n + 1..];
      n := n + 1;
    }
    id := draws[n];
  }
}
