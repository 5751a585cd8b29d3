/** The `TrainedModel` class: versioned classifiers trained for a research. */
module TrainModel {
  import opened Base
  import opened Values
  import opened Records

  const Schema: Records.Schema := Records.Schema(
    "Research",
    {"id", "version", "description", "accuracy", "recall", "f1_score", "hyperparameters",
     "time_training", "model_data", "create_at", "update_at", "ResearchOwnerId"},
    ["id"],
    {},
    {"id", "version"},
    map[],
    {"create_at", "update_at"})

  function ById(id: string): Row -> bool {
    ColEq("id", Str(id))
  }

  function OwnedBy(research: Value): Row -> bool {
    ColEq("ResearchOwnerId", research)
  }

  /** A model's version; NULL and non-integer cells count as no version. */
  function VersionOf(row: Row): Option<int> {
    match Field(row, "version")
    case Int(v) => Some(v)
    case _ => None
  }

  /** `max(version)` over the rows satisfying `p`: SQL `MAX` skips NULLs and
      is NULL when nothing is left. The query `generate_version` means to run. */
  function MaxVersion(t: Table, p: Row -> bool): (m: Option<int>)
    ensures m.None? <==> forall i :: 0 <= i < |t| && p(t[i]) ==> VersionOf(t[i]).None?
    ensures m.Some? ==> exists i :: 0 <= i < |t| && p(t[i]) && VersionOf(t[i]) == m
    ensures m.Some? ==> forall i :: 0 <= i < |t| && p(t[i]) && VersionOf(t[i]).Some? ==> VersionOf(t[i]).value <= m.value
    decreases |t|
  {
    if |t| == 0 then None
    else
      var last := t[|t| - 1];
      var rest := MaxVersion(t[..|t| - 1], p);
      assert forall i :: 0 <= i < |t| - 1 ==> t[..|t| - 1][i] == t[i];
      if !p(last) || VersionOf(last).None? then rest
      else if rest.Some? && rest.value > VersionOf(last).value then rest
      else VersionOf(last)
  }

  /** `row`'s version is above every version research `research` has in `t`. */
  predicate AboveAllVersions(t: Table, research: Value, row: Row) {
    forall i :: (0 <= i < |t| && OwnedBy(research)(t[i]) && VersionOf(t[i]).Some?) ==>
      VersionOf(row).Some? && VersionOf(t[i]).value < VersionOf(row).value
  }

  /** The text `generate_version` raises on any failure. */
  const VersionError: string := "Error generating version for TrainedModel"

  /** `generate_version(r)` as written. Its query calls `db.func.max`, but
      `db` is the package's `DatabaseManager`, which holds a session, an
      engine and a declarative base and no `func`; the `AttributeError` is
      caught and re-raised as the generic error, whatever the table holds. */
  function GenerateVersion(t: Table, research: Value): (r: Outcome<int>)
    ensures r.Raised? && r.msg == VersionError
  {
    Raised(VersionError)
  }

  /** `generate_version(r)` with `sqlalchemy.func.max`: 1 when research `r`
      has no versioned model, else the highest version plus one. */
  function NextVersion(t: Table, research: Value): (v: int)
    ensures forall i :: 0 <= i < |t| && OwnedBy(research)(t[i]) && VersionOf(t[i]).Some? ==>
      VersionOf(t[i]).value < v
    ensures (forall i :: 0 <= i < |t| && OwnedBy(research)(t[i]) ==> VersionOf(t[i]).None?) ==> v == 1
    ensures v == 1 || exists i :: 0 <= i < |t| && OwnedBy(research)(t[i]) && VersionOf(t[i]) == Some(v - 1)
  {
    match MaxVersion(t, OwnedBy(research))
    case None => 1
    case Some(m) => m + 1
  }

  /** `add(dict_new)` as written: the method lacks `@classmethod`, so calling
      `TrainedModel.add(dict_new=...)` on the class binds nothing to `cls`
      and raises `TypeError` before its body runs; nothing is stored. */
  function AddAsCalled(t: Table, dict: map<string, Value>, now: int): (r: Outcome<Table>)
    ensures r.Raised? && r.msg == MissingClsArgument
  {
    Raised(MissingClsArgument)
  }

  const MissingClsArgument: string := "TypeError: TrainedModel.add() missing 1 required positional argument: 'cls'"

  /** The text `add` raises on any failure. */
  const AddError: string := "Error adding Research"

  /** The body of `add` once `version` has been asked for: a failed version
      raises the generic error; otherwise the row is constructed with that
      version and put in the session. */
  function AddVersioned(t: Table, dict: map<string, Value>, version: Outcome<int>, now: int): (r: Outcome<Table>)
    ensures version.Raised? ==> r == Raised(AddError)
    ensures r.Raised? <==> version.Raised? || exists k :: k in dict && k !in Schema.columns
    ensures r.Raised? ==> r.msg == AddError
    ensures r.Ok? ==> |r.value| == |t| + 1 && r.value[..|t|] == t
    ensures r.Ok? ==> r.value[|t|].Keys == Schema.columns
    ensures r.Ok? ==> Field(r.value[|t|], "version") == Int(version.value)
    ensures r.Ok? ==> forall k :: k in dict && k != "version" ==> r.value[|t|][k] == dict[k]
  {
    match version
    case Raised(_) => Raised(AddError)
    case Ok(v) => Insert(t, Schema, dict["version" := Int(v)], now)
  }

  /** `add(dict_new)` with `@classmethod` restored but the body as written:
      a missing `ResearchOwnerId` raises, and otherwise `generate_version`
      does, so every call raises and nothing is stored. */
  function Add(t: Table, dict: map<string, Value>, now: int): (r: Outcome<Table>)
    ensures r.Raised? && r.msg == AddError
  {
    if "ResearchOwnerId" !in dict then Raised(AddError)
    else AddVersioned(t, dict, GenerateVersion(t, dict["ResearchOwnerId"]), now)
  }

  /** `add(dict_new)` with both corrections, `@classmethod` and
      `sqlalchemy.func`: the version is the next one for the research named
      in the dictionary (a missing `ResearchOwnerId` raises), then the row is
      constructed and put in the session. */
  function AddIntended(t: Table, dict: map<string, Value>, now: int): (r: Outcome<Table>)
    ensures r.Raised? <==> "ResearchOwnerId" !in dict || exists k :: k in dict && k !in Schema.columns
    ensures r.Raised? ==> r.msg == AddError
    ensures r.Ok? ==> |r.value| == |t| + 1 && r.value[..|t|] == t
    ensures r.Ok? ==> r.value[|t|].Keys == Schema.columns
    ensures r.Ok? ==> Field(r.value[|t|], "version") == Int(NextVersion(t, dict["ResearchOwnerId"]))
    ensures r.Ok? ==> forall k :: k in dict && k != "version" ==> r.value[|t|][k] == dict[k]
  {
    if "ResearchOwnerId" !in dict then Raised(AddError)
    else AddVersioned(t, dict, Ok(NextVersion(t, dict["ResearchOwnerId"])), now)
  }

  /** The two halves of the versioning defect: for a record of columns that
      names its research, the written `add` raises whatever the table holds,
      while the corrected one stores the row with the next version. */
  lemma VersionedAddOnlyWhenCorrected(t: Table, dict: map<string, Value>, now: int)
    requires "ResearchOwnerId" in dict && forall k :: k in dict ==> k in Schema.columns
    ensures Add(t, dict, now) == Raised(AddError)
    ensures AddIntended(t, dict, now).Ok?
    ensures VersionOf(AddIntended(t, dict, now).value[|t|]) == Some(NextVersion(t, dict["ResearchOwnerId"]))
  {
  }

  /** A model added for a research gets a version above every version that
      research already had: successive adds number the models strictly upward. */
  lemma AddIncreasesVersion(t: Table, dict: map<string, Value>, now: int)
    requires AddIntended(t, dict, now).Ok?
    ensures var t' := AddIntended(t, dict, now).value;
      forall i :: 0 <= i < |t| && OwnedBy(dict["ResearchOwnerId"])(t[i]) && VersionOf(t[i]).Some? ==>
        VersionOf(t[i]).value < VersionOf(t'[|t|]).value
  {
  }

  /** Two adds for the same research with a commit in between: the second
      add's query sees the first model, so its version is the higher. */
  lemma SuccessiveAddsIncrease(t: Table, d1: map<string, Value>, d2: map<string, Value>, n1: int, n2: int)
    requires AddIntended(t, d1, n1).Ok?
    requires Commit(AddIntended(t, d1, n1).value, Schema).Ok?
    requires AddIntended(Commit(AddIntended(t, d1, n1).value, Schema).value, d2, n2).Ok?
    requires d2["ResearchOwnerId"] == d1["ResearchOwnerId"]
    ensures var t1 := Commit(AddIntended(t, d1, n1).value, Schema).value;
      var t2 := AddIntended(t1, d2, n2).value;
      VersionOf(t1[|t|]).value < VersionOf(t2[|t1|]).value
  {
    var t1 := Commit(AddIntended(t, d1, n1).value, Schema).value;
    assert OwnedBy(d2["ResearchOwnerId"])(t1[|t|]);
    AddIncreasesVersion(t1, d2, n2);
  }

  /** `add` in a session that has not committed: `add` does not commit and
      the session does not autoflush, so the version query sees only the
      committed table, and the new model joins the pending ones. */
  function AddPending(committed: Table, pending: seq<Row>, dict: map<string, Value>, now: int): (r: Outcome<seq<Row>>)
    ensures r.Raised? <==> "ResearchOwnerId" !in dict || exists k :: k in dict && k !in Schema.columns
    ensures r.Ok? ==> |r.value| == |pending| + 1 && r.value[..|pending|] == pending
    ensures r.Ok? ==> VersionOf(r.value[|pending|]) == Some(NextVersion(committed, dict["ResearchOwnerId"]))
  {
    match AddIntended(committed, dict, now)
    case Raised(m) => Raised(m)
    case Ok(t) => Ok(pending + [t[|committed|]])
  }

  /** Without a commit between them, two adds for the same research are
      given the same version: nothing numbers the pending models apart. */
  lemma UncommittedAddsShareVersion(committed: Table, d1: map<string, Value>, d2: map<string, Value>, n1: int, n2: int)
    requires AddPending(committed, [], d1, n1).Ok?
    requires AddPending(committed, AddPending(committed, [], d1, n1).value, d2, n2).Ok?
    requires d2["ResearchOwnerId"] == d1["ResearchOwnerId"]
    ensures var p := AddPending(committed, AddPending(committed, [], d1, n1).value, d2, n2).value;
      |p| == 2 && VersionOf(p[0]) == VersionOf(p[1]) && VersionOf(p[0]).Some?
  {
  }

  /** `update(id, dict_update)` as written: it stamps `updated_at`, which is
      not a column of this class (the column is `update_at`), so the stamp is
      ignored like any unknown key; a missing id raises. */
  function Update(t: Table, id: string, upd: map<string, Value>, now: int): (r: Outcome<Table>)
    requires Conforms(t, Schema)
    ensures r.Raised? <==> !ExistsWhere(t, ById(id))
    ensures r.Raised? ==> r.msg == "Error updating Research"
    ensures r.Ok? ==> (
      var i := FirstWhere(t, ById(id)).value;
      |r.value| == |t| && r.value[i] == SetKnown(t[i], upd - {"updated_at"})
      && Field(r.value[i], "update_at") == (if "update_at" in upd then upd["update_at"] else Field(t[i], "update_at"))
      && forall j :: 0 <= j < |t| && j != i ==> r.value[j] == t[j])
  {
    UpdateWhere(t, ById(id), upd["updated_at" := Time(now)], "Error updating Research")
  }

  /** One item of `get_by_research`. */
  datatype ModelView = ModelView(id: Value, version: Value, description: Value, createAt: Value, updateAt: Value)

  function View(row: Row): ModelView {
    ModelView(Field(row, "id"), Field(row, "version"), Field(row, "description"),
      Field(row, "create_at"), Field(row, "update_at"))
  }

  /** `get_by_research(r)`: one item per model of research `r`, in table order. */
  function GetByResearch(t: Table, research: string): (vs: seq<ModelView>)
    ensures |vs| == |AllWhere(t, OwnedBy(Str(research)))|
    ensures forall i :: 0 <= i < |vs| ==> vs[i] == View(AllWhere(t, OwnedBy(Str(research)))[i])
    ensures vs == [] <==> !ExistsWhere(t, OwnedBy(Str(research)))
  {
    var rows := AllWhere(t, OwnedBy(Str(research)));
    AllWhereEmptyIff(t, OwnedBy(Str(research)));
    seq(|rows|, i requires 0 <= i < |rows| => View(rows[i]))
  }

  /** `get_id(id)`. */
  function GetId(t: Table, id: string): (r: Option<Row>)
    ensures r.Some? ==> r.value in t && Field(r.value, "id") == Str(id)
    ensures r.None? ==> forall i :: 0 <= i < |t| ==> Field(t[i], "id") != Str(id)
  {
    GetWhere(t, ById(id))
  }

  /** Versions ordered as `ORDER BY version DESC` in SQLite: NULL below every number. */
  predicate VersionLe(a: Option<int>, b: Option<int>) {
    a.None? || (b.Some? && a.value <= b.value)
  }

  /** Position of the first row satisfying `p` with the highest version. */
  function LatestIndex(t: Table, p: Row -> bool): (k: Option<nat>)
    ensures k.None? <==> !ExistsWhere(t, p)
    ensures k.Some? ==> k.value < |t| && p(t[k.value])
    ensures k.Some? ==> forall j :: 0 <= j < |t| && p(t[j]) ==> VersionLe(VersionOf(t[j]), VersionOf(t[k.value]))
    ensures k.Some? ==> forall j :: 0 <= j < k.value && p(t[j]) ==> !VersionLe(VersionOf(t[k.value]), VersionOf(t[j]))
    decreases |t|
  {
    if |t| == 0 then None
    else
      var last := t[|t| - 1];
      var k := LatestIndex(t[..|t| - 1], p);
      assert forall i :: 0 <= i < |t| - 1 ==> t[..|t| - 1][i] == t[i];
      if !p(last) then k
      else if k.Some? && VersionLe(VersionOf(last), VersionOf(t[k.value])) then k
      else Some(|t| - 1)
  }

  /** `get_latest_by_research(r)`: a model of research `r` with the highest
      version; among equal versions the first in table order. */
  function GetLatestByResearch(t: Table, research: string): (r: Option<Row>)
    ensures r.None? <==> !ExistsWhere(t, OwnedBy(Str(research)))
    ensures r.Some? ==> r.value in t && OwnedBy(Str(research))(r.value)
    ensures r.Some? ==> forall i :: 0 <= i < |t| && OwnedBy(Str(research))(t[i]) ==>
      VersionLe(VersionOf(t[i]), VersionOf(r.value))
  {
    match LatestIndex(t, OwnedBy(Str(research)))
    case None => None
    case Some(k) => Some(t[k])
  }

  /** The latest model carries the version just below the one the corrected
      `generate_version` hands out next. */
  lemma LatestPrecedesNextVersion(t: Table, research: string)
    requires GetLatestByResearch(t, research).Some?
    requires VersionOf(GetLatestByResearch(t, research).value).Some?
    ensures VersionOf(GetLatestByResearch(t, research).value).value == NextVersion(t, Str(research)) - 1
  {
    var latest := GetLatestByResearch(t, research).value;
    var v := NextVersion(t, Str(research));
    assert latest in t;
    var i :| 0 <= i < |t| && t[i] == latest;
    if v != 1 {
      var j :| 0 <= j < |t| && OwnedBy(Str(research))(t[j]) && VersionOf(t[j]) == Some(v - 1);
      assert VersionLe(VersionOf(t[j]), VersionOf(latest));
    }
  }
}
