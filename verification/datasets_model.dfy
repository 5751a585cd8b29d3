/** The `Datasets` class: uploaded files of candidate articles, each owned by
    a research through `datasetOwnerId`. */
module DatasetsModel {
  import opened Base
  import opened Values
  import opened Records

  const Schema: Records.Schema := Records.Schema(
    "Dataset",
    {"id", "filename", "created_at", "updated_at", "methodology", "number_of_records",
     "is_active", "datasetOwnerId"},
    ["id"],
    {},
    {"id", "filename"},
    map["is_active" := Bool(true)],
    {"created_at"})

  function ById(id: string): Row -> bool {
    ColEq("id", Str(id))
  }

  function OwnedBy(research: string): Row -> bool {
    ColEq("datasetOwnerId", Str(research))
  }

  /** `get_id(id)`. */
  function GetId(t: Table, id: string): (r: Option<Row>)
    ensures r.Some? ==> r.value in t && Field(r.value, "id") == Str(id)
    ensures r.None? ==> forall i :: 0 <= i < |t| ==> Field(t[i], "id") != Str(id)
  {
    GetWhere(t, ById(id))
  }

  /** `id_exists(id)` holds exactly when `get_id(id)` finds a dataset. */
  function IdExists(t: Table, id: string): (b: bool)
    ensures b <==> GetId(t, id).Some?
  {
    ExistsWhere(t, ById(id))
  }

  /** `add(dict_new)`. */
  function Add(t: Table, dict: map<string, Value>, now: int): (r: Outcome<Table>)
    ensures r.Raised? <==> exists k :: k in dict && k !in Schema.columns
    ensures r.Raised? ==> r.msg == "Error adding Dataset"
    ensures r.Ok? ==> |r.value| == |t| + 1 && r.value[..|t|] == t
    ensures r.Ok? ==> r.value[|t|].Keys == Schema.columns
    ensures r.Ok? ==> forall k :: k in dict ==> k in r.value[|t|] && r.value[|t|][k] == dict[k]
  {
    Insert(t, Schema, dict, now)
  }

  /** `update(id, dict_update)`: a missing dataset raises; otherwise only its
      known attributes change. */
  function Update(t: Table, id: string, upd: map<string, Value>): (r: Outcome<Table>)
    ensures r.Raised? <==> !IdExists(t, id)
    ensures r.Raised? ==> r.msg == "Error updating Dataset"
    ensures r.Ok? ==> (
      var i := FirstWhere(t, ById(id)).value;
      |r.value| == |t| && r.value[i] == SetKnown(t[i], upd)
      && forall j :: 0 <= j < |t| && j != i ==> r.value[j] == t[j])
  {
    UpdateWhere(t, ById(id), upd, "Error updating Dataset")
  }

  /** `deactivate(id)`: the dataset's `is_active` becomes false and nothing else changes. */
  function Deactivate(t: Table, id: string): (r: Outcome<Table>)
    requires Conforms(t, Schema)
    ensures r.Raised? <==> !IdExists(t, id)
    ensures r.Raised? ==> r.msg == "Error deactivating Dataset"
    ensures r.Ok? ==> (
      var i := FirstWhere(t, ById(id)).value;
      |r.value| == |t| && r.value[i] == t[i]["is_active" := Bool(false)]
      && forall j :: 0 <= j < |t| && j != i ==> r.value[j] == t[j])
  {
    Records.Deactivate(t, ById(id), "Error deactivating Dataset")
  }

  /** `delete(id)`: a missing dataset raises; otherwise its row is removed. */
  function Delete(t: Table, id: string): (r: Outcome<Table>)
    ensures r.Raised? <==> !IdExists(t, id)
    ensures r.Raised? ==> r.msg == "Error deleting Dataset"
    ensures r.Ok? ==> |r.value| == |t| - 1
    ensures r.Ok? ==> multiset(r.value) + multiset{GetId(t, id).value} == multiset(t)
  {
    if IdExists(t, id) then DeleteKeepsOthers(t, ById(id), "Error deleting Dataset"); DeleteWhere(t, ById(id), "Error deleting Dataset")
    else DeleteWhere(t, ById(id), "Error deleting Dataset")
  }

  /** `generate_unique_id()`: the first drawn identifier no dataset has. */
  method GenerateUniqueId(t: Table, draws: seq<string>) returns (id: string)
    requires exists n :: 0 <= n < |draws| && !IdExists(t, draws[n])
    ensures !IdExists(t, id)
    ensures id in draws
  {
    id := Records.GenerateUniqueId(t, "id", draws);
  }

  /** `get_datasets()`: `None` for an empty table, else a map from every id
      to a filename held by a dataset with that id. */
  function GetDatasets(t: Table): (r: Option<map<Value, Value>>)
    ensures r.None? <==> |t| == 0
    ensures r.Some? ==> forall k :: k in r.value <==> exists i :: 0 <= i < |t| && Field(t[i], "id") == k
  {
    if |t| == 0 then None else Some(ColumnMap(t, "id", "filename"))
  }

  /** With ids unique, every dataset's entry in `get_datasets` is its filename. */
  lemma GetDatasetsFilenames(t: Table, i: nat)
    requires Admissible(t, Schema) && i < |t|
    ensures GetDatasets(t).Some? && GetDatasets(t).value[Field(t[i], "id")] == Field(t[i], "filename")
  {
    assert forall a, b :: 0 <= a < b < |t| ==> Field(t[a], "id") != Field(t[b], "id") by {
      forall a, b | 0 <= a < b < |t| ensures Field(t[a], "id") != Field(t[b], "id") {
        assert !SameKey(t[a], t[b], Schema.key);
      }
    }
    ColumnMapDistinct(t, "id", "filename", i);
  }

  /** One row of the frame `get_all_by_research` builds. */
  datatype DatasetView = DatasetView(
    id: Value, filename: Value, createdAt: Value, updatedAt: Value, methodology: Value,
    numberOfRecords: Value, isActive: Value)

  function View(row: Row): DatasetView {
    DatasetView(Field(row, "id"), Field(row, "filename"), Field(row, "created_at"),
      Field(row, "updated_at"), Field(row, "methodology"), Field(row, "number_of_records"),
      Field(row, "is_active"))
  }

  /** `get_all_by_research(r)`: one row per dataset owned by `r`, in table
      order; the empty frame when `r` owns none. */
  function GetAllByResearch(t: Table, research: string): (vs: seq<DatasetView>)
    ensures vs == [] <==> !ExistsWhere(t, OwnedBy(research))
    ensures |vs| == |AllWhere(t, OwnedBy(research))|
    ensures forall i :: 0 <= i < |vs| ==> vs[i] == View(AllWhere(t, OwnedBy(research))[i])
  {
    var rows := AllWhere(t, OwnedBy(research));
    AllWhereEmptyIff(t, OwnedBy(research));
    seq(|rows|, i requires 0 <= i < |rows| => View(rows[i]))
  }
}
