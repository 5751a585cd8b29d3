/** The `Articles` class: candidate articles loaded from a dataset. */
module ArticlesModel {
  import opened Base
  import opened Values
  import opened Records

  const Schema: Records.Schema := Records.Schema(
    "Article",
    {"id", "title", "abstract", "abstract_original", "year", "label", "created_at",
     "updated_at", "is_active", "articleOwnerId"},
    ["id"],
    {},
    {"id", "title", "abstract", "abstract_original", "year"},
    map["is_active" := Bool(true)],
    {"created_at"})

  function ById(id: string): Row -> bool {
    ColEq("id", Str(id))
  }

  /** `get_id(id)`. */
  function GetId(t: Table, id: string): (r: Option<Row>)
    ensures r.Some? ==> r.value in t && Field(r.value, "id") == Str(id)
    ensures r.None? ==> forall i :: 0 <= i < |t| ==> Field(t[i], "id") != Str(id)
  {
    GetWhere(t, ById(id))
  }

  /** `id_exists(id)` holds exactly when `get_id(id)` finds an article. */
  function IdExists(t: Table, id: string): (b: bool)
    ensures b <==> GetId(t, id).Some?
  {
    ExistsWhere(t, ById(id))
  }

  /** `add(dict_new)`. */
  function Add(t: Table, dict: map<string, Value>, now: int): (r: Outcome<Table>)
    ensures r.Raised? <==> exists k :: k in dict && k !in Schema.columns
    ensures r.Raised? ==> r.msg == "Error adding Article"
    ensures r.Ok? ==> |r.value| == |t| + 1 && r.value[..|t|] == t
    ensures r.Ok? ==> r.value[|t|].Keys == Schema.columns
    ensures r.Ok? ==> forall k :: k in dict ==> k in r.value[|t|] && r.value[|t|][k] == dict[k]
  {
    Insert(t, Schema, dict, now)
  }

  /** `update(id, dict_update)`: a missing article raises; otherwise only its
      known attributes change. */
  function Update(t: Table, id: string, upd: map<string, Value>): (r: Outcome<Table>)
    ensures r.Raised? <==> !IdExists(t, id)
    ensures r.Raised? ==> r.msg == "Error updating Article"
    ensures r.Ok? ==> (
      var i := FirstWhere(t, ById(id)).value;
      |r.value| == |t| && r.value[i] == SetKnown(t[i], upd)
      && forall j :: 0 <= j < |t| && j != i ==> r.value[j] == t[j])
  {
    UpdateWhere(t, ById(id), upd, "Error updating Article")
  }

  /** `deactivate(id)`: the article's `is_active` becomes false and nothing else changes. */
  function Deactivate(t: Table, id: string): (r: Outcome<Table>)
    requires Conforms(t, Schema)
    ensures r.Raised? <==> !IdExists(t, id)
    ensures r.Raised? ==> r.msg == "Error deactivating Article"
    ensures r.Ok? ==> (
      var i := FirstWhere(t, ById(id)).value;
      |r.value| == |t| && r.value[i] == t[i]["is_active" := Bool(false)]
      && forall j :: 0 <= j < |t| && j != i ==> r.value[j] == t[j])
  {
    Records.Deactivate(t, ById(id), "Error deactivating Article")
  }

  /** `delete(id)`: a missing article raises; otherwise its row is removed. */
  function Delete(t: Table, id: string): (r: Outcome<Table>)
    ensures r.Raised? <==> !IdExists(t, id)
    ensures r.Raised? ==> r.msg == "Error deleting Article"
    ensures r.Ok? ==> |r.value| == |t| - 1
  {
    DeleteWhere(t, ById(id), "Error deleting Article")
  }

  /** With ids unique, deleting an article removes exactly that article. */
  lemma DeleteRemovesOnlyArticle(t: Table, id: string)
    requires Admissible(t, Schema) && IdExists(t, id)
    ensures !IdExists(Delete(t, id).value, id)
    ensures multiset(Delete(t, id).value) + multiset{GetId(t, id).value} == multiset(t)
  {
    var i := FirstWhere(t, ById(id)).value;
    var r := Delete(t, id).value;
    DeleteKeepsOthers(t, ById(id), "Error deleting Article");
    forall j | 0 <= j < |r| ensures Field(r[j], "id") != Str(id) {
      if j < i {
        assert r[j] == t[j];
      } else {
        assert r[j] == t[j + 1];
        assert !SameKey(t[i], t[j + 1], Schema.key);
      }
    }
  }

  /** `generate_unique_id()`: the first drawn identifier no article has. */
  method GenerateUniqueId(t: Table, draws: seq<string>) returns (id: string)
    requires exists n :: 0 <= n < |draws| && !IdExists(t, draws[n])
    ensures !IdExists(t, id)
    ensures id in draws
  {
    id := Records.GenerateUniqueId(t, "id", draws);
  }
}
