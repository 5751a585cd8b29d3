/** The `AiLabeled` class: the LLM's screening decision for one article,
    keyed by the article id alone. */
module AiLabeledModel {
  import opened Base
  import opened Values
  import opened Records

  const Schema: Records.Schema := Records.Schema(
    "AiLabeled",
    {"id_article", "prompt_input", "prediction", "reasoning", "tokens_input", "tokens_output",
     "tokens_total", "flag_complete", "create_at", "update_at", "ResearchOwnerId"},
    ["id_article"],
    {},
    {"id_article"},
    map["flag_complete" := Bool(false)],
    {"create_at", "update_at"})

  function ByArticle(a: string): Row -> bool {
    ColEq("id_article", Str(a))
  }

  function ByArticleResearch(a: string, r: string): Row -> bool {
    ColsEq("id_article", Str(a), "ResearchOwnerId", Str(r))
  }

  function OwnedBy(r: string): Row -> bool {
    ColEq("ResearchOwnerId", Str(r))
  }

  /** `add(dict_new)`. */
  function Add(t: Table, dict: map<string, Value>, now: int): (r: Outcome<Table>)
    ensures r.Raised? <==> exists k :: k in dict && k !in Schema.columns
    ensures r.Raised? ==> r.msg == "Error adding AiLabeled"
    ensures r.Ok? ==> |r.value| == |t| + 1 && r.value[..|t|] == t
    ensures r.Ok? ==> r.value[|t|].Keys == Schema.columns
    ensures r.Ok? ==> forall k :: k in dict ==> k in r.value[|t|] && r.value[|t|][k] == dict[k]
  {
    Insert(t, Schema, dict, now)
  }

  /** `get_id(a)`: the label of article `a`, whatever its research. */
  function GetId(t: Table, a: string): (r: Option<Row>)
    ensures r.Some? ==> r.value in t && Field(r.value, "id_article") == Str(a)
    ensures r.None? ==> forall i :: 0 <= i < |t| ==> Field(t[i], "id_article") != Str(a)
  {
    GetWhere(t, ByArticle(a))
  }

  /** `get_by_article_research(a, r)`: the label of article `a` within research `r`. */
  function GetByArticleResearch(t: Table, a: string, r: string): (res: Option<Row>)
    ensures res.Some? ==> (
      res.value in t && Field(res.value, "id_article") == Str(a)
      && Field(res.value, "ResearchOwnerId") == Str(r))
    ensures res.None? <==> forall i :: 0 <= i < |t| ==>
      !(Field(t[i], "id_article") == Str(a) && Field(t[i], "ResearchOwnerId") == Str(r))
  {
    GetWhere(t, ByArticleResearch(a, r))
  }

  /** The two fields `get_prediction_reasoning` returns. */
  datatype PredictionReasoning = PredictionReasoning(prediction: Value, reasoning: Value)

  /** `get_prediction_reasoning(a, r)`: `{prediction, reasoning}` of the
      (a, r) label, `None` when there is none. */
  function GetPredictionReasoning(t: Table, a: string, r: string): (res: Option<PredictionReasoning>)
    ensures res.None? <==> GetByArticleResearch(t, a, r).None?
    ensures res.Some? ==> (
      var row := GetByArticleResearch(t, a, r).value;
      res.value.prediction == Field(row, "prediction") && res.value.reasoning == Field(row, "reasoning"))
  {
    match GetByArticleResearch(t, a, r)
    case None => None
    case Some(row) => Some(PredictionReasoning(Field(row, "prediction"), Field(row, "reasoning")))
  }

  /** Because the article id is the whole key, a committed table holds at
      most one label per article: the (a, r) label is the article's only one. */
  lemma OneLabelPerArticle(t: Table, a: string, r: string)
    requires Admissible(t, Schema)
    requires GetByArticleResearch(t, a, r).Some?
    ensures GetId(t, a) == GetByArticleResearch(t, a, r)
    ensures forall i, j :: 0 <= i < j < |t| ==> !(Field(t[i], "id_article") == Str(a) && Field(t[j], "id_article") == Str(a))
  {
    forall i, j | 0 <= i < j < |t|
      ensures !(Field(t[i], "id_article") == Str(a) && Field(t[j], "id_article") == Str(a))
    {
      assert !SameKey(t[i], t[j], Schema.key);
    }
    var k := FirstWhere(t, ByArticleResearch(a, r)).value;
    var m := FirstWhere(t, ByArticle(a)).value;
    assert ByArticle(a)(t[k]);
    assert m <= k;
    assert m == k;
  }

  /** `update(a, dict_update)`: a missing article raises; otherwise only the
      known attributes of its label change. */
  function Update(t: Table, a: string, upd: map<string, Value>): (r: Outcome<Table>)
    ensures r.Raised? <==> GetId(t, a).None?
    ensures r.Raised? ==> r.msg == "Error updating AiLabeled"
    ensures r.Ok? ==> (
      var i := FirstWhere(t, ByArticle(a)).value;
      |r.value| == |t| && r.value[i] == SetKnown(t[i], upd)
      && forall j :: 0 <= j < |t| && j != i ==> r.value[j] == t[j])
  {
    UpdateWhere(t, ByArticle(a), upd, "Error updating AiLabeled")
  }

  /** `delete(a)`: a missing article raises; otherwise only its label is removed. */
  function Delete(t: Table, a: string): (r: Outcome<Table>)
    ensures r.Raised? <==> GetId(t, a).None?
    ensures r.Raised? ==> r.msg == "Error deleting AiLabeled"
    ensures r.Ok? ==> |r.value| == |t| - 1
    ensures r.Ok? ==> multiset(r.value) + multiset{GetId(t, a).value} == multiset(t)
  {
    if GetId(t, a).Some? then
      DeleteKeepsOthers(t, ByArticle(a), "Error deleting AiLabeled"); DeleteWhere(t, ByArticle(a), "Error deleting AiLabeled")
    else DeleteWhere(t, ByArticle(a), "Error deleting AiLabeled")
  }

  /** One item of `get_by_research`. */
  datatype LabelView = LabelView(
    idArticle: Value, prediction: Value, reasoning: Value, tokensInput: Value, tokensOutput: Value,
    tokensTotal: Value, flagComplete: Value, createAt: Value, updateAt: Value)

  function View(row: Row): LabelView {
    LabelView(Field(row, "id_article"), Field(row, "prediction"), Field(row, "reasoning"),
      Field(row, "tokens_input"), Field(row, "tokens_output"), Field(row, "tokens_total"),
      Field(row, "flag_complete"), Field(row, "create_at"), Field(row, "update_at"))
  }

  /** `get_by_research(r)`: one item per label of research `r`, in table order. */
  function GetByResearch(t: Table, r: string): (vs: seq<LabelView>)
    ensures |vs| == |AllWhere(t, OwnedBy(r))|
    ensures forall i :: 0 <= i < |vs| ==> vs[i] == View(AllWhere(t, OwnedBy(r))[i])
    ensures vs == [] <==> !ExistsWhere(t, OwnedBy(r))
  {
    var rows := AllWhere(t, OwnedBy(r));
    AllWhereEmptyIff(t, OwnedBy(r));
    seq(|rows|, i requires 0 <= i < |rows| => View(rows[i]))
  }
}
