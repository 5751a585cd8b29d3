/** The `MlClassifier` class: a trained model's prediction for one article,
    keyed by the pair (article, model). */
module MlClassifierModel {
  import opened Base
  import opened Values
  import opened Records
  import ArticlesModel

  const Schema: Records.Schema := Records.Schema(
    "MlClassifier",
    {"id_article", "ModelOwnerId", "prediction", "probability_excluded", "probability_included",
     "flag_complete", "create_at", "update_at"},
    ["id_article", "ModelOwnerId"],
    {},
    {"id_article", "ModelOwnerId"},
    map["flag_complete" := Bool(false)],
    {"create_at", "update_at"})

  function ByArticle(a: string): Row -> bool {
    ColEq("id_article", Str(a))
  }

  function ByArticleAndModel(a: string, m: string): Row -> bool {
    ColsEq("id_article", Str(a), "ModelOwnerId", Str(m))
  }

  function ByModel(m: string): Row -> bool {
    ColEq("ModelOwnerId", Str(m))
  }

  /** `add(dict_new)`. */
  function Add(t: Table, dict: map<string, Value>, now: int): (r: Outcome<Table>)
    ensures r.Raised? <==> exists k :: k in dict && k !in Schema.columns
    ensures r.Raised? ==> r.msg == "Error adding MlClassifier"
    ensures r.Ok? ==> |r.value| == |t| + 1 && r.value[..|t|] == t
    ensures r.Ok? ==> r.value[|t|].Keys == Schema.columns
    ensures r.Ok? ==> forall k :: k in dict ==> k in r.value[|t|] && r.value[|t|][k] == dict[k]
  {
    Insert(t, Schema, dict, now)
  }

  /** `get_by_article_and_model(a, m)`: the prediction stored under the full key. */
  function GetByArticleAndModel(t: Table, a: string, m: string): (r: Option<Row>)
    ensures r.Some? ==> (
      r.value in t && Field(r.value, "id_article") == Str(a) && Field(r.value, "ModelOwnerId") == Str(m))
    ensures r.None? <==> forall i :: 0 <= i < |t| ==>
      !(Field(t[i], "id_article") == Str(a) && Field(t[i], "ModelOwnerId") == Str(m))
  {
    GetWhere(t, ByArticleAndModel(a, m))
  }

  /** `get_by_article(a)` (and `get_id(a)`, the same query): the first
      prediction for article `a`, under whichever model. */
  function GetByArticle(t: Table, a: string): (r: Option<Row>)
    ensures r.Some? ==> r.value in t && Field(r.value, "id_article") == Str(a)
    ensures r.None? <==> forall i :: 0 <= i < |t| ==> Field(t[i], "id_article") != Str(a)
  {
    GetWhere(t, ByArticle(a))
  }

  /** `update(a, dict_update)`: matches on the article only, so the first
      prediction for `a` changes whichever model made it. */
  function Update(t: Table, a: string, upd: map<string, Value>): (r: Outcome<Table>)
    ensures r.Raised? <==> GetByArticle(t, a).None?
    ensures r.Raised? ==> r.msg == "Error updating MlClassifier"
    ensures r.Ok? ==> (
      var i := FirstWhere(t, ByArticle(a)).value;
      |r.value| == |t| && r.value[i] == SetKnown(t[i], upd)
      && forall j :: 0 <= j < |t| && j != i ==> r.value[j] == t[j])
  {
    UpdateWhere(t, ByArticle(a), upd, "Error updating MlClassifier")
  }

  /** `delete(a)`: matches on the article only; removes the first prediction for `a`. */
  function Delete(t: Table, a: string): (r: Outcome<Table>)
    ensures r.Raised? <==> GetByArticle(t, a).None?
    ensures r.Raised? ==> r.msg == "Error deleting MlClassifier"
    ensures r.Ok? ==> |r.value| == |t| - 1
    ensures r.Ok? ==> multiset(r.value) + multiset{GetByArticle(t, a).value} == multiset(t)
  {
    if GetByArticle(t, a).Some? then
      DeleteKeepsOthers(t, ByArticle(a), "Error deleting MlClassifier"); DeleteWhere(t, ByArticle(a), "Error deleting MlClassifier")
    else DeleteWhere(t, ByArticle(a), "Error deleting MlClassifier")
  }

  /** Two models' predictions for one article are both admissible, and the
      article-only look-up sees only the first of them. */
  lemma ArticleOnlyLookupSeesFirstModel(a: string, m1: string, m2: string, p1: Row, p2: Row)
    requires m1 != m2
    requires p1 == map["id_article" := Str(a), "ModelOwnerId" := Str(m1)]
    requires p2 == map["id_article" := Str(a), "ModelOwnerId" := Str(m2)]
    ensures Admissible([p1, p2], Schema)
    ensures GetByArticle([p1, p2], a) == Some(p1)
    ensures GetByArticleAndModel([p1, p2], a, m2) == Some(p2)
    ensures Delete([p1, p2], a) == Ok([p2])
  {
    var t := [p1, p2];
    assert Field(p1, "ModelOwnerId") != Field(p2, "ModelOwnerId");
    assert !SameKey(t[0], t[1], Schema.key) by {
      assert Field(t[0], Schema.key[1]) != Field(t[1], Schema.key[1]);
    }
    assert FirstWhere(t, ByArticle(a)) == Some(0);
    assert !ByArticleAndModel(a, m2)(t[0]);
    assert FirstWhere(t, ByArticleAndModel(a, m2)) == Some(1);
    assert t[..0] + t[1..] == [p2];
  }

  /** The three fields `get_prediction` returns. */
  datatype PredictionView = PredictionView(prediction: Value, probabilityExcluded: Value, probabilityIncluded: Value)

  /** `get_prediction(a)`: `None` when article `a` has no prediction, else
      the fields of its first prediction. */
  function GetPrediction(t: Table, a: string): (r: Option<PredictionView>)
    ensures r.None? <==> GetByArticle(t, a).None?
    ensures r.Some? ==> (
      var row := GetByArticle(t, a).value;
      r.value == PredictionView(Field(row, "prediction"), Field(row, "probability_excluded"),
        Field(row, "probability_included")))
  {
    match GetByArticle(t, a)
    case None => None
    case Some(row) => Some(PredictionView(Field(row, "prediction"), Field(row, "probability_excluded"),
      Field(row, "probability_included")))
  }

  /** The number a probability cell holds, when it holds one. */
  function Numeric(v: Value): Option<real> {
    match v
    case Int(i) => Some(i as real)
    case Real(r) => Some(r)
    case _ => None
  }

  /** Python's `max(a, b)` over two probabilities: `b` only when it is strictly greater. */
  function MaxOf(a: Value, b: Value): (m: Value)
    ensures m == a || m == b
    ensures Numeric(a).Some? && Numeric(b).Some? ==> Numeric(m).value >= Numeric(a).value && Numeric(m).value >= Numeric(b).value
  {
    if Numeric(a).Some? && Numeric(b).Some? && Numeric(b).value > Numeric(a).value then b else a
  }

  /** The `confidence` of `get_all_by_model`: the larger probability when both
      are truthy (a 0.0 or NULL probability gives NULL). */
  function Confidence(pExcluded: Value, pIncluded: Value): (c: Value)
    ensures c == Null <==> !(Truthy(pExcluded) && Truthy(pIncluded))
    ensures c != Null ==> c == pExcluded || c == pIncluded
  {
    if Truthy(pExcluded) && Truthy(pIncluded) then MaxOf(pExcluded, pIncluded) else Null
  }

  /** One item of `get_all_by_model`. */
  datatype ModelPrediction = ModelPrediction(
    idArticle: Value, abstractText: Value, prediction: Value, probabilityExcluded: Value,
    probabilityIncluded: Value, confidence: Value, flagComplete: Value, createdAt: Value,
    updatedAt: Value, modelId: Value)

  /** The abstract of the prediction's article, `""` when the article is missing. */
  function AbstractOf(articles: Table, a: Value): (v: Value)
    ensures a.Str? && ArticlesModel.GetId(articles, a.s).Some? ==> v == Field(ArticlesModel.GetId(articles, a.s).value, "abstract")
    ensures !(a.Str? && ArticlesModel.GetId(articles, a.s).Some?) ==> v == Str("")
  {
    if a.Str? then
      match ArticlesModel.GetId(articles, a.s)
      case Some(article) => Field(article, "abstract")
      case None => Str("")
    else Str("")
  }

  function ItemOf(articles: Table, row: Row): ModelPrediction {
    var pe := Field(row, "probability_excluded");
    var pi := Field(row, "probability_included");
    ModelPrediction(Field(row, "id_article"), AbstractOf(articles, Field(row, "id_article")),
      Field(row, "prediction"), pe, pi, Confidence(pe, pi), Field(row, "flag_complete"),
      Field(row, "create_at"), Field(row, "update_at"), Field(row, "ModelOwnerId"))
  }

  /** `get_all_by_model(m)`: one item per prediction of model `m`, in table
      order, joined with its article's abstract. */
  function GetAllByModel(t: Table, articles: Table, m: string): (items: seq<ModelPrediction>)
    ensures |items| == |AllWhere(t, ByModel(m))|
    ensures forall i :: 0 <= i < |items| ==> items[i].modelId == Str(m)
    ensures forall i :: 0 <= i < |items| ==> items[i] == ItemOf(articles, AllWhere(t, ByModel(m))[i])
    ensures items == [] <==> !ExistsWhere(t, ByModel(m))
  {
    var rows := AllWhere(t, ByModel(m));
    AllWhereEmptyIff(t, ByModel(m));
    assert forall i :: 0 <= i < |rows| ==> rows[i] in rows;
    seq(|rows|, i requires 0 <= i < |rows| => ItemOf(articles, rows[i]))
  }
}
