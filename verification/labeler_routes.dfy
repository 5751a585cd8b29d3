/** The labelling endpoints: classify one article with the chat model, a
    per-research summary, and reprocessing of stored labels. The prompt
    template and the chat model are parameters. */
module LabelerRoutes {
  import opened Base
  import opened Values
  import opened Strings
  import opened Records
  import opened Store
  import opened LlmClassify
  import Users = UsersModel
  import Research = ResearchModel
  import Articles = ArticlesModel
  import Labels = AiLabeledModel

  const ResearchNotFound: string := "Investigación no encontrada."
  const ResearchInactive: string := "La investigación está inactiva."
  const QuotaReached: string := "Límite de cuota alcanzado para el servicio de LLM"
  const LabelFailed: string := "Error al etiquetar artículo"

  /** The values `base_prompt.format(**_input)` fills in. */
  datatype PromptInput = PromptInput(
    reviewType: Value, studyTopic: Value, inclusionCriteria: string, title: Value, abstractText: Value)

  /** `"\n-".join(criteria.split('|&|'))`. */
  function PromptCriteria(stored: string): string {
    Join(Split(stored, Research.CriteriaSep), "\n-")
  }

  /** Criteria stored by joining a list appear in the prompt as that list
      joined with `"\n-"`, when no criterion runs into the separator. */
  lemma PromptCriteriaOfJoined(cs: seq<string>)
    requires |cs| >= 1
    requires forall i :: 0 <= i < |cs| ==> SeparableBy(cs[i], Research.CriteriaSep)
    ensures PromptCriteria(Join(cs, Research.CriteriaSep)) == Join(cs, "\n-")
  {
    SplitJoin(cs, Research.CriteriaSep);
  }

  /** Python's type name, as it appears in an `AttributeError` message. */
  function TypeName(v: Value): string {
    match v
    case Null => "NoneType"
    case Bool(_) => "bool"
    case Int(_) => "int"
    case Real(_) => "float"
    case Str(_) => "str"
    case Time(_) => "datetime"
  }

  /** The message of calling `.split` on a value that is not a string. */
  function NoSplit(v: Value): string {
    "'" + TypeName(v) + "' object has no attribute 'split'"
  }

  /** The handler's `except`: 429 when the lower-cased error text mentions
      "quota", 500 otherwise. */
  function ErrorReply(text: string): (r: Response<Json>)
    ensures r.Failure?
    ensures r.status == 429 <==> Contains(LowerAscii(text), "quota")
    ensures r.status == 429 ==> r.detail == QuotaReached
    ensures r.status != 429 ==> r == Failure(500, LabelFailed)
  {
    if Contains(LowerAscii(text), "quota") then Failure(429, QuotaReached) else Failure(500, LabelFailed)
  }

  /** The text of the 404 raised inside the `try` for a missing article. */
  function MissingArticle(articleId: string): string {
    ExceptionText(404, "Artículo con ID " + articleId + " no encontrado.")
  }

  /** The label row `dict_new` describes. */
  function NewLabel(article: Row, research: Row, prompt: string, c: Classification, now: int): map<string, Value> {
    map["id_article" := Field(article, "id"), "prompt_input" := Str(prompt),
        "prediction" := c.prediction, "reasoning" := c.reasoning,
        "ResearchOwnerId" := Field(research, "id"), "tokens_input" := c.inputTokens,
        "tokens_output" := c.outputTokens, "tokens_total" := c.totalTokens,
        "flag_complete" := Bool(Complete(c.prediction)), "create_at" := Time(now), "update_at" := Time(now)]
  }

  /** `AiLabeled.add(dict_new)`: the new label is appended, names its
      article and research, and carries a completion flag that agrees with
      its prediction. */
  function AddLabel(t: Table, article: Row, research: Row, prompt: string, c: Classification, now: int): (r: Outcome<Table>)
    ensures r.Ok?
    ensures |r.value| == |t| + 1 && r.value[..|t|] == t
    ensures Field(r.value[|t|], "id_article") == Field(article, "id")
    ensures Field(r.value[|t|], "ResearchOwnerId") == Field(research, "id")
    ensures Field(r.value[|t|], "prompt_input") == Str(prompt)
    ensures Field(r.value[|t|], "flag_complete") == Bool(Complete(Field(r.value[|t|], "prediction")))
  {
    var d := NewLabel(article, research, prompt, c, now);
    NewLabelFields(article, research, prompt, c, now);
    Labels.Add(t, d, now)
  }

  /** The fields of `dict_new`, all of them columns of the label table. */
  lemma NewLabelFields(article: Row, research: Row, prompt: string, c: Classification, now: int)
    ensures var d := NewLabel(article, research, prompt, c, now);
      (forall k :: k in d ==> k in Labels.Schema.columns)
      && "id_article" in d && d["id_article"] == Field(article, "id")
      && "ResearchOwnerId" in d && d["ResearchOwnerId"] == Field(research, "id")
      && "prompt_input" in d && d["prompt_input"] == Str(prompt)
      && "prediction" in d && "flag_complete" in d && d["flag_complete"] == Bool(Complete(d["prediction"]))
  {
  }

  /** The prompt for an article under a research whose criteria are `stored`. */
  function Prompt(research: Row, article: Row, stored: string, format: PromptInput -> string): string {
    format(PromptInput(Field(research, "type_research"), Field(research, "title"), PromptCriteria(stored),
      Field(article, "title"), Field(article, "abstract")))
  }

  /** The `try` block of `/process`: the store it commits, or the text of
      the exception it raises. */
  function LabelAttempt(s: Store, research: Row, researchId: string, articleId: string,
                        format: PromptInput -> string, llm: string -> LlmReply, now: int): (r: Outcome<Store>)
    requires Field(research, "id") == Str(researchId)
    ensures r.Ok? ==> Consistent(r.value) && r.value == s.(labels := r.value.labels)
    ensures Articles.GetId(s.articles, articleId).None? ==> r == Raised(MissingArticle(articleId))
    ensures (Articles.GetId(s.articles, articleId).Some?
      && Labels.GetPredictionReasoning(s.labels, articleId, researchId).Some?) ==> r == CommitStore(s)
    ensures (Articles.GetId(s.articles, articleId).Some?
      && Labels.GetPredictionReasoning(s.labels, articleId, researchId).None? && r.Ok?) ==> (
      |r.value.labels| == |s.labels| + 1 && r.value.labels[..|s.labels|] == s.labels
      && Field(research, "criteria_inclusion").Str?
      && var row := r.value.labels[|s.labels|];
      Field(row, "id_article") == Str(articleId) && Field(row, "ResearchOwnerId") == Str(researchId)
      && Field(row, "flag_complete") == Bool(Complete(Field(row, "prediction"))))
  {
    match Articles.GetId(s.articles, articleId)
    case None => Raised(MissingArticle(articleId))
    case Some(article) =>
      if Labels.GetPredictionReasoning(s.labels, articleId, researchId).Some? then CommitStore(s)
      else
        match Field(research, "criteria_inclusion")
        case Str(stored) =>
          var prompt := Prompt(research, article, stored, format);
          (match AddLabel(s.labels, article, research, prompt, Classify(llm(prompt)), now)
           case Raised(m) => Raised(m)
           case Ok(t) => CommitStore(s.(labels := t)))
        case v => Raised(NoSplit(v))
  }

  /** `POST /process` (and `/process-async`, which differs only in awaiting
      the model). */
  function Label(s: Store, username: string, researchId: string, articleId: string,
                 format: PromptInput -> string, llm: string -> LlmReply, now: int): (r: Reply<Json>)
    ensures r.response.Failure? ==> r.store == s
    ensures Users.GetUsername(s.users, username).None? ==> r.response == Failure(500, InternalServerError)
    ensures (Users.GetUsername(s.users, username).Some? && !IsActive(Users.GetUsername(s.users, username).value)) ==>
      r.response == Failure(403, UserInactive)
    ensures (Users.GetUsername(s.users, username).Some? && IsActive(Users.GetUsername(s.users, username).value)) ==> (
      (Research.GetId(s.researches, researchId).None? ==> r.response == Failure(404, ResearchNotFound))
      && (Research.GetId(s.researches, researchId).Some? && !IsActive(Research.GetId(s.researches, researchId).value) ==>
            r.response == Failure(403, ResearchInactive)))
    ensures r.response.Success? ==> (
      Users.GetUsername(s.users, username).Some? && IsActive(Users.GetUsername(s.users, username).value)
      && Research.GetId(s.researches, researchId).Some? && IsActive(Research.GetId(s.researches, researchId).value)
      && Articles.GetId(s.articles, articleId).Some? && Consistent(r.store)
      && r.store == s.(labels := r.store.labels)
      && r.response.body == JObj(map["message" := JStr("Artículo " + articleId + " etiquetado con éxito")]))
    ensures (r.response.Success? && Labels.GetPredictionReasoning(s.labels, articleId, researchId).Some?) ==>
      r.store == s
  {
    match Users.GetUsername(s.users, username)
    case None => Reply(s, Failure(500, InternalServerError))
    case Some(user) =>
      if !IsActive(user) then Reply(s, Failure(403, UserInactive))
      else match Research.GetId(s.researches, researchId)
        case None => Reply(s, Failure(404, ResearchNotFound))
        case Some(research) =>
          if !IsActive(research) then Reply(s, Failure(403, ResearchInactive))
          else match LabelAttempt(s, research, researchId, articleId, format, llm, now)
            case Raised(text) => Reply(s, ErrorReply(text))
            case Ok(s') => Reply(s', Success(JObj(map["message" := JStr("Artículo " + articleId + " etiquetado con éxito")])))
  }

  /** A missing article surfaces as 404 text inside the handler's `try`, and
      the handler's `except` turns it into 500 (or 429 when the text
      mentions "quota"), never 404. */
  lemma MissingArticleNeverNotFound(s: Store, username: string, researchId: string, articleId: string,
                                    format: PromptInput -> string, llm: string -> LlmReply, now: int)
    requires Users.GetUsername(s.users, username).Some? && IsActive(Users.GetUsername(s.users, username).value)
    requires Research.GetId(s.researches, researchId).Some? && IsActive(Research.GetId(s.researches, researchId).value)
    requires Articles.GetId(s.articles, articleId).None?
    ensures Label(s, username, researchId, articleId, format, llm, now).response
      == ErrorReply(MissingArticle(articleId))
    ensures Label(s, username, researchId, articleId, format, llm, now).response.status in {429, 500}
  {
  }

  /** Labelling is idempotent: once an article is labelled for a research, a
      repeated request answers the same and adds nothing. */
  lemma LabelIdempotent(s: Store, username: string, researchId: string, articleId: string,
                        format: PromptInput -> string, llm: string -> LlmReply, now: int,
                        format': PromptInput -> string, llm': string -> LlmReply, later: int)
    requires Label(s, username, researchId, articleId, format, llm, now).response.Success?
    ensures var r := Label(s, username, researchId, articleId, format, llm, now);
      Label(r.store, username, researchId, articleId, format', llm', later) == r
  {
    var r := Label(s, username, researchId, articleId, format, llm, now);
    var s' := r.store;
    var research := Research.GetId(s.researches, researchId).value;
    assert Field(research, "id") == Str(researchId);
    assert s'.users == s.users && s'.researches == s.researches && s'.articles == s.articles;
    if Labels.GetPredictionReasoning(s.labels, articleId, researchId).None? {
      LabelAttemptAdds(s, research, researchId, articleId, format, llm, now);
    }
    assert Labels.GetPredictionReasoning(s'.labels, articleId, researchId).Some?;
    assert LabelAttempt(s', research, researchId, articleId, format', llm', later) == Ok(s');
  }

  /** A first successful labelling leaves a label for the pair. */
  lemma LabelAttemptAdds(s: Store, research: Row, researchId: string, articleId: string,
                         format: PromptInput -> string, llm: string -> LlmReply, now: int)
    requires Field(research, "id") == Str(researchId)
    requires Labels.GetPredictionReasoning(s.labels, articleId, researchId).None?
    requires LabelAttempt(s, research, researchId, articleId, format, llm, now).Ok?
    ensures Labels.GetPredictionReasoning(LabelAttempt(s, research, researchId, articleId, format, llm, now).value.labels,
                                          articleId, researchId).Some?
  {
    var t := LabelAttempt(s, research, researchId, articleId, format, llm, now).value.labels;
    var row := t[|s.labels|];
    assert Labels.ByArticleResearch(articleId, researchId)(row);
    assert row in t;
  }

  // ---------------------------------------------------------------------------
  // Summary
  // ---------------------------------------------------------------------------

  /** Items whose `flag_complete` is truthy. */
  function CountComplete(items: seq<Labels.LabelView>): (n: nat)
    ensures n <= |items|
  {
    if |items| == 0 then 0
    else (if Truthy(items[0].flagComplete) then 1 else 0) + CountComplete(items[1..])
  }

  /** Items whose `flag_complete` is falsy. */
  function CountIncomplete(items: seq<Labels.LabelView>): (n: nat)
    ensures n <= |items|
  {
    if |items| == 0 then 0
    else (if Truthy(items[0].flagComplete) then 0 else 1) + CountIncomplete(items[1..])
  }

  /** Every item is either complete or incomplete. */
  lemma {:induction false} CountPartition(items: seq<Labels.LabelView>)
    ensures CountComplete(items) + CountIncomplete(items) == |items|
  {
    if |items| > 0 {
      CountPartition(items[1..]);
    }
  }

  /** `i["tokens_total"] or 0` as a number: NULL (and any falsy value)
      counts 0, a boolean counts 0 or 1, and any other truthy value is not
      an integer count. */
  function TokenCount(v: Value): (n: Option<int>)
    ensures !Truthy(v) ==> n == Some(0)
    ensures v.Int? ==> n == Some(v.i)
    ensures n.None? <==> Truthy(v) && !v.Int? && !v.Bool?
  {
    match v
    case Int(i) => Some(i)
    case Bool(b) => Some(if b then 1 else 0)
    case Null => Some(0)
    case Str(s) => if s == "" then Some(0) else None
    case Real(r) => if r == 0.0 then Some(0) else None
    case Time(_) => None
  }

  /** `sum(i["tokens_total"] or 0 for i in items)`; `None` when a term is not a number. */
  function TokenSum(items: seq<Labels.LabelView>): (r: Option<int>)
    ensures r.Some? <==> forall i :: 0 <= i < |items| ==> TokenCount(items[i].tokensTotal).Some?
  {
    if |items| == 0 then Some(0)
    else match (TokenCount(items[0].tokensTotal), TokenSum(items[1..]))
      case (Some(a), Some(b)) => Some(a + b)
      case _ =>
        assert forall i :: 1 <= i < |items| ==> items[1..][i - 1] == items[i];
        None
  }

  /** Tokens of items with no recorded count add nothing to the sum. */
  lemma {:induction false} TokenSumSkipsNull(items: seq<Labels.LabelView>, item: Labels.LabelView)
    requires item.tokensTotal == Null
    ensures TokenSum([item] + items) == TokenSum(items)
  {
    assert ([item] + items)[1..] == items;
  }

  /** The body of `/summary`. */
  datatype SummaryBody = SummaryBody(
    totalItems: nat, completeTrue: nat, completeFalse: int, totalTokens: int, items: seq<Labels.LabelView>)

  /** `GET /summary`: counts over the research's labels, with no check that
      the research exists. */
  function Summary(s: Store, researchId: string): (r: Reply<SummaryBody>)
    ensures r.store == s
    ensures var items := Labels.GetByResearch(s.labels, researchId);
      (r.response.Success? <==> TokenSum(items).Some?)
      && (r.response.Failure? ==> r.response == Failure(500, InternalServerError))
      && (r.response.Success? ==> (
        var b := r.response.body;
        b.items == items && b.totalItems == |items|
        && b.completeTrue == CountComplete(items) && b.completeFalse == CountIncomplete(items)
        && b.completeTrue + b.completeFalse == b.totalItems
        && b.totalTokens == TokenSum(items).value))
  {
    var items := Labels.GetByResearch(s.labels, researchId);
    CountPartition(items);
    match TokenSum(items)
    case None => Reply(s, Failure(500, InternalServerError))
    case Some(tokens) =>
      var done := CountComplete(items);
      Reply(s, Success(SummaryBody(|items|, done, |items| - done, tokens, items)))
  }

  // ---------------------------------------------------------------------------
  // Reprocessing
  // ---------------------------------------------------------------------------

  /** The items of research `r` the method selects: `fails` keeps the
      incomplete ones, `all` keeps every one, anything else is rejected. */
  function Select(items: seq<Labels.LabelView>, methodName: string): (r: Option<seq<Labels.LabelView>>)
    ensures r.None? <==> methodName != "fails" && methodName != "all"
    ensures methodName == "all" ==> r == Some(items)
    ensures methodName == "fails" ==> (
      IsSubsequence(r.value, items)
      && (forall i :: 0 <= i < |r.value| ==> !Truthy(r.value[i].flagComplete))
      && |r.value| == CountIncomplete(items))
  {
    if methodName == "fails" then Some(Incomplete(items))
    else if methodName == "all" then Some(items)
    else None
  }

  /** `[i for i in items if not i["flag_complete"]]`. */
  function Incomplete(items: seq<Labels.LabelView>): (r: seq<Labels.LabelView>)
    ensures IsSubsequence(r, items)
    ensures forall i :: 0 <= i < |r| ==> !Truthy(r[i].flagComplete)
    ensures |r| == CountIncomplete(items)
    ensures forall i :: 0 <= i < |items| && !Truthy(items[i].flagComplete) ==> items[i] in r
  {
    if |items| == 0 then []
    else if Truthy(items[0].flagComplete) then
      var rest := Incomplete(items[1..]);
      assert forall i :: 1 <= i < |items| ==> items[1..][i - 1] == items[i];
      assert |rest| == 0 || IsSubsequence(rest, items[1..]);
      rest
    else
      var rest := Incomplete(items[1..]);
      assert forall i :: 1 <= i < |items| ==> items[1..][i - 1] == items[i];
      assert ([items[0]] + rest)[1..] == rest;
      [items[0]] + rest
  }

  /** The article ids of the items. */
  function IdsOf(items: seq<Labels.LabelView>): (ids: seq<Value>)
    ensures |ids| == |items|
    ensures forall i :: 0 <= i < |items| ==> ids[i] == items[i].idArticle
  {
    seq(|items|, i requires 0 <= i < |items| => items[i].idArticle)
  }

  /** The `dict_update` of one reprocessed label. */
  function Relabel(prompt: string, c: Classification, now: int): map<string, Value> {
    map["prompt_input" := Str(prompt), "prediction" := c.prediction, "reasoning" := c.reasoning,
        "tokens_input" := c.inputTokens, "tokens_output" := c.outputTokens, "tokens_total" := c.totalTokens,
        "flag_complete" := Bool(Complete(c.prediction)), "update_at" := Time(now)]
  }

  /** The `dict_update` the loop writes for the label of article `x`: the
      prompt built from the research and the article, classified afresh. */
  function UpdateFor(articles: Table, research: Row, stored: string, x: Value,
                     format: PromptInput -> string, llm: string -> LlmReply, now: int): (upd: map<string, Value>)
    requires ExistsWhere(articles, ColEq("id", x))
    ensures "id_article" !in upd
  {
    var article := GetWhere(articles, ColEq("id", x)).value;
    var prompt := Prompt(research, article, stored, format);
    Relabel(prompt, Classify(llm(prompt)), now)
  }

  /** What the update of article `x`'s label writes: the prompt built from
      the research and the article, the prediction, reasoning and the three
      token counts of its classification, `flag_complete` exactly when the
      prediction is not `no_classified`, and the update time, and nothing else. */
  lemma UpdateForWrites(articles: Table, research: Row, stored: string, x: Value,
                        format: PromptInput -> string, llm: string -> LlmReply, now: int)
    requires ExistsWhere(articles, ColEq("id", x))
    ensures var upd := UpdateFor(articles, research, stored, x, format, llm, now);
      var prompt := Prompt(research, GetWhere(articles, ColEq("id", x)).value, stored, format);
      var c := Classify(llm(prompt));
      upd.Keys == {"prompt_input", "prediction", "reasoning", "tokens_input", "tokens_output",
                   "tokens_total", "flag_complete", "update_at"}
      && upd["prompt_input"] == Str(prompt) && upd["prediction"] == c.prediction && upd["reasoning"] == c.reasoning
      && upd["tokens_input"] == c.inputTokens && upd["tokens_output"] == c.outputTokens
      && upd["tokens_total"] == c.totalTokens
      && (upd["flag_complete"] == Bool(true) <==> c.prediction != Str(NotClassified))
      && upd["update_at"] == Time(now)
  {
  }

  /** `after` holds the same articles' labels, row for row, as `before`. */
  predicate SameArticles(after: Table, before: Table) {
    |after| == |before| && forall j :: 0 <= j < |before| ==> Field(after[j], "id_article") == Field(before[j], "id_article")
  }

  /** Every label of `before` whose article is not among `ids` is in `after` as it was. */
  predicate KeptOutside(before: Table, after: Table, ids: seq<Value>) {
    |after| == |before| && forall j :: 0 <= j < |before| && Field(before[j], "id_article") !in ids ==> after[j] == before[j]
  }

  /** The first label of article `x` in `before` is in `after` updated with `upd`. */
  predicate UpdatedLabel(before: Table, after: Table, x: Value, upd: map<string, Value>) {
    FirstWhere(before, ColEq("id_article", x)).Some? && |after| == |before|
    && after[FirstWhere(before, ColEq("id_article", x)).value]
       == SetKnown(before[FirstWhere(before, ColEq("id_article", x)).value], upd)
  }

  /** One pass of the loop for the item of article `x`: `Ok(None)` when the
      article is gone or the update raises (the item is skipped), `Ok(Some(t))`
      when its label was updated into `t`, and the split's error when the
      research's criteria are not a string. */
  function ReprocessOne(labels: Table, articles: Table, research: Row, x: Value,
                        format: PromptInput -> string, llm: string -> LlmReply, now: int): (r: Outcome<Option<Table>>)
    ensures r.Raised? <==> ExistsWhere(articles, ColEq("id", x)) && !Field(research, "criteria_inclusion").Str?
    ensures !ExistsWhere(articles, ColEq("id", x)) ==> r == Ok(None)
    ensures r.Ok? && r.value.Some? ==> SameArticles(r.value.value, labels) && KeptOutside(labels, r.value.value, [x])
  {
    match GetWhere(articles, ColEq("id", x))
    case None => Ok(None)
    case Some(_) =>
      match Field(research, "criteria_inclusion")
      case Str(stored) =>
        var upd := UpdateFor(articles, research, stored, x, format, llm, now);
        (match UpdateWhere(labels, ColEq("id_article", x), upd, "Error updating AiLabeled")
         case Raised(_) => Ok(None)
         case Ok(t) => UpdateKeepsArticleIds(labels, x, upd, t); Ok(Some(t)))
      case v => Raised(NoSplit(v))
  }

  /** Updating the first label of article `x` with a `dict_update` that has
      no `id_article` changes that label only, and keeps every label's article. */
  lemma UpdateKeepsArticleIds(labels: Table, x: Value, upd: map<string, Value>, t: Table)
    requires "id_article" !in upd
    requires UpdateWhere(labels, ColEq("id_article", x), upd, "Error updating AiLabeled") == Ok(t)
    ensures UpdatedLabel(labels, t, x, upd)
    ensures SameArticles(t, labels) && KeptOutside(labels, t, [x])
  {
  }

  /** A pass that updated the label of article `x` into `t` found the
      article, read string criteria and applied the article's fresh
      `dict_update` to its first label. */
  lemma ReprocessOneUpdates(labels: Table, articles: Table, research: Row, x: Value,
                            format: PromptInput -> string, llm: string -> LlmReply, now: int, t: Table)
    requires ReprocessOne(labels, articles, research, x, format, llm, now) == Ok(Some(t))
    ensures Field(research, "criteria_inclusion").Str? && ExistsWhere(articles, ColEq("id", x))
    ensures UpdateWhere(labels, ColEq("id_article", x),
                        UpdateFor(articles, research, Field(research, "criteria_inclusion").s, x, format, llm, now),
                        "Error updating AiLabeled") == Ok(t)
  {
    assert GetWhere(articles, ColEq("id", x)).Some?;
  }

  /** The `for item in items` loop: each item whose article exists is
      classified again and its label updated; items whose article is gone,
      or whose update raises, are skipped. A research whose criteria are not
      a string makes the loop raise at the first item that reaches the prompt. */
  function ReprocessItems(labels: Table, articles: Table, research: Row, items: seq<Labels.LabelView>,
                          format: PromptInput -> string, llm: string -> LlmReply, now: int)
    : (r: Outcome<(Table, seq<Value>)>)
    ensures r.Ok? ==> IsSubsequence(r.value.1, IdsOf(items)) && |r.value.1| <= |items|
    ensures r.Ok? ==> |r.value.0| == |labels|
    ensures r.Ok? ==> forall i :: 0 <= i < |r.value.1| ==> ExistsWhere(articles, ColEq("id", r.value.1[i]))
    ensures Field(research, "criteria_inclusion").Str? ==> r.Ok?
    decreases |items|
  {
    if |items| == 0 then Ok((labels, []))
    else
      var x := items[0].idArticle;
      assert IdsOf(items)[1..] == IdsOf(items[1..]);
      match ReprocessOne(labels, articles, research, x, format, llm, now)
      case Raised(m) => Raised(m)
      case Ok(None) => ReprocessItems(labels, articles, research, items[1..], format, llm, now)
      case Ok(Some(t)) =>
        match ReprocessItems(t, articles, research, items[1..], format, llm, now)
        case Raised(m) => Raised(m)
        case Ok((t', ids)) =>
          assert ([x] + ids)[1..] == ids;
          Ok((t', [x] + ids))
  }

  /** A label whose article is not among the reprocessed ids is left as it
      was, and no label changes article. */
  lemma {:induction false} ReprocessLeavesOthers(labels: Table, articles: Table, research: Row,
                                                 items: seq<Labels.LabelView>,
                                                 format: PromptInput -> string, llm: string -> LlmReply, now: int)
    requires ReprocessItems(labels, articles, research, items, format, llm, now).Ok?
    ensures var r := ReprocessItems(labels, articles, research, items, format, llm, now).value;
      SameArticles(r.0, labels) && KeptOutside(labels, r.0, r.1)
    decreases |items|
  {
    if |items| > 0 {
      var x := items[0].idArticle;
      match ReprocessOne(labels, articles, research, x, format, llm, now)
      case Ok(None) =>
        ReprocessLeavesOthers(labels, articles, research, items[1..], format, llm, now);
      case Ok(Some(t)) =>
        ReprocessLeavesOthers(t, articles, research, items[1..], format, llm, now);
        var rest := ReprocessItems(t, articles, research, items[1..], format, llm, now).value;
        assert ReprocessItems(labels, articles, research, items, format, llm, now).value == (rest.0, [x] + rest.1);
        KeptOutsideThen(labels, t, rest.0, x, rest.1);
    }
  }

  /** Keeping the labels outside `[x]` and then those outside `ids` keeps
      the labels outside `[x] + ids`, when the first step moved no label to
      another article. */
  lemma KeptOutsideThen(labels: Table, t: Table, final: Table, x: Value, ids: seq<Value>)
    requires SameArticles(t, labels) && KeptOutside(labels, t, [x])
    requires SameArticles(final, t) && KeptOutside(t, final, ids)
    ensures SameArticles(final, labels) && KeptOutside(labels, final, [x] + ids)
  {
  }

  /** Every reprocessed article's label is the stored label updated with the
      fresh classification of that article's prompt: its prediction,
      reasoning, token counts and prompt, `flag_complete` set exactly when the
      prediction is not `no_classified`, and the update time. */
  lemma {:induction false} ReprocessWritesFreshLabels(labels: Table, articles: Table, research: Row,
                                                      items: seq<Labels.LabelView>,
                                                      format: PromptInput -> string, llm: string -> LlmReply, now: int)
    requires ReprocessItems(labels, articles, research, items, format, llm, now).Ok?
    ensures var r := ReprocessItems(labels, articles, research, items, format, llm, now).value;
      forall x :: x in r.1 ==>
        Field(research, "criteria_inclusion").Str? && ExistsWhere(articles, ColEq("id", x))
        && UpdatedLabel(labels, r.0, x, UpdateFor(articles, research, Field(research, "criteria_inclusion").s, x, format, llm, now))
    decreases |items|
  {
    if |items| > 0 {
      var x := items[0].idArticle;
      match ReprocessOne(labels, articles, research, x, format, llm, now)
      case Ok(None) =>
        ReprocessWritesFreshLabels(labels, articles, research, items[1..], format, llm, now);
      case Ok(Some(t)) =>
        ReprocessWritesFreshLabels(t, articles, research, items[1..], format, llm, now);
        ReprocessLeavesOthers(t, articles, research, items[1..], format, llm, now);
        WritesFreshStep(labels, articles, research, items, format, llm, now, t);
    }
  }

  /** The step of `ReprocessWritesFreshLabels` where the first item's label
      was updated into `t`, given the property for the rest of the items. */
  lemma WritesFreshStep(labels: Table, articles: Table, research: Row, items: seq<Labels.LabelView>,
                        format: PromptInput -> string, llm: string -> LlmReply, now: int, t: Table)
    requires |items| > 0
    requires ReprocessOne(labels, articles, research, items[0].idArticle, format, llm, now) == Ok(Some(t))
    requires ReprocessItems(t, articles, research, items[1..], format, llm, now).Ok?
    requires var r := ReprocessItems(t, articles, research, items[1..], format, llm, now).value;
      SameArticles(r.0, t) && KeptOutside(t, r.0, r.1)
    requires var r := ReprocessItems(t, articles, research, items[1..], format, llm, now).value;
      forall x :: x in r.1 ==>
        Field(research, "criteria_inclusion").Str? && ExistsWhere(articles, ColEq("id", x))
        && UpdatedLabel(t, r.0, x, UpdateFor(articles, research, Field(research, "criteria_inclusion").s, x, format, llm, now))
    ensures var r := ReprocessItems(labels, articles, research, items, format, llm, now).value;
      forall x :: x in r.1 ==>
        Field(research, "criteria_inclusion").Str? && ExistsWhere(articles, ColEq("id", x))
        && UpdatedLabel(labels, r.0, x, UpdateFor(articles, research, Field(research, "criteria_inclusion").s, x, format, llm, now))
  {
    var x0 := items[0].idArticle;
    ReprocessOneUpdates(labels, articles, research, x0, format, llm, now, t);
    var stored := Field(research, "criteria_inclusion").s;
    var u0 := UpdateFor(articles, research, stored, x0, format, llm, now);
    UpdateKeepsArticleIds(labels, x0, u0, t);
    var rest := ReprocessItems(t, articles, research, items[1..], format, llm, now).value;
    assert ReprocessItems(labels, articles, research, items, format, llm, now).value == (rest.0, [x0] + rest.1);
    forall x | x in [x0] + rest.1
      ensures UpdatedLabel(labels, rest.0, x, UpdateFor(articles, research, stored, x, format, llm, now))
    {
      UpdatedThenKept(labels, t, rest.0, x0, u0, x, UpdateFor(articles, research, stored, x, format, llm, now), rest.1);
    }
  }

  /** Label `x`'s row across one update of the first label of `x0` (into
      `t`) and the rest of the loop (into `final`, which updated the labels
      of `ids`): either the rest applied `ux` to it, or `x` is `x0` and the
      rest left it alone. Either way the final row is the original one with
      `ux` applied, as applying the same update twice is applying it once. */
  lemma UpdatedThenKept(labels: Table, t: Table, final: Table, x0: Value, u0: map<string, Value>,
                        x: Value, ux: map<string, Value>, ids: seq<Value>)
    requires UpdatedLabel(labels, t, x0, u0) && SameArticles(t, labels) && KeptOutside(labels, t, [x0])
    requires KeptOutside(t, final, ids)
    requires x in [x0] + ids
    requires x == x0 ==> ux == u0
    requires x in ids ==> UpdatedLabel(t, final, x, ux)
    ensures UpdatedLabel(labels, final, x, ux)
  {
    var i0 := FirstWhere(labels, ColEq("id_article", x0)).value;
    if x in ids {
      FirstFromSameColumn(labels, t, "id_article", x, 0);
      var i := FirstWhere(labels, ColEq("id_article", x)).value;
      if i == i0 {
        assert x == x0;
        SetKnownTwice(labels[i0], u0);
      }
    } else {
      assert x == x0 && Field(t[i0], "id_article") == x0;
    }
  }

  /** The body of `/reprocess`. */
  datatype ReprocessBody = ReprocessBody(message: string, reprocessedIds: seq<Value>)

  /** `POST /reprocess`. No user is checked; exceptions outside the per-item
      `try` are not caught. */
  function Reprocess(s: Store, researchId: string, methodName: string,
                     format: PromptInput -> string, llm: string -> LlmReply, now: int): (r: Reply<ReprocessBody>)
    ensures r.response.Failure? ==> r.store == s
    ensures Research.GetId(s.researches, researchId).None? ==> r.response == Failure(404, ResearchNotFound)
    ensures (Research.GetId(s.researches, researchId).Some? && !IsActive(Research.GetId(s.researches, researchId).value)) ==>
      r.response == Failure(403, ResearchInactive)
    ensures (Research.GetId(s.researches, researchId).Some? && IsActive(Research.GetId(s.researches, researchId).value)
      && methodName != "fails" && methodName != "all") ==>
      r.response == Failure(400, "Método inválido. Use 'all' o 'fails'.")
    ensures r.response.Success? ==> (
      var selected := Select(Labels.GetByResearch(s.labels, researchId), methodName).value;
      var ids := r.response.body.reprocessedIds;
      IsSubsequence(ids, IdsOf(selected)) && |ids| <= |selected|
      && r.response.body.message == "Reprocesados " + NatToString(|ids|) + " artículos."
      && Consistent(r.store) && r.store == s.(labels := r.store.labels))
  {
    match Research.GetId(s.researches, researchId)
    case None => Reply(s, Failure(404, ResearchNotFound))
    case Some(research) =>
      if !IsActive(research) then Reply(s, Failure(403, ResearchInactive))
      else match Select(Labels.GetByResearch(s.labels, researchId), methodName)
        case None => Reply(s, Failure(400, "Método inválido. Use 'all' o 'fails'."))
        case Some(selected) =>
          match ReprocessItems(s.labels, s.articles, research, selected, format, llm, now)
          case Raised(_) => Reply(s, Failure(500, InternalServerError))
          case Ok((t, ids)) =>
            match CommitStore(s.(labels := t))
            case Raised(_) => Reply(s, Failure(500, InternalServerError))
            case Ok(s') => Reply(s', Success(ReprocessBody("Reprocesados " + NatToString(|ids|) + " artículos.", ids)))
  }
  /** A successful `/reprocess` rewrote, for every reprocessed article, its
      first label with the fresh classification of its prompt, and left
      every label of an article not reprocessed as it was. */
  lemma ReprocessWrites(s: Store, researchId: string, methodName: string,
                        format: PromptInput -> string, llm: string -> LlmReply, now: int)
    requires Reprocess(s, researchId, methodName, format, llm, now).response.Success?
    ensures Research.GetId(s.researches, researchId).Some?
    ensures var r := Reprocess(s, researchId, methodName, format, llm, now);
      SameArticles(r.store.labels, s.labels) && KeptOutside(s.labels, r.store.labels, r.response.body.reprocessedIds)
    ensures var r := Reprocess(s, researchId, methodName, format, llm, now);
      var research := Research.GetId(s.researches, researchId).value;
      forall x :: x in r.response.body.reprocessedIds ==>
        Field(research, "criteria_inclusion").Str? && ExistsWhere(s.articles, ColEq("id", x))
        && UpdatedLabel(s.labels, r.store.labels, x,
                        UpdateFor(s.articles, research, Field(research, "criteria_inclusion").s, x, format, llm, now))
  {
    var research := Research.GetId(s.researches, researchId).value;
    var selected := Select(Labels.GetByResearch(s.labels, researchId), methodName).value;
    ReprocessLeavesOthers(s.labels, s.articles, research, selected, format, llm, now);
    ReprocessWritesFreshLabels(s.labels, s.articles, research, selected, format, llm, now);
  }

}
