/** The semantic-retriever handlers (`/create`, `/query`, `/delete`,
    `/delete-articles`): the access checks, the wrapping of every inner error
    into a 400, the documents built from articles and the batches of 100 in
    which they are sent to the vector store. The vector store itself is not
    modelled: whether it opens, and what it answers, are parameters. */
module RetrieverRoutes {
  import opened Base
  import opened Values
  import opened Strings
  import opened Records
  import opened Store
  import Users = UsersModel
  import Research = ResearchModel
  import Datasets = DatasetsModel

  const ResearchNotFound: string := "Investigación no encontrada."
  const ResearchInactive: string := "La investigación está inactiva."
  const NoDatasets: string := "No hay datasets asociados a la investigación."

  /** `str(e)` of the `AttributeError` raised by `user.is_active` when the
      user does not exist. */
  const NoneIsActive: string := "'NoneType' object has no attribute 'is_active'"

  /** `str(e)` of the `AttributeError` raised by `Articles.get_all_by_dataset`,
      a method the `Articles` class does not define. */
  const NoArticlesLookup: string := "type object 'Articles' has no attribute 'get_all_by_dataset'"

  const CreatePrefix: string := "Error creating retriever: "
  const QueryPrefix: string := "Error querying retriever: "
  const DeletePrefix: string := "Error deleting retriever: "
  const DeleteArticlesPrefix: string := "Error deleting articles from retriever: "

  /** Documents are sent to the vector store this many at a time. */
  const BatchSize: nat := 100

  /** `f"research_{research_id}"`: the vector-store collection of a research. */
  function CollectionName(researchId: string): (name: string)
    ensures StartsWith(name, "research_") && EndsWith(name, researchId)
    ensures |name| == |researchId| + 9
  {
    "research_" + researchId
  }

  /** Distinct researches never share a collection. */
  lemma CollectionNameInjective(a: string, b: string)
    ensures CollectionName(a) == CollectionName(b) <==> a == b
  {
    if CollectionName(a) == CollectionName(b) {
      assert a == CollectionName(a)[9..];
    }
  }

  // ---------------------------------------------------------------- checks

  /** How the three checks the retriever handlers share end: the user does
      not exist (its `is_active` is then read on `None`), a check raised an
      `HTTPException`, or both rows passed. */
  datatype Gate = NoUser | Denied(status: nat, detail: string) | Admitted(user: Row, research: Row)

  /** Inactive user 403, unknown research 404, inactive research 403, in that
      order. */
  function Gatekeep(s: Store, username: string, researchId: string): (g: Gate)
    ensures g.NoUser? <==> Users.GetUsername(s.users, username).None?
    ensures g.Admitted? <==> (
      Users.GetUsername(s.users, username).Some? && IsActive(Users.GetUsername(s.users, username).value)
      && Research.GetId(s.researches, researchId).Some? && IsActive(Research.GetId(s.researches, researchId).value))
    ensures g.Admitted? ==> (
      g.user == Users.GetUsername(s.users, username).value
      && g.research == Research.GetId(s.researches, researchId).value)
    ensures g.Denied? ==> (
      var user := Users.GetUsername(s.users, username).value;
      var research := Research.GetId(s.researches, researchId);
      (!IsActive(user) ==> g == Denied(403, UserInactive))
      && (IsActive(user) && research.None? ==> g == Denied(404, ResearchNotFound))
      && (IsActive(user) && research.Some? ==> g == Denied(403, ResearchInactive)))
  {
    match Users.GetUsername(s.users, username)
    case None => NoUser
    case Some(user) =>
      if !IsActive(user) then Denied(403, UserInactive)
      else match Research.GetId(s.researches, researchId)
        case None => Denied(404, ResearchNotFound)
        case Some(research) =>
          if !IsActive(research) then Denied(403, ResearchInactive) else Admitted(user, research)
  }

  // ------------------------------------------------------------- documents

  /** The columns of one article row the documents are built from. */
  datatype ArticleText = ArticleText(title: string, abstractText: string, id: Value)

  /** A langchain `Document`: its text and the article id kept as metadata. */
  datatype Document = Document(content: string, id: Value)

  /** One document per article, in order: the title, a space, a line break
      and the abstract, with the article id as metadata. */
  function Documents(articles: seq<ArticleText>): (docs: seq<Document>)
    ensures |docs| == |articles|
    ensures forall i :: 0 <= i < |docs| ==>
      StartsWith(docs[i].content, articles[i].title + " \n")
      && EndsWith(docs[i].content, articles[i].abstractText)
      && |docs[i].content| == |articles[i].title| + 2 + |articles[i].abstractText|
    ensures Ids(docs) == seq(|articles|, i requires 0 <= i < |articles| => articles[i].id)
  {
    seq(|articles|, i requires 0 <= i < |articles| =>
      Document(articles[i].title + " \n" + articles[i].abstractText, articles[i].id))
  }

  /** `[doc.metadata['id'] for doc in docs]`. */
  function Ids(docs: seq<Document>): (ids: seq<Value>)
    ensures |ids| == |docs|
    ensures forall i :: 0 <= i < |ids| ==> ids[i] == docs[i].id
  {
    seq(|docs|, i requires 0 <= i < |docs| => docs[i].id)
  }

  function Min(a: int, b: int): int {
    if a <= b then a else b
  }

  /** `[xs[i:i+100] for i in range(0, len(xs), 100)]`: consecutive non-empty
      slices of at most 100 items, as many as `ceil(len(xs) / 100)`. */
  function Batches<T>(xs: seq<T>): (bs: seq<seq<T>>)
    decreases |xs|
    ensures |bs| == (|xs| + BatchSize - 1) / BatchSize
    ensures forall i :: 0 <= i < |bs| ==> 0 < |bs[i]| <= BatchSize
  {
    if |xs| == 0 then []
    else if |xs| <= BatchSize then [xs]
    else [xs[..BatchSize]] + Batches(xs[BatchSize..])
  }

  /** Batch `i` is the slice `xs[100 * i : 100 * i + 100]`. */
  lemma {:induction false} BatchSlices<T>(xs: seq<T>, i: nat)
    requires i < |Batches(xs)|
    ensures i * BatchSize < |xs|
    ensures Batches(xs)[i] == xs[i * BatchSize .. Min(i * BatchSize + BatchSize, |xs|)]
    decreases |xs|
  {
    if |xs| > BatchSize && i > 0 {
      var rest := xs[BatchSize..];
      BatchSlices(rest, i - 1);
      assert Batches(xs)[i] == Batches(rest)[i - 1];
      assert rest[(i - 1) * BatchSize .. Min((i - 1) * BatchSize + BatchSize, |rest|)]
          == xs[i * BatchSize .. Min(i * BatchSize + BatchSize, |xs|)];
    }
  }

  /** `xss[0] + xss[1] + ...`. */
  function Flatten<T>(xss: seq<seq<T>>): seq<T> {
    if xss == [] then [] else xss[0] + Flatten(xss[1..])
  }

  /** Sending the batches one after another sends every item once, in order. */
  lemma {:induction false} BatchesFlatten<T>(xs: seq<T>)
    ensures Flatten(Batches(xs)) == xs
    decreases |xs|
  {
    if |xs| == 0 {
    } else if |xs| <= BatchSize {
      assert Flatten([xs]) == xs + Flatten([]);
    } else {
      var bs := Batches(xs);
      BatchesFlatten(xs[BatchSize..]);
      assert bs[1..] == Batches(xs[BatchSize..]);
      assert xs == xs[..BatchSize] + xs[BatchSize..];
    }
  }

  /** One `vs.add_documents(batch, ids=ids_batch)` call. */
  datatype AddCall = AddCall(batch: seq<Document>, ids: seq<Value>)

  /** The calls `create` makes, in order, for the documents `docs`. */
  function AddCalls(docs: seq<Document>): (calls: seq<AddCall>)
    ensures |calls| == |Batches(docs)|
    ensures forall i :: 0 <= i < |calls| ==> calls[i].batch == Batches(docs)[i]
    ensures forall i :: 0 <= i < |calls| ==> 0 < |calls[i].batch| <= BatchSize
    ensures forall i :: 0 <= i < |calls| ==> calls[i].ids == Ids(calls[i].batch)
  {
    var bs := Batches(docs);
    seq(|bs|, i requires 0 <= i < |bs| => AddCall(bs[i], Ids(bs[i])))
  }

  function SentIds(calls: seq<AddCall>): seq<Value> {
    if calls == [] then [] else calls[0].ids + SentIds(calls[1..])
  }

  function SentDocs(calls: seq<AddCall>): seq<Document> {
    if calls == [] then [] else calls[0].batch + SentDocs(calls[1..])
  }

  lemma {:induction false} IdsAppend(a: seq<Document>, b: seq<Document>)
    ensures Ids(a + b) == Ids(a) + Ids(b)
  {
  }

  lemma {:induction false} SentIdsOfSentDocs(calls: seq<AddCall>)
    requires forall i :: 0 <= i < |calls| ==> calls[i].ids == Ids(calls[i].batch)
    ensures SentIds(calls) == Ids(SentDocs(calls))
    decreases |calls|
  {
    if calls != [] {
      SentIdsOfSentDocs(calls[1..]);
      IdsAppend(calls[0].batch, SentDocs(calls[1..]));
    }
  }

  lemma {:induction false} SentDocsFlatten(calls: seq<AddCall>, bs: seq<seq<Document>>)
    requires |calls| == |bs|
    requires forall i :: 0 <= i < |calls| ==> calls[i].batch == bs[i]
    ensures SentDocs(calls) == Flatten(bs)
    decreases |calls|
  {
    if calls != [] {
      SentDocsFlatten(calls[1..], bs[1..]);
    }
  }

  /** Over all the calls, every document is sent exactly once and in order,
      each with its own article id. */
  lemma AllDocumentsSentOnce(docs: seq<Document>)
    ensures SentDocs(AddCalls(docs)) == docs
    ensures SentIds(AddCalls(docs)) == Ids(docs)
  {
    var calls := AddCalls(docs);
    SentDocsFlatten(calls, Batches(docs));
    BatchesFlatten(docs);
    SentIdsOfSentDocs(calls);
  }

  // -------------------------------------------------------------- handlers

  /** `create_retriever`. The user and research checks run before the `try`:
      a missing user fails on `user.is_active` with an unhandled error (500).
      Inside the `try` every error becomes 400 "Error creating retriever:
      ...": a research without datasets raises 404, and one with datasets
      calls `Articles.get_all_by_dataset`, which does not exist. So the
      handler never succeeds, and it never writes to the database. */
  function CreateRetriever(s: Store, username: string, researchId: string): (r: Reply<Json>)
    ensures r.store == s && r.response.Failure?
    ensures Users.GetUsername(s.users, username).None? ==> r.response == Failure(500, InternalServerError)
    ensures Gatekeep(s, username, researchId).Denied? ==> (
      var g := Gatekeep(s, username, researchId);
      r.response == Failure(g.status, g.detail))
    ensures Gatekeep(s, username, researchId).Admitted? ==> (
      r.response.status == 400 && StartsWith(r.response.detail, CreatePrefix)
      && (!ExistsWhere(s.datasets, Datasets.OwnedBy(researchId)) ==>
            r.response.detail == CreatePrefix + ExceptionText(404, NoDatasets))
      && (ExistsWhere(s.datasets, Datasets.OwnedBy(researchId)) ==>
            r.response.detail == CreatePrefix + NoArticlesLookup))
  {
    match Gatekeep(s, username, researchId)
    case NoUser => Reply(s, Failure(500, InternalServerError))
    case Denied(status, detail) => Reply(s, Failure(status, detail))
    case Admitted(_, _) =>
      if Datasets.GetAllByResearch(s.datasets, researchId) == [] then
        Reply(s, Failure(400, CreatePrefix + ExceptionText(404, NoDatasets)))
      else Reply(s, Failure(400, CreatePrefix + NoArticlesLookup))
  }

  /** The part shared by `query`, `delete` and `delete-articles`: the checks
      and the opening of the vector store all run inside the `try`, so each
      of their errors is answered 400 with the handler's `prefix` and the
      error's text. When the vector store fails to open, the `except` clause
      itself fails on the unbound `vs`; `open` carries the text of the error
      that then reaches the outer handler. On success, the research row. */
  function Prelude(s: Store, username: string, researchId: string, prefix: string,
                   open: Outcome<()>): (r: Response<Row>)
    ensures r.Failure? ==> r.status == 400 && StartsWith(r.detail, prefix)
    ensures r.Success? <==> Gatekeep(s, username, researchId).Admitted? && open.Ok?
    ensures r.Success? ==> r.body == Research.GetId(s.researches, researchId).value
    ensures Users.GetUsername(s.users, username).None? ==> r == Failure(400, prefix + NoneIsActive)
    ensures Gatekeep(s, username, researchId).Denied? ==> (
      var g := Gatekeep(s, username, researchId);
      r == Failure(400, prefix + ExceptionText(g.status, g.detail)))
    ensures Gatekeep(s, username, researchId).Admitted? && open.Raised? ==>
      r == Failure(400, prefix + open.msg)
  {
    match Gatekeep(s, username, researchId)
    case NoUser => Failure(400, prefix + NoneIsActive)
    case Denied(status, detail) => Failure(400, prefix + ExceptionText(status, detail))
    case Admitted(_, research) =>
      match open
      case Raised(m) => Failure(400, prefix + m)
      case Ok(_) => Success(research)
  }

  /** The body of a successful query: the research title that was asked and
      the ids of the documents found. */
  datatype QueryBody = QueryBody(query: Value, results: seq<Value>)

  /** `query_retriever`: after the checks, the research title is the query
      and `retrieve` stands for the vector-store search; its failure is
      raised as 500 and wrapped like every other error. */
  function QueryRetriever(s: Store, username: string, researchId: string, open: Outcome<()>,
                          retrieve: Value -> Outcome<seq<Document>>): (r: Reply<QueryBody>)
    ensures r.store == s
    ensures r.response.Failure? ==> r.response.status == 400 && StartsWith(r.response.detail, QueryPrefix)
    ensures Prelude(s, username, researchId, QueryPrefix, open).Failure? ==>
      r.response == Failure(Prelude(s, username, researchId, QueryPrefix, open).status,
                            Prelude(s, username, researchId, QueryPrefix, open).detail)
    ensures Prelude(s, username, researchId, QueryPrefix, open).Success? ==> (
      var title := Field(Research.GetId(s.researches, researchId).value, "title");
      (retrieve(title).Raised? ==>
         r.response == Failure(400, QueryPrefix + ExceptionText(500, "Error interno al consultar el recuperador.")))
      && (retrieve(title).Ok? ==>
         r.response.Success? && r.response.body.query == title
         && |r.response.body.results| == |retrieve(title).value|
         && forall i :: 0 <= i < |r.response.body.results| ==>
              r.response.body.results[i] == retrieve(title).value[i].id))
  {
    match Prelude(s, username, researchId, QueryPrefix, open)
    case Failure(status, detail) => Reply(s, Failure(status, detail))
    case Success(research) =>
      var title := Field(research, "title");
      match retrieve(title)
      case Raised(_) =>
        Reply(s, Failure(400, QueryPrefix + ExceptionText(500, "Error interno al consultar el recuperador.")))
      case Ok(docs) => Reply(s, Success(QueryBody(title, Ids(docs))))
  }

  /** `delete_retriever`: `drop` stands for `vs.delete_collection()`. */
  function DeleteRetriever(s: Store, username: string, researchId: string, open: Outcome<()>,
                           drop: Outcome<()>): (r: Reply<Json>)
    ensures r.store == s
    ensures r.response.Failure? ==> r.response.status == 400 && StartsWith(r.response.detail, DeletePrefix)
    ensures r.response.Success? <==>
      Prelude(s, username, researchId, DeletePrefix, open).Success? && drop.Ok?
    ensures r.response.Success? ==>
      r.response.body == Message("Retriever deleted successfully", "research_id", JStr(CollectionName(researchId)))
    ensures Prelude(s, username, researchId, DeletePrefix, open).Success? && drop.Raised? ==>
      r.response == Failure(400, DeletePrefix + ExceptionText(500, "Error interno al eliminar el recuperador."))
  {
    match Prelude(s, username, researchId, DeletePrefix, open)
    case Failure(status, detail) => Reply(s, Failure(status, detail))
    case Success(_) =>
      match drop
      case Raised(_) =>
        Reply(s, Failure(400, DeletePrefix + ExceptionText(500, "Error interno al eliminar el recuperador.")))
      case Ok(_) =>
        Reply(s, Success(Message("Retriever deleted successfully", "research_id", JStr(CollectionName(researchId)))))
  }

  /** `delete_articles_retriever`: `remove` stands for `vs.delete_by_ids`;
      on success the ids asked for are echoed back unchanged. */
  function DeleteArticles(s: Store, username: string, researchId: string, articleIds: seq<string>,
                          open: Outcome<()>, remove: Outcome<()>): (r: Reply<Json>)
    ensures r.store == s
    ensures r.response.Failure? ==>
      r.response.status == 400 && StartsWith(r.response.detail, DeleteArticlesPrefix)
    ensures r.response.Success? <==>
      Prelude(s, username, researchId, DeleteArticlesPrefix, open).Success? && remove.Ok?
    ensures r.response.Success? ==> r.response.body == JObj(map[
      "message" := JStr("Articles deleted successfully from retriever"),
      "research_id" := JStr(CollectionName(researchId)),
      "deleted_article_ids" := JArr(EchoIds(articleIds))])
    ensures Prelude(s, username, researchId, DeleteArticlesPrefix, open).Success? && remove.Raised? ==>
      r.response == Failure(400, DeleteArticlesPrefix
                                 + ExceptionText(500, "Error interno al eliminar artículos del recuperador."))
  {
    match Prelude(s, username, researchId, DeleteArticlesPrefix, open)
    case Failure(status, detail) => Reply(s, Failure(status, detail))
    case Success(_) =>
      match remove
      case Raised(_) =>
        Reply(s, Failure(400, DeleteArticlesPrefix
                              + ExceptionText(500, "Error interno al eliminar artículos del recuperador.")))
      case Ok(_) =>
        Reply(s, Success(JObj(map[
          "message" := JStr("Articles deleted successfully from retriever"),
          "research_id" := JStr(CollectionName(researchId)),
          "deleted_article_ids" := JArr(EchoIds(articleIds))])))
  }

  /** The ids as JSON strings, in order. */
  function EchoIds(ids: seq<string>): (r: seq<Json>)
    ensures |r| == |ids|
    ensures forall i :: 0 <= i < |ids| ==> r[i] == JStr(ids[i])
  {
    seq(|ids|, i requires 0 <= i < |ids| => JStr(ids[i]))
  }

  /** `create` answers a refused check with its own status, while `query`
      answers the same refusal 400 with that status inside the message; a
      missing user is 500 for one and a wrapped `AttributeError` for the
      other. */
  lemma CreateAndQueryRefuseAlike(s: Store, username: string, researchId: string, open: Outcome<()>,
                                  retrieve: Value -> Outcome<seq<Document>>)
    requires !Gatekeep(s, username, researchId).Admitted?
    ensures var c := CreateRetriever(s, username, researchId).response;
            var q := QueryRetriever(s, username, researchId, open, retrieve).response;
            c.Failure? && q.Failure? && q.status == 400
            && (c.status == 500 ==> q.detail == QueryPrefix + NoneIsActive)
            && (c.status != 500 ==> q.detail == QueryPrefix + ExceptionText(c.status, c.detail))
  {
  }
}
