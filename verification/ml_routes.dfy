/** The machine-learning endpoints: training, the trained-model look-ups,
    single and batch inference, and the per-research prediction listing.
    Fitting, decoding a stored model and running it are parameters. */
module MlRoutes {
  import opened Base
  import opened Values
  import opened Strings
  import opened Records
  import opened Store
  import Users = UsersModel
  import Research = ResearchModel
  import Articles = ArticlesModel
  import Models = TrainModel
  import Predictions = MlClassifierModel

  const ServerError: string := "Error interno del servidor."
  const ModelNotFound: string := "Modelo entrenado no encontrado."
  const Trained: string := "Modelo entrenado y guardado exitosamente."
  const InferenceDone: string := "Inferencia ejecutada y resultado guardado exitosamente."

  /** The one extension training accepts. */
  const TrainExtensions: seq<string> := [".csv"]

  // ---------------------------------------------------------------------------
  // Training
  // ---------------------------------------------------------------------------

  /** What fitting the classifier yields, when it succeeds: the scores, the
      chosen hyper-parameters, the training time and the encoded model. */
  datatype Fit = Fit(accuracy: Value, recall: Value, f1Score: Value, hyperparameters: Value,
                     timeTraining: Value, modelData: Value)

  /** The body `POST /train` answers with. */
  datatype TrainBody = TrainBody(message: string, trainId: string, accuracy: Value, recall: Value, f1Score: Value)

  /** A failed check, carried over to the handler's own body type. */
  function Refused<T>(r: Response<T>): Response<TrainBody>
    requires r.Failure?
  {
    Failure(r.status, r.detail)
  }

  /** `POST /train` as written. After the checks every step sits inside an
      outer `try` whose `except` answers 500; the last step calls
      `TrainedModel.add`, which raises because it is not a class method, so
      whatever the file holds the request fails and the session rolls back. */
  function Train(s: Store, username: string, researchId: string, filename: string,
                 fit: Option<Fit>, id: string, now: int): (r: Reply<TrainBody>)
    ensures r.store == s
    ensures r.response.Failure?
    ensures UploadChecks(s, username, researchId, filename, TrainExtensions).Failure? ==>
      r.response == Refused(UploadChecks(s, username, researchId, filename, TrainExtensions))
    ensures UploadChecks(s, username, researchId, filename, TrainExtensions).Success? ==>
      r.response == Failure(500, ServerError)
  {
    match UploadChecks(s, username, researchId, filename, TrainExtensions)
    case Failure(status, detail) => Reply(s, Failure(status, detail))
    case Success((_, research)) =>
      match fit
      case None => Reply(s, Failure(500, ServerError))
      case Some(f) =>
        match Models.AddAsCalled(s.models, TrainRecord(f, id, Field(research, "id"), now), now)
        case Raised(_) => Reply(s, Failure(500, ServerError))
        case Ok(t) =>
          match CommitStore(s.(models := t))
          case Raised(_) => Reply(s, Failure(500, ServerError))
          case Ok(s') => Reply(s', Success(TrainBody(Trained, id, f.accuracy, f.recall, f.f1Score)))
  }

  /** The `train_record` the handler builds. */
  function TrainRecord(f: Fit, id: string, research: Value, now: int): map<string, Value> {
    map["id" := Str(id), "description" := Str("Modelo Logistic Regression entrenado para investigación"),
        "accuracy" := f.accuracy, "recall" := f.recall, "f1_score" := f.f1Score,
        "hyperparameters" := f.hyperparameters, "time_training" := f.timeTraining,
        "model_data" := f.modelData, "create_at" := Time(now), "update_at" := Time(now),
        "ResearchOwnerId" := research]
  }

  /** Every key of `train_record` is a column, and it names its research. */
  lemma TrainRecordFields(f: Fit, id: string, research: Value, now: int)
    ensures var d := TrainRecord(f, id, research, now);
      (forall k :: k in d ==> k in Models.Schema.columns)
      && "ResearchOwnerId" in d && d["ResearchOwnerId"] == research
      && "id" in d && d["id"] == Str(id)
  {
  }

  /** `TrainedModel.add(train_record)` with both corrections of `add`
      (`@classmethod`, and `sqlalchemy.func` in `generate_version`): the new
      model is appended, belongs to the research, and carries the next
      version. */
  function AddModel(t: Table, f: Fit, id: string, research: Value, now: int): (r: Outcome<Table>)
    ensures r.Ok?
    ensures |r.value| == |t| + 1 && r.value[..|t|] == t
    ensures Models.OwnedBy(research)(r.value[|t|]) && Field(r.value[|t|], "id") == Str(id)
    ensures Models.VersionOf(r.value[|t|]) == Some(Models.NextVersion(t, research))
    ensures Models.AboveAllVersions(t, research, r.value[|t|])
  {
    var d := TrainRecord(f, id, research, now);
    TrainRecordFields(f, id, research, now);
    AddedModelFields(t, d, id, research, now);
    Models.AddIntended(t, d, now)
  }

  /** What the corrected `add` stores for a record of columns that names its id and research. */
  lemma AddedModelFields(t: Table, d: map<string, Value>, id: string, research: Value, now: int)
    requires forall k :: k in d ==> k in Models.Schema.columns
    requires "ResearchOwnerId" in d && d["ResearchOwnerId"] == research
    requires "id" in d && d["id"] == Str(id)
    ensures Models.AddIntended(t, d, now).Ok?
    ensures var row := Models.AddIntended(t, d, now).value[|t|];
      Models.OwnedBy(research)(row) && Field(row, "id") == Str(id)
      && Models.VersionOf(row) == Some(Models.NextVersion(t, research))
      && Models.AboveAllVersions(t, research, row)
  {
    var row := Models.AddIntended(t, d, now).value[|t|];
    assert "ResearchOwnerId" != "version" && "id" != "version";
    assert row["ResearchOwnerId"] == research && row["id"] == Str(id);
  }

  /** The end of the corrected `POST /train`: add the model for research
      `owner` with the corrected `add`, commit, answer with its scores. */
  function StoreModel(s: Store, f: Fit, id: string, owner: Value, now: int): (r: Reply<TrainBody>)
    ensures r.response.Failure? ==> r.store == s && r.response == Failure(500, ServerError)
    ensures r.response.Success? ==> (
      Consistent(r.store) && r.store == s.(models := r.store.models)
      && |r.store.models| == |s.models| + 1 && r.store.models[..|s.models|] == s.models
      && Models.OwnedBy(owner)(r.store.models[|s.models|])
      && r.response.body == TrainBody(Trained, id, f.accuracy, f.recall, f.f1Score))
    ensures r.response.Success? ==> Models.AboveAllVersions(s.models, owner, r.store.models[|s.models|])
  {
    match AddModel(s.models, f, id, owner, now)
    case Raised(_) => Reply(s, Failure(500, ServerError))
    case Ok(t) =>
      match CommitStore(s.(models := t))
      case Raised(_) => Reply(s, Failure(500, ServerError))
      case Ok(s') => Reply(s', Success(TrainBody(Trained, id, f.accuracy, f.recall, f.f1Score)))
  }

  /** `POST /train` as its authors evidently meant it, which needs both
      corrections of `TrainedModel`: `add` a class method and
      `generate_version` querying `sqlalchemy.func.max`. A successful fit is
      stored as the research's next model version and committed. */
  function TrainIntended(s: Store, username: string, researchId: string, filename: string,
                         fit: Option<Fit>, id: string, now: int): (r: Reply<TrainBody>)
    ensures r.response.Failure? ==> r.store == s
    ensures UploadChecks(s, username, researchId, filename, TrainExtensions).Failure? ==>
      r.response == Refused(UploadChecks(s, username, researchId, filename, TrainExtensions))
    ensures (UploadChecks(s, username, researchId, filename, TrainExtensions).Success? && fit.None?) ==>
      r.response == Failure(500, ServerError)
    ensures r.response.Success? ==> (
      fit.Some? && UploadChecks(s, username, researchId, filename, TrainExtensions).Success?
      && r == StoreModel(s, fit.value, id, Str(researchId), now))
  {
    match UploadChecks(s, username, researchId, filename, TrainExtensions)
    case Failure(status, detail) => Reply(s, Failure(status, detail))
    case Success((_, research)) =>
      match fit
      case None => Reply(s, Failure(500, ServerError))
      case Some(f) =>
        assert Field(research, "id") == Str(researchId);
        StoreModel(s, f, id, Field(research, "id"), now)
  }

  /** As written, training never stores a model, even when every check
      passes and the fit succeeds. Restoring `@classmethod` alone does not
      help, since `add` then raises in `generate_version`; with both
      corrections the same request stores the model. */
  lemma TrainAsWrittenNeverStores(s: Store, username: string, researchId: string, filename: string,
                                  f: Fit, id: string, now: int)
    requires UploadChecks(s, username, researchId, filename, TrainExtensions).Success?
    requires Consistent(s.(models := AddModel(s.models, f, id, Str(researchId), now).value))
    ensures Train(s, username, researchId, filename, Some(f), id, now).response == Failure(500, ServerError)
    ensures Models.Add(s.models, TrainRecord(f, id, Str(researchId), now), now).Raised?
    ensures TrainIntended(s, username, researchId, filename, Some(f), id, now).response.Success?
  {
    var checks := UploadChecks(s, username, researchId, filename, TrainExtensions);
    assert Field(checks.body.1, "id") == Str(researchId);
    assert StoreModel(s, f, id, Str(researchId), now).response.Success?;
  }

  // ---------------------------------------------------------------------------
  // Trained-model look-ups
  // ---------------------------------------------------------------------------

  /** `GET /trained_models/{research_id}`: the research's models, in table order. */
  function GetTrainedModels(s: Store, researchId: string): (r: Response<seq<Models.ModelView>>)
    ensures r.Success?
    ensures forall i :: 0 <= i < |r.body| ==> exists j :: (0 <= j < |s.models|
      && Models.OwnedBy(Str(researchId))(s.models[j]) && r.body[i] == Models.View(s.models[j]))
    ensures r.body == [] <==> !ExistsWhere(s.models, Models.OwnedBy(Str(researchId)))
  {
    var rows := AllWhere(s.models, Models.OwnedBy(Str(researchId)));
    var vs := Models.GetByResearch(s.models, researchId);
    assert forall i :: 0 <= i < |vs| ==> rows[i] in rows;
    Success(vs)
  }

  /** `GET /trained_model/{model_id}`: the model, or 404. */
  function GetTrainedModel(s: Store, modelId: string): (r: Response<Row>)
    ensures r.Success? <==> Models.GetId(s.models, modelId).Some?
    ensures r.Success? ==> r.body in s.models && Field(r.body, "id") == Str(modelId)
    ensures r.Failure? ==> r == Failure(404, ModelNotFound)
  {
    match Models.GetId(s.models, modelId)
    case None => Failure(404, ModelNotFound)
    case Some(m) => Success(m)
  }

  /** `GET /latest_trained_model/{research_id}` as written: the 404 for a
      research without models is raised inside the `try`, whose generic
      `except` turns it into 500. */
  function GetLatestTrainedModel(s: Store, researchId: string): (r: Response<Row>)
    ensures r.Success? <==> ExistsWhere(s.models, Models.OwnedBy(Str(researchId)))
    ensures r.Success? ==> r.body == Models.GetLatestByResearch(s.models, researchId).value
    ensures r.Failure? ==> r == Failure(500, ServerError)
  {
    match Models.GetLatestByResearch(s.models, researchId)
    case None => Failure(500, ServerError)
    case Some(m) => Success(m)
  }

  /** The same look-up with the 404 let through, as `GET /trained_model`
      does by re-raising `HTTPException`. */
  function GetLatestTrainedModelIntended(s: Store, researchId: string): (r: Response<Row>)
    ensures r.Success? <==> ExistsWhere(s.models, Models.OwnedBy(Str(researchId)))
    ensures r.Success? ==> r.body == Models.GetLatestByResearch(s.models, researchId).value
    ensures r.Failure? ==> r == Failure(404, ModelNotFound)
  {
    match Models.GetLatestByResearch(s.models, researchId)
    case None => Failure(404, ModelNotFound)
    case Some(m) => Success(m)
  }

  /** A research without models gets 500 from the latest-model look-up,
      where the intended answer, like the by-id look-up's, is 404. */
  lemma LatestMissingIsServerError(s: Store, researchId: string)
    requires !ExistsWhere(s.models, Models.OwnedBy(Str(researchId)))
    ensures GetLatestTrainedModel(s, researchId) == Failure(500, ServerError)
    ensures GetLatestTrainedModelIntended(s, researchId) == Failure(404, ModelNotFound)
  {
  }

  /** The latest model the intended look-up returns has the highest version
      of the research's models. */
  lemma LatestHasHighestVersion(s: Store, researchId: string, i: nat)
    requires i < |s.models| && Models.OwnedBy(Str(researchId))(s.models[i])
    ensures GetLatestTrainedModelIntended(s, researchId).Success?
    ensures Models.VersionLe(Models.VersionOf(s.models[i]),
                             Models.VersionOf(GetLatestTrainedModelIntended(s, researchId).body))
  {
  }

  // ---------------------------------------------------------------------------
  // Single inference
  // ---------------------------------------------------------------------------

  /** What running a model on one abstract yields: the predicted class and the two
      class probabilities. */
  datatype Prediction = Prediction(predicted: Value, pExcluded: Value, pIncluded: Value)

  /** A decoded model: the prediction for an abstract, `None` when
      vectorising or predicting raises. */
  type Predictor = Value -> Option<Prediction>

  /** The body `POST /execute_inference` answers with. */
  datatype InferenceBody = InferenceBody(
    message: string, articleId: Value, prediction: Value, probabilityExcluded: Value, probabilityIncluded: Value)

  /** The answer for a prediction already stored. */
  function StoredAnswer(row: Row): InferenceBody {
    InferenceBody(InferenceDone, Field(row, "id_article"), Field(row, "prediction"),
      Field(row, "probability_excluded"), Field(row, "probability_included"))
  }

  /** The `MlClassifier_record` / `ml_record` both inference handlers build. */
  function PredictionRecord(articleId: Value, modelId: Value, p: Prediction, now: int): map<string, Value> {
    map["id_article" := articleId, "prediction" := p.predicted, "probability_excluded" := p.pExcluded,
        "probability_included" := p.pIncluded, "flag_complete" := Bool(true),
        "create_at" := Time(now), "update_at" := Time(now), "ModelOwnerId" := modelId]
  }

  /** Every key of the record is a column, and it holds the prediction. */
  lemma PredictionRecordFields(articleId: Value, modelId: Value, p: Prediction, now: int)
    ensures var d := PredictionRecord(articleId, modelId, p, now);
      (forall k :: k in d ==> k in Predictions.Schema.columns)
      && "id_article" in d && d["id_article"] == articleId
      && "ModelOwnerId" in d && d["ModelOwnerId"] == modelId
      && "prediction" in d && d["prediction"] == p.predicted
      && "probability_excluded" in d && d["probability_excluded"] == p.pExcluded
      && "probability_included" in d && d["probability_included"] == p.pIncluded
  {
  }

  /** `MlClassifier.add(record)`: the new prediction is appended under the
      article and the model, and reads back as the prediction made. */
  function AddPrediction(t: Table, articleId: Value, modelId: Value, p: Prediction, now: int): (r: Outcome<Table>)
    ensures r.Ok?
    ensures |r.value| == |t| + 1 && r.value[..|t|] == t
    ensures Field(r.value[|t|], "id_article") == articleId && Field(r.value[|t|], "ModelOwnerId") == modelId
    ensures StoredAnswer(r.value[|t|]) == InferenceBody(InferenceDone, articleId, p.predicted, p.pExcluded, p.pIncluded)
  {
    var d := PredictionRecord(articleId, modelId, p, now);
    PredictionRecordFields(articleId, modelId, p, now);
    Predictions.Add(t, d, now)
  }

  /** The user checks of `POST /execute_inference`: unknown 401, inactive
      403, neither admin nor researcher 403. */
  function ManagerCheck(s: Store, username: string): (r: Response<Row>)
    ensures r.Success? <==> (Users.GetUsername(s.users, username).Some?
      && IsActive(Users.GetUsername(s.users, username).value)
      && MayManage(Users.GetUsername(s.users, username).value))
    ensures Users.GetUsername(s.users, username).None? ==> r == Failure(401, NoSuchUser)
    ensures (Users.GetUsername(s.users, username).Some? && !IsActive(Users.GetUsername(s.users, username).value)) ==>
      r == Failure(403, UserInactive)
    ensures (Users.GetUsername(s.users, username).Some? && IsActive(Users.GetUsername(s.users, username).value)
      && !MayManage(Users.GetUsername(s.users, username).value)) ==> r == Failure(403, NoUploadRight)
  {
    match Users.GetUsername(s.users, username)
    case None => Failure(401, NoSuchUser)
    case Some(user) =>
      if !IsActive(user) then Failure(403, UserInactive)
      else if !MayManage(user) then Failure(403, NoUploadRight)
      else Success(user)
  }

  /** `POST /execute_inference`. An (article, model) pair that already has a
      prediction is answered from the store without running the model;
      every failure inside the `try` answers 500. */
  function ExecuteInference(s: Store, username: string, modelId: string, articleId: string,
                            load: Value -> Outcome<Predictor>, now: int): (r: Reply<InferenceBody>)
    ensures r.response.Failure? ==> r.store == s
    ensures ManagerCheck(s, username).Failure? ==>
      r.response == Failure(ManagerCheck(s, username).status, ManagerCheck(s, username).detail)
    ensures (ManagerCheck(s, username).Success? && Models.GetId(s.models, modelId).None?) ==>
      r.response == Failure(404, ModelNotFound)
    ensures (ManagerCheck(s, username).Success? && Models.GetId(s.models, modelId).Some?
      && Predictions.GetByArticleAndModel(s.predictions, articleId, modelId).Some?) ==>
      r == Reply(s, Success(StoredAnswer(Predictions.GetByArticleAndModel(s.predictions, articleId, modelId).value)))
    ensures (ManagerCheck(s, username).Success? && Models.GetId(s.models, modelId).Some?
      && Predictions.GetByArticleAndModel(s.predictions, articleId, modelId).None?
      && Articles.GetId(s.articles, articleId).None?) ==> r.response == Failure(500, ServerError)
    ensures r.response.Failure? ==> r.response.status in {401, 403, 404, 500}
    ensures (r.response.Success? && Predictions.GetByArticleAndModel(s.predictions, articleId, modelId).None?) ==> (
      Consistent(r.store) && r.store == s.(predictions := r.store.predictions)
      && |r.store.predictions| == |s.predictions| + 1 && r.store.predictions[..|s.predictions|] == s.predictions
      && var row := r.store.predictions[|s.predictions|];
      Field(row, "id_article") == Str(articleId) && Field(row, "ModelOwnerId") == Str(modelId)
      && r.response.body == StoredAnswer(row))
  {
    match ManagerCheck(s, username)
    case Failure(status, detail) => Reply(s, Failure(status, detail))
    case Success(_) =>
      match Models.GetId(s.models, modelId)
      case None => Reply(s, Failure(404, ModelNotFound))
      case Some(model) =>
        match Predictions.GetByArticleAndModel(s.predictions, articleId, modelId)
        case Some(row) => Reply(s, Success(StoredAnswer(row)))
        case None =>
          match (load(Field(model, "model_data")), Articles.GetId(s.articles, articleId))
          case (Ok(predict), Some(article)) => Infer(s, model, article, predict, now)
          case _ => Reply(s, Failure(500, ServerError))
  }

  /** The end of `POST /execute_inference`: predict, add, commit. */
  function Infer(s: Store, model: Row, article: Row, predict: Predictor, now: int): (r: Reply<InferenceBody>)
    ensures r.response.Failure? ==> r.store == s && r.response == Failure(500, ServerError)
    ensures r.response.Success? ==> (
      Consistent(r.store) && r.store == s.(predictions := r.store.predictions)
      && |r.store.predictions| == |s.predictions| + 1 && r.store.predictions[..|s.predictions|] == s.predictions
      && var row := r.store.predictions[|s.predictions|];
      Field(row, "id_article") == Field(article, "id") && Field(row, "ModelOwnerId") == Field(model, "id")
      && r.response.body == StoredAnswer(row))
  {
    match predict(Field(article, "abstract"))
    case None => Reply(s, Failure(500, ServerError))
    case Some(p) =>
      match AddPrediction(s.predictions, Field(article, "id"), Field(model, "id"), p, now)
      case Raised(_) => Reply(s, Failure(500, ServerError))
      case Ok(t) =>
        match CommitStore(s.(predictions := t))
        case Raised(_) => Reply(s, Failure(500, ServerError))
        case Ok(s') => Reply(s', Success(InferenceBody(InferenceDone, Field(article, "id"), p.predicted, p.pExcluded, p.pIncluded)))
  }

  /** Inference is idempotent: repeating a successful request, with any
      model decoding at any later time, answers the same and stores nothing. */
  lemma ExecuteInferenceIdempotent(s: Store, username: string, modelId: string, articleId: string,
                                   load: Value -> Outcome<Predictor>, now: int,
                                   load': Value -> Outcome<Predictor>, later: int)
    requires ExecuteInference(s, username, modelId, articleId, load, now).response.Success?
    ensures var r := ExecuteInference(s, username, modelId, articleId, load, now);
      ExecuteInference(r.store, username, modelId, articleId, load', later) == r
  {
    var r := ExecuteInference(s, username, modelId, articleId, load, now);
    if Predictions.GetByArticleAndModel(s.predictions, articleId, modelId).None? {
      AppendedIsFound(s.predictions, r.store.predictions, articleId, modelId);
      assert ManagerCheck(r.store, username) == ManagerCheck(s, username);
      assert Models.GetId(r.store.models, modelId) == Models.GetId(s.models, modelId);
    }
  }

  /** A prediction appended for a pair the table had none for is the one the
      (article, model) look-up finds. */
  lemma AppendedIsFound(t: Table, t': Table, a: string, m: string)
    requires Predictions.GetByArticleAndModel(t, a, m).None?
    requires |t'| == |t| + 1 && t'[..|t|] == t
    requires Field(t'[|t|], "id_article") == Str(a) && Field(t'[|t|], "ModelOwnerId") == Str(m)
    ensures Predictions.GetByArticleAndModel(t', a, m) == Some(t'[|t|])
  {
    var p := Predictions.ByArticleAndModel(a, m);
    forall j | 0 <= j < |t|
      ensures !p(t'[j])
    {
      assert t'[j] == t[j];
    }
    FirstWhereAt(t', p, |t|);
  }

  // ---------------------------------------------------------------------------
  // Batch inference
  // ---------------------------------------------------------------------------

  /** Each entry of `article_ids.split(',')` stripped, the empty ones left out. */
  function ParseIds(articleIds: string): (ids: seq<string>)
    ensures forall i :: 0 <= i < |ids| ==> ids[i] != ""
  {
    NonBlank(Split(articleIds, ","))
  }

  /** The stripped entries that are not empty, in order. */
  function NonBlank(xs: seq<string>): (r: seq<string>)
    ensures |r| <= |xs|
    ensures forall i :: 0 <= i < |r| ==> r[i] != ""
  {
    DropEmpty(StripAll(xs))
  }

  /** Every entry stripped, one for one. */
  function StripAll(xs: seq<string>): (r: seq<string>)
    ensures |r| == |xs|
    ensures forall i :: 0 <= i < |xs| ==> r[i] == PyStrip(xs[i])
  {
    seq(|xs|, i requires 0 <= i < |xs| => PyStrip(xs[i]))
  }

  /** The non-empty entries, in order. */
  function DropEmpty(xs: seq<string>): (r: seq<string>)
    ensures |r| <= |xs|
    ensures forall i :: 0 <= i < |r| ==> r[i] != ""
  {
    if |xs| == 0 then []
    else if xs[0] == "" then DropEmpty(xs[1..])
    else
      var rest := DropEmpty(xs[1..]);
      assert forall i :: 1 <= i < |rest| + 1 ==> ([xs[0]] + rest)[i] == rest[i - 1];
      [xs[0]] + rest
  }

  /** Non-empty entries are all kept. */
  lemma {:induction false} DropEmptyKeeps(xs: seq<string>)
    requires forall i :: 0 <= i < |xs| ==> xs[i] != ""
    ensures DropEmpty(xs) == xs
  {
    if |xs| > 0 {
      assert xs[0] != "";
      DropEmptyKeeps(xs[1..]);
      assert xs == [xs[0]] + xs[1..];
    }
  }

  /** Entries already stripped and non-empty pass unchanged. */
  lemma NonBlankKeeps(xs: seq<string>)
    requires forall i :: 0 <= i < |xs| ==> xs[i] != "" && PyStrip(xs[i]) == xs[i]
    ensures NonBlank(xs) == xs
  {
    assert StripAll(xs) == xs;
    DropEmptyKeeps(xs);
  }

  /** The client joins the selected ids with `,`; ids that are non-empty,
      hold no comma and carry no surrounding blanks come back exactly. */
  lemma ParseJoinedIds(ids: seq<string>)
    requires |ids| >= 1
    requires forall i :: 0 <= i < |ids| ==> ids[i] != "" && PyStrip(ids[i]) == ids[i]
    requires forall i, j :: 0 <= i < |ids| && 0 <= j < |ids[i]| ==> ids[i][j] != ','
    ensures ParseIds(Join(ids, ",")) == ids
  {
    forall i | 0 <= i < |ids| ensures SeparableBy(ids[i], ",") {
      SingleCharSeparable(ids[i], ',');
    }
    SplitJoin(ids, ",");
    NonBlankKeeps(ids);
  }

  /** One element of the batch answer. */
  datatype BatchItem = BatchItem(articleId: string, prediction: Value, confidence: Value)

  function ItemIds(items: seq<BatchItem>): (ids: seq<string>)
    ensures |ids| == |items|
    ensures forall i :: 0 <= i < |items| ==> ids[i] == items[i].articleId
  {
    if |items| == 0 then [] else [items[0].articleId] + ItemIds(items[1..])
  }

  /** An id the loop can predict for: its article exists, has a non-empty
      abstract, and the model predicts on it. */
  predicate Predictable(articles: Table, id: string, predict: Predictor) {
    Articles.GetId(articles, id).Some?
    && Truthy(Field(Articles.GetId(articles, id).value, "abstract"))
    && predict(Field(Articles.GetId(articles, id).value, "abstract")).Some?
  }

  /** One pass of the loop body for an id with no stored prediction: the
      table with the new prediction and the answer item, or nothing when
      the article is missing or unusable or predicting raises. */
  function Step(t: Table, articles: Table, modelId: string, id: string, predict: Predictor, now: int)
    : (r: Option<(Table, BatchItem)>)
    ensures r.Some? <==> Predictable(articles, id, predict)
    ensures r.Some? ==> (
      var (t', item) := r.value;
      |t'| == |t| + 1 && t'[..|t|] == t && item.articleId == id
      && Predictions.ByArticleAndModel(id, modelId)(t'[|t|]))
  {
    match Articles.GetId(articles, id)
    case None => None
    case Some(article) =>
      if !Truthy(Field(article, "abstract")) then None
      else match predict(Field(article, "abstract"))
        case None => None
        case Some(p) =>
          match AddPrediction(t, Str(id), Str(modelId), p, now)
          case Raised(_) => None
          case Ok(t') => Some((t', BatchItem(id, p.predicted, Predictions.MaxOf(p.pExcluded, p.pIncluded))))
  }

  /** Where the loop ends: the session's table with the predictions added,
      the answer items and the skip count. */
  datatype BatchState = BatchState(table: Table, items: seq<BatchItem>, skipped: nat)

  /** An (article, model) pair with a prediction in the database. */
  predicate HasStored(stored: Table, id: string, modelId: string) {
    Predictions.GetByArticleAndModel(stored, id, modelId).Some?
  }

  /** One pass of the loop body for `id`, on the session's table `t`. The
      session does not autoflush, so the look-up for an existing prediction
      reads the database as it was when the request began (`stored`), never
      the rows added to the session since. A stored pair is skipped and
      counted; an id that cannot be predicted is dropped uncounted; any
      other id adds a row, whether or not an earlier pass added one. */
  function Pass(stored: Table, t: Table, articles: Table, modelId: string, id: string,
                predict: Predictor, now: int): (r: BatchState)
    ensures r.skipped == 1 <==> HasStored(stored, id, modelId)
    ensures r.skipped <= 1 && |r.items| <= 1 && |r.items| + r.skipped <= 1
    ensures |r.items| == 1 <==> !HasStored(stored, id, modelId) && Predictable(articles, id, predict)
    ensures |r.table| == |t| + |r.items| && r.table[..|t|] == t
    ensures |r.items| == 1 ==>
      r.items[0].articleId == id && Predictions.ByArticleAndModel(id, modelId)(r.table[|t|])
  {
    if HasStored(stored, id, modelId) then BatchState(t, [], 1)
    else match Step(t, articles, modelId, id, predict, now)
      case None => BatchState(t, [], 0)
      case Some((t', item)) => BatchState(t', [item], 0)
  }

  /** The `for article_id in articles_list` loop over the parsed ids: each
      pass runs on the table the previous one left, and its look-ups all read
      the database as the request found it. */
  function BatchLoop(stored: Table, t: Table, articles: Table, modelId: string, ids: seq<string>,
                     predict: Predictor, now: int): (r: BatchState)
    ensures |r.items| + r.skipped <= |ids|
    ensures |r.table| == |t| + |r.items| && r.table[..|t|] == t
    decreases |ids|
  {
    if |ids| == 0 then BatchState(t, [], 0)
    else
      var h := Pass(stored, t, articles, modelId, ids[0], predict, now);
      var rest := BatchLoop(stored, h.table, articles, modelId, ids[1..], predict, now);
      PrefixOfPrefix(t, h.table, rest.table);
      BatchState(rest.table, h.items + rest.items, h.skipped + rest.skipped)
  }

  /** A prefix of a prefix is a prefix. */
  lemma PrefixOfPrefix(t: Table, t': Table, u: Table)
    requires |t| <= |t'| && t'[..|t|] == t
    requires |t'| <= |u| && u[..|t'|] == t'
    ensures u[..|t|] == t
  {
    assert u[..|t'|][..|t|] == u[..|t|];
  }

  /** The answer lists the ids it predicted for in the order they were
      given: a subsequence of the parsed ids. */
  lemma {:induction false} BatchLoopInOrder(stored: Table, t: Table, articles: Table, modelId: string,
                                            ids: seq<string>, predict: Predictor, now: int)
    ensures IsSubsequence(ItemIds(BatchLoop(stored, t, articles, modelId, ids, predict, now).items), ids)
    decreases |ids|
  {
    if |ids| > 0 {
      var h := Pass(stored, t, articles, modelId, ids[0], predict, now);
      var rest := BatchLoop(stored, h.table, articles, modelId, ids[1..], predict, now);
      BatchLoopInOrder(stored, h.table, articles, modelId, ids[1..], predict, now);
      if |h.items| == 0 {
        assert h.items + rest.items == rest.items;
        SkipKeepsSubsequence(ItemIds(rest.items), ids);
      } else {
        var xs := ItemIds(h.items + rest.items);
        assert xs[0] == ids[0];
        assert xs[1..] == ItemIds(rest.items);
      }
    }
  }

  /** Leaving out the head of `ys` keeps a subsequence of its tail a
      subsequence of `ys`. */
  lemma SkipKeepsSubsequence<T>(xs: seq<T>, ys: seq<T>)
    requires |ys| > 0 && IsSubsequence(xs, ys[1..])
    ensures IsSubsequence(xs, ys)
  {
  }

  /** A row present in a table stays present in any extension of it. */
  lemma KeptInExtension(t: Table, t': Table, a: string, m: string)
    requires |t| <= |t'| && t'[..|t|] == t
    requires Predictions.GetByArticleAndModel(t, a, m).Some?
    ensures Predictions.GetByArticleAndModel(t', a, m).Some?
  {
    var i :| 0 <= i < |t| && Predictions.ByArticleAndModel(a, m)(t[i]);
    assert t'[i] == t[i];
  }

  /** Some row of `u` from position `from` on is a prediction for (`a`, `m`). */
  predicate RowForAfter(u: Table, from: nat, a: string, m: string) {
    exists q :: from <= q < |u| && Predictions.ByArticleAndModel(a, m)(u[q])
  }

  /** Two rows of `u` from position `from` on are predictions for (`a`, `m`). */
  predicate TwoRowsForAfter(u: Table, from: nat, a: string, m: string) {
    exists p :: from <= p < |u| && Predictions.ByArticleAndModel(a, m)(u[p]) && RowForAfter(u, p + 1, a, m)
  }

  /** A row found from a later position is found from an earlier one. */
  lemma RowForEarlier(u: Table, from: nat, from': nat, a: string, m: string)
    requires from <= from' && RowForAfter(u, from', a, m)
    ensures RowForAfter(u, from, a, m)
  {
    var q :| from' <= q < |u| && Predictions.ByArticleAndModel(a, m)(u[q]);
  }

  /** Two rows found from a later position are found from an earlier one. */
  lemma TwoRowsForEarlier(u: Table, from: nat, from': nat, a: string, m: string)
    requires from <= from' && TwoRowsForAfter(u, from', a, m)
    ensures TwoRowsForAfter(u, from, a, m)
  {
    var p :| from' <= p < |u| && Predictions.ByArticleAndModel(a, m)(u[p]) && RowForAfter(u, p + 1, a, m);
  }

  /** A row some pass appended survives in the final table, at its place. */
  lemma PassRowKept(t: Table, h: BatchState, u: Table, a: string, m: string)
    requires |h.table| == |t| + 1 && Predictions.ByArticleAndModel(a, m)(h.table[|t|])
    requires |h.table| <= |u| && u[..|h.table|] == h.table
    ensures Predictions.ByArticleAndModel(a, m)(u[|t|]) && RowForAfter(u, |t|, a, m)
  {
    assert u[|t|] == u[..|h.table|][|t|];
  }

  /** A predictable id with no stored prediction gets a new row, somewhere
      after the rows the session held when the loop reached it. */
  lemma {:induction false} NewRowFor(stored: Table, t: Table, articles: Table, modelId: string,
                                     ids: seq<string>, predict: Predictor, now: int, k: nat)
    requires k < |ids| && Predictable(articles, ids[k], predict) && !HasStored(stored, ids[k], modelId)
    ensures RowForAfter(BatchLoop(stored, t, articles, modelId, ids, predict, now).table, |t|, ids[k], modelId)
    decreases |ids|
  {
    var h := Pass(stored, t, articles, modelId, ids[0], predict, now);
    var u := BatchLoop(stored, h.table, articles, modelId, ids[1..], predict, now).table;
    if k > 0 {
      var tail := ids[1..];
      assert tail[k - 1] == ids[k];
      NewRowFor(stored, h.table, articles, modelId, tail, predict, now, k - 1);
      RowForEarlier(u, |t|, |h.table|, ids[k], modelId);
    } else {
      PassRowKept(t, h, u, ids[0], modelId);
    }
  }

  /** After the loop, every id the model can predict for has a prediction
      under the model in the session: the loop added it, or the database
      held it already. */
  lemma {:induction false} BatchLoopCovers(stored: Table, t: Table, articles: Table, modelId: string,
                                           ids: seq<string>, predict: Predictor, now: int, k: nat)
    requires |stored| <= |t| && t[..|stored|] == stored
    requires k < |ids| && Predictable(articles, ids[k], predict)
    ensures Predictions.GetByArticleAndModel(BatchLoop(stored, t, articles, modelId, ids, predict, now).table,
                                             ids[k], modelId).Some?
  {
    var u := BatchLoop(stored, t, articles, modelId, ids, predict, now).table;
    if HasStored(stored, ids[k], modelId) {
      PrefixOfPrefix(stored, t, u);
      KeptInExtension(stored, u, ids[k], modelId);
    } else {
      NewRowFor(stored, t, articles, modelId, ids, predict, now, k);
      var q :| |t| <= q < |u| && Predictions.ByArticleAndModel(ids[k], modelId)(u[q]);
      FoundAt(u, q, ids[k], modelId);
    }
  }

  /** A table with a row for a pair has a prediction for that pair. */
  lemma FoundAt(u: Table, q: nat, a: string, m: string)
    requires q < |u| && Predictions.ByArticleAndModel(a, m)(u[q])
    ensures Predictions.GetByArticleAndModel(u, a, m).Some?
  {
  }

  /** Every id the model can predict for has a prediction under the model in `t`. */
  predicate Covers(t: Table, articles: Table, modelId: string, ids: seq<string>, predict: Predictor) {
    forall k :: 0 <= k < |ids| && Predictable(articles, ids[k], predict) ==>
      Predictions.GetByArticleAndModel(t, ids[k], modelId).Some?
  }

  /** `BatchLoopCovers` for every index at once, for a loop that starts on
      the database's own table. */
  lemma BatchCovers(t: Table, articles: Table, modelId: string, ids: seq<string>, predict: Predictor, now: int)
    ensures Covers(BatchLoop(t, t, articles, modelId, ids, predict, now).table, articles, modelId, ids, predict)
  {
    assert t[..|t|] == t;
    forall k | 0 <= k < |ids| && Predictable(articles, ids[k], predict)
      ensures Predictions.GetByArticleAndModel(BatchLoop(t, t, articles, modelId, ids, predict, now).table,
                                               ids[k], modelId).Some?
    {
      BatchLoopCovers(t, t, articles, modelId, ids, predict, now, k);
    }
  }

  /** An id given twice that is predictable and has no stored prediction
      leaves two rows with the same primary key in the session. */
  lemma {:induction false} RepeatedIdAddsTwice(stored: Table, t: Table, articles: Table, modelId: string,
                                               ids: seq<string>, predict: Predictor, now: int, i: nat, j: nat)
    requires i < j < |ids| && ids[i] == ids[j]
    requires Predictable(articles, ids[i], predict) && !HasStored(stored, ids[i], modelId)
    ensures TwoRowsForAfter(BatchLoop(stored, t, articles, modelId, ids, predict, now).table, |t|, ids[i], modelId)
    decreases |ids|
  {
    var h := Pass(stored, t, articles, modelId, ids[0], predict, now);
    var u := BatchLoop(stored, h.table, articles, modelId, ids[1..], predict, now).table;
    var a := ids[i];
    var tail := ids[1..];
    assert tail[j - 1] == a;
    if i == 0 {
      PassRowKept(t, h, u, a, modelId);
      NewRowFor(stored, h.table, articles, modelId, tail, predict, now, j - 1);
      assert Predictions.ByArticleAndModel(a, modelId)(u[|t|]) && RowForAfter(u, |t| + 1, a, modelId);
    } else {
      assert tail[i - 1] == a;
      RepeatedIdAddsTwice(stored, h.table, articles, modelId, tail, predict, now, i - 1, j - 1);
      TwoRowsForEarlier(u, |t|, |h.table|, a, modelId);
    }
  }

  /** The body `POST /batch_inference` answers with. */
  datatype BatchBody = BatchBody(message: string, totalProcessed: nat, totalSkipped: nat, predictions: seq<BatchItem>)

  /** The loop over the parsed ids and the commit after it; a failed commit
      rolls back and answers 500 with the error's text. */
  function BatchRun(s: Store, modelId: string, ids: seq<string>, predict: Predictor, now: int): (r: Reply<BatchBody>)
    ensures r.response.Failure? ==> r.store == s && r.response == Failure(500, IntegrityError)
    ensures r.response.Success? ==> (
      var b := r.response.body;
      Consistent(r.store) && r.store == s.(predictions := r.store.predictions)
      && b.totalProcessed == |b.predictions|
      && b.totalProcessed + b.totalSkipped <= |ids|
      && IsSubsequence(ItemIds(b.predictions), ids)
      && |r.store.predictions| == |s.predictions| + b.totalProcessed
      && r.store.predictions[..|s.predictions|] == s.predictions)
    ensures r.response.Success? ==> Covers(r.store.predictions, s.articles, modelId, ids, predict)
  {
    var st := BatchLoop(s.predictions, s.predictions, s.articles, modelId, ids, predict, now);
    BatchCovers(s.predictions, s.articles, modelId, ids, predict, now);
    BatchLoopInOrder(s.predictions, s.predictions, s.articles, modelId, ids, predict, now);
    match CommitStore(s.(predictions := st.table))
    case Raised(m) => Reply(s, Failure(500, m))
    case Ok(s') =>
      Reply(s', Success(BatchBody(
        "Inferencia masiva completada. " + NatToString(|st.items|) + " nuevos, "
          + NatToString(st.skipped) + " omitidos.",
        |st.items|, st.skipped, st.items)))
  }

  /** An id listed twice whose article can be predicted and that has no
      stored prediction is predicted twice; the two rows share the primary
      key (article, model), so the commit fails: the request answers 500
      and stores nothing. */
  lemma RepeatedIdFailsCommit(s: Store, modelId: string, ids: seq<string>, predict: Predictor, now: int,
                              i: nat, j: nat)
    requires i < j < |ids| && ids[i] == ids[j]
    requires Predictable(s.articles, ids[i], predict) && !HasStored(s.predictions, ids[i], modelId)
    ensures BatchRun(s, modelId, ids, predict, now) == Reply(s, Failure(500, IntegrityError))
  {
    var u := BatchLoop(s.predictions, s.predictions, s.articles, modelId, ids, predict, now).table;
    RepeatedIdAddsTwice(s.predictions, s.predictions, s.articles, modelId, ids, predict, now, i, j);
    var p :| |s.predictions| <= p < |u| && Predictions.ByArticleAndModel(ids[i], modelId)(u[p])
      && RowForAfter(u, p + 1, ids[i], modelId);
    var q :| p + 1 <= q < |u| && Predictions.ByArticleAndModel(ids[i], modelId)(u[q]);
    SharedPairNotAdmissible(u, p, q, ids[i], modelId);
  }

  /** Two rows for the same (article, model) pair break the primary key. */
  lemma SharedPairNotAdmissible(u: Table, p: nat, q: nat, a: string, m: string)
    requires p < q < |u|
    requires Predictions.ByArticleAndModel(a, m)(u[p]) && Predictions.ByArticleAndModel(a, m)(u[q])
    ensures !Admissible(u, Predictions.Schema)
  {
    var key := Predictions.Schema.key;
    assert key == ["id_article", "ModelOwnerId"];
    assert SameKey(u[p], u[q], key);
  }

  /** `POST /batch_inference`. A missing or inactive user is refused 403;
      everything after sits in a `try` whose `except` answers 500 with the
      error's text. */
  function BatchInference(s: Store, username: string, modelId: string, articleIds: string,
                          load: Value -> Outcome<Predictor>, now: int): (r: Reply<BatchBody>)
    ensures r.response.Failure? ==> r.store == s
    ensures (Users.GetUsername(s.users, username).None? || !IsActive(Users.GetUsername(s.users, username).value)) ==>
      r.response == Failure(403, "Usuario no autorizado")
    ensures (Users.GetUsername(s.users, username).Some? && IsActive(Users.GetUsername(s.users, username).value)
      && Models.GetId(s.models, modelId).None?) ==>
      r.response == Failure(500, ExceptionText(404, "Modelo no encontrado"))
    ensures r.response.Success? ==> (
      Models.GetId(s.models, modelId).Some?
      && load(Field(Models.GetId(s.models, modelId).value, "model_data")).Ok?
      && r == BatchRun(s, modelId, ParseIds(articleIds),
                       load(Field(Models.GetId(s.models, modelId).value, "model_data")).value, now))
  {
    match Users.GetUsername(s.users, username)
    case None => Reply(s, Failure(403, "Usuario no autorizado"))
    case Some(user) =>
      if !IsActive(user) then Reply(s, Failure(403, "Usuario no autorizado"))
      else match Models.GetId(s.models, modelId)
        case None => Reply(s, Failure(500, ExceptionText(404, "Modelo no encontrado")))
        case Some(model) =>
          match load(Field(model, "model_data"))
          case Raised(m) => Reply(s, Failure(500, m))
          case Ok(predict) => BatchRun(s, modelId, ParseIds(articleIds), predict, now)
  }

  // ---------------------------------------------------------------------------
  // Listing predictions
  // ---------------------------------------------------------------------------

  /** `[m['id'] for m in models]`. */
  function ModelIds(models: seq<Models.ModelView>): (ids: seq<Value>)
    ensures |ids| == |models|
    ensures forall i :: 0 <= i < |models| ==> ids[i] == models[i].id
  {
    if |models| == 0 then [] else [models[0].id] + ModelIds(models[1..])
  }

  /** The predictions of each model in turn, concatenated. */
  function AllPredictions(t: Table, articles: Table, ids: seq<Value>): (ps: seq<Predictions.ModelPrediction>)
    ensures forall i :: 0 <= i < |ps| ==> ps[i].modelId in ids
  {
    if |ids| == 0 then []
    else
      var here := if ids[0].Str? then Predictions.GetAllByModel(t, articles, ids[0].s) else [];
      var rest := AllPredictions(t, articles, ids[1..]);
      assert forall i :: 0 <= i < |rest| ==> rest[i].modelId in ids by {
        assert forall v :: v in ids[1..] ==> v in ids;
      }
      here + rest
  }

  /** Nothing is lost in the concatenation: every prediction of every listed
      model appears. */
  lemma {:induction false} AllPredictionsComplete(t: Table, articles: Table, ids: seq<Value>, j: nat, k: nat)
    requires j < |ids| && ids[j].Str? && k < |Predictions.GetAllByModel(t, articles, ids[j].s)|
    ensures Predictions.GetAllByModel(t, articles, ids[j].s)[k] in AllPredictions(t, articles, ids)
    decreases |ids|
  {
    if j > 0 {
      AllPredictionsComplete(t, articles, ids[1..], j - 1, k);
    }
  }

  /** The body of `GET /predictions/{research_id}`. */
  datatype PredictionsBody = PredictionsBody(predictions: seq<Predictions.ModelPrediction>, total: nat, message: string)

  /** `GET /predictions/{research_id}`. */
  function GetMlPredictions(s: Store, researchId: string): (r: Response<PredictionsBody>)
    ensures r.Success?
    ensures r.body.total == |r.body.predictions|
    ensures !ExistsWhere(s.models, Models.OwnedBy(Str(researchId))) ==>
      r.body == PredictionsBody([], 0, "No hay modelos entrenados")
    ensures forall i :: 0 <= i < |r.body.predictions| ==>
      r.body.predictions[i].modelId in ModelIds(Models.GetByResearch(s.models, researchId))
  {
    var models := Models.GetByResearch(s.models, researchId);
    if |models| == 0 then Success(PredictionsBody([], 0, "No hay modelos entrenados"))
    else
      var all := AllPredictions(s.predictions, s.articles, ModelIds(models));
      Success(PredictionsBody(all, |all|, "Se encontraron " + NatToString(|all|) + " predicciones"))
  }

  /** `GET /download/{research_id}` without the CSV rendering: the same
      predictions, with the two 404s raised inside the `try` answered as 400. */
  function DownloadPredictions(s: Store, researchId: string): (r: Response<seq<Predictions.ModelPrediction>>)
    ensures !ExistsWhere(s.models, Models.OwnedBy(Str(researchId))) ==>
      r == Failure(400, "Error al descargar CSV: " + ExceptionText(404, "No hay modelos para esta investigación"))
    ensures r.Success? ==> r.body != []
  {
    var models := Models.GetByResearch(s.models, researchId);
    if |models| == 0 then
      Failure(400, "Error al descargar CSV: " + ExceptionText(404, "No hay modelos para esta investigación"))
    else
      var all := AllPredictions(s.predictions, s.articles, ModelIds(models));
      if |all| == 0 then
        Failure(400, "Error al descargar CSV: " + ExceptionText(404, "No hay predicciones para esta investigación"))
      else Success(all)
  }

  /** The download holds exactly the listed predictions, and fails exactly
      when the listing is empty. */
  lemma DownloadAgreesWithListing(s: Store, researchId: string)
    ensures DownloadPredictions(s, researchId).Success? <==> GetMlPredictions(s, researchId).body.total > 0
    ensures DownloadPredictions(s, researchId).Success? ==>
      DownloadPredictions(s, researchId).body == GetMlPredictions(s, researchId).body.predictions
  {
  }
}
