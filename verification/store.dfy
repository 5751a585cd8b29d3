/** The database the request handlers work on, the shared session's commit,
    and the shape of an HTTP reply. */
module Store {
  import opened Base
  import opened Values
  import opened Strings
  import opened Records
  import UsersModel
  import ResearchModel
  import DatasetsModel
  import ArticlesModel
  import AiLabeledModel
  import TrainModel
  import MlClassifierModel

  /** All mapped tables, each in insertion order. */
  datatype Store = Store(
    users: Table,
    researches: Table,
    datasets: Table,
    articles: Table,
    labels: Table,
    models: Table,
    predictions: Table)

  /** What a handler answers: a body with status 200 (JSON for the handlers
      that write, a typed view for the ones that read), or an `HTTPException`
      with its status code and detail. */
  datatype Response<+T> = Success(body: T) | Failure(status: int, detail: string)

  /** The store after the request (rolled back when it failed) and the answer. */
  datatype Reply<+T> = Reply(store: Store, response: Response<T>)

  /** FastAPI's answer to an exception no handler caught. */
  const InternalServerError: string := "Internal Server Error"

  /** Every row of every table carries exactly its class's columns, as rows
      the ORM builds do. */
  predicate WellFormed(s: Store) {
    Conforms(s.users, UsersModel.Schema)
    && Conforms(s.researches, ResearchModel.Schema)
    && Conforms(s.datasets, DatasetsModel.Schema)
    && Conforms(s.articles, ArticlesModel.Schema)
    && Conforms(s.labels, AiLabeledModel.Schema)
    && Conforms(s.models, TrainModel.Schema)
    && Conforms(s.predictions, MlClassifierModel.Schema)
  }

  /** Every table satisfies the constraints the database checks. */
  predicate Consistent(s: Store) {
    Admissible(s.users, UsersModel.Schema)
    && Admissible(s.researches, ResearchModel.Schema)
    && Admissible(s.datasets, DatasetsModel.Schema)
    && Admissible(s.articles, ArticlesModel.Schema)
    && Admissible(s.labels, AiLabeledModel.Schema)
    && Admissible(s.models, TrainModel.Schema)
    && Admissible(s.predictions, MlClassifierModel.Schema)
  }

  /** `db.session.commit()` on the one shared session: every pending change
      is flushed together, and any violated constraint raises. */
  function CommitStore(s: Store): (r: Outcome<Store>)
    ensures r.Ok? <==> Consistent(s)
    ensures r.Ok? ==> r.value == s
    ensures r.Raised? ==> r.msg == IntegrityError
  {
    if Consistent(s) then Ok(s) else Raised(IntegrityError)
  }

  /** `str(e)` of an `HTTPException`: the status, a colon, the detail. */
  function ExceptionText(status: nat, detail: string): (text: string)
    ensures StartsWith(text, NatToString(status))
    ensures EndsWith(text, detail)
  {
    NatToString(status) + ": " + detail
  }

  /** `if not row.is_active`. */
  predicate IsActive(row: Row) {
    Truthy(Field(row, "is_active"))
  }

  /** `user.role in ['admin', 'researcher']`. */
  predicate MayManage(user: Row) {
    Field(user, "role") == Str("admin") || Field(user, "role") == Str("researcher")
  }

  /** A body `{"message": msg, key: value}`. */
  function Message(msg: string, key: string, value: Json): Json {
    JObj(map["message" := JStr(msg), key := value])
  }

  /** Commit the pending store `pending`; on success answer `body`, else roll
      back to `s` and answer 400 with `prefix` and the error text. */
  function CommitOr(s: Store, pending: Store, body: Json, prefix: string): (r: Reply<Json>)
    ensures r.response.Success? <==> Consistent(pending)
    ensures r.response.Success? ==> r.store == pending && r.response.body == body
    ensures r.response.Failure? ==> r.store == s && r.response == Failure(400, prefix + IntegrityError)
  {
    match CommitStore(pending)
    case Ok(s') => Reply(s', Success(body))
    case Raised(m) => Reply(s, Failure(400, prefix + m))
  }

  /** A form field that is given and not blank after `strip()`. */
  predicate Given(v: Option<string>) {
    v.Some? && PyStrip(v.value) != ""
  }

  /** `d` with `k` set to the value when it is given and not blank: one step
      of `{param: value for ... if value is not None and value.strip() != ""}`. */
  function PutGiven(d: map<string, Value>, k: string, v: Option<string>): (r: map<string, Value>)
    ensures k in r <==> k in d || Given(v)
    ensures forall j :: j != k ==> (j in r <==> j in d) && (j in d ==> r[j] == d[j])
    ensures Given(v) ==> r[k] == Str(v.value)
    ensures !Given(v) ==> r == d
  {
    if Given(v) then d[k := Str(v.value)] else d
  }

  const NoSuchUser: string := "Acceso denegado: el usuario no existe."
  const UserInactive: string := "El usuario está inactivo."
  const NoUploadRight: string := "El usuario no tiene permisos para cargar datos."
  const ResearchClosed: string := "La investigación está inactiva. No se pueden cargar datos."

  function BadExtension(extensions: seq<string>): string {
    "Extensión de archivo no permitida. Extensiones permitidas: " + Join(extensions, ", ")
  }

  function NoSuchResearch(researchId: string): string {
    "La investigación con ID " + researchId + " no existe"
  }

  /** The checks that open both upload handlers (data loading and model
      training), in their order: unknown user 401, inactive user 403, a role
      other than admin or researcher 403, a file whose extension is not
      listed 400, unknown research 404, inactive research 403. On success,
      the user and research rows. */
  function UploadChecks(s: Store, username: string, researchId: string, filename: string,
                        extensions: seq<string>): (r: Response<(Row, Row)>)
    ensures UsersModel.GetUsername(s.users, username).None? ==> r == Failure(401, NoSuchUser)
    ensures r.Success? <==> (
      UsersModel.GetUsername(s.users, username).Some?
      && IsActive(UsersModel.GetUsername(s.users, username).value)
      && MayManage(UsersModel.GetUsername(s.users, username).value)
      && Extension(filename) in extensions
      && ResearchModel.GetId(s.researches, researchId).Some?
      && IsActive(ResearchModel.GetId(s.researches, researchId).value))
    ensures r.Success? ==> r.body == (UsersModel.GetUsername(s.users, username).value,
                                      ResearchModel.GetId(s.researches, researchId).value)
    ensures UsersModel.GetUsername(s.users, username).Some? ==> (
      var user := UsersModel.GetUsername(s.users, username).value;
      (!IsActive(user) ==> r == Failure(403, UserInactive))
      && (IsActive(user) && !MayManage(user) ==> r == Failure(403, NoUploadRight))
      && (IsActive(user) && MayManage(user) && Extension(filename) !in extensions ==>
            r == Failure(400, BadExtension(extensions)))
      && (IsActive(user) && MayManage(user) && Extension(filename) in extensions ==> (
            (ResearchModel.GetId(s.researches, researchId).None? ==> r == Failure(404, NoSuchResearch(researchId)))
            && (ResearchModel.GetId(s.researches, researchId).Some?
                && !IsActive(ResearchModel.GetId(s.researches, researchId).value) ==>
                  r == Failure(403, ResearchClosed)))))
  {
    match UsersModel.GetUsername(s.users, username)
    case None => Failure(401, NoSuchUser)
    case Some(user) =>
      if !IsActive(user) then Failure(403, UserInactive)
      else if !MayManage(user) then Failure(403, NoUploadRight)
      else if Extension(filename) !in extensions then Failure(400, BadExtension(extensions))
      else match ResearchModel.GetId(s.researches, researchId)
        case None => Failure(404, NoSuchResearch(researchId))
        case Some(research) =>
          if !IsActive(research) then Failure(403, ResearchClosed) else Success((user, research))
  }
}
