/** The research endpoints: creation, update, listing and (in)activation. */
module ResearchRoutes {
  import opened Base
  import opened Values
  import opened Strings
  import opened Records
  import opened Store
  import Users = UsersModel
  import Research = ResearchModel

  const UserNotFound: string := "Usuario no encontrado."
  const ResearchNotFound: string := "Investigación no encontrada."

  function Lookup(s: Store, u: string): Option<Row> {
    Users.GetUsername(s.users, u)
  }

  /** `POST /create`. After the user checks the handler calls
      `Research.name_exists`, which the class does not define: the
      `AttributeError` escapes every handler and the answer is 500. */
  function Create(s: Store, username: string): (r: Reply<Json>)
    ensures r.store == s
    ensures Lookup(s, username).None? ==> r.response == Failure(401, NoSuchUser)
    ensures Lookup(s, username).Some? && !IsActive(Lookup(s, username).value) ==>
      r.response == Failure(403, UserInactive)
    ensures (Lookup(s, username).Some? && IsActive(Lookup(s, username).value)
      && !MayManage(Lookup(s, username).value)) ==>
      r.response == Failure(403, "El usuario no tiene permisos para crear investigaciones.")
    ensures r.response.Failure?
    ensures (Lookup(s, username).Some? && IsActive(Lookup(s, username).value)
      && MayManage(Lookup(s, username).value)) ==> r.response == Failure(500, InternalServerError)
  {
    match Lookup(s, username)
    case None => Reply(s, Failure(401, NoSuchUser))
    case Some(user) =>
      if !IsActive(user) then Reply(s, Failure(403, UserInactive))
      else if !MayManage(user) then
        Reply(s, Failure(403, "El usuario no tiene permisos para crear investigaciones."))
      else Reply(s, Failure(500, InternalServerError))
  }

  /** The stored form of a criteria list, `"|&|".join(criteria)`. */
  function StoredCriteria(cs: seq<string>): string {
    Join(cs, Research.CriteriaSep)
  }

  /** Reading stored criteria back gives the submitted list when no
      criterion runs into the separator and the list is not one empty
      criterion. */
  lemma StoredCriteriaRoundTrip(cs: seq<string>)
    requires |cs| >= 1 && StoredCriteria(cs) != ""
    requires forall i :: 0 <= i < |cs| ==> SeparableBy(cs[i], Research.CriteriaSep)
    ensures Research.CriteriaList(Str(StoredCriteria(cs))) == cs
  {
    Research.CriteriaRoundTrip(cs);
  }

  /** The text fields of `PUT /update`'s `dict_update`: kept when given and
      not blank. */
  function TextUpdate(name: Option<string>, description: Option<string>, methodology: Option<string>)
    : (d: map<string, Value>)
    ensures forall k :: k in d ==> (k == "name" || k == "description" || k == "methodology")
    ensures "methodology" in d <==> Given(methodology)
    ensures Given(methodology) ==> d["methodology"] == Str(methodology.value)
  {
    var n, de, m := "name", "description", "methodology";
    assert n[0] == 'n' && de[0] == 'd' && m[0] == 'm';
    PutGiven(PutGiven(PutGiven(map[], n, name), de, description), m, methodology)
  }

  /** The `dict_update` of `PUT /update`: strings are kept when given and not
      blank, the criteria when the list is non-empty and joins to a non-blank
      string, `is_test` whenever it is given. `name` and `description` are
      not columns and are later ignored. */
  function ResearchUpdate(name: Option<string>, description: Option<string>, methodology: Option<string>,
                          criteria: Option<seq<string>>, isTest: Option<bool>): (d: map<string, Value>)
    ensures forall k :: k in d ==> (k == "name" || k == "description" || k == "methodology"
      || k == "criteria_inclusion" || k == "is_test")
    ensures "methodology" in d <==> Given(methodology)
    ensures Given(methodology) ==> d["methodology"] == Str(methodology.value)
    ensures "criteria_inclusion" in d <==>
      criteria.Some? && |criteria.value| > 0 && PyStrip(StoredCriteria(criteria.value)) != ""
    ensures "criteria_inclusion" in d ==> d["criteria_inclusion"] == Str(StoredCriteria(criteria.value))
    ensures "is_test" in d <==> isTest.Some?
    ensures isTest.Some? ==> d["is_test"] == Bool(isTest.value)
  {
    var c, t := "criteria_inclusion", "is_test";
    assert c[0] == 'c' && t[0] == 'i';
    assert "name"[0] == 'n' && "description"[0] == 'd' && "methodology"[0] == 'm';
    var joined := if criteria.Some? && |criteria.value| > 0 then Some(StoredCriteria(criteria.value)) else None;
    var d3 := TextUpdate(name, description, methodology);
    assert c !in d3 && t !in d3;
    var d4 := PutGiven(d3, c, joined);
    assert t !in d4;
    if isTest.Some? then d4[t := Bool(isTest.value)] else d4
  }

  /** The 404/403/404 prologue shared by update and (in)activation. */
  function Prologue(s: Store, username: string, id: string): (r: Response<(Row, Row)>)
    ensures Lookup(s, username).None? ==> r == Failure(404, UserNotFound)
    ensures Lookup(s, username).Some? && !IsActive(Lookup(s, username).value) ==> r == Failure(403, UserInactive)
    ensures (Lookup(s, username).Some? && IsActive(Lookup(s, username).value)
      && Research.GetId(s.researches, id).None?) ==> r == Failure(404, ResearchNotFound)
    ensures r.Success? <==> (Lookup(s, username).Some? && IsActive(Lookup(s, username).value)
      && Research.GetId(s.researches, id).Some?)
    ensures r.Success? ==> r.body == (Lookup(s, username).value, Research.GetId(s.researches, id).value)
  {
    match Lookup(s, username)
    case None => Failure(404, UserNotFound)
    case Some(user) =>
      if !IsActive(user) then Failure(403, UserInactive)
      else match Research.GetId(s.researches, id)
        case None => Failure(404, ResearchNotFound)
        case Some(research) => Success((user, research))
  }

  /** Update the research, commit, and answer with `msg`. */
  function UpdateAndCommit(s: Store, id: string, upd: map<string, Value>, now: int, msg: string, prefix: string): (r: Reply<Json>)
    requires WellFormed(s)
    ensures r.response.Failure? ==> r.store == s && r.response.status == 400
    ensures r.response.Success? ==> (
      Research.Update(s.researches, id, upd, now).Ok?
      && r.store == s.(researches := Research.Update(s.researches, id, upd, now).value)
      && Consistent(r.store))
  {
    match Research.Update(s.researches, id, upd, now)
    case Raised(m) => Reply(s, Failure(400, prefix + m))
    case Ok(t) =>
      CommitOr(s, s.(researches := t), JObj(map["message" := JStr(msg), "id" := JStr(id)]), prefix)
  }

  /** `PUT /update`: 403 only for a user who is neither admin nor researcher
      and does not own the research. */
  function UpdateResearch(s: Store, username: string, id: string, name: Option<string>,
                          description: Option<string>, methodology: Option<string>,
                          criteria: Option<seq<string>>, isTest: Option<bool>, now: int): (r: Reply<Json>)
    requires WellFormed(s)
    ensures r.response.Failure? ==> r.store == s
    ensures Prologue(s, username, id).Failure? ==>
      r.response == Failure(Prologue(s, username, id).status, Prologue(s, username, id).detail)
    ensures (Prologue(s, username, id).Success? && !MayManage(Lookup(s, username).value)
      && Field(Research.GetId(s.researches, id).value, "researcherOwnerId") != Str(username)) <==>
      r.response == Failure(403, "No tiene permisos para actualizar esta investigación.")
    ensures r.response.Success? ==> (
      var upd := ResearchUpdate(name, description, methodology, criteria, isTest);
      Research.Update(s.researches, id, upd, now).Ok?
      && r.store == s.(researches := Research.Update(s.researches, id, upd, now).value))
  {
    match Prologue(s, username, id)
    case Failure(st, m) => Reply(s, Failure(st, m))
    case Success((user, research)) =>
      if !MayManage(user) && Field(research, "researcherOwnerId") != Str(username) then
        Reply(s, Failure(403, "No tiene permisos para actualizar esta investigación."))
      else
        UpdateAndCommit(s, id, ResearchUpdate(name, description, methodology, criteria, isTest), now,
          "Investigación actualizada", "Error al actualizar investigación: ")
  }

  /** `POST /get-research`: every research for an admin (None when there are
      none), otherwise only the caller's own grouping. */
  function GetResearch(s: Store, username: string): (r: Reply<Option<Research.Groups>>)
    ensures r.store == s
    ensures Lookup(s, username).None? ==> r.response == Failure(404, UserNotFound)
    ensures Lookup(s, username).Some? && !IsActive(Lookup(s, username).value) ==>
      r.response == Failure(403, UserInactive)
    ensures r.response.Success? ==> Lookup(s, username).Some? && IsActive(Lookup(s, username).value)
    ensures r.response.Success? && Field(Lookup(s, username).value, "role") == Str("admin") ==>
      r.response.body == Research.GetAll(s.researches)
    ensures r.response.Success? && Field(Lookup(s, username).value, "role") != Str("admin") ==>
      r.response.body == Some(Research.GetByOwner(s.researches, username))
  {
    match Lookup(s, username)
    case None => Reply(s, Failure(404, UserNotFound))
    case Some(user) =>
      if !IsActive(user) then Reply(s, Failure(403, UserInactive))
      else if Field(user, "role") == Str("admin") then Reply(s, Success(Research.GetAll(s.researches)))
      else Reply(s, Success(Some(Research.GetByOwner(s.researches, username))))
  }

  /** A non-admin sees only a group keyed by their own username, and in it
      exactly their researches in table order. */
  lemma NonAdminSeesOwnResearches(s: Store, username: string)
    requires GetResearch(s, username).response.Success?
    requires Field(Lookup(s, username).value, "role") != Str("admin")
    ensures var g := GetResearch(s, username).response.body.value;
      |g| <= 1
      && (g == [] <==> forall i :: 0 <= i < |s.researches| ==>
            Field(s.researches[i], "researcherOwnerId") != Str(username))
      && (g != [] ==> (g[0].0 == Str(username)
            && forall v :: v in g[0].1 ==> (exists i :: (0 <= i < |s.researches|
                 && Field(s.researches[i], "researcherOwnerId") == Str(username)
                 && v == Research.View(s.researches[i])))))
  {
    var rows := AllWhere(s.researches, Research.OwnedBy(Str(username)));
    var g := Research.GetByOwner(s.researches, username);
    if g != [] {
      forall v | v in g[0].1 ensures exists i :: (0 <= i < |s.researches|
          && Field(s.researches[i], "researcherOwnerId") == Str(username)
          && v == Research.View(s.researches[i])) {
        var k :| 0 <= k < |g[0].1| && g[0].1[k] == v;
        assert rows[k] in s.researches;
        var i :| 0 <= i < |s.researches| && s.researches[i] == rows[k];
      }
    }
  }

  /** `POST /inactivate` and `POST /activate`: after the 404/403/404 checks
      the research's `is_active` becomes `active`, with no ownership check. */
  function SetActive(s: Store, username: string, id: string, active: bool, now: int): (r: Reply<Json>)
    requires WellFormed(s)
    ensures r.response.Failure? ==> r.store == s
    ensures Prologue(s, username, id).Failure? ==>
      r.response == Failure(Prologue(s, username, id).status, Prologue(s, username, id).detail)
    ensures r.response.Success? ==> (
      Research.Update(s.researches, id, map["is_active" := Bool(active)], now).Ok?
      && r.store == s.(researches := Research.Update(s.researches, id, map["is_active" := Bool(active)], now).value))
  {
    match Prologue(s, username, id)
    case Failure(st, m) => Reply(s, Failure(st, m))
    case Success(_) =>
      if active then
        UpdateAndCommit(s, id, map["is_active" := Bool(true)], now, "Investigación activada",
          "Error al activar investigación: ")
      else
        UpdateAndCommit(s, id, map["is_active" := Bool(false)], now, "Investigación inactivada",
          "Error al inactivar investigación: ")
  }

  /** After a successful (in)activation the research is found with the new
      state, and every other research is untouched. */
  lemma SetActiveTakesEffect(s: Store, username: string, id: string, active: bool, now: int)
    requires WellFormed(s) && SetActive(s, username, id, active, now).response.Success?
    ensures var t := SetActive(s, username, id, active, now).store.researches;
      Research.GetId(t, id).Some? && Field(Research.GetId(t, id).value, "is_active") == Bool(active)
      && forall j :: 0 <= j < |s.researches| && j != FirstWhere(s.researches, Research.ById(id)).value ==>
           t[j] == s.researches[j]
  {
    var t := SetActive(s, username, id, active, now).store.researches;
    var i := FirstWhere(s.researches, Research.ById(id)).value;
    assert "is_active" in Research.Schema.columns && "is_active" != "updated_at";
    assert "id" in Research.Schema.columns && "id" != "updated_at";
    assert Field(t[i], "id") == Field(s.researches[i], "id");
    forall j | 0 <= j < i ensures !Research.ById(id)(t[j]) {
      assert t[j] == s.researches[j];
    }
    FirstWhereAt(t, Research.ById(id), i);
  }

  /** A column the update map does not mention keeps its value in every row. */
  lemma UpdateKeepsUnmentioned(t: Table, id: string, upd: map<string, Value>, now: int, c: string)
    requires Conforms(t, Research.Schema) && Research.Update(t, id, upd, now).Ok?
    requires c != "updated_at" && c !in upd
    ensures var t' := Research.Update(t, id, upd, now).value;
      |t'| == |t| && forall j :: 0 <= j < |t| ==> Field(t'[j], c) == Field(t[j], c)
  {
    var i := FirstWhere(t, Research.ById(id)).value;
    var t' := Research.Update(t, id, upd, now).value;
    assert t'[i] == SetKnown(t[i], upd["updated_at" := Time(now)]);
  }

  /** `update` never renames a research: `name` is not a column, so the
      title it would set is silently dropped. */
  lemma UpdateKeepsTitle(t: Table, id: string, name: Option<string>, description: Option<string>,
                         methodology: Option<string>, criteria: Option<seq<string>>, isTest: Option<bool>, now: int)
    requires Conforms(t, Research.Schema)
    requires Research.Update(t, id, ResearchUpdate(name, description, methodology, criteria, isTest), now).Ok?
    ensures var t' := Research.Update(t, id, ResearchUpdate(name, description, methodology, criteria, isTest), now).value;
      |t'| == |t| && forall j :: 0 <= j < |t| ==> Field(t'[j], "title") == Field(t[j], "title")
  {
    var upd := ResearchUpdate(name, description, methodology, criteria, isTest);
    assert "title" !in upd by {
      assert "title"[0] == 't' && "name"[0] == 'n' && "description"[0] == 'd' && "methodology"[0] == 'm';
      assert "criteria_inclusion"[0] == 'c' && "is_test"[0] == 'i';
    }
    assert "title" != "updated_at";
    UpdateKeepsUnmentioned(t, id, upd, now, "title");
  }
}
