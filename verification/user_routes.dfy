/** The user endpoints: registration, login, profile and password updates,
    activation and deletion. The SHA-256 digest is a parameter `hash`. */
module UserRoutes {
  import opened Base
  import opened Values
  import opened Strings
  import opened Records
  import opened Store
  import Users = UsersModel

  const UserNotFound: string := "Usuario no encontrado."

  /** The user row the username selects, if any. */
  function Lookup(s: Store, u: string): Option<Row> {
    Users.GetUsername(s.users, u)
  }

  /** The row `register` builds from the form: only known columns, every
      NOT NULL column given, and the account active. */
  function NewUser(username: string, name: string, email: string, passwordHash: string,
                   role: string, institution: string): (r: map<string, Value>)
    ensures r.Keys <= Users.Schema.columns
    ensures Users.Schema.notNull <= r.Keys
    ensures r["username"] == Str(username) && r["password_hash"] == Str(passwordHash)
    ensures "is_active" in r && Truthy(r["is_active"])
  {
    map["username" := Str(username), "name" := Str(name), "email" := Str(email),
        "password_hash" := Str(passwordHash), "role" := Str(role), "is_active" := Bool(true),
        "institution" := Str(institution)]
  }

  /** `POST /register`. */
  function Register(s: Store, username: string, name: string, email: string, password: string,
                    role: string, institution: string, hash: string -> string, now: int): (r: Reply<Json>)
    ensures r.response.Failure? ==> r.store == s
    ensures Users.UsernameExists(s.users, username) <==> r.response == Failure(409, "El usuario ya existe.")
    ensures r.response.Success? ==> Consistent(r.store)
    ensures r.response.Success? ==> (
      var d := NewUser(username, name, email, hash(password), role, institution);
      |r.store.users| == |s.users| + 1 && r.store.users[..|s.users|] == s.users
      && r.store == s.(users := r.store.users)
      && forall k :: k in d ==> k in r.store.users[|s.users|] && r.store.users[|s.users|][k] == d[k])
  {
    if Users.UsernameExists(s.users, username) then Reply(s, Failure(409, "El usuario ya existe."))
    else
      match Users.Add(s.users, NewUser(username, name, email, hash(password), role, institution), now)
      case Raised(m) => Reply(s, Failure(400, "Error al crear usuario: " + m))
      case Ok(t) =>
        CommitOr(s, s.(users := t),
          JObj(map["message" := JStr("User registered successfully"), "username" := JStr(username),
                   "email" := JStr(email)]),
          "Error al crear usuario: ")
  }

  /** `POST /login`. */
  function Login(s: Store, username: string, password: string, hash: string -> string, now: int): (r: Reply<Json>)
    ensures r.response.Failure? ==> r.store == s
    ensures Lookup(s, username).None? ==> r.response == Failure(401, NoSuchUser)
    ensures Lookup(s, username).Some? && !IsActive(Lookup(s, username).value) ==>
      r.response == Failure(403, UserInactive)
    ensures (Lookup(s, username).Some? && IsActive(Lookup(s, username).value)
      && Field(Lookup(s, username).value, "password_hash") != Str(hash(password))) ==>
      r.response == Failure(401, "Acceso denegado: contraseña incorrecta.")
    ensures r.response.Success? ==> (
      Lookup(s, username).Some? && IsActive(Lookup(s, username).value)
      && Field(Lookup(s, username).value, "password_hash") == Str(hash(password))
      && var i := FirstWhere(s.users, Users.ByUsername(username)).value;
      r.store == s.(users := s.users[i := SetKnown(s.users[i], map["last_login" := Time(now)])]))
  {
    match Lookup(s, username)
    case None => Reply(s, Failure(401, NoSuchUser))
    case Some(user) =>
      if !IsActive(user) then Reply(s, Failure(403, UserInactive))
      else if Field(user, "password_hash") != Str(hash(password)) then
        Reply(s, Failure(401, "Acceso denegado: contraseña incorrecta."))
      else
        match Users.Update(s.users, username, map["last_login" := Time(now)])
        case Raised(m) => Reply(s, Failure(400, "Error en acceso: " + m))
        case Ok(t) =>
          CommitOr(s, s.(users := t),
            JObj(map["message" := JStr("Login successful"), "username" := JStr(username)]),
            "Error en acceso: ")
  }

  /** The `dict_update` of `PUT /update`: exactly the profile fields given
      with a non-blank value. */
  function ProfileUpdate(name: Option<string>, email: Option<string>, role: Option<string>,
                         institution: Option<string>): (d: map<string, Value>)
    ensures forall k :: k in d ==> k == "name" || k == "email" || k == "role" || k == "institution"
    ensures ("name" in d <==> Given(name)) && ("email" in d <==> Given(email))
    ensures ("role" in d <==> Given(role)) && ("institution" in d <==> Given(institution))
    ensures Given(name) ==> d["name"] == Str(name.value)
    ensures Given(email) ==> d["email"] == Str(email.value)
    ensures Given(role) ==> d["role"] == Str(role.value)
    ensures Given(institution) ==> d["institution"] == Str(institution.value)
  {
    var n, e, ro, i := "name", "email", "role", "institution";
    assert n[0] == 'n' && e[0] == 'e' && ro[0] == 'r' && i[0] == 'i';
    assert n != e && n != ro && n != i && e != ro && e != i && ro != i;
    var d1 := PutGiven(map[], n, name);
    var d2 := PutGiven(d1, e, email);
    var d3 := PutGiven(d2, ro, role);
    PutGiven(d3, i, institution)
  }

  /** The shared prologue of the update endpoints: 404 for a missing user,
      403 for an inactive one. */
  function ActiveUser(s: Store, username: string): (r: Outcome<Row>)
    ensures r.Ok? <==> Lookup(s, username).Some? && IsActive(Lookup(s, username).value)
    ensures r.Ok? ==> r.value == Lookup(s, username).value
  {
    match Lookup(s, username)
    case None => Raised(UserNotFound)
    case Some(user) => if IsActive(user) then Ok(user) else Raised(UserInactive)
  }

  /** Apply `upd` to the user and commit, answering with `msg`. */
  function UpdateAndCommit(s: Store, username: string, upd: map<string, Value>, msg: string, prefix: string): (r: Reply<Json>)
    ensures r.response.Failure? ==> r.store == s && r.response.status == 400
    ensures r.response.Success? ==> (
      Users.Update(s.users, username, upd).Ok?
      && r.store == s.(users := Users.Update(s.users, username, upd).value))
  {
    match Users.Update(s.users, username, upd)
    case Raised(m) => Reply(s, Failure(400, prefix + m))
    case Ok(t) =>
      CommitOr(s, s.(users := t), JObj(map["message" := JStr(msg), "username" := JStr(username)]), prefix)
  }

  /** `PUT /update`: only the given, non-blank fields change. */
  function UpdateUser(s: Store, username: string, name: Option<string>, email: Option<string>,
                      role: Option<string>, institution: Option<string>): (r: Reply<Json>)
    ensures r.response.Failure? ==> r.store == s
    ensures Lookup(s, username).None? ==> r.response == Failure(404, UserNotFound)
    ensures Lookup(s, username).Some? && !IsActive(Lookup(s, username).value) ==>
      r.response == Failure(403, UserInactive)
    ensures r.response.Success? ==> (
      var i := FirstWhere(s.users, Users.ByUsername(username)).value;
      var d := ProfileUpdate(name, email, role, institution);
      r.store == s.(users := s.users[i := SetKnown(s.users[i], d)]))
  {
    match ActiveUser(s, username)
    case Raised(m) => Reply(s, Failure(if m == UserNotFound then 404 else 403, m))
    case Ok(_) =>
      UpdateAndCommit(s, username, ProfileUpdate(name, email, role, institution),
        "Usuario actualizado", "Error al actualizar usuario: ")
  }

  /** `PUT /update-password`: the new digest replaces the old one; the current
      password is never asked for. */
  function UpdatePassword(s: Store, username: string, newPassword: string, hash: string -> string): (r: Reply<Json>)
    ensures r.response.Failure? ==> r.store == s
    ensures Lookup(s, username).None? ==> r.response == Failure(404, UserNotFound)
    ensures Lookup(s, username).Some? && !IsActive(Lookup(s, username).value) ==>
      r.response == Failure(403, UserInactive)
    ensures r.response.Success? ==> (
      var i := FirstWhere(s.users, Users.ByUsername(username)).value;
      r.store == s.(users := s.users[i := SetKnown(s.users[i], map["password_hash" := Str(hash(newPassword))])]))
  {
    match ActiveUser(s, username)
    case Raised(m) => Reply(s, Failure(if m == UserNotFound then 404 else 403, m))
    case Ok(_) =>
      UpdateAndCommit(s, username, map["password_hash" := Str(hash(newPassword))],
        "Contraseña actualizada", "Error al actualizar contraseña: ")
  }

  /** The nine attributes `get-user` reports. */
  const Profile: seq<string> :=
    ["username", "name", "email", "role", "is_active", "created_at", "updated_at", "last_login", "institution"]

  /** `POST /get-user`: read-only. */
  function GetUser(s: Store, username: string): (r: Reply<Json>)
    ensures r.store == s
    ensures r.response.Success? <==> Lookup(s, username).Some?
    ensures r.response.Failure? ==> r.response == Failure(404, UserNotFound)
    ensures r.response.Success? ==> (
      r.response.body.JObj?
      && forall k :: k in Profile ==> (
        k in r.response.body.fields && r.response.body.fields[k] == JVal(Field(Lookup(s, username).value, k))))
  {
    match Lookup(s, username)
    case None => Reply(s, Failure(404, UserNotFound))
    case Some(user) => Reply(s, Success(JObj(map k | k in Profile :: JVal(Field(user, k)))))
  }

  /** `POST /inactivate` and `POST /activate`: a missing user is 404; the
      user's `is_active` becomes `active` whether or not the user is active. */
  function SetActive(s: Store, username: string, active: bool): (r: Reply<Json>)
    ensures r.response.Failure? ==> r.store == s
    ensures Lookup(s, username).None? <==> r.response == Failure(404, UserNotFound)
    ensures r.response.Success? ==> (
      var i := FirstWhere(s.users, Users.ByUsername(username)).value;
      r.store == s.(users := s.users[i := SetKnown(s.users[i], map["is_active" := Bool(active)])]))
  {
    if Lookup(s, username).None? then Reply(s, Failure(404, UserNotFound))
    else if active then
      UpdateAndCommit(s, username, map["is_active" := Bool(true)], "Usuario activado", "Error al activar usuario: ")
    else
      UpdateAndCommit(s, username, map["is_active" := Bool(false)], "Usuario inactivado", "Error al inactivar usuario: ")
  }

  /** `DELETE /delete-user`. */
  function DeleteUser(s: Store, username: string, target: string): (r: Reply<Json>)
    ensures r.response.Failure? ==> r.store == s
    ensures Lookup(s, username).None? ==> r.response == Failure(404, "Usuario solicitante no encontrado.")
    ensures Lookup(s, username).Some? && !IsActive(Lookup(s, username).value) ==>
      r.response == Failure(403, UserInactive)
    ensures (Lookup(s, username).Some? && IsActive(Lookup(s, username).value)
      && Field(Lookup(s, username).value, "role") != Str("admin")) ==>
      r.response == Failure(403, "Solo un usuario admin puede eliminar usuarios.")
    ensures r.response.Success? ==> (
      Lookup(s, target).Some? && Field(Lookup(s, username).value, "role") == Str("admin")
      && r.store == s.(users := Users.Delete(s.users, target).value))
  {
    match Lookup(s, username)
    case None => Reply(s, Failure(404, "Usuario solicitante no encontrado."))
    case Some(user) =>
      if !IsActive(user) then Reply(s, Failure(403, UserInactive))
      else if Field(user, "role") != Str("admin") then
        Reply(s, Failure(403, "Solo un usuario admin puede eliminar usuarios."))
      else if Lookup(s, target).None? then Reply(s, Failure(404, "Usuario a eliminar no encontrado."))
      else
        match Users.Delete(s.users, target)
        case Raised(m) => Reply(s, Failure(400, "Error al eliminar usuario: " + m))
        case Ok(t) =>
          CommitOr(s, s.(users := t),
            JObj(map["message" := JStr("Usuario eliminado"), "username_deleted" := JStr(target)]),
            "Error al eliminar usuario: ")
  }

  // ---------------------------------------------------------------------------
  // Properties across requests
  // ---------------------------------------------------------------------------

  /** Stamping `last_login` touches no constrained column, so a consistent
      store stays consistent. */
  lemma LastLoginKeepsConsistent(s: Store, username: string, now: int)
    requires Consistent(s) && Users.UsernameExists(s.users, username)
    ensures Users.Update(s.users, username, map["last_login" := Time(now)]).Ok?
    ensures Consistent(s.(users := Users.Update(s.users, username, map["last_login" := Time(now)]).value))
  {
    UpdateKeepsAdmissible(s.users, Users.ByUsername(username), map["last_login" := Time(now)],
      "Error updating User", Users.Schema);
  }

  /** An existing, active user with the right password logs in on a
      consistent store. */
  lemma LoginSucceeds(s: Store, username: string, password: string, hash: string -> string, now: int)
    requires Consistent(s) && Lookup(s, username).Some? && IsActive(Lookup(s, username).value)
    requires Field(Lookup(s, username).value, "password_hash") == Str(hash(password))
    ensures Login(s, username, password, hash, now).response.Success?
  {
    LastLoginKeepsConsistent(s, username, now);
  }

  /** The row `register` appended is the one a later lookup finds. */
  lemma RegisteredUserFound(s: Store, s': Store, username: string, d: map<string, Value>)
    requires !Users.UsernameExists(s.users, username)
    requires |s'.users| == |s.users| + 1 && s'.users[..|s.users|] == s.users
    requires "username" in d && d["username"] == Str(username)
    requires forall k :: k in d ==> k in s'.users[|s.users|] && s'.users[|s.users|][k] == d[k]
    ensures Lookup(s', username) == Some(s'.users[|s.users|])
  {
    forall j | 0 <= j < |s.users| ensures !Users.ByUsername(username)(s'.users[j]) {
      assert s'.users[j] == s.users[j];
    }
    FirstWhereAt(s'.users, Users.ByUsername(username), |s.users|);
  }

  /** A freshly registered user can log in with the password given at
      registration: the stored digest is the digest of that password. */
  lemma RegisterThenLogin(s: Store, username: string, name: string, email: string, password: string,
                          role: string, institution: string, hash: string -> string, now: int, later: int)
    requires Register(s, username, name, email, password, role, institution, hash, now).response.Success?
    ensures Login(Register(s, username, name, email, password, role, institution, hash, now).store,
                  username, password, hash, later).response.Success?
  {
    var s' := Register(s, username, name, email, password, role, institution, hash, now).store;
    var d := NewUser(username, name, email, hash(password), role, institution);
    NewUserFields(username, name, email, hash(password), role, institution);
    RegisteredUserFound(s, s', username, d);
    var row := s'.users[|s.users|];
    assert row["is_active"] == Bool(true) && row["password_hash"] == Str(hash(password));
    LoginSucceeds(s', username, password, hash, later);
  }

  /** The new user's row carries its name, its digest and an active flag. */
  lemma NewUserFields(username: string, name: string, email: string, passwordHash: string,
                      role: string, institution: string)
    ensures var d := NewUser(username, name, email, passwordHash, role, institution);
      "username" in d && d["username"] == Str(username)
      && "is_active" in d && d["is_active"] == Bool(true)
      && "password_hash" in d && d["password_hash"] == Str(passwordHash)
  {
  }

  /** A successfully registered password is the only one accepted when the
      digest tells passwords apart. */
  lemma LoginRejectsOtherPassword(s: Store, username: string, password: string, hash: string -> string, now: int)
    requires Lookup(s, username).Some? && IsActive(Lookup(s, username).value)
    requires Field(Lookup(s, username).value, "password_hash") != Str(hash(password))
    ensures Login(s, username, password, hash, now) == Reply(s, Failure(401, "Acceso denegado: contraseña incorrecta."))
  {
  }

  /** Once inactivated, a user is refused at login before the password is
      even compared. */
  lemma InactivatedUserCannotLogin(s: Store, username: string, password: string, hash: string -> string, now: int)
    requires SetActive(s, username, false).response.Success?
    ensures Login(SetActive(s, username, false).store, username, password, hash, now).response
      == Failure(403, UserInactive)
  {
    var p := Users.ByUsername(username);
    var i := FirstWhere(s.users, p).value;
    var s' := SetActive(s, username, false).store;
    forall j | 0 <= j < i ensures !p(s'.users[j]) {
      assert s'.users[j] == s.users[j];
    }
    SetKnownKeepsOthers(s.users[i], "is_active", Bool(false), "username");
    FirstWhereAt(s'.users, p, i);
    assert Field(s'.users[i], "is_active") in {Null, Bool(false)};
  }

  /** Setting one known attribute leaves another attribute as it was. */
  lemma SetKnownKeepsOthers(row: Row, col: string, v: Value, other: string)
    requires other != col
    ensures Field(SetKnown(row, map[col := v]), other) == Field(row, other)
    ensures Field(SetKnown(row, map[col := v]), col) == if col in row then v else Null
  {
  }

  /** A request with no usable profile field leaves a consistent store as it was. */
  lemma BlankUpdateChangesNothing(s: Store, username: string)
    requires Consistent(s) && Lookup(s, username).Some? && IsActive(Lookup(s, username).value)
    ensures UpdateUser(s, username, None, None, None, None) ==
      Reply(s, Success(JObj(map["message" := JStr("Usuario actualizado"), "username" := JStr(username)])))
  {
    var i := FirstWhere(s.users, Users.ByUsername(username)).value;
    assert ProfileUpdate(None, None, None, None) == map[];
    assert SetKnown(s.users[i], map[]) == s.users[i];
    assert s.users[i := s.users[i]] == s.users;
  }

  /** Deleting a user, with usernames unique, removes exactly that user. */
  lemma DeleteUserRemovesOnlyTarget(s: Store, username: string, target: string)
    requires Consistent(s) && DeleteUser(s, username, target).response.Success?
    ensures !Users.UsernameExists(DeleteUser(s, username, target).store.users, target)
    ensures multiset(DeleteUser(s, username, target).store.users) + multiset{Lookup(s, target).value}
      == multiset(s.users)
  {
    Users.DeleteRemovesOnlyUser(s.users, target);
  }
}
