/** The `Users` class: accounts keyed by username. */
module UsersModel {
  import opened Base
  import opened Values
  import opened Records

  const Schema: Records.Schema := Records.Schema(
    "User",
    {"username", "name", "email", "password_hash", "role", "is_active", "created_at",
     "updated_at", "last_login", "institution"},
    ["username"],
    {"email"},
    {"username", "name", "email", "password_hash"},
    map["role" := Str("user"), "is_active" := Bool(true)],
    {"created_at", "updated_at"})

  function ByUsername(u: string): Row -> bool {
    ColEq("username", Str(u))
  }

  /** `get_username(u)`: the user with this username, if any. */
  function GetUsername(t: Table, u: string): (r: Option<Row>)
    ensures r.Some? ==> r.value in t && Field(r.value, "username") == Str(u)
    ensures r.None? ==> forall i :: 0 <= i < |t| ==> Field(t[i], "username") != Str(u)
  {
    GetWhere(t, ByUsername(u))
  }

  /** `username_exists(u)` holds exactly when `get_username(u)` finds a user. */
  function UsernameExists(t: Table, u: string): (b: bool)
    ensures b <==> GetUsername(t, u).Some?
  {
    ExistsWhere(t, ByUsername(u))
  }

  /** `add(dict_new)`. */
  function Add(t: Table, dict: map<string, Value>, now: int): (r: Outcome<Table>)
    ensures r.Raised? <==> exists k :: k in dict && k !in Schema.columns
    ensures r.Raised? ==> r.msg == "Error adding User"
    ensures r.Ok? ==> |r.value| == |t| + 1 && r.value[..|t|] == t
    ensures r.Ok? ==> r.value[|t|].Keys == Schema.columns
    ensures r.Ok? ==> forall k :: k in dict ==> k in r.value[|t|] && r.value[|t|][k] == dict[k]
  {
    Insert(t, Schema, dict, now)
  }

  /** `update(u, dict_update)`: a missing user raises; otherwise the known
      attributes take the given values and the rest of the table is kept. */
  function Update(t: Table, u: string, upd: map<string, Value>): (r: Outcome<Table>)
    ensures r.Raised? <==> !UsernameExists(t, u)
    ensures r.Raised? ==> r.msg == "Error updating User"
    ensures r.Ok? ==> (
      var i := FirstWhere(t, ByUsername(u)).value;
      |r.value| == |t| && r.value[i] == SetKnown(t[i], upd)
      && forall j :: 0 <= j < |t| && j != i ==> r.value[j] == t[j])
  {
    UpdateWhere(t, ByUsername(u), upd, "Error updating User")
  }

  /** `deactivate(u)`: the user's `is_active` becomes false and nothing else changes. */
  function Deactivate(t: Table, u: string): (r: Outcome<Table>)
    requires Conforms(t, Schema)
    ensures r.Raised? <==> !UsernameExists(t, u)
    ensures r.Raised? ==> r.msg == "Error deactivating User"
    ensures r.Ok? ==> (
      var i := FirstWhere(t, ByUsername(u)).value;
      |r.value| == |t| && r.value[i] == t[i]["is_active" := Bool(false)]
      && forall j :: 0 <= j < |t| && j != i ==> r.value[j] == t[j])
  {
    Records.Deactivate(t, ByUsername(u), "Error deactivating User")
  }

  /** `delete(u)`: a missing user raises; otherwise the user's row is removed. */
  function Delete(t: Table, u: string): (r: Outcome<Table>)
    ensures r.Raised? <==> !UsernameExists(t, u)
    ensures r.Raised? ==> r.msg == "Error deleting User"
    ensures r.Ok? ==> |r.value| == |t| - 1
  {
    DeleteWhere(t, ByUsername(u), "Error deleting User")
  }

  /** With usernames unique, deleting a user removes exactly that user: the
      username is gone and every other row is kept. */
  lemma DeleteRemovesOnlyUser(t: Table, u: string)
    requires Admissible(t, Schema) && UsernameExists(t, u)
    ensures !UsernameExists(Delete(t, u).value, u)
    ensures multiset(Delete(t, u).value) + multiset{GetUsername(t, u).value} == multiset(t)
  {
    var i := FirstWhere(t, ByUsername(u)).value;
    var r := Delete(t, u).value;
    DeleteKeepsOthers(t, ByUsername(u), "Error deleting User");
    forall j | 0 <= j < |r| ensures Field(r[j], "username") != Str(u) {
      if j < i {
        assert r[j] == t[j];
      } else {
        assert r[j] == t[j + 1];
        assert !SameKey(t[i], t[j + 1], Schema.key);
      }
    }
  }

  /** `generate_unique_username()`: the first drawn identifier no user has. */
  method GenerateUniqueUsername(t: Table, draws: seq<string>) returns (u: string)
    requires exists n :: 0 <= n < |draws| && !UsernameExists(t, draws[n])
    ensures !UsernameExists(t, u)
    ensures u in draws
  {
    u := GenerateUniqueId(t, "username", draws);
  }

  /** `get_users()`: `None` for an empty table, else a map from every
      username to a name held by a user with that username. */
  function GetUsers(t: Table): (r: Option<map<Value, Value>>)
    ensures r.None? <==> |t| == 0
    ensures r.Some? ==> forall k :: k in r.value <==> exists i :: 0 <= i < |t| && Field(t[i], "username") == k
  {
    if |t| == 0 then None else Some(ColumnMap(t, "username", "name"))
  }

  /** With usernames unique, every user's entry in `get_users` is that user's name. */
  lemma GetUsersNames(t: Table, i: nat)
    requires Admissible(t, Schema) && i < |t|
    ensures GetUsers(t).Some? && GetUsers(t).value[Field(t[i], "username")] == Field(t[i], "name")
  {
    assert forall a, b :: 0 <= a < b < |t| ==> Field(t[a], "username") != Field(t[b], "username") by {
      forall a, b | 0 <= a < b < |t| ensures Field(t[a], "username") != Field(t[b], "username") {
        assert !SameKey(t[a], t[b], Schema.key);
      }
    }
    ColumnMapDistinct(t, "username", "name", i);
  }
}
