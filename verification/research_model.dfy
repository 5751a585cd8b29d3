/** The `Research` class: a systematic review with its inclusion criteria,
    owned by a user. Criteria are stored as one string joined with `|&|`. */
module ResearchModel {
  import opened Base
  import opened Values
  import opened Strings
  import opened Records

  const Schema: Records.Schema := Records.Schema(
    "Research",
    {"id", "title", "type_research", "methodology", "criteria_inclusion", "created_at",
     "updated_at", "is_active", "is_test", "step", "researcherOwnerId"},
    ["id"],
    {"title"},
    {"id", "title", "type_research"},
    map["is_active" := Bool(true), "is_test" := Bool(false)],
    {"created_at", "updated_at"})

  /** Separator between stored inclusion criteria. */
  const CriteriaSep: string := "|&|"

  function ById(id: string): Row -> bool {
    ColEq("id", Str(id))
  }

  function OwnedBy(owner: Value): Row -> bool {
    ColEq("researcherOwnerId", owner)
  }

  /** `get_id`. */
  function GetId(t: Table, id: string): (r: Option<Row>)
    ensures r.Some? ==> r.value in t && Field(r.value, "id") == Str(id)
    ensures r.None? ==> forall i :: 0 <= i < |t| ==> Field(t[i], "id") != Str(id)
  {
    GetWhere(t, ById(id))
  }

  /** `add(dict_new)`: keys that are not columns (such as `name`) make it raise. */
  function Add(t: Table, dict: map<string, Value>, now: int): (r: Outcome<Table>)
    ensures r.Raised? <==> exists k :: k in dict && k !in Schema.columns
    ensures r.Raised? ==> r.msg == "Error adding Research"
    ensures r.Ok? ==> |r.value| == |t| + 1 && r.value[..|t|] == t
    ensures r.Ok? ==> r.value[|t|].Keys == Schema.columns
    ensures r.Ok? ==> forall k :: k in dict ==> k in r.value[|t|] && r.value[|t|][k] == dict[k]
  {
    Insert(t, Schema, dict, now)
  }

  /** `generate_unique_id()`: the first drawn identifier no research has. */
  method GenerateUniqueId(t: Table, draws: seq<string>) returns (id: string)
    requires exists n :: 0 <= n < |draws| && GetId(t, draws[n]).None?
    ensures GetId(t, id).None?
    ensures id in draws
  {
    id := Records.GenerateUniqueId(t, "id", draws);
  }

  /** `title_exists(title)`: some research has exactly this title. */
  function TitleExists(t: Table, title: string): (b: bool)
    ensures b <==> exists i :: 0 <= i < |t| && Field(t[i], "title") == Str(title)
  {
    ExistsWhere(t, ColEq("title", Str(title)))
  }

  /** `update(id, dict_update)`: the research's known attributes take the
      given values and `updated_at` becomes the current time; keys that are
      not columns (`name`, `description`, ...) are ignored. */
  function Update(t: Table, id: string, upd: map<string, Value>, now: int): (r: Outcome<Table>)
    requires Conforms(t, Schema)
    ensures r.Raised? <==> GetId(t, id).None?
    ensures r.Raised? ==> r.msg == "Error updating Research"
    ensures r.Ok? ==> (
      var i := FirstWhere(t, ById(id)).value;
      |r.value| == |t|
      && Field(r.value[i], "updated_at") == Time(now)
      && (forall c :: c in Schema.columns && c != "updated_at" ==>
            Field(r.value[i], c) == (if c in upd then upd[c] else Field(t[i], c)))
      && r.value[i].Keys == Schema.columns
      && forall j :: 0 <= j < |t| && j != i ==> r.value[j] == t[j])
  {
    UpdateWhere(t, ById(id), upd["updated_at" := Time(now)], "Error updating Research")
  }

  /** Updating with `name` or `description` has the same effect as without them. */
  lemma UpdateIgnoresNameAndDescription(t: Table, id: string, upd: map<string, Value>, now: int)
    requires Conforms(t, Schema)
    ensures Update(t, id, upd - {"name", "description"}, now) == Update(t, id, upd, now)
  {
    match FirstWhere(t, ById(id))
    case None =>
    case Some(i) =>
      var drop := {"name", "description"};
      assert "name" !in Schema.columns && "description" !in Schema.columns;
      assert t[i].Keys == Schema.columns;
      var u := upd["updated_at" := Time(now)];
      assert (upd - drop)["updated_at" := Time(now)] == u - drop;
      SetKnownDropsUnknown(t[i], u, drop);
  }

  // ---------------------------------------------------------------------------
  // Views grouped by owner
  // ---------------------------------------------------------------------------

  /** Stored criteria as a list: split on `|&|` when set, `[]` when empty or NULL. */
  function CriteriaList(v: Value): (cs: seq<string>)
    ensures !Truthy(v) ==> cs == []
    ensures v.Str? && v.s != "" ==> Join(cs, CriteriaSep) == v.s
  {
    match v
    case Str(s) =>
      if s == "" then [] else JoinSplit(s, CriteriaSep); Split(s, CriteriaSep)
    case _ => []
  }

  /** The dictionary `get_by_owner` and `get_all` build for one research. */
  datatype ResearchView = ResearchView(
    id: Value, title: Value, typeResearch: Value, methodology: Value, criteria: seq<string>,
    createdAt: Value, updatedAt: Value, isActive: Value, isTest: Value, step: Value)

  function View(row: Row): ResearchView {
    ResearchView(Field(row, "id"), Field(row, "title"), Field(row, "type_research"),
      Field(row, "methodology"), CriteriaList(Field(row, "criteria_inclusion")),
      Field(row, "created_at"), Field(row, "updated_at"), Field(row, "is_active"),
      Field(row, "is_test"), Field(row, "step"))
  }

  function Views(rows: Table): (vs: seq<ResearchView>)
    ensures |vs| == |rows|
    ensures forall i :: 0 <= i < |rows| ==> vs[i] == View(rows[i])
  {
    seq(|rows|, i requires 0 <= i < |rows| => View(rows[i]))
  }

  /** A dictionary from owner to that owner's researches, in insertion order. */
  type Groups = seq<(Value, seq<ResearchView>)>

  /** Position of `owner` among the keys of `g`. */
  function GroupIndex(g: Groups, owner: Value): (r: Option<nat>)
    ensures r.Some? ==> r.value < |g| && g[r.value].0 == owner
    ensures r.None? ==> forall i :: 0 <= i < |g| ==> g[i].0 != owner
  {
    if |g| == 0 then None
    else if g[|g| - 1].0 == owner then Some(|g| - 1)
    else GroupIndex(g[..|g| - 1], owner)
  }

  /** One step of the grouping loop: open the owner's list if absent, then append. */
  function AddToGroup(g: Groups, owner: Value, v: ResearchView): Groups {
    match GroupIndex(g, owner)
    case None => g + [(owner, [v])]
    case Some(i) => g[i := (owner, g[i].1 + [v])]
  }

  /** The grouping loop of `get_all` over the rows in table order. */
  function GroupByOwner(t: Table): Groups
    decreases |t|
  {
    if |t| == 0 then []
    else AddToGroup(GroupByOwner(t[..|t| - 1]), Owner(t[|t| - 1]), View(t[|t| - 1]))
  }

  /** The keys of `g` are distinct. */
  ghost predicate DistinctKeys(g: Groups) {
    forall i, j :: 0 <= i < j < |g| ==> g[i].0 != g[j].0
  }

  /** The keys of `g` are exactly the owners that have a research in `t`. */
  ghost predicate KeysAreOwners(g: Groups, t: Table) {
    forall o :: (exists i :: 0 <= i < |g| && g[i].0 == o) <==> ExistsWhere(t, OwnedBy(o))
  }

  /** Each group lists its owner's researches in table order. */
  ghost predicate GroupsListRows(g: Groups, t: Table) {
    forall i :: 0 <= i < |g| ==> g[i].1 == Views(AllWhere(t, OwnedBy(g[i].0)))
  }

  /** `g` is `t` grouped by owner. */
  ghost predicate GroupsOf(g: Groups, t: Table) {
    DistinctKeys(g) && KeysAreOwners(g, t) && GroupsListRows(g, t)
  }

  lemma ViewsSnoc(rows: Table, row: Row)
    ensures Views(rows + [row]) == Views(rows) + [View(row)]
  {
  }

  /** Filtering after appending one row. */
  lemma AllWhereSnoc(t: Table, last: Row, p: Row -> bool)
    ensures AllWhere(t + [last], p) == AllWhere(t, p) + (if p(last) then [last] else [])
  {
    AllWhereAppend(t, [last], p);
    assert [last][1..] == [];
  }

  /** Some row matches after appending one row iff some row matched before or the new one does. */
  lemma ExistsWhereSnoc(t: Table, last: Row, p: Row -> bool)
    ensures ExistsWhere(t + [last], p) <==> ExistsWhere(t, p) || p(last)
  {
    var t' := t + [last];
    if ExistsWhere(t, p) {
      var i :| 0 <= i < |t| && p(t[i]);
      assert t'[i] == t[i];
    }
    if ExistsWhere(t', p) && !p(last) {
      var i :| 0 <= i < |t'| && p(t'[i]);
      assert i < |t| && t'[i] == t[i];
    }
    if p(last) {
      assert t'[|t|] == last;
    }
  }

  /** The owner of a row, the key it is grouped under. */
  function Owner(row: Row): Value {
    Field(row, "researcherOwnerId")
  }

  /** The grouping step keeps the keys distinct. */
  lemma AddKeepsDistinct(g: Groups, row: Row)
    requires DistinctKeys(g)
    ensures DistinctKeys(AddToGroup(g, Owner(row), View(row)))
  {
  }

  /** After the grouping step the keys are the owners of the extended table. */
  lemma AddKeepsOwners(g: Groups, t: Table, row: Row)
    requires KeysAreOwners(g, t)
    ensures KeysAreOwners(AddToGroup(g, Owner(row), View(row)), t + [row])
  {
    var g2 := AddToGroup(g, Owner(row), View(row));
    forall q ensures (exists i :: 0 <= i < |g2| && g2[i].0 == q) <==> ExistsWhere(t + [row], OwnedBy(q)) {
      ExistsWhereSnoc(t, row, OwnedBy(q));
      if exists i :: 0 <= i < |g| && g[i].0 == q {
        var i :| 0 <= i < |g| && g[i].0 == q;
        assert g2[i].0 == q;
      }
      if q == Owner(row) {
        var k := GroupIndex(g2, q);
      }
      if exists i :: 0 <= i < |g2| && g2[i].0 == q {
        var i :| 0 <= i < |g2| && g2[i].0 == q;
        assert i < |g| ==> g[i].0 == q;
      }
    }
  }

  /** A group of another owner is untouched by the step and by the new row. */
  lemma AddOtherGroup(g: Groups, t: Table, row: Row, i: nat)
    requires GroupsListRows(g, t)
    requires i < |g| && g[i].0 != Owner(row)
    ensures i < |AddToGroup(g, Owner(row), View(row))|
    ensures AddToGroup(g, Owner(row), View(row))[i] == g[i]
    ensures g[i].1 == Views(AllWhere(t + [row], OwnedBy(g[i].0)))
  {
    AllWhereSnoc(t, row, OwnedBy(g[i].0));
  }

  /** A row with a new owner opens a group holding just its view. */
  lemma AddNewGroup(g: Groups, t: Table, row: Row)
    requires !ExistsWhere(t, OwnedBy(Owner(row)))
    requires GroupIndex(g, Owner(row)).None?
    ensures AddToGroup(g, Owner(row), View(row)) == g + [(Owner(row), Views(AllWhere(t + [row], OwnedBy(Owner(row)))))]
  {
    var o := Owner(row);
    AllWhereNone(t, OwnedBy(o));
    AllWhereSnoc(t, row, OwnedBy(o));
    assert AllWhere(t + [row], OwnedBy(o)) == [row];
    assert Views([row]) == [View(row)];
  }

  /** A row with a known owner extends that owner's group by its view. */
  lemma AddKnownGroup(g: Groups, t: Table, row: Row, k: nat)
    requires GroupsListRows(g, t)
    requires GroupIndex(g, Owner(row)) == Some(k)
    ensures AddToGroup(g, Owner(row), View(row)) == g[k := (Owner(row), Views(AllWhere(t + [row], OwnedBy(Owner(row)))))]
  {
    var o := Owner(row);
    AllWhereSnoc(t, row, OwnedBy(o));
    ViewsSnoc(AllWhere(t, OwnedBy(o)), row);
  }

  /** The new row's group lists the owner's rows, ending with the new row. */
  lemma AddOwnGroup(g: Groups, t: Table, row: Row)
    requires DistinctKeys(g) && KeysAreOwners(g, t) && GroupsListRows(g, t)
    ensures var g2 := AddToGroup(g, Owner(row), View(row));
      forall i :: 0 <= i < |g2| && g2[i].0 == Owner(row) ==>
        g2[i].1 == Views(AllWhere(t + [row], OwnedBy(Owner(row))))
  {
    match GroupIndex(g, Owner(row))
    case None =>
      assert !exists i :: 0 <= i < |g| && g[i].0 == Owner(row);
      AddNewGroup(g, t, row);
    case Some(k) => AddKnownGroup(g, t, row, k);
  }

  /** After the grouping step each group lists its owner's rows of the extended table. */
  lemma AddKeepsRows(g: Groups, t: Table, row: Row)
    requires DistinctKeys(g) && KeysAreOwners(g, t) && GroupsListRows(g, t)
    ensures GroupsListRows(AddToGroup(g, Owner(row), View(row)), t + [row])
  {
    var g2 := AddToGroup(g, Owner(row), View(row));
    AddOwnGroup(g, t, row);
    forall i | 0 <= i < |g2| && g2[i].0 != Owner(row)
      ensures g2[i].1 == Views(AllWhere(t + [row], OwnedBy(g2[i].0)))
    {
      AddOtherGroup(g, t, row, i);
    }
  }

  /** The grouping loop of `get_all` groups every research under its owner. */
  lemma {:induction false} GroupByOwnerSpec(t: Table)
    ensures GroupsOf(GroupByOwner(t), t)
    decreases |t|
  {
    if |t| > 0 {
      var t' := t[..|t| - 1];
      var last := t[|t| - 1];
      assert t == t' + [last];
      GroupByOwnerSpec(t');
      AddKeepsDistinct(GroupByOwner(t'), last);
      AddKeepsOwners(GroupByOwner(t'), t', last);
      AddKeepsRows(GroupByOwner(t'), t', last);
    }
  }

  /** `get_all()`: `None` for an empty table, else the researches grouped by owner. */
  function GetAll(t: Table): (r: Option<Groups>)
    ensures r.None? <==> |t| == 0
  {
    if |t| == 0 then None else Some(GroupByOwner(t))
  }

  /** `get_by_owner(u)`: `{}` when `u` owns nothing, else `{u: [u's researches]}`. */
  function GetByOwner(t: Table, u: string): (g: Groups)
    ensures |g| <= 1
    ensures g == [] <==> !ExistsWhere(t, OwnedBy(Str(u)))
    ensures g != [] ==> g[0] == (Str(u), Views(AllWhere(t, OwnedBy(Str(u)))))
  {
    var rows := AllWhere(t, OwnedBy(Str(u)));
    AllWhereEmptyIff(t, OwnedBy(Str(u)));
    if |rows| == 0 then [] else [(Str(u), Views(rows))]
  }

  /** An owner's grouping is exactly that owner's group in `get_all`. */
  lemma GetByOwnerAgreesWithGetAll(t: Table, u: string)
    ensures GetByOwner(t, u) == []
      || (GetAll(t).Some? && GetByOwner(t, u)[0] in GetAll(t).value)
    ensures GetByOwner(t, u) == [] ==>
      GetAll(t).None? || forall i :: 0 <= i < |GetAll(t).value| ==> GetAll(t).value[i].0 != Str(u)
  {
    GroupByOwnerSpec(t);
    var g := GroupByOwner(t);
    if ExistsWhere(t, OwnedBy(Str(u))) {
      var i :| 0 <= i < |g| && g[i].0 == Str(u);
      assert g[i] == GetByOwner(t, u)[0];
    } else if |t| > 0 {
      assert !exists i :: 0 <= i < |g| && g[i].0 == Str(u);
    }
  }

  // ---------------------------------------------------------------------------
  // Criteria round trip
  // ---------------------------------------------------------------------------

  /** Storing a list of criteria with `"|&|".join` and reading it back with
      `split("|&|")` gives the list back, when every criterion is separable
      from the separator that follows it (no `|&|` inside it, and no `|&` at
      its end) and the list is not a single empty criterion. */
  lemma CriteriaRoundTrip(cs: seq<string>)
    requires |cs| >= 1 && Join(cs, CriteriaSep) != ""
    requires forall i :: 0 <= i < |cs| ==> SeparableBy(cs[i], CriteriaSep)
    ensures CriteriaList(Str(Join(cs, CriteriaSep))) == cs
  {
    SplitJoin(cs, CriteriaSep);
  }

  /** A criterion that ends in `|&` runs into the separator: the stored list
      reads back differently. */
  lemma CriteriaEndingInBarAmpersand()
    ensures Join(["a|&", "y"], CriteriaSep) == "a|&|&|y"
    ensures CriteriaList(Str("a|&|&|y")) == ["a", "&|y"]
  {
    var s := "a|&|&|y";
    assert s[1..4] == CriteriaSep;
    assert s[0..3][0] == 'a';
    FindFirst(s, CriteriaSep, 1);
    var rest := s[4..];
    assert rest == "&|y";
    assert rest[0..3][0] == '&';
    FindNoneIffAbsent(rest, CriteriaSep);
    assert !Contains(rest, CriteriaSep) by {
      forall i: nat | i <= |rest| ensures !OccursAt(rest, CriteriaSep, i) {
        if i >= 1 {
          assert i + |CriteriaSep| > |rest|;
        }
      }
    }
    assert Split(rest, CriteriaSep) == [rest];
    assert s[..1] == "a";
    assert Split(s, CriteriaSep) == [s[..1]] + Split(rest, CriteriaSep);
    assert ["a|&", "y"][1..] == ["y"];
  }
}
