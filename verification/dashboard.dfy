/** The research dashboard of the browser's `dashboard.js`: who may open it,
    how the `/research/get-research` answer becomes the research list, the
    list and detail views, and the status toggle. */
module Dashboard {
  import opened Base
  import opened Strings
  import opened JsValues
  import V = Values
  import R = Records
  import Store
  import Research = ResearchModel
  import Routes = ResearchRoutes
  import Api = ApiClient

  // ---------------------------------------------------------------------------
  // Opening the page
  // ---------------------------------------------------------------------------

  /** What `init()` does: send the visitor to `/login`, or start the page
      for a user. */
  datatype Launch = ToLogin | Started(user: string)

  /** `init()`: `!username` sends the visitor away, so a missing user and an
      empty user name both lead to `/login`. */
  function Init(st: Storage): (r: Launch)
    ensures r.ToLogin? <==> Api.GetCurrentUser(st) == None || Api.GetCurrentUser(st) == Some("")
    ensures r.Started? ==> Api.GetCurrentUser(st) == Some(r.user) && r.user != ""
  {
    match Api.GetCurrentUser(st)
    case None => ToLogin
    case Some(u) => if u == "" then ToLogin else Started(u)
  }

  /** A login that stores a non-empty user name opens the dashboard for that
      user; after logout the dashboard sends the visitor back to `/login`. */
  lemma LoginOpensDashboard(s: Api.Session, username: string, body: map<string, V.Json>)
    requires "username" in body && body["username"] == V.JStr(username) && username != ""
    ensures Init(Api.Login(s, Ok(V.JObj(body))).0.storage) == Started(username)
    ensures Init(Api.Logout(Api.Login(s, Ok(V.JObj(body))).0).0.storage) == ToLogin
  {
    Api.LoginThenLogout(s, username, body);
  }

  // ---------------------------------------------------------------------------
  // loadResearches: the answer's `researches` field as a list
  // ---------------------------------------------------------------------------

  /** One value of the `researches` dictionary. */
  datatype Entry<T> = Array(items: seq<T>) | NotArray

  /** The `researches` field of the answer, as the browser sees it: a falsy
      value (`null`, missing, ...), a plain object's values in enumeration
      order, an array, or some other truthy value. */
  datatype Payload<T> = Falsy | Dict(values: seq<Entry<T>>) | Arr(items: seq<T>) | Scalar

  /** The arrays among the dictionary's values, concatenated in order. */
  function Concat<T>(vs: seq<Entry<T>>): (rs: seq<T>)
    ensures forall i :: 0 <= i < |vs| && vs[i].Array? ==> |vs[i].items| <= |rs|
  {
    if |vs| == 0 then []
    else (if vs[0].Array? then vs[0].items else []) + Concat(vs[1..])
  }

  /** An element is listed exactly when one of the arrays holds it. */
  lemma {:induction false} InConcat<T>(vs: seq<Entry<T>>, x: T)
    ensures x in Concat(vs) <==> exists i :: 0 <= i < |vs| && vs[i].Array? && x in vs[i].items
  {
    if |vs| > 0 {
      InConcat(vs[1..], x);
      if x in Concat(vs[1..]) {
        var i :| 0 <= i < |vs[1..]| && vs[1..][i].Array? && x in vs[1..][i].items;
        assert vs[i + 1] == vs[1..][i];
      }
      if exists i :: 0 <= i < |vs| && vs[i].Array? && x in vs[i].items {
        var i :| 0 <= i < |vs| && vs[i].Array? && x in vs[i].items;
        if i > 0 {
          assert vs[1..][i - 1] == vs[i];
        }
      }
    }
  }

  /** `currentResearches` after `loadResearches`: `researches || {}`; a
      dictionary contributes its array values in order and skips the rest,
      an array is taken as it is, anything else gives no research. */
  function Flatten<T>(p: Payload<T>): (rs: seq<T>)
    ensures p.Arr? ==> rs == p.items
    ensures p.Falsy? || p.Scalar? ==> rs == []
    ensures p.Dict? && (forall i :: 0 <= i < |p.values| ==> p.values[i].NotArray?) ==> rs == []
  {
    match p
    case Falsy => Concat([])
    case Dict(vs) => NoArraysConcat(vs); Concat(vs)
    case Arr(items) => items
    case Scalar => []
  }

  /** With no array among the values nothing is listed. */
  lemma {:induction false} NoArraysConcat<T>(vs: seq<Entry<T>>)
    ensures (forall i :: 0 <= i < |vs| ==> vs[i].NotArray?) ==> Concat(vs) == []
  {
    if |vs| > 0 {
      assert forall i :: 0 <= i < |vs[1..]| ==> vs[1..][i] == vs[i + 1];
      NoArraysConcat(vs[1..]);
    }
  }

  /** How the server's grouping arrives in the browser: `None` as `null`,
      each group as an array under its owner's key. */
  function FromServer(body: Option<Research.Groups>): (p: Payload<Research.ResearchView>)
    ensures body.None? <==> p.Falsy?
    ensures body.Some? ==>
      (p.Dict? && |p.values| == |body.value|
       && forall i :: 0 <= i < |body.value| ==> p.values[i] == Array(body.value[i].1))
  {
    match body
    case None => Falsy
    case Some(g) => Dict(seq(|g|, i requires 0 <= i < |g| => Array(g[i].1)))
  }

  /** A user who is not an administrator sees exactly their own researches,
      in table order. */
  lemma NonAdminListsOwnResearches(s: Store.Store, username: string)
    requires Routes.GetResearch(s, username).response.Success?
    requires R.Field(Routes.Lookup(s, username).value, "role") != V.Str("admin")
    ensures Flatten(FromServer(Routes.GetResearch(s, username).response.body))
      == Research.Views(R.AllWhere(s.researches, Research.OwnedBy(V.Str(username))))
  {
    var g := Research.GetByOwner(s.researches, username);
    var p := FromServer(Some(g));
    R.AllWhereEmptyIff(s.researches, Research.OwnedBy(V.Str(username)));
    if g != [] {
      assert p.values == [Array(g[0].1)];
      assert p.values[1..] == [];
      assert Concat(p.values) == g[0].1 + Concat(p.values[1..]);
    }
  }

  /** An administrator sees every research, and nothing else. */
  lemma AdminListsEveryResearch(s: Store.Store, username: string)
    requires Routes.GetResearch(s, username).response.Success?
    requires R.Field(Routes.Lookup(s, username).value, "role") == V.Str("admin")
    ensures var list := Flatten(FromServer(Routes.GetResearch(s, username).response.body));
      (forall i :: 0 <= i < |s.researches| ==> Research.View(s.researches[i]) in list)
      && forall v :: v in list ==> exists i :: 0 <= i < |s.researches| && v == Research.View(s.researches[i])
  {
    var t := s.researches;
    var body := Research.GetAll(t);
    var list := Flatten(FromServer(body));
    if |t| > 0 {
      var g := Research.GroupByOwner(t);
      Research.GroupByOwnerSpec(t);
      var p := FromServer(body);
      forall i | 0 <= i < |t| ensures Research.View(t[i]) in list {
        ViewListed(t, g, i);
        var k :| 0 <= k < |g| && Research.View(t[i]) in g[k].1;
        assert p.values[k] == Array(g[k].1);
        InConcat(p.values, Research.View(t[i]));
      }
      forall v | v in list ensures exists i :: 0 <= i < |t| && v == Research.View(t[i]) {
        InConcat(p.values, v);
        var k :| 0 <= k < |p.values| && p.values[k].Array? && v in p.values[k].items;
        ListedIsView(t, g, k, v);
      }
    }
  }

  /** Each row's view sits in some group of a grouping of the table. */
  lemma ViewListed(t: R.Table, g: Research.Groups, i: nat)
    requires Research.GroupsOf(g, t) && i < |t|
    ensures exists k :: 0 <= k < |g| && Research.View(t[i]) in g[k].1
  {
    var o := Research.Owner(t[i]);
    assert Research.OwnedBy(o)(t[i]);
    assert R.ExistsWhere(t, Research.OwnedBy(o));
    var k :| 0 <= k < |g| && g[k].0 == o;
    var rows := R.AllWhere(t, Research.OwnedBy(o));
    assert t[i] in rows;
    var j :| 0 <= j < |rows| && rows[j] == t[i];
    assert g[k].1[j] == Research.View(t[i]);
  }

  /** Everything in a group is the view of a row of the table. */
  lemma ListedIsView(t: R.Table, g: Research.Groups, k: nat, v: Research.ResearchView)
    requires Research.GroupsOf(g, t) && k < |g| && v in g[k].1
    ensures exists i :: 0 <= i < |t| && v == Research.View(t[i])
  {
    var rows := R.AllWhere(t, Research.OwnedBy(g[k].0));
    var j :| 0 <= j < |g[k].1| && g[k].1[j] == v;
    assert rows[j] in t;
    var i :| 0 <= i < |t| && t[i] == rows[j];
  }

  // ---------------------------------------------------------------------------
  // The detail view and its criteria
  // ---------------------------------------------------------------------------

  /** The `criteria_inclusion` property of a research object: absent or
      `null`, a string, or an array of strings. */
  datatype Criteria = NoCriteria | CriteriaText(text: string) | CriteriaArray(items: seq<string>)

  /** The error a method call on an array raises. */
  const SplitNotAFunction: string := "research.criteria_inclusion.split is not a function"

  /** The criteria as the detail view evidently means to list them: an
      array item by item, a non-empty string split on `|&|`, otherwise none
      (the "no criteria" paragraph). */
  function CriteriaShown(c: Criteria): (cs: seq<string>)
    ensures c.CriteriaArray? ==> cs == c.items
    ensures c.CriteriaText? && c.text != "" ==> Join(cs, Research.CriteriaSep) == c.text
    ensures c.NoCriteria? || c == CriteriaText("") ==> cs == []
  {
    match c
    case NoCriteria => []
    case CriteriaText(s) => if s == "" then [] else JoinSplit(s, Research.CriteriaSep); Split(s, Research.CriteriaSep)
    case CriteriaArray(items) => items
  }

  /** The criteria as `showResearchDetail` lists them: it calls `.split('|&|')`
      on any truthy value, and an array (even an empty one) is truthy and has
      no `split`, so an array raises. */
  function CriteriaShownAsWritten(c: Criteria): (r: Outcome<seq<string>>)
    ensures r.Raised? <==> c.CriteriaArray?
    ensures r.Raised? ==> r.msg == SplitNotAFunction
    ensures r.Ok? ==> r.value == CriteriaShown(c)
  {
    match c
    case NoCriteria => Ok([])
    case CriteriaText(s) => if s == "" then Ok([]) else Ok(Split(s, Research.CriteriaSep))
    case CriteriaArray(_) => Raised(SplitNotAFunction)
  }

  /** How a research's criteria arrive in the browser: the server already
      split them into a list. */
  function CriteriaOf(v: Research.ResearchView): Criteria {
    CriteriaArray(v.criteria)
  }

  /** Which page of the research panel is showing, and the research selected. */
  datatype Page = ListPage | DetailPage
  datatype Screen = Screen(page: Page, selected: Option<Research.ResearchView>)

  /** `showResearchDetail(research)` as written: the detail page is shown and
      the research selected before the criteria are read, so the page
      switches even though listing the criteria then raises. */
  function ShowResearchDetail(sc: Screen, v: Research.ResearchView): (r: (Screen, Outcome<seq<string>>))
    ensures r.0 == Screen(DetailPage, Some(v))
    ensures r.1 == CriteriaShownAsWritten(CriteriaOf(v))
  {
    (Screen(DetailPage, Some(v)), CriteriaShownAsWritten(CriteriaOf(v)))
  }

  /** `showResearchDetail` as evidently intended: the server's list shown item by item. */
  function ShowResearchDetailIntended(sc: Screen, v: Research.ResearchView): (r: (Screen, seq<string>))
    ensures r.0 == Screen(DetailPage, Some(v))
    ensures r.1 == v.criteria
  {
    (Screen(DetailPage, Some(v)), CriteriaShown(CriteriaOf(v)))
  }

  /** Every research the server sends, whatever its stored criteria (none
      included), makes the detail view raise. */
  lemma DetailRaisesForEveryServerResearch(sc: Screen, row: R.Row)
    ensures ShowResearchDetail(sc, Research.View(row)).1 == Raised(SplitNotAFunction)
  {
  }

  /** Criteria stored by the server are listed back exactly by the intended
      detail view, when the list survives the `|&|` join (see
      `ResearchModel.CriteriaRoundTrip`). */
  lemma DetailListsStoredCriteria(sc: Screen, row: R.Row, cs: seq<string>)
    requires |cs| >= 1 && Join(cs, Research.CriteriaSep) != ""
    requires forall i :: 0 <= i < |cs| ==> SeparableBy(cs[i], Research.CriteriaSep)
    requires R.Field(row, "criteria_inclusion") == V.Str(Join(cs, Research.CriteriaSep))
    ensures ShowResearchDetailIntended(sc, Research.View(row)).1 == cs
  {
    ViewCriteria(row);
    Research.CriteriaRoundTrip(cs);
  }

  /** The list a research's view carries is its stored criteria, split. */
  lemma ViewCriteria(row: R.Row)
    ensures Research.View(row).criteria == Research.CriteriaList(R.Field(row, "criteria_inclusion"))
  {
  }

  /** `showResearchList()`: back to the list, with no research selected. */
  function ShowResearchList(sc: Screen): (r: Screen)
    ensures r.page == ListPage && r.selected.None?
  {
    Screen(ListPage, None)
  }

  /** Going back to the list forgets which research was opened. */
  lemma BackToListForgetsDetail(sc: Screen, v: Research.ResearchView)
    ensures ShowResearchList(ShowResearchDetail(sc, v).0) == ShowResearchList(sc)
    ensures ShowResearchList(ShowResearchDetailIntended(sc, v).0) == ShowResearchList(sc)
  {
  }

  // ---------------------------------------------------------------------------
  // toggleResearchStatus
  // ---------------------------------------------------------------------------

  const InactivateEndpoint: string := "/research/inactivate"
  const ActivateEndpoint: string := "/research/activate"

  /** The endpoint `toggleResearchStatus` posts to, chosen from the status
      the detail view embedded in its button. */
  function ToggleEndpoint(current: JsValue): (e: string)
    ensures e == InactivateEndpoint <==> Truthy(current)
    ensures e == ActivateEndpoint <==> !Truthy(current)
  {
    if Truthy(current) then InactivateEndpoint else ActivateEndpoint
  }

  /** The `is_active` value the route behind an endpoint writes. */
  function RouteWrites(endpoint: string): bool {
    endpoint == ActivateEndpoint
  }

  /** A successful toggle stores the opposite of the status the button
      showed, and leaves every other research as it was. */
  lemma ToggleFlipsStatus(s: Store.Store, username: string, id: string, current: JsValue, now: int)
    requires Store.WellFormed(s)
    requires Routes.SetActive(s, username, id, RouteWrites(ToggleEndpoint(current)), now).response.Success?
    ensures var t := Routes.SetActive(s, username, id, RouteWrites(ToggleEndpoint(current)), now).store.researches;
      Research.GetId(t, id).Some? && R.Field(Research.GetId(t, id).value, "is_active") == V.Bool(!Truthy(current))
  {
    Routes.SetActiveTakesEffect(s, username, id, RouteWrites(ToggleEndpoint(current)), now);
  }
}
