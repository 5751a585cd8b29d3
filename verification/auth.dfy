/** The login and registration pages of the browser's `auth.js`: the
    redirect of an already logged-in visitor, the checks a form passes
    before it is sent, and the on-blur field warnings. */
module Auth {
  import opened Base
  import opened Strings
  import opened JsValues
  import V = Values
  import WebUtils
  import Translator
  import Api = ApiClient
  import Dashboard

  // ---------------------------------------------------------------------------
  // Opening the page
  // ---------------------------------------------------------------------------

  /** What `init()` does: leave for the dashboard, or set up the forms. */
  datatype AuthStart = ToDashboard | ShowForms

  /** `init()`: a visitor with a stored user (`getItem` not `null`, so even
      an empty name) who is not on `/dashboard` is sent there. */
  function Init(st: Storage, path: string): (r: AuthStart)
    ensures r == ToDashboard <==> Api.GetCurrentUser(st).Some? && path != "/dashboard"
  {
    if Api.IsAuthenticated(st) && path != "/dashboard" then ToDashboard else ShowForms
  }

  /** A stored empty user name bounces between the pages: the login page
      sends the visitor to the dashboard, which sends them back to `/login`. */
  lemma RedirectLoopOnEmptyUser()
    ensures Init(map[Api.CurrentUserKey := ""], "/login") == ToDashboard
    ensures Dashboard.Init(map[Api.CurrentUserKey := ""]) == Dashboard.ToLogin
  {
  }

  /** `init()` with the dashboard's own test of the stored user. */
  function InitIntended(st: Storage, path: string): (r: AuthStart)
    ensures r == ToDashboard <==> Dashboard.Init(st).Started? && path != "/dashboard"
  {
    if Dashboard.Init(st).Started? && path != "/dashboard" then ToDashboard else ShowForms
  }

  /** The corrected test never sends a visitor to a dashboard that would
      send them back, never keeps on the login page a visitor the dashboard
      accepts, and differs from the written one only for an empty name. */
  lemma InitIntendedNeverBounces(st: Storage, path: string)
    ensures InitIntended(st, path) == ToDashboard ==> Dashboard.Init(st).Started?
    ensures Dashboard.Init(st).Started? && path != "/dashboard" ==> InitIntended(st, path) == ToDashboard
    ensures InitIntended(st, path) != Init(st, path) ==> Api.GetCurrentUser(st) == Some("")
  {
  }

  // ---------------------------------------------------------------------------
  // Submitting the forms
  // ---------------------------------------------------------------------------

  /** The outcome of a submit handler: an error notification, or the request
      sent. */
  datatype Decision = Rejected(message: string) | Submit

  /** `translator.t(key)` in the page's current language. */
  function Text(m: Translator.Manager, key: string): string
    requires "en" in m.tables
  {
    Translator.T(m, key, None)
  }

  /** Some required field is blank. */
  predicate AnyBlank(required: seq<WebUtils.InputField>) {
    exists i :: 0 <= i < |required| && WebUtils.Blank(required[i])
  }

  /** `handleLogin`: only the required fields are checked. */
  function HandleLogin(m: Translator.Manager, required: seq<WebUtils.InputField>): (r: Decision)
    requires "en" in m.tables
    ensures r.Rejected? <==> AnyBlank(required)
    ensures r.Rejected? ==> r.message == Text(m, "login.error") + ": " + Text(m, "register.required")
  {
    if |WebUtils.ValidateRequired(required)| > 0 then
      Rejected(Text(m, "login.error") + ": " + Text(m, "register.required"))
    else Submit
  }

  /** The minimum password length `handleRegister` accepts. */
  const MinPassword: nat := 4

  /** `handleRegister`: required fields first, then the e-mail shape, then
      the password length; the first failing check names the error. */
  function HandleRegister(m: Translator.Manager, required: seq<WebUtils.InputField>,
                          email: string, password: string): (r: Decision)
    requires "en" in m.tables
    ensures r == Submit <==> !AnyBlank(required) && WebUtils.ValidateEmail(email) && |password| >= MinPassword
    ensures AnyBlank(required) ==> r == Rejected(Text(m, "register.error") + ": " + Text(m, "register.required"))
    ensures !AnyBlank(required) && !WebUtils.ValidateEmail(email) ==> r == Rejected(Text(m, "register.validEmail"))
    ensures !AnyBlank(required) && WebUtils.ValidateEmail(email) && |password| < MinPassword ==>
      r == Rejected(Text(m, "register.minPassword"))
  {
    if |WebUtils.ValidateRequired(required)| > 0 then
      Rejected(Text(m, "register.error") + ": " + Text(m, "register.required"))
    else if !WebUtils.ValidateEmail(email) then Rejected(Text(m, "register.validEmail"))
    else if |password| < MinPassword then Rejected(Text(m, "register.minPassword"))
    else Submit
  }

  /** Whatever the register form lets through, the login form lets through
      too, in any language. */
  lemma RegisterStricterThanLogin(m: Translator.Manager, required: seq<WebUtils.InputField>,
                                  email: string, password: string)
    requires "en" in m.tables
    ensures HandleRegister(m, required, email, password) == Submit ==> HandleLogin(m, required) == Submit
  {
  }

  /** Every rejection message is a real text, never empty. */
  lemma RejectionsAreNonEmpty(m: Translator.Manager, required: seq<WebUtils.InputField>,
                              email: string, password: string)
    requires "en" in m.tables
    ensures HandleLogin(m, required).Rejected? ==> HandleLogin(m, required).message != ""
    ensures HandleRegister(m, required, email, password).Rejected? ==>
      HandleRegister(m, required, email, password).message != ""
  {
  }

  /** A login the form lets through, with the user name among the required
      fields, that the server accepts (it answers with that user name) opens
      the dashboard for that user. */
  lemma LoginFlowOpensDashboard(m: Translator.Manager, required: seq<WebUtils.InputField>,
                                s: Api.Session, username: string, body: map<string, V.Json>)
    requires "en" in m.tables
    requires WebUtils.InputField(Some("username"), username) in required
    requires HandleLogin(m, required) == Submit
    requires "username" in body && body["username"] == V.JStr(username)
    ensures Dashboard.Init(Api.Login(s, Ok(V.JObj(body))).0.storage) == Dashboard.Started(username)
  {
    var i :| 0 <= i < |required| && required[i] == WebUtils.InputField(Some("username"), username);
    assert !WebUtils.Blank(required[i]);
    assert username != "";
    Dashboard.LoginOpensDashboard(s, username, body);
  }

  // ---------------------------------------------------------------------------
  // On-blur warnings
  // ---------------------------------------------------------------------------

  /** The e-mail field is marked invalid on blur: non-empty and badly shaped. */
  function EmailFlagged(value: string): (b: bool)
    ensures b ==> value != ""
    ensures value != "" && ('@' !in value || |value| < 5) ==> b
  {
    value != "" && !WebUtils.ValidateEmail(value)
  }

  /** The password field is marked invalid on blur: non-empty and too short. */
  function PasswordFlagged(value: string): (b: bool)
    ensures b <==> 1 <= |value| <= 3
  {
    value != "" && |value| < MinPassword
  }

  /** An untouched (empty) field is never flagged, and a registration the
      form lets through shows no warning on either field. */
  lemma SubmittedRegistrationHasNoWarnings(m: Translator.Manager, required: seq<WebUtils.InputField>,
                                           email: string, password: string)
    requires "en" in m.tables
    ensures !EmailFlagged("") && !PasswordFlagged("")
    ensures HandleRegister(m, required, email, password) == Submit ==>
      !EmailFlagged(email) && !PasswordFlagged(password)
  {
  }

  /** The warnings agree with the submit checks on a non-empty value: a
      flagged field is exactly one the submit handler would reject. */
  lemma WarningsMatchSubmitChecks(m: Translator.Manager, required: seq<WebUtils.InputField>,
                                  email: string, password: string)
    requires "en" in m.tables && !AnyBlank(required) && email != "" && password != ""
    ensures EmailFlagged(email) ==> HandleRegister(m, required, email, password) == Rejected(Text(m, "register.validEmail"))
    ensures !EmailFlagged(email) && PasswordFlagged(password) ==>
      HandleRegister(m, required, email, password) == Rejected(Text(m, "register.minPassword"))
    ensures !EmailFlagged(email) && !PasswordFlagged(password) ==> HandleRegister(m, required, email, password) == Submit
  {
  }
}
