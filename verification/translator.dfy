/** The browser's `TranslationManager`: four built-in tables, lookup with
    a fallback to English and then to the key, run-time additions, and the
    language preference kept in `localStorage`. */
module Translator {
  import opened Base
  import opened Strings
  import opened JsValues

  /** One language's table: translation key to text. */
  type Table = map<string, string>

  /** The manager's state: the current language, the languages in the order
      their tables were created, and the tables themselves. */
  datatype Manager = Manager(current: string, langs: seq<string>, tables: map<string, Table>)

  /** The state every manager is in: the English table exists and the
      language list names each table once. */
  predicate Valid(m: Manager) {
    "en" in m.tables
    && (forall l :: l in m.tables ==> l in m.langs)
    && (forall i :: 0 <= i < |m.langs| ==> m.langs[i] in m.tables)
    && (forall i, j :: 0 <= i < j < |m.langs| ==> m.langs[i] != m.langs[j])
  }

  // ---------------------------------------------------------------------------
  // Built-in tables
  // ---------------------------------------------------------------------------

  const EnEntries: seq<(string, string)> := [
    ("login.subtitle", "Sign in to your account"),
    ("login.username", "Username"),
    ("login.password", "Password"),
    ("login.signin", "Sign In"),
    ("login.noAccount", "Don't have an account?"),
    ("login.signupHere", "Sign up here"),
    ("login.signingIn", "Signing in..."),
    ("login.welcome", "Welcome! Redirecting..."),
    ("login.error", "Login error"),
    ("login.connectionError", "Connection error. Please try again."),
    ("register.title", "Create Account"),
    ("register.subtitle", "Sign up to access the system"),
    ("register.username", "Username"),
    ("register.name", "Name"),
    ("register.email", "Email Address"),
    ("register.password", "Password"),
    ("register.institution", "Institution"),
    ("register.role", "Role"),
    ("register.roleResearcher", "Researcher"),
    ("register.roleViewer", "Viewer"),
    ("register.createAccount", "Create Account"),
    ("register.hasAccount", "Already have an account?"),
    ("register.signinHere", "Sign in here"),
    ("register.creating", "Creating account..."),
    ("register.success", "Account created successfully! Redirecting to login..."),
    ("register.error", "Registration error"),
    ("register.validEmail", "Please enter a valid email"),
    ("register.minPassword", "Password must be at least 4 characters"),
    ("register.required", "This field is required"),
    ("common.processing", "Processing..."),
    ("common.cancel", "Cancel"),
    ("common.confirm", "Confirm"),
    ("common.save", "Save"),
    ("common.delete", "Delete"),
    ("common.edit", "Edit"),
    ("common.view", "View"),
    ("common.loading", "Loading..."),
    ("common.error", "Error"),
    ("common.success", "Success"),
    ("common.warning", "Warning"),
    ("common.info", "Information")
  ]

  const EsEntries: seq<(string, string)> := [
    ("login.subtitle", "Inicia sesión en tu cuenta"),
    ("login.username", "Usuario"),
    ("login.password", "Contraseña"),
    ("login.signin", "Iniciar Sesión"),
    ("login.noAccount", "¿No tienes una cuenta?"),
    ("login.signupHere", "Regístrate aquí"),
    ("login.signingIn", "Iniciando sesión..."),
    ("login.welcome", "¡Bienvenido! Redirigiendo..."),
    ("login.error", "Error al iniciar sesión"),
    ("login.connectionError", "Error de conexión. Por favor intenta de nuevo."),
    ("register.title", "Crear Cuenta"),
    ("register.subtitle", "Regístrate para acceder al sistema"),
    ("register.username", "Usuario"),
    ("register.name", "Nombre"),
    ("register.email", "Correo Electrónico"),
    ("register.password", "Contraseña"),
    ("register.institution", "Institución"),
    ("register.role", "Rol"),
    ("register.roleResearcher", "Investigador"),
    ("register.roleViewer", "Visualizador"),
    ("register.createAccount", "Crear Cuenta"),
    ("register.hasAccount", "¿Ya tienes una cuenta?"),
    ("register.signinHere", "Inicia sesión aquí"),
    ("register.creating", "Creando cuenta..."),
    ("register.success", "¡Cuenta creada exitosamente! Redirigiendo al login..."),
    ("register.error", "Error al crear la cuenta"),
    ("register.validEmail", "Por favor ingresa un email válido"),
    ("register.minPassword", "La contraseña debe tener al menos 4 caracteres"),
    ("register.required", "Este campo es requerido"),
    ("common.processing", "Procesando..."),
    ("common.cancel", "Cancelar"),
    ("common.confirm", "Confirmar"),
    ("common.save", "Guardar"),
    ("common.delete", "Eliminar"),
    ("common.edit", "Editar"),
    ("common.view", "Ver"),
    ("common.loading", "Cargando..."),
    ("common.error", "Error"),
    ("common.success", "Éxito"),
    ("common.warning", "Advertencia"),
    ("common.info", "Información")
  ]

  const FrEntries: seq<(string, string)> := [
    ("login.subtitle", "Connectez-vous à votre compte"),
    ("login.username", "Nom d'utilisateur"),
    ("login.password", "Mot de passe"),
    ("login.signin", "Se connecter"),
    ("login.noAccount", "Vous n'avez pas de compte?"),
    ("login.signupHere", "Inscrivez-vous ici"),
    ("login.signingIn", "Connexion en cours..."),
    ("login.welcome", "Bienvenue! Redirection..."),
    ("login.error", "Erreur de connexion"),
    ("login.connectionError", "Erreur de connexion. Veuillez réessayer."),
    ("register.title", "Créer un Compte"),
    ("register.subtitle", "Inscrivez-vous pour accéder au système"),
    ("register.username", "Nom d'utilisateur"),
    ("register.name", "Nom"),
    ("register.email", "Adresse e-mail"),
    ("register.password", "Mot de passe"),
    ("register.institution", "Institution"),
    ("register.role", "Rôle"),
    ("register.roleResearcher", "Chercheur"),
    ("register.roleViewer", "Visualisateur"),
    ("register.createAccount", "Créer un Compte"),
    ("register.hasAccount", "Vous avez déjà un compte?"),
    ("register.signinHere", "Connectez-vous ici"),
    ("register.creating", "Création du compte..."),
    ("register.success", "Compte créé avec succès! Redirection vers la connexion..."),
    ("register.error", "Erreur d'inscription"),
    ("register.validEmail", "Veuillez entrer un e-mail valide"),
    ("register.minPassword", "Le mot de passe doit contenir au moins 4 caractères"),
    ("register.required", "Ce champ est obligatoire"),
    ("common.processing", "Traitement..."),
    ("common.cancel", "Annuler"),
    ("common.confirm", "Confirmer"),
    ("common.save", "Sauvegarder"),
    ("common.delete", "Supprimer"),
    ("common.edit", "Modifier"),
    ("common.view", "Voir"),
    ("common.loading", "Chargement..."),
    ("common.error", "Erreur"),
    ("common.success", "Succès"),
    ("common.warning", "Avertissement"),
    ("common.info", "Information")
  ]

  const PtEntries: seq<(string, string)> := [
    ("login.subtitle", "Faça login em sua conta"),
    ("login.username", "Usuário"),
    ("login.password", "Senha"),
    ("login.signin", "Entrar"),
    ("login.noAccount", "Não tem uma conta?"),
    ("login.signupHere", "Cadastre-se aqui"),
    ("login.signingIn", "Entrando..."),
    ("login.welcome", "Bem-vindo! Redirecionando..."),
    ("login.error", "Erro no login"),
    ("login.connectionError", "Erro de conexão. Tente novamente."),
    ("register.title", "Criar Conta"),
    ("register.subtitle", "Cadastre-se para acessar o sistema"),
    ("register.username", "Usuário"),
    ("register.name", "Nome"),
    ("register.email", "Endereço de E-mail"),
    ("register.password", "Senha"),
    ("register.institution", "Instituição"),
    ("register.role", "Função"),
    ("register.roleResearcher", "Pesquisador"),
    ("register.roleViewer", "Visualizador"),
    ("register.createAccount", "Criar Conta"),
    ("register.hasAccount", "Já tem uma conta?"),
    ("register.signinHere", "Entre aqui"),
    ("register.creating", "Criando conta..."),
    ("register.success", "Conta criada com sucesso! Redirecionando para login..."),
    ("register.error", "Erro no cadastro"),
    ("register.validEmail", "Por favor digite um e-mail válido"),
    ("register.minPassword", "A senha deve ter pelo menos 4 caracteres"),
    ("register.required", "Este campo é obrigatório"),
    ("common.processing", "Processando..."),
    ("common.cancel", "Cancelar"),
    ("common.confirm", "Confirmar"),
    ("common.save", "Salvar"),
    ("common.delete", "Excluir"),
    ("common.edit", "Editar"),
    ("common.view", "Ver"),
    ("common.loading", "Carregando..."),
    ("common.error", "Erro"),
    ("common.success", "Sucesso"),
    ("common.warning", "Aviso"),
    ("common.info", "Informação")
  ]

  /** The keys an object literal lists. */
  function KeysOf(es: seq<(string, string)>): set<string> {
    set i | 0 <= i < |es| :: es[i].0
  }

  /** The text an object literal gives `k`: a later entry for `k` overrides
      an earlier one. */
  function LastText(es: seq<(string, string)>, k: string): string {
    if |es| == 0 then ""
    else if es[|es| - 1].0 == k then es[|es| - 1].1
    else LastText(es[..|es| - 1], k)
  }

  /** An object literal read as a table. */
  function TableOf(es: seq<(string, string)>): Table {
    map k | k in KeysOf(es) :: LastText(es, k)
  }

  /** The text a literal gives a key it lists comes from one of its entries
      for that key. */
  lemma {:induction false} LastTextListed(es: seq<(string, string)>, k: string, j: nat)
    requires j < |es| && es[j].0 == k
    ensures exists i :: 0 <= i < |es| && es[i] == (k, LastText(es, k))
  {
    if es[|es| - 1].0 != k {
      var init := es[..|es| - 1];
      assert init[j] == es[j];
      LastTextListed(init, k, j);
      var i :| 0 <= i < |init| && init[i] == (k, LastText(init, k));
      assert es[i] == init[i];
    }
  }

  /** The table has exactly the literal's keys, each with a text the literal
      gives it. */
  lemma TableOfSpec(es: seq<(string, string)>)
    ensures forall k :: k in TableOf(es) <==> exists i :: 0 <= i < |es| && es[i].0 == k
    ensures forall k :: k in TableOf(es) ==> exists i :: 0 <= i < |es| && es[i] == (k, TableOf(es)[k])
  {
    forall k | k in TableOf(es) ensures exists i :: 0 <= i < |es| && es[i] == (k, TableOf(es)[k]) {
      var j :| 0 <= j < |es| && es[j].0 == k;
      LastTextListed(es, k, j);
    }
  }

  /** The keys of an object literal, in order. */
  function KeyList(es: seq<(string, string)>): (ks: seq<string>)
    ensures |ks| == |es| && forall i :: 0 <= i < |es| ==> ks[i] == es[i].0
  {
    seq(|es|, i requires 0 <= i < |es| => es[i].0)
  }

  /** Every text of the literal is non-empty. */
  predicate NoEmptyText(es: seq<(string, string)>) {
    forall i :: 0 <= i < |es| ==> es[i].1 != ""
  }

  /** The languages the manager starts with, in creation order. */
  const DefaultLangs: seq<string> := ["en", "es", "fr", "pt"]

  /** `getDefaultTranslations()`. */
  function DefaultTables(): map<string, Table> {
    map["en" := TableOf(EnEntries), "es" := TableOf(EsEntries),
        "fr" := TableOf(FrEntries), "pt" := TableOf(PtEntries)]
  }

  /** Position `i` of a built-in table names the same key in all four. */
  lemma SameKeyAt(i: int)
    requires 0 <= i < |EnEntries|
    ensures EsEntries[i].0 == EnEntries[i].0 && FrEntries[i].0 == EnEntries[i].0 && PtEntries[i].0 == EnEntries[i].0
  {
    EsKeyAt(i);
    FrKeyAt(i);
    PtKeyAt(i);
  }

  /** Position `i` of the four built-in tables: the same key in each, and
      no empty text. The one case split over the 41 positions. */
  lemma EntriesAt(i: int)
    requires 0 <= i < |EnEntries|
    ensures i < |EsEntries| && i < |FrEntries| && i < |PtEntries|
    ensures EsEntries[i].0 == EnEntries[i].0 && FrEntries[i].0 == EnEntries[i].0 && PtEntries[i].0 == EnEntries[i].0
    ensures EnEntries[i].1 != "" && EsEntries[i].1 != "" && FrEntries[i].1 != "" && PtEntries[i].1 != ""
  {
    assert i == 0 || i == 1 || i == 2 || i == 3 || i == 4 || i == 5 || i == 6 || i == 7 || i == 8 || i == 9
      || i == 10 || i == 11 || i == 12 || i == 13 || i == 14 || i == 15 || i == 16 || i == 17 || i == 18 || i == 19
      || i == 20 || i == 21 || i == 22 || i == 23 || i == 24 || i == 25 || i == 26 || i == 27 || i == 28 || i == 29
      || i == 30 || i == 31 || i == 32 || i == 33 || i == 34 || i == 35 || i == 36 || i == 37 || i == 38 || i == 39
      || i == 40;
  }

  /** Position `i` of the Spanish table names the English key. */
  lemma EsKeyAt(i: int)
    requires 0 <= i < |EnEntries|
    ensures i < |EsEntries| && EsEntries[i].0 == EnEntries[i].0
  {
    EntriesAt(i);
  }

  /** Position `i` of the French table names the English key. */
  lemma FrKeyAt(i: int)
    requires 0 <= i < |EnEntries|
    ensures i < |FrEntries| && FrEntries[i].0 == EnEntries[i].0
  {
    EntriesAt(i);
  }

  /** Position `i` of the Portuguese table names the English key. */
  lemma PtKeyAt(i: int)
    requires 0 <= i < |EnEntries|
    ensures i < |PtEntries| && PtEntries[i].0 == EnEntries[i].0
  {
    EntriesAt(i);
  }

  /** The four built-in tables list the same keys in the same order. */
  lemma DefaultKeyListsAgree()
    ensures KeyList(EsEntries) == KeyList(EnEntries)
    ensures KeyList(FrEntries) == KeyList(EnEntries)
    ensures KeyList(PtEntries) == KeyList(EnEntries)
  {
    forall i | 0 <= i < |EnEntries|
      ensures EsEntries[i].0 == EnEntries[i].0 && FrEntries[i].0 == EnEntries[i].0 && PtEntries[i].0 == EnEntries[i].0
    {
      SameKeyAt(i);
    }
  }

  /** No text of the English table is empty. */
  lemma EnTextsNonEmpty()
    ensures NoEmptyText(EnEntries)
  {
    forall i | 0 <= i < |EnEntries| ensures EnEntries[i].1 != "" {
      EntriesAt(i);
    }
  }

  /** No text of the Spanish table is empty. */
  lemma EsTextsNonEmpty()
    ensures NoEmptyText(EsEntries)
  {
    forall i | 0 <= i < |EsEntries| ensures EsEntries[i].1 != "" {
      EntriesAt(i);
    }
  }

  /** No text of the French table is empty. */
  lemma FrTextsNonEmpty()
    ensures NoEmptyText(FrEntries)
  {
    forall i | 0 <= i < |FrEntries| ensures FrEntries[i].1 != "" {
      EntriesAt(i);
    }
  }

  /** No text of the Portuguese table is empty. */
  lemma PtTextsNonEmpty()
    ensures NoEmptyText(PtEntries)
  {
    forall i | 0 <= i < |PtEntries| ensures PtEntries[i].1 != "" {
      EntriesAt(i);
    }
  }

  /** No built-in text is empty, so a built-in entry is always used as is. */
  lemma DefaultTextsNonEmpty()
    ensures NoEmptyText(EnEntries) && NoEmptyText(EsEntries) && NoEmptyText(FrEntries) && NoEmptyText(PtEntries)
  {
    EnTextsNonEmpty();
    EsTextsNonEmpty();
    FrTextsNonEmpty();
    PtTextsNonEmpty();
  }

  // ---------------------------------------------------------------------------
  // Construction and language preference
  // ---------------------------------------------------------------------------

  /** The storage key of the language preference. */
  const LanguageKey: string := "language"

  /** The state after `loadTranslations()`: the built-in tables, English current. */
  function Loaded(): (m: Manager)
    ensures Valid(m) && m.langs == DefaultLangs && m.tables == DefaultTables() && m.current == "en"
  {
    Manager("en", DefaultLangs, DefaultTables())
  }

  /** The first `-`-separated piece of a string is a prefix without `-`,
      followed by `-` when the string has one. */
  lemma FirstPiece(s: string)
    ensures var p := Split(s, "-")[0];
      StartsWith(s, p) && '-' !in p && (|p| < |s| ==> s[|p|] == '-') && ('-' !in s ==> p == s)
  {
    var f := FindFrom(s, "-", 0);
    if f.Some? {
      var i := f.value;
      assert s[i..i + 1] == "-";
      forall j | 0 <= j < i ensures s[j] != '-' {
        assert !OccursAt(s, "-", j);
        assert s[j..j + 1] == [s[j]];
      }
      assert s[i] == '-';
    } else {
      forall j | 0 <= j < |s| ensures s[j] != '-' {
        assert !OccursAt(s, "-", j);
        assert s[j..j + 1] == [s[j]];
      }
    }
  }

  /** `detectBrowserLanguage()`: the part of the browser's language tag
      before the first `-`, when a table exists for it, else `en`. */
  function DetectBrowserLanguage(m: Manager, browserLang: string): (code: string)
    ensures code == "en" || (code in m.tables && StartsWith(browserLang, code) && '-' !in code)
  {
    FirstPiece(browserLang);
    var code := Split(browserLang, "-")[0];
    if code in m.tables then code else "en"
  }

  /** A tag `code-region` for a known `code` is detected as `code`; an
      unknown code gives English. */
  lemma DetectTagged(m: Manager, code: string, region: string)
    requires '-' !in code
    ensures code in m.tables ==> DetectBrowserLanguage(m, code + "-" + region) == code
    ensures code in m.tables ==> DetectBrowserLanguage(m, code) == code
    ensures code !in m.tables ==> DetectBrowserLanguage(m, code + "-" + region) == "en"
  {
    var s := code + "-" + region;
    FirstPiece(s);
    FirstPiece(code);
    var p := Split(s, "-")[0];
    assert s[|code|] == '-';
    assert forall j :: 0 <= j < |code| ==> s[j] == code[j] && s[j] != '-';
    assert |p| >= |code|;
    assert forall j :: 0 <= j < |p| ==> s[j] == p[j] && s[j] != '-';
    assert |p| <= |code|;
    assert p == s[..|code|] == code;
  }

  /** `new TranslationManager()` on a page with storage `st` in a browser
      whose language is `browserLang`: a stored non-empty preference wins
      over the detected language. */
  function Construct(st: Storage, browserLang: string): (m: Manager)
    ensures Valid(m) && m.langs == DefaultLangs && m.tables == DefaultTables()
    ensures LanguageKey in st && st[LanguageKey] != "" ==> m.current == st[LanguageKey]
    ensures LanguageKey !in st || st[LanguageKey] == "" ==> m.current == DetectBrowserLanguage(Loaded(), browserLang)
  {
    var m := Loaded();
    match GetItem(st, LanguageKey)
    case Some(c) => if c != "" then m.(current := c) else m.(current := DetectBrowserLanguage(m, browserLang))
    case None => m.(current := DetectBrowserLanguage(m, browserLang))
  }

  /** `setLanguage(c)`: `c` becomes current and is persisted; nothing else
      in the manager or in storage changes. */
  function SetLanguage(m: Manager, st: Storage, c: string): (r: (Manager, Storage))
    ensures GetCurrentLanguage(r.0) == c && GetItem(r.1, LanguageKey) == Some(c)
    ensures r.0.tables == m.tables && r.0.langs == m.langs
    ensures forall k :: k != LanguageKey ==> (k in r.1 <==> k in st)
    ensures forall k :: k != LanguageKey && k in st ==> r.1[k] == st[k]
  {
    (m.(current := c), st[LanguageKey := c])
  }

  /** `getCurrentLanguage()`: the language a lookup with no language, or an
      empty one, falls back to. */
  function GetCurrentLanguage(m: Manager): (l: string)
    ensures l == LookupLanguage(m, None) && l == LookupLanguage(m, Some(""))
  {
    m.current
  }

  /** A language chosen with `setLanguage` survives a page reload: the next
      manager starts in it, whatever the browser's language. */
  lemma ReloadKeepsLanguage(m: Manager, st: Storage, c: string, browserLang: string)
    requires c != ""
    ensures GetCurrentLanguage(Construct(SetLanguage(m, st, c).1, browserLang)) == c
  {
  }

  /** `getAvailableLanguages()`: the languages in table-creation order. */
  function GetAvailableLanguages(m: Manager): (ls: seq<string>)
    requires Valid(m)
    ensures forall l :: l in m.tables <==> l in ls
  {
    m.langs
  }

  /** A fresh manager offers exactly English, Spanish, French and Portuguese, in that order. */
  lemma AvailableAfterConstruct(st: Storage, browserLang: string)
    ensures GetAvailableLanguages(Construct(st, browserLang)) == ["en", "es", "fr", "pt"]
  {
  }

  // ---------------------------------------------------------------------------
  // Lookup
  // ---------------------------------------------------------------------------

  /** Language `l` has a non-empty text for `key`. */
  predicate Has(m: Manager, l: string, key: string) {
    l in m.tables && key in m.tables[l] && m.tables[l][key] != ""
  }

  /** The language a lookup uses: the argument when given and non-empty,
      else the current one. */
  function LookupLanguage(m: Manager, language: Option<string>): (l: string)
    ensures language.Some? && language.value != "" ==> l == language.value
    ensures language.None? || language.value == "" ==> l == m.current
  {
    if language.Some? && language.value != "" then language.value else m.current
  }

  /** `getTranslation(key, language)`: the lookup language's text if present
      and non-empty, else the English text if present and non-empty, else
      the key itself. */
  function GetTranslation(m: Manager, key: string, language: Option<string>): (r: string)
    requires "en" in m.tables
    ensures Has(m, LookupLanguage(m, language), key) ==> r == m.tables[LookupLanguage(m, language)][key]
    ensures !Has(m, LookupLanguage(m, language), key) && Has(m, "en", key) ==> r == m.tables["en"][key]
    ensures !Has(m, LookupLanguage(m, language), key) && !Has(m, "en", key) ==> r == key
    ensures key != "" ==> r != ""
  {
    var l := LookupLanguage(m, language);
    if Has(m, l, key) then m.tables[l][key]
    else if Has(m, "en", key) then m.tables["en"][key]
    else key
  }

  /** `t(key, language)`: the shorthand scripts use, the same lookup. */
  function T(m: Manager, key: string, language: Option<string>): (r: string)
    requires "en" in m.tables
    ensures r == GetTranslation(m, key, language)
    ensures key != "" ==> r != ""
  {
    GetTranslation(m, key, language)
  }

  /** With the built-in tables, a built-in key in a built-in language is
      always that language's own text: the English fallback never fires. */
  lemma DefaultsNeverFallBack(m: Manager, l: string, key: string)
    requires m.tables == DefaultTables() && l in DefaultLangs && key in DefaultTables()["en"]
    ensures Has(m, l, key)
    ensures GetTranslation(m, key, Some(l)) == DefaultTables()[l][key]
  {
    var i := EnglishIndex(key);
    if l == "en" {
      OwnTextEn(m, key, i);
    } else if l == "es" {
      OwnTextEs(m, key, i);
    } else if l == "fr" {
      OwnTextFr(m, key, i);
    } else {
      OwnTextPt(m, key, i);
    }
  }

  /** A built-in key finds its own English text in the built-in tables. */
  lemma OwnTextEn(m: Manager, key: string, i: nat)
    requires m.tables == DefaultTables() && i < |EnEntries| && EnEntries[i].0 == key
    ensures Has(m, "en", key) && GetTranslation(m, key, Some("en")) == m.tables["en"][key]
  {
    EnTextsNonEmpty();
    TableHasKey(EnEntries, key, i);
  }

  /** A built-in key finds its own Spanish text in the built-in tables. */
  lemma OwnTextEs(m: Manager, key: string, i: nat)
    requires m.tables == DefaultTables() && i < |EnEntries| && EnEntries[i].0 == key
    ensures Has(m, "es", key) && GetTranslation(m, key, Some("es")) == m.tables["es"][key]
  {
    EsKeyAt(i);
    EsTextsNonEmpty();
    TableHasKey(EsEntries, key, i);
  }

  /** A built-in key finds its own French text in the built-in tables. */
  lemma OwnTextFr(m: Manager, key: string, i: nat)
    requires m.tables == DefaultTables() && i < |EnEntries| && EnEntries[i].0 == key
    ensures Has(m, "fr", key) && GetTranslation(m, key, Some("fr")) == m.tables["fr"][key]
  {
    FrKeyAt(i);
    FrTextsNonEmpty();
    TableHasKey(FrEntries, key, i);
  }

  /** A built-in key finds its own Portuguese text in the built-in tables. */
  lemma OwnTextPt(m: Manager, key: string, i: nat)
    requires m.tables == DefaultTables() && i < |EnEntries| && EnEntries[i].0 == key
    ensures Has(m, "pt", key) && GetTranslation(m, key, Some("pt")) == m.tables["pt"][key]
  {
    PtKeyAt(i);
    PtTextsNonEmpty();
    TableHasKey(PtEntries, key, i);
  }

  /** The position of a key in the English literal. */
  lemma EnglishIndex(key: string) returns (i: nat)
    requires key in TableOf(EnEntries)
    ensures i < |EnEntries| && EnEntries[i].0 == key
  {
    TableOfSpec(EnEntries);
    i :| 0 <= i < |EnEntries| && EnEntries[i].0 == key;
  }

  /** A key a literal lists is in its table, with a non-empty text when the
      literal has no empty text. */
  lemma TableHasKey(es: seq<(string, string)>, key: string, i: nat)
    requires i < |es| && es[i].0 == key && NoEmptyText(es)
    ensures key in TableOf(es) && TableOf(es)[key] != ""
  {
    TableOfSpec(es);
  }

  /** A language without a table falls back to English, then to the key. */
  lemma UnknownLanguageFallsBack(m: Manager, l: string, key: string)
    requires "en" in m.tables && l != "" && l !in m.tables
    ensures GetTranslation(m, key, Some(l)) == (if Has(m, "en", key) then m.tables["en"][key] else key)
  {
  }

  // ---------------------------------------------------------------------------
  // Run-time additions
  // ---------------------------------------------------------------------------

  /** `addTranslations(lang, ts)`: the language's table is created if absent
      and takes every entry of `ts`; its other keys, every other language
      and the current language are unchanged. */
  function AddTranslations(m: Manager, lang: string, ts: Table): (r: Manager)
    ensures Valid(m) ==> Valid(r)
    ensures lang in r.tables && r.current == m.current
    ensures forall k :: k in ts ==> k in r.tables[lang] && r.tables[lang][k] == ts[k]
    ensures forall k :: k !in ts ==> (k in r.tables[lang] <==> lang in m.tables && k in m.tables[lang])
    ensures forall k :: k !in ts && k in r.tables[lang] ==> r.tables[lang][k] == m.tables[lang][k]
    ensures forall l :: l != lang ==> (l in r.tables <==> l in m.tables)
    ensures forall l :: l != lang && l in m.tables ==> r.tables[l] == m.tables[l]
    ensures lang in m.tables ==> r.langs == m.langs
    ensures lang !in m.tables ==> r.langs == m.langs + [lang]
  {
    var base := if lang in m.tables then m.tables[lang] else map[];
    var langs := if lang in m.tables then m.langs else m.langs + [lang];
    Manager(m.current, langs, m.tables[lang := base + ts])
  }

  /** A text just added for a language is what a lookup in that language
      returns, and what the page shows when that language is current. */
  lemma AddedTextWins(m: Manager, lang: string, ts: Table, key: string)
    requires Valid(m) && lang != "" && key in ts && ts[key] != ""
    ensures GetTranslation(AddTranslations(m, lang, ts), key, Some(lang)) == ts[key]
    ensures m.current == lang ==> GetTranslation(AddTranslations(m, lang, ts), key, None) == ts[key]
  {
  }

  /** Adding a language puts it last among the available languages. */
  lemma AddedLanguageListedLast(m: Manager, lang: string, ts: Table)
    requires Valid(m) && lang !in m.tables
    ensures GetAvailableLanguages(AddTranslations(m, lang, ts)) == GetAvailableLanguages(m) + [lang]
  {
  }
}
