/** The POST side of the two Flask views, `register` and `login`: they read
    the form, strip both fields, gate on them, call the store and choose the
    page to answer with. Rendering the templates is not part of this model;
    a `Page` names which template (or redirect) is answered and with which
    message. */
module WebApp {
  import opened PyStr
  import opened Hashing
  import opened CredentialStore

  /** request.form: field name to submitted value. */
  type Form = map<string, string>

  /** request.form.get(name, ""). */
  function Field(form: Form, name: string): (v: string)
    ensures name in form ==> v == form[name]
    ensures name !in form ==> v == ""
  {
    if name in form then form[name] else ""
  }

  datatype Page =
    | RedirectHome              // redirect(url_for("home"))
    | RegisterPage(msg: string) // REGISTER_HTML with its message
    | LoginPage(msg: string)    // LOGIN_HTML with its message
    | AuthenticatedPage(user: string)  // OK_HTML naming the user
    | InternalServerError       // an exception the view does not catch

  const InvalidData := "Datos inválidos."
  const UserExists := "El usuario ya existe."
  const BadCredentials := "Usuario o contraseña incorrectos."

  /** Both fields, stripped, as both views read them. */
  datatype Credentials = Credentials(username: string, password: string)

  function ReadCredentials(form: Form): (c: Credentials)
    ensures Trimmed(c.username) && Trimmed(c.password)
  {
    StripEnds(Field(form, "username"));
    StripEnds(Field(form, "password"));
    Credentials(Strip(Field(form, "username")), Strip(Field(form, "password")))
  }

  /** The register view's gate: `not u or not p` after stripping. It refuses
      exactly the forms in which a field is missing or all whitespace. */
  predicate Acceptable(c: Credentials)
  {
    c.username != [] && c.password != []
  }

  lemma AcceptableIff(form: Form)
    ensures Acceptable(ReadCredentials(form))
        <==> !AllSpace(Field(form, "username")) && !AllSpace(Field(form, "password"))
  {
    StripEmptyIff(Field(form, "username"));
    StripEmptyIff(Field(form, "password"));
  }

  /** register, on POST: the new database and the page answered. */
  function RegisterSpec(db: Db, h: Hasher, c: Credentials, salt: Salt): (r: (Db, Page))
    ensures r.1 == RegisterPage(InvalidData) <==> !Acceptable(c)
    ensures r.1 == RedirectHome <==> Acceptable(c) && db.hasTable && c.username !in db.rows
    ensures r.1 != RedirectHome ==> r.0 == db
  {
    if !Acceptable(c) then (db, RegisterPage(InvalidData))
    else
      var (db', res) := InsertUser(db, h, c.username, c.password, salt);
      match res
      case Ok(_) => (db', RedirectHome)
      case Err(IntegrityError) => (db', RegisterPage(UserExists))
      case Err(OperationalError) => (db', InternalServerError)
  }

  /** A missing or blank field is answered "Datos inválidos." and the table
      is not touched, whatever state it is in. */
  lemma RegisterBlankRefused(db: Db, h: Hasher, form: Form, salt: Salt)
    requires AllSpace(Field(form, "username")) || AllSpace(Field(form, "password"))
    ensures RegisterSpec(db, h, ReadCredentials(form), salt) == (db, RegisterPage(InvalidData))
  {
    AcceptableIff(form);
  }

  /** A taken username is answered "El usuario ya existe." and the table is
      not touched. */
  lemma RegisterDuplicateRefused(db: Db, h: Hasher, form: Form, salt: Salt)
    requires Acceptable(ReadCredentials(form)) && db.hasTable
    requires ReadCredentials(form).username in db.rows
    ensures RegisterSpec(db, h, ReadCredentials(form), salt) == (db, RegisterPage(UserExists))
  {
  }

  /** login, on POST: one message for every kind of failure. */
  function LoginSpec(db: Db, h: Hasher, c: Credentials): (p: Page)
    ensures p.AuthenticatedPage? <==> CheckCredentials(db, h, c.username, c.password) == Ok(true)
    ensures p.AuthenticatedPage? ==> p.user == c.username
    ensures p == InternalServerError <==> !db.hasTable
    ensures p.AuthenticatedPage? || p == LoginPage(BadCredentials) || p == InternalServerError
  {
    match CheckCredentials(db, h, c.username, c.password)
    case Ok(true) => AuthenticatedPage(c.username)
    case Ok(false) => LoginPage(BadCredentials)
    case Err(_) => InternalServerError
  }

  /** An unknown user and a wrong password get the same page. */
  lemma LoginUnknownUser(db: Db, h: Hasher, form: Form)
    requires db.hasTable && ReadCredentials(form).username !in db.rows
    ensures LoginSpec(db, h, ReadCredentials(form)) == LoginPage(BadCredentials)
  {
  }

  /** Registering through the web form and then logging in with the very
      same form succeeds, naming the stripped username. */
  lemma RegisterThenLogin(db: Db, h: Hasher, form: Form, salt: Salt)
    requires Sound(h) && db.hasTable
    requires Acceptable(ReadCredentials(form))
    requires ReadCredentials(form).username !in db.rows
    ensures RegisterSpec(db, h, ReadCredentials(form), salt).1 == RedirectHome
    ensures LoginSpec(RegisterSpec(db, h, ReadCredentials(form), salt).0, h, ReadCredentials(form)) == AuthenticatedPage(Strip(Field(form, "username")))
  {
    var c := ReadCredentials(form);
    AddThenValidate(db, h, c.username, c.password, salt);
  }

  /** The register view on the live store. */
  method Register(store: UserStore, h: Hasher, form: Form, salt: Salt) returns (page: Page)
    requires store.Valid()
    modifies store
    ensures store.Valid()
    ensures (store.State(), page) == RegisterSpec(old(store.State()), h, ReadCredentials(form), salt)
  {
    var u := Strip(Field(form, "username"));
    var p := Strip(Field(form, "password"));
    if u == [] || p == [] {
      return RegisterPage(InvalidData);
    }
    var res := store.AddUser(h, u, p, salt);
    match res
    case Ok(_) =>
      page := RedirectHome;
    case Err(IntegrityError) =>
      page := RegisterPage(UserExists);
    case Err(OperationalError) =>
      page := InternalServerError;
  }

  /** The login view on the live store; it only reads. */
  method Login(store: UserStore, h: Hasher, form: Form) returns (page: Page)
    requires store.Valid()
    ensures page == LoginSpec(store.State(), h, ReadCredentials(form))
  {
    var u := Strip(Field(form, "username"));
    var p := Strip(Field(form, "password"));
    var ok := store.ValidateUser(h, u, p);
    match ok
    case Ok(true) =>
      page := AuthenticatedPage(u);
    case Ok(false) =>
      page := LoginPage(BadCredentials);
    case Err(_) =>
      page := InternalServerError;
  }
}
