# Credential store and route-script logic, modelled in Dafny

This project models two pieces of a small Python repository.

The first is the credential store of the Flask + SQLite web application
(`carpeta_item_3/aplicacion_item3.py`). It has the `users` table, with an
`id INTEGER PRIMARY KEY AUTOINCREMENT`, a `username TEXT UNIQUE NOT NULL` and a
`password_hash TEXT NOT NULL` column. The model covers the four store functions
`init_db`, `add_user`, `get_password_hash` and `validate_user`, and the POST
side of the `register` and `login` views.

- The database file is a value `Db`: whether the table exists, a map from
  username to row (the map key is the UNIQUE constraint), and the next
  AUTOINCREMENT id.
- The class `UserStore` holds the same three things as fields. Its methods
  `InitDb` and `AddUser` update them in place. `GetPasswordHash` and
  `ValidateUser` only read them.
- Each method is proved equal to a function on `Db`: `InitTable`,
  `InsertUser`, `LookupHash` and `CheckCredentials`. The lemmas are stated
  about those functions.
- werkzeug's `generate_password_hash` / `check_password_hash` are a `Hasher`
  value: any pair of functions. The random salt is an explicit argument.
  The one property the round trip needs is the predicate `Hashing.Sound`: a
  generated hash is non-empty and verifies against its own password. Lemmas
  that need it take it as a hypothesis.
- `WrongPasswordRefused` rests on a second hypothesis, `Hashing.Binding`: a
  generated hash verifies against no other password. This is assumed of
  werkzeug, which meets it only up to hash collisions; the code does not
  rely on it and nothing in the model proves it.
- The sqlite3 exceptions that escape the store are error values.
  `OperationalError` stands for "no such table", raised when an operation
  runs before `init_db`. `IntegrityError` stands for the UNIQUE violation.
- The views strip both form fields with Python's `str.strip()`, modelled in
  `PyStr.Strip` over Python's whitespace set. A `Page` value says which
  template or redirect is answered and with which message.

The second is the integer logic of `script_graphhoper.py`. This covers
`ms_to_hms`, and the decisions `main` takes on the three lines typed in each
round of its loop: the `'v'` exit test and the transport menu.

Behaviour of the code worth noting:

- `validate_user` returns `False` for an unknown user before any hash work.
  There is no dummy verification pass.
- The test `not pw_hash` also refuses a stored empty hash.
- The login view has no emptiness check. It strips and validates.
- Every store operation raises `OperationalError` if the table does not yet
  exist. This includes `validate_user`.

## Model

| member | source | states |
|---|---|---|
| PyStr.TrimStartSpec | carpeta_item_3/aplicacion_item3.py:110 | the leading-whitespace removal leaves a suffix of the input that does not start with whitespace, and only whitespace was removed |
| PyStr.TrimEndSpec | carpeta_item_3/aplicacion_item3.py:110 | the trailing-whitespace removal leaves a prefix of the input that does not end with whitespace, and only whitespace was removed |
| PyStr.Strip | carpeta_item_3/aplicacion_item3.py:110-111 | `strip()` never makes a string longer; what it leaves is stated by `StripEnds` and `StripSlice` |
| PyStr.StripEnds | carpeta_item_3/aplicacion_item3.py:110-111 | a non-empty result of `strip()` starts and ends with a non-whitespace character |
| PyStr.StripSlice | carpeta_item_3/aplicacion_item3.py:110-111 | `strip()` gives a contiguous slice of the input, and everything before and after that slice is whitespace |
| PyStr.StripEmptyIff | carpeta_item_3/aplicacion_item3.py:110-112 | the stripped string is empty exactly when the input is all whitespace |
| PyStr.StripIdempotent | carpeta_item_3/aplicacion_item3.py:110-111 | stripping twice is the same as stripping once |
| PyStr.IsSpace | carpeta_item_3/aplicacion_item3.py:110-111 | the whitespace set `strip()` removes is Python's `str.isspace()` set; no ASCII letter or digit is in it |
| PyStr.LowerChar | script_graphhoper.py:71 | `lower()` on one character: each capital A-Z goes to its own lowercase letter, every other character is unchanged (ASCII only, see Left out) |
| PyStr.Lower | script_graphhoper.py:71 | `lower()` keeps the length and lowers each character in place |
| PyStr.LowerIsSingle | script_graphhoper.py:84-90 | a string lowers to a one-character string exactly when it is that character or its capital |
| CredentialStore.InitTable | carpeta_item_3/aplicacion_item3.py:26-37 | after `init_db` the table exists |
| CredentialStore.InitTableIdempotent | carpeta_item_3/aplicacion_item3.py:26-37 | `CREATE TABLE IF NOT EXISTS` is idempotent and a no-op on an existing table; it keeps every row, the id counter and the invariant |
| CredentialStore.InsertUser | carpeta_item_3/aplicacion_item3.py:47-53 | `add_user` succeeds exactly when the table exists and the username is new, and then stores the generated hash under the username; without a table it fails with OperationalError; on a taken username it fails with IntegrityError; on any failure the database is unchanged |
| CredentialStore.InsertUserAddsOneRow | carpeta_item_3/aplicacion_item3.py:32-33 | a new username gets exactly one new row, whose id is above every existing id; all other rows are unchanged |
| CredentialStore.InsertUserPreservesInv | carpeta_item_3/aplicacion_item3.py:31-35 | inserting keeps one row per username and distinct ids below the counter; it only ever adds rows |
| CredentialStore.InsertTwiceKeepsFirst | carpeta_item_3/aplicacion_item3.py:47-53 | a second insert of the same username fails with IntegrityError, and the first hash stays stored |
| CredentialStore.LookupHash | carpeta_item_3/aplicacion_item3.py:39-45 | `get_password_hash` returns the stored hash when the user is present, and None when it is absent; it fails only when the table is missing |
| CredentialStore.LookupAfterInsert | carpeta_item_3/aplicacion_item3.py:39-53 | after a successful `add_user(u, p)`, `get_password_hash(u)` returns the generated hash, and the lookup of every other username is unchanged |
| CredentialStore.CheckCredentials | carpeta_item_3/aplicacion_item3.py:55-60 | `validate_user` errs only without a table; a true verdict means the user exists and `check_password_hash` accepted the stored hash |
| CredentialStore.UnknownUserRefused | carpeta_item_3/aplicacion_item3.py:57-59 | for an absent user the verdict is false and depends on neither the hash functions nor the password, so no hash check is made |
| CredentialStore.KnownUserChecked | carpeta_item_3/aplicacion_item3.py:58-60 | for a present user with a non-empty hash, the verdict is exactly `check_password_hash(stored, password)` |
| CredentialStore.AddThenValidate | carpeta_item_3/aplicacion_item3.py:49-60 | round trip: after a successful `add_user(u, p)`, `validate_user(u, p)` is true for every salt, given a sound hash pair |
| CredentialStore.WrongPasswordRefused | carpeta_item_3/aplicacion_item3.py:55-60 | given a binding hash pair, after `add_user(u, p)` any other password is refused |
| CredentialStore.ValidStaysValid | carpeta_item_3/aplicacion_item3.py:47-60 | a true verdict stays true in every database that only adds rows |
| CredentialStore.ExtendsTransitive | carpeta_item_3/aplicacion_item3.py:47-53 | "only adds rows, never changes one" composes across operations |
| CredentialStore.RunPreservesInv | carpeta_item_3/aplicacion_item3.py:26-53 | every sequence of `init_db` / `add_user` calls keeps the invariant, and it never modifies or removes a row |
| CredentialStore.RegisteredForever | carpeta_item_3/aplicacion_item3.py:47-60 | once `add_user(u, p)` succeeds, `validate_user(u, p)` stays true after any later operations |
| CredentialStore.UserStore.constructor | carpeta_item_3/aplicacion_item3.py:23-24 | a freshly connected database file has no table and no rows |
| CredentialStore.UserStore.InitDb | carpeta_item_3/aplicacion_item3.py:26-37 | the new state is `InitTable` of the old one: the table exists, and the rows and counter are unchanged |
| CredentialStore.UserStore.GetPasswordHash | carpeta_item_3/aplicacion_item3.py:39-45 | returns `LookupHash` of the current state |
| CredentialStore.UserStore.AddUser | carpeta_item_3/aplicacion_item3.py:47-53 | the new state and the outcome are `InsertUser` of the old state; the invariant is kept; rows are only added |
| CredentialStore.UserStore.ValidateUser | carpeta_item_3/aplicacion_item3.py:55-60 | returns `CheckCredentials` of the current state |
| WebApp.Field | carpeta_item_3/aplicacion_item3.py:110-111 | `request.form.get(name, "")` is the submitted value of a present field and the empty string for a missing one |
| WebApp.ReadCredentials | carpeta_item_3/aplicacion_item3.py:110-111 | both views read the username and password fields and strip them; neither result starts or ends with whitespace |
| WebApp.AcceptableIff | carpeta_item_3/aplicacion_item3.py:110-112 | the register gate `not u or not p` (the predicate `Acceptable`, line 112) passes exactly when neither field is missing or all whitespace |
| WebApp.RegisterSpec | carpeta_item_3/aplicacion_item3.py:107-120 | register answers "Datos inválidos." exactly for a refused input; it redirects home exactly when the table exists and the stripped username is new; any other answer leaves the database unchanged |
| WebApp.RegisterBlankRefused | carpeta_item_3/aplicacion_item3.py:110-113 | a missing or blank field gives "Datos inválidos." and leaves the table untouched |
| WebApp.RegisterDuplicateRefused | carpeta_item_3/aplicacion_item3.py:115-119 | a taken username gives "El usuario ya existe." and leaves the table untouched |
| WebApp.LoginSpec | carpeta_item_3/aplicacion_item3.py:123-131 | login shows the authenticated page, naming the stripped user, exactly when `validate_user` is true; every other outcome gets the one message "Usuario o contraseña incorrectos.", except a missing table, which is a server error |
| WebApp.LoginUnknownUser | carpeta_item_3/aplicacion_item3.py:126-130 | an unknown user gets the same page as a wrong password |
| WebApp.RegisterThenLogin | carpeta_item_3/aplicacion_item3.py:107-131 | registering through the form and then logging in with the same form succeeds, given a sound hash pair |
| WebApp.Register | carpeta_item_3/aplicacion_item3.py:107-120 | the view on the live store: the new state and the page are `RegisterSpec` of the old state |
| WebApp.Login | carpeta_item_3/aplicacion_item3.py:122-131 | the view on the live store returns `LoginSpec` of the current state |
| RouteScript.MsToHms | script_graphhoper.py:13-18 | `h*3600 + m*60 + s == ms / 1000`, `m < 60`, `s < 60`, and `h == (ms / 1000) / 3600` |
| RouteScript.NormalUnique | script_graphhoper.py:15-17 | two readings with minutes and seconds below 60 and the same total are equal |
| RouteScript.MsToHmsIff | script_graphhoper.py:13-18 | `ms_to_hms(ms)` is the one and only normal reading of `ms / 1000` seconds |
| RouteScript.MsToHmsRoundTrip | script_graphhoper.py:13-18 | converting a normal reading to milliseconds, plus fewer than 1000 extra, and back gives the same reading |
| RouteScript.IsQuit | script_graphhoper.py:70-85 | the exit test `line.strip().lower() == "v"` made at the origin (line 71), destination (line 76) and option (line 85) prompts; it passes only for a one-character stripped line |
| RouteScript.IsQuitIff | script_graphhoper.py:70-87 | the exit test at each prompt accepts exactly "v" and "V" with any surrounding whitespace |
| RouteScript.SelectOption | script_graphhoper.py:85-94 | on the stripped, lowered option, a chosen vehicle is always one of the menu's profiles |
| RouteScript.ChooseVehicle | script_graphhoper.py:84-87 | the transport prompt quits exactly when the line passes the exit test |
| RouteScript.SelectOptionMapping | script_graphhoper.py:84-94 | on a stripped option, lowering then selecting maps "1", "2" and "3" to car, bike and foot, and no other option picks a vehicle |
| RouteScript.ChooseVehicleMapping | script_graphhoper.py:89-94 | through the `vehiculos` dictionary (the constant `Vehicles`, line 89), "1", "2" and "3" map to car, bike and foot, and they are the only options that pick a vehicle |
| RouteScript.PlanRound | script_graphhoper.py:69-94 | a request goes to the stripped origin and destination |
| RouteScript.PlanRoundDecides | script_graphhoper.py:69-94 | a round ends the loop exactly when one of its three lines is "v"/"V"; a request is made only when no line quits and the option is "1", "2" or "3", with profile car, bike or foot; every other option is refused before any request |

## Left out

- SQLite connection handling, transactions and `commit` (`get_conn`, the
  `with` blocks) are not modelled. The database is a value. The atomicity of
  the insert under concurrent writers is SQLite's guarantee, not this code's.
- werkzeug's hashing algorithm, salt generation and timing are not modelled.
  The hash pair is a parameter. The salt is an argument instead of a random
  draw.
- No dummy-hash or constant-time path is modelled, because `validate_user`
  returns before any hash work for an unknown user.
- The Flask parts are left out as framework and UI concerns: app setup, the
  secret key, routing, the GET side of the views, the redirect mechanics and
  the rendering of the HTML templates.
- The `__main__` command-line block of the web application is left out
  because it parses argv and prints. Its `add-user` performs no stripping or
  emptiness check.
- `geocode`, `route`, the HTTP calls and everything after the request in
  `main` are left out as network I/O. The same goes for the API-key check,
  the printing and the `input` calls.
- `km_to_miles`, `distance / 1000` and the `{:.2f}` formatting are left out
  because they are floating point.
- RouteScript.MsToHms: takes a natural number of milliseconds. The source
  computes `int(ms / 1000)` in floating point. That is truncation toward zero
  for non-negative values. It loses precision only for durations beyond 2^53
  milliseconds. Negative durations are not modelled.
- PyStr.LowerChar: lowers only the ASCII capitals; Python's `lower()` also maps
  letters such as 'É' to 'é'.
- PyStr.LowerIsSingle: holds of the ASCII-only `Lower`; under Python's
  `lower()` it can fail for some letters (the Kelvin sign lowers to 'k'), but
  not for '1', '2', '3' or 'v', the only characters the script compares with.
- PyStr.Lower: lowers only the ASCII capitals. Python's `lower()` also maps
  non-ASCII letters. No non-ASCII character lowers to "v" or to a digit, so
  the exit test and the menu are unaffected.
- RouteScript.PlanRound: takes all three lines at once. In the source the
  destination and option prompts are not shown once an earlier line has
  ended the loop. The decision is the same.
