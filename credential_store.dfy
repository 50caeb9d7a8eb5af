/** The SQLite-backed credential store: the `users` table
    (id INTEGER PRIMARY KEY AUTOINCREMENT, username TEXT UNIQUE NOT NULL,
    password_hash TEXT NOT NULL) and the four functions that create it,
    insert into it and read it. The table is a map from username to row;
    the UNIQUE constraint is the map's key, AUTOINCREMENT is a counter. */
module CredentialStore {
  import opened Hashing

  /** The sqlite3 exceptions the store's operations let escape. */
  datatype SqlError =
    | OperationalError  // "no such table: users": the table has not been created
    | IntegrityError    // the UNIQUE constraint on username refused an insert

  datatype Result<T> = Ok(value: T) | Err(error: SqlError)

  datatype Option<T> = None | Some(value: T)

  datatype Row = Row(id: nat, username: string, passwordHash: string)

  /** The database file: whether the `users` table exists, its rows by
      username, and the id AUTOINCREMENT hands out next. */
  datatype Db = Db(hasTable: bool, rows: map<string, Row>, nextId: nat)

  /** A database file that `sqlite3.connect` has just created. */
  const EmptyFile := Db(false, map[], 1)

  /** What the schema guarantees of every reachable database: no rows
      before the table exists, each row filed under its own username (so at
      most one row per username), ids from 1 up, below the next id and
      pairwise distinct. */
  ghost predicate Inv(db: Db)
  {
    && (!db.hasTable ==> db.rows == map[] && db.nextId == 1)
    && 1 <= db.nextId
    && (forall u | u in db.rows :: db.rows[u].username == u && 1 <= db.rows[u].id < db.nextId)
    && (forall u, v | u in db.rows && v in db.rows && u != v :: db.rows[u].id != db.rows[v].id)
  }

  /** `after` is `before` with rows added and none changed or removed, and
      with the table and the id counter kept. */
  ghost predicate Extends(before: Db, after: Db)
  {
    && (before.hasTable ==> after.hasTable)
    && before.nextId <= after.nextId
    && (forall u | u in before.rows :: u in after.rows && after.rows[u] == before.rows[u])
  }

  lemma ExtendsTransitive(a: Db, b: Db, c: Db)
    requires Extends(a, b) && Extends(b, c)
    ensures Extends(a, c)
  {
    forall u | u in a.rows ensures u in c.rows && c.rows[u] == a.rows[u] {
      assert u in b.rows;
    }
  }

  /** init_db: CREATE TABLE IF NOT EXISTS. */
  function InitTable(db: Db): (r: Db)
    ensures r.hasTable
  {
    if db.hasTable then db else Db(true, map[], 1)
  }

  /** Creating the table is idempotent, keeps every row and keeps the
      invariant. */
  lemma InitTableIdempotent(db: Db)
    requires Inv(db)
    ensures InitTable(InitTable(db)) == InitTable(db)
    ensures db.hasTable ==> InitTable(db) == db
    ensures InitTable(db).rows == db.rows && InitTable(db).nextId == db.nextId
    ensures Inv(InitTable(db)) && Extends(db, InitTable(db))
  {
  }

  /** add_user: hash the password with a fresh salt, then
      INSERT INTO users(username, password_hash). */
  function InsertUser(db: Db, h: Hasher, username: string, password: string, salt: Salt): (r: (Db, Result<()>))
    ensures r.1.Err? ==> r.0 == db
    ensures r.1 == Err(OperationalError) <==> !db.hasTable
    ensures r.1 == Err(IntegrityError) <==> db.hasTable && username in db.rows
    ensures r.1.Ok? ==> username in r.0.rows && r.0.rows[username].passwordHash == h.generate(password, salt)
  {
    var pwHash := h.generate(password, salt);
    if !db.hasTable then (db, Err(OperationalError))
    else if username in db.rows then (db, Err(IntegrityError))
    else (Db(true, db.rows[username := Row(db.nextId, username, pwHash)], db.nextId + 1), Ok(()))
  }

  /** A new username gets exactly one new row, with an id above every id
      already in the table, and no other row changes. */
  lemma InsertUserAddsOneRow(db: Db, h: Hasher, username: string, password: string, salt: Salt)
    requires Inv(db) && db.hasTable && username !in db.rows
    ensures var (db', res) := InsertUser(db, h, username, password, salt);
      && res == Ok(())
      && db'.rows.Keys == db.rows.Keys + {username}
      && |db'.rows| == |db.rows| + 1
      && db'.rows[username].username == username
      && (forall v | v in db.rows :: db.rows[v].id < db'.rows[username].id)
      && (forall v | v in db.rows :: db'.rows[v] == db.rows[v])
  {
    var db' := InsertUser(db, h, username, password, salt).0;
    assert db'.rows.Keys == db.rows.Keys + {username};
  }

  /** Inserting, whether it succeeds or fails, keeps the invariant and only
      ever adds rows. */
  lemma InsertUserPreservesInv(db: Db, h: Hasher, username: string, password: string, salt: Salt)
    requires Inv(db)
    ensures Inv(InsertUser(db, h, username, password, salt).0)
    ensures Extends(db, InsertUser(db, h, username, password, salt).0)
  {
  }

  /** Registering one username twice: the second insert fails with an
      IntegrityError and the stored hash is still the first one. */
  lemma InsertTwiceKeepsFirst(db: Db, h: Hasher, username: string, p1: string, s1: Salt, p2: string, s2: Salt)
    requires db.hasTable && username !in db.rows
    ensures var db1 := InsertUser(db, h, username, p1, s1).0;
      && InsertUser(db1, h, username, p2, s2) == (db1, Err(IntegrityError))
      && db1.rows[username].passwordHash == h.generate(p1, s1)
  {
  }

  /** get_password_hash: SELECT password_hash FROM users WHERE username = ?. */
  function LookupHash(db: Db, username: string): (r: Result<Option<string>>)
    ensures r == Err(OperationalError) <==> !db.hasTable
    ensures r.Ok? ==> (r.value.Some? <==> username in db.rows)
    ensures r.Ok? && r.value.Some? ==> r.value.value == db.rows[username].passwordHash
  {
    if !db.hasTable then Err(OperationalError)
    else if username in db.rows then Ok(Some(db.rows[username].passwordHash))
    else Ok(None)
  }

  /** After a successful add_user, get_password_hash finds the new hash
      under the new username and the old answer under every other one. */
  lemma LookupAfterInsert(db: Db, h: Hasher, username: string, password: string, salt: Salt, other: string)
    requires InsertUser(db, h, username, password, salt).1 == Ok(())
    ensures LookupHash(InsertUser(db, h, username, password, salt).0, username) == Ok(Some(h.generate(password, salt)))
    ensures other != username ==> LookupHash(InsertUser(db, h, username, password, salt).0, other) == LookupHash(db, other)
  {
  }

  /** validate_user: `not pw_hash` is true for a missing row and for an empty
      stored hash alike; only a non-empty hash reaches check_password_hash. */
  function CheckCredentials(db: Db, h: Hasher, username: string, password: string): (r: Result<bool>)
    ensures r == Err(OperationalError) <==> !db.hasTable
    ensures r == Ok(true) ==> username in db.rows && h.check(db.rows[username].passwordHash, password)
  {
    match LookupHash(db, username)
    case Err(e) => Err(e)
    case Ok(None) => Ok(false)
    case Ok(Some(pwHash)) => if pwHash == [] then Ok(false) else Ok(h.check(pwHash, password))
  }

  /** An unknown username is refused before any hash is checked: the
      verdict is false and does not depend on the hash functions or on the
      password at all. */
  lemma UnknownUserRefused(db: Db, h1: Hasher, h2: Hasher, username: string, p1: string, p2: string)
    requires db.hasTable && username !in db.rows
    ensures CheckCredentials(db, h1, username, p1) == Ok(false)
    ensures CheckCredentials(db, h1, username, p1) == CheckCredentials(db, h2, username, p2)
  {
  }

  /** For a known username with a non-empty hash the verdict is exactly
      check_password_hash's. */
  lemma KnownUserChecked(db: Db, h: Hasher, username: string, password: string)
    requires db.hasTable && username in db.rows && db.rows[username].passwordHash != []
    ensures CheckCredentials(db, h, username, password) == Ok(h.check(db.rows[username].passwordHash, password))
  {
  }

  /** The round trip: after add_user(u, p) succeeds, validate_user(u, p) is
      true, for any salt, provided the hash pair is sound. */
  lemma AddThenValidate(db: Db, h: Hasher, username: string, password: string, salt: Salt)
    requires Sound(h)
    requires InsertUser(db, h, username, password, salt).1 == Ok(())
    ensures CheckCredentials(InsertUser(db, h, username, password, salt).0, h, username, password) == Ok(true)
  {
    var db' := InsertUser(db, h, username, password, salt).0;
    assert db'.rows[username].passwordHash == h.generate(password, salt);
  }

  /** With a binding hash, a registered user is refused any other password. */
  lemma WrongPasswordRefused(db: Db, h: Hasher, username: string, password: string, salt: Salt, guess: string)
    requires Binding(h) && guess != password
    requires InsertUser(db, h, username, password, salt).1 == Ok(())
    ensures CheckCredentials(InsertUser(db, h, username, password, salt).0, h, username, guess) == Ok(false)
  {
    var db' := InsertUser(db, h, username, password, salt).0;
    assert db'.rows[username].passwordHash == h.generate(password, salt);
  }

  /** A verdict of true survives every later change, because rows are never
      updated or deleted. */
  lemma ValidStaysValid(db: Db, db': Db, h: Hasher, username: string, password: string)
    requires Extends(db, db')
    requires CheckCredentials(db, h, username, password) == Ok(true)
    ensures CheckCredentials(db', h, username, password) == Ok(true)
  {
    assert username in db.rows;
  }

  /** The operations that write to the database, for reasoning about any
      sequence of them. */
  datatype Op = InitDbOp | AddUserOp(username: string, password: string, salt: Salt)

  function Apply(db: Db, h: Hasher, op: Op): Db
  {
    match op
    case InitDbOp => InitTable(db)
    case AddUserOp(u, p, s) => InsertUser(db, h, u, p, s).0
  }

  function Run(db: Db, h: Hasher, ops: seq<Op>): Db
    decreases |ops|
  {
    if ops == [] then db else Run(Apply(db, h, ops[0]), h, ops[1..])
  }

  /** Every sequence of operations keeps the invariant (one row per
      username, distinct increasing ids) and never modifies or removes a
      row. */
  lemma {:induction false} RunPreservesInv(db: Db, h: Hasher, ops: seq<Op>)
    requires Inv(db)
    ensures Inv(Run(db, h, ops)) && Extends(db, Run(db, h, ops))
    decreases |ops|
  {
    if ops != [] {
      var db1 := Apply(db, h, ops[0]);
      match ops[0] {
        case InitDbOp => InitTableIdempotent(db);
        case AddUserOp(u, p, s) => InsertUserPreservesInv(db, h, u, p, s);
      }
      RunPreservesInv(db1, h, ops[1..]);
      ExtendsTransitive(db, db1, Run(db1, h, ops[1..]));
    }
  }

  /** Once registered, a user keeps validating with the same password
      whatever is done to the database afterwards. */
  lemma RegisteredForever(db: Db, h: Hasher, username: string, password: string, salt: Salt, later: seq<Op>)
    requires Sound(h) && Inv(db)
    requires InsertUser(db, h, username, password, salt).1 == Ok(())
    ensures CheckCredentials(Run(InsertUser(db, h, username, password, salt).0, h, later), h, username, password) == Ok(true)
  {
    var db1 := InsertUser(db, h, username, password, salt).0;
    AddThenValidate(db, h, username, password, salt);
    InsertUserPreservesInv(db, h, username, password, salt);
    RunPreservesInv(db1, h, later);
    ValidStaysValid(db1, Run(db1, h, later), h, username, password);
  }

  /** The database file as the process sees it, updated in place. */
  class UserStore {
    var hasTable: bool
    var rows: map<string, Row>
    var nextId: nat

    function State(): Db
      reads this
    {
      Db(hasTable, rows, nextId)
    }

    ghost predicate Valid()
      reads this
    {
      Inv(State())
    }

    /** sqlite3.connect on a path with no database yet: an empty file. */
    constructor ()
      ensures Valid() && State() == EmptyFile
    {
      hasTable, rows, nextId := false, map[], 1;
    }

    method InitDb()
      requires Valid()
      modifies this
      ensures Valid() && State() == InitTable(old(State()))
      ensures rows == old(rows) && nextId == old(nextId) && hasTable
    {
      hasTable := true;
    }

    method GetPasswordHash(username: string) returns (r: Result<Option<string>>)
      requires Valid()
      ensures r == LookupHash(State(), username)
    {
      if !hasTable {
        return Err(OperationalError);
      }
      if username in rows {
        r := Ok(Some(rows[username].passwordHash));
      } else {
        r := Ok(None);
      }
    }

    method AddUser(h: Hasher, username: string, password: string, salt: Salt) returns (r: Result<()>)
      requires Valid()
      modifies this
      ensures Valid() && (State(), r) == InsertUser(old(State()), h, username, password, salt)
      ensures Extends(old(State()), State())
    {
      var pwHash := h.generate(password, salt);
      if !hasTable {
        return Err(OperationalError);
      }
      if username in rows {
        return Err(IntegrityError);
      }
      rows := rows[username := Row(nextId, username, pwHash)];
      nextId := nextId + 1;
      r := Ok(());
    }

    method ValidateUser(h: Hasher, username: string, password: string) returns (r: Result<bool>)
      requires Valid()
      ensures r == CheckCredentials(State(), h, username, password)
    {
      var found := GetPasswordHash(username);
      match found
      case Err(e) =>
        r := Err(e);
      case Ok(None) =>
        r := Ok(false);
      case Ok(Some(pwHash)) =>
        if pwHash == [] {
          r := Ok(false);
        } else {
          r := Ok(h.check(pwHash, password));
        }
    }
  }
}
