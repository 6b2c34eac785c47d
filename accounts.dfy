/** The `users` table, `POST /api/auth/register` and `POST /api/auth/login`. */
module Accounts {
  import opened Wrappers
  import opened Bcrypt
  import opened Jwt
  import opened Http

  /** A row of `users`; `password` holds the bcrypt hash, never the password. */
  datatype User = User(id: int, username: string, password: PasswordHash, createdAt: int)

  /** The rows in storage order, and the last id the AUTOINCREMENT sequence handed out. */
  datatype UserTable = UserTable(rows: seq<User>, lastId: int)

  /** A freshly created table. */
  const Empty := UserTable([], 0)

  /** Ids come from the AUTOINCREMENT sequence in insertion order; usernames are UNIQUE. */
  ghost predicate Valid(t: UserTable) {
    && t.lastId >= 0
    && (forall i :: 0 <= i < |t.rows| ==> 1 <= t.rows[i].id <= t.lastId)
    && (forall i, j :: 0 <= i < j < |t.rows| ==> t.rows[i].id < t.rows[j].id)
    && (forall i, j :: 0 <= i < j < |t.rows| ==> t.rows[i].username != t.rows[j].username)
  }

  /** `SELECT * FROM users WHERE username = ?` with `.get()`: the first row with that name. */
  function SelectByUsername(rows: seq<User>, username: string): (r: Option<User>)
    ensures r.Some? ==> r.value in rows && r.value.username == username
    ensures r.None? ==> forall u :: u in rows ==> u.username != username
  {
    if rows == [] then None
    else
      var init, last := rows[..|rows| - 1], rows[|rows| - 1];
      assert rows == init + [last];
      var earlier := SelectByUsername(init, username);
      if earlier.Some? then earlier
      else if last.username == username then Some(last)
      else None
  }

  /** The values of the `id` column: the keys a `scores.user_id` may refer to. */
  function Ids(rows: seq<User>): (r: set<int>)
    ensures forall id :: id in r <==> exists u :: u in rows && u.id == id
  {
    set u | u in rows :: u.id
  }

  /** Under the UNIQUE constraint, the user with a name is the one the query finds. */
  lemma SelectByUsernameUnique(t: UserTable, user: User)
    requires Valid(t) && user in t.rows
    ensures SelectByUsername(t.rows, user.username) == Some(user)
  {
    var found := SelectByUsername(t.rows, user.username).value;
    var i :| 0 <= i < |t.rows| && t.rows[i] == user;
    var j :| 0 <= j < |t.rows| && t.rows[j] == found;
    assert i == j;
  }

  // ---------------------------------------------------------------------------
  // The INSERT statement and its failure

  /** The extended result code better-sqlite3 puts in `err.code` when the UNIQUE index on
      `username` rejects an insert. */
  const UniqueViolation := "SQLITE_CONSTRAINT_UNIQUE"

  datatype InsertResult = Inserted(table: UserTable, id: int) | Rejected(code: string)

  /** `INSERT INTO users (username, password) VALUES (?, ?)`: a taken name violates the
      UNIQUE constraint; otherwise the row gets the next id and `created_at` = now. */
  function Insert(t: UserTable, username: string, hashed: PasswordHash, now: int): (r: InsertResult)
    ensures r.Rejected? <==> exists u :: u in t.rows && u.username == username
    ensures r.Rejected? ==> r.code == UniqueViolation
    ensures r.Inserted? ==> && r.id == t.lastId + 1
                            && r.table == UserTable(t.rows + [User(r.id, username, hashed, now)], r.id)
  {
    if SelectByUsername(t.rows, username).Some? then Rejected(UniqueViolation)
    else
      var id := t.lastId + 1;
      Inserted(UserTable(t.rows + [User(id, username, hashed, now)], id), id)
  }

  /** The `catch` block of the register handler as written: it tests for the primary
      result code, which an error carrying an extended code never equals. */
  function InsertFailureAsWritten(code: string): (r: Response)
    ensures r == UsernameTaken <==> code == "SQLITE_CONSTRAINT"
    ensures r != UsernameTaken ==> r == InternalError
  {
    if code == "SQLITE_CONSTRAINT" then UsernameTaken else InternalError
  }

  /** As written, a taken username is reported as an internal error. */
  lemma DuplicateUsernameAsWritten()
    ensures InsertFailureAsWritten(UniqueViolation) == InternalError
  {
  }

  /** Any constraint failure, primary or extended code. */
  predicate IsConstraintViolation(code: string) {
    code == "SQLITE_CONSTRAINT" || "SQLITE_CONSTRAINT_" <= code
  }

  /** The `catch` block as intended: constraint failures are a taken username. */
  function InsertFailure(code: string): (r: Response)
    ensures r == UsernameTaken <==> IsConstraintViolation(code)
    ensures r != UsernameTaken ==> r == InternalError
  {
    if IsConstraintViolation(code) then UsernameTaken else InternalError
  }

  /** As intended, a taken username is reported as such. */
  lemma DuplicateUsernameReported()
    ensures InsertFailure(UniqueViolation) == UsernameTaken
    ensures InsertFailureAsWritten(UniqueViolation) != InsertFailure(UniqueViolation)
  {
  }

  // ---------------------------------------------------------------------------
  // Register

  /** `!field` is false: the field is a non-empty string. */
  predicate Present(field: Option<string>) {
    field.Some? && field.value != ""
  }

  datatype Registration = Registration(table: UserTable, response: Response)

  /** `POST /api/auth/register` with the body's fields (None where absent), the salt
      bcrypt draws, and the time of the request. */
  function Register(schedule: KeySchedule, key: SigningKey, t: UserTable,
                    username: Option<string>, password: Option<string>, salt: Salt, now: int): (r: Registration)
    ensures r.response.status == 200
        <==> Present(username) && Present(password) && forall u :: u in t.rows ==> u.username != username.value
    ensures r.response.status != 200 ==> r.table == t
    ensures forall u :: u in t.rows ==> u in r.table.rows
  {
    if !Present(username) || !Present(password) then Registration(t, MissingFields)
    else
      var hashed := Hash(schedule, password.value, salt);
      match Insert(t, username.value, hashed, now)
      case Rejected(code) => Registration(t, InsertFailure(code))
      case Inserted(t', id) => Registration(t', SignedIn(key, id, username.value, now))
  }

  /** A missing or empty field is rejected before anything else, and nothing is stored. */
  lemma RegisterMissingFields(schedule: KeySchedule, key: SigningKey, t: UserTable,
                              username: Option<string>, password: Option<string>, salt: Salt, now: int)
    requires !Present(username) || !Present(password)
    ensures Register(schedule, key, t, username, password, salt, now) == Registration(t, MissingFields)
  {
  }

  /** A taken username is rejected whatever the password, and nothing is stored. */
  lemma RegisterTaken(schedule: KeySchedule, key: SigningKey, t: UserTable,
                      username: string, password: string, salt: Salt, now: int, holder: User)
    requires username != "" && password != ""
    requires holder in t.rows && holder.username == username
    ensures Register(schedule, key, t, Some(username), Some(password), salt, now) == Registration(t, UsernameTaken)
  {
    assert Insert(t, username, Hash(schedule, password, salt), now) == Rejected(UniqueViolation);
    DuplicateUsernameReported();
  }

  /** A successful registration adds exactly one user, under a fresh id above every
      existing one and with the hash of the password, and answers with the identity the
      signed token carries. */
  lemma RegisterCreates(schedule: KeySchedule, key: SigningKey, t: UserTable,
                        username: string, password: string, salt: Salt, now: int)
    requires Valid(t)
    requires username != "" && password != ""
    requires forall u :: u in t.rows ==> u.username != username
    ensures var r := Register(schedule, key, t, Some(username), Some(password), salt, now);
            var id := t.lastId + 1;
            && r.table.rows == t.rows + [User(id, username, Hash(schedule, password, salt), now)]
            && r.table.lastId == id
            && (forall u :: u in t.rows ==> u.id < id)
            && Compare(schedule, password, r.table.rows[|t.rows|].password)
            && r.response.status == 200
            && r.response.body == Identity(id, username)
            && r.response.cookie.SetToken?
            && Verify(key, r.response.cookie.token) == Some(Claims(id, username, now))
  {
  }

  /** Registration keeps ids fresh and ordered and usernames unique. */
  lemma RegisterValid(schedule: KeySchedule, key: SigningKey, t: UserTable,
                      username: Option<string>, password: Option<string>, salt: Salt, now: int)
    requires Valid(t)
    ensures Valid(Register(schedule, key, t, username, password, salt, now).table)
  {
    if Present(username) && Present(password) && SelectByUsername(t.rows, username.value).None? {
      assert forall i :: 0 <= i < |t.rows| ==> t.rows[i] in t.rows;
    }
  }

  // ---------------------------------------------------------------------------
  // Login

  /** `POST /api/auth/login`: the one failure answer serves unknown names and wrong
      passwords alike. */
  function Login(schedule: KeySchedule, key: SigningKey, rows: seq<User>,
                 username: string, password: string, now: int): (r: Response)
    ensures r.status != 200 ==> r == InvalidCredentials
    ensures r.status == 200 ==>
              exists u :: && u in rows && u.username == username && Compare(schedule, password, u.password)
                          && r == SignedIn(key, u.id, u.username, now)
  {
    match SelectByUsername(rows, username)
    case None => InvalidCredentials
    case Some(user) =>
      if !Compare(schedule, password, user.password) then InvalidCredentials
      else SignedIn(key, user.id, user.username, now)
  }

  /** Login succeeds exactly for a stored user whose hash accepts the password, and then
      signs in as that user; every failure is the same answer. */
  lemma LoginOutcome(schedule: KeySchedule, key: SigningKey, t: UserTable,
                     username: string, password: string, now: int)
    requires Valid(t)
    ensures var r := Login(schedule, key, t.rows, username, password, now);
            && (r.status == 200 <==>
                  exists u :: u in t.rows && u.username == username && Compare(schedule, password, u.password))
            && (r.status != 200 ==> r == InvalidCredentials)
            && (forall u :: u in t.rows && u.username == username && Compare(schedule, password, u.password)
                  ==> r == SignedIn(key, u.id, username, now))
  {
    forall u | u in t.rows && u.username == username {
      SelectByUsernameUnique(t, u);
    }
  }

  /** An unknown username and a wrong password get the identical answer. */
  lemma LoginIndistinguishable(schedule: KeySchedule, key: SigningKey, rows: seq<User>,
                               unknown: string, anyPassword: string, known: User, wrongPassword: string,
                               now: int, later: int)
    requires forall u :: u in rows ==> u.username != unknown
    requires SelectByUsername(rows, known.username) == Some(known)
    requires !Compare(schedule, wrongPassword, known.password)
    ensures Login(schedule, key, rows, unknown, anyPassword, now)
         == Login(schedule, key, rows, known.username, wrongPassword, later)
         == InvalidCredentials
  {
  }

  /** Registering and then logging in with the same credentials signs in as the user
      just created. */
  lemma {:induction false} RegisterThenLogin(schedule: KeySchedule, key: SigningKey, t: UserTable,
                                             username: string, password: string, salt: Salt,
                                             now: int, later: int)
    requires Valid(t)
    requires Register(schedule, key, t, Some(username), Some(password), salt, now).response.status == 200
    ensures var r := Register(schedule, key, t, Some(username), Some(password), salt, now);
            && r.response.body == Identity(t.lastId + 1, username)
            && Login(schedule, key, r.table.rows, username, password, later)
               == SignedIn(key, t.lastId + 1, username, later)
  {
    var r := Register(schedule, key, t, Some(username), Some(password), salt, now);
    var user := User(t.lastId + 1, username, Hash(schedule, password, salt), now);
    assert r.table.rows == t.rows + [user];
    RegisterValid(schedule, key, t, Some(username), Some(password), salt, now);
    SelectByUsernameUnique(r.table, user);
  }
}
