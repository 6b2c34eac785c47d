/** The server process: one database holding the `users` and `scores` tables, updated in
    place by the route handlers, each of which runs as one atomic step. */
module Server {
  import opened Wrappers
  import opened Bcrypt
  import opened Jwt
  import opened Http
  import Accounts
  import Sessions
  import Ledger

  class Arcade {
    const schedule: KeySchedule
    const key: SigningKey

    var users: seq<Accounts.User>
    var lastUserId: int
    var scores: seq<Ledger.Score>
    var lastScoreId: int

    ghost function Users(): Accounts.UserTable
      reads this
    {
      Accounts.UserTable(users, lastUserId)
    }

    ghost function Scores(): Ledger.ScoreTable
      reads this
    {
      Ledger.ScoreTable(scores, lastScoreId)
    }

    ghost predicate Valid()
      reads this
    {
      && Accounts.Valid(Users())
      && Ledger.Valid(Scores())
      && Ledger.References(Scores(), Accounts.Ids(users))
    }

    /** Opening a new database: both tables are created empty, and foreign keys are
        enforced. */
    constructor (schedule: KeySchedule, key: SigningKey)
      ensures Valid()
      ensures this.schedule == schedule && this.key == key
      ensures Users() == Accounts.Empty && Scores() == Ledger.Empty
    {
      this.schedule := schedule;
      this.key := key;
      users, lastUserId := [], 0;
      scores, lastScoreId := [], 0;
    }

    /** `POST /api/auth/register`. */
    method Register(username: Option<string>, password: Option<string>, salt: Salt, now: int)
      returns (response: Response)
      requires Valid()
      modifies this
      ensures Valid()
      ensures Accounts.Registration(Users(), response)
           == Accounts.Register(schedule, key, old(Users()), username, password, salt, now)
      ensures scores == old(scores) && lastScoreId == old(lastScoreId)
    {
      Accounts.RegisterValid(schedule, key, Users(), username, password, salt, now);
      if username.None? || username.value == "" || password.None? || password.value == "" {
        return MissingFields;
      }
      var hashed := Hash(schedule, password.value, salt);
      if Accounts.SelectByUsername(users, username.value).Some? {
        // the UNIQUE index rejects the insert and the handler's catch block answers
        return Accounts.InsertFailure(Accounts.UniqueViolation);
      }
      lastUserId := lastUserId + 1;
      users := users + [Accounts.User(lastUserId, username.value, hashed, now)];
      response := SignedIn(key, lastUserId, username.value, now);
    }

    /** `POST /api/auth/login`: reads `users` and changes nothing. */
    method Login(username: string, password: string, now: int) returns (response: Response)
      ensures response == Accounts.Login(schedule, key, users, username, password, now)
    {
      var found := Accounts.SelectByUsername(users, username);
      if found.None? || !Compare(schedule, password, found.value.password) {
        return InvalidCredentials;
      }
      response := SignedIn(key, found.value.id, found.value.username, now);
    }

    /** `GET /api/auth/me`. */
    method Me(cookie: Option<Token>) returns (response: Response)
      ensures response == Sessions.Me(key, cookie)
    {
      var auth := Sessions.Authenticate(key, cookie);
      if auth.Refused? {
        return auth.response;
      }
      response := Response(200, Profile(auth.user), Untouched);
    }

    /** `POST /api/auth/logout`: clears the cookie; the token itself stays valid. */
    method Logout() returns (response: Response)
      ensures response.status == 200 && response.body == Done && response.cookie == ClearToken
    {
      response := Response(200, Done, ClearToken);
    }

    /** `GET /api/scores`: the caller's rows, behind `authenticate`. */
    method ListScores(cookie: Option<Token>) returns (response: Response)
      ensures match Sessions.Authenticate(key, cookie)
              case Refused(refusal) => response == refusal
              case Authenticated(user) =>
                response == Response(200, Rows(Ledger.SelectByUser(scores, user.id)), Untouched)
    {
      var auth := Sessions.Authenticate(key, cookie);
      if auth.Refused? {
        return auth.response;
      }
      response := Response(200, Rows(Ledger.SelectByUser(scores, auth.user.id)), Untouched);
    }

    /** `POST /api/scores`, behind `authenticate`: read the caller's row for the game,
        compare, and write only when there is none or the new score is strictly greater.
        An insert for an id that names no user fails the foreign key and throws. */
    method SubmitScore(cookie: Option<Token>, gameId: string, score: int, now: int)
      returns (response: Response)
      requires Valid()
      modifies this
      ensures Valid()
      ensures users == old(users) && lastUserId == old(lastUserId)
      ensures match Sessions.Authenticate(key, cookie)
              case Refused(refusal) =>
                response == refusal && scores == old(scores) && lastScoreId == old(lastScoreId)
              case Authenticated(user) =>
                match Ledger.Store(old(Scores()), Accounts.Ids(users), user.id, gameId, score, now)
                case None =>
                  response == UncaughtError && scores == old(scores) && lastScoreId == old(lastScoreId)
                case Some(stored) =>
                  response == Response(200, Done, Untouched) && Scores() == stored
    {
      var auth := Sessions.Authenticate(key, cookie);
      if auth.Refused? {
        return auth.response;
      }
      var userId := auth.user.id;
      var existing := Ledger.SelectScore(scores, userId, gameId);
      if existing.Some? || userId in Accounts.Ids(users) {
        Ledger.StoreValid(Scores(), Accounts.Ids(users), userId, gameId, score, now);
      }
      if existing.Some? {
        if score > existing.value.score {
          scores := Ledger.UpdateById(scores, existing.value.id, score, now);
        }
      } else {
        if userId !in Accounts.Ids(users) {
          // the INSERT fails the foreign key; nothing catches the exception
          return UncaughtError;
        }
        lastScoreId := lastScoreId + 1;
        scores := scores + [Ledger.Score(lastScoreId, userId, gameId, score, now)];
      }
      response := Response(200, Done, Untouched);
    }
  }

  /** A session end to end: register, a failed login, three submissions for one game,
      and the listing that shows only the best of them. */
  method Session(schedule: KeySchedule, key: SigningKey, salt: Salt) returns (listed: Response)
    requires schedule("wrong", WorkFactor, salt) != schedule("pw1", WorkFactor, salt)
    ensures listed == Response(200, Rows([Ledger.Score(1, 1, "asdd", 900, 5)]), Untouched)
  {
    var server := new Arcade(schedule, key);
    Accounts.RegisterCreates(schedule, key, Accounts.Empty, "bruce", "pw1", salt, 1);
    var registered := server.Register(Some("bruce"), Some("pw1"), salt, 1);
    var bruce := Accounts.User(1, "bruce", Hash(schedule, "pw1", salt), 1);
    assert server.users == [bruce];
    assert registered.cookie == SetToken(Sign(key, 1, "bruce", 1));
    var refused := server.Login("bruce", "wrong", 2);
    assert Accounts.SelectByUsername([bruce], "bruce") == Some(bruce);
    assert refused == InvalidCredentials;
    var cookie := Some(Sign(key, 1, "bruce", 1));
    Sessions.AuthenticateSigned(key, 1, "bruce", 1);
    assert Sessions.Authenticate(key, cookie) == Sessions.Authenticated(Claims(1, "bruce", 1));
    Ledger.BestSubmissionKept();
    var _ := server.SubmitScore(cookie, "asdd", 500, 3);
    var _ := server.SubmitScore(cookie, "asdd", 300, 4);
    var _ := server.SubmitScore(cookie, "asdd", 900, 5);
    listed := server.ListScores(cookie);
  }
}
