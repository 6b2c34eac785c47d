/** What a handler sends back: a status, a JSON body, and what it does to the `token`
    cookie. */
module Http {
  import opened Jwt
  import opened Ledger

  datatype Body =
    | Identity(id: int, username: string)   // `{ id, username }`
    | Profile(claims: Claims)                // the decoded token
    | Rows(rows: seq<Score>)                 // score rows, all columns
    | Done                                   // `{ success: true }`
    | Failure(error: string)                 // `{ error }`
    | ErrorPage                              // Express's default error handler's page

  datatype CookieUpdate = Untouched | SetToken(token: Token) | ClearToken

  datatype Response = Response(status: int, body: Body, cookie: CookieUpdate)

  function Fail(status: int, error: string): Response {
    Response(status, Failure(error), Untouched)
  }

  const MissingFields := Fail(400, "Missing fields")
  const UsernameTaken := Fail(400, "Username already exists")
  const InternalError := Fail(500, "Internal server error")
  const InvalidCredentials := Fail(401, "Invalid credentials")
  const Unauthorized := Fail(401, "Unauthorized")
  const InvalidToken := Fail(401, "Invalid token")

  /** What Express sends when a synchronous handler throws and nothing catches it. */
  const UncaughtError := Response(500, ErrorPage, Untouched)

  /** A successful sign-in: the identity in the body and the token for it in the cookie. */
  function SignedIn(key: SigningKey, id: int, username: string, now: int): Response {
    Response(200, Identity(id, username), SetToken(Sign(key, id, username, now)))
  }
}
