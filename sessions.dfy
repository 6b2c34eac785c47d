/** The `authenticate` middleware and `GET /api/auth/me`. */
module Sessions {
  import opened Wrappers
  import opened Jwt
  import opened Http

  datatype Auth = Authenticated(user: Claims) | Refused(response: Response)

  /** `authenticate`, given the `token` cookie (None where the request has none): a
      missing or empty cookie is "Unauthorized", one `jwt.verify` rejects is "Invalid
      token", and otherwise the decoded claims become `req.user`. */
  function Authenticate(key: SigningKey, cookie: Option<Token>): (r: Auth)
    ensures cookie.None? || cookie == Some(Unparsable("")) ==> r == Refused(Unauthorized)
    ensures r.Authenticated? <==> cookie.Some? && Verify(key, cookie.value).Some?
    ensures r.Authenticated? ==> cookie == Some(Sign(key, r.user.id, r.user.username, r.user.iat))
    ensures r.Refused? ==> r.response in {Unauthorized, InvalidToken}
  {
    if cookie.None? || cookie.value == Unparsable("") then Refused(Unauthorized)
    else
      match Verify(key, cookie.value)
      case None => Refused(InvalidToken)
      case Some(claims) =>
        VerifyExactlySigned(key, cookie.value, claims);
        Authenticated(claims)
  }

  /** A present cookie that fails verification is "Invalid token". */
  lemma AuthenticateInvalid(key: SigningKey, token: Token)
    requires token != Unparsable("") && Verify(key, token).None?
    ensures Authenticate(key, Some(token)) == Refused(InvalidToken)
  {
  }

  /** A token this server signed lets its claims through unchanged. */
  lemma AuthenticateSigned(key: SigningKey, id: int, username: string, now: int)
    ensures Authenticate(key, Some(Sign(key, id, username, now))) == Authenticated(Claims(id, username, now))
  {
  }

  /** `GET /api/auth/me`: the decoded claims, behind `authenticate`. */
  function Me(key: SigningKey, cookie: Option<Token>): (r: Response)
    ensures r.status == 200 <==> cookie.Some? && Verify(key, cookie.value).Some?
    ensures r.status == 200 ==> r == Response(200, Profile(Verify(key, cookie.value).value), Untouched)
    ensures r.status != 200 ==> r in {Unauthorized, InvalidToken}
  {
    match Authenticate(key, cookie)
    case Refused(response) => response
    case Authenticated(claims) => Response(200, Profile(claims), Untouched)
  }

  /** With the cookie a sign-in set, `me` answers with the signed-in identity. */
  lemma MeAfterSignIn(key: SigningKey, id: int, username: string, now: int)
    ensures var r := SignedIn(key, id, username, now);
            Me(key, Some(r.cookie.token)) == Response(200, Profile(Claims(id, username, now)), Untouched)
  {
  }
}
