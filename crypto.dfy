/** Password hashing as bcrypt does it, over an uninterpreted key schedule.

    A bcrypt hash records the work factor and the random salt it was made with next
    to the derived digest; checking a password re-derives the digest from the candidate
    with the recorded factor and salt and compares. The key schedule itself (the
    expensive, one-way part) is any function of the right type, so nothing here depends
    on what it computes. */
module Bcrypt {
  type Salt = seq<bv8>
  type Digest = seq<bv8>

  /** The cost-parameterised key schedule: password, cost, salt to digest. */
  type KeySchedule = (string, nat, Salt) -> Digest

  /** The work factor the server hashes with. */
  const WorkFactor: nat := 10

  /** A stored hash: it holds no trace of the password other than the digest. */
  datatype PasswordHash = PasswordHash(cost: nat, salt: Salt, digest: Digest)

  /** `bcrypt.compare(password, stored)`. */
  predicate Compare(schedule: KeySchedule, password: string, stored: PasswordHash) {
    schedule(password, stored.cost, stored.salt) == stored.digest
  }

  /** `bcrypt.hash(password, 10)` with the salt it draws at random given as `salt`:
      the hash it makes accepts the password it was made from. */
  function Hash(schedule: KeySchedule, password: string, salt: Salt): (h: PasswordHash)
    ensures h.cost == WorkFactor && h.salt == salt
    ensures Compare(schedule, password, h)
  {
    PasswordHash(WorkFactor, salt, schedule(password, WorkFactor, salt))
  }

  /** A candidate is accepted exactly when the schedule derives the same digest from it
      as from the hashed password, under the same cost and salt. */
  lemma CompareHash(schedule: KeySchedule, hashed: string, salt: Salt, candidate: string)
    ensures Compare(schedule, candidate, Hash(schedule, hashed, salt))
        <==> schedule(candidate, WorkFactor, salt) == schedule(hashed, WorkFactor, salt)
  {
  }
}

/** Session tokens: HMAC-signed JSON Web Tokens over an uninterpreted MAC.

    A token is represented by its parsed form: the claims it carries and the signature
    over them. A cookie value that does not parse as a signed token at all is kept as
    the raw text. */
module Jwt {
  import opened Wrappers

  type Mac = seq<bv8>

  /** What `jsonwebtoken` puts in a token signed with a bare `{id, username}` payload:
      the payload and the issued-at time `iat`, in seconds. */
  datatype Claims = Claims(id: int, username: string, iat: int)

  datatype Token =
    | Signed(claims: Claims, signature: Mac)
    | Unparsable(text: string)

  /** The keyed MAC (HMAC-SHA256 by default) and the server's signing secret. */
  datatype SigningKey = SigningKey(mac: (string, Claims) -> Mac, secret: string)

  /** `jwt.sign({ id, username }, JWT_SECRET)` at time `now`. */
  function Sign(key: SigningKey, id: int, username: string, now: int): (t: Token)
    ensures Verify(key, t) == Some(Claims(id, username, now))
  {
    var claims := Claims(id, username, now);
    Signed(claims, key.mac(key.secret, claims))
  }

  /** `jwt.verify(token, JWT_SECRET)`: the decoded claims, or None where it throws. */
  function Verify(key: SigningKey, t: Token): (r: Option<Claims>)
    ensures r.Some? ==> t.Signed? && r.value == t.claims
  {
    match t
    case Unparsable(_) => None
    case Signed(claims, signature) =>
      if signature == key.mac(key.secret, claims) then Some(claims) else None
  }

  /** A token verifies to some claims exactly when it is the token signed for them. */
  lemma VerifyExactlySigned(key: SigningKey, t: Token, c: Claims)
    ensures Verify(key, t) == Some(c) <==> t == Sign(key, c.id, c.username, c.iat)
  {
  }

  /** Altering the signature of a signed token makes it fail verification. */
  lemma TamperedSignatureRejected(key: SigningKey, id: int, username: string, now: int, forged: Mac)
    requires forged != Sign(key, id, username, now).signature
    ensures Verify(key, Signed(Claims(id, username, now), forged)).None?
  {
  }

  /** Altering the claims of a signed token makes it fail verification, unless the MAC
      happens to collide on the two claim sets. */
  lemma TamperedClaimsRejected(key: SigningKey, id: int, username: string, now: int, forged: Claims)
    requires key.mac(key.secret, forged) != key.mac(key.secret, Claims(id, username, now))
    ensures Verify(key, Signed(forged, Sign(key, id, username, now).signature)).None?
  {
  }
}
