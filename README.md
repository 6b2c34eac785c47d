# Arcade portal: accounts, sessions and the best-score ledger

A Dafny model of the server of a small arcade portal, and of three list computations
in its browser client.

The server keeps two SQLite tables:
- `users`: an AUTOINCREMENT id, a UNIQUE username, a bcrypt password hash and a creation time.
- `scores`: an AUTOINCREMENT id, `user_id`, `game_id`, `score` and `updated_at`.

It offers register, login, `me`, logout, a score listing and a best-score submission.
Sessions are HMAC-signed JSON Web Tokens kept in a `token` cookie.

The model is a class, `Server.Arcade`. Its fields hold both tables and their
AUTOINCREMENT counters, and it has one method per route handler. Each handler is one
atomic step.

Every method is proved against a pure function over the tables:
- `Accounts.Register` and `Accounts.Login` for the account routes;
- `Sessions.Authenticate` and `Sessions.Me` for the token check;
- `Ledger.Store` (the best-score rule `Ledger.Submit` under the foreign key) and
  `Ledger.SelectByUser` for the score routes.

The table invariants are proved about those functions:
- usernames are unique;
- ids are fresh and increasing;
- each (user, game) pair has at most one score row;
- every score row's `user_id` names a user;
- scores never decrease.

The server uses better-sqlite3, whose bundled SQLite enforces foreign keys by default.
So a score insert for a `user_id` that names no user fails and throws. Nothing in the
handler catches it, and Express answers 500 (`Ledger.Store`).

Cryptography is kept abstract by passing function values:
- bcrypt's key schedule is any `(password, cost, salt) -> digest` function.
  `Bcrypt.Compare` re-derives the digest with the cost and salt recorded in the hash,
  which is how bcrypt checks a password. So "compare(p, hash(p))" is a theorem here,
  not an assumption.
- The JWT MAC is any `(secret, claims) -> mac` function. A token is represented by its
  parsed form, `Signed(claims, signature)`. A cookie that does not parse as a signed
  token is represented as `Unparsable(text)`.
- The random salt and the clock are parameters.
- `jsonwebtoken` adds an issued-at claim, so the claims are `{id, username, iat}`, and
  `/api/auth/me` returns all three.

The client part (module `Launcher`) models three computations over the static game
catalogue:
- the recently-played list update;
- the search and category filter;
- the de-duplicated category list.

## Model

| member | source | states |
|---|---|---|
| `Bcrypt.Hash` | server.ts:60 | the hash records work factor 10 and the given salt, and `Compare` accepts the password it was made from |
| `Bcrypt.Compare` | server.ts:78 | `bcrypt.compare`: re-derives the digest from the candidate with the stored cost and salt. Its properties are stated by `Bcrypt.Hash` and `Bcrypt.CompareHash` |
| `Bcrypt.CompareHash` | server.ts:78 | a candidate password is accepted exactly when the key schedule gives it the same digest as the hashed password under the stored cost and salt |
| `Jwt.Sign` | server.ts:63 | verifying a freshly signed token gives back exactly the claims `{id, username, iat}` |
| `Jwt.Verify` | server.ts:46 | a token that verifies is a signed token, and verification returns exactly the claims it carries |
| `Jwt.VerifyExactlySigned` | server.ts:46 | a token verifies to some claims if and only if it is the token signed for those claims |
| `Jwt.TamperedSignatureRejected` | server.ts:46 | a signed token whose signature is altered fails verification |
| `Jwt.TamperedClaimsRejected` | server.ts:46 | a signed token whose claims are altered fails verification, unless the MAC collides on the two claim sets |
| `Accounts.SelectByUsername` | server.ts:77 | the row found has the requested name and is in the table; None means no row has that name |
| `Accounts.Ids` | server.ts:18 | the set of values of the `id` column, which a `scores.user_id` may refer to: an id is in it exactly when some stored user has it |
| `Accounts.SelectByUsernameUnique` | server.ts:19 | under the UNIQUE constraint, the stored user with a name is the row the lookup returns |
| `Accounts.Insert` | server.ts:61-62 | the INSERT is rejected, with code `SQLITE_CONSTRAINT_UNIQUE`, exactly when the username is already taken. Otherwise it appends one row under id last+1, holding the name, the hash and the time, and reports that id |
| `Accounts.InsertFailureAsWritten` | server.ts:66-71 | the catch block as written: 400 "Username already exists" exactly when the code is the primary code `SQLITE_CONSTRAINT`, and 500 "Internal server error" otherwise |
| `Accounts.InsertFailure` | server.ts:66-71 | the catch block as intended: 400 "Username already exists" exactly for a constraint failure, with a primary or an extended code, and 500 otherwise |
| `Accounts.DuplicateUsernameAsWritten` | server.ts:67-71 | as written, the catch block turns the UNIQUE failure code `SQLITE_CONSTRAINT_UNIQUE` into 500 "Internal server error" |
| `Accounts.DuplicateUsernameReported` | server.ts:66-68 | the corrected catch block turns that code into 400 "Username already exists", which differs from the as-written answer |
| `Accounts.Register` | server.ts:55-73 | the handler: it answers 200 exactly when both fields are non-empty and the username is free. Any other answer leaves the table unchanged, and no existing user is ever lost. Each case is detailed by the lemmas `RegisterMissingFields`, `RegisterTaken`, `RegisterCreates` and `RegisterValid` |
| `Accounts.RegisterMissingFields` | server.ts:57 | an absent or empty username or password gives 400 "Missing fields" and leaves `users` unchanged |
| `Accounts.RegisterTaken` | server.ts:19 | a username already present gives 400 "Username already exists", for any non-empty password, and leaves `users` unchanged |
| `Accounts.RegisterCreates` | server.ts:60-65 | a successful register appends exactly one user, under id last+1, which is above every existing id. The row stores the hash of the password, which accepts it. The response is 200 `{id, username}`, and the cookie's token verifies to that same id and username |
| `Accounts.RegisterValid` | server.ts:17-22 | register preserves the `users` invariant: ids lie in 1..last and increase in storage order, and usernames are distinct |
| `Accounts.Login` | server.ts:75-85 | the handler: every answer other than 200 is 401 "Invalid credentials". A 200 signs in as a stored user who has that name and whose hash accepts the password. `LoginOutcome` gives the converse |
| `Accounts.LoginOutcome` | server.ts:77-84 | login succeeds exactly when a stored user with that name has a hash that accepts the password, and it then signs in as that user. Every failure is 401 "Invalid credentials" |
| `Accounts.LoginIndistinguishable` | server.ts:78-79 | an unknown username and a known username with a wrong password get the identical response |
| `Accounts.RegisterThenLogin` | server.ts:60-84 | register (u, p) and then login (u, p) signs in with the id and username that register returned |
| `Sessions.Authenticate` | server.ts:42-52 | no cookie, or an empty one, gives 401 "Unauthorized"; a request passes exactly when its token verifies; a passing token is the one signed for `req.user`; every refusal is "Unauthorized" or "Invalid token" |
| `Sessions.AuthenticateInvalid` | server.ts:49-50 | a cookie that is present and non-empty but fails verification gives 401 "Invalid token" |
| `Sessions.AuthenticateSigned` | server.ts:46-48 | a token signed by the server passes, with `req.user` equal to its claims |
| `Sessions.Me` | server.ts:87-89 | `/api/auth/me` answers 200 exactly when the cookie holds a token that verifies, and then its body is the decoded claims. Every other answer is "Unauthorized" or "Invalid token" |
| `Sessions.MeAfterSignIn` | server.ts:87-89 | with the cookie that a sign-in set, `/api/auth/me` returns 200 and the signed-in claims |
| `Ledger.SelectScore` | server.ts:104 | the row found belongs to the requested (user, game) pair and is in the table; None means the pair has no row |
| `Ledger.SelectScoreUnique` | server.ts:104 | with one row per pair, a row of the pair is the row the lookup returns |
| `Ledger.SelectByUser` | server.ts:98 | the listing holds exactly the rows whose `user_id` is the caller's, each as often as it is stored, in storage order |
| `Ledger.UpdateById` | server.ts:108 | the UPDATE keeps the table's length. It leaves every row with another id unchanged. The row with that id keeps its id, user and game and gets the new score and time |
| `Ledger.Submit` | server.ts:104-111 | the best-score rule applied to the table: it adds at most one row, and it adds one exactly when the pair had none. `SubmitSelect`, `SubmitValid`, `SubmitNotImproving`, `SubmitElsewhere` and `SubmitAdvances` give its effect in full |
| `Ledger.Store` | server.ts:104-111 | the handler's write as the database carries it out: it is refused (None), with the table unchanged, exactly when the pair has no row and the caller's id names no user. Otherwise it is `Submit` |
| `Ledger.StoreRefusesExactlyStrangers` | server.ts:30 | while every row names a user, a submission is refused exactly when the caller's id names no user |
| `Ledger.StoreValid` | server.ts:24-31 | a stored submission keeps both invariants: fresh increasing ids with one row per pair, and every row's `user_id` naming a user |
| `Ledger.SubmitSelect` | server.ts:104-111 | if the pair had no row, one is inserted with the next id. If it had one, it takes the new score and time only when the new score is strictly greater |
| `Ledger.SubmitValid` | server.ts:104-111 | a submission preserves the `scores` invariant: ids are fresh and increasing, and there is at most one row per (user, game) pair |
| `Ledger.SubmitNotImproving` | server.ts:107 | a submission that does not beat the stored score leaves the whole table unchanged |
| `Ledger.SubmitElsewhere` | server.ts:108-111 | the rows of every other (user, game) pair stay as they were, in the same order |
| `Ledger.SubmitAdvances` | server.ts:106-111 | every existing row keeps its position, id and pair. It either stays unchanged or gets a strictly greater score stamped with the submission time. So scores never decrease, and `updated_at` moves only on a strictly greater score |
| `Ledger.AtMostOneRowPerPair` | server.ts:24-31 | in a valid table, a (user, game) pair has at most one row, although the schema declares no such constraint |
| `Ledger.Best` | server.ts:107 | picks the first submission with the greatest score: no submission scores higher, and every earlier one scores strictly lower |
| `Ledger.SubmitAllValid` | server.ts:104-111 | any run of submissions preserves the `scores` invariant |
| `Ledger.SubmitAllSelect` | server.ts:104-111 | after a non-empty run of submissions for a pair that had no row, the pair's row holds the greatest submitted score and the time of the first submission that reached it |
| `Ledger.SubmitAllElsewhere` | server.ts:104-111 | a run of submissions for one pair leaves every other pair's rows untouched |
| `Ledger.SubmitAllOneRow` | server.ts:104-111 | after the run, the pair has exactly one row |
| `Ledger.BestSubmissionKept` | server.ts:102-114 | on a fresh table, submitting 500, then 300, then 900 stores 500, keeps it, then stores 900. The user's listing is that single row |
| `Server.Arcade.constructor` | server.ts:16-32 | a new database has both tables empty and satisfies the invariants, referential integrity included |
| `Server.Arcade.Register` | server.ts:55-73 | updates `users` and answers exactly as `Accounts.Register`, preserves the invariants, and leaves `scores` unchanged |
| `Server.Arcade.Login` | server.ts:75-85 | answers exactly as `Accounts.Login`. It has no `modifies` clause, so it cannot change either table |
| `Server.Arcade.Me` | server.ts:87-89 | answers exactly as `Sessions.Me` |
| `Server.Arcade.Logout` | server.ts:91-94 | answers 200 `{success: true}`, clears the cookie, and changes no table |
| `Server.Arcade.ListScores` | server.ts:97-100 | refusals come from `authenticate`; otherwise it answers 200 with `Ledger.SelectByUser` of the caller's id |
| `Server.Arcade.SubmitScore` | server.ts:102-114 | a request refused by `authenticate` changes nothing. An insert for an id that names no user fails the foreign key: the answer is Express's 500 and `scores` is unchanged. Otherwise the new `scores` table is `Ledger.Store` of the old one, and the answer is 200 `{success: true}`. `users` is unchanged, and the invariants hold, referential integrity included |
| `Server.Session` | server.ts:55-114 | end to end: register "bruce" (id 1), a login with a wrong password fails, then submissions of 500, 300 and 900. The listing returns exactly one row, with score 900 and the time of the third submission |
| `Seqs.Filter` | src/App.tsx:121 | the result is no longer than the input, holds exactly the values of the input that pass, and keeps their relative order |
| `Seqs.FilterMultiplicity` | src/App.tsx:121 | every passing occurrence is kept: a passing element occurs in the result as often as in the input, and a failing one not at all |
| `Seqs.Distinct` | src/App.tsx:210 | the result has no duplicates, holds exactly the input's elements, and keeps their order |
| `Launcher.SaveToRecent` | src/App.tsx:121 | the new list has 1 to 5 entries. The first is the saved game, which appears nowhere else. The rest is the longest prefix that fits of the old list with that game removed, in the old order |
| `Launcher.SaveToRecentIdempotent` | src/App.tsx:121 | saving the same game twice in a row gives the same list as saving it once |
| `Launcher.SaveToRecentNoDuplicates` | src/App.tsx:121 | if the old list has no duplicates, the new list has none |
| `Launcher.SaveToRecentMembers` | src/App.tsx:121 | every entry of the new list is the saved game or was already in the old list |
| `Launcher.ToLower` | src/App.tsx:204-205 | `toLowerCase` on ASCII letters; `ToLowerIdempotent` states its property |
| `Launcher.ToLowerIdempotent` | src/App.tsx:204-205 | lower-casing twice is lower-casing once |
| `Launcher.Includes` | src/App.tsx:204-205 | `includes`: the needle occurs as a contiguous slice. `EmptySearchMatches` uses that the empty string is included everywhere |
| `Launcher.MatchesSearch` | src/App.tsx:204-205 | the query, lower-cased, occurs in the lower-cased title or description. `SearchIgnoresQueryCase` and `EmptySearchMatches` state its properties |
| `Launcher.SearchIgnoresQueryCase` | src/App.tsx:204-205 | a query and its lower-cased form match the same games |
| `Launcher.EmptySearchMatches` | src/App.tsx:204-205 | the empty query matches every game |
| `Launcher.MatchesCategory` | src/App.tsx:206 | no category, or the empty one, admits every game; otherwise the game's category must equal it. `FilteredGamesInCategory` states the consequence |
| `Launcher.FilteredGames` | src/App.tsx:203-208 | the result is a subsequence of the catalogue. A game is in it exactly when it matches the search in its title or description (ignoring case) and matches the category, and it then occurs as often as in the catalogue |
| `Launcher.FilteredGamesInCategory` | src/App.tsx:206 | with a non-empty category selected, every listed game has that category |
| `Launcher.FilteredGamesUnfiltered` | src/App.tsx:203-208 | an empty search with no category lists the whole catalogue, in order |
| `Launcher.CategoryColumn` | src/App.tsx:210 | `GAMES.map(g => g.category)`: one entry per game, in catalogue order, each that game's category |
| `Launcher.Categories` | src/App.tsx:210 | the list has no duplicates and holds exactly the categories that occur in the catalogue |
| `Launcher.CatalogueCategories` | src/games.ts:10-27 | the shipped catalogue gives the category buttons "Action" and "Arcade", in that order |

## Findings

| source | as written | input that shows it | evidently intended | confidence | as-written member | corrected member |
|---|---|---|---|---|---|---|
| server.ts:67 | the catch block maps a failed insert to 400 only if `err.code === 'SQLITE_CONSTRAINT'`. better-sqlite3 reports extended result codes, so a UNIQUE failure carries `SQLITE_CONSTRAINT_UNIQUE` | register a username that already exists, with a non-empty password: the response is 500 "Internal server error" | 400 "Username already exists" for any constraint failure | medium. It rests on better-sqlite3's documented error codes; better-sqlite3 is not part of this model. Not executed | `Accounts.InsertFailureAsWritten`, `Accounts.DuplicateUsernameAsWritten` | `Accounts.InsertFailure`, `Accounts.DuplicateUsernameReported` |

The rest of the model (`Accounts.Register`, `Server.Arcade.Register`) uses the corrected
mapping. The other two error messages in the register handler are modelled as the code
writes them.

## Left out

- Express, cookie-parser, Vite and static file serving are transport plumbing.
  - A request is modelled by its body fields and its `token` cookie.
  - A response is modelled by its status, JSON body and cookie change.
  - Cookie attributes (`httpOnly`, `secure`, `sameSite`) are not modelled.
- bcrypt internals are left abstract.
  - The key schedule is a function parameter, so its 72-byte password truncation is
    covered only in that a schedule may collide.
  - The random salt is a parameter.
- JWT cryptography and its compact base64url serialization are left abstract.
  - The MAC is a function parameter and tokens are modelled in parsed form.
  - Algorithm selection and the `none` algorithm are not modelled.
  - `exp` and `nbf` checks are not modelled; the server never sets those claims.
- The signing-secret default (`process.env.JWT_SECRET || ...`) is configuration: the
  secret is a field of `Jwt.SigningKey`.
- SQLite is modelled as an in-memory table.
  - `CURRENT_TIMESTAMP` and the `iat` clock are a `now` parameter, in seconds.
  - The string format of the timestamp is not modelled.
  - Persistence failures other than the UNIQUE constraint, which would give 500, are not
    modelled.
- The foreign key is modelled as better-sqlite3's bundled SQLite enforces it by default.
  - Only the INSERT of `POST /api/scores` checks it; the UPDATE leaves `user_id` alone.
  - A token for an id with no user row can exist: it may be forged with the default
    secret, or predate a reset of `arcade.db`. Its insert answers Express's 500, modelled
    as the body `ErrorPage`; the page's HTML is not modelled.
  - Nothing deletes users, so the delete side of the foreign key is not modelled.
- Concurrency within one process needs no model: both `POST /api/scores` and
  better-sqlite3 are synchronous, so the read, compare and write at server.ts:104-111
  run to completion before another request starts. Each handler is one atomic step.
  This is exact for a single Node process. Several processes sharing `arcade.db` could
  interleave the read and the write, which the model does not capture.
- Request bodies that are not strings or integers are not modelled: numbers or other
  JSON values for `username`, `password` or `game_id`, and non-integer or non-numeric
  `score` values. The register fields are `Option<string>`. The login fields and
  `game_id` are strings, and `score` is an unbounded integer.
- Login with a missing field is not modelled: the login fields are plain strings.
  - A missing username passes `undefined` to the SELECT at server.ts:77. Whether that
    binding throws or finds nothing depends on better-sqlite3; if it finds nothing, the
    answer is 401.
  - A missing password with an unknown username stops at `!user` on server.ts:78, so the
    answer is 401 "Invalid credentials".
  - A missing password with a known username reaches `bcrypt.compare(undefined, ...)`,
    which rejects inside the async handler. What is then sent depends on the Express
    major version, which the source does not fix.
- `Launcher.ToLower` lower-cases ASCII letters only; Unicode case mapping is not modelled.
- React rendering, timers, `fetch`, `localStorage` and the random demo figures in the
  client are presentation and I/O, and are not modelled.
- `Seqs.Distinct` is cited for `new Set(...)`. Its order clause says the result is a
  subsequence of the input. It does not separately state that each element sits at its
  first occurrence, although the definition keeps first occurrences.
