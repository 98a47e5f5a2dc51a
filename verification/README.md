# Credential lifecycle of the SportsNews backend, in Dafny

This project models how the SportsNews backend handles credentials. Users register with a bcrypt-hashed password. A login returns a 15-minute JWT access token and stores one 7-day refresh token in the `refresh_tokens` table. Every earlier refresh token of that user is removed at the same moment, so a user has a single session. The refresh token, carried in an HTTP-only cookie, later buys a new access token. The bearer middleware gates routes by signature, expiry and role.

The model is written as pure functions over an immutable database state:

- `credential_store.dfy`: the `users` and `refresh_tokens` tables, their serial counters, and the SQL statements the service issues. bcrypt is modelled as an injective digest.
- `auth_service.dfy`: `registerUser`, `loginUser` and `refreshAccessToken`. Each is a store transition that returns a value or one of the service's error messages.
- `auth_middleware.dfy`: `verifyToken` and `authorizeRoles`. `jwt.verify` is a function parameter, and a reference verifier over the set of signed tokens is provided.
- `auth_controller.dfy`: the three HTTP handlers, including their message-phrase classification of errors, the refresh cookie and the missing-cookie guard.
- `text.dfy`: JavaScript's `includes` and `split` on strings, with `split`/`join` round trips.
- `scenario.dfy`: one register → login → authorize → refresh walk through all layers.
- `wrappers.dfy`: `Option` and `Result`.

Environment inputs are explicit parameters:

- the clock `now`, in milliseconds;
- the random refresh token `freshToken`;
- driver faults on the user insert `fault`;
- `process.env.NODE_ENV === "production"` as `production`.

## Model

| member | source | states |
|---|---|---|
| CredentialStore.CompareAcceptsOnlyItsPassword | src/services/authService.js:63 | the model's digest of a password is accepted by the model's `Compare` for that password and for no other; bcrypt itself is weaker here, see "## Left out" |
| CredentialStore.FindUserByEmail | src/services/authService.js:53-57 | the user found has the requested email; no user found means no user has that email |
| CredentialStore.InsertUser | src/services/authService.js:19-39 | the insert fails exactly on a driver fault or an already used username or email (then with code 23505); on success the new id was unused, the users table gains exactly that row and refresh tokens are untouched |
| CredentialStore.InsertRefreshRow | src/services/authService.js:99-102 | the new row is appended with a fresh id and nothing else changes |
| CredentialStore.FindRefreshToken | src/services/authService.js:128-132 | the row returned is in the table and holds the token; nothing is returned exactly when no row holds it |
| CredentialStore.DeleteRowsOfUserEffect | src/services/authService.js:96 | after deleting a user's refresh tokens the user has none left and every other user keeps exactly theirs |
| CredentialStore.SingleSessionAfterReplace | src/services/authService.js:94-102 | delete-then-insert leaves the user with exactly the new row, and other users' rows unchanged |
| CredentialStore.DeleteRowByIdEffect | src/services/authService.js:139-141 | with distinct row ids, deleting by id removes precisely that one row and keeps the order of the rest |
| CredentialStore.TokenGoneAfterDelete | src/services/authService.js:138-142 | once the row holding a token is deleted, a lookup of that token finds nothing |
| AuthService.IssueAccessToken | src/services/authService.js:78-86 | the access token carries the user's id and role and expires 15 minutes after issue |
| AuthService.InsertError | src/services/authService.js:43-47 | a failed insert is a duplicate account exactly when the driver code is 23505, otherwise a database error |
| AuthService.RegisterUser | src/services/authService.js:5-49 | missing fields are reported iff one of username, email, password or role is not truthy. Duplicate is reported iff the insert hits the unique constraint; a database error iff the driver fails otherwise. Every failure leaves the store unchanged. Success, on a database within its constraints, adds the new row under an unused id, overwriting no account, and returns the input's username, email and role |
| AuthService.RegisterStoresDigest | src/services/authService.js:14-16 | registration with fields present and no taken username or email succeeds and stores the model's digest of the password, which accepts that password and no other |
| AuthService.RegisterPreservesValid | src/services/authService.js:34-47 | registration keeps ids below their counter and usernames and emails unique |
| AuthService.RegisterSameEmailTwice | src/services/authService.js:43-45 | registering an already registered email again reports the duplicate-account error |
| AuthService.LoginUser | src/services/authService.js:51-116 | the credentials error is thrown iff no user with that email has a matching password. The suspension error is thrown iff the password matches an inactive account. Login succeeds iff the password matches an active account. Failures change nothing. Success issues an access token for the user's id and role, returns the fresh refresh token and the public view, and leaves the user with exactly one refresh row expiring 7 days later. Other users' rows are untouched |
| AuthService.LoginReplacesSessions | src/services/authService.js:94-102 | deleting the user's refresh rows and inserting one leaves exactly that row for the user and all others' rows as they were |
| AuthService.LoginFailuresIndistinguishable | src/services/authService.js:59-67 | an unknown email and a wrong password for a known email give identical outcomes, whatever fresh token is drawn |
| AuthService.SuspensionHiddenBehindPassword | src/services/authService.js:63-74 | a suspended account is revealed as suspended only when the password is correct |
| AuthService.LoginPreservesValid | src/services/authService.js:88-102 | with an unused fresh token, login keeps refresh-token ids and token values distinct and below the counter |
| AuthService.SecondLoginRevokesFirst | src/services/authService.js:94-102 | after a second login the user's only refresh row holds the second token, and no row of that user holds the first |
| AuthService.RefreshAccessToken | src/services/authService.js:121-164 | an absent or empty token is rejected without change. An unknown-token error is reported iff no row holds the token. For the row the lookup finds, an expired row is deleted and the session-expired error reported. A valid row whose user is missing or inactive gives the account error. A valid row of an active user renews the access token with that user's current role. Only the expired path changes the store |
| AuthService.RefreshPreservesValid | src/services/authService.js:138-142 | refresh, including its deletion of an expired row, keeps the database within its constraints |
| AuthService.RefreshExpiredThenUnknown | src/services/authService.js:135-143 | an expired token, once presented, is deleted; presenting it again reports an unknown token |
| AuthService.RefreshOfStoredRow | src/services/authService.js:127-163 | with distinct tokens, presenting any stored row's token gives the expired-and-deleted, account-unavailable or renewed outcome according to its expiry and its owner |
| AuthService.RefreshAcceptedAtExpiryInstant | src/services/authService.js:138 | the expiry comparison is strict: a token presented exactly at its expiry instant still renews |
| AuthService.LoginThenRefresh | src/services/authService.js:90-163 | the token a login hands out renews the access token, with the same user id and role, until 7 days after login and leaves the store unchanged; after that it is refused as expired |
| AuthMiddleware.BearerToken | src/middlewares/authMiddleware.js:14 | the token taken from `Bearer <rest>` is the space-free prefix of the rest, running to its end or to the next space |
| AuthMiddleware.BearerTokenOfWellFormedHeader | src/middlewares/authMiddleware.js:14 | a header built from the bearer prefix and a space-free token yields exactly that token |
| AuthMiddleware.VerifyToken | src/middlewares/authMiddleware.js:3-34 | 401 iff the header is missing, empty or lacks the bearer prefix. The request passes iff `jwt.verify` accepts the token, and then `req.user` is its claims. Any other failure is the single 403 response |
| AuthMiddleware.VerifyFailuresLookAlike | src/middlewares/authMiddleware.js:17-33 | an expired, forged or malformed token all get the same 403 response |
| AuthMiddleware.AccessTokenWindow | src/middlewares/authMiddleware.js:17-33 | against the tokens the server signed, a bearer token passes exactly while unexpired, carrying its claims; an unsigned or expired one gets 403 |
| AuthMiddleware.AuthorizeRoles | src/middlewares/authMiddleware.js:36-57 | the request passes iff a user is set and their role is among the allowed ones. No user gives the "User data not found" 403; a disallowed role gives the permissions 403 |
| AuthMiddleware.RoleExamples | src/middlewares/authMiddleware.js:48-55 | a plain user is refused on an admin-only route; an admin passes a route open to admin and user |
| AuthController.RegisterErrorStatuses | src/controllers/authController.js:15-25 | the validation and duplicate messages are answered with 400, the database error with 500 |
| AuthController.LoginErrorStatuses | src/controllers/authController.js:54-62 | both login errors, bad credentials and suspended account, are answered with 401 |
| AuthController.RefreshErrorStatuses | src/controllers/authController.js:83-92 | the three refresh-token errors are answered with 403, but a missing or suspended account with 500 |
| AuthController.AccountUnavailableUnrecognised | src/controllers/authController.js:84-87 | the missing-or-suspended-account message contains neither phrase the refresh handler looks for |
| AuthController.Register | src/controllers/authController.js:3-27 | 201 with the new user iff registration succeeds. 400 with the thrown message iff fields are missing or the account is a duplicate. 500 iff the database failed otherwise |
| AuthController.RefreshCookie | src/controllers/authController.js:40-45 | the cookie is `refreshToken`, HTTP-only, same-site strict, secure in production, and lives as long as the stored refresh token |
| AuthController.Login | src/controllers/authController.js:29-64 | 200 iff login succeeds, and then with the access token and user view and the cookie `refreshToken` holding the service's token, HTTP-only, same-site strict, secure exactly in production, with a 7-day `maxAge`; 401 with the thrown message iff it fails; the cookie is set only on success |
| AuthController.CookieLifetimeMatchesSession | src/controllers/authController.js:40-45 | the cookie set by a login expires at the same instant as the refresh row the login stored |
| AuthController.Refresh | src/controllers/authController.js:66-93 | a missing cookie gives 401 before the service is consulted. Otherwise 200 with the new token iff the service succeeds; 403 with the service's message iff the token is unknown or expired; 500 iff the service reports a missing or suspended account, which it does exactly for a valid row whose user is missing or inactive |
| AuthController.RefreshStatusOfStoredRow | src/controllers/authController.js:75-92 | with distinct tokens, a stored row's cookie gets 403 once expired, 500 while valid with a missing or suspended owner, and 200 while valid with an active owner |
| Text.MissingCharNotContained | src/controllers/authController.js:16-19 | a phrase with a character the message lacks is not found by `includes` |
| Text.ContainsPiece | src/controllers/authController.js:16-19 | a message built around a phrase is found to include it |
| Text.Split | src/middlewares/authMiddleware.js:14 | `split` yields at least one piece, no piece contains the separator, there are two or more pieces iff the separator occurs, and the first piece runs up to the first separator |
| Text.JoinSplit | src/middlewares/authMiddleware.js:14 | joining the pieces of a split with the separator gives back the original string |
| Text.SplitJoin | src/middlewares/authMiddleware.js:14 | splitting the join of separator-free pieces gives back those pieces |
| Text.SplitAtSeparator | src/middlewares/authMiddleware.js:14 | a separator-free prefix followed by the separator is the first piece, and the rest splits on its own |
| Scenario.RegisterLoginAuthorizeRefresh | src/controllers/authController.js:3-93 | the full lifecycle of a fresh account: register 201, login 200 with its cookie, a fresh bearer token passes `verifyToken` but is refused by an admin-only route, and the refresh cookie renews the token for the same user and role |

## Left out

- `src/app.js` route wiring, `express` and `cookie-parser` are not part of this model. The handlers take the request fields they read as arguments.
- bcrypt salting and cost factor: `Hash` is an injective digest of the password. Salts, the cost of 10 and timing behaviour are abstracted.
- CredentialStore.CompareAcceptsOnlyItsPassword: bcryptjs hashes only the first 72 UTF-8 bytes of a password (about 24 Thai characters), so it also accepts any password that agrees with the stored one on those bytes. The model's injective digest does not capture this truncation, so "no other password" is a property of the model only.
- AuthService.RegisterStoresDigest: the same 72-byte truncation applies; the stored digest accepts exactly one password only in the model.
- JWT signing and the secret: an access token is its claims. `jwt.verify` is a parameter, with `JwtVerify` as a reference over the tokens the server signed. The `iat` claim and JWT's one-second expiry granularity are not modelled; times are milliseconds.
- `crypto.randomBytes(64).toString("hex")` is the `freshToken` parameter. Lemmas needing it to be unused state that as a precondition instead of relying on randomness.
- `setDate(getDate() + 7)` is modelled as exactly 7 × 24 hours. A local-time daylight-saving shift is not modelled.
- Database failures are modelled only for the registration insert, as `fault`. In login and refresh a query failure would surface through the controllers' 500 branches. Those branches are reachable in the model only for messages the controllers do not recognise.
- Concurrency is not modelled. Interleaving two logins between the delete and the insert of refresh tokens is not modelled, nor is any other interleaving of requests; each operation is one atomic transition.
- `console.error` logging and the `error` detail field of the 500 body of `register` are left out.
- In `login`, email and password are strings, so missing body fields are not modelled. A missing email is bound as SQL NULL, matches no row and would get the credentials error (401). A missing password for a known email makes `bcrypt.compare` throw, which `login` answers with 500.
- AuthService.RegisterUser: request fields are `Option<string>`, but `req.body` is parsed JSON. A truthy field that is not a string, such as a numeric password, passes the required-field check. `bcrypt.hash` then rejects it outside the `try`, and `register` answers 500. Non-string field values are not modelled.
- The `users` schema is not part of this model. The model assumes new users are stored active (`is_active` true); the schema that would set that column's default is not part of the modelled code. Login's first-row lookup relies on emails being unique, which `LoginUser` requires.
- AuthController.RegisterErrorStatus: its own contract gives only the range 400/500. Which service message gets which status is stated by `AuthController.RegisterErrorStatuses`.
- AuthController.LoginErrorStatus: its own contract gives only the range 401/500. The mapping of the login messages is stated by `AuthController.LoginErrorStatuses`.
- AuthController.RefreshErrorStatus: its own contract gives only the range 403/500. The mapping of the refresh messages is stated by `AuthController.RefreshErrorStatuses`.
