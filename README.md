# message.ly trust and access-control core, in Dafny

This project models the part of the message.ly backend that decides who is who and who may do
what:

- the `User` model (`express-messagely/models/user.js`) over a users table and a messages table;
- the authentication routes `POST /login` and `POST /register` (`express-messagely/routes/auth.js`);
- the message routes `GET /:id`, `POST /` and `POST /:id/read` (`express-messagely/routes/messages.js`).

Both tables live in memory in one `Database` object. The users table is a `map` from username to
row. The messages table is a `seq` of rows. Their ids come from a sequence whose next value the
`Database` keeps in `nextId`: ids are distinct and lie below `nextId`, and they may have gaps.
The two statements that change the users table, `register` and `updateLoginTimestamp`, are methods
of `Database`. The route handlers that change the store are methods that take the `Database`.
The read-only queries (`all`, `get`, `messagesFrom`, `messagesTo`, the message detail) are
functions over the table contents. Each state-changing method states its new state through a
function on values (`Registered`, `Touched`, `ReadOnce`). The lemmas relate those functions to
the queries.

Abstract collaborators:

- bcrypt is `Bcrypt.Hash` and `Bcrypt.Compare`. The random salt is a parameter, and `Compare`
  accepts exactly the password that was hashed (`Bcrypt.CompareExact`).
- A JWT is `Token(username)`. Its only claim is the username. Signing with `SECRET_KEY` is not
  modelled.
- The request's verified identity, which the `authenticateJWT` middleware would put on `req.user`,
  is an `Option<string>` parameter.
- Each `current_timestamp` is a `Time` parameter.
- A request field that JavaScript treats as falsy (absent or `""`) is `None` or `Some("")`; a
  field counts only when `Present`.

Files: `common.dfy` (Option, Result, the error kinds and the source's error texts),
`collation.dfy` (the order used by `ORDER BY username`), `bcrypt.dfy`, `user_model.dfy`,
`auth_routes.dfy`, `message_routes.dfy`, and `scenarios.dfy` (clients that register alice and bob,
log in, send a message and mark it read, using only the contracts).

The model follows the code, except for the defects listed under Findings. Where the code
leaves a behaviour open, the model makes these choices:

- `authenticate` on an unknown username reads `rows[0].password` of an empty result. That is a
  TypeError, not `false`. `UserModel.Authenticate` returns `Err(NoUserRow)` there. The corrected
  login flow maps that case and the wrong-password case to the same `InvalidCredentials`, so the
  two cannot be told apart.
- `routes/auth.js:19` throws `ExpressError`, which that file never imports. This is hidden behind
  the un-awaited `authenticate`, which means the line is never reached. The corrected flow
  returns `InvalidCredentials` there.
- The messages table is assumed to have foreign keys into the users table, because the schema is
  not part of this model. `POST /` with an unknown sender or recipient fails with `ForeignKeyViolation` and
  leaves the messages table unchanged. The refused insert has already drawn an id, so the
  sequence still advances.
- Marking a message read twice keeps the first `read_at`. The second call is a no-op that answers
  with the original time. `models/message.js` is not part of this model, so this is a chosen
  behaviour.
- The guards check in this order: a missing identity (`Unauthenticated`), then a missing message
  (`NoSuchMessage`), then the route's rule (`Forbidden`). `middleware/auth.js` is not part of
  this model; the two rules are the ones the route doc-comments state.

## Model

| member | source | states |
|---|---|---|
| `Collation.SortedKeys` | express-messagely/models/user.js:57-59 | the usernames, each exactly once, in strictly ascending order |
| `Bcrypt.Hash` | express-messagely/models/user.js:18 | the stored digest verifies against the password it was made from, with the drawn salt |
| `Bcrypt.CompareExact` | express-messagely/models/user.js:39 | compare succeeds on exactly the hashed password, for every salt |
| `UserModel.RegisterRejection` | express-messagely/models/user.js:15-17 | any absent or empty field of the five gives the 400 "Missing required information."; a complete body with a taken username is refused as a duplicate; otherwise it is accepted |
| `UserModel.Registered` | express-messagely/models/user.js:18-24 | the new row is keyed by the username; its digest is `Hash(password, salt)` and verifies the password; first name, last name and phone are the submitted ones; join_at and last_login_at are both the insert time; every other row is unchanged |
| `UserModel.GetAfterRegister` | express-messagely/models/user.js:19-24 | after register, get returns the submitted username, names and phone, with both timestamps at the insert time |
| `UserModel.AllAfterRegister` | express-messagely/models/user.js:19-24 | after register, the listing contains the submitted public profile |
| `UserModel.Database.Register` | express-messagely/models/user.js:14-26 | a refused body changes nothing and returns the refusal; an accepted one inserts the hashed row and returns username, hash, first and last name and phone |
| `UserModel.Touched` | express-messagely/models/user.js:44-50 | only last_login_at of the named user changes; the key set and every other row stay; an unknown name changes nothing |
| `UserModel.Database.UpdateLoginTimestamp` | express-messagely/models/user.js:44-50 | the users table becomes `Touched` of the old one and the messages table is unchanged |
| `UserModel.Authenticate` | express-messagely/models/user.js:30-40 | missing username or password fails with 400 "Username & password required."; an unknown user fails; otherwise the answer is true iff the password verifies against that user's stored hash |
| `UserModel.All` | express-messagely/models/user.js:55-62 | one public profile per user, every user present, each the user's own fields, strictly ascending by username |
| `UserModel.Get` | express-messagely/models/user.js:73-84 | fails with 404 `No such user` exactly when the username is absent; otherwise returns that user's profile and both timestamps, with no password |
| `UserModel.MessagesFrom` | express-messagely/models/user.js:94-121 | contains every message from the user whose recipient exists, each carrying the recipient's public profile, and nothing else |
| `UserModel.MessagesTo` | express-messagely/models/user.js:131-158 | contains every message to the user whose sender exists, each carrying the sender's public profile, and nothing else |
| `UserModel.AuthenticateAfterRegister` | express-messagely/models/user.js:18-39 | after register, authenticate returns true for the registered password and false for any other |
| `UserModel.RegisterTwiceIsRefused` | express-messagely/models/user.js:19-24 | registering a taken username again is refused, and the table holds exactly one more row than before the first register |
| `UserModel.TouchKeepsListing` | express-messagely/models/user.js:44-62 | updating a login time leaves the `all` listing exactly as it was |
| `UserModel.TouchKeepsPasswords` | express-messagely/models/user.js:30-50 | updating a login time changes no authenticate answer |
| `UserModel.AllAgreesWithGet` | express-messagely/models/user.js:55-84 | every profile `all` lists is found by `get`, and `get` adds only the two timestamps |
| `UserModel.MessagesFromAppend` | express-messagely/models/user.js:94-121 | a new message extends its sender's outbox by exactly its view, at the end; other users' outboxes are unchanged |
| `UserModel.MessagesToAppend` | express-messagely/models/user.js:131-158 | a new message extends its recipient's inbox by exactly its view, at the end; other users' inboxes are unchanged |
| `UserModel.AppendKeepsWellFormed` | express-messagely/routes/messages.js:47 | inserting a message with the sequence's next id, between registered users, keeps ids distinct and below the advanced sequence and both parties registered |
| `UserModel.SentIsReceived` | express-messagely/models/user.js:94-158 | in a well-formed store every message is in its sender's outbox and its recipient's inbox |
| `AuthRoutes.LoginOutcome` | express-messagely/routes/auth.js:6-19 | a token is issued iff authenticate answers true, and its claim is that username; an incomplete body fails as missing fields; every other failure is the one `InvalidCredentials` |
| `AuthRoutes.Login` | express-messagely/routes/auth.js:11-23 | answers `LoginOutcome`; on success only the user's last_login_at moves to now; on failure the store is unchanged |
| `AuthRoutes.Register` | express-messagely/routes/auth.js:25-40 | a refused body issues no token and changes nothing; an accepted one stores the hashed row, issues a token claiming exactly the username, and sets last_login_at to the touch time |
| `AuthRoutes.LoginFailuresAreUniform` | express-messagely/routes/auth.js:19 | an unknown username and a wrong password give the identical failure |
| `AuthRoutes.RegisteredUserLogsIn` | express-messagely/routes/auth.js:14-17 | after register and touch, login with the registered password yields that user's token and any other password is refused |
| `AuthRoutes.LoginAsWritten` | express-messagely/routes/auth.js:11-23 | as written: the branch is taken for every password, the sent username's last_login_at moves, and the answer is always a ReferenceError |
| `AuthRoutes.LoginAsWrittenTouchesOnWrongPassword` | express-messagely/routes/auth.js:14-15 | as written, a wrong password moves last_login_at, while the intended outcome is `InvalidCredentials` |
| `AuthRoutes.AliceWrongPasswordAsWritten` | express-messagely/routes/auth.js:14-16 | the concrete case: alice with "s3cret" logging in with "wrong" |
| `AuthRoutes.RegisterAsWritten` | express-messagely/routes/auth.js:31-40 | as written: never answers with a token; an accepted body is still inserted |
| `AuthRoutes.RegisterAsWrittenStoresUserWithoutToken` | express-messagely/routes/auth.js:33-34 | as written, an accepted registration leaves the user stored while the answer is an error |
| `MessageRoutes.FindMessage` | express-messagely/routes/messages.js:26 | finds the first message with the id, or reports that no message has it |
| `MessageRoutes.FindDistinct` | express-messagely/routes/messages.js:26 | with distinct ids, looking up a message's id finds that very message |
| `MessageRoutes.ReadDecision` | express-messagely/routes/messages.js:21-24 | no identity is `Unauthenticated`; an absent id is `NoSuchMessage`; otherwise allowed iff `MayRead` holds, i.e. the identity is the sender or the recipient, else `Forbidden` |
| `MessageRoutes.MarkReadDecision` | express-messagely/routes/messages.js:58-61 | same order; allowed iff `MayMarkRead` holds, i.e. the identity is the recipient, else `Forbidden` |
| `MessageRoutes.AccessRuleTable` | express-messagely/routes/messages.js:21-61 | for a message from a to b: a and b may read it and nobody else may; b may mark it read; a (when a is not b) and anyone else may not |
| `MessageRoutes.GetMessage` | express-messagely/routes/messages.js:12-31 | answers only what `ReadDecision` allows, with the message's id, body, times and both parties as public profiles |
| `MessageRoutes.ReadOnce` | express-messagely/routes/messages.js:54-64 | afterwards read_at is set; an already set read_at is kept; nothing but read_at changes |
| `MessageRoutes.ReadOnceIdempotent` | express-messagely/routes/messages.js:64 | marking read a second time keeps the first read time |
| `MessageRoutes.Send` | express-messagely/routes/messages.js:33-52 | no identity is `Unauthenticated` and nothing changes; with an identity the id sequence advances by one; an unknown party is refused with the messages table unchanged; otherwise exactly one message, with the drawn id, is appended with from_username the identity, to_username and body from the request, and its summary is returned |
| `MessageRoutes.MarkRead` | express-messagely/routes/messages.js:54-69 | a refusal of `MarkReadDecision` changes nothing; otherwise only that message's read_at is set once, and the answer is exactly its id and read_at |
| `MessageRoutes.SentMessageReachesBothParties` | express-messagely/routes/messages.js:39-47 | a sent message keeps the store well formed, is readable by both parties and refused to a third, and is in the sender's outbox and the recipient's inbox |

## Findings

| source | as written | input that shows it | evidently intended | confidence | as-written member | corrected member |
|---|---|---|---|---|---|---|
| express-messagely/routes/auth.js:14-16 | `User.authenticate` is not awaited, so the `if` tests a pending Promise, which is always truthy; `updateLoginTimestamp` then runs for any password, and `jwt.sign` throws because `jwt` is never imported | alice registered with password "s3cret"; `POST /login` with alice / "wrong" moves alice's last_login_at, and no login ever gets a token | touch the login time and issue a token only when authenticate resolves to true; otherwise answer "Invalid username/password." | high; not executed | `AuthRoutes.LoginAsWrittenTouchesOnWrongPassword` | `AuthRoutes.Login` |
| express-messagely/routes/auth.js:33-35 | after the awaited insert, `jwt.sign` throws because `jwt` is never imported, so the new user is stored, last_login_at is not touched again and no token is returned | any complete body with a fresh username | answer with a token claiming the username, and touch last_login_at | high; not executed | `AuthRoutes.RegisterAsWrittenStoresUserWithoutToken` | `AuthRoutes.Register` |

`AuthRoutes.LoginAsWritten` and `AuthRoutes.RegisterAsWritten` model the two handlers as written.
`AuthRoutes.AliceWrongPasswordAsWritten` is the first row's concrete input.

## Left out

- PostgreSQL: SQL text, `RETURNING`, join mechanics, transactions and connection errors. The tables are in-memory values.
- The order of `messagesFrom` and `messagesTo` rows: their queries have no `ORDER BY`, so the model promises membership both ways and no order.
- `ORDER BY username` follows the database's collation. The model uses code-point lexicographic order (`Collation.Leq`).
- bcrypt internals: the work factor `BCRYPT_WORK_FACTOR`, salt generation, one-wayness and constant-time comparison. The salt is a parameter and the digest is an abstract value.
- bcrypt's 72-byte limit: bcrypt uses only the first 72 bytes of a password, so two passwords that agree on those bytes both verify. The model's `Compare` is exact, so the "false for any other password" halves of `Bcrypt.CompareExact`, `UserModel.AuthenticateAfterRegister` and `AuthRoutes.RegisteredUserLogsIn` hold only for passwords that differ within their first 72 bytes.
- JWT signing and verification with `SECRET_KEY`, and the `authenticateJWT` middleware. The verified identity is a parameter. Tokens have no expiry and no revocation, as in the source.
- Express plumbing: routers, `req`/`res`, `next(err)`, HTTP status codes (the source answers a failed login with 404) and async behaviour. In the corrected flows, `updateLoginTimestamp` is awaited before the answer.
- Concurrency: the atomicity of the unique-username insert and last-write-wins row updates. Every operation is one sequential step.
- JavaScript falsiness of non-string values (`0`, `false`, `null`). Only absent and empty strings are modelled.
- `MessageRoutes.Send`: an absent `to_username` or `body` in the request is not modelled, because the messages schema that would reject it is not part of this model.
- `models/message.js` and `middleware/auth.js` are not part of this model. Their behaviour is taken from the route doc-comments, as described above.
- `express-bookstore/tests/books.test.js` belongs to an unrelated catalogue service.
