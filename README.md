# Virtual therapist backend: users, sessions and chat logs in Dafny

This project models the Node/Express backend of the virtual-therapist app. The
backend keeps one collection of `User` documents. Each user has a username, an
email, a bcrypt password hash, an admin flag and an embedded, ordered log of
chat turns (`{user, bot, timestamp}`). Requests reach it through an
authentication guard that reads a JSON Web Token from the `Authorization`
header. Admin routes pass a second guard on the token's `isAdmin` claim.

The model has these parts:

- `UserModel` (`models/userModel.js`): the `Chat` and `User` records and the
  schema defaults. `MakeChat` builds a turn; its `timestamp` defaults to the
  creation time, as the chat schema declares. `saveChat` always passes the
  current time, so every stored turn is stamped with the `now` of its request. It also has the document factory `NewUser`, which enforces the
  required fields, and the table invariant `WellFormed`: every document has its
  required fields and no two documents share an email.
- `ChatLog`: the `filter` that `deleteChat` applies to a log, with its laws.
- `ChatController`, `AdminController`, `AuthController`: the read-only handlers
  (`getUserChats`, admin `getAllUsers` and `getUserChats`, `login`) as functions
  of the users table. They also hold the replies, the projections and the
  constants the handlers use.
- `AuthMiddleware` (`middleware/authMiddleware.js`):
  - `Split`, JavaScript's `split(' ')`;
  - `Authentication`, what `authenticate` decides for a header;
  - `IsAdmin`, the privilege gate;
  - the `Request` class, whose `Authenticate` method sets `req.user`.

  None of them takes the users table, so none of them can read or change it.
- `Handlers.Store`: the users collection as a class. It owns the table (`users`)
  and the object-id counter (`nextSerial`). It has the handlers that change the
  table: `Register`, `SaveChat`, `DeleteChat`, `DeleteUser` and `PromoteToAdmin`.
  `Valid()` is maintained by every handler. It is `WellFormed(users)` plus two
  facts about ids: every stored id was issued by the counter (`KeysIssued`), and
  no id the counter will produce is in use yet.
- `ObjectIds`: ids are the hexadecimal text of a counter. `HexIdInjective`
  proves that a new counter value gives an id never used before.
- `Libraries`: bcrypt, jsonwebtoken and `ObjectId.isValid` are values holding
  uninterpreted functions, passed to the handlers that use them. What the code
  relies on is a soundness predicate that the lemmas require:
  - `BcryptSound`: `compare(p, hash(p, rounds, salt))` always holds, and a hash
    is never empty.
  - `ObjectIdSound`: `isValid` accepts every id the counter produces.
  - `JwtSound`: a token verifies to its claims until `issuedAt + lifetime` and is
    refused from then on. A token never contains a space.
- `Http`, `Wrappers`: the `Reply` shape (status, message, body), the status
  codes, JavaScript truthiness of optional strings, and `Option`.

The clock is a `now` parameter in seconds. The random bcrypt salt is a `salt`
parameter. `JWT_SECRET` is an `env` parameter, and `SigningSecret` applies the
`'your_jwt_secret'` fallback.

Routing is captured by the handlers' parameters:
- Each chat handler takes the `Identity` that `authenticate` established
  (routes/chatRoutes.js:7-13).
- Each admin handler also requires `IsAdmin(Some(caller)).Pass?`
  (routes/adminRoutes.js:7-16).

Three details of the code the model keeps:
- `deleteChat` removes every turn whose id matches, not a single one.
- The token lifetime is `'1d'`, that is 86400 seconds.
- Login signs only `id` and `isAdmin`. So the `email` and `username` that
  `authenticate` copies into `req.user` are always missing for tokens this
  backend issues. `LoginTokenAuthenticates` states this.

## Model

| member | source | states |
|---|---|---|
| `UserModel.NewUser` | Backend/backend/models/userModel.js:9-15 | creating a user fails exactly when username, email or password hash is empty; otherwise `isAdmin` is true only when set explicitly to true, chats are empty, and the given fields are kept |
| `UserModel.WellFormed` | Backend/backend/models/userModel.js:10-12 | the store invariant: every document has a non-empty username, email and password hash, and emails are unique; `Handlers.Store.Valid` includes it and every handler keeps it |
| `UserModel.UniqueEmails` | Backend/backend/models/userModel.js:11 | the unique index on `email`: two keys whose documents share an email are the same key; `FindByEmail` relies on it |
| `UserModel.IssueKeepsKeysIssued` | Backend/backend/controllers/authController.js:20-26 | saving a new document under the counter's current id and advancing the counter keeps every stored id one the counter issued |
| `UserModel.InsertKeepsWellFormed` | Backend/backend/models/userModel.js:10-12 | inserting a document with the required fields, under a new id and with an unused email, keeps required fields and email uniqueness |
| `UserModel.ReplaceKeepsWellFormed` | Backend/backend/models/userModel.js:11 | replacing a document by one with the same email keeps emails unique, and keeps the table well formed when the required fields are present |
| `UserModel.RemoveKeepsWellFormed` | Backend/backend/controllers/adminController.js:26 | deleting a document keeps the table well formed |
| `ObjectIds.HexId` | Backend/backend/controllers/chatController.js:21-25 | generated ids are non-empty hexadecimal text |
| `ObjectIds.HexIdInjective` | Backend/backend/controllers/authController.js:20-24 | distinct counter values give distinct ids, so a created document never reuses an id |
| `ChatLog.WithoutChat` | Backend/backend/controllers/chatController.js:74 | the filtered log holds exactly the turns whose id differs from `chatId`, and is no longer than before |
| `ChatLog.WithoutChatKeepsOrder` | Backend/backend/controllers/chatController.js:74 | the remaining turns keep their original relative order (the result is a subsequence) |
| `ChatLog.WithoutChatAppend` | Backend/backend/controllers/chatController.js:74 | filtering a concatenation is concatenating the filtered parts, so each turn is kept or dropped on its own |
| `ChatLog.WithoutChatNoMatch` | Backend/backend/controllers/chatController.js:74-77 | an id that matches no turn leaves the log unchanged |
| `ChatLog.WithoutChatIdempotent` | Backend/backend/controllers/chatController.js:74 | deleting the same id twice gives the same log as deleting it once |
| `ChatLog.CountMatching` | Backend/backend/controllers/chatController.js:74 | the number of turns with the given id is at most the length of the log |
| `ChatLog.WithoutChatLength` | Backend/backend/controllers/chatController.js:74 | exactly the matching turns are removed: remaining length plus matching count equals the old length |
| `ChatController.GetUserChats` | Backend/backend/controllers/chatController.js:42-60 | 200 with the caller's username and chats in stored order iff the caller's id resolves; 404 "User not found" otherwise |
| `ChatController.SaveThenList` | Backend/backend/controllers/chatController.js:21-25 | after an append, listing returns the old turns unchanged followed by the new turn as the last element |
| `AdminController.IsValidObjectId` | Backend/backend/controllers/adminController.js:4-6 | the admin id check; under `ObjectIdSound` it accepts every id the store hands out |
| `AdminController.StoredIdsValid` | Backend/backend/controllers/adminController.js:23 | every id stored in a table whose ids came from the counter passes the admin id check, so no stored user is answered 400 |
| `AdminController.View` | Backend/backend/controllers/adminController.js:12 | the `-password` projection; `ViewForgetsOnlyPassword` shows it drops exactly the password hash |
| `AdminController.ViewForgetsOnlyPassword` | Backend/backend/controllers/adminController.js:12 | two users have the same admin view iff they differ at most in the password hash |
| `AdminController.GetAllUsers` | Backend/backend/controllers/adminController.js:10-17 | 200 with one view per stored user, keyed by the same ids, each agreeing with the stored user on every field but the password |
| `AdminController.GetUserChats` | Backend/backend/controllers/adminController.js:58-70 | 400 "Invalid user ID" for an invalid id; 404 for a valid absent id; 200 with the target's chats, username and email exactly when the id is valid and present |
| `AdminController.AdminSeesOwnChats` | Backend/backend/controllers/adminController.js:61-66 | for a stored user whose id came from the counter, the admin read succeeds, and the chats it returns are the chats that user reads for themself |
| `AdminController.Promoted` | Backend/backend/controllers/adminController.js:43-47 | promotion sets the target's `isAdmin` and keeps its other fields, and it leaves every other user and the key set unchanged; it keeps the table well formed |
| `AdminController.PromoteIdempotent` | Backend/backend/controllers/adminController.js:43-47 | promoting twice equals promoting once |
| `AuthController.FindByEmail` | Backend/backend/controllers/authController.js:11 | finds a user iff one has the email, and the found user has that email |
| `AuthController.LoginClaims` | Backend/backend/controllers/authController.js:53 | the login payload `{ id, isAdmin }`; `LoginTokenAuthenticates` shows the identity built from it has no email or username |
| `AuthController.Login` | Backend/backend/controllers/authController.js:35-71 | every failure, unknown email or wrong password, is the same 400 "Invalid email or password"; success happens iff some user has the email and the password matches its hash; the token signs that user's id and `isAdmin` for one day; the response user is id, username, email and `isAdmin`, with no password |
| `AuthController.RegisterThenLogin` | Backend/backend/controllers/authController.js:17-49 | with a sound bcrypt and a non-empty username and email, a user inserted as `register` does (fresh id, unused email, hashed password) passes validation, keeps the table well formed and can log in with the same email and password, as a non-admin |
| `AuthController.LoginTokenAuthenticates` | Backend/backend/controllers/authController.js:52-56 | within a day, the login token authenticates as identity {id, isAdmin as at login, no email, no username} |
| `AuthController.ExpiredTokenRejected` | Backend/backend/controllers/authController.js:55 | from a day after issue, the login token is refused with 401 "Invalid or expired token" |
| `AuthController.TokenCarriesClaims` | Backend/backend/middleware/authMiddleware.js:11-21 | a signed token presented as "Bearer <token>" within its lifetime authenticates with exactly the identity built from the signed claims |
| `AuthController.PromotionNeedsNewLogin` | Backend/backend/middleware/authMiddleware.js:15-29 | a token issued before promotion still fails the admin gate with 403 after promotion, while a token from a login after promotion passes it |
| `AuthMiddleware.SigningSecret` | Backend/backend/middleware/authMiddleware.js:13 | the secret is never empty, and it is `JWT_SECRET` whenever that is set and non-empty |
| `AuthMiddleware.Split` | Backend/backend/middleware/authMiddleware.js:11 | `split(' ')` gives one more part than there are spaces, and no part contains a space |
| `AuthMiddleware.JoinSplit` | Backend/backend/middleware/authMiddleware.js:11 | joining the parts of `split(' ')` with spaces gives back the header |
| `AuthMiddleware.FirstSegment` | Backend/backend/middleware/authMiddleware.js:11 | the longest space-free prefix: no space, a prefix, followed by a space or the end |
| `AuthMiddleware.SplitHead` | Backend/backend/middleware/authMiddleware.js:11 | the first part of `split(' ')` is the longest space-free prefix |
| `AuthMiddleware.SplitAfterWord` | Backend/backend/middleware/authMiddleware.js:11 | splitting a space-free word, a space and a rest gives the word followed by the parts of the rest |
| `AuthMiddleware.BearerToken` | Backend/backend/middleware/authMiddleware.js:11 | for a header starting with "Bearer ", `split(' ')[1]` exists and is the text after the prefix up to the next space |
| `AuthMiddleware.FirstSegmentNoSpace` | Backend/backend/middleware/authMiddleware.js:11 | a space-free token is its own first segment |
| `AuthMiddleware.IdentityOf` | Backend/backend/middleware/authMiddleware.js:16-21 | `req.user` built from the decoded claims, `id` falling back to `_id`; `TokenCarriesClaims` shows a live token authenticates as exactly this identity |
| `AuthMiddleware.Authentication` | Backend/backend/middleware/authMiddleware.js:5-35 | a missing header, or one not starting with "Bearer ", gives 401 "No token provided"; a token that fails verification gives 401 "Invalid or expired token"; otherwise the identity is copied from the claims, with `id` falling back to `_id` when falsy; every rejection is 401 |
| `AuthMiddleware.IsAdmin` | Backend/backend/middleware/authMiddleware.js:38-44 | passes iff there is an identity whose `isAdmin` is true; otherwise 403 "Admin access required" |
| `AuthMiddleware.Request.Authenticate` | Backend/backend/middleware/authMiddleware.js:5-35 | on success sets `req.user` to the identity from the token claims; on rejection leaves `req.user` unchanged; changes nothing else |
| `Handlers.Store.FreshId` | Backend/backend/controllers/authController.js:20 | the id Mongoose assigns a new document or subdocument: the counter's value rendered in hexadecimal, not a key of the table; the counter advances and the invariant is kept |
| `Handlers.Store.Register` | Backend/backend/controllers/authController.js:6-32 | a taken email gives 400 "Email already registered" and changes nothing; otherwise a fresh id is drawn and, unless validation fails (500, table unchanged), exactly one user is added under it with the given username and email, password `hash(password, 10, salt)`, `isAdmin` false and no chats, answered 201; with a sound bcrypt and a non-empty username and email, a fresh email is always 201 and adds exactly one user; the unique-email invariant is preserved |
| `Handlers.Store.SaveChat` | Backend/backend/controllers/chatController.js:4-39 | a missing or empty text gives 400 and an unknown caller gives 404, both changing nothing; otherwise only the caller's log changes, by appending one turn with the given texts, a fresh id and timestamp `now`; the reply's `chatId` is the id of the last turn |
| `Handlers.Store.DeleteChat` | Backend/backend/controllers/chatController.js:63-83 | an unknown caller gives 404 and no change; otherwise only the caller's log changes, to the filtered log, answered 200 even when nothing matched (the table is then unchanged) |
| `Handlers.Store.DeleteUser` | Backend/backend/controllers/adminController.js:20-34 | an invalid id gives 400 and an absent id gives 404, both changing nothing; otherwise exactly that user, chats included, is removed and the rest is unchanged; under `ObjectIdSound` a stored id is never refused |
| `Handlers.Store.PromoteToAdmin` | Backend/backend/controllers/adminController.js:37-55 | an invalid id gives 400 and an absent id gives 404, both changing nothing; otherwise the table becomes `Promoted(users, id)` and the reply carries the updated user without its password; under `ObjectIdSound` a stored id is never refused |

## Left out

- Server errors: the 500 replies for database failures and thrown exceptions are not modelled, and neither are the raw error messages they leak. The one 500 that is modelled is `register`'s schema-validation failure.
- Cast errors: `findById` with a caller id that is not a well-formed object id throws, which gives 500. The chat handlers here treat such an id as absent (404). Only a missing id (`findById(undefined)`) is 404 in the source.
- Id normalisation: ids are compared as exact text. Mongoose's cast of hexadecimal strings to `ObjectId` is not modelled.
- ObjectId layout: the 12-byte layout (timestamp, random part, counter) is replaced by a counter rendered in hexadecimal.
- Chat ids: the store invariant says user ids are never reused. It does not say that chat-turn ids are unique.
- Timestamps: the schema's `createdAt` and `updatedAt`, maintained by `{ timestamps: true }`, are not modelled.
- Result order: `getAllUsers` returns its views as a map keyed by id. The collection's natural order is not modelled.
- Concurrency: the model is sequential. The lost-update race between concurrent `saveChat` calls on one user is outside it.
- Request body types: the body fields of `register` (`username`, `email`, `password`) and of `login` (`email`, `password`) are taken to be present strings, so a missing field is not modelled. `saveChat`'s texts are optional strings, so non-string JSON values are not modelled.
- JWT decoding: the `iat` and `exp` claims and string payloads are not part of `Claims`. `Claims.isAdmin` is a boolean, so a token carrying a truthy non-boolean `isAdmin`, which the `isAdmin` guard would let through, cannot be represented; the tokens this backend signs always carry a boolean. Expiry is stated by `JwtSound`.
- Libraries: bcrypt, jsonwebtoken and `ObjectId.isValid` are uninterpreted. Nothing is assumed of them beyond `BcryptSound`, `JwtSound` and `ObjectIdSound`.
- Outside the core:
  - the Python speech and LLM services (`llm_service.py`, `chat_service.py`, `api.py`);
  - the browser script (`Frontend/frontend/chat.js`);
  - the Express wiring (`app.js`) and the router tables. Their one fact, which guards run before which handler, is captured as described above.
