# snippets-server authentication core, in Dafny

A model of the account and session logic of the snippets-server backend
(`routers/userRouter.js`, with the record shape of `models/userModel.js`):

- **Registration** (`POST /`): an ordered chain of checks (missing field,
  password shorter than six characters, confirmation mismatch, email already
  registered) in which the first failing check alone decides the 400 message;
  otherwise one new document with the given email, a bcrypt digest of the
  password and the fixed tags `["js","php","c#","java"]`, and a `token`
  cookie whose signed payload holds only the new id.
- **Login** (`POST /login`): missing field gives 400; an unknown email and a
  wrong password give the same 401 `"Wrong email or password."`; success
  leaves the table alone and signs `{id, username, userTags}`, a snapshot of
  the account at that moment.
- **Session reads** (`/loggedIn`, `/userName`, `/userTags`): total functions
  from the optional cookie to `null`, nothing (an undefined claim) or the
  claim itself, never an error status.
- **Tag append** (`PUT /addTag/:id`): appends one tag to one account, with
  duplicates allowed and no check of who asks; an unknown id gives 500.
- **Logout** and the **cookie options**, a pure function of `NODE_ENV`.

The datastore is the class `UserModel.Users`: a map from id to `User`
and the next free id, updated in place by the handlers, which are methods.
bcrypt and jsonwebtoken are modelled as free constructions (`Bcrypt`, `Jwt`)
that satisfy exactly the laws the router relies on: `compare(p, hash(p, s))`
holds and fails for any other password, and `verify(sign(p)) == p` while any
other string fails. The salt chosen by `bcrypt.genSalt()` and the runtime
mode are parameters. Document ids are handed out in increasing order, and as
a modelling choice `findOne` (no sort) returns the document with the lowest id
and this email; MongoDB does not guarantee that natural order is insertion
order, but the choice only matters when two documents share an email, which
only the unmodelled registration race produces.

Files: `wrappers.dfy` (Option), `bcrypt.dfy`, `jwt.dfy`, `user_model.dfy`,
`user_router.dfy`, `scenarios.dfy` (request sequences combining handlers).

The routes are those of the code: `/`, `/login`, `/loggedIn`, `/userName`,
`/userTags`, `/addTag/:id` and `/logOut`. A session read of a claim the token
lacks (`username` or `userTags` of a registration token) sends
`res.json(undefined)`, an empty body, which the model keeps apart from `null`
(`Reply.NoBody`).

## Model

| member | source | states |
|---|---|---|
| `Bcrypt.CompareAcceptsOwnHash` | routers/userRouter.js:96-99 | comparing a password with a digest made from it succeeds, for every salt |
| `Bcrypt.CompareRejectsOtherPassword` | routers/userRouter.js:96-105 | comparing any different password with that digest fails |
| `Jwt.VerifySign` | routers/userRouter.js:143 | verifying a signed token returns exactly the signed payload |
| `Jwt.VerifyOnlySigned` | routers/userRouter.js:143-148 | a token that verifies is the signature of the payload it yields; every other string fails |
| `UserModel.FindBelow` | routers/userRouter.js:30 | `findOne({email})` in natural order: the result has that email and no earlier document does; none means no document below the bound has it |
| `UserModel.Users.FindOne` | routers/userRouter.js:89 | on a valid table: the earliest document with the email, and none exactly when no document has it |
| `UserModel.Users.constructor` | models/userModel.js:4-15 | an empty collection |
| `UserModel.Users.Insert` | routers/userRouter.js:42-48 | `save()` of a new document stores it under a fresh id, keeps every other document and advances the id counter |
| `UserModel.Users.Replace` | routers/userRouter.js:189 | `save()` of a loaded document replaces that document only |
| `UserRouter.RejectionsDistinguishable` | routers/userRouter.js:11-105 | the five error messages are pairwise distinct, and only the credential failure has status 401 |
| `UserRouter.CookieOptionsFor` | routers/userRouter.js:60-70 | `httpOnly` always; development gives `sameSite "lax"`, `secure false`; production `"none"`, `true`; any other or unset mode `false` for both |
| `UserRouter.FirstFailure` | routers/userRouter.js:11-35 | the reason of the first failing check: none iff every check passes, otherwise a failing check all of whose predecessors pass; applied to `UserRouter.RegisterChecks`, the four registration checks in the handler's order (missing field, short password, mismatch, taken email) |
| `UserRouter.RegisterRejectionOrder` | routers/userRouter.js:11-35 | each registration message is given iff its check fails and every earlier check passes; acceptance iff all four pass |
| `UserRouter.ShortPasswordNeverRegisters` | routers/userRouter.js:17-21 | a password shorter than six characters is rejected whatever the other fields hold |
| `UserRouter.Register` | routers/userRouter.js:6-75 | a rejection returns the first failing check's 400 and leaves the table unchanged; otherwise exactly one document is added under a fresh id with the email, `Hash(password, salt)` and the default tags, no other document changes, and the cookie carries `{id}` only; email uniqueness is preserved |
| `UserRouter.Login` | routers/userRouter.js:77-134 | missing field gives 400; unknown email and wrong password both give the identical 401; success only for a stored account whose digest matches, issuing its id, stored email and stored tags; the table is not changed |
| `UserRouter.Session` | routers/userRouter.js:139-143 | the cookie yields claims exactly when it is a signed token, and then the signed claims |
| `UserRouter.LoggedIn` | routers/userRouter.js:137-149 | a signed token gives its `id`; an absent, empty or unsigned cookie gives `null` |
| `UserRouter.UserName` | routers/userRouter.js:151-164 | a signed token gives its `username` claim (nothing when absent); otherwise `null` |
| `UserRouter.UserTags` | routers/userRouter.js:166-178 | a signed token gives its `userTags` claim (nothing when absent); otherwise `null` |
| `UserRouter.UnsignedTokenIsAnonymous` | routers/userRouter.js:137-178 | a missing cookie and a tampered or empty one read identically: `null` from all three reads |
| `UserRouter.RegisterTokenCarriesOnlyId` | routers/userRouter.js:51-56 | a registration token reads as its id, and as nothing for the name and the tags |
| `UserRouter.LoginTokenCarriesSnapshot` | routers/userRouter.js:108-115 | a login token reads as the id, email and tags it was issued with |
| `UserRouter.AddTag` | routers/userRouter.js:180-193 | an existing id gets `old tags + [tag]` and no response; every other document and field is unchanged; an unknown id gives 500 and no change |
| `UserRouter.LogOut` | routers/userRouter.js:196-215 | status 200, empty body, `token` cookie set to `""` expiring at epoch 0 with the mode's options, and that cookie carries no session |
| `Scenarios.FindOneAfterInsert` | routers/userRouter.js:30-48 | after storing a document whose email was free, `findOne` on that email returns the new id |
| `Scenarios.RegisterThenLogin` | routers/userRouter.js:38-115 | registering then logging in with the same password succeeds for the new id, with the stored email and default tags in the token |
| `Scenarios.RegisterTwice` | routers/userRouter.js:29-48 | registering one valid body twice: the first succeeds, the second gets the duplicate-email 400, exactly one document is added |
| `Scenarios.LoginFailuresAgree` | routers/userRouter.js:88-105 | a wrong password for a registered email and an unregistered email get the identical response |
| `Scenarios.StaleTagsAfterAppend` | routers/userRouter.js:108-188 | after a tag append the table holds the new tag while the earlier login token still reads the pre-append tags |
| `Scenarios.LogOutEndsSession` | routers/userRouter.js:196-211 | the cookie written by logout reads as `null` from every session read |

## Left out

- Concurrency: each handler is one atomic step. The duplicate-email check and the insert of registration (`findOne` then `save`) and the load and save of the tag append can interleave between concurrent requests, so two accounts with one email are possible in the running server; the model cannot show that.
- Infrastructure failures (datastore unreachable, hashing or signing errors) that the `catch` blocks turn into an empty 500 are not modelled; the only 500 modelled is the append to an unknown id. The `catch` of logout cannot be reached by the modelled code.
- `UserRouter.AddTag`: an id that is not a well-formed ObjectId (a cast error, also 500) is not distinguished from an unknown id; the un-awaited `save()` is modelled as completing; `console.log` is left out; a missing `tag` (which would push `undefined`) is not modelled, the tag is a string.
- Request fields are strings or missing; other JSON values (numbers, objects, arrays) in `email`, `password` or `passwordVerify` are not modelled.
- `password.length` counts UTF-16 code units in JavaScript; the model counts characters, which differ only for characters outside the Basic Multilingual Plane.
- Document ids are a counter rather than generated ObjectIds; only their freshness and order matter to the handlers.
- `Bcrypt.Compare`: the model assumes `compare` rejects every password other than the hashed one, while bcryptjs compares only the first 72 bytes of a password, so in the running server a wrong password sharing those 72 bytes with the right one logs in; `UserRouter.Login` and `Scenarios.LoginFailuresAgree` give it the 401.
- bcrypt internals (salt generation, work factor, constant-time compare) and JWT cryptography, the `iat` claim and the signing secret are not part of this model; tokens never expire in the source and none do here.
- Creation and update timestamps of the schema are not part of this model: no decision depends on them.
- `index.js` (server bootstrap, CORS allow-list, cookie parser, datastore connection, the snippet router) is not part of this model.
