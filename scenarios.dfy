/** Request sequences against one table, showing how the handlers of
    routers/userRouter.js combine: an account can log in with the password it
    registered with, a second registration of its email is refused, both
    login failures look alike, and a login token keeps the tags it was issued
    with after they change in the table. */
module Scenarios {

  import opened Wrappers
  import opened Bcrypt
  import opened Jwt
  import opened UserModel
  import opened UserRouter

  /** After a document with email `e` is stored at the first free identifier
      of a table holding no `e`, `findOne` returns that document. */
  lemma FindOneAfterInsert(before: map<UserId, User>, n: nat, u: User)
    requires forall id: UserId :: id in before <==> id < n
    requires FindBelow(before, u.email, n).None?
    ensures FindBelow(before[n := u], u.email, n + 1) == Some(n)
  {
  }

  /** Register an account, then log in with the same email and password: the
      login succeeds for the new account and its token carries the stored
      email and the default tags. */
  method RegisterThenLogin(db: Users, email: string, password: string, salt: Salt, mode: Mode)
      returns (registered: Response, loggedIn: Response)
    requires db.Valid() && email != "" && |password| >= 6 && db.FindOne(email).None?
    modifies db
    ensures var id := old(db.nextId);
      && registered == Issued(RegisterClaims(id), mode)
      && loggedIn == Issued(LoginClaims(id, User(email, Hash(password, salt), DefaultTags)), mode)
      && LoggedIn(Some(loggedIn.cookie.value.value)) == LoggedIn(Some(registered.cookie.value.value)) == Json(id)
    ensures db.Valid() && db.nextId == old(db.nextId) + 1
    ensures db.records == old(db.records)[old(db.nextId) := User(email, Hash(password, salt), DefaultTags)]
  {
    ghost var before, id := db.records, db.nextId;
    RegisterRejectionOrder(RegisterBody(Some(email), Some(password), Some(password)), db.records, db.nextId);
    registered := Register(db, RegisterBody(Some(email), Some(password), Some(password)), salt, mode);
    FindOneAfterInsert(before, id, User(email, Hash(password, salt), DefaultTags));
    CompareAcceptsOwnHash(password, salt);
    loggedIn := Login(db, LoginBody(Some(email), Some(password)), mode);
  }

  /** Registering the same email twice: the first succeeds, the second is
      refused with the duplicate-email message and stores nothing. */
  method RegisterTwice(db: Users, body: RegisterBody, salt: Salt, again: Salt, mode: Mode)
      returns (first: Response, second: Response)
    requires db.Valid()
    requires FirstFailure(RegisterChecks(body, db.records, db.nextId)).None?
    modifies db
    ensures var id := old(db.nextId);
      && first == Issued(RegisterClaims(id), mode)
      && second == Rejected(EmailTaken)
      && db.nextId == id + 1 && |db.records| == |old(db.records)| + 1
  {
    ghost var before, id := db.records, db.nextId;
    RegisterRejectionOrder(body, db.records, db.nextId);
    first := Register(db, body, salt, mode);
    FindOneAfterInsert(before, id, User(body.email.value, Hash(body.password.value, salt), DefaultTags));
    RegisterRejectionOrder(body, db.records, db.nextId);
    second := Register(db, body, again, mode);
  }

  /** A wrong password for a registered email and an email nobody registered
      get the identical response. */
  method LoginFailuresAgree(db: Users, email: string, password: string, salt: Salt,
                            wrong: string, unknown: string, mode: Mode)
      returns (wrongPassword: Response, unknownEmail: Response)
    requires db.Valid() && email != "" && |password| >= 6 && db.FindOne(email).None?
    requires wrong != "" && wrong != password
    requires unknown != "" && unknown != email && db.FindOne(unknown).None?
    modifies db
    ensures wrongPassword == unknownEmail == Rejected(WrongCredentials)
  {
    ghost var before, id := db.records, db.nextId;
    RegisterRejectionOrder(RegisterBody(Some(email), Some(password), Some(password)), db.records, db.nextId);
    var _ := Register(db, RegisterBody(Some(email), Some(password), Some(password)), salt, mode);
    FindOneAfterInsert(before, id, User(email, Hash(password, salt), DefaultTags));
    CompareRejectsOtherPassword(password, wrong, salt);
    wrongPassword := Login(db, LoginBody(Some(email), Some(wrong)), mode);
    assert db.records[id].email != unknown;
    unknownEmail := Login(db, LoginBody(Some(unknown), Some(password)), mode);
  }

  /** Log in, append a tag, then read the tags with the login token: the
      table holds the appended tag, the token still answers with the tags it
      was issued with. */
  method StaleTagsAfterAppend(db: Users, email: string, password: string, salt: Salt, tag: string, mode: Mode)
      returns (tags: Reply<seq<string>>)
    requires db.Valid() && email != "" && |password| >= 6 && db.FindOne(email).None?
    modifies db
    ensures tags == Json(DefaultTags)
    ensures db.Valid() && db.nextId == old(db.nextId) + 1
    ensures db.records[old(db.nextId)].userTags == DefaultTags + [tag]
  {
    var registered, loggedIn := RegisterThenLogin(db, email, password, salt, mode);
    var cookie := Some(loggedIn.cookie.value.value);
    var id := db.nextId - 1;
    var _ := AddTag(db, id, tag);
    tags := UserTags(cookie);
  }

  /** After logout the cookie it writes reads as no session at all. */
  lemma LogOutEndsSession(mode: Mode)
    ensures var cookie := Some(LogOut(mode).cookie.value.value);
      LoggedIn(cookie) == JsonNull && UserName(cookie) == JsonNull && UserTags(cookie) == JsonNull
  {
  }
}
