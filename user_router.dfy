/** The handlers of routers/userRouter.js: registration, login, the three
    session reads, tag append and logout, with the cookie options they share.

    Each handler is modelled as one atomic step on the `Users` table. In the
    running server the duplicate-email check and the insert of registration
    (and the load and save of the tag append) are separate datastore calls
    that concurrent requests can interleave; that race is not modelled. */
module UserRouter {

  import opened Wrappers
  import opened Bcrypt
  import opened Jwt
  import opened UserModel

  /** The tags every new account starts with. */
  const DefaultTags: seq<string> := ["js", "php", "c#", "java"]

  /** `process.env.NODE_ENV`, absent when unset. */
  type Mode = Option<string>

  // ---------------------------------------------------------------------------
  // Requests and responses

  /** The JSON body of `POST /`; a field may be missing. */
  datatype RegisterBody = RegisterBody(email: Option<string>, password: Option<string>, passwordVerify: Option<string>)

  /** The JSON body of `POST /login`. */
  datatype LoginBody = LoginBody(email: Option<string>, password: Option<string>)

  /** JavaScript falsiness of a string field: missing or empty. */
  predicate Falsy(field: Option<string>)
  {
    field.None? || field.value == ""
  }

  /** The reasons a request is turned away with an `errorMessage`. */
  datatype Rejection = MissingFields | ShortPassword | PasswordMismatch | EmailTaken | WrongCredentials
  {
    function Message(): string
    {
      match this
      case MissingFields => "Please enter all required fields."
      case ShortPassword => "Please enter a password of at least 6 characters."
      case PasswordMismatch => "Please enter the same password twice for verification."
      case EmailTaken => "An account with this email already exists."
      case WrongCredentials => "Wrong email or password."
    }

    function Status(): nat
    {
      if this == WrongCredentials then 401 else 400
    }
  }

  /** The claims of a session token. A registration token carries only `id`;
      a login token also carries `username` and `userTags`. */
  datatype Claims = Claims(id: UserId, username: Option<string>, userTags: Option<seq<string>>)

  type SessionToken = Token<Claims>

  /** A JavaScript value as it appears in the cookie options. */
  datatype JsValue = JsBool(b: bool) | JsString(s: string)

  datatype CookieOptions = CookieOptions(httpOnly: bool, sameSite: JsValue, secure: JsValue, expires: Option<int>)

  datatype SetCookie = SetCookie(name: string, value: SessionToken, options: CookieOptions)

  datatype Body = EmptyBody | ErrorJson(errorMessage: string)

  /** An HTTP response, or none at all (the tag append never answers on success). */
  datatype Response = Response(status: nat, body: Body, cookie: Option<SetCookie>) | NoResponse

  /** What `res.json(v)` sends for a session read: `null`, nothing (for an
      undefined `v`), or the value itself; always with status 200. */
  datatype Reply<T> = JsonNull | NoBody | Json(value: T)

  function Rejected(reason: Rejection): Response
  {
    Response(reason.Status(), ErrorJson(reason.Message()), None)
  }

  const ServerError: Response := Response(500, EmptyBody, None)

  /** A successful registration or login: status 200, empty body, and the
      signed claims in the `token` cookie. */
  function Issued(claims: Claims, mode: Mode): Response
  {
    Response(200, EmptyBody, Some(SetCookie("token", Sign(claims), CookieOptionsFor(mode, None))))
  }

  function RegisterClaims(id: UserId): Claims
  {
    Claims(id, None, None)
  }

  /** The snapshot a login token carries: the stored email and tags. */
  function LoginClaims(id: UserId, u: User): Claims
  {
    Claims(id, Some(u.email), Some(u.userTags))
  }

  /** Every reason has its own message, so a client can tell them apart, and
      only a credential failure is a 401. */
  lemma RejectionsDistinguishable(a: Rejection, b: Rejection)
    ensures a.Message() == b.Message() <==> a == b
    ensures a.Status() == 401 <==> a == WrongCredentials
  {
  }

  // ---------------------------------------------------------------------------
  // Cookie options

  /** JavaScript `c && v` for a boolean `c`. */
  function JsAnd(c: bool, v: JsValue): JsValue
  {
    if c then v else JsBool(false)
  }

  /** The options object written with every `token` cookie. `sameSite` and
      `secure` are `dev ? a : prod && b` expressions, so a mode that is neither
      development nor production gives `false` for both. */
  function CookieOptionsFor(mode: Mode, expires: Option<int>): (o: CookieOptions)
    ensures o.httpOnly && o.expires == expires
    ensures mode == Some("development") ==> o.sameSite == JsString("lax") && o.secure == JsBool(false)
    ensures mode == Some("production") ==> o.sameSite == JsString("none") && o.secure == JsBool(true)
    ensures mode != Some("development") && mode != Some("production") ==>
              o.sameSite == JsBool(false) && o.secure == JsBool(false)
  {
    var development := mode == Some("development");
    var production := mode == Some("production");
    CookieOptions(
      true,
      if development then JsString("lax") else JsAnd(production, JsString("none")),
      if development then JsBool(false) else JsAnd(production, JsBool(true)),
      expires)
  }

  // ---------------------------------------------------------------------------
  // Registration

  /** One validation step: whether it fails, and the rejection it gives. */
  datatype Check = Check(fails: bool, reason: Rejection)

  /** The reason of the first failing check in the list, if any. */
  function FirstFailure(checks: seq<Check>): (r: Option<Rejection>)
    ensures r.None? <==> forall i :: 0 <= i < |checks| ==> !checks[i].fails
    ensures r.Some? ==> exists i :: 0 <= i < |checks| && checks[i].fails && checks[i].reason == r.value &&
                                    forall j :: 0 <= j < i ==> !checks[j].fails
  {
    if checks == [] then None
    else if checks[0].fails then Some(checks[0].reason)
    else
      var rest := FirstFailure(checks[1..]);
      assert forall i :: 1 <= i < |checks| ==> checks[i] == checks[1..][i - 1];
      rest
  }

  /** The checks of registration, in the order the handler runs them. */
  function RegisterChecks(body: RegisterBody, records: map<UserId, User>, n: nat): seq<Check>
  {
    [ Check(Falsy(body.email) || Falsy(body.password) || Falsy(body.passwordVerify), MissingFields),
      Check(body.password.Some? && |body.password.value| < 6, ShortPassword),
      Check(body.password != body.passwordVerify, PasswordMismatch),
      Check(body.email.Some? && FindBelow(records, body.email.value, n).Some?, EmailTaken) ]
  }

  /** Which message a registration gets: each check decides only when every
      earlier one passes, and a request passing all four is accepted. */
  lemma RegisterRejectionOrder(body: RegisterBody, records: map<UserId, User>, n: nat)
    ensures var verdict := FirstFailure(RegisterChecks(body, records, n));
      var missing := Falsy(body.email) || Falsy(body.password) || Falsy(body.passwordVerify);
      && (verdict == Some(MissingFields) <==> missing)
      && (verdict == Some(ShortPassword) <==> !missing && |body.password.value| < 6)
      && (verdict == Some(PasswordMismatch) <==>
            !missing && |body.password.value| >= 6 && body.password != body.passwordVerify)
      && (verdict == Some(EmailTaken) <==>
            !missing && |body.password.value| >= 6 && body.password == body.passwordVerify &&
            FindBelow(records, body.email.value, n).Some?)
      && (verdict == None <==>
            !missing && |body.password.value| >= 6 && body.password == body.passwordVerify &&
            FindBelow(records, body.email.value, n).None?)
  {
    var c := RegisterChecks(body, records, n);
    assert c[3..][1..] == [] && c[2..][1..] == c[3..] && c[1..][1..] == c[2..];
    assert FirstFailure(c[3..]) == if c[3].fails then Some(EmailTaken) else None;
    assert FirstFailure(c[2..]) == if c[2].fails then Some(PasswordMismatch) else FirstFailure(c[3..]);
    assert FirstFailure(c[1..]) == if c[1].fails then Some(ShortPassword) else FirstFailure(c[2..]);
  }

  /** A password shorter than six characters never registers, whatever the
      other fields hold. */
  lemma ShortPasswordNeverRegisters(body: RegisterBody, records: map<UserId, User>, n: nat)
    requires body.password.Some? && |body.password.value| < 6
    ensures FirstFailure(RegisterChecks(body, records, n)) in {Some(MissingFields), Some(ShortPassword)}
  {
    RegisterRejectionOrder(body, records, n);
  }

  /** `POST /`: validate, refuse a taken email, store the new account with the
      default tags and a digest of its password, and issue a token carrying
      only the new identifier. */
  method Register(db: Users, body: RegisterBody, salt: Salt, mode: Mode) returns (resp: Response)
    requires db.Valid()
    modifies db
    ensures db.Valid()
    ensures match FirstFailure(RegisterChecks(body, old(db.records), old(db.nextId)))
      case Some(reason) =>
        && resp == Rejected(reason)
        && db.records == old(db.records) && db.nextId == old(db.nextId)
      case None =>
        var id := old(db.nextId);
        && body.email.Some? && body.password.Some?
        && id !in old(db.records)
        && db.records == old(db.records)[id := User(body.email.value, Hash(body.password.value, salt), DefaultTags)]
        && db.nextId == id + 1
        && resp == Issued(RegisterClaims(id), mode)
    ensures StoreInvariant(old(db.records)) ==> StoreInvariant(db.records)
  {
    RegisterRejectionOrder(body, db.records, db.nextId);
    if Falsy(body.email) || Falsy(body.password) || Falsy(body.passwordVerify) {
      return Rejected(MissingFields);
    }
    var email, password := body.email.value, body.password.value;
    if |password| < 6 {
      return Rejected(ShortPassword);
    }
    if password != body.passwordVerify.value {
      return Rejected(PasswordMismatch);
    }
    var existing := db.FindOne(email);
    if existing.Some? {
      return Rejected(EmailTaken);
    }
    var passwordHash := Hash(password, salt);
    var id := db.Insert(User(email, passwordHash, DefaultTags));
    resp := Issued(RegisterClaims(id), mode);
  }

  /** The application-level invariant registration maintains: emails are
      non-empty and no two accounts share one. The collection itself does
      not enforce it. */
  ghost predicate StoreInvariant(records: map<UserId, User>)
  {
    && (forall id :: id in records ==> records[id].email != "")
    && (forall i, j :: i in records && j in records && records[i].email == records[j].email ==> i == j)
  }

  // ---------------------------------------------------------------------------
  // Login

  /** `POST /login`: look the email up and compare the password with the
      stored digest. An unknown email and a wrong password give the same 401
      response; success issues a token with the account's current email and
      tags. The table is not changed. */
  method Login(db: Users, body: LoginBody, mode: Mode) returns (resp: Response)
    requires db.Valid()
    ensures Falsy(body.email) || Falsy(body.password) ==> resp == Rejected(MissingFields)
    ensures !Falsy(body.email) && !Falsy(body.password) ==>
      match db.FindOne(body.email.value)
      case None => resp == Rejected(WrongCredentials)
      case Some(id) =>
        if Compare(body.password.value, db.records[id].passwordHash)
        then resp == Issued(LoginClaims(id, db.records[id]), mode)
        else resp == Rejected(WrongCredentials)
    ensures resp.Response? && resp.status == 401 ==> resp == Rejected(WrongCredentials)
    ensures resp.Response? && resp.status == 200 ==>
      exists id :: id in db.records && db.records[id].email == body.email.value &&
                   Compare(body.password.value, db.records[id].passwordHash) &&
                   resp == Issued(LoginClaims(id, db.records[id]), mode)
  {
    if Falsy(body.email) || Falsy(body.password) {
      return Rejected(MissingFields);
    }
    var email, password := body.email.value, body.password.value;
    var existing := db.FindOne(email);
    if existing.None? {
      return Rejected(WrongCredentials);
    }
    var user := db.records[existing.value];
    var correctPassword := Compare(password, user.passwordHash);
    if !correctPassword {
      return Rejected(WrongCredentials);
    }
    resp := Issued(LoginClaims(existing.value, user), mode);
  }

  // ---------------------------------------------------------------------------
  // Session reads

  /** JavaScript falsiness of the `token` cookie: absent or empty. */
  predicate NoToken(cookie: Option<SessionToken>)
  {
    cookie.None? || cookie.value == Text("")
  }

  /** The claims of the `token` cookie, or none when it is absent, empty, or
      fails verification. */
  function Session(cookie: Option<SessionToken>): (r: Option<Claims>)
    ensures r.Some? <==> exists c: Claims :: cookie == Some(Sign(c))
    ensures r.Some? ==> cookie == Some(Sign(r.value))
  {
    var r := if NoToken(cookie) then None else Verify(cookie.value);
    assert forall c: Claims :: cookie == Some(Sign(c)) ==> r == Some(c);
    assert r.Some? ==> cookie == Some(Sign(r.value));
    r
  }

  /** What `res.json` sends for a claim that may be undefined. */
  function ClaimReply<T>(claim: Option<T>): Reply<T>
  {
    match claim
    case None => NoBody
    case Some(v) => Json(v)
  }

  /** `GET /loggedIn`: the identifier of a signed token, else `null`. */
  function LoggedIn(cookie: Option<SessionToken>): (r: Reply<UserId>)
    ensures forall c: Claims :: cookie == Some(Sign(c)) ==> r == Json(c.id)
    ensures (forall c: Claims :: cookie != Some(Sign(c))) ==> r == JsonNull
  {
    match Session(cookie)
    case None => JsonNull
    case Some(claims) => Json(claims.id)
  }

  /** `GET /userName`: the `username` claim of a signed token (nothing when
      the token lacks it), else `null`. */
  function UserName(cookie: Option<SessionToken>): (r: Reply<string>)
    ensures forall c: Claims :: cookie == Some(Sign(c)) ==> r == ClaimReply(c.username)
    ensures (forall c: Claims :: cookie != Some(Sign(c))) ==> r == JsonNull
  {
    match Session(cookie)
    case None => JsonNull
    case Some(claims) => ClaimReply(claims.username)
  }

  /** `GET /userTags`: the `userTags` claim of a signed token (nothing when
      the token lacks it), else `null`. */
  function UserTags(cookie: Option<SessionToken>): (r: Reply<seq<string>>)
    ensures forall c: Claims :: cookie == Some(Sign(c)) ==> r == ClaimReply(c.userTags)
    ensures (forall c: Claims :: cookie != Some(Sign(c))) ==> r == JsonNull
  {
    match Session(cookie)
    case None => JsonNull
    case Some(claims) => ClaimReply(claims.userTags)
  }

  /** A missing cookie and any cookie that is not a signed token (tampered,
      forged, empty) read identically: `null` from every session read. */
  lemma UnsignedTokenIsAnonymous(cookie: Option<SessionToken>)
    requires cookie.None? || cookie.value.Text?
    ensures LoggedIn(cookie) == JsonNull && UserName(cookie) == JsonNull && UserTags(cookie) == JsonNull
  {
  }

  /** A registration token yields its identifier, and nothing for the name
      and the tags. */
  lemma RegisterTokenCarriesOnlyId(id: UserId)
    ensures var cookie := Some(Sign(RegisterClaims(id)));
      LoggedIn(cookie) == Json(id) && UserName(cookie) == NoBody && UserTags(cookie) == NoBody
  {
  }

  /** A login token yields the identifier, email and tags it was issued with. */
  lemma LoginTokenCarriesSnapshot(id: UserId, u: User)
    ensures var cookie := Some(Sign(LoginClaims(id, u)));
      LoggedIn(cookie) == Json(id) && UserName(cookie) == Json(u.email) && UserTags(cookie) == Json(u.userTags)
  {
  }

  // ---------------------------------------------------------------------------
  // Tag append

  /** `PUT /addTag/:id`: append `tag` to the account's tags (duplicates
      allowed), with no check of who asks. No response is sent on success;
      an unknown identifier dereferences `null` and answers 500. */
  method AddTag(db: Users, id: UserId, tag: string) returns (resp: Response)
    requires db.Valid()
    modifies db
    ensures db.Valid() && db.nextId == old(db.nextId)
    ensures id in old(db.records) ==>
      && resp == NoResponse
      && db.records == old(db.records)[id := old(db.records)[id].(userTags := old(db.records)[id].userTags + [tag])]
    ensures id !in old(db.records) ==> resp == ServerError && db.records == old(db.records)
    ensures forall other :: other in old(db.records) && other != id ==> db.records[other] == old(db.records)[other]
    ensures StoreInvariant(old(db.records)) ==> StoreInvariant(db.records)
  {
    if id !in db.records {
      return ServerError;
    }
    var userData := db.records[id];
    userData := userData.(userTags := userData.userTags + [tag]);
    db.Replace(id, userData);
    resp := NoResponse;
  }

  // ---------------------------------------------------------------------------
  // Logout

  /** `GET /logOut`: overwrite the `token` cookie with the empty string,
      expired at the epoch. */
  function LogOut(mode: Mode): (r: Response)
    ensures r.Response? && r.status == 200 && r.body == EmptyBody && r.cookie.Some?
    ensures r.cookie.value.name == "token" && r.cookie.value.value == Text("")
    ensures r.cookie.value.options == CookieOptionsFor(mode, Some(0))
    ensures Session(Some(r.cookie.value.value)) == None
  {
    Response(200, EmptyBody, Some(SetCookie("token", Text(""), CookieOptionsFor(mode, Some(0)))))
  }
}
