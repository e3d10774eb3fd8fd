/**
 * The request guards: `canRequest(feature)`, the cookie-driven `injectUser`,
 * `comparePasswords`, the login decision of `POST /api/v1/sessions`, and the
 * sliding session renewal of `GET /api/v1/user`.
 *
 * The password and session modules are not part of this model: the hash, the
 * compare primitive, the session lookup by cookies, session creation and
 * session renewal are parameters.
 */
module Auth {
  import opened Wrappers
  import opened JsonData
  import opened Errors
  import opened Store
  import opened Validator
  import ValidatorFacts
  import FieldFacts
  import Text
  import Users

  /** The session columns the guards read. */
  datatype Session = Session(id: nat, token: string, userId: int, expiresAt: int)

  /**
   * `req.context`: the injected user and session, and whatever else the
   * request-metadata middleware put there.
   */
  datatype Context = Context(user: Option<Users.User>, session: Option<Session>, metadata: map<string, Json>)

  const UserNotFound: Fault := ForbiddenError("MODEL:AUTHORIZATION:CAN_REQUEST:USER_NOT_FOUND")
  const FeatureNotFound: Fault := ForbiddenError("MODEL:AUTHORIZATION:CAN_REQUEST:FEATURE_NOT_FOUND")
  const PasswordMismatch: Fault := UnauthorizedError(Some("MODEL:AUTHENTICATION:COMPARE_PASSWORDS:PASSWORD_MISMATCH"))
  const DataMismatch: Fault := UnauthorizedError(Some("CONTROLLER:SESSIONS:POST_HANDLER:DATA_MISMATCH"))

  // ---------------------------------------------------------------------------
  // Authorization
  // ---------------------------------------------------------------------------

  /**
   * `canRequest(feature)` as a middleware step: `Success(ctx)` is a call of
   * `next` with the context as it was; a failure is the error it throws.
   */
  function CanRequest(feature: string, ctx: Context): (r: Result<Context, Fault>)
    ensures r.Success? ==> r.value == ctx
    ensures r.Success? <==> ctx.user.Some? && feature in ctx.user.value.features
    ensures r.Failure? ==> (r.error == UserNotFound <==> ctx.user.None?)
    ensures r.Failure? ==> (r.error == UserNotFound || r.error == FeatureNotFound)
  {
    if ctx.user.None? then Failure(UserNotFound)
    else if feature !in ctx.user.value.features then Failure(FeatureNotFound)
    else Success(ctx)
  }

  /** Granting a user more features never takes a permission away. */
  lemma CanRequestMonotone(feature: string, a: Context, b: Context)
    requires a.user.Some? && b.user.Some?
    requires forall f :: f in a.user.value.features ==> f in b.user.value.features
    ensures CanRequest(feature, a).Success? ==> CanRequest(feature, b).Success?
  {
  }

  /** After `addFeatures(id, [feature])`, the stored user passes `canRequest(feature)`. */
  lemma AddFeatureGrants(t: Table<Users.User>, id: int, feature: string, now: int, metadata: map<string, Json>)
    requires Keyed(t, Users.IdOf)
    ensures var r := Users.AddFeatures(t, id, [feature], now);
      r.0.Some? ==> CanRequest(feature, Context(r.0, None, metadata)) == Success(Context(r.0, None, metadata))
  {
    var r := Users.AddFeatures(t, id, [feature], now);
    if r.0.Some? {
      Users.AddFeaturesAppends(t, id, [feature], now);
      assert r.0.value.features[|r.0.value.features| - 1] == feature;
    }
  }

  // ---------------------------------------------------------------------------
  // Authentication
  // ---------------------------------------------------------------------------

  /** `comparePasswords(provided, hash)` over a compare primitive. */
  function ComparePasswords(compare: (string, string) -> bool, provided: string, hash: string): (r: Result<(), Fault>)
    ensures r.Failure? <==> !compare(provided, hash)
    ensures r.Failure? ==> r.error == PasswordMismatch
  {
    if compare(provided, hash) then Success(()) else Failure(PasswordMismatch)
  }

  /** The compare primitive recognises every password against its own hash. */
  ghost predicate Recognises(compare: (string, string) -> bool, hash: string -> string) {
    forall p :: compare(p, hash(p))
  }

  /** Under a compare primitive that recognises the hash, a password always matches its own stored hash. */
  lemma CompareOwnHash(compare: (string, string) -> bool, hash: string -> string, p: string)
    requires Recognises(compare, hash)
    ensures ComparePasswords(compare, p, hash(p)) == Success(())
  {
  }

  /** The cookie validator's requiredness map: `session_id` only, required. */
  const CookieRequest: Request := Request(["session_id"], map["session_id" := Required])

  /** The cookies object as the validator sees it. */
  function CookieObject(cookies: map<string, string>): Json {
    JObj(map k | k in cookies :: JStr(cookies[k]))
  }

  /** `req.cookies?.session_id` is truthy: present and not the empty string. */
  predicate HasSessionCookie(cookies: map<string, string>) {
    "session_id" in cookies && cookies["session_id"] != ""
  }

  /** A well-formed session token: exactly 96 ASCII letters and digits. */
  predicate IsSessionToken(s: string) {
    |s| == 96 && forall i :: 0 <= i < |s| ==> Text.IsAsciiAlphaNumeric(s[i])
  }

  /** `injectAuthenticatedUser`: the session the cookies name, then its user by id. */
  function InjectAuthenticatedUser(
    ctx: Context, cookies: map<string, string>,
    findSession: map<string, string> -> Result<Session, Fault>, users: Table<Users.User>): (r: Result<Context, Fault>)
    ensures findSession(cookies).Failure? ==> r == Failure(findSession(cookies).error)
    ensures r.Success? <==>
      findSession(cookies).Success? && Users.FindById(users, findSession(cookies).value.userId).Success?
    ensures r.Success? ==>
      && r.value.session == Some(findSession(cookies).value)
      && r.value.user.Some? && r.value.user.value in users.rows
      && r.value.user.value.id == findSession(cookies).value.userId
      && r.value.metadata == ctx.metadata
  {
    var session :- findSession(cookies);
    var user :- Users.FindById(users, session.userId);
    Success(ctx.(user := Some(user), session := Some(session)))
  }

  /**
   * `injectUser`: with a truthy `session_id` cookie, validate the cookies,
   * write the cleaned token back, and inject the session's user; without
   * one, go on with the context untouched.
   */
  function InjectUser(
    ctx: Context, cookies: map<string, string>,
    findSession: map<string, string> -> Result<Session, Fault>, users: Table<Users.User>): (r: Result<Context, Fault>)
    ensures !HasSessionCookie(cookies) ==> r == Success(ctx)
    ensures r.Success? ==> r.value.metadata == ctx.metadata
  {
    if !HasSessionCookie(cookies) then Success(ctx)
    else
      match Validate(Representable(CookieObject(cookies)), CookieRequest)
      case Failure(e) => Failure(e)
      case Success(clean) =>
        var token := if clean.JObj? && "session_id" in clean.fields then TextOf(clean.fields["session_id"]) else "";
        InjectAuthenticatedUser(ctx, cookies["session_id" := token], findSession, users)
  }

  /** The cookie validator accepts exactly a well-formed token and hands it back unchanged. */
  lemma CookieValidation(cookies: map<string, string>)
    requires "session_id" in cookies
    ensures var v := Validate(Representable(CookieObject(cookies)), CookieRequest);
      && (v.Success? <==> IsSessionToken(cookies["session_id"]))
      && (v.Success? ==> v.value == JObj(map["session_id" := JStr(cookies["session_id"])]))
      && (v.Failure? ==> v.error.ValidationError?)
  {
    var fields := CookieObject(cookies).fields;
    var w := JStr(cookies["session_id"]);
    var v := Validate(Representable(CookieObject(cookies)), CookieRequest);
    assert fields["session_id"] == w;
    assert CookieRequest.order[0] == "session_id";
    if IsSessionToken(cookies["session_id"]) {
      assert FieldFacts.FieldShape("session_id", w);
      FieldFacts.ShapedInputPasses(fields, CookieRequest);
      assert ValidatorFacts.Restrict(fields, CookieRequest.order) == map["session_id" := w];
    }
    if v.Success? {
      FieldFacts.ValidatedShapes(fields, CookieRequest);
      ValidatorFacts.ValidateSuccess(fields, CookieRequest);
      assert "session_id" in v.value.fields;
      assert v.value.fields["session_id"] == w;
    }
  }

  /** A malformed token is rejected by validation before any session lookup. */
  lemma InjectUserRejectsBeforeLookup(
    ctx: Context, cookies: map<string, string>,
    f1: map<string, string> -> Result<Session, Fault>, f2: map<string, string> -> Result<Session, Fault>,
    u1: Table<Users.User>, u2: Table<Users.User>)
    requires HasSessionCookie(cookies) && !IsSessionToken(cookies["session_id"])
    ensures InjectUser(ctx, cookies, f1, u1).Failure?
    ensures InjectUser(ctx, cookies, f1, u1).error.ValidationError?
    ensures InjectUser(ctx, cookies, f1, u1) == InjectUser(ctx, cookies, f2, u2)
  {
    CookieValidation(cookies);
  }

  /** A well-formed token reaches the lookup with the cookies exactly as sent. */
  lemma InjectUserLooksUp(
    ctx: Context, cookies: map<string, string>,
    findSession: map<string, string> -> Result<Session, Fault>, users: Table<Users.User>)
    requires HasSessionCookie(cookies) && IsSessionToken(cookies["session_id"])
    ensures InjectUser(ctx, cookies, findSession, users) == InjectAuthenticatedUser(ctx, cookies, findSession, users)
  {
    CookieValidation(cookies);
    assert cookies["session_id" := cookies["session_id"]] == cookies;
  }

  // ---------------------------------------------------------------------------
  // POST /api/v1/sessions
  // ---------------------------------------------------------------------------

  /** The validated username and password of a login body. */
  function Credentials(v: Json): (string, string) {
    (TextOf(Prop(v, "username").GetOr(JNull)), TextOf(Prop(v, "password").GetOr(JNull)))
  }

  /**
   * The login chain: validate username and password, find the user (its
   * NotFound passes through), compare the password (any failure becomes
   * DATA_MISMATCH), and only then create the session; answered with 201.
   */
  function Login(
    users: Table<Users.User>, body: RawInput, compare: (string, string) -> bool,
    createSession: int -> Session): (r: Result<Reply<Session>, Fault>)
    ensures Validate(body, Users.PostRequest).Failure? ==> r == Failure(Validate(body, Users.PostRequest).error)
    ensures r.Success? ==>
      && Validate(body, Users.PostRequest).Success?
      && var (username, password) := Credentials(Validate(body, Users.PostRequest).value);
      && Users.FindByUsername(users, username).Success?
      && compare(password, Users.FindByUsername(users, username).value.password)
      && r.value == Reply(201, createSession(Users.FindByUsername(users, username).value.id))
  {
    var v :- Validate(body, Users.PostRequest);
    var (username, password) := Credentials(v);
    var stored :- Users.FindByUsername(users, username);
    if ComparePasswords(compare, password, stored.password).Failure? then Failure(DataMismatch)
    else Success(Reply(201, createSession(stored.id)))
  }

  /**
   * The username lookup comes before the compare, and no failure depends on
   * session creation: an unknown username is NotFound whatever the compare
   * primitive says, and a failed login fails the same way under any session
   * factory.
   */
  lemma LoginFailsBeforeSession(
    users: Table<Users.User>, body: RawInput, c1: (string, string) -> bool, c2: (string, string) -> bool,
    s1: int -> Session, s2: int -> Session)
    ensures Login(users, body, c1, s1).Failure? <==> Login(users, body, c1, s2).Failure?
    ensures Login(users, body, c1, s1).Failure? ==> Login(users, body, c1, s1) == Login(users, body, c1, s2)
    ensures Validate(body, Users.PostRequest).Success?
      && Users.FindByUsername(users, Credentials(Validate(body, Users.PostRequest).value).0).Failure?
      ==> Login(users, body, c1, s1) == Login(users, body, c2, s2) == Failure(Users.UsernameNotFound)
    ensures Login(users, body, c1, s1).Failure? ==>
      Login(users, body, c1, s1).error != PasswordMismatch
  {
  }

  /** A wrong password is DATA_MISMATCH, never the compare's own PASSWORD_MISMATCH. */
  lemma LoginWrongPassword(users: Table<Users.User>, body: RawInput, compare: (string, string) -> bool, createSession: int -> Session)
    requires Validate(body, Users.PostRequest).Success?
    requires var (username, password) := Credentials(Validate(body, Users.PostRequest).value);
      Users.FindByUsername(users, username).Success?
      && !compare(password, Users.FindByUsername(users, username).value.password)
    ensures Login(users, body, compare, createSession) == Failure(DataMismatch)
  {
  }

  /**
   * Signing up and then logging in with the same credentials opens a session
   * for the new user, when the compare primitive recognises the hash.
   */
  lemma SignUpThenLogin(
    t: Table<Users.User>, raw: RawInput, hash: string -> string, now: int,
    compare: (string, string) -> bool, createSession: int -> Session)
    requires Recognises(compare, hash)
    ensures var r := Users.Create(t, raw, hash, now);
      r.0.Success? ==> Login(r.1, raw, compare, createSession) == Success(Reply(201, createSession(r.0.value.id)))
  {
    var r := Users.Create(t, raw, hash, now);
    if r.0.Success? {
      var (username, password) := Credentials(Validate(raw, Users.PostRequest).value);
      assert username == r.0.value.username;
      Users.CreateThenFind(t, raw, hash, now, username);
      CompareOwnHash(compare, hash, password);
    }
  }

  // ---------------------------------------------------------------------------
  // GET /api/v1/user
  // ---------------------------------------------------------------------------

  /** Three weeks in milliseconds. */
  const RenewWindow: int := 1000 * 60 * 60 * 24 * 7 * 3

  /**
   * `renewSessionIfNecessary`: no session is Unauthorized; a session that
   * expires within three weeks of `now` is replaced by its renewal.
   */
  function RenewSessionIfNecessary(ctx: Context, now: int, renew: nat -> Session): (r: Result<Context, Fault>)
    ensures ctx.session.None? <==> r == Failure(UnauthorizedError(None))
    ensures r.Success? ==> r.value.user == ctx.user && r.value.metadata == ctx.metadata
    ensures r.Success? ==>
      (r.value == ctx || r.value.session == Some(renew(ctx.session.value.id)))
    ensures r.Success? && ctx.session.value.expiresAt < now + RenewWindow ==>
      r.value.session == Some(renew(ctx.session.value.id))
    ensures r.Success? && ctx.session.value.expiresAt >= now + RenewWindow ==> r.value == ctx
  {
    match ctx.session
    case None => Failure(UnauthorizedError(None))
    case Some(s) =>
      if s.expiresAt < now + RenewWindow then Success(ctx.(session := Some(renew(s.id))))
      else Success(ctx)
  }

  /** `GET /api/v1/user`: the renewal step, then the context's user with status 200. */
  function CurrentUser(ctx: Context, now: int, renew: nat -> Session): (r: Result<Reply<Option<Users.User>>, Fault>)
    ensures r.Success? <==> ctx.session.Some?
    ensures r.Success? ==> r.value == Reply(200, ctx.user)
  {
    var next :- RenewSessionIfNecessary(ctx, now, renew);
    Success(Reply(200, next.user))
  }

  /**
   * A renewal that pushes the expiry at least three weeks past `now` is not
   * repeated: a second request at the same instant leaves the context alone.
   */
  lemma RenewSettles(ctx: Context, now: int, renew: nat -> Session)
    requires ctx.session.Some?
    requires renew(ctx.session.value.id).expiresAt >= now + RenewWindow
    ensures var once := RenewSessionIfNecessary(ctx, now, renew);
      once.Success? && RenewSessionIfNecessary(once.value, now, renew) == once
  {
  }

  /** Renewal is decided by the expiry alone: a later `now` never un-renews a session. */
  lemma RenewMonotone(ctx: Context, now: int, later: int, renew: nat -> Session)
    requires ctx.session.Some? && now <= later
    requires RenewSessionIfNecessary(ctx, now, renew).Success?
    requires RenewSessionIfNecessary(ctx, now, renew).value != ctx
    ensures RenewSessionIfNecessary(ctx, later, renew) == RenewSessionIfNecessary(ctx, now, renew)
  {
  }
}
