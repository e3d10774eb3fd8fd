/**
 * The `/api/v1/categories` route: the admin listing (GET) and the admin
 * creation of a category (POST), both behind `injectUser`, the route's
 * validation and `canRequest("admin")`. Creation runs in a transaction; a
 * unique violation on the name is answered as a duplicate.
 */
module CategoriesRoute {
  import opened Wrappers
  import opened JsonData
  import opened Errors
  import opened Store
  import opened Validator
  import ValidatorFacts
  import FieldFacts
  import Text
  import Users
  import Auth
  import Routes
  import Categories

  const DuplicateName: Fault := ValidationError("MODEL:CATEGORY:CHECK_FOR_CATEGORY_UNIQUENESS:ALREADY_EXISTS", None, KeyName("name"))

  /** `postValidationHandler`: the name, required. */
  const NameRequest: Request := Request(["name"], map["name" := Required])

  /** The validated name: the text `category.create` receives. */
  function ValidatedName(body: RawInput): string {
    match Validate(body, NameRequest)
    case Success(v) => TextOf(Prop(v, "name").GetOr(JNull))
    case Failure(_) => ""
  }

  /** The `catch` block: a unique violation is a duplicate name, anything else is rethrown. */
  function MapCategoryError(e: Fault): (r: Fault)
    ensures r == e || r == DuplicateName
    ensures e == DatabaseFault(UniqueError(Categories.NameConstraint)) ==> r == DuplicateName
    ensures !e.DatabaseFault? ==> r == e
  {
    if e.DatabaseFault? && e.error.code == UniqueViolation then DuplicateName else e
  }

  /** `POST /api/v1/categories`. */
  function PostCategory(
    t: Table<Categories.Category>, ctx: Auth.Context, cookies: map<string, string>,
    findSession: map<string, string> -> Result<Auth.Session, Fault>, users: Table<Users.User>,
    body: RawInput, now: int): (r: (Result<Reply<Categories.Category>, Fault>, Table<Categories.Category>))
    ensures Routes.Guard("admin", ctx, cookies, findSession, users, Validate(body, NameRequest)).Failure? ==>
      r == (Failure(Routes.Guard("admin", ctx, cookies, findSession, users, Validate(body, NameRequest)).error), t)
    ensures r.0.Failure? ==> r.1.rows == t.rows
    ensures r.0.Success? ==>
      && r.0.value.status == 201
      && r.0.value.body.name == ValidatedName(body)
      && r.0.value.body.status == Categories.DefaultStatus
      && r.1.rows == t.rows + [r.0.value.body]
  {
    match Routes.Guard("admin", ctx, cookies, findSession, users, Validate(body, NameRequest))
    case Failure(e) => (Failure(e), t)
    case Success(_) =>
      ValidatedNameFits(body);
      var created := Categories.Create(t, ValidatedName(body), now);
      if created.0.Failure? then (Failure(MapCategoryError(created.0.error)), Rollback(t, created.1))
      else (Success(Reply(201, created.0.value)), created.1)
  }

  /**
   * An admin's request with a name already stored (exactly, letter case
   * included) is answered 400 on "name"; no row is written, though the id
   * sequence has advanced.
   */
  lemma PostDuplicateCategory(
    t: Table<Categories.Category>, ctx: Auth.Context, cookies: map<string, string>,
    findSession: map<string, string> -> Result<Auth.Session, Fault>, users: Table<Users.User>,
    body: RawInput, now: int)
    requires Routes.Guard("admin", ctx, cookies, findSession, users, Validate(body, NameRequest)).Success?
    requires exists i :: 0 <= i < |t.rows| && t.rows[i].name == ValidatedName(body)
    ensures var r := PostCategory(t, ctx, cookies, findSession, users, body, now);
      && r.0 == Failure(DuplicateName)
      && HttpStatus(DuplicateName) == 400
      && r.1.rows == t.rows && r.1.last == NextId(t)
  {
    ValidatedNameFits(body);
  }

  /**
   * An admin's request with a new name is answered 201 with the created row,
   * which a lookup by its id then finds.
   */
  lemma PostNewCategory(
    t: Table<Categories.Category>, ctx: Auth.Context, cookies: map<string, string>,
    findSession: map<string, string> -> Result<Auth.Session, Fault>, users: Table<Users.User>,
    body: RawInput, now: int)
    requires Keyed(t, Categories.IdOf)
    requires Routes.Guard("admin", ctx, cookies, findSession, users, Validate(body, NameRequest)).Success?
    requires forall i :: 0 <= i < |t.rows| ==> t.rows[i].name != ValidatedName(body)
    ensures var r := PostCategory(t, ctx, cookies, findSession, users, body, now);
      && r.0.Success?
      && r.0.value.body.id == NextId(t)
      && Categories.FindById(r.1, r.0.value.body.id) == Success(r.0.value.body)
  {
    ValidatedNameFits(body);
    Categories.CreateThenFind(t, ValidatedName(body), now);
  }

  /**
   * A stored name has the shape the `name` rule promises: non-empty, at most
   * 128 UTF-16 units, no leading or trailing blank, no NUL.
   */
  lemma PostedNameShape(
    t: Table<Categories.Category>, ctx: Auth.Context, cookies: map<string, string>,
    findSession: map<string, string> -> Result<Auth.Session, Fault>, users: Table<Users.User>,
    body: RawInput, now: int)
    ensures var r := PostCategory(t, ctx, cookies, findSession, users, body, now);
      r.0.Success? ==> FieldFacts.FieldShape("name", JStr(r.0.value.body.name))
  {
    if Validate(body, NameRequest).Success? {
      ValidatedNameShape(body);
    }
  }

  /** A validated name is at most 128 UTF-16 units, so `varchar(128)` stores it unchanged. */
  lemma ValidatedNameFits(body: RawInput)
    ensures FitsVarchar(ValidatedName(body), Categories.NameLength)
    ensures Varchar(ValidatedName(body), Categories.NameLength) == ValidatedName(body)
  {
    if Validate(body, NameRequest).Success? {
      ValidatedNameShape(body);
    }
  }

  /** The name a POST body validates to has the shape of the `name` rule. */
  lemma ValidatedNameShape(body: RawInput)
    requires Validate(body, NameRequest).Success?
    ensures FieldFacts.FieldShape("name", JStr(ValidatedName(body)))
  {
    ValidatorFacts.ValidateAcceptsObjects(body, NameRequest);
    var fields := body.json.fields;
    ValidatorFacts.ValidateSuccess(fields, NameRequest);
    assert MustBePresent(NameRequest.order[0], NameRequest.presence);
    var v := Validate(body, NameRequest).value;
    assert "name" in v.fields;
    FieldFacts.ConformsIsShape("name", v.fields["name"]);
  }

  /**
   * A visitor without a session: a body the name rule rejects is answered
   * with that validation error, and a valid one with 403 USER_NOT_FOUND; in
   * both cases nothing is written.
   */
  lemma AnonymousCategoryPost(
    t: Table<Categories.Category>, ctx: Auth.Context, cookies: map<string, string>,
    findSession: map<string, string> -> Result<Auth.Session, Fault>, users: Table<Users.User>,
    body: RawInput, now: int)
    requires !Auth.HasSessionCookie(cookies) && ctx.user.None?
    ensures var r := PostCategory(t, ctx, cookies, findSession, users, body, now);
      && r.1 == t
      && (Validate(body, NameRequest).Failure? ==> r.0 == Failure(Validate(body, NameRequest).error))
      && (Validate(body, NameRequest).Success? ==> r.0 == Failure(Auth.UserNotFound))
  {
    Routes.AnonymousGuard("admin", ctx, cookies, findSession, users, Validate(body, NameRequest));
  }

  // ---------------------------------------------------------------------------
  // Listing categories
  // ---------------------------------------------------------------------------

  /** `GET /api/v1/categories`: `injectUser`, the status query, `canRequest("admin")`, then `listByStatus`. */
  function GetCategories(
    t: Table<Categories.Category>, ctx: Auth.Context, cookies: map<string, string>,
    findSession: map<string, string> -> Result<Auth.Session, Fault>, users: Table<Users.User>,
    query: map<string, string>): (r: Result<Reply<seq<Categories.Category>>, Fault>)
    ensures r.Success? ==>
      && r.value.status == 200
      && Auth.InjectUser(ctx, cookies, findSession, users).Success?
      && var user := Auth.InjectUser(ctx, cookies, findSession, users).value.user;
      && user.Some? && "admin" in user.value.features
    ensures r.Success? ==>
      forall c :: c in r.value.body <==> c in t.rows && c.status in Routes.StatusFilter(query, "category_status")
  {
    var validation := Validate(Representable(Routes.SplitQuery(query, "category_status")), Routes.StatusRequest("category_status"));
    var _ :- Routes.Guard("admin", ctx, cookies, findSession, users, validation);
    Success(Reply(200, Categories.ListByStatus(t, Routes.StatusFilter(query, "category_status"))))
  }

  /**
   * Without a session and without a query the listing is rejected with
   * `object.min` on "object" before authorization is reached.
   */
  lemma AnonymousEmptyListing(
    t: Table<Categories.Category>, ctx: Auth.Context, cookies: map<string, string>,
    findSession: map<string, string> -> Result<Auth.Session, Fault>, users: Table<Users.User>)
    requires !Auth.HasSessionCookie(cookies) && ctx.user.None?
    ensures GetCategories(t, ctx, cookies, findSession, users, map[]) == Failure(MinKeysError)
  {
    Routes.EmptyQuery("category_status");
    Routes.AnonymousGuard("admin", ctx, cookies, findSession, users,
      Validate(Representable(Routes.SplitQuery(map[], "category_status")), Routes.StatusRequest("category_status")));
  }

  /**
   * An admin's listing with `category_status=s` succeeds exactly when every
   * comma-separated part of `s` is a category status.
   */
  lemma AdminListing(
    t: Table<Categories.Category>, ctx: Auth.Context, cookies: map<string, string>,
    findSession: map<string, string> -> Result<Auth.Session, Fault>, users: Table<Users.User>, s: string)
    requires s != ""
    requires Auth.InjectUser(ctx, cookies, findSession, users).Success?
    requires Auth.CanRequest("admin", Auth.InjectUser(ctx, cookies, findSession, users).value).Success?
    ensures GetCategories(t, ctx, cookies, findSession, users, map["category_status" := s]).Success?
      <==> Routes.AllAllowed("category_status", Text.Split(s, ','))
  {
    Routes.StatusQueryOutcome("category_status", s);
  }
}
