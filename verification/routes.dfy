/**
 * What the admin routes share: the middleware chain `injectUser`, the route's
 * validation step, then `canRequest(feature)`; and the query-string split of
 * a comma-separated status filter.
 */
module Routes {
  import opened Wrappers
  import opened JsonData
  import opened Errors
  import opened Store
  import opened Validator
  import ValidatorFacts
  import FieldFacts
  import Text
  import Users
  import Auth

  /**
   * The chain `injectUser`, validation, `canRequest(feature)`. The validation
   * result does not depend on the context; its position only decides which
   * error a request that fails both checks sees.
   */
  function Guard(
    feature: string, ctx: Auth.Context, cookies: map<string, string>,
    findSession: map<string, string> -> Result<Auth.Session, Fault>, users: Table<Users.User>,
    validation: Result<Json, Fault>): (r: Result<Auth.Context, Fault>)
    ensures Auth.InjectUser(ctx, cookies, findSession, users).Failure? ==>
      r == Failure(Auth.InjectUser(ctx, cookies, findSession, users).error)
    ensures Auth.InjectUser(ctx, cookies, findSession, users).Success? && validation.Failure? ==>
      r == Failure(validation.error)
    ensures r.Success? <==>
      && Auth.InjectUser(ctx, cookies, findSession, users).Success?
      && validation.Success?
      && Auth.CanRequest(feature, Auth.InjectUser(ctx, cookies, findSession, users).value).Success?
  {
    var injected :- Auth.InjectUser(ctx, cookies, findSession, users);
    var _ :- validation;
    Auth.CanRequest(feature, injected)
  }

  /**
   * A request without a session cookie from a context with no user: a failed
   * validation is what it sees (400 for a validation error), and only a
   * request that validates meets USER_NOT_FOUND (403).
   */
  lemma AnonymousGuard(
    feature: string, ctx: Auth.Context, cookies: map<string, string>,
    findSession: map<string, string> -> Result<Auth.Session, Fault>, users: Table<Users.User>,
    validation: Result<Json, Fault>)
    requires !Auth.HasSessionCookie(cookies) && ctx.user.None?
    ensures validation.Failure? ==> Guard(feature, ctx, cookies, findSession, users, validation) == Failure(validation.error)
    ensures validation.Success? ==> Guard(feature, ctx, cookies, findSession, users, validation) == Failure(Auth.UserNotFound)
  {
  }

  function Strings(parts: seq<string>): (r: seq<Json>)
    ensures |r| == |parts|
    ensures forall i :: 0 <= i < |parts| ==> r[i] == JStr(parts[i])
  {
    seq(|parts|, i requires 0 <= i < |parts| => JStr(parts[i]))
  }

  /** `if (req.query[key]) req.query[key] = req.query[key].split(",")`, as the validator sees the query. */
  function SplitQuery(query: map<string, string>, key: string): Json {
    JObj(map k | k in query :: if k == key && query[k] != "" then JArr(Strings(Text.Split(query[k], ','))) else JStr(query[k]))
  }

  /** The list the list handler receives: the split value of `key`. */
  function StatusFilter(query: map<string, string>, key: string): seq<string> {
    if key in query then Text.Split(query[key], ',') else []
  }

  /** A status key on its own, required, as both list routes ask for it. */
  function StatusRequest(key: string): Request {
    Request([key], map[key := Required])
  }

  /** `key` is validated as a list of enumerated values. */
  predicate EnumList(key: string) {
    HasRule(key) && Rule(key).Arr? && Rule(key).item.EnumItem?
  }

  /** Every part is one of the values the status field enumerates. */
  predicate AllAllowed(key: string, parts: seq<string>) {
    && EnumList(key)
    && forall i :: 0 <= i < |parts| ==> parts[i] in Rule(key).item.allowed
  }

  /** Part `i` is the first one the status field does not enumerate. */
  predicate FirstDisallowed(key: string, parts: seq<string>, i: int) {
    && EnumList(key)
    && 0 <= i < |parts|
    && parts[i] !in Rule(key).item.allowed
    && forall j :: 0 <= j < i ==> parts[j] in Rule(key).item.allowed
  }

  /**
   * A query holding only the status key validates exactly when every
   * comma-separated part is one of the field's enumerated values; the first
   * part that is not is reported with `any.only`.
   */
  lemma StatusQueryOutcome(key: string, s: string)
    requires FieldFacts.IsStatusField(key) && s != ""
    ensures EnumList(key)
    ensures var r := Validate(Representable(SplitQuery(map[key := s], key)), StatusRequest(key));
      && (r.Success? <==> AllAllowed(key, Text.Split(s, ',')))
      && (r.Failure? ==>
            exists i :: FirstDisallowed(key, Text.Split(s, ','), i) && r.error == ValidationError(FinalSchemaLocation, Some("any.only"), ItemKey(i)))
  {
    var parts := Text.Split(s, ',');
    var items := Strings(parts);
    assert SplitQuery(map[key := s], key) == JObj(map[key := JArr(items)]);
    FieldFacts.StatusListOutcome(key, items, map[key := Required]);
    FieldFacts.StatusEnums();
    var r := Validate(Representable(SplitQuery(map[key := s], key)), StatusRequest(key));
    assert r == Validate(Representable(JObj(map[key := JArr(items)])), Request([key], map[key := Required]));
    forall i | 0 <= i < |parts|
      ensures ItemConforms(Rule(key).item, items[i]) <==> parts[i] in Rule(key).item.allowed
    {
      assert items[i] == JStr(parts[i]);
    }
    assert r.Success? <==> forall i :: 0 <= i < |items| ==> ItemConforms(Rule(key).item, items[i]);
    if r.Success? {
      assert AllAllowed(key, parts);
    } else {
      var i :|
        && 0 <= i < |items|
        && !ItemConforms(Rule(key).item, items[i])
        && (forall j :: 0 <= j < i ==> ItemConforms(Rule(key).item, items[j]))
        && r.error == ValidationError(FinalSchemaLocation, Some("any.only"), ItemKey(i));
      assert FirstDisallowed(key, parts, i);
      assert !AllAllowed(key, parts);
    }
  }

  /** A query with no keys fails with `object.min` on the key "object", since a status key is never mandatory. */
  lemma EmptyQuery(key: string)
    requires FieldFacts.IsStatusField(key)
    ensures Validate(Representable(SplitQuery(map[], key)), StatusRequest(key)) == Failure(MinKeysError)
  {
    assert SplitQuery(map[], key) == JObj(map[]);
    FieldFacts.StatusNeverMandatory(key, map[key := Required]);
    ValidatorFacts.ValidateEmptyObject(StatusRequest(key));
  }
}
