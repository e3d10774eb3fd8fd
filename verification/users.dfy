/**
 * The `users` table and its accessors: create, remove, findByUsername,
 * findById and addFeatures. The password hash is a parameter: the hashing
 * module is not part of this model.
 */
module Users {
  import opened Wrappers
  import opened JsonData
  import opened Errors
  import opened Store
  import opened Validator
  import ValidatorFacts
  import FieldFacts
  import Text

  datatype User = User(id: nat, username: string, password: string, features: seq<string>, createdAt: int, updatedAt: int)

  function IdOf(u: User): nat {
    u.id
  }

  const UsernameTakenLocation: string := "MODEL:USER:VALIDATE_UNIQUE_USERNAME:ALREADY_EXISTS"
  const UsernameTaken: Fault := ValidationError(UsernameTakenLocation, None, KeyName("username"))
  const UsernameNotFound: Fault := NotFoundError(Some("MODEL:USER:FIND_BY_USERNAME:NOT_FOUND"), Some("username"))
  const IdNotFound: Fault := NotFoundError(Some("MODEL:USER:FIND_BY_ID:NOT_FOUND"), Some("id"))

  /** `validatePostSchema`: username and password, both required. */
  const PostRequest: Request := Request(["username", "password"], map["username" := Required, "password" := Required])

  /** `LOWER(a) = LOWER(b)`. */
  predicate SameUsername(a: string, b: string) {
    Text.Lower(a) == Text.Lower(b)
  }

  /** `validData.features`, replaced by `[]` when it is absent. */
  function FeaturesOf(v: Json): seq<string> {
    match Prop(v, "features")
    case Some(JArr(items)) => seq(|items|, i requires 0 <= i < |items| => TextOf(items[i]))
    case _ => []
  }

  /**
   * `create(rawData)`: validation, then the case-insensitive uniqueness check,
   * then hashing, then one INSERT. Nothing is written unless all three pass.
   */
  function Create(t: Table<User>, raw: RawInput, hash: string -> string, now: int): (r: (Result<User, Fault>, Table<User>))
    ensures Validate(raw, PostRequest).Failure? ==> r == (Failure(Validate(raw, PostRequest).error), t)
    ensures r.0.Failure? ==> r.1 == t
    ensures r.0.Success? ==>
      && Validate(raw, PostRequest).Success?
      && var v := Validate(raw, PostRequest).value;
      && r.0.value.username == TextOf(Prop(v, "username").GetOr(JNull))
      && r.0.value.password == hash(TextOf(Prop(v, "password").GetOr(JNull)))
      && r.0.value.id == NextId(t)
      && r.1 == Append(t, r.0.value)
      && forall i :: 0 <= i < |t.rows| ==> !SameUsername(t.rows[i].username, r.0.value.username)
  {
    match Validate(raw, PostRequest)
    case Failure(e) => (Failure(e), t)
    case Success(v) =>
      var username := TextOf(Prop(v, "username").GetOr(JNull));
      if exists i :: 0 <= i < |t.rows| && SameUsername(t.rows[i].username, username) then (Failure(UsernameTaken), t)
      else
        var row := User(NextId(t), username, hash(TextOf(Prop(v, "password").GetOr(JNull))), FeaturesOf(v), now, now);
        (Success(row), Append(t, row))
  }

  /** `remove(username)`: `DELETE ... WHERE username = $1`, exact; the first deleted row, if any. */
  function Remove(t: Table<User>, username: string): (r: (Option<User>, Table<User>))
    ensures forall u :: u in r.1.rows <==> u in t.rows && u.username != username
    ensures r.1.last == t.last
    ensures r.0.Some? <==> exists i :: 0 <= i < |t.rows| && t.rows[i].username == username
    ensures r.0.Some? ==> r.0.value in t.rows && r.0.value.username == username
  {
    (First(t.rows, (u: User) => u.username == username), t.(rows := Where(t.rows, (u: User) => u.username != username)))
  }

  /** `findByUsername(username)`: the first row whose username matches ignoring case. */
  function FindByUsername(t: Table<User>, username: string): (r: Result<User, Fault>)
    ensures r.Success? <==> exists i :: 0 <= i < |t.rows| && SameUsername(t.rows[i].username, username)
    ensures r.Success? ==> r.value in t.rows && SameUsername(r.value.username, username)
    ensures r.Failure? ==> r.error == UsernameNotFound
  {
    match First(t.rows, (u: User) => SameUsername(u.username, username))
    case None => Failure(UsernameNotFound)
    case Some(u) => Success(u)
  }

  /** `findById(id)`. */
  function FindById(t: Table<User>, id: int): (r: Result<User, Fault>)
    ensures r.Success? <==> exists i :: 0 <= i < |t.rows| && t.rows[i].id == id
    ensures r.Success? ==> r.value in t.rows && r.value.id == id
    ensures r.Failure? ==> r.error == IdNotFound
  {
    match First(t.rows, (u: User) => u.id == id)
    case None => Failure(IdNotFound)
    case Some(u) => Success(u)
  }

  /** `addFeatures(id, features)`: `array_cat(features, $2)` on the row with that id. */
  function AddFeatures(t: Table<User>, id: int, features: seq<string>, now: int): (r: (Option<User>, Table<User>))
    ensures r.1.last == t.last && |r.1.rows| == |t.rows|
    ensures forall i :: 0 <= i < |t.rows| && t.rows[i].id != id ==> r.1.rows[i] == t.rows[i]
    ensures forall i :: 0 <= i < |t.rows| && t.rows[i].id == id ==>
      r.1.rows[i] == t.rows[i].(features := t.rows[i].features + features, updatedAt := now)
    ensures r.0.Some? <==> exists i :: 0 <= i < |t.rows| && t.rows[i].id == id
  {
    var p := (u: User) => u.id == id;
    var f := (u: User) => u.(features := u.features + features, updatedAt := now);
    var rows := UpdateWhere(t.rows, p, f);
    (First(rows, p), t.(rows := rows))
  }

  // ---------------------------------------------------------------------------
  // Properties
  // ---------------------------------------------------------------------------

  /**
   * A validated sign-up object holds exactly a username and a password, with
   * their catalogue shapes; anything else the client sent is gone.
   */
  lemma PostSchemaShape(raw: RawInput)
    requires Validate(raw, PostRequest).Success?
    ensures var v := Validate(raw, PostRequest).value;
      && v.JObj? && v.fields.Keys == {"username", "password"}
      && FieldFacts.FieldShape("username", v.fields["username"])
      && FieldFacts.FieldShape("password", v.fields["password"])
  {
    ValidatorFacts.ValidateAcceptsObjects(raw, PostRequest);
    var fields := raw.json.fields;
    ValidatorFacts.ValidateSuccess(fields, PostRequest);
    FieldFacts.ValidatedShapes(fields, PostRequest);
    assert MustBePresent(PostRequest.order[0], PostRequest.presence);
    assert MustBePresent(PostRequest.order[1], PostRequest.presence);
  }

  /** A validated username is at most 30 UTF-16 units, so `username varchar(30)` stores it unchanged. */
  lemma ValidatedUsernameFits(raw: RawInput)
    requires Validate(raw, PostRequest).Success?
    ensures var name := TextOf(Prop(Validate(raw, PostRequest).value, "username").GetOr(JNull));
      FitsVarchar(name, 30) && Varchar(name, 30) == name
  {
    PostSchemaShape(raw);
  }

  /** Features supplied at sign-up are stripped by validation, so a new user has none. */
  lemma CreateHasNoFeatures(t: Table<User>, raw: RawInput, hash: string -> string, now: int)
    ensures var r := Create(t, raw, hash, now);
      r.0.Success? ==> r.0.value.features == []
  {
    if Validate(raw, PostRequest).Success? {
      PostSchemaShape(raw);
    }
  }

  /** Validation comes first: a rejected body fails the same way whatever is stored and whatever the hash. */
  lemma CreateValidatesFirst(t1: Table<User>, t2: Table<User>, raw: RawInput, h1: string -> string, h2: string -> string, now: int)
    requires Validate(raw, PostRequest).Failure?
    ensures Create(t1, raw, h1, now).0 == Create(t2, raw, h2, now).0
  {
  }

  /** A taken username is reported before any hashing: the outcome does not depend on the hash. */
  lemma CreateChecksBeforeHashing(t: Table<User>, raw: RawInput, h1: string -> string, h2: string -> string, now: int)
    ensures Create(t, raw, h1, now).0.Failure? <==> Create(t, raw, h2, now).0.Failure?
    ensures Create(t, raw, h1, now).0.Failure? ==> Create(t, raw, h1, now) == Create(t, raw, h2, now)
  {
  }

  /** After a sign-up, the new user is what a lookup by that username, in any letter case, finds. */
  lemma CreateThenFind(t: Table<User>, raw: RawInput, hash: string -> string, now: int, asked: string)
    ensures var r := Create(t, raw, hash, now);
      r.0.Success? && SameUsername(asked, r.0.value.username) ==> FindByUsername(r.1, asked) == Success(r.0.value)
  {
    var r := Create(t, raw, hash, now);
    if r.0.Success? && SameUsername(asked, r.0.value.username) {
      var p := (u: User) => SameUsername(u.username, asked);
      assert forall i :: 0 <= i < |t.rows| ==> r.1.rows[i] == t.rows[i];
      WhereFirst(r.1.rows, p, |t.rows|);
    }
  }

  /** Lookups by username ignore letter case; removal does not. */
  lemma FindIgnoresCase(t: Table<User>, a: string, b: string)
    requires SameUsername(a, b)
    ensures FindByUsername(t, a) == FindByUsername(t, b)
  {
    FirstCongruent(t.rows, (u: User) => SameUsername(u.username, a), (u: User) => SameUsername(u.username, b));
  }

  /** A stored "İ" (U+0130) is found by "i": PostgreSQL lowers the dotted capital I to a plain "i". */
  lemma DottedCapitalFound(u: User)
    requires u.username == [0x130 as char]
    ensures SameUsername(u.username, "i")
    ensures FindByUsername(Table([u], u.id), "i") == Success(u)
  {
    assert Text.Lower(u.username) == [Text.LowerChar(0x130 as char)] + Text.Lower("");
  }

  /** After `addFeatures`, the user's features are the old ones followed by the new ones, duplicates kept. */
  lemma AddFeaturesAppends(t: Table<User>, id: int, features: seq<string>, now: int)
    requires Keyed(t, IdOf)
    ensures var r := AddFeatures(t, id, features, now);
      r.0.Some? ==>
        && FindById(t, id).Success?
        && r.0.value.features == FindById(t, id).value.features + features
        && r.0.value.features[..|FindById(t, id).value.features|] == FindById(t, id).value.features
  {
    var r := AddFeatures(t, id, features, now);
    if r.0.Some? {
      var i :| 0 <= i < |r.1.rows| && r.1.rows[i] == r.0.value;
      assert t.rows[i].id == id;
      FirstKeyed(t, IdOf, (u: User) => u.id == id, id, i);
    }
  }
}
