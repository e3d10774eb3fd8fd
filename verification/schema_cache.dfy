/**
 * The schema cache of the validator. A schema is assembled once per
 * cache key and reused; the requiredness map is passed on every call, so the
 * cache is meant to be invisible in the results.
 *
 * As written, the key is the requested field names joined with ",". Two
 * different name lists can share a key (`["name", "price"]` and
 * `["name,price"]`), and then the second call reuses the first call's schema
 * instead of failing on its unknown key. `KeyedCache` keys the cache by the
 * name list itself and is invisible for every input.
 */
module SchemaCache {
  import opened Wrappers
  import opened JsonData
  import opened Errors
  import opened Validator
  import Text

  /** Cached schemas, each stored as the list of field names it was assembled from. */
  type JoinedCache = map<string, seq<string>>

  function CacheKey(names: seq<string>): string {
    Text.Join(names, ',')
  }

  /** Every stored schema was assembled from catalogued names and sits under its own key. */
  predicate JoinedCacheSound(cache: JoinedCache) {
    forall k :: k in cache ==> Catalogued(cache[k]) && CacheKey(cache[k]) == k
  }

  /**
   * `validator(obj, keys)` with the cache as written: the JSON clone, the
   * lookup by joined key, the assembly (which crashes on an unknown key and
   * then stores nothing), and validation against the cached schema with this
   * call's requiredness map.
   */
  function JoinedValidate(cache: JoinedCache, raw: RawInput, req: Request): (r: (Result<Json, Fault>, JoinedCache))
    requires JoinedCacheSound(cache)
    ensures JoinedCacheSound(r.1)
    ensures r.1.Keys <= cache.Keys + {CacheKey(req.order)}
    ensures forall k :: k in cache ==> k in r.1 && r.1[k] == cache[k]
  {
    if raw.Unrepresentable? then (Failure(ParseError), cache)
    else
      var key := CacheKey(req.order);
      if key in cache then (RunSchema(cache[key], req.presence, raw.json), cache)
      else if !Catalogued(req.order) then (Failure(MissingRuleCrash), cache)
      else (RunSchema(req.order, req.presence, raw.json), cache[key := req.order])
  }

  /** Names that cannot collide under the joined key: non-empty and free of ",". */
  predicate SeparableNames(names: seq<string>) {
    forall i :: 0 <= i < |names| ==> names[i] != "" && ',' !in names[i]
  }

  /** Every catalogued field name is non-empty and free of ",". */
  lemma CatalogueNamesSeparable(names: seq<string>)
    requires Catalogued(names)
    ensures SeparableNames(names)
  {
    forall i | 0 <= i < |names|
      ensures names[i] != "" && ',' !in names[i]
    {
      CatalogueNameSeparable(names[i]);
    }
  }

  lemma CatalogueNameSeparable(name: string)
    requires HasRule(name)
    ensures name != "" && ',' !in name
  {
  }

  lemma {:induction false} JoinStartsWith(names: seq<string>)
    requires |names| >= 1
    ensures |CacheKey(names)| >= |names[0]|
    ensures CacheKey(names)[..|names[0]|] == names[0]
  {
    if |names| > 1 {
      assert CacheKey(names) == names[0] + [','] + CacheKey(names[1..]);
    }
  }

  /** On separable names the joined key determines the names. */
  lemma CacheKeyInjective(a: seq<string>, b: seq<string>)
    requires SeparableNames(a) && SeparableNames(b)
    requires CacheKey(a) == CacheKey(b)
    ensures a == b
  {
    if |a| == 0 && |b| >= 1 {
      JoinStartsWith(b);
    } else if |b| == 0 && |a| >= 1 {
      JoinStartsWith(a);
    } else if |a| >= 1 && |b| >= 1 {
      Text.JoinSplit(a, ',');
      Text.JoinSplit(b, ',');
    }
  }

  /**
   * For separable names the cache as written is invisible: the result is that
   * of validation without a cache.
   */
  lemma JoinedValidateTransparent(cache: JoinedCache, raw: RawInput, req: Request)
    requires JoinedCacheSound(cache)
    requires SeparableNames(req.order)
    ensures JoinedValidate(cache, raw, req).0 == Validate(raw, req)
  {
    var key := CacheKey(req.order);
    if raw.Representable? && key in cache {
      CatalogueNamesSeparable(cache[key]);
      CacheKeyInjective(cache[key], req.order);
    }
  }

  /** A sequence of calls through the cache as written, each with separable names, gives the uncached results. */
  function JoinedRun(cache: JoinedCache, calls: seq<(RawInput, Request)>): (r: seq<Result<Json, Fault>>)
    requires JoinedCacheSound(cache)
    requires forall i :: 0 <= i < |calls| ==> SeparableNames(calls[i].1.order)
    ensures |r| == |calls|
    ensures forall i :: 0 <= i < |calls| ==> r[i] == Validate(calls[i].0, calls[i].1)
    decreases |calls|
  {
    if |calls| == 0 then []
    else
      var (first, next) := JoinedValidate(cache, calls[0].0, calls[0].1);
      JoinedValidateTransparent(cache, calls[0].0, calls[0].1);
      [first] + JoinedRun(next, calls[1..])
  }

  /** The validation stage never crashes on catalogued names: every failure is a validation error. */
  lemma RunSchemaReportsValidation(schema: seq<string>, required: map<string, Presence>, json: Json)
    requires Catalogued(schema)
    ensures RunSchema(schema, required, json).Failure? ==> RunSchema(schema, required, json).error.ValidationError?
  {
  }

  /**
   * The collision: after a call for `name` and `price`, a call whose single key
   * is "name,price" reuses that schema instead of crashing on its unknown key.
   */
  lemma JoinedCollision(raw: Json, presence: map<string, Presence>)
    ensures var first := Request(["name", "price"], presence);
      var second := Request(["name,price"], presence);
      var cache := JoinedValidate(map[], Representable(raw), first).1;
      && JoinedCacheSound(cache)
      && Validate(Representable(raw), second) == Failure(MissingRuleCrash)
      && JoinedValidate(cache, Representable(raw), second).0 != Validate(Representable(raw), second)
  {
    var first := Request(["name", "price"], presence);
    var second := Request(["name,price"], presence);
    assert Catalogued(first.order) by {
      assert HasRule(first.order[0]) && HasRule(first.order[1]);
    }
    assert !HasRule(second.order[0]);
    var cache := JoinedValidate(map[], Representable(raw), first).1;
    assert CacheKey(first.order) == "name,price";
    assert CacheKey(second.order) == "name,price";
    assert cache == map["name,price" := first.order];
    RunSchemaReportsValidation(first.order, presence, raw);
  }

  // ---------------------------------------------------------------------------
  // The cache keyed by the name list
  // ---------------------------------------------------------------------------

  type KeyedCache = map<seq<string>, seq<string>>

  predicate KeyedCacheSound(cache: KeyedCache) {
    forall k :: k in cache ==> Catalogued(k) && cache[k] == k
  }

  /** The validator with a cache keyed by the list of requested names. */
  function KeyedValidate(cache: KeyedCache, raw: RawInput, req: Request): (r: (Result<Json, Fault>, KeyedCache))
    requires KeyedCacheSound(cache)
    ensures KeyedCacheSound(r.1)
    ensures r.1.Keys <= cache.Keys + {req.order}
    ensures forall k :: k in cache ==> k in r.1 && r.1[k] == cache[k]
  {
    if raw.Unrepresentable? then (Failure(ParseError), cache)
    else if req.order in cache then (RunSchema(cache[req.order], req.presence, raw.json), cache)
    else if !Catalogued(req.order) then (Failure(MissingRuleCrash), cache)
    else (RunSchema(req.order, req.presence, raw.json), cache[req.order := req.order])
  }

  /** The keyed cache is invisible for every input. */
  lemma KeyedValidateTransparent(cache: KeyedCache, raw: RawInput, req: Request)
    requires KeyedCacheSound(cache)
    ensures KeyedValidate(cache, raw, req).0 == Validate(raw, req)
  {
  }

  /** A sequence of calls through the keyed cache gives the uncached results, in order. */
  function KeyedRun(cache: KeyedCache, calls: seq<(RawInput, Request)>): (r: seq<Result<Json, Fault>>)
    requires KeyedCacheSound(cache)
    ensures |r| == |calls|
    ensures forall i :: 0 <= i < |calls| ==> r[i] == Validate(calls[i].0, calls[i].1)
    decreases |calls|
  {
    if |calls| == 0 then []
    else
      var (first, next) := KeyedValidate(cache, calls[0].0, calls[0].1);
      KeyedValidateTransparent(cache, calls[0].0, calls[0].1);
      [first] + KeyedRun(next, calls[1..])
  }
}
