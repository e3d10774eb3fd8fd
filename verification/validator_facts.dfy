/**
 * What the validator guarantees: every value it returns satisfies the rule of
 * its field (`Conforms`), a conforming value comes back unchanged, the result
 * holds only requested keys, and the reported error is the first one met.
 */
module ValidatorFacts {
  import opened Wrappers
  import opened JsonData
  import opened Errors
  import opened Validator
  import Text
  import Numeric

  // ---------------------------------------------------------------------------
  // Coercion
  // ---------------------------------------------------------------------------

  lemma CoerceNormalises(c: Coercion, s: string)
    ensures InNormalForm(c, Coerce(c, s))
  {
    match c
    case NoCoercion =>
    case TrimSpaces =>
    case StripTrailingBlanks =>
  }

  lemma CoerceFixes(c: Coercion, s: string)
    requires InNormalForm(c, s)
    ensures Coerce(c, s) == s
  {
    match c
    case NoCoercion =>
    case TrimSpaces =>
    case StripTrailingBlanks =>
  }

  // ---------------------------------------------------------------------------
  // Soundness: an accepted value conforms
  // ---------------------------------------------------------------------------

  lemma CheckStringSound(c: Coercion, allowEmpty: bool, checks: seq<StrCheck>, key: ErrorKey, w: Json)
    requires CheckString(c, allowEmpty, checks, key, w).Success?
    ensures StringConforms(c, allowEmpty, checks, CheckString(c, allowEmpty, checks, key, w).value)
  {
    CoerceNormalises(c, w.s);
  }

  lemma CheckNumberSound(places: Option<nat>, rules: seq<NumRule>, key: ErrorKey, w: Json)
    requires CheckNumber(places, rules, key, w).Success?
    ensures NumberConforms(places, rules, CheckNumber(places, rules, key, w).value)
  {
    var x := NumberInput(w).value;
    if places.Some? {
      var m := Numeric.MaxSafeInteger;
      Numeric.RoundToHasPlaces(x, places.value);
      Numeric.RoundToWithin(x, places.value, -m, m);
    }
  }

  lemma CheckItemSound(item: ItemSpec, key: ErrorKey, w: Json)
    requires CheckItem(item, key, w).Success?
    ensures ItemConforms(item, CheckItem(item, key, w).value)
  {
    match item
    case EnumItem(_) =>
    case IdItem =>
      CheckNumberSound(None, IdRules, key, w);
    case AdditionalItem =>
      var f := w.fields;
      CheckNumberSound(None, IdRules, KeyName("ingredient_id"), f["ingredient_id"]);
      CheckNumberSound(None, IdRules, KeyName("multiplied"), f["multiplied"]);
      CheckNumberSound(None, AdditionalPriceRules, KeyName("price"), f["price"]);
  }

  lemma {:induction false} CheckItemsSound(item: ItemSpec, items: seq<Json>, offset: nat)
    requires CheckItems(item, items, offset).Success?
    ensures forall i :: 0 <= i < |items| ==> ItemConforms(item, CheckItems(item, items, offset).value[i])
    decreases |items|
  {
    if |items| > 0 {
      CheckItemSound(item, ItemKey(offset), items[0]);
      CheckItemsSound(item, items[1..], offset + 1);
    }
  }

  /** The `unique` rule finds nothing exactly when the values are pairwise distinct. */
  lemma FirstDuplicateDistinct(vals: seq<Json>)
    ensures FirstDuplicate(vals, 0).None? <==> Distinct(vals)
  {
    if FirstDuplicate(vals, 0).None? {
      forall i, j | 0 <= i < j < |vals|
        ensures vals[i] != vals[j]
      {
        assert vals[i] == vals[..j][i];
      }
    } else {
      var k := FirstDuplicate(vals, 0).value;
      var i :| 0 <= i < k && vals[..k][i] == vals[k];
      assert vals[i] == vals[k];
    }
  }

  lemma CheckArraySound(item: ItemSpec, minItems: nat, unique: bool, key: ErrorKey, w: Json)
    requires CheckArray(item, minItems, unique, key, w).Success?
    ensures ArrayConforms(item, minItems, unique, CheckArray(item, minItems, unique, key, w).value)
  {
    CheckItemsSound(item, w.items, 0);
    FirstDuplicateDistinct(CheckItems(item, w.items, 0).value);
  }

  /** Whatever a field's rule returns satisfies that rule. */
  lemma CheckValueSound(spec: FieldSpec, name: string, w: Json)
    requires CheckValue(spec, name, w).Success?
    ensures Conforms(spec, CheckValue(spec, name, w).value)
  {
    match spec
    case Str(c, allowEmpty, checks) => CheckStringSound(c, allowEmpty, checks, KeyName(name), w);
    case Num(places, rules) => CheckNumberSound(places, rules, KeyName(name), w);
    case Arr(item, minItems, unique, _) => CheckArraySound(item, minItems, unique, KeyName(name), w);
  }

  // ---------------------------------------------------------------------------
  // Fixpoint: a conforming value is returned unchanged
  // ---------------------------------------------------------------------------

  lemma CheckStringFixes(c: Coercion, allowEmpty: bool, checks: seq<StrCheck>, key: ErrorKey, w: Json)
    requires StringConforms(c, allowEmpty, checks, w)
    ensures CheckString(c, allowEmpty, checks, key, w) == Success(w)
  {
    if w.s != "" {
      CoerceFixes(c, w.s);
    } else {
      CoerceFixes(c, "");
    }
  }

  lemma CheckNumberFixes(places: Option<nat>, rules: seq<NumRule>, key: ErrorKey, w: Json)
    requires NumberConforms(places, rules, w)
    ensures CheckNumber(places, rules, key, w) == Success(w)
  {
    if places.Some? {
      Numeric.RoundToFixes(w.n, places.value);
    }
  }

  lemma CheckItemFixes(item: ItemSpec, key: ErrorKey, w: Json)
    requires ItemConforms(item, w)
    ensures CheckItem(item, key, w) == Success(w)
  {
    match item
    case EnumItem(_) =>
    case IdItem =>
      CheckNumberFixes(None, IdRules, key, w);
    case AdditionalItem =>
      var f := w.fields;
      CheckNumberFixes(None, IdRules, KeyName("ingredient_id"), f["ingredient_id"]);
      CheckNumberFixes(None, IdRules, KeyName("multiplied"), f["multiplied"]);
      CheckNumberFixes(None, AdditionalPriceRules, KeyName("price"), f["price"]);
      var rebuilt := map["ingredient_id" := f["ingredient_id"], "multiplied" := f["multiplied"], "price" := f["price"]];
      assert rebuilt.Keys == f.Keys;
      assert rebuilt == f;
  }

  lemma {:induction false} CheckItemsFixes(item: ItemSpec, items: seq<Json>, offset: nat)
    requires forall i :: 0 <= i < |items| ==> ItemConforms(item, items[i])
    ensures CheckItems(item, items, offset) == Success(items)
    decreases |items|
  {
    if |items| > 0 {
      CheckItemFixes(item, ItemKey(offset), items[0]);
      CheckItemsFixes(item, items[1..], offset + 1);
      assert [items[0]] + items[1..] == items;
    }
  }

  lemma CheckArrayFixes(item: ItemSpec, minItems: nat, unique: bool, key: ErrorKey, w: Json)
    requires ArrayConforms(item, minItems, unique, w)
    ensures CheckArray(item, minItems, unique, key, w) == Success(w)
  {
    CheckItemsFixes(item, w.items, 0);
    FirstDuplicateDistinct(w.items);
  }

  /** A value that already satisfies its field's rule comes back unchanged. */
  lemma CheckValueFixes(spec: FieldSpec, name: string, w: Json)
    requires Conforms(spec, w)
    ensures CheckValue(spec, name, w) == Success(w)
  {
    match spec
    case Str(c, allowEmpty, checks) => CheckStringFixes(c, allowEmpty, checks, KeyName(name), w);
    case Num(places, rules) => CheckNumberFixes(places, rules, KeyName(name), w);
    case Arr(item, minItems, unique, _) => CheckArrayFixes(item, minItems, unique, KeyName(name), w);
  }

  /** Checking a field twice gives what checking it once gave. */
  lemma CheckValueIdempotent(spec: FieldSpec, name: string, w: Json)
    requires CheckValue(spec, name, w).Success?
    ensures CheckValue(spec, name, CheckValue(spec, name, w).value) == CheckValue(spec, name, w)
  {
    CheckValueSound(spec, name, w);
    CheckValueFixes(spec, name, CheckValue(spec, name, w).value);
  }

  // ---------------------------------------------------------------------------
  // The object schema
  // ---------------------------------------------------------------------------

  /** The input restricted to the schema's keys: what stripping unknown keys leaves. */
  function Restrict(fields: map<string, Json>, schema: seq<string>): (m: map<string, Json>)
    ensures m.Keys <= fields.Keys
    ensures forall k :: k in m ==> k in schema && m[k] == fields[k]
    ensures forall k :: k in fields && k in schema ==> k in m
  {
    map k | k in fields && k in schema :: fields[k]
  }

  lemma {:induction false} CheckFieldsSuccess(fields: map<string, Json>, schema: seq<string>, required: map<string, Presence>)
    requires Catalogued(schema)
    requires CheckFields(fields, schema, required).Success?
    ensures var m := CheckFields(fields, schema, required).value;
      && (forall k :: k in m ==> HasRule(k) && CheckValue(Rule(k), k, fields[k]) == Success(m[k]))
      && (forall i :: 0 <= i < |schema| && schema[i] in fields ==> schema[i] in m)
      && (forall i :: 0 <= i < |schema| && MustBePresent(schema[i], required) ==> schema[i] in fields)
    decreases |schema|
  {
    if |schema| > 0 {
      CheckFieldsSuccess(fields, schema[1..], required);
      var m := CheckFields(fields, schema, required).value;
      forall i | 0 <= i < |schema| && schema[i] in fields
        ensures schema[i] in m
      {
        if i > 0 {
          assert schema[i] == schema[1..][i - 1];
        }
      }
      forall i | 0 <= i < |schema| && MustBePresent(schema[i], required)
        ensures schema[i] in fields
      {
        if i > 0 {
          assert schema[i] == schema[1..][i - 1];
        }
      }
    }
  }

  lemma {:induction false} CheckFieldsFixes(fields: map<string, Json>, schema: seq<string>, required: map<string, Presence>)
    requires Catalogued(schema)
    requires forall i :: 0 <= i < |schema| && schema[i] in fields ==> Conforms(Rule(schema[i]), fields[schema[i]])
    requires forall i :: 0 <= i < |schema| && MustBePresent(schema[i], required) ==> schema[i] in fields
    ensures CheckFields(fields, schema, required) == Success(Restrict(fields, schema))
    decreases |schema|
  {
    if |schema| == 0 {
      assert Restrict(fields, schema) == map[];
    } else {
      var name := schema[0];
      var tail := schema[1..];
      forall i | 0 <= i < |tail| && tail[i] in fields
        ensures Conforms(Rule(tail[i]), fields[tail[i]])
      {
        assert tail[i] == schema[i + 1];
      }
      forall i | 0 <= i < |tail| && MustBePresent(tail[i], required)
        ensures tail[i] in fields
      {
        assert tail[i] == schema[i + 1];
      }
      CheckFieldsFixes(fields, tail, required);
      var rest := Restrict(fields, tail);
      if name in fields {
        CheckValueFixes(Rule(name), name, fields[name]);
        assert rest[name := fields[name]] == Restrict(fields, schema);
      } else {
        assert rest == Restrict(fields, schema);
      }
    }
  }

  /** A failure is the failure of the first key, in schema order, whose step fails. */
  lemma {:induction false} CheckFieldsFirstError(fields: map<string, Json>, schema: seq<string>, required: map<string, Presence>)
    requires Catalogued(schema)
    requires CheckFields(fields, schema, required).Failure?
    ensures exists i ::
      && 0 <= i < |schema|
      && FieldStep(fields, schema[i], required) == Failure(CheckFields(fields, schema, required).error)
      && forall j :: 0 <= j < i ==> FieldStep(fields, schema[j], required).Success?
    decreases |schema|
  {
    if FieldStep(fields, schema[0], required).Success? {
      var tail := schema[1..];
      CheckFieldsFirstError(fields, tail, required);
      var i :| 0 <= i < |tail|
        && FieldStep(fields, tail[i], required) == Failure(CheckFields(fields, tail, required).error)
        && forall j :: 0 <= j < i ==> FieldStep(fields, tail[j], required).Success?;
      forall j | 0 <= j < i + 1
        ensures FieldStep(fields, schema[j], required).Success?
      {
        if j > 0 {
          assert schema[j] == tail[j - 1];
        }
      }
      assert schema[i + 1] == tail[i];
    } else {
      assert FieldStep(fields, schema[0], required) == Failure(CheckFields(fields, schema, required).error);
    }
  }

  /** Only a representable object with catalogued keys can pass. */
  lemma ValidateAcceptsObjects(raw: RawInput, req: Request)
    requires Validate(raw, req).Success?
    ensures raw.Representable? && raw.json.JObj? && Catalogued(req.order)
  {
  }

  /** The object schema's outcome on an object, for a non-empty schema. */
  lemma RunSchemaSuccess(fields: map<string, Json>, schema: seq<string>, required: map<string, Presence>)
    requires |schema| > 0 && Catalogued(schema)
    requires RunSchema(schema, required, JObj(fields)).Success?
    ensures var out := RunSchema(schema, required, JObj(fields)).value;
      && out.JObj?
      && out.fields != map[]
      && out.fields.Keys <= fields.Keys
      && (forall k :: k in out.fields ==> k in schema && Conforms(Rule(k), out.fields[k]))
      && (forall i :: 0 <= i < |schema| && schema[i] in fields ==> schema[i] in out.fields)
      && (forall i :: 0 <= i < |schema| && MustBePresent(schema[i], required) ==> schema[i] in fields)
  {
    CheckFieldsSuccess(fields, schema, required);
    var m := CheckFields(fields, schema, required).value;
    assert RunSchema(schema, required, JObj(fields)) == Success(JObj(m));
    forall k | k in m
      ensures Conforms(Rule(k), m[k])
    {
      CheckValueSound(Rule(k), k, fields[k]);
    }
  }

  /**
   * A successful validation returns an object holding only requested keys that
   * the input had, at least one of them, each conforming to its rule; every
   * requested key the input had is kept, and every mandatory key was present.
   */
  lemma ValidateSuccess(fields: map<string, Json>, req: Request)
    requires |req.order| > 0
    requires Validate(Representable(JObj(fields)), req).Success?
    ensures var out := Validate(Representable(JObj(fields)), req).value;
      && out.JObj?
      && out.fields != map[]
      && out.fields.Keys <= fields.Keys
      && (forall k :: k in out.fields ==> k in req.order && Conforms(Rule(k), out.fields[k]))
      && (forall i :: 0 <= i < |req.order| && req.order[i] in fields ==> req.order[i] in out.fields)
      && (forall i :: 0 <= i < |req.order| && MustBePresent(req.order[i], req.presence) ==> req.order[i] in fields)
  {
    RunSchemaSuccess(fields, req.order, req.presence);
  }

  lemma RunSchemaStrips(fields: map<string, Json>, schema: seq<string>, required: map<string, Presence>)
    requires |schema| > 0 && Catalogued(schema)
    requires forall i :: 0 <= i < |schema| && schema[i] in fields ==> Conforms(Rule(schema[i]), fields[schema[i]])
    requires forall i :: 0 <= i < |schema| && MustBePresent(schema[i], required) ==> schema[i] in fields
    requires exists i :: 0 <= i < |schema| && schema[i] in fields
    ensures RunSchema(schema, required, JObj(fields)) == Success(JObj(Restrict(fields, schema)))
  {
    CheckFieldsFixes(fields, schema, required);
    var i :| 0 <= i < |schema| && schema[i] in fields;
    assert schema[i] in Restrict(fields, schema);
  }

  /**
   * When every requested key the input holds already conforms and every
   * mandatory key is there, validation only strips the unrequested keys.
   */
  lemma ValidateStrips(fields: map<string, Json>, req: Request)
    requires |req.order| > 0 && Catalogued(req.order)
    requires forall i :: 0 <= i < |req.order| && req.order[i] in fields ==> Conforms(Rule(req.order[i]), fields[req.order[i]])
    requires forall i :: 0 <= i < |req.order| && MustBePresent(req.order[i], req.presence) ==> req.order[i] in fields
    requires exists i :: 0 <= i < |req.order| && req.order[i] in fields
    ensures Validate(Representable(JObj(fields)), req) == Success(JObj(Restrict(fields, req.order)))
  {
    RunSchemaStrips(fields, req.order, req.presence);
  }

  /** Validating a validated object again gives the same object. */
  lemma ValidateIdempotent(raw: RawInput, req: Request)
    requires |req.order| > 0
    requires Validate(raw, req).Success?
    ensures Validate(Representable(Validate(raw, req).value), req) == Validate(raw, req)
  {
    ValidateAcceptsObjects(raw, req);
    ValidateSuccess(raw.json.fields, req);
    var out := Validate(raw, req).value.fields;
    var k :| k in out;
    var i :| 0 <= i < |req.order| && req.order[i] == k;
    ValidateStrips(out, req);
    assert Restrict(out, req.order) == out;
  }

  lemma RunSchemaEmptyObject(schema: seq<string>, required: map<string, Presence>)
    requires |schema| > 0 && Catalogued(schema)
    ensures (forall i :: 0 <= i < |schema| ==> !MustBePresent(schema[i], required))
      ==> RunSchema(schema, required, JObj(map[])) == Failure(MinKeysError)
    ensures MustBePresent(schema[0], required)
      ==> RunSchema(schema, required, JObj(map[])) == Failure(SchemaError(Issue("any.required", KeyName(schema[0]))))
  {
    if forall i :: 0 <= i < |schema| ==> !MustBePresent(schema[i], required) {
      CheckFieldsFixes(map[], schema, required);
      assert Restrict(map[], schema) == map[];
    }
  }

  /**
   * An empty object fails with `any.required` for a leading mandatory key, and
   * with `object.min` (key "object") when no key is mandatory.
   */
  lemma ValidateEmptyObject(req: Request)
    requires Catalogued(req.order)
    ensures (forall i :: 0 <= i < |req.order| ==> !MustBePresent(req.order[i], req.presence))
      ==> Validate(Representable(JObj(map[])), req) == Failure(MinKeysError)
    ensures |req.order| > 0 && MustBePresent(req.order[0], req.presence)
      ==> Validate(Representable(JObj(map[])), req) == Failure(SchemaError(Issue("any.required", KeyName(req.order[0]))))
  {
    if |req.order| > 0 {
      RunSchemaEmptyObject(req.order, req.presence);
    }
  }

  /** Validation fails whenever a mandatory key is missing. */
  lemma ValidateRequiresMandatory(fields: map<string, Json>, req: Request, i: nat)
    requires i < |req.order| && Catalogued(req.order)
    requires MustBePresent(req.order[i], req.presence) && req.order[i] !in fields
    ensures Validate(Representable(JObj(fields)), req).Failure?
  {
    if Validate(Representable(JObj(fields)), req).Success? {
      ValidateSuccess(fields, req);
    }
  }

  /** The first failing key decides the error, whatever the keys after it hold. */
  lemma {:induction false} CheckFieldsFailsAt(fields: map<string, Json>, schema: seq<string>, required: map<string, Presence>, i: nat)
    requires Catalogued(schema) && i < |schema|
    requires forall j :: 0 <= j < i ==> FieldStep(fields, schema[j], required).Success?
    requires FieldStep(fields, schema[i], required).Failure?
    ensures CheckFields(fields, schema, required) == Failure(FieldStep(fields, schema[i], required).error)
    decreases i
  {
    if i > 0 {
      var tail := schema[1..];
      forall j | 0 <= j < i - 1
        ensures FieldStep(fields, tail[j], required).Success?
      {
        assert tail[j] == schema[j + 1];
      }
      assert tail[i - 1] == schema[i];
      CheckFieldsFailsAt(fields, tail, required, i - 1);
      assert FieldStep(fields, schema[0], required).Success?;
    }
  }

  /**
   * A mandatory key that is absent, with every key before it passing, fails
   * with `any.required` and the key's own name.
   */
  lemma ValidateMissingRequired(fields: map<string, Json>, req: Request, i: nat)
    requires i < |req.order| && Catalogued(req.order)
    requires forall j :: 0 <= j < i ==> FieldStep(fields, req.order[j], req.presence).Success?
    requires MustBePresent(req.order[i], req.presence) && req.order[i] !in fields
    ensures Validate(Representable(JObj(fields)), req)
      == Failure(ValidationError(FinalSchemaLocation, Some("any.required"), KeyName(req.order[i])))
  {
    CheckFieldsFailsAt(fields, req.order, req.presence, i);
  }
}
