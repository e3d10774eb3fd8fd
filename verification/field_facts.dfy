/**
 * What the individual catalogue rules promise: the status enums, the shape of
 * a validated `name`, `price`, identifier and order-customisation field, and
 * the error a bad status element reports.
 */
module FieldFacts {
  import opened Wrappers
  import opened JsonData
  import opened Errors
  import opened Validator
  import opened ValidatorFacts
  import Text
  import Numeric

  // ---------------------------------------------------------------------------
  // Status arrays
  // ---------------------------------------------------------------------------

  /** The fields whose rule is an array of enumerated strings. */
  predicate IsStatusField(name: string) {
    name == "order_status" || name == "product_status" || name == "category_status" || name == "features"
  }

  /** The allowed values of each enumerated field. */
  lemma StatusEnums()
    ensures Rule("order_status") == Arr(EnumItem({"pending", "accepted", "declined", "finished"}), 0, false, false)
    ensures Rule("product_status") == Arr(EnumItem({"available", "missing", "disabled"}), 0, false, false)
    ensures Rule("category_status") == Arr(EnumItem({"available", "disabled"}), 0, false, false)
    ensures Rule("features") == Arr(EnumItem({"admin"}), 0, false, false)
  {
  }

  /** The requiredness toggle sits on the element schema, so a status key is never mandatory. */
  lemma StatusNeverMandatory(name: string, presence: map<string, Presence>)
    requires IsStatusField(name)
    ensures HasRule(name) && !MustBePresent(name, presence)
  {
    StatusEnums();
  }

  /**
   * The elements of an enumerated array, checked from position `offset`: all
   * allowed and returned as they are, or the first one outside the enum fails
   * with `any.only` at its own position.
   */
  lemma {:induction false} EnumItemsOutcome(allowed: set<string>, items: seq<Json>, offset: nat)
    ensures var r := CheckItems(EnumItem(allowed), items, offset);
      && (r.Success? <==> forall i :: 0 <= i < |items| ==> ItemConforms(EnumItem(allowed), items[i]))
      && (r.Success? ==> r.value == items)
      && (r.Failure? ==> exists i ::
            && 0 <= i < |items|
            && !ItemConforms(EnumItem(allowed), items[i])
            && (forall j :: 0 <= j < i ==> ItemConforms(EnumItem(allowed), items[j]))
            && r.error == Issue("any.only", ItemKey(offset + i)))
    decreases |items|
  {
    if |items| > 0 {
      var tail := items[1..];
      EnumItemsOutcome(allowed, tail, offset + 1);
      var r := CheckItems(EnumItem(allowed), items, offset);
      if ItemConforms(EnumItem(allowed), items[0]) {
        var rt := CheckItems(EnumItem(allowed), tail, offset + 1);
        if rt.Success? {
          assert r.value == [items[0]] + tail == items;
          forall i | 0 <= i < |items|
            ensures ItemConforms(EnumItem(allowed), items[i])
          {
            if i > 0 {
              assert items[i] == tail[i - 1];
            }
          }
        } else {
          var i :| && 0 <= i < |tail|
                   && !ItemConforms(EnumItem(allowed), tail[i])
                   && (forall j :: 0 <= j < i ==> ItemConforms(EnumItem(allowed), tail[j]))
                   && rt.error == Issue("any.only", ItemKey(offset + 1 + i));
          assert items[i + 1] == tail[i];
          forall j | 0 <= j < i + 1
            ensures ItemConforms(EnumItem(allowed), items[j])
          {
            if j > 0 {
              assert items[j] == tail[j - 1];
            }
          }
          assert r.error == Issue("any.only", ItemKey(offset + (i + 1)));
        }
      } else {
        assert r.error == Issue("any.only", ItemKey(offset + 0));
      }
    }
  }

  /**
   * A status list validates exactly when every element is in its enum, and is
   * then returned unchanged; otherwise the first outside element is reported.
   */
  lemma StatusListOutcome(name: string, items: seq<Json>, presence: map<string, Presence>)
    requires IsStatusField(name)
    ensures var r := Validate(Representable(JObj(map[name := JArr(items)])), Request([name], presence));
      && HasRule(name) && Rule(name).Arr?
      && (r.Success? <==> forall i :: 0 <= i < |items| ==> ItemConforms(Rule(name).item, items[i]))
      && (r.Success? ==> r.value == JObj(map[name := JArr(items)]))
      && (r.Failure? ==> exists i ::
            && 0 <= i < |items|
            && !ItemConforms(Rule(name).item, items[i])
            && (forall j :: 0 <= j < i ==> ItemConforms(Rule(name).item, items[j]))
            && r.error == ValidationError(FinalSchemaLocation, Some("any.only"), ItemKey(i)))
  {
    StatusEnums();
    var allowed := Rule(name).item.allowed;
    EnumItemsOutcome(allowed, items, 0);
    var fields := map[name := JArr(items)];
    var r := Validate(Representable(JObj(fields)), Request([name], presence));
    var step := CheckValue(Rule(name), name, JArr(items));
    assert step == CheckArray(EnumItem(allowed), 0, false, KeyName(name), JArr(items));
    assert FieldStep(fields, name, presence) == (if step.Success? then Success(Some(step.value)) else Failure(step.error));
    assert CheckFields(fields, [name], presence) == (if step.Success? then Success(map[name := step.value]) else Failure(step.error)) by {
      assert [name][1..] == [];
    }
    if step.Success? {
      assert map[name := step.value] != map[];
      assert r == Success(JObj(map[name := step.value]));
    }
  }

  /** An invalid first element reports the key "object", because index 0 is falsy. */
  lemma BadFirstStatus(presence: map<string, Presence>)
    ensures Validate(Representable(JObj(map["order_status" := JArr([JStr("invalid")])])), Request(["order_status"], presence))
      == Failure(ValidationError(FinalSchemaLocation, Some("any.only"), KeyName("object")))
  {
    StatusListOutcome("order_status", [JStr("invalid")], presence);
    StatusEnums();
    assert !ItemConforms(Rule("order_status").item, JStr("invalid"));
  }

  /** An invalid second element reports its index. */
  lemma BadSecondStatus(presence: map<string, Presence>)
    ensures Validate(Representable(JObj(map["category_status" := JArr([JStr("available"), JStr("deleted")])])), Request(["category_status"], presence))
      == Failure(ValidationError(FinalSchemaLocation, Some("any.only"), KeyIndex(1)))
  {
    var items := [JStr("available"), JStr("deleted")];
    StatusListOutcome("category_status", items, presence);
    StatusEnums();
    assert ItemConforms(Rule("category_status").item, items[0]);
    assert !ItemConforms(Rule("category_status").item, items[1]);
  }

  // ---------------------------------------------------------------------------
  // The shape of each validated field
  // ---------------------------------------------------------------------------

  predicate IsIntegerNumber(w: Json) {
    w.JNum? && Numeric.IsIntegral(w.n) && -(Numeric.MaxSafeInteger as real) <= w.n <= Numeric.MaxSafeInteger as real
  }

  predicate IsPositiveInteger(w: Json) {
    IsIntegerNumber(w) && w.n > 0.0
  }

  predicate IsStringOf(w: Json, allowed: set<string>) {
    w.JStr? && w.s in allowed
  }

  /** A list of distinct positive integers. */
  predicate IsIdSet(w: Json) {
    && w.JArr?
    && (forall i :: 0 <= i < |w.items| ==> IsPositiveInteger(w.items[i]))
    && forall i, j :: 0 <= i < j < |w.items| ==> w.items[i] != w.items[j]
  }

  /** One extra ingredient of an order: exactly the three numeric properties. */
  predicate IsExtra(w: Json) {
    && w.JObj?
    && w.fields.Keys == {"ingredient_id", "multiplied", "price"}
    && IsPositiveInteger(w.fields["ingredient_id"])
    && IsPositiveInteger(w.fields["multiplied"])
    && w.fields["price"].JNum? && w.fields["price"].n > 0.0
    && -(Numeric.MaxSafeInteger as real) <= w.fields["price"].n <= Numeric.MaxSafeInteger as real
  }

  /** No leading or trailing `\s`, as `trim()` leaves a string. */
  predicate IsTrimmed(s: string) {
    |s| > 0 && !Text.IsJsSpace(s[0]) && !Text.IsJsSpace(s[|s| - 1])
  }

  /**
   * What a validated value of each catalogued field looks like, stated field
   * by field from the rules' documented intent.
   */
  predicate FieldShape(name: string, w: Json) {
    match name
    case "username" =>
      && w.JStr? && IsTrimmed(w.s) && Text.Utf16Length(w.s) <= 30
      && forall i :: 0 <= i < |w.s| ==> IsUsernameChar(w.s[i])
    case "password" =>
      w.JStr? && IsTrimmed(w.s) && 8 <= Text.Utf16Length(w.s) <= 72
    case "session_id" =>
      && w.JStr? && |w.s| == 96
      && forall i :: 0 <= i < |w.s| ==> Text.IsAsciiAlphaNumeric(w.s[i])
    case "name" =>
      && w.JStr? && |w.s| > 0 && Text.Utf16Length(w.s) <= 128
      && !Text.IsBlankLike(w.s[0]) && !Text.IsBlankLike(w.s[|w.s| - 1]) && '\0' !in w.s
    case "picture" =>
      w.JStr? && IsHttpUri(w.s)
    case "observation" =>
      && w.JStr? && Text.Utf16Length(w.s) <= 160 && '\0' !in w.s
      && (|w.s| == 0 || !Text.IsBlankLike(w.s[|w.s| - 1]))
    case "price" =>
      && w.JNum? && 0.0 <= w.n <= 99999999.99
      && Numeric.HasPlaces(w.n, 10)
    case "category_id" => IsIntegerNumber(w)
    case "value" => IsIntegerNumber(w)
    case "id" => IsIntegerNumber(w)
    case "product_id" => IsIntegerNumber(w)
    case "table_number" => IsIntegerNumber(w)
    case "category_status" =>
      w.JArr? && forall i :: 0 <= i < |w.items| ==> IsStringOf(w.items[i], {"available", "disabled"})
    case "product_status" =>
      w.JArr? && forall i :: 0 <= i < |w.items| ==> IsStringOf(w.items[i], {"available", "missing", "disabled"})
    case "order_status" =>
      w.JArr? && forall i :: 0 <= i < |w.items| ==> IsStringOf(w.items[i], {"pending", "accepted", "declined", "finished"})
    case "features" =>
      w.JArr? && forall i :: 0 <= i < |w.items| ==> IsStringOf(w.items[i], {"admin"})
    case "ingredients_ids" =>
      w.JArr? && forall i :: 0 <= i < |w.items| ==> IsPositiveInteger(w.items[i])
    case "additional_ingredients" =>
      w.JArr? && |w.items| >= 1 && forall i :: 0 <= i < |w.items| ==> IsExtra(w.items[i])
    case "removed_ingredients" => IsIdSet(w)
    case _ => false
  }

  /** Each rule accepts, and returns unchanged, exactly the values of its field's shape. */
  lemma ConformsIsShape(name: string, w: Json)
    requires HasRule(name)
    ensures Conforms(Rule(name), w) <==> FieldShape(name, w)
  {
    match name
    case "username" => UsernameShape(w);
    case "password" => PasswordShape(w);
    case "session_id" => SessionIdShape(w);
    case "name" => NameShape(w);
    case "picture" => PictureShape(w);
    case "observation" => ObservationShape(w);
    case "price" => PriceShape(w);
    case "category_id" =>
      assert Rule(name) == Num(None, [Integer]);
      IntegerShape(w);
    case "value" =>
      assert Rule(name) == Num(None, [Integer]);
      IntegerShape(w);
    case "id" =>
      assert Rule(name) == Num(None, [Integer]);
      IntegerShape(w);
    case "product_id" =>
      assert Rule(name) == Num(None, [Integer]);
      IntegerShape(w);
    case "table_number" =>
      assert Rule(name) == Num(None, [Integer]);
      IntegerShape(w);
    case "category_status" =>
      assert Rule(name) == Arr(EnumItem({"available", "disabled"}), 0, false, false);
      EnumArrayShape({"available", "disabled"}, w);
    case "product_status" =>
      assert Rule(name) == Arr(EnumItem({"available", "missing", "disabled"}), 0, false, false);
      EnumArrayShape({"available", "missing", "disabled"}, w);
    case "order_status" =>
      assert Rule(name) == Arr(EnumItem({"pending", "accepted", "declined", "finished"}), 0, false, false);
      EnumArrayShape({"pending", "accepted", "declined", "finished"}, w);
    case "features" =>
      assert Rule(name) == Arr(EnumItem({"admin"}), 0, false, false);
      EnumArrayShape({"admin"}, w);
    case "ingredients_ids" =>
      assert Rule(name) == Arr(IdItem, 0, false, true);
      IdListShape(w);
    case "additional_ingredients" =>
      assert Rule(name) == Arr(AdditionalItem, 1, false, false);
      ExtrasShape(w);
    case "removed_ingredients" =>
      assert Rule(name) == Arr(IdItem, 0, true, true);
      IdSetShape(w);
    case _ =>
  }

  lemma UsernameShape(w: Json)
    ensures Conforms(Rule("username"), w) <==> FieldShape("username", w)
  {
    var checks := [UsernameCharset, MinLength(1), MaxLength(30)];
    assert Rule("username") == Str(TrimSpaces, false, checks);
    if w.JStr? {
      assert (forall k :: 0 <= k < |checks| ==> CheckHolds(checks[k], w.s)) <==> CheckHolds(checks[0], w.s) && CheckHolds(checks[1], w.s) && CheckHolds(checks[2], w.s);
    }
  }

  lemma PasswordShape(w: Json)
    ensures Conforms(Rule("password"), w) <==> FieldShape("password", w)
  {
    assert Rule("password") == Str(TrimSpaces, false, [MinLength(8), MaxLength(72)]);
    var checks := [MinLength(8), MaxLength(72)];
    if w.JStr? {
      assert Text.Utf16Length(w.s) >= 8 ==> w.s != "";
      assert (forall k :: 0 <= k < |checks| ==> CheckHolds(checks[k], w.s))
        <==> CheckHolds(checks[0], w.s) && CheckHolds(checks[1], w.s);
    }
  }

  lemma SessionIdShape(w: Json)
    ensures Conforms(Rule("session_id"), w) <==> FieldShape("session_id", w)
  {
    var checks := [ExactLength(96), AlphaNumeric];
    assert Rule("session_id") == Str(NoCoercion, false, checks);
    if w.JStr? {
      assert (forall k :: 0 <= k < |checks| ==> CheckHolds(checks[k], w.s)) <==> CheckHolds(checks[0], w.s) && CheckHolds(checks[1], w.s);
      if forall i :: 0 <= i < |w.s| ==> Text.IsAsciiAlphaNumeric(w.s[i]) {
        Text.Utf16LengthOfBmp(w.s);
      }
    }
  }

  lemma NameShape(w: Json)
    ensures Conforms(Rule("name"), w) <==> FieldShape("name", w)
  {
    var checks := [StartsVisible, MinLength(1), MaxLength(128)];
    assert Rule("name") == Str(StripTrailingBlanks, false, checks);
    if w.JStr? {
      assert (forall k :: 0 <= k < |checks| ==> CheckHolds(checks[k], w.s)) <==> CheckHolds(checks[0], w.s) && CheckHolds(checks[1], w.s) && CheckHolds(checks[2], w.s);
    }
  }

  lemma PictureShape(w: Json)
    ensures Conforms(Rule("picture"), w) <==> FieldShape("picture", w)
  {
    var checks := [HttpUri];
    assert Rule("picture") == Str(NoCoercion, false, checks);
    if w.JStr? {
      assert (forall k :: 0 <= k < |checks| ==> CheckHolds(checks[k], w.s)) <==> CheckHolds(checks[0], w.s);
    }
  }

  lemma ObservationShape(w: Json)
    ensures Conforms(Rule("observation"), w) <==> FieldShape("observation", w)
  {
    var checks := [MaxLength(160)];
    assert Rule("observation") == Str(StripTrailingBlanks, true, checks);
    if w.JStr? {
      assert (forall k :: 0 <= k < |checks| ==> CheckHolds(checks[k], w.s)) <==> CheckHolds(checks[0], w.s);
    }
  }

  lemma PriceShape(w: Json)
    ensures Conforms(Rule("price"), w) <==> FieldShape("price", w)
  {
    var rules := [AtLeast(0.0), AtMost(99999999.99)];
    assert Rule("price") == Num(Some(10), rules);
    if w.JNum? {
      assert (forall k :: 0 <= k < |rules| ==> RuleHolds(rules[k], w.n)) <==> RuleHolds(rules[0], w.n) && RuleHolds(rules[1], w.n);
    }
  }

  lemma IntegerShape(w: Json)
    ensures Conforms(Num(None, [Integer]), w) <==> IsIntegerNumber(w)
  {
    if w.JNum? {
      var rules := [Integer];
      assert (forall k :: 0 <= k < |rules| ==> RuleHolds(rules[k], w.n)) <==> RuleHolds(rules[0], w.n);
    }
  }

  lemma IdItemShape(w: Json)
    ensures ItemConforms(IdItem, w) <==> IsPositiveInteger(w)
  {
    if w.JNum? {
      var rules := IdRules;
      assert (forall k :: 0 <= k < |rules| ==> RuleHolds(rules[k], w.n)) <==> RuleHolds(rules[0], w.n) && RuleHolds(rules[1], w.n);
    }
  }

  lemma EnumArrayShape(allowed: set<string>, w: Json)
    ensures Conforms(Arr(EnumItem(allowed), 0, false, false), w)
      <==> w.JArr? && forall i :: 0 <= i < |w.items| ==> IsStringOf(w.items[i], allowed)
  {
  }

  lemma IdListShape(w: Json)
    ensures Conforms(Arr(IdItem, 0, false, true), w)
      <==> w.JArr? && forall i :: 0 <= i < |w.items| ==> IsPositiveInteger(w.items[i])
  {
    if w.JArr? {
      forall i | 0 <= i < |w.items| {
        IdItemShape(w.items[i]);
      }
    }
  }

  lemma IdSetShape(w: Json)
    ensures Conforms(Arr(IdItem, 0, true, true), w) <==> IsIdSet(w)
  {
    if w.JArr? {
      forall i | 0 <= i < |w.items| {
        IdItemShape(w.items[i]);
      }
    }
  }

  lemma ExtraShape(w: Json)
    ensures ItemConforms(AdditionalItem, w) <==> IsExtra(w)
  {
    if w.JObj? && w.fields.Keys == AdditionalKeys {
      IdItemShape(w.fields["ingredient_id"]);
      IdItemShape(w.fields["multiplied"]);
      var p := w.fields["price"];
      if p.JNum? {
        var rules := AdditionalPriceRules;
        assert (forall k :: 0 <= k < |rules| ==> RuleHolds(rules[k], p.n)) <==> RuleHolds(rules[0], p.n);
      }
    }
  }

  lemma ExtrasShape(w: Json)
    ensures Conforms(Arr(AdditionalItem, 1, false, false), w)
      <==> w.JArr? && |w.items| >= 1 && forall i :: 0 <= i < |w.items| ==> IsExtra(w.items[i])
  {
    if w.JArr? {
      forall i | 0 <= i < |w.items| {
        ExtraShape(w.items[i]);
      }
    }
  }

  /** Every field of a validated object has its field's shape. */
  lemma ValidatedShapes(fields: map<string, Json>, req: Request)
    requires |req.order| > 0
    requires Validate(Representable(JObj(fields)), req).Success?
    ensures var out := Validate(Representable(JObj(fields)), req).value;
      out.JObj? && forall k :: k in out.fields ==> FieldShape(k, out.fields[k])
  {
    ValidateAcceptsObjects(Representable(JObj(fields)), req);
    ValidateSuccess(fields, req);
    var out := Validate(Representable(JObj(fields)), req).value;
    forall k | k in out.fields
      ensures FieldShape(k, out.fields[k])
    {
      var i :| 0 <= i < |req.order| && req.order[i] == k;
      ConformsIsShape(k, out.fields[k]);
    }
  }

  /**
   * An input whose requested fields already have their shapes, with every
   * mandatory field and at least one requested field present, passes with
   * only its unrequested keys removed.
   */
  lemma ShapedInputPasses(fields: map<string, Json>, req: Request)
    requires |req.order| > 0 && Catalogued(req.order)
    requires forall i :: 0 <= i < |req.order| && req.order[i] in fields ==> FieldShape(req.order[i], fields[req.order[i]])
    requires forall i :: 0 <= i < |req.order| && MustBePresent(req.order[i], req.presence) ==> req.order[i] in fields
    requires exists i :: 0 <= i < |req.order| && req.order[i] in fields
    ensures Validate(Representable(JObj(fields)), req) == Success(JObj(Restrict(fields, req.order)))
  {
    forall i | 0 <= i < |req.order| && req.order[i] in fields
      ensures Conforms(Rule(req.order[i]), fields[req.order[i]])
    {
      ConformsIsShape(req.order[i], fields[req.order[i]]);
    }
    ValidateStrips(fields, req);
  }

  /** A numeric string is checked as the number it converts to. */
  lemma NumberOfText(places: Option<nat>, rules: seq<NumRule>, key: ErrorKey, s: string, x: real)
    requires Numeric.ParseNumeric(s) == Some(x)
    ensures CheckNumber(places, rules, key, JStr(s)) == CheckNumber(places, rules, key, JNum(x))
  {
    assert NumberInput(JStr(s)) == NumberInput(JNum(x));
  }

  /** A whole number of at most eight digits is a valid price. */
  lemma WholePriceConforms(n: nat)
    requires n <= 99999999
    ensures Conforms(Rule("price"), JNum(n as real))
  {
    Numeric.IntegerHasPlaces(n, 10);
    assert FieldShape("price", JNum(n as real));
    PriceShape(JNum(n as real));
  }

  /** A price sent as the decimal text of a whole number is converted to that number. */
  lemma PriceFromText(n: nat)
    requires n <= 99999999
    ensures CheckValue(Rule("price"), "price", JStr(Text.NatText(n))) == Success(JNum(n as real))
  {
    Numeric.ParseNatText(n);
    WholePriceConforms(n);
    CheckValueFixes(Rule("price"), "price", JNum(n as real));
    var rules := [AtLeast(0.0), AtMost(99999999.99)];
    assert Rule("price") == Num(Some(10), rules);
    NumberOfText(Some(10), rules, KeyName("price"), Text.NatText(n), n as real);
  }
}
