/**
 * The field validator: a fixed catalogue of per-field rules, assembled on
 * each call into one object schema for the requested fields and applied with
 * unknown keys stripped, conversion on, and the first error reported.
 *
 * Joi itself is not modelled. Each catalogue rule is described by a small
 * `FieldSpec` value, and `CheckValue` applies it in the order Joi applies a
 * schema's parts: coercion, allowed values, the base type, then the rules in
 * the order they were declared.
 */
module Validator {
  import opened Wrappers
  import opened JsonData
  import opened Errors
  import Text
  import Numeric

  /** One failed rule: its Joi error type and the key the error body reports. */
  datatype Issue = Issue(code: string, key: ErrorKey)

  /**
   * The key of an error inside an array element: `context.key || context.type
   * || "object"`, where `context.key` is the element index, and index 0 is falsy.
   */
  function ItemKey(index: nat): (k: ErrorKey)
    ensures index == 0 <==> k == KeyName("object")
    ensures index > 0 ==> k == KeyIndex(index)
  {
    if index == 0 then KeyName("object") else KeyIndex(index)
  }

  // ---------------------------------------------------------------------------
  // Rule descriptions
  // ---------------------------------------------------------------------------

  /** The conversion a string schema applies before its rules. */
  datatype Coercion =
    | NoCoercion
      /** `.trim()`: leading and trailing `\s` removed. */
    | TrimSpaces
      /** `.replace(/(blank)+$|\u0000/gsu, "")`. */
    | StripTrailingBlanks

  datatype StrCheck =
      /** `.pattern(/^[a-zA-Z0-9À-ſ ]+$/)` */
    | UsernameCharset
      /** `.pattern(/^(blank).*$/su, { invert: true })` */
    | StartsVisible
    | MinLength(min: nat)
    | MaxLength(max: nat)
    | ExactLength(length: nat)
    | AlphaNumeric
      /** `.uri({ scheme: ["http", "https"] })` */
    | HttpUri

  datatype NumRule =
    | Integer
    | Positive
    | AtLeast(low: real)
    | AtMost(high: real)

  /** The schema of one array element. */
  datatype ItemSpec =
      /** `Joi.string().valid(...)` */
    | EnumItem(allowed: set<string>)
      /** `Joi.number().integer().positive()` */
    | IdItem
      /** `Joi.object({ ingredient_id, multiplied, price })` */
    | AdditionalItem

  datatype FieldSpec =
    | Str(coercion: Coercion, allowEmpty: bool, checks: seq<StrCheck>)
      /** `places` is the argument of `.precision(...)`, when there is one. */
    | Num(places: Option<nat>, rules: seq<NumRule>)
      /**
       * `toggleOnArray` says whether the `.when("$required...")` toggle is
       * attached to the array itself (true) or to its element schema (false);
       * in the second case the array key is never mandatory.
       */
    | Arr(item: ItemSpec, minItems: nat, unique: bool, toggleOnArray: bool)

  const IdRules: seq<NumRule> := [Integer, Positive]
  const PriceRules: seq<NumRule> := [AtLeast(0.0), AtMost(99999999.99)]
  const AdditionalPriceRules: seq<NumRule> := [Positive]

  const OrderStatuses: set<string> := {"pending", "accepted", "declined", "finished"}
  const ProductStatuses: set<string> := {"available", "missing", "disabled"}
  const CategoryStatuses: set<string> := {"available", "disabled"}
  const Features: set<string> := {"admin"}

  /**
   * The rule catalogue: the rule of each field name, None for a name without
   * one (a property lookup in the `schemas` object).
   */
  function RuleOf(name: string): Option<FieldSpec> {
    match name
    case "username" => Some(Str(TrimSpaces, false, [UsernameCharset, MinLength(1), MaxLength(30)]))
    case "password" => Some(Str(TrimSpaces, false, [MinLength(8), MaxLength(72)]))
    case "session_id" => Some(Str(NoCoercion, false, [ExactLength(96), AlphaNumeric]))
    case "name" => Some(Str(StripTrailingBlanks, false, [StartsVisible, MinLength(1), MaxLength(128)]))
    case "category_id" => Some(Num(None, [Integer]))
    case "category_status" => Some(Arr(EnumItem(CategoryStatuses), 0, false, false))
    case "features" => Some(Arr(EnumItem(Features), 0, false, false))
    case "price" => Some(Num(Some(10), PriceRules))
    case "value" => Some(Num(None, [Integer]))
    case "picture" => Some(Str(NoCoercion, false, [HttpUri]))
    case "ingredients_ids" => Some(Arr(IdItem, 0, false, true))
    case "product_status" => Some(Arr(EnumItem(ProductStatuses), 0, false, false))
    case "id" => Some(Num(None, [Integer]))
    case "order_status" => Some(Arr(EnumItem(OrderStatuses), 0, false, false))
    case "product_id" => Some(Num(None, [Integer]))
    case "table_number" => Some(Num(None, [Integer]))
    case "observation" => Some(Str(StripTrailingBlanks, true, [MaxLength(160)]))
    case "additional_ingredients" => Some(Arr(AdditionalItem, 1, false, false))
    case "removed_ingredients" => Some(Arr(IdItem, 0, true, true))
    case _ => None
  }

  predicate HasRule(name: string) {
    RuleOf(name).Some?
  }

  function Rule(name: string): FieldSpec
    requires HasRule(name)
  {
    RuleOf(name).value
  }

  // ---------------------------------------------------------------------------
  // Strings
  // ---------------------------------------------------------------------------

  function Coerce(c: Coercion, s: string): string {
    match c
    case NoCoercion => s
    case TrimSpaces => Text.Trim(s)
    case StripTrailingBlanks => Text.StripTrailingBlanksAndNul(s)
  }

  /** The strings a coercion leaves as they are. */
  predicate InNormalForm(c: Coercion, s: string) {
    match c
    case NoCoercion => true
    case TrimSpaces => |s| == 0 || (!Text.IsJsSpace(s[0]) && !Text.IsJsSpace(s[|s| - 1]))
    case StripTrailingBlanks => '\0' !in s && (|s| == 0 || !Text.IsBlankLike(s[|s| - 1]))
  }

  predicate IsUsernameChar(c: char) {
    Text.IsAsciiAlphaNumeric(c) || c == ' ' || (0xC0 <= c as int <= 0x17F)
  }

  /**
   * The `http`/`https` URI rule, reduced to its prefix: `http://` or
   * `https://` followed by a non-empty remainder free of blanks and control
   * characters. The rest of the RFC 3986 grammar is not modelled.
   */
  predicate IsHttpUri(s: string) {
    var rest :=
      if |s| >= 7 && s[..7] == "http://" then Some(s[7..])
      else if |s| >= 8 && s[..8] == "https://" then Some(s[8..])
      else None;
    rest.Some? && |rest.value| > 0
    && forall i :: 0 <= i < |rest.value| ==> !Text.IsJsSpace(rest.value[i]) && !Text.IsOtherCategory(rest.value[i])
  }

  predicate CheckHolds(check: StrCheck, s: string) {
    match check
    case UsernameCharset => |s| > 0 && forall i :: 0 <= i < |s| ==> IsUsernameChar(s[i])
    case StartsVisible => |s| == 0 || !Text.IsBlankLike(s[0])
    case MinLength(n) => Text.Utf16Length(s) >= n
    case MaxLength(n) => Text.Utf16Length(s) <= n
    case ExactLength(n) => Text.Utf16Length(s) == n
    case AlphaNumeric => |s| > 0 && forall i :: 0 <= i < |s| ==> Text.IsAsciiAlphaNumeric(s[i])
    case HttpUri => IsHttpUri(s)
  }

  function CheckCode(check: StrCheck): string {
    match check
    case UsernameCharset => "string.pattern.base"
    case StartsVisible => "string.pattern.invert.base"
    case MinLength(_) => "string.min"
    case MaxLength(_) => "string.max"
    case ExactLength(_) => "string.length"
    case AlphaNumeric => "string.alphanum"
    case HttpUri => "string.uriCustomScheme"
  }

  /** The first check, in declaration order, that `s` fails. */
  function FirstFailedCheck(checks: seq<StrCheck>, s: string): (r: Option<nat>)
    ensures r.None? <==> forall k :: 0 <= k < |checks| ==> CheckHolds(checks[k], s)
    ensures r.Some? ==>
      && r.value < |checks|
      && !CheckHolds(checks[r.value], s)
      && forall k :: 0 <= k < r.value ==> CheckHolds(checks[k], s)
  {
    if |checks| == 0 then None
    else if !CheckHolds(checks[0], s) then Some(0)
    else match FirstFailedCheck(checks[1..], s)
      case None => None
      case Some(k) => Some(k + 1)
  }

  function CheckString(c: Coercion, allowEmpty: bool, checks: seq<StrCheck>, key: ErrorKey, w: Json): Result<Json, Issue> {
    if !w.JStr? then Failure(Issue("string.base", key))
    else
      var v := Coerce(c, w.s);
      if allowEmpty && v == "" then Success(JStr(""))
      else if v == "" then Failure(Issue("string.empty", key))
      else match FirstFailedCheck(checks, v)
        case Some(k) => Failure(Issue(CheckCode(checks[k]), key))
        case None => Success(JStr(v))
  }

  predicate StringConforms(c: Coercion, allowEmpty: bool, checks: seq<StrCheck>, w: Json) {
    && w.JStr?
    && ((allowEmpty && w.s == "")
        || (w.s != "" && InNormalForm(c, w.s) && forall k :: 0 <= k < |checks| ==> CheckHolds(checks[k], w.s)))
  }

  // ---------------------------------------------------------------------------
  // Numbers
  // ---------------------------------------------------------------------------

  predicate IsSafe(x: real) {
    -(Numeric.MaxSafeInteger as real) <= x <= Numeric.MaxSafeInteger as real
  }

  predicate RuleHolds(rule: NumRule, x: real) {
    match rule
    case Integer => Numeric.IsIntegral(x) && IsSafe(x)
    case Positive => x > 0.0
    case AtLeast(low) => x >= low
    case AtMost(high) => x <= high
  }

  function RuleCode(rule: NumRule): string {
    match rule
    case Integer => "number.integer"
    case Positive => "number.positive"
    case AtLeast(_) => "number.min"
    case AtMost(_) => "number.max"
  }

  function FirstFailedRule(rules: seq<NumRule>, x: real): (r: Option<nat>)
    ensures r.None? <==> forall k :: 0 <= k < |rules| ==> RuleHolds(rules[k], x)
    ensures r.Some? ==>
      && r.value < |rules|
      && !RuleHolds(rules[r.value], x)
      && forall k :: 0 <= k < r.value ==> RuleHolds(rules[k], x)
  {
    if |rules| == 0 then None
    else if !RuleHolds(rules[0], x) then Some(0)
    else match FirstFailedRule(rules[1..], x)
      case None => None
      case Some(k) => Some(k + 1)
  }

  /** A JSON number, or a string in the textual forms `Number` accepts. */
  function NumberInput(w: Json): Option<real> {
    match w
    case JNum(n) => Some(n)
    case JStr(s) => Numeric.ParseNumeric(s)
    case _ => None
  }

  function CheckNumber(places: Option<nat>, rules: seq<NumRule>, key: ErrorKey, w: Json): Result<Json, Issue> {
    match NumberInput(w)
    case None => Failure(Issue("number.base", key))
    case Some(x) =>
      if !IsSafe(x) then Failure(Issue("number.unsafe", key))
      else
        var y := if places.Some? then Numeric.RoundTo(x, places.value) else x;
        match FirstFailedRule(rules, y)
        case Some(k) => Failure(Issue(RuleCode(rules[k]), key))
        case None => Success(JNum(y))
  }

  predicate NumberConforms(places: Option<nat>, rules: seq<NumRule>, w: Json) {
    && w.JNum?
    && IsSafe(w.n)
    && (places.Some? ==> Numeric.HasPlaces(w.n, places.value))
    && forall k :: 0 <= k < |rules| ==> RuleHolds(rules[k], w.n)
  }

  // ---------------------------------------------------------------------------
  // Arrays
  // ---------------------------------------------------------------------------

  const AdditionalKeys: set<string> := {"ingredient_id", "multiplied", "price"}

  /** A required numeric property of an additional-ingredient object. */
  function CheckMember(fields: map<string, Json>, name: string, rules: seq<NumRule>): Result<Json, Issue> {
    if name !in fields then Failure(Issue("any.required", KeyName(name)))
    else CheckNumber(None, rules, KeyName(name), fields[name])
  }

  function CheckItem(item: ItemSpec, key: ErrorKey, w: Json): Result<Json, Issue> {
    match item
    case EnumItem(allowed) =>
      if w.JStr? && w.s in allowed then Success(w) else Failure(Issue("any.only", key))
    case IdItem => CheckNumber(None, IdRules, key, w)
    case AdditionalItem =>
      if !w.JObj? then Failure(Issue("object.base", key))
      else
        var ingredient :- CheckMember(w.fields, "ingredient_id", IdRules);
        var multiplied :- CheckMember(w.fields, "multiplied", IdRules);
        var price :- CheckMember(w.fields, "price", AdditionalPriceRules);
        Success(JObj(map["ingredient_id" := ingredient, "multiplied" := multiplied, "price" := price]))
  }

  predicate ItemConforms(item: ItemSpec, w: Json) {
    match item
    case EnumItem(allowed) => w.JStr? && w.s in allowed
    case IdItem => NumberConforms(None, IdRules, w)
    case AdditionalItem =>
      && w.JObj?
      && w.fields.Keys == AdditionalKeys
      && NumberConforms(None, IdRules, w.fields["ingredient_id"])
      && NumberConforms(None, IdRules, w.fields["multiplied"])
      && NumberConforms(None, AdditionalPriceRules, w.fields["price"])
  }

  /** The `items` rule: every element in order, stopping at the first failure. */
  function CheckItems(item: ItemSpec, items: seq<Json>, offset: nat): (r: Result<seq<Json>, Issue>)
    ensures r.Success? ==> |r.value| == |items|
    decreases |items|
  {
    if |items| == 0 then Success([])
    else
      var head :- CheckItem(item, ItemKey(offset), items[0]);
      var tail :- CheckItems(item, items[1..], offset + 1);
      Success([head] + tail)
  }

  predicate Distinct(vals: seq<Json>) {
    forall i, j :: 0 <= i < j < |vals| ==> vals[i] != vals[j]
  }

  /** The `unique` rule: the first position whose value occurred earlier. */
  function FirstDuplicate(vals: seq<Json>, from: nat): (r: Option<nat>)
    requires from <= |vals|
    ensures r.None? <==> forall k :: from <= k < |vals| ==> vals[k] !in vals[..k]
    ensures r.Some? ==> from <= r.value < |vals| && vals[r.value] in vals[..r.value]
    decreases |vals| - from
  {
    if from == |vals| then None
    else if vals[from] in vals[..from] then Some(from)
    else FirstDuplicate(vals, from + 1)
  }

  function CheckArray(item: ItemSpec, minItems: nat, unique: bool, key: ErrorKey, w: Json): Result<Json, Issue> {
    if !w.JArr? then Failure(Issue("array.base", key))
    else
      var vals :- CheckItems(item, w.items, 0);
      if |vals| < minItems then Failure(Issue("array.min", key))
      else if unique && FirstDuplicate(vals, 0).Some? then
        Failure(Issue("array.unique", ItemKey(FirstDuplicate(vals, 0).value)))
      else Success(JArr(vals))
  }

  predicate ArrayConforms(item: ItemSpec, minItems: nat, unique: bool, w: Json) {
    && w.JArr?
    && |w.items| >= minItems
    && (forall i :: 0 <= i < |w.items| ==> ItemConforms(item, w.items[i]))
    && (unique ==> Distinct(w.items))
  }

  // ---------------------------------------------------------------------------
  // One field
  // ---------------------------------------------------------------------------

  /** Applies the rule of field `name` to the value the input holds for it. */
  function CheckValue(spec: FieldSpec, name: string, w: Json): Result<Json, Issue> {
    match spec
    case Str(c, allowEmpty, checks) => CheckString(c, allowEmpty, checks, KeyName(name), w)
    case Num(places, rules) => CheckNumber(places, rules, KeyName(name), w)
    case Arr(item, minItems, unique, _) => CheckArray(item, minItems, unique, KeyName(name), w)
  }

  /** The values a field's rule accepts and returns unchanged. */
  predicate Conforms(spec: FieldSpec, w: Json) {
    match spec
    case Str(c, allowEmpty, checks) => StringConforms(c, allowEmpty, checks, w)
    case Num(places, rules) => NumberConforms(places, rules, w)
    case Arr(item, minItems, unique, _) => ArrayConforms(item, minItems, unique, w)
  }

  /** Whether a `"required"` entry in the requiredness map makes the key mandatory. */
  predicate TogglesField(spec: FieldSpec) {
    !spec.Arr? || spec.toggleOnArray
  }

  // ---------------------------------------------------------------------------
  // The object schema
  // ---------------------------------------------------------------------------

  datatype Presence = Required | Optional

  /**
   * The `keys` argument, an object from field names to "required" or
   * "optional": its own keys in order, and what each maps to.
   */
  datatype Request = Request(order: seq<string>, presence: map<string, Presence>)

  predicate Catalogued(names: seq<string>) {
    forall i :: 0 <= i < |names| ==> HasRule(names[i])
  }

  predicate MustBePresent(name: string, required: map<string, Presence>)
    requires HasRule(name)
  {
    name in required && required[name] == Required && TogglesField(Rule(name))
  }

  /** One key of the object schema: absent and optional, absent and mandatory, or checked. */
  function FieldStep(fields: map<string, Json>, name: string, required: map<string, Presence>): Result<Option<Json>, Issue>
    requires HasRule(name)
  {
    if name !in fields then
      if MustBePresent(name, required) then Failure(Issue("any.required", KeyName(name))) else Success(None)
    else
      var v :- CheckValue(Rule(name), name, fields[name]);
      Success(Some(v))
  }

  /** The schema's keys in order; keys outside `schema` are not copied (stripped). */
  function CheckFields(fields: map<string, Json>, schema: seq<string>, required: map<string, Presence>): (r: Result<map<string, Json>, Issue>)
    requires Catalogued(schema)
    ensures r.Success? ==> r.value.Keys <= fields.Keys && forall k :: k in r.value ==> k in schema
    decreases |schema|
  {
    if |schema| == 0 then Success(map[])
    else
      var step :- FieldStep(fields, schema[0], required);
      var rest :- CheckFields(fields, schema[1..], required);
      Success(if step.Some? then rest[schema[0] := step.value] else rest)
  }

  function SchemaError(issue: Issue): Fault {
    ValidationError(FinalSchemaLocation, Some(issue.code), issue.key)
  }

  const MinKeysError: Fault := ValidationError(FinalSchemaLocation, Some("object.min"), KeyName("object"))

  /**
   * The assembled schema applied to a cloned input. With no requested key the
   * schema is a bare `Joi.object()`, which allows and keeps every key.
   */
  function RunSchema(schema: seq<string>, required: map<string, Presence>, json: Json): Result<Json, Fault>
    requires Catalogued(schema)
  {
    if !json.JObj? then Failure(SchemaError(Issue("object.base", KeyName("object"))))
    else if |schema| == 0 then
      if |json.fields| >= 1 then Success(json) else Failure(MinKeysError)
    else
      match CheckFields(json.fields, schema, required)
      case Failure(issue) => Failure(SchemaError(issue))
      case Success(m) => if |m| == 0 then Failure(MinKeysError) else Success(JObj(m))
  }

  const ParseError: Fault := ValidationError(ParsingLocation, None, KeyName("object"))

  /** The crash when a requested key has no catalogue entry. */
  const MissingRuleCrash: Fault := TypeErrorCrash("keyValidationFunction is not a function")

  /** `validator(obj, keys)` without its schema cache. */
  function Validate(raw: RawInput, req: Request): Result<Json, Fault> {
    if raw.Unrepresentable? then Failure(ParseError)
    else if !Catalogued(req.order) then Failure(MissingRuleCrash)
    else RunSchema(req.order, req.presence, raw.json)
  }
}
