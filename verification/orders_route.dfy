/**
 * The `/api/v1/orders` route: the admin listing (GET) and the public order
 * placement (POST). Placing an order runs `create`, `setIngredients` and
 * `findById` inside one transaction; on any failure the transaction is rolled
 * back and the driver error is translated into the error the client sees.
 */
module OrdersRoute {
  import opened Wrappers
  import opened JsonData
  import opened Errors
  import opened Store
  import opened Validator
  import ValidatorFacts
  import FieldFacts
  import Text
  import Users
  import Auth
  import Routes
  import Orders
  import Products

  const DuplicateName: Fault := ValidationError("MODEL:ORDER:CHECK_FOR_ORDER_UNIQUENESS:ALREADY_EXISTS", None, KeyName("name"))
  const IngredientMissing: Fault := NotFoundError(Some("MODEL:ORDER:CHECK_FOR_ORDER_INGREDIENT_ID:NOT_FOUND"), Some("ingredient_id"))
  const ProductMissing: Fault := NotFoundError(Some("MODEL:ORDER:CHECK_FOR_ORDER_PRODUCT_ID:NOT_FOUND"), Some("product_id"))

  /** The message of a foreign-key violation of `constraint` on `table`, in either server language. */
  predicate ReportsViolation(message: string, table: string, constraint: string) {
    message == ForeignKeyMessage(English, table, constraint) || message == ForeignKeyMessage(BrazilianPortuguese, table, constraint)
  }

  /**
   * The `catch` block: a unique violation, then the two ingredient
   * foreign keys recognised by their message, then any other foreign-key
   * violation; everything else is rethrown unchanged.
   */
  function MapOrderError(e: Fault): (r: Fault)
    ensures !e.DatabaseFault? ==> r == e
    ensures r == e || r == DuplicateName || r == IngredientMissing || r == ProductMissing
  {
    match e
    case DatabaseFault(d) =>
      if d.code == UniqueViolation then DuplicateName
      else if ReportsViolation(d.message, "additional_ingredients", Orders.AdditionalIngredientKey) then IngredientMissing
      else if ReportsViolation(d.message, "removed_ingredients", Orders.RemovedIngredientKey) then IngredientMissing
      else if d.code == ForeignKeyViolation then ProductMissing
      else e
    case _ => e
  }

  /** The two English messages differ at the first letter of the table name. */
  lemma EnglishTablesDiffer(a: string, b: string, c1: string, c2: string)
    requires |a| > 0 && |b| > 0 && a[0] != b[0]
    ensures ForeignKeyMessage(English, a, c1) != ForeignKeyMessage(English, b, c2)
  {
    var prefix := "insert or update on table \"";
    assert ForeignKeyMessage(English, a, c1)[|prefix|] == a[0];
    assert ForeignKeyMessage(English, b, c2)[|prefix|] == b[0];
  }

  lemma PortugueseTablesDiffer(a: string, b: string, c1: string, c2: string)
    requires |a| > 0 && |b| > 0 && a[0] != b[0]
    ensures ForeignKeyMessage(BrazilianPortuguese, a, c1) != ForeignKeyMessage(BrazilianPortuguese, b, c2)
  {
    var prefix := "inserção ou atualização em tabela \"";
    assert ForeignKeyMessage(BrazilianPortuguese, a, c1)[|prefix|] == a[0];
    assert ForeignKeyMessage(BrazilianPortuguese, b, c2)[|prefix|] == b[0];
  }

  /** The two languages' messages differ in their first letter. */
  lemma LanguagesDiffer(a: string, b: string, c1: string, c2: string)
    ensures ForeignKeyMessage(English, a, c1) != ForeignKeyMessage(BrazilianPortuguese, b, c2)
  {
    assert ForeignKeyMessage(English, a, c1)[5] == 't';
    assert ForeignKeyMessage(BrazilianPortuguese, b, c2)[5] == 'ç';
  }

  /** Whether an insert into `table` (for `constraint`) reports a violation recognised as another table's. */
  lemma ForeignTable(locale: Locale, table: string, constraint: string, other: string, c: string)
    requires |table| > 0 && |other| > 0 && table[0] != other[0]
    ensures !ReportsViolation(ForeignKeyMessage(locale, table, constraint), other, c)
  {
    match locale
    case English =>
      EnglishTablesDiffer(table, other, constraint, c);
      LanguagesDiffer(table, other, constraint, c);
    case BrazilianPortuguese =>
      PortugueseTablesDiffer(table, other, constraint, c);
      LanguagesDiffer(other, table, c, constraint);
  }

  /**
   * What the client sees for each foreign-key violation placing an order can
   * raise, in either server language: a missing ingredient in either list is
   * reported as such, and a missing product as a missing product.
   */
  lemma MapOrderErrorCases(locale: Locale)
    ensures MapOrderError(DatabaseFault(ForeignKeyError(locale, "additional_ingredients", Orders.AdditionalIngredientKey))) == IngredientMissing
    ensures MapOrderError(DatabaseFault(ForeignKeyError(locale, "removed_ingredients", Orders.RemovedIngredientKey))) == IngredientMissing
    ensures MapOrderError(DatabaseFault(ForeignKeyError(locale, "orders", Orders.ProductKey))) == ProductMissing
  {
    ForeignTable(locale, "removed_ingredients", Orders.RemovedIngredientKey, "additional_ingredients", Orders.AdditionalIngredientKey);
    ForeignTable(locale, "orders", Orders.ProductKey, "additional_ingredients", Orders.AdditionalIngredientKey);
    ForeignTable(locale, "orders", Orders.ProductKey, "removed_ingredients", Orders.RemovedIngredientKey);
  }

  /** A value out of range matches none of the handler's cases: it is rethrown unchanged and answered 500. */
  lemma MapOrderErrorRange(d: DbError)
    requires ColumnError(d)
    ensures MapOrderError(DatabaseFault(d)) == DatabaseFault(d)
    ensures HttpStatus(MapOrderError(DatabaseFault(d))) == 500
  {
    NotForeignKeyMessage(d.message, "additional_ingredients", Orders.AdditionalIngredientKey);
    NotForeignKeyMessage(d.message, "removed_ingredients", Orders.RemovedIngredientKey);
  }

  /** Every foreign-key message starts with an "i", in either language. */
  lemma NotForeignKeyMessage(message: string, table: string, constraint: string)
    requires |message| > 0 && message[0] != 'i'
    ensures !ReportsViolation(message, table, constraint)
  {
    assert ForeignKeyMessage(English, table, constraint)[0] == 'i';
    assert ForeignKeyMessage(BrazilianPortuguese, table, constraint)[0] == 'i';
  }

  // ---------------------------------------------------------------------------
  // Placing an order
  // ---------------------------------------------------------------------------

  /** `ROLLBACK` on every table the transaction touched. */
  function RollbackDb(before: Orders.Db, after: Orders.Db): (r: Orders.Db)
    ensures r.products.rows == before.products.rows && r.ingredients.rows == before.ingredients.rows
    ensures r.orders.rows == before.orders.rows && r.additional.rows == before.additional.rows && r.removed.rows == before.removed.rows
    ensures r.orders.last == after.orders.last && r.additional.last == after.additional.last && r.removed.last == after.removed.last
  {
    Orders.Db(Rollback(before.products, after.products), Rollback(before.ingredients, after.ingredients),
      Rollback(before.orders, after.orders), Rollback(before.additional, after.additional), Rollback(before.removed, after.removed))
  }

  /** The row `create` inserts for `values`: the next id, status "pending". */
  function NewOrder(db: Orders.Db, values: Orders.OrderValues, now: int): Orders.Order
    requires FitsOptVarchar(values.observation, Orders.ObservationLength)
  {
    Orders.NewRow(NextId(db.orders), values, now)
  }

  /** The transaction of `postHandler`: create, link the ingredients, read the order back. */
  function PlaceOrder(db: Orders.Db, values: Orders.OrderValues, c: Orders.Customisation, locale: Locale, now: int)
    : (r: (Result<Reply<Orders.OrderDetail>, Fault>, Orders.Db))
    ensures r.1.products.rows == db.products.rows && r.1.ingredients.rows == db.ingredients.rows
    ensures r.1.orders.last == if Orders.RowFits(values) then NextId(db.orders) else db.orders.last
    ensures r.0.Failure? ==>
      && r.1.orders.rows == db.orders.rows
      && r.1.additional.rows == db.additional.rows
      && r.1.removed.rows == db.removed.rows
    ensures r.0.Success? ==>
      && r.0.value.status == 201
      && r.0.value.body.order.id == NextId(db.orders)
      && Orders.RowFits(values)
      && r.1.orders.rows == db.orders.rows + [NewOrder(db, values, now)]
      && r.1.additional.rows == db.additional.rows
           + Orders.ExtraRows(NextId(db.additional), NextId(db.orders), c.additional.GetOr([]))
      && r.1.removed.rows == db.removed.rows + Orders.RemovedRows(NextId(db.removed), NextId(db.orders), c.removed.GetOr([]))
  {
    var created := Orders.Create(db, values, locale, now);
    if created.0.Failure? then (Failure(MapOrderError(created.0.error)), RollbackDb(db, created.1))
    else
      var o := created.0.value;
      var linked := Orders.SetIngredients(created.1, o.id, c, locale);
      if linked.0.Failure? then (Failure(MapOrderError(linked.0.error)), RollbackDb(db, linked.1))
      else
        match Orders.FindById(linked.1, o.id)
        case Failure(e) => (Failure(MapOrderError(e)), RollbackDb(db, linked.1))
        case Success(detail) => (Success(Reply(201, detail)), linked.1)
  }

  /** Every id the order references names a stored row. */
  predicate Placeable(db: Orders.Db, values: Orders.OrderValues, c: Orders.Customisation) {
    && (values.productId.None? || Orders.HasProduct(db, values.productId.value))
    && (forall i :: 0 <= i < |c.additional.GetOr([])| ==> Orders.HasIngredient(db, c.additional.GetOr([])[i].ingredientId))
    && (forall i :: 0 <= i < |c.removed.GetOr([])| ==> Orders.HasIngredient(db, c.removed.GetOr([])[i]))
  }

  /** Every value the transaction writes fits its column's type. */
  predicate Fits(values: Orders.OrderValues, c: Orders.Customisation) {
    Orders.RowFits(values) && Orders.ExtrasFit(c.additional.GetOr([])) && AllFitInteger(c.removed.GetOr([]))
  }

  /** An order is placed exactly when every value fits its column and every id it references names a stored row. */
  lemma PlaceOrderSucceeds(db: Orders.Db, values: Orders.OrderValues, c: Orders.Customisation, locale: Locale, now: int)
    ensures PlaceOrder(db, values, c, locale, now).0.Success? <==> Fits(values, c) && Placeable(db, values, c)
  {
    var created := Orders.Create(db, values, locale, now);
    if created.0.Success? {
      var o := created.0.value;
      var mid := created.1;
      assert mid.orders.rows[|db.orders.rows|] == o;
      assert Orders.HasOrder(mid, o.id);
      var extras := c.additional.GetOr([]);
      var ids := Orders.IngredientIds(extras);
      var removed := c.removed.GetOr([]);
      assert mid.ingredients == db.ingredients;
      assert Orders.Linkable(mid, o.id, ids) <==>
        forall i :: 0 <= i < |extras| ==> Orders.HasIngredient(db, extras[i].ingredientId);
      assert Orders.Linkable(mid, o.id, removed) <==>
        forall i :: 0 <= i < |removed| ==> Orders.HasIngredient(db, removed[i]);
      var linked := Orders.SetIngredients(mid, o.id, c, locale);
      if linked.0.Success? {
        assert Orders.HasOrder(linked.1, o.id);
        assert PlaceOrder(db, values, c, locale, now).0.Success?;
      } else {
        assert PlaceOrder(db, values, c, locale, now).0.Failure?;
      }
    } else {
      assert PlaceOrder(db, values, c, locale, now).0.Failure?;
    }
  }

  /** The transaction's first two steps on an order that was created: the new id names a stored order. */
  lemma CreatedOrderExists(db: Orders.Db, values: Orders.OrderValues, locale: Locale, now: int)
    ensures var created := Orders.Create(db, values, locale, now);
      created.0.Success? ==> Orders.HasOrder(created.1, created.0.value.id) && created.1.ingredients == db.ingredients
  {
    var created := Orders.Create(db, values, locale, now);
    if created.0.Success? {
      assert created.1.orders.rows[|db.orders.rows|] == created.0.value;
    }
  }

  /**
   * A failed placement is a missing product, a missing ingredient, or a value
   * out of its column's range, which is rethrown and answered 500; it is
   * never reported as a duplicate.
   */
  lemma PlaceOrderErrorKinds(db: Orders.Db, values: Orders.OrderValues, c: Orders.Customisation, locale: Locale, now: int)
    ensures var r := PlaceOrder(db, values, c, locale, now);
      r.0.Failure? ==>
        || r.0.error == ProductMissing
        || r.0.error == IngredientMissing
        || (r.0.error.DatabaseFault? && ColumnError(r.0.error.error) && HttpStatus(r.0.error) == 500)
  {
    var created := Orders.Create(db, values, locale, now);
    MapOrderErrorCases(locale);
    CreatedOrderExists(db, values, locale, now);
    if created.0.Failure? {
      if !Orders.RowFits(values) {
        MapOrderErrorRange(created.0.error.error);
      }
    } else {
      var linked := Orders.SetIngredients(created.1, created.0.value.id, c, locale);
      if linked.0.Failure? && linked.0.error.DatabaseFault? && ColumnError(linked.0.error.error) {
        MapOrderErrorRange(linked.0.error.error);
      }
    }
  }

  /**
   * When every value fits its column, a failed placement names the missing
   * product if the product is missing and a missing ingredient otherwise, in
   * either server language. When the order row itself does not fit, the
   * insert fails before any key is checked and the client sees a 500.
   */
  lemma PlaceOrderErrors(db: Orders.Db, values: Orders.OrderValues, c: Orders.Customisation, locale: Locale, now: int)
    ensures var r := PlaceOrder(db, values, c, locale, now);
      r.0.Failure? && Fits(values, c) ==>
        r.0.error == if values.productId.Some? && !Orders.HasProduct(db, values.productId.value) then ProductMissing else IngredientMissing
    ensures Orders.RowFits(values) && values.productId.Some? && !Orders.HasProduct(db, values.productId.value) ==>
      PlaceOrder(db, values, c, locale, now).0 == Failure(ProductMissing)
    ensures !Orders.RowFits(values) ==>
      var r := PlaceOrder(db, values, c, locale, now);
      r.0.Failure? && r.0.error.DatabaseFault? && ColumnError(r.0.error.error) && HttpStatus(r.0.error) == 500
  {
    MapOrderErrorCases(locale);
    CreatedOrderExists(db, values, locale, now);
    if !Orders.RowFits(values) {
      MapOrderErrorRange(Orders.Create(db, values, locale, now).0.error.error);
    }
  }

  /** When every referenced id names a stored row, the only way placement fails is a value out of range. */
  lemma PlaceOrderRangeOnly(db: Orders.Db, values: Orders.OrderValues, c: Orders.Customisation, locale: Locale, now: int)
    requires Placeable(db, values, c)
    ensures var r := PlaceOrder(db, values, c, locale, now);
      r.0.Failure? ==> r.0.error.DatabaseFault? && ColumnError(r.0.error.error) && HttpStatus(r.0.error) == 500
  {
    var created := Orders.Create(db, values, locale, now);
    CreatedOrderExists(db, values, locale, now);
    if created.0.Failure? {
      MapOrderErrorRange(created.0.error.error);
    } else {
      var o := created.0.value;
      var linked := Orders.SetIngredients(created.1, o.id, c, locale);
      var extras := c.additional.GetOr([]);
      assert Orders.Linkable(created.1, o.id, Orders.IngredientIds(extras));
      assert Orders.Linkable(created.1, o.id, c.removed.GetOr([]));
      if linked.0.Failure? {
        MapOrderErrorRange(linked.0.error.error);
      }
    }
  }

  /**
   * On a consistent database a placed order reads back as the new row, with
   * the requested extras and removals named from the ingredients table, in
   * request order.
   */
  lemma PlaceOrderReadsBack(db: Orders.Db, values: Orders.OrderValues, c: Orders.Customisation, locale: Locale, now: int)
    requires Orders.Valid(db)
    ensures var r := PlaceOrder(db, values, c, locale, now);
      r.0.Success? ==>
        && r.0.value.body.order == NewOrder(db, values, now)
        && r.0.value.body.additional == Orders.Briefs(db.ingredients, c.additional.GetOr([]))
        && r.0.value.body.removed == Orders.RemovedNames(db.ingredients, c.removed.GetOr([]))
        && Orders.Valid(r.1)
  {
    var r := PlaceOrder(db, values, c, locale, now);
    if r.0.Success? {
      var created := Orders.Create(db, values, locale, now);
      Orders.CreateThenFind(db, values, locale, now);
      Orders.CreateKeepsValid(db, values, locale, now);
      var o := created.0.value;
      assert created.1.orders.rows[|db.orders.rows|] == o;
      Orders.SetIngredientsThenFind(created.1, |db.orders.rows|, c, locale);
      Orders.SetIngredientsKeepsValid(created.1, o.id, c, locale);
    }
  }

  /**
   * A placed order is "pending", so the admin listing of pending orders shows
   * it, with the product it references and its requested extras and removals
   * named from the stored products and ingredients.
   */
  lemma PlacedOrderListed(
    db: Orders.Db, values: Orders.OrderValues, c: Orders.Customisation, locale: Locale, now: int, statuses: seq<string>)
    requires Orders.Valid(db) && Keyed(db.products, Products.IdOf)
    requires Orders.InitialStatus in statuses
    ensures var r := PlaceOrder(db, values, c, locale, now);
      r.0.Success? ==>
        var v := Orders.View(r.1, NewOrder(db, values, now));
        && v in Orders.ListByStatus(r.1, statuses)
        && v.additional == Orders.Briefs(db.ingredients, c.additional.GetOr([]))
        && v.removed == Orders.RemovedNames(db.ingredients, c.removed.GetOr([]))
        && (values.productId.None? ==> v.product == [])
        && (forall k :: 0 <= k < |db.products.rows| && Some(db.products.rows[k].id as int) == values.productId ==>
              v.product == [Orders.ProductBrief(db.products.rows[k].name, db.products.rows[k].price)])
  {
    var r := PlaceOrder(db, values, c, locale, now);
    if r.0.Success? {
      PlaceOrderReadsBack(db, values, c, locale, now);
      var o := NewOrder(db, values, now);
      assert r.1.orders.rows[|db.orders.rows|] == o;
      Orders.ListedAfterInsert(r.1, |db.orders.rows|, statuses, r.0.value.body);
      Orders.ProductsOfKeyed(db.products, o);
    }
  }

  // ---------------------------------------------------------------------------
  // The request body
  // ---------------------------------------------------------------------------

  /** An integer property as the driver receives it; a validated one is integral. */
  function IntegerProp(v: Json, key: string): Option<int> {
    match Prop(v, key)
    case Some(JNum(n)) => Some(n.Floor)
    case _ => None
  }

  /** The five properties `create` reads from the validated body. */
  function OrderValuesOf(v: Json): (r: Orders.OrderValues)
    ensures r.orderId.Some? <==> Prop(v, "order_id").Some? && Prop(v, "order_id").value.JNum?
    ensures r.productId.Some? <==> Prop(v, "product_id").Some? && Prop(v, "product_id").value.JNum?
    ensures r.price.Some? <==> Prop(v, "price").Some? && Prop(v, "price").value.JNum?
    ensures r.tableNumber.Some? <==> Prop(v, "table_number").Some? && Prop(v, "table_number").value.JNum?
    ensures r.observation.Some? <==> Prop(v, "observation").Some? && Prop(v, "observation").value.JStr?
  {
    Orders.OrderValues(
      IntegerProp(v, "order_id"),
      IntegerProp(v, "product_id"),
      match Prop(v, "price") case Some(JNum(n)) => Some(n) case _ => None,
      IntegerProp(v, "table_number"),
      match Prop(v, "observation") case Some(JStr(s)) => Some(s) case _ => None)
  }

  /** One validated element of `additional_ingredients`. */
  function ExtraOf(w: Json): Orders.Extra {
    Orders.Extra(
      NumberOf(Prop(w, "ingredient_id").GetOr(JNull)).Floor,
      NumberOf(Prop(w, "multiplied").GetOr(JNull)).Floor,
      NumberOf(Prop(w, "price").GetOr(JNull)))
  }

  /** The two lists `setIngredients` reads from the validated body; an absent list is skipped. */
  function CustomisationOf(v: Json): (r: Orders.Customisation)
    ensures r.additional.Some? <==> Prop(v, "additional_ingredients").Some? && Prop(v, "additional_ingredients").value.JArr?
    ensures r.removed.Some? <==> Prop(v, "removed_ingredients").Some? && Prop(v, "removed_ingredients").value.JArr?
    ensures r.additional.Some? ==>
      var items := Prop(v, "additional_ingredients").value.items;
      |r.additional.value| == |items| && forall i :: 0 <= i < |items| ==> r.additional.value[i] == ExtraOf(items[i])
    ensures r.removed.Some? ==>
      var items := Prop(v, "removed_ingredients").value.items;
      |r.removed.value| == |items| && forall i :: 0 <= i < |items| ==> r.removed.value[i] == NumberOf(items[i]).Floor
  {
    Orders.Customisation(
      match Prop(v, "additional_ingredients")
      case Some(JArr(items)) => Some(seq(|items|, i requires 0 <= i < |items| => ExtraOf(items[i])))
      case _ => None,
      match Prop(v, "removed_ingredients")
      case Some(JArr(items)) => Some(seq(|items|, i requires 0 <= i < |items| => NumberOf(items[i]).Floor))
      case _ => None)
  }

  /** The keys `postValidationHandler` asks for, as written: `order_id` first. */
  const WrittenPostRequest: Request := Request(
    ["order_id", "product_id", "price", "table_number", "observation", "additional_ingredients", "removed_ingredients"],
    map["order_id" := Required, "product_id" := Required, "price" := Required, "table_number" := Required,
        "observation" := Optional, "additional_ingredients" := Optional, "removed_ingredients" := Optional])

  /** `POST /api/v1/orders` as written: validation, then the transaction. */
  function OrdersPost(db: Orders.Db, body: RawInput, locale: Locale, now: int)
    : (r: (Result<Reply<Orders.OrderDetail>, Fault>, Orders.Db))
    ensures Validate(body, WrittenPostRequest).Failure? ==> r == (Failure(Validate(body, WrittenPostRequest).error), db)
  {
    match Validate(body, WrittenPostRequest)
    case Failure(e) => (Failure(e), db)
    case Success(v) => PlaceOrder(db, OrderValuesOf(v), CustomisationOf(v), locale, now)
  }

  /**
   * `order_id` has no entry in the rule catalogue, so building the schema
   * crashes: as written, no body that survives the JSON round trip can ever
   * place an order, and nothing is written.
   */
  lemma OrdersPostNeverPlaces(db: Orders.Db, body: RawInput, locale: Locale, now: int)
    ensures !HasRule("order_id")
    ensures OrdersPost(db, body, locale, now) == (Failure(if body.Unrepresentable? then ParseError else MissingRuleCrash), db)
    ensures HttpStatus(OrdersPost(db, body, locale, now).0.error) == (if body.Unrepresentable? then 400 else 500)
  {
    assert !HasRule(WrittenPostRequest.order[0]);
  }

  /** The catalogued keys of the order body: `order_id` left out, so it is stripped and stored as NULL. */
  const PostRequest: Request := Request(
    ["product_id", "price", "table_number", "observation", "additional_ingredients", "removed_ingredients"],
    map["product_id" := Required, "price" := Required, "table_number" := Required,
        "observation" := Optional, "additional_ingredients" := Optional, "removed_ingredients" := Optional])

  /** The corrected request: every key catalogued, no `order_id`, the three columns mandatory. */
  lemma PostRequestKeys()
    ensures |PostRequest.order| > 0 && Catalogued(PostRequest.order) && "order_id" !in PostRequest.order
    ensures "product_id" in PostRequest.order && HasRule("product_id") && MustBePresent("product_id", PostRequest.presence)
    ensures "price" in PostRequest.order && HasRule("price") && MustBePresent("price", PostRequest.presence)
    ensures "table_number" in PostRequest.order && HasRule("table_number") && MustBePresent("table_number", PostRequest.presence)
  {
    OrderFieldRules();
    assert PostRequest.order[0] == "product_id" && PostRequest.order[1] == "price" && PostRequest.order[2] == "table_number";
  }

  /** `POST /api/v1/orders` validating only catalogued keys. */
  function CataloguedPost(db: Orders.Db, body: RawInput, locale: Locale, now: int)
    : (r: (Result<Reply<Orders.OrderDetail>, Fault>, Orders.Db))
    ensures Validate(body, PostRequest).Failure? ==> r == (Failure(Validate(body, PostRequest).error), db)
  {
    match Validate(body, PostRequest)
    case Failure(e) => (Failure(e), db)
    case Success(v) => PlaceOrder(db, OrderValuesOf(v), CustomisationOf(v), locale, now)
  }

  /**
   * Whatever the requested keys, a validated body without an `order_id` rule
   * and with product, price and table mandatory fills those three columns
   * with the validated numbers (integers stay exact) and leaves `order_id` NULL.
   */
  lemma ValidatedValues(fields: map<string, Json>, req: Request)
    requires |req.order| > 0 && Validate(Representable(JObj(fields)), req).Success?
    requires "order_id" !in req.order
    requires "product_id" in req.order && HasRule("product_id") && MustBePresent("product_id", req.presence)
    requires "price" in req.order && HasRule("price") && MustBePresent("price", req.presence)
    requires "table_number" in req.order && HasRule("table_number") && MustBePresent("table_number", req.presence)
    ensures var v := Validate(Representable(JObj(fields)), req).value;
      var values := OrderValuesOf(v);
      && values.orderId.None?
      && values.productId.Some? && values.price.Some? && values.tableNumber.Some?
      && v.fields["product_id"] == JNum(values.productId.value as real)
      && v.fields["price"] == JNum(values.price.value)
      && v.fields["table_number"] == JNum(values.tableNumber.value as real)
  {
    var v := Validate(Representable(JObj(fields)), req).value;
    ValidatorFacts.ValidateSuccess(fields, req);
    var p :| 0 <= p < |req.order| && req.order[p] == "product_id";
    var q :| 0 <= q < |req.order| && req.order[q] == "price";
    var t :| 0 <= t < |req.order| && req.order[t] == "table_number";
    assert "order_id" !in v.fields;
    assert "product_id" in v.fields && "price" in v.fields && "table_number" in v.fields;
    OrderFieldRules();
    FieldFacts.IntegerShape(v.fields["product_id"]);
    FieldFacts.IntegerShape(v.fields["table_number"]);
    IntegerPropExact(v, "product_id");
    IntegerPropExact(v, "table_number");
  }

  /** The catalogue rules of the order body's numeric columns. */
  lemma OrderFieldRules()
    ensures HasRule("product_id") && Rule("product_id") == Num(None, [Integer])
    ensures HasRule("table_number") && Rule("table_number") == Num(None, [Integer])
    ensures HasRule("price") && Rule("price") == Num(Some(10), PriceRules)
    ensures !HasRule("order_id")
  {
  }

  /** A present integer property reaches the driver unchanged. */
  lemma IntegerPropExact(v: Json, key: string)
    requires Prop(v, key).Some? && FieldFacts.IsIntegerNumber(Prop(v, key).value)
    ensures IntegerProp(v, key).Some? && Prop(v, key).value == JNum(IntegerProp(v, key).value as real)
  {
  }

  /**
   * A body the corrected validation accepts reaches the transaction with a
   * NULL `order_id` and with the three mandatory columns filled.
   */
  lemma CataloguedPostValues(fields: map<string, Json>)
    requires Validate(Representable(JObj(fields)), PostRequest).Success?
    ensures var v := Validate(Representable(JObj(fields)), PostRequest).value;
      var values := OrderValuesOf(v);
      && values.orderId.None?
      && values.productId.Some? && values.price.Some? && values.tableNumber.Some?
      && v.fields["product_id"] == JNum(values.productId.value as real)
      && v.fields["price"] == JNum(values.price.value)
      && v.fields["table_number"] == JNum(values.tableNumber.value as real)
  {
    PostRequestKeys();
    ValidatedValues(fields, PostRequest);
  }

  /** Without a price the corrected validation rejects the body with `any.required` on "price". */
  lemma CataloguedPostWithoutPrice(db: Orders.Db, fields: map<string, Json>, locale: Locale, now: int)
    requires "price" !in fields
    requires "product_id" in fields && FieldFacts.IsIntegerNumber(fields["product_id"])
    ensures CataloguedPost(db, Representable(JObj(fields)), locale, now)
      == (Failure(ValidationError(FinalSchemaLocation, Some("any.required"), KeyName("price"))), db)
  {
    FieldFacts.ConformsIsShape("product_id", fields["product_id"]);
    ValidatorFacts.CheckValueFixes(Rule("product_id"), "product_id", fields["product_id"]);
    assert FieldStep(fields, PostRequest.order[0], PostRequest.presence).Success?;
    ValidatorFacts.ValidateMissingRequired(fields, PostRequest, 1);
  }

  /**
   * A validated body naming a product that does not exist is answered 404 on
   * "product_id" when its values fit their columns, and 500 otherwise; either
   * way nothing is stored.
   */
  lemma CataloguedPostUnknownProduct(db: Orders.Db, fields: map<string, Json>, locale: Locale, now: int)
    requires Validate(Representable(JObj(fields)), PostRequest).Success?
    requires !Orders.HasProduct(db, OrderValuesOf(Validate(Representable(JObj(fields)), PostRequest).value).productId.GetOr(0))
    ensures var r := CataloguedPost(db, Representable(JObj(fields)), locale, now);
      var values := OrderValuesOf(Validate(Representable(JObj(fields)), PostRequest).value);
      && (Orders.RowFits(values) ==> r.0 == Failure(ProductMissing) && HttpStatus(ProductMissing) == 404)
      && (!Orders.RowFits(values) ==> r.0.Failure? && HttpStatus(r.0.error) == 500)
      && r.1.orders.rows == db.orders.rows
  {
    CataloguedPostValues(fields);
    var v := Validate(Representable(JObj(fields)), PostRequest).value;
    PlaceOrderErrors(db, OrderValuesOf(v), CustomisationOf(v), locale, now);
  }

  // ---------------------------------------------------------------------------
  // Listing orders
  // ---------------------------------------------------------------------------

  /** `GET /api/v1/orders`: `injectUser`, the status query, `canRequest("admin")`, then `listByStatus`. */
  function GetOrders(
    db: Orders.Db, ctx: Auth.Context, cookies: map<string, string>,
    findSession: map<string, string> -> Result<Auth.Session, Fault>, users: Table<Users.User>,
    query: map<string, string>): (r: Result<Reply<seq<Orders.OrderView>>, Fault>)
    ensures r.Success? ==>
      && r.value.status == 200
      && Auth.InjectUser(ctx, cookies, findSession, users).Success?
      && var user := Auth.InjectUser(ctx, cookies, findSession, users).value.user;
      && user.Some? && "admin" in user.value.features
    ensures r.Success? ==>
      && (forall v :: v in r.value.body ==>
            v.order in db.orders.rows && v.order.status.Some? && v.order.status.value in Routes.StatusFilter(query, "order_status"))
      && (forall o :: o in db.orders.rows && o.status.Some? && o.status.value in Routes.StatusFilter(query, "order_status") ==>
            exists v :: v in r.value.body && v.order == o)
  {
    var validation := Validate(Representable(Routes.SplitQuery(query, "order_status")), Routes.StatusRequest("order_status"));
    var _ :- Routes.Guard("admin", ctx, cookies, findSession, users, validation);
    Success(Reply(200, Orders.ListByStatus(db, Routes.StatusFilter(query, "order_status"))))
  }

  /**
   * A visitor without a session asking for `order_status=s`: a list naming
   * an unknown status is rejected with 400 before authorization, and a valid
   * one meets 403 USER_NOT_FOUND.
   */
  lemma AnonymousOrderListing(
    db: Orders.Db, ctx: Auth.Context, cookies: map<string, string>,
    findSession: map<string, string> -> Result<Auth.Session, Fault>, users: Table<Users.User>, s: string)
    requires !Auth.HasSessionCookie(cookies) && ctx.user.None? && s != ""
    ensures var r := GetOrders(db, ctx, cookies, findSession, users, map["order_status" := s]);
      && r.Failure?
      && (Routes.AllAllowed("order_status", Text.Split(s, ',')) ==> r.error == Auth.UserNotFound)
      && (!Routes.AllAllowed("order_status", Text.Split(s, ',')) ==> HttpStatus(r.error) == 400)
  {
    Routes.StatusQueryOutcome("order_status", s);
    var validation := Validate(Representable(Routes.SplitQuery(map["order_status" := s], "order_status")), Routes.StatusRequest("order_status"));
    Routes.AnonymousGuard("admin", ctx, cookies, findSession, users, validation);
  }
}
