/**
 * The `orders` table, its two link tables (`additional_ingredients`,
 * `removed_ingredients`) and the accessors create, setIngredients,
 * listByStatus, findById and setStatus.
 *
 * The orders migration is older than the code that uses the table, so only
 * what the code and its callers rely on is kept: the columns `create` writes,
 * a status that starts as "pending", the status CHECK constraint, and the
 * foreign keys to products and ingredients. Column types follow the
 * migrations: ids, `multiplied` and the table number are `integer`, prices
 * `decimal(10, 2)`; `order_id` is taken to be an `integer` like the other ids.
 */
module Orders {
  import opened Wrappers
  import opened Errors
  import opened Store
  import Validator
  import Products
  import Ingredients

  datatype Order = Order(
    id: nat, orderId: Option<int>, productId: Option<int>, price: Option<real>, tableNumber: Option<int>,
    observation: Option<string>, status: Option<string>, orderedAt: int)

  datatype AdditionalRow = AdditionalRow(id: nat, ingredientId: int, orderId: int, multiplied: int, price: real)
  datatype RemovedRow = RemovedRow(id: nat, ingredientId: int, orderId: int)

  /** The tables an order touches. */
  datatype Db = Db(
    products: Table<Products.Product>, ingredients: Table<Ingredients.Ingredient>, orders: Table<Order>,
    additional: Table<AdditionalRow>, removed: Table<RemovedRow>)

  function IdOf(o: Order): nat {
    o.id
  }

  const InitialStatus: string := "pending"
  /** The column types: `observation varchar(256)`, `status varchar(10)`. */
  const ObservationLength: nat := 256
  const StatusLength: nat := 10
  const StatusConstraint: string := "orders_status_check"
  const ProductKey: string := "orders_product_id_fkey"
  const AdditionalIngredientKey: string := "additional_ingredients_ingredient_id_fkey"
  const AdditionalOrderKey: string := "additional_ingredients_order_id_fkey"
  const RemovedIngredientKey: string := "removed_ingredients_ingredient_id_fkey"
  const RemovedOrderKey: string := "removed_ingredients_order_id_fkey"

  const NotFound: Fault := NotFoundError(None, None)

  /** The five properties of `values` the INSERT reads; an absent one is NULL. */
  datatype OrderValues = OrderValues(
    orderId: Option<int>, productId: Option<int>, price: Option<real>, tableNumber: Option<int>, observation: Option<string>)

  predicate HasProduct(db: Db, id: int) {
    exists i :: 0 <= i < |db.products.rows| && db.products.rows[i].id == id
  }

  predicate HasIngredient(db: Db, id: int) {
    exists i :: 0 <= i < |db.ingredients.rows| && db.ingredients.rows[i].id == id
  }

  predicate HasOrder(db: Db, id: int) {
    exists i :: 0 <= i < |db.orders.rows| && db.orders.rows[i].id == id
  }

  /** The `integer` parameters of the insert bind: `order_id`, `product_id`, `table_number`. */
  predicate IntegersBind(values: OrderValues) {
    FitsOptInteger(values.orderId) && FitsOptInteger(values.productId) && FitsOptInteger(values.tableNumber)
  }

  /** The first `integer` parameter outside the range, in parameter order. */
  function UnboundInteger(values: OrderValues): (x: int)
    requires !IntegersBind(values)
    ensures !FitsInteger(x)
  {
    if !FitsOptInteger(values.orderId) then values.orderId.value
    else if !FitsOptInteger(values.productId) then values.productId.value
    else values.tableNumber.value
  }

  /**
   * Every value of the row fits its column: the integers bind, the price fits
   * `decimal(10, 2)` and the observation `varchar(256)`.
   */
  predicate RowFits(values: OrderValues) {
    IntegersBind(values) && FitsOptDecimal(values.price) && FitsOptVarchar(values.observation, ObservationLength)
  }

  /**
   * The row an insert of `values` stores under `id`: the price rounded to
   * cents, the observation cut to its column, status "pending".
   */
  function NewRow(id: nat, values: OrderValues, now: int): (o: Order)
    requires FitsOptVarchar(values.observation, ObservationLength)
    ensures o.id == id && o.status == Some(InitialStatus)
    ensures o.orderId == values.orderId && o.productId == values.productId && o.tableNumber == values.tableNumber
    ensures o.observation == OptVarchar(values.observation, ObservationLength) && o.orderedAt == now
    ensures o.price == OptDecimal2(values.price)
  {
    Order(id, values.orderId, values.productId, OptDecimal2(values.price), values.tableNumber,
      OptVarchar(values.observation, ObservationLength), Some(InitialStatus), now)
  }

  /**
   * `create(values)`: one order row, status "pending". The integer parameters
   * bind; while the statement is planned the price is rounded and checked and
   * the observation checked against its length; then the id is drawn, and a
   * NULL product id passes the foreign key.
   */
  function Create(db: Db, values: OrderValues, locale: Locale, now: int): (r: (Result<Order, Fault>, Db))
    ensures r.1.products == db.products && r.1.ingredients == db.ingredients
    ensures r.1.additional == db.additional && r.1.removed == db.removed
    ensures r.1.orders.last == if RowFits(values) then NextId(db.orders) else db.orders.last
    ensures r.0.Success? <==> RowFits(values) && (values.productId.None? || HasProduct(db, values.productId.value))
    ensures r.0.Success? ==>
      && r.0.value == NewRow(NextId(db.orders), values, now)
      && r.1.orders.rows == db.orders.rows + [r.0.value]
    ensures r.0.Failure? ==> r.1.orders.rows == db.orders.rows && r.0.error.DatabaseFault?
    ensures r.0.Failure? ==>
      if RowFits(values) then r.0.error == DatabaseFault(ForeignKeyError(locale, "orders", ProductKey))
      else ColumnError(r.0.error.error)
  {
    if !IntegersBind(values) then (Failure(DatabaseFault(IntegerRangeError(UnboundInteger(values)))), db)
    else if !FitsOptDecimal(values.price) then
      (Failure(DatabaseFault(NumericOverflowError())), db)
    else if !FitsOptVarchar(values.observation, ObservationLength) then
      (Failure(DatabaseFault(TooLongError(ObservationLength))), db)
    else if values.productId.Some? && !HasProduct(db, values.productId.value) then
      (Failure(DatabaseFault(ForeignKeyError(locale, "orders", ProductKey))), db.(orders := Consume(db.orders)))
    else
      var row := NewRow(NextId(db.orders), values, now);
      (Success(row), db.(orders := Append(db.orders, row)))
  }

  /** One entry of `additional_ingredients` in a validated order body. */
  datatype Extra = Extra(ingredientId: int, multiplied: int, price: real)

  /** The two optional lists `setIngredients` reads; an absent list inserts nothing. */
  datatype Customisation = Customisation(additional: Option<seq<Extra>>, removed: Option<seq<int>>)

  /**
   * The values of one extra fit their columns: `ingredient_id` and
   * `multiplied` bind as `integer`, the price fits `decimal(10, 2)`. The
   * `order_id` parameter is the id the orders sequence just issued.
   */
  predicate ExtraFits(e: Extra) {
    FitsInteger(e.ingredientId) && FitsInteger(e.multiplied) && FitsDecimal(e.price)
  }

  /** The link row an extra is stored as: its price rounded to cents. */
  function ExtraRow(id: nat, orderId: int, e: Extra): AdditionalRow {
    AdditionalRow(id, e.ingredientId, orderId, e.multiplied, Decimal2(e.price))
  }

  /**
   * One INSERT into `additional_ingredients`, checked against the referenced
   * tables in `db`: the integer parameters bind, the price is checked while
   * the statement is planned, the id is drawn, then the ingredient key is
   * checked before the order key.
   */
  function InsertExtra(db: Db, t: Table<AdditionalRow>, orderId: int, e: Extra, locale: Locale): (r: (Result<(), Fault>, Table<AdditionalRow>))
    ensures r.1.last == if ExtraFits(e) then NextId(t) else t.last
    ensures r.0.Success? <==> ExtraFits(e) && HasIngredient(db, e.ingredientId) && HasOrder(db, orderId)
    ensures r.0.Success? ==> r.1.rows == t.rows + [ExtraRow(NextId(t), orderId, e)]
    ensures r.0.Failure? ==> r.1.rows == t.rows && r.0.error.DatabaseFault?
    ensures r.0.Failure? ==>
      if ExtraFits(e) then r.0.error == DatabaseFault(ForeignKeyError(locale, "additional_ingredients",
        if HasIngredient(db, e.ingredientId) then AdditionalOrderKey else AdditionalIngredientKey))
      else ColumnError(r.0.error.error)
  {
    if !FitsInteger(e.ingredientId) then (Failure(DatabaseFault(IntegerRangeError(e.ingredientId))), t)
    else if !FitsInteger(e.multiplied) then (Failure(DatabaseFault(IntegerRangeError(e.multiplied))), t)
    else if !FitsDecimal(e.price) then (Failure(DatabaseFault(NumericOverflowError())), t)
    else if !HasIngredient(db, e.ingredientId) then
      (Failure(DatabaseFault(ForeignKeyError(locale, "additional_ingredients", AdditionalIngredientKey))), Consume(t))
    else if !HasOrder(db, orderId) then
      (Failure(DatabaseFault(ForeignKeyError(locale, "additional_ingredients", AdditionalOrderKey))), Consume(t))
    else
      (Success(()), Append(t, ExtraRow(NextId(t), orderId, e)))
  }

  /** One INSERT into `removed_ingredients`: `ingredient_id` binds, the id is drawn, then the two keys. */
  function InsertRemoved(db: Db, t: Table<RemovedRow>, orderId: int, ingredientId: int, locale: Locale): (r: (Result<(), Fault>, Table<RemovedRow>))
    ensures r.1.last == if FitsInteger(ingredientId) then NextId(t) else t.last
    ensures r.0.Success? <==> FitsInteger(ingredientId) && HasIngredient(db, ingredientId) && HasOrder(db, orderId)
    ensures r.0.Success? ==> r.1.rows == t.rows + [RemovedRow(NextId(t), ingredientId, orderId)]
    ensures r.0.Failure? ==> r.1.rows == t.rows
    ensures r.0.Failure? ==>
      if FitsInteger(ingredientId) then r.0.error == DatabaseFault(ForeignKeyError(locale, "removed_ingredients",
        if HasIngredient(db, ingredientId) then RemovedOrderKey else RemovedIngredientKey))
      else r.0.error == DatabaseFault(IntegerRangeError(ingredientId))
  {
    if !FitsInteger(ingredientId) then (Failure(DatabaseFault(IntegerRangeError(ingredientId))), t)
    else if !HasIngredient(db, ingredientId) then
      (Failure(DatabaseFault(ForeignKeyError(locale, "removed_ingredients", RemovedIngredientKey))), Consume(t))
    else if !HasOrder(db, orderId) then
      (Failure(DatabaseFault(ForeignKeyError(locale, "removed_ingredients", RemovedOrderKey))), Consume(t))
    else
      (Success(()), Append(t, RemovedRow(NextId(t), ingredientId, orderId)))
  }

  /** The rows a run of successful extra inserts appends, from the given first id. */
  function ExtraRows(first: nat, orderId: int, extras: seq<Extra>): (rows: seq<AdditionalRow>)
    ensures |rows| == |extras|
    ensures forall i :: 0 <= i < |extras| ==> rows[i] == ExtraRow(first + i, orderId, extras[i])
    decreases |extras|
  {
    if |extras| == 0 then [] else [ExtraRow(first, orderId, extras[0])] + ExtraRows(first + 1, orderId, extras[1..])
  }

  function RemovedRows(first: nat, orderId: int, ids: seq<int>): (rows: seq<RemovedRow>)
    ensures |rows| == |ids|
    ensures forall i :: 0 <= i < |ids| ==> rows[i] == RemovedRow(first + i, ids[i], orderId)
    decreases |ids|
  {
    if |ids| == 0 then [] else [RemovedRow(first, ids[0], orderId)] + RemovedRows(first + 1, orderId, ids[1..])
  }

  /** Every extra of a list fits its columns. */
  predicate ExtrasFit(extras: seq<Extra>) {
    forall i :: 0 <= i < |extras| ==> ExtraFits(extras[i])
  }

  /** Whether every insert of a list passes its foreign keys. */
  predicate Linkable(db: Db, orderId: int, ingredientIds: seq<int>) {
    (|ingredientIds| == 0 || HasOrder(db, orderId))
      && forall i :: 0 <= i < |ingredientIds| ==> HasIngredient(db, ingredientIds[i])
  }

  /** A list is linkable exactly when its head is and its tail is. */
  lemma LinkableCons(db: Db, orderId: int, ids: seq<int>)
    requires |ids| > 0
    ensures Linkable(db, orderId, ids) <==>
      HasIngredient(db, ids[0]) && HasOrder(db, orderId) && Linkable(db, orderId, ids[1..])
  {
    if HasIngredient(db, ids[0]) && Linkable(db, orderId, ids[1..]) {
      assert forall i :: 1 <= i < |ids| ==> ids[i] == ids[1..][i - 1];
    }
  }

  /** A list fits exactly when its head does and its tail does. */
  lemma ExtrasFitCons(extras: seq<Extra>)
    requires |extras| > 0
    ensures ExtrasFit(extras) <==> ExtraFits(extras[0]) && ExtrasFit(extras[1..])
  {
    if ExtraFits(extras[0]) && ExtrasFit(extras[1..]) {
      assert forall i :: 1 <= i < |extras| ==> extras[i] == extras[1..][i - 1];
    }
  }

  lemma AllFitIntegerCons(ids: seq<int>)
    requires |ids| > 0
    ensures AllFitInteger(ids) <==> FitsInteger(ids[0]) && AllFitInteger(ids[1..])
  {
    if FitsInteger(ids[0]) && AllFitInteger(ids[1..]) {
      assert forall i :: 1 <= i < |ids| ==> ids[i] == ids[1..][i - 1];
    }
  }

  /** Every insert of the additional list passes: the values fit and the keys hold. */
  predicate ExtrasInsertable(db: Db, orderId: int, extras: seq<Extra>) {
    Linkable(db, orderId, IngredientIds(extras)) && ExtrasFit(extras)
  }

  /** The additional list is insertable exactly when its head is and its tail is. */
  lemma ExtrasInsertableCons(db: Db, orderId: int, extras: seq<Extra>)
    requires |extras| > 0
    ensures ExtrasInsertable(db, orderId, extras) <==>
      ExtraFits(extras[0]) && HasIngredient(db, extras[0].ingredientId) && HasOrder(db, orderId)
        && ExtrasInsertable(db, orderId, extras[1..])
  {
    assert IngredientIds(extras[1..]) == IngredientIds(extras)[1..];
    LinkableCons(db, orderId, IngredientIds(extras));
    ExtrasFitCons(extras);
  }

  /** Every insert of the removed list passes. */
  predicate RemovedInsertable(db: Db, orderId: int, ids: seq<int>) {
    Linkable(db, orderId, ids) && AllFitInteger(ids)
  }

  function IngredientIds(extras: seq<Extra>): (ids: seq<int>)
    ensures |ids| == |extras|
    ensures forall i :: 0 <= i < |extras| ==> ids[i] == extras[i].ingredientId
  {
    seq(|extras|, i requires 0 <= i < |extras| => extras[i].ingredientId)
  }

  /**
   * What a failed run over the additional list reports: a missing ingredient
   * (the list is not linkable), a missing order, or a value that does not
   * fit its column.
   */
  predicate ExtrasFailure(db: Db, orderId: int, extras: seq<Extra>, locale: Locale, e: Fault) {
    || (!Linkable(db, orderId, IngredientIds(extras))
         && e == DatabaseFault(ForeignKeyError(locale, "additional_ingredients", AdditionalIngredientKey)))
    || (!HasOrder(db, orderId) && e == DatabaseFault(ForeignKeyError(locale, "additional_ingredients", AdditionalOrderKey)))
    || (!ExtrasFit(extras) && e.DatabaseFault? && ColumnError(e.error))
  }

  /** A failing first insert is a failure of the whole list. */
  lemma ExtrasHeadFailure(db: Db, t: Table<AdditionalRow>, orderId: int, extras: seq<Extra>, locale: Locale)
    requires |extras| > 0 && InsertExtra(db, t, orderId, extras[0], locale).0.Failure?
    ensures ExtrasFailure(db, orderId, extras, locale, InsertExtra(db, t, orderId, extras[0], locale).0.error)
  {
    assert IngredientIds(extras)[0] == extras[0].ingredientId;
    assert !ExtraFits(extras[0]) ==> !ExtrasFit(extras);
  }

  /** After a passing first insert, a failure of the rest is a failure of the whole list. */
  lemma ExtrasTailFailure(db: Db, orderId: int, extras: seq<Extra>, locale: Locale)
    requires |extras| > 0
    ensures forall e :: ExtrasFailure(db, orderId, extras[1..], locale, e) ==> ExtrasFailure(db, orderId, extras, locale, e)
  {
    assert IngredientIds(extras[1..]) == IngredientIds(extras)[1..];
    LinkableCons(db, orderId, IngredientIds(extras));
    ExtrasFitCons(extras);
  }

  /** The rows of the first extra followed by those of the rest are the rows of the whole list. */
  lemma ExtraRowsAfter(t: Table<AdditionalRow>, t1: Table<AdditionalRow>, u: Table<AdditionalRow>, orderId: int, extras: seq<Extra>)
    requires |extras| > 0
    requires t1.rows == t.rows + [ExtraRow(NextId(t), orderId, extras[0])] && t1.last == NextId(t)
    requires u.rows == t1.rows + ExtraRows(NextId(t1), orderId, extras[1..])
    ensures u.rows == t.rows + ExtraRows(NextId(t), orderId, extras)
  {
  }

  /** A table that extends an extension of `t` extends `t`. */
  lemma PrefixAfter<R>(t: Table<R>, t1: Table<R>, u: Table<R>)
    requires |t.rows| <= |t1.rows| && t1.rows[..|t.rows|] == t.rows
    requires |t1.rows| <= |u.rows| && u.rows[..|t1.rows|] == t1.rows
    ensures |t.rows| <= |u.rows| && u.rows[..|t.rows|] == t.rows
  {
    assert u.rows[..|t.rows|] == t1.rows[..|t.rows|];
  }

  /** The queries of one list, awaited one after another; the first failure stops the rest. */
  function InsertExtras(db: Db, t: Table<AdditionalRow>, orderId: int, extras: seq<Extra>, locale: Locale): (r: (Result<(), Fault>, Table<AdditionalRow>))
    ensures r.0.Success? <==> ExtrasInsertable(db, orderId, extras)
    ensures r.0.Success? ==> r.1.rows == t.rows + ExtraRows(NextId(t), orderId, extras)
    ensures r.0.Failure? ==> |t.rows| <= |r.1.rows| && r.1.rows[..|t.rows|] == t.rows
    ensures r.0.Failure? ==> ExtrasFailure(db, orderId, extras, locale, r.0.error)
    decreases |extras|
  {
    if |extras| == 0 then (Success(()), t)
    else
      var head := InsertExtra(db, t, orderId, extras[0], locale);
      ExtrasInsertableCons(db, orderId, extras);
      if head.0.Failure? then
        ExtrasHeadFailure(db, t, orderId, extras, locale);
        head
      else
        var t1 := head.1;
        var rest := InsertExtras(db, t1, orderId, extras[1..], locale);
        ExtrasTailFailure(db, orderId, extras, locale);
        if rest.0.Success? then
          ExtraRowsAfter(t, t1, rest.1, orderId, extras);
          rest
        else
          PrefixAfter(t, t1, rest.1);
          rest
  }

  function InsertRemovedAll(db: Db, t: Table<RemovedRow>, orderId: int, ids: seq<int>, locale: Locale): (r: (Result<(), Fault>, Table<RemovedRow>))
    ensures r.0.Success? <==> RemovedInsertable(db, orderId, ids)
    ensures r.0.Success? ==> r.1.rows == t.rows + RemovedRows(NextId(t), orderId, ids)
    ensures r.0.Failure? ==> |t.rows| <= |r.1.rows| && r.1.rows[..|t.rows|] == t.rows
    ensures r.0.Failure? ==>
      || (!Linkable(db, orderId, ids) && r.0.error == DatabaseFault(ForeignKeyError(locale, "removed_ingredients", RemovedIngredientKey)))
      || (!HasOrder(db, orderId) && r.0.error == DatabaseFault(ForeignKeyError(locale, "removed_ingredients", RemovedOrderKey)))
      || (!AllFitInteger(ids) && r.0.error.DatabaseFault? && ColumnError(r.0.error.error))
    decreases |ids|
  {
    if |ids| == 0 then (Success(()), t)
    else
      var head := InsertRemoved(db, t, orderId, ids[0], locale);
      LinkableCons(db, orderId, ids);
      AllFitIntegerCons(ids);
      if head.0.Failure? then head
      else
        var t1 := head.1;
        var rest := InsertRemovedAll(db, t1, orderId, ids[1..], locale);
        assert t1.rows[..|t.rows|] == t.rows;
        assert rest.0.Success? ==>
          RemovedRows(NextId(t), orderId, ids) == [t1.rows[|t.rows|]] + RemovedRows(NextId(t1), orderId, ids[1..]);
        rest
  }

  /** `setIngredients(id, values)`: the additional list first, then the removed list. */
  function SetIngredients(db: Db, orderId: int, c: Customisation, locale: Locale): (r: (Result<(), Fault>, Db))
    ensures r.1.products == db.products && r.1.ingredients == db.ingredients && r.1.orders == db.orders
    ensures c.additional.None? && c.removed.None? ==> r == (Success(()), db)
    ensures r.0.Success? <==>
      ExtrasInsertable(db, orderId, c.additional.GetOr([])) && RemovedInsertable(db, orderId, c.removed.GetOr([]))
    ensures r.0.Success? ==>
      && r.1.additional.rows == db.additional.rows + ExtraRows(NextId(db.additional), orderId, c.additional.GetOr([]))
      && r.1.removed.rows == db.removed.rows + RemovedRows(NextId(db.removed), orderId, c.removed.GetOr([]))
    ensures r.0.Failure? ==>
      && |db.additional.rows| <= |r.1.additional.rows| && r.1.additional.rows[..|db.additional.rows|] == db.additional.rows
      && |db.removed.rows| <= |r.1.removed.rows| && r.1.removed.rows[..|db.removed.rows|] == db.removed.rows
    ensures r.0.Failure? && HasOrder(db, orderId) ==>
      if !ExtrasInsertable(db, orderId, c.additional.GetOr([])) then
        || (!Linkable(db, orderId, IngredientIds(c.additional.GetOr([])))
             && r.0.error == DatabaseFault(ForeignKeyError(locale, "additional_ingredients", AdditionalIngredientKey)))
        || (!ExtrasFit(c.additional.GetOr([])) && r.0.error.DatabaseFault? && ColumnError(r.0.error.error))
      else
        || (!Linkable(db, orderId, c.removed.GetOr([]))
             && r.0.error == DatabaseFault(ForeignKeyError(locale, "removed_ingredients", RemovedIngredientKey)))
        || (!AllFitInteger(c.removed.GetOr([])) && r.0.error.DatabaseFault? && ColumnError(r.0.error.error))
  {
    var (first, additional) := InsertExtras(db, db.additional, orderId, c.additional.GetOr([]), locale);
    if first.Failure? then (first, db.(additional := additional))
    else
      var (second, removed) := InsertRemovedAll(db, db.removed, orderId, c.removed.GetOr([]), locale);
      (second, db.(additional := additional, removed := removed))
  }

  // ---------------------------------------------------------------------------
  // Reading orders back
  // ---------------------------------------------------------------------------

  datatype ProductBrief = ProductBrief(name: string, price: real)
  datatype ExtraBrief = ExtraBrief(name: string, multiplied: int, price: real)

  /** An order row with its `json_agg` columns; an aggregate over no rows is `[]`. */
  datatype OrderView = OrderView(order: Order, product: seq<ProductBrief>, additional: seq<ExtraBrief>, removed: seq<string>)

  /** `SELECT json_agg(... name, price) FROM products p WHERE p.id = o.product_id`. */
  function ProductsOf(products: seq<Products.Product>, o: Order): (r: seq<ProductBrief>)
    ensures |r| <= |products|
    ensures forall b :: b in r ==> exists p :: p in products && Some(p.id as int) == o.productId && b == ProductBrief(p.name, p.price)
  {
    if |products| == 0 then []
    else
      (if Some(products[0].id as int) == o.productId then [ProductBrief(products[0].name, products[0].price)] else [])
        + ProductsOf(products[1..], o)
  }

  /** The names of the ingredients with a given id (the `JOIN ingredients i ON i.id = ...`). */
  function NamesWithId(ingredients: seq<Ingredients.Ingredient>, id: int): (r: seq<string>)
    ensures forall n :: n in r ==> exists g :: g in ingredients && g.id == id && g.name == n
  {
    if |ingredients| == 0 then []
    else (if ingredients[0].id == id then [ingredients[0].name] else []) + NamesWithId(ingredients[1..], id)
  }

  /** Whether some ingredient with that id carries that name. */
  predicate Names(ingredients: seq<Ingredients.Ingredient>, id: int, name: string) {
    exists g :: g in ingredients && g.id == id && g.name == name
  }

  /** One link row's `json_build_object(...)` for each ingredient name it joins to. */
  function BriefsFor(a: AdditionalRow, names: seq<string>): (r: seq<ExtraBrief>)
    ensures forall e :: e in r ==> e.multiplied == a.multiplied && e.price == a.price && e.name in names
  {
    if |names| == 0 then [] else [ExtraBrief(names[0], a.multiplied, a.price)] + BriefsFor(a, names[1..])
  }

  /** `additional_ingredients ai JOIN ingredients i ... WHERE ai.order_id = o.id`. */
  function ExtrasOf(links: seq<AdditionalRow>, ingredients: seq<Ingredients.Ingredient>, o: Order): (r: seq<ExtraBrief>)
    ensures forall e :: e in r ==>
      exists a :: a in links && a.orderId == o.id && a.multiplied == e.multiplied && a.price == e.price && Names(ingredients, a.ingredientId, e.name)
  {
    if |links| == 0 then []
    else
      var a := links[0];
      (if a.orderId == o.id then BriefsFor(a, NamesWithId(ingredients, a.ingredientId)) else [])
        + ExtrasOf(links[1..], ingredients, o)
  }

  /** `removed_ingredients r JOIN ingredients ri ... WHERE r.order_id = o.id`. */
  function RemovedOf(links: seq<RemovedRow>, ingredients: seq<Ingredients.Ingredient>, o: Order): (r: seq<string>)
    ensures forall n :: n in r ==> exists x :: x in links && x.orderId == o.id && Names(ingredients, x.ingredientId, n)
  {
    if |links| == 0 then []
    else
      var x := links[0];
      (if x.orderId == o.id then NamesWithId(ingredients, x.ingredientId) else []) + RemovedOf(links[1..], ingredients, o)
  }

  function View(db: Db, o: Order): OrderView {
    OrderView(o, ProductsOf(db.products.rows, o), ExtrasOf(db.additional.rows, db.ingredients.rows, o),
      RemovedOf(db.removed.rows, db.ingredients.rows, o))
  }

  function Views(db: Db, orders: seq<Order>): (r: seq<OrderView>)
    ensures |r| == |orders|
    ensures forall i :: 0 <= i < |orders| ==> r[i] == View(db, orders[i])
  {
    if |orders| == 0 then [] else [View(db, orders[0])] + Views(db, orders[1..])
  }

  /** `listByStatus(status)`: `WHERE o.status = ANY($1)`; a NULL status matches nothing. */
  function ListByStatus(db: Db, statuses: seq<string>): (r: seq<OrderView>)
    ensures forall v :: v in r ==> v.order in db.orders.rows && v.order.status.Some? && v.order.status.value in statuses
    ensures forall o :: o in db.orders.rows && o.status.Some? && o.status.value in statuses ==> exists v :: v in r && v.order == o
    ensures forall v :: v in r ==> v == View(db, v.order)
    ensures |statuses| == 0 ==> r == []
  {
    var chosen := Where(db.orders.rows, (o: Order) => o.status.Some? && o.status.value in statuses);
    assert |statuses| == 0 ==> chosen == [] by {
      if |statuses| == 0 {
        WhereNone(db.orders.rows, (o: Order) => o.status.Some? && o.status.value in statuses);
      }
    }
    var r := Views(db, chosen);
    assert forall o :: o in chosen ==> exists i :: 0 <= i < |chosen| && chosen[i] == o && r[i].order == o;
    r
  }

  /** The `findById` row: the order with its additional and removed aggregates. */
  datatype OrderDetail = OrderDetail(order: Order, additional: seq<ExtraBrief>, removed: seq<string>)

  function FindById(db: Db, id: int): (r: Result<OrderDetail, Fault>)
    ensures r.Success? <==> HasOrder(db, id)
    ensures r.Success? ==> r.value.order in db.orders.rows && r.value.order.id == id
    ensures r.Failure? ==> r.error == NotFound
  {
    match First(db.orders.rows, (o: Order) => o.id == id)
    case None => Failure(NotFound)
    case Some(o) =>
      Success(OrderDetail(o, ExtrasOf(db.additional.rows, db.ingredients.rows, o), RemovedOf(db.removed.rows, db.ingredients.rows, o)))
  }

  /**
   * `setStatus(orderId, status)`: `status[0]` (NULL for an empty list) into
   * every row of the batch `order_id`. A status longer than its `varchar(10)`
   * fails while the statement is planned, whatever the batch; otherwise an
   * empty batch is NotFound, and the CHECK constraint runs on the stored status.
   */
  function SetStatus(db: Db, orderId: int, statuses: seq<string>): (r: (Result<Order, Fault>, Db))
    ensures r.1.products == db.products && r.1.ingredients == db.ingredients
    ensures r.1.additional == db.additional && r.1.removed == db.removed
    ensures r.1.orders.last == db.orders.last && |r.1.orders.rows| == |db.orders.rows|
    ensures |statuses| > 0 && !FitsVarchar(statuses[0], StatusLength) ==> r == (Failure(DatabaseFault(TooLongError(StatusLength))), db)
    ensures (|statuses| == 0 || FitsVarchar(statuses[0], StatusLength))
      && (forall i :: 0 <= i < |db.orders.rows| ==> db.orders.rows[i].orderId != Some(orderId))
      ==> r == (Failure(NotFound), db)
    ensures r.0.Failure? ==> r.1 == db
    ensures (exists i :: 0 <= i < |db.orders.rows| && db.orders.rows[i].orderId == Some(orderId)) ==>
      (r.0.Success? <==> |statuses| == 0 || statuses[0] in Validator.OrderStatuses)
    ensures r.0.Success? ==>
      && (|statuses| == 0 || statuses[0] in Validator.OrderStatuses)
      && r.0.value.orderId == Some(orderId)
      && forall i :: 0 <= i < |db.orders.rows| ==>
        r.1.orders.rows[i] == (if db.orders.rows[i].orderId == Some(orderId)
          then db.orders.rows[i].(status := if |statuses| == 0 then None else Some(statuses[0]))
          else db.orders.rows[i])
  {
    ShortMembers(if |statuses| == 0 then "" else statuses[0], StatusLength, Validator.OrderStatuses);
    var p := (o: Order) => o.orderId == Some(orderId);
    if |statuses| > 0 && !FitsVarchar(statuses[0], StatusLength) then
      (Failure(DatabaseFault(TooLongError(StatusLength))), db)
    else if !Matches(db.orders.rows, p) then (Failure(NotFound), db)
    else
      var status := if |statuses| == 0 then None else Some(Varchar(statuses[0], StatusLength));
      if status.Some? && status.value !in Validator.OrderStatuses then
        (Failure(DatabaseFault(CheckError("orders", StatusConstraint))), db)
      else
        var w := WriteStatus(db, orderId, status);
        (Success(w.0), w.1)
  }

  /**
   * The `UPDATE` of a batch that has rows: every row of the batch gets the
   * status, no other row changes, and the first updated row is returned.
   */
  function WriteStatus(db: Db, orderId: int, status: Option<string>): (r: (Order, Db))
    requires exists i :: 0 <= i < |db.orders.rows| && db.orders.rows[i].orderId == Some(orderId)
    ensures r.0.orderId == Some(orderId) && r.0.status == status
    ensures r.1 == db.(orders := db.orders.(rows := r.1.orders.rows))
    ensures |r.1.orders.rows| == |db.orders.rows|
    ensures forall i :: 0 <= i < |db.orders.rows| ==>
      r.1.orders.rows[i] == (if db.orders.rows[i].orderId == Some(orderId) then db.orders.rows[i].(status := status) else db.orders.rows[i])
  {
    var p := (o: Order) => o.orderId == Some(orderId);
    var f := (o: Order) => o.(status := status);
    var rows := UpdateWhere(db.orders.rows, p, f);
    var updated := Updated(db.orders.rows, p, f);
    assert |updated| > 0 by {
      var i :| 0 <= i < |db.orders.rows| && p(db.orders.rows[i]);
      assert f(db.orders.rows[i]) in updated;
    }
    assert updated[0] in updated;
    (updated[0], db.(orders := db.orders.(rows := rows)))
  }

  // ---------------------------------------------------------------------------
  // Properties
  // ---------------------------------------------------------------------------

  /** The status CHECK constraint: a stored status is NULL or one of the order statuses. */
  predicate Checked(t: Table<Order>) {
    forall i :: 0 <= i < |t.rows| ==> t.rows[i].status.None? || t.rows[i].status.value in Validator.OrderStatuses
  }

  /** The foreign keys of both link tables: every link names a stored order and a stored ingredient. */
  predicate Linked(db: Db) {
    && (forall i :: 0 <= i < |db.additional.rows| ==>
         HasOrder(db, db.additional.rows[i].orderId) && HasIngredient(db, db.additional.rows[i].ingredientId))
    && (forall i :: 0 <= i < |db.removed.rows| ==>
         HasOrder(db, db.removed.rows[i].orderId) && HasIngredient(db, db.removed.rows[i].ingredientId))
  }

  /** What the schema guarantees of a committed state. */
  predicate Valid(db: Db) {
    Keyed(db.orders, IdOf) && Keyed(db.ingredients, Ingredients.IdOf) && Checked(db.orders) && Linked(db)
  }

  /** No link row names the order yet. */
  predicate Unlinked(db: Db, id: int) {
    && (forall i :: 0 <= i < |db.additional.rows| ==> db.additional.rows[i].orderId != id)
    && (forall i :: 0 <= i < |db.removed.rows| ==> db.removed.rows[i].orderId != id)
  }

  lemma CreateKeepsValid(db: Db, values: OrderValues, locale: Locale, now: int)
    requires Valid(db)
    ensures Valid(Create(db, values, locale, now).1)
  {
    var r := Create(db, values, locale, now);
    if r.0.Success? {
      CreateKeepsValidOnSuccess(db, r.0.value, r.1);
    }
  }

  /** Appending one order row with the next id and status "pending" keeps every constraint. */
  lemma CreateKeepsValidOnSuccess(db: Db, o: Order, u: Db)
    requires Valid(db)
    requires o.id == NextId(db.orders) && o.status == Some(InitialStatus)
    requires u == db.(orders := Append(db.orders, o))
    ensures Valid(u)
  {
    AppendKeyed(db.orders, IdOf, o);
    forall k | HasOrder(db, k)
      ensures HasOrder(u, k)
    {
      var i :| 0 <= i < |db.orders.rows| && db.orders.rows[i].id == k;
      assert u.orders.rows[i] == db.orders.rows[i];
    }
    assert u.orders.rows[|db.orders.rows|] == o;
  }

  /** A successful setIngredients adds only links whose foreign keys hold. */
  lemma SetIngredientsKeepsValid(db: Db, orderId: int, c: Customisation, locale: Locale)
    requires Valid(db)
    ensures var r := SetIngredients(db, orderId, c, locale);
      r.0.Success? ==> Valid(r.1)
  {
    var r := SetIngredients(db, orderId, c, locale);
    if r.0.Success? {
      var extras := c.additional.GetOr([]);
      var ids := c.removed.GetOr([]);
      var n := |db.additional.rows|;
      forall i | 0 <= i < |r.1.additional.rows|
        ensures HasOrder(r.1, r.1.additional.rows[i].orderId) && HasIngredient(r.1, r.1.additional.rows[i].ingredientId)
      {
        if i >= n {
          assert IngredientIds(extras)[i - n] == extras[i - n].ingredientId;
        }
      }
      var m := |db.removed.rows|;
      forall i | 0 <= i < |r.1.removed.rows|
        ensures HasOrder(r.1, r.1.removed.rows[i].orderId) && HasIngredient(r.1, r.1.removed.rows[i].ingredientId)
      {
      }
    }
  }

  /** Rewriting the order rows without changing any id, into rows that keep the status CHECK, keeps a valid state valid. */
  lemma SameIdsKeepValid(db: Db, orders: Table<Order>)
    requires Valid(db)
    requires orders.last == db.orders.last && |orders.rows| == |db.orders.rows|
    requires forall i :: 0 <= i < |db.orders.rows| ==> orders.rows[i].id == db.orders.rows[i].id
    requires Checked(orders)
    ensures Valid(db.(orders := orders))
  {
    var u := db.(orders := orders);
    SameIdsKeyed(db.orders, orders, IdOf);
    forall k
      ensures HasOrder(u, k) == HasOrder(db, k)
    {
      if HasOrder(db, k) {
        var i :| 0 <= i < |db.orders.rows| && db.orders.rows[i].id == k;
        assert u.orders.rows[i].id == k;
      }
    }
  }

  lemma SetStatusKeepsValid(db: Db, orderId: int, statuses: seq<string>)
    requires Valid(db)
    ensures Valid(SetStatus(db, orderId, statuses).1)
  {
    var r := SetStatus(db, orderId, statuses);
    if r.0.Success? {
      assert r.1 == db.(orders := r.1.orders);
      assert Checked(r.1.orders) by {
        forall i | 0 <= i < |r.1.orders.rows|
          ensures r.1.orders.rows[i].status.None? || r.1.orders.rows[i].status.value in Validator.OrderStatuses
        {
          assert db.orders.rows[i].status.None? || db.orders.rows[i].status.value in Validator.OrderStatuses;
        }
      }
      SameIdsKeepValid(db, r.1.orders);
    }
  }


  /** In a valid state no link names the id the orders sequence issues next. */
  lemma NextIdUnlinked(db: Db)
    requires Valid(db)
    ensures Unlinked(db, NextId(db.orders))
  {
  }

  lemma {:induction false} ExtrasOfNone(links: seq<AdditionalRow>, ingredients: seq<Ingredients.Ingredient>, o: Order)
    requires forall i :: 0 <= i < |links| ==> links[i].orderId != o.id
    ensures ExtrasOf(links, ingredients, o) == []
    decreases |links|
  {
    if |links| > 0 {
      ExtrasOfNone(links[1..], ingredients, o);
    }
  }

  lemma {:induction false} RemovedOfNone(links: seq<RemovedRow>, ingredients: seq<Ingredients.Ingredient>, o: Order)
    requires forall i :: 0 <= i < |links| ==> links[i].orderId != o.id
    ensures RemovedOf(links, ingredients, o) == []
    decreases |links|
  {
    if |links| > 0 {
      RemovedOfNone(links[1..], ingredients, o);
    }
  }

  /** A new order reads back with its product columns and no customisation. */
  lemma CreateThenFind(db: Db, values: OrderValues, locale: Locale, now: int)
    requires Valid(db)
    ensures var r := Create(db, values, locale, now);
      r.0.Success? ==>
        && Unlinked(r.1, r.0.value.id)
        && FindById(r.1, r.0.value.id) == Success(OrderDetail(r.0.value, [], []))
  {
    var r := Create(db, values, locale, now);
    if r.0.Success? {
      CreateKeepsValid(db, values, locale, now);
      NextIdUnlinked(db);
      assert r.1.orders.rows[|db.orders.rows|] == r.0.value;
      FirstKeyed(r.1.orders, IdOf, (o: Order) => o.id == r.0.value.id, r.0.value.id, |db.orders.rows|);
      ExtrasOfNone(r.1.additional.rows, r.1.ingredients.rows, r.0.value);
      RemovedOfNone(r.1.removed.rows, r.1.ingredients.rows, r.0.value);
    }
  }

  /** The name the ingredients module's findById reports for an id, or "" when there is none. */
  function NameOf(ingredients: Table<Ingredients.Ingredient>, id: int): string {
    match Ingredients.FindById(ingredients, id)
    case Success(g) => g.name
    case Failure(_) => ""
  }

  /** The `additional_ingredients` aggregate an order placed with `extras` should read back. */
  function Briefs(ingredients: Table<Ingredients.Ingredient>, extras: seq<Extra>): (r: seq<ExtraBrief>)
    ensures |r| == |extras|
    ensures forall i :: 0 <= i < |extras| ==>
      r[i] == ExtraBrief(NameOf(ingredients, extras[i].ingredientId), extras[i].multiplied, Decimal2(extras[i].price))
  {
    if |extras| == 0 then []
    else
      [ExtraBrief(NameOf(ingredients, extras[0].ingredientId), extras[0].multiplied, Decimal2(extras[0].price))]
        + Briefs(ingredients, extras[1..])
  }

  /** The `removed_ingredients` aggregate an order placed with `ids` should read back. */
  function RemovedNames(ingredients: Table<Ingredients.Ingredient>, ids: seq<int>): (r: seq<string>)
    ensures |r| == |ids|
    ensures forall i :: 0 <= i < |ids| ==> r[i] == NameOf(ingredients, ids[i])
  {
    if |ids| == 0 then [] else [NameOf(ingredients, ids[0])] + RemovedNames(ingredients, ids[1..])
  }

  lemma {:induction false} NamesWithIdNone(rows: seq<Ingredients.Ingredient>, id: int)
    requires forall j :: 0 <= j < |rows| ==> rows[j].id != id
    ensures NamesWithId(rows, id) == []
    decreases |rows|
  {
    if |rows| > 0 {
      NamesWithIdNone(rows[1..], id);
    }
  }

  lemma {:induction false} NamesWithIdOnly(rows: seq<Ingredients.Ingredient>, id: int, k: nat)
    requires k < |rows| && rows[k].id == id
    requires forall j :: 0 <= j < |rows| && j != k ==> rows[j].id != id
    ensures NamesWithId(rows, id) == [rows[k].name]
    decreases |rows|
  {
    if k == 0 {
      NamesWithIdNone(rows[1..], id);
    } else {
      NamesWithIdOnly(rows[1..], id, k - 1);
    }
  }

  /** In a keyed ingredients table the join on an existing id yields exactly that ingredient's name. */
  lemma JoinKeyed(db: Db, id: int)
    requires Keyed(db.ingredients, Ingredients.IdOf) && HasIngredient(db, id)
    ensures NamesWithId(db.ingredients.rows, id) == [NameOf(db.ingredients, id)]
  {
    var t := db.ingredients;
    var k :| 0 <= k < |t.rows| && t.rows[k].id == id;
    Ingredients.FindByIdExact(t, k);
    KeyedOthers(t, Ingredients.IdOf, k);
    NamesWithIdOnly(t.rows, id, k);
  }

  lemma {:induction false} ExtrasOfAppend(a: seq<AdditionalRow>, b: seq<AdditionalRow>, ingredients: seq<Ingredients.Ingredient>, o: Order)
    ensures ExtrasOf(a + b, ingredients, o) == ExtrasOf(a, ingredients, o) + ExtrasOf(b, ingredients, o)
    decreases |a|
  {
    if |a| == 0 {
      assert a + b == b;
    } else {
      assert (a + b)[1..] == a[1..] + b;
      ExtrasOfAppend(a[1..], b, ingredients, o);
    }
  }

  lemma {:induction false} RemovedOfAppend(a: seq<RemovedRow>, b: seq<RemovedRow>, ingredients: seq<Ingredients.Ingredient>, o: Order)
    ensures RemovedOf(a + b, ingredients, o) == RemovedOf(a, ingredients, o) + RemovedOf(b, ingredients, o)
    decreases |a|
  {
    if |a| == 0 {
      assert a + b == b;
    } else {
      assert (a + b)[1..] == a[1..] + b;
      RemovedOfAppend(a[1..], b, ingredients, o);
    }
  }

  /** The links inserted for one order aggregate back to the requested extras, in request order. */
  lemma {:induction false} ExtrasOfPlaced(db: Db, first: nat, o: Order, extras: seq<Extra>)
    requires Keyed(db.ingredients, Ingredients.IdOf)
    requires forall i :: 0 <= i < |extras| ==> HasIngredient(db, extras[i].ingredientId)
    ensures ExtrasOf(ExtraRows(first, o.id, extras), db.ingredients.rows, o) == Briefs(db.ingredients, extras)
    decreases |extras|
  {
    if |extras| > 0 {
      var rows := ExtraRows(first, o.id, extras);
      var name := NameOf(db.ingredients, extras[0].ingredientId);
      assert rows[1..] == ExtraRows(first + 1, o.id, extras[1..]);
      JoinKeyed(db, extras[0].ingredientId);
      assert BriefsFor(rows[0], [name]) == [ExtraBrief(name, extras[0].multiplied, Decimal2(extras[0].price))];
      assert ExtrasOf(rows, db.ingredients.rows, o) == BriefsFor(rows[0], [name]) + ExtrasOf(rows[1..], db.ingredients.rows, o);
      ExtrasOfPlaced(db, first + 1, o, extras[1..]);
    }
  }

  lemma {:induction false} RemovedOfPlaced(db: Db, first: nat, o: Order, ids: seq<int>)
    requires Keyed(db.ingredients, Ingredients.IdOf)
    requires forall i :: 0 <= i < |ids| ==> HasIngredient(db, ids[i])
    ensures RemovedOf(RemovedRows(first, o.id, ids), db.ingredients.rows, o) == RemovedNames(db.ingredients, ids)
    decreases |ids|
  {
    if |ids| > 0 {
      var rows := RemovedRows(first, o.id, ids);
      assert rows[1..] == RemovedRows(first + 1, o.id, ids[1..]);
      JoinKeyed(db, ids[0]);
      assert RemovedOf(rows, db.ingredients.rows, o) == [NameOf(db.ingredients, ids[0])] + RemovedOf(rows[1..], db.ingredients.rows, o);
      RemovedOfPlaced(db, first + 1, o, ids[1..]);
    }
  }

  /**
   * After a successful setIngredients on an order nothing linked yet, findById
   * reports the requested extras and removals, named from the ingredients
   * table, in request order.
   */
  lemma SetIngredientsThenFind(db: Db, k: nat, c: Customisation, locale: Locale)
    requires Valid(db)
    requires k < |db.orders.rows| && Unlinked(db, db.orders.rows[k].id)
    ensures var o := db.orders.rows[k];
      var r := SetIngredients(db, o.id, c, locale);
      r.0.Success? ==>
        FindById(r.1, o.id)
          == Success(OrderDetail(o, Briefs(db.ingredients, c.additional.GetOr([])), RemovedNames(db.ingredients, c.removed.GetOr([]))))
  {
    var o := db.orders.rows[k];
    var r := SetIngredients(db, o.id, c, locale);
    if r.0.Success? {
      var extras := c.additional.GetOr([]);
      var ids := c.removed.GetOr([]);
      FirstKeyed(r.1.orders, IdOf, (x: Order) => x.id == o.id, o.id, k);
      ExtrasOfAppend(db.additional.rows, ExtraRows(NextId(db.additional), o.id, extras), db.ingredients.rows, o);
      ExtrasOfNone(db.additional.rows, db.ingredients.rows, o);
      assert forall i :: 0 <= i < |extras| ==> IngredientIds(extras)[i] == extras[i].ingredientId;
      ExtrasOfPlaced(db, NextId(db.additional), o, extras);
      RemovedOfAppend(db.removed.rows, RemovedRows(NextId(db.removed), o.id, ids), db.ingredients.rows, o);
      RemovedOfNone(db.removed.rows, db.ingredients.rows, o);
      RemovedOfPlaced(db, NextId(db.removed), o, ids);
      assert ExtrasOf(r.1.additional.rows, r.1.ingredients.rows, o) == Briefs(db.ingredients, extras);
      assert RemovedOf(r.1.removed.rows, r.1.ingredients.rows, o) == RemovedNames(db.ingredients, ids);
    }
  }

  lemma {:induction false} ProductsOfNone(products: seq<Products.Product>, o: Order)
    requires forall j :: 0 <= j < |products| ==> Some(products[j].id as int) != o.productId
    ensures ProductsOf(products, o) == []
    decreases |products|
  {
    if |products| > 0 {
      ProductsOfNone(products[1..], o);
    }
  }

  lemma {:induction false} ProductsOfOnly(products: seq<Products.Product>, o: Order, k: nat)
    requires k < |products| && Some(products[k].id as int) == o.productId
    requires forall j :: 0 <= j < |products| && j != k ==> Some(products[j].id as int) != o.productId
    ensures ProductsOf(products, o) == [ProductBrief(products[k].name, products[k].price)]
    decreases |products|
  {
    if k == 0 {
      ProductsOfNone(products[1..], o);
    } else {
      ProductsOfOnly(products[1..], o, k - 1);
    }
  }

  /**
   * In a keyed products table the product aggregate of an order is the one
   * product it references, or empty when it references none.
   */
  lemma ProductsOfKeyed(products: Table<Products.Product>, o: Order)
    requires Keyed(products, Products.IdOf)
    ensures o.productId.None? ==> ProductsOf(products.rows, o) == []
    ensures forall k :: 0 <= k < |products.rows| && Some(products.rows[k].id as int) == o.productId ==>
      ProductsOf(products.rows, o) == [ProductBrief(products.rows[k].name, products.rows[k].price)]
  {
    if o.productId.None? {
      ProductsOfNone(products.rows, o);
    }
    forall k | 0 <= k < |products.rows| && Some(products.rows[k].id as int) == o.productId
      ensures ProductsOf(products.rows, o) == [ProductBrief(products.rows[k].name, products.rows[k].price)]
    {
      KeyedOthers(products, Products.IdOf, k);
      ProductsOfOnly(products.rows, o, k);
    }
  }

  /** In a keyed orders table findById reads an order back with the same aggregates the listing shows. */
  lemma FindByIdView(db: Db, k: nat)
    requires Keyed(db.orders, IdOf) && k < |db.orders.rows|
    ensures var o := db.orders.rows[k];
      FindById(db, o.id) == Success(OrderDetail(o, View(db, o).additional, View(db, o).removed))
  {
    var o := db.orders.rows[k];
    FirstKeyed(db.orders, IdOf, (x: Order) => x.id == o.id, o.id, k);
  }

  /** Every order whose status is listed appears in the listing as its view. */
  lemma ListedView(db: Db, statuses: seq<string>, k: nat)
    requires k < |db.orders.rows|
    requires db.orders.rows[k].status.Some? && db.orders.rows[k].status.value in statuses
    ensures View(db, db.orders.rows[k]) in ListByStatus(db, statuses)
  {
    var o := db.orders.rows[k];
    var r := ListByStatus(db, statuses);
    assert o in db.orders.rows;
    assert exists v :: v in r && v.order == o;
  }

  /**
   * An order findById reads back as `detail` and whose status is listed
   * appears in the listing with the same aggregates.
   */
  lemma ListedAfterInsert(db: Db, k: nat, statuses: seq<string>, detail: OrderDetail)
    requires Keyed(db.orders, IdOf) && k < |db.orders.rows|
    requires db.orders.rows[k].status.Some? && db.orders.rows[k].status.value in statuses
    requires FindById(db, db.orders.rows[k].id) == Success(detail)
    ensures var v := View(db, db.orders.rows[k]);
      v in ListByStatus(db, statuses) && v.additional == detail.additional && v.removed == detail.removed
  {
    FindByIdView(db, k);
    ListedView(db, statuses, k);
  }
}
