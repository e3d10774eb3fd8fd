/**
 * The `products` table and its accessors: create, listByStatus and setStatus.
 * `name` is unique; `name`, `category` and `price` are not null; `category`
 * and `status` carry CHECK constraints, and `status` defaults to "available".
 */
module Products {
  import opened Wrappers
  import opened Errors
  import opened Store
  import Validator
  import Categories

  /** A stored row; `categoryId` is the NOT NULL reference to `categories(id)`. */
  datatype Product = Product(
    id: nat, ingredientsIds: Option<seq<int>>, name: string, category: string, status: string,
    price: real, picture: Option<string>, categoryId: int, createdAt: int, updatedAt: int)

  function IdOf(p: Product): nat {
    p.id
  }

  const DefaultStatus: string := "available"
  const CategoryNames: set<string> := {"coffees", "sweets", "snacks", "teas"}
  const NameConstraint: string := "products_name_key"
  const CategoryConstraint: string := "products_category_check"
  const StatusConstraint: string := "products_status_check"
  const CategoryKey: string := "products_category_id_fkey"
  /** The column types: `name varchar(128)`, `category` and `status varchar(10)`, `picture varchar(255)`. */
  const NameLength: nat := 128
  const CategoryLength: nat := 10
  const StatusLength: nat := 10
  const PictureLength: nat := 255

  /**
   * The properties of `values` a product insert can read (`product_name` and
   * `product_category` feed `name` and `category`); an absent one is NULL.
   */
  datatype ProductValues = ProductValues(
    ingredientsIds: Option<seq<int>>, productName: Option<string>, productCategory: Option<string>,
    price: Option<real>, picture: Option<string>, categoryId: Option<int>)

  predicate NameTaken(rows: seq<Product>, name: string) {
    exists i :: 0 <= i < |rows| && rows[i].name == name
  }

  /** The `integer[]` parameter `ingredients_ids` binds. */
  predicate IdsBind(ids: Option<seq<int>>) {
    ids.None? || AllFitInteger(ids.value)
  }

  /** The bind error of an `ingredients_ids` element outside the `integer` range. */
  function IdsBindError(ids: Option<seq<int>>): (e: DbError)
    requires !IdsBind(ids)
    ensures ColumnError(e)
  {
    IntegerRangeError(FirstUnfit(ids.value))
  }

  /**
   * The values the insert stores after the id is drawn fit their column
   * types: name, category, price and picture.
   */
  predicate ValuesFit(values: ProductValues) {
    && FitsOptVarchar(values.productName, NameLength)
    && FitsOptVarchar(values.productCategory, CategoryLength)
    && FitsOptDecimal(values.price)
    && FitsOptVarchar(values.picture, PictureLength)
  }

  /** The error of the first value, in column order, that does not fit its type. */
  function ValuesFitError(values: ProductValues): (e: DbError)
    requires !ValuesFit(values)
    ensures ColumnError(e)
    ensures !FitsOptVarchar(values.productName, NameLength) ==> e == TooLongError(NameLength)
  {
    if !FitsOptVarchar(values.productName, NameLength) then TooLongError(NameLength)
    else if !FitsOptVarchar(values.productCategory, CategoryLength) then TooLongError(CategoryLength)
    else if !FitsOptDecimal(values.price) then NumericOverflowError()
    else TooLongError(PictureLength)
  }

  /** The columns the statement's own values fill are NOT NULL-complete: name, category and price. */
  predicate Complete(values: ProductValues) {
    values.productName.Some? && values.productCategory.Some? && values.price.Some?
  }

  /** The first of `name`, `category`, `price` the values leave NULL: PostgreSQL checks NOT NULL in column order. */
  function MissingColumn(values: ProductValues): (c: string)
    requires !Complete(values)
    ensures c in {"name", "category", "price"}
  {
    if values.productName.None? then "name" else if values.productCategory.None? then "category" else "price"
  }

  /**
   * `create(values)` as written: `INSERT INTO products (ingredients_ids, name,
   * category, price, picture)`. The table also has `category_id integer NOT
   * NULL`, which the statement never sets, so once the parameters bind and the
   * values fit their types (both before the id is drawn), PostgreSQL's NOT NULL check (name, category,
   * price, then `category_id`, in column order) rejects every insert.
   */
  function Create(t: Table<Product>, values: ProductValues, now: int): (r: (Result<Product, Fault>, Table<Product>))
    ensures r.0.Failure? && r.0.error.DatabaseFault? && r.1.rows == t.rows
    ensures r.1.last == if IdsBind(values.ingredientsIds) && ValuesFit(values) then NextId(t) else t.last
    ensures !IdsBind(values.ingredientsIds) || !ValuesFit(values) <==> ColumnError(r.0.error.error)
    ensures IdsBind(values.ingredientsIds) && !FitsOptVarchar(values.productName, NameLength) ==>
      r.0.error == DatabaseFault(TooLongError(NameLength))
    ensures IdsBind(values.ingredientsIds) && ValuesFit(values) && Complete(values) ==>
      r.0.error == DatabaseFault(NotNullError("products", "category_id"))
  {
    if !IdsBind(values.ingredientsIds) then (Failure(DatabaseFault(IdsBindError(values.ingredientsIds))), t)
    else if !ValuesFit(values) then (Failure(DatabaseFault(ValuesFitError(values))), t)
    else if !Complete(values) then (Failure(DatabaseFault(NotNullError("products", MissingColumn(values)))), Consume(t))
    else (Failure(DatabaseFault(NotNullError("products", "category_id"))), Consume(t))
  }

  /** A complete request (a name, an allowed category, a price, even a category id) is still refused. */
  lemma CreateNeverStores(t: Table<Product>, now: int)
    ensures Create(t, ProductValues(None, Some("x"), Some("teas"), Some(1.0), None, Some(1)), now).0
      == Failure(DatabaseFault(NotNullError("products", "category_id")))
  {
    var values := ProductValues(None, Some("x"), Some("teas"), Some(1.0), None, Some(1));
    assert Decimal2(1.0) == 1.0 by { assert Cents(1.0) == 100; }
  }

  /**
   * A 129-character name is refused with 22001 by both inserts, even when
   * everything else would be stored: an empty table, an allowed category, a
   * price and an existing category id.
   */
  lemma LongNameRefused(categories: Table<Categories.Category>, locale: Locale, now: int)
    requires HasCategory(categories, 1)
    ensures var values := ProductValues(None, Some(seq(129, _ => 'x')), Some("teas"), Some(1.0), None, Some(1));
      && Create(Table([], 0), values, now).0 == Failure(DatabaseFault(TooLongError(NameLength)))
      && CreateInCategory(Table([], 0), categories, values, locale, now).0 == Failure(DatabaseFault(TooLongError(NameLength)))
  {
    var name: string := seq(129, _ => 'x');
    assert name[128] != ' ';
    assert !FitsVarchar(name, NameLength);
  }

  predicate HasCategory(categories: Table<Categories.Category>, id: int) {
    exists i :: 0 <= i < |categories.rows| && categories.rows[i].id == id
  }

  /** Every parameter binds and every column value fits its type. */
  predicate Fits(values: ProductValues) {
    IdsBind(values.ingredientsIds) && FitsOptInteger(values.categoryId) && ValuesFit(values)
  }

  /**
   * `create(values)` with `category_id` added to the insert: the parameters
   * bind (`ingredients_ids`, then `category_id`), the values take their
   * column types while the statement is planned (the strings cut to their
   * `varchar` lengths, the price rounded to `decimal(10, 2)`), the id is
   * drawn, then NOT NULL in column order, the
   * category CHECK, the unique name and last the foreign key into `categories`.
   */
  function CreateInCategory(t: Table<Product>, categories: Table<Categories.Category>, values: ProductValues, locale: Locale, now: int)
    : (r: (Result<Product, Fault>, Table<Product>))
    ensures r.0.Success? <==>
      && Fits(values) && Complete(values) && values.categoryId.Some?
      && values.productCategory.value in CategoryNames
      && !NameTaken(t.rows, Varchar(values.productName.value, NameLength))
      && HasCategory(categories, values.categoryId.value)
    ensures r.0.Success? ==>
      && r.0.value.id == NextId(t)
      && r.0.value.name == Varchar(values.productName.value, NameLength)
      && r.0.value.category == values.productCategory.value
      && r.0.value.categoryId == values.categoryId.value
      && r.0.value.ingredientsIds == values.ingredientsIds
      && r.0.value.price == Decimal2(values.price.value)
      && r.0.value.picture == OptVarchar(values.picture, PictureLength)
      && r.0.value.status == DefaultStatus
      && r.1.rows == t.rows + [r.0.value]
    ensures r.0.Failure? ==> r.1.rows == t.rows && r.0.error.DatabaseFault?
    ensures r.1.last == if Fits(values) then NextId(t) else t.last
    ensures IdsBind(values.ingredientsIds) && FitsOptInteger(values.categoryId) && !ValuesFit(values) ==>
      r.0.error == DatabaseFault(ValuesFitError(values))
    ensures (Fits(values) && Complete(values) && values.categoryId.Some? && values.productCategory.value in CategoryNames
      && !NameTaken(t.rows, Varchar(values.productName.value, NameLength)) && !HasCategory(categories, values.categoryId.value)) ==>
      r.0.error == DatabaseFault(ForeignKeyError(locale, "products", CategoryKey))
  {
    if !IdsBind(values.ingredientsIds) then (Failure(DatabaseFault(IdsBindError(values.ingredientsIds))), t)
    else if !FitsOptInteger(values.categoryId) then (Failure(DatabaseFault(IntegerRangeError(values.categoryId.value))), t)
    else if !ValuesFit(values) then (Failure(DatabaseFault(ValuesFitError(values))), t)
    else if !Complete(values) then (Failure(DatabaseFault(NotNullError("products", MissingColumn(values)))), Consume(t))
    else if values.categoryId.None? then (Failure(DatabaseFault(NotNullError("products", "category_id"))), Consume(t))
    else
      var name := Varchar(values.productName.value, NameLength);
      var category := Varchar(values.productCategory.value, CategoryLength);
      ShortMembers(values.productCategory.value, CategoryLength, CategoryNames);
      if category !in CategoryNames then
        (Failure(DatabaseFault(CheckError("products", CategoryConstraint))), Consume(t))
      else if NameTaken(t.rows, name) then
        (Failure(DatabaseFault(UniqueError(NameConstraint))), Consume(t))
      else if !HasCategory(categories, values.categoryId.value) then
        (Failure(DatabaseFault(ForeignKeyError(locale, "products", CategoryKey))), Consume(t))
      else
        var row := Product(NextId(t), values.ingredientsIds, name, category,
          DefaultStatus, Decimal2(values.price.value), OptVarchar(values.picture, PictureLength), values.categoryId.value, now, now);
        (Success(row), Append(t, row))
  }

  /**
   * `listByStatus(status)`: `WHERE status IN ($1, ...)`, or `IN (NULL)` for an
   * empty list, which no row satisfies.
   */
  function ListByStatus(t: Table<Product>, statuses: seq<string>): (r: seq<Product>)
    ensures |statuses| == 0 ==> r == []
  {
    if |statuses| == 0 then [] else Where(t.rows, (p: Product) => p.status in statuses)
  }

  /**
   * `setStatus(name, status)`: every row with that name gets the status; the
   * updated rows are returned. A status longer than its `varchar(10)` fails
   * while the statement is planned, whatever the name; the CHECK constraint
   * runs on the stored status of the matched rows.
   */
  function SetStatus(t: Table<Product>, name: string, status: string): (r: (Result<seq<Product>, Fault>, Table<Product>))
    ensures !FitsVarchar(status, StatusLength) ==> r == (Failure(DatabaseFault(TooLongError(StatusLength))), t)
    ensures FitsVarchar(status, StatusLength) && !NameTaken(t.rows, name) ==> r == (Success([]), t)
    ensures r.0.Failure? ==> r.1 == t && status !in Validator.ProductStatuses
    ensures NameTaken(t.rows, name) ==> (r.0.Success? <==> status in Validator.ProductStatuses)
    ensures r.0.Success? ==>
      && r.1.last == t.last && |r.1.rows| == |t.rows|
      && forall i :: 0 <= i < |t.rows| ==> r.1.rows[i] == if t.rows[i].name == name then t.rows[i].(status := status) else t.rows[i]
    ensures r.0.Success? ==> forall p :: p in r.0.value <==> exists x :: x in t.rows && x.name == name && p == x.(status := status)
  {
    ShortMembers(status, StatusLength, Validator.ProductStatuses);
    var matchesName := (p: Product) => p.name == name;
    if !FitsVarchar(status, StatusLength) then (Failure(DatabaseFault(TooLongError(StatusLength))), t)
    else if !Matches(t.rows, matchesName) then (Success([]), t)
    else if Varchar(status, StatusLength) !in Validator.ProductStatuses then
      (Failure(DatabaseFault(CheckError("products", StatusConstraint))), t)
    else
      var f := (p: Product) => p.(status := Varchar(status, StatusLength));
      (Success(Updated(t.rows, matchesName, f)), t.(rows := UpdateWhere(t.rows, matchesName, f)))
  }

  // ---------------------------------------------------------------------------
  // Properties
  // ---------------------------------------------------------------------------

  /** The table's CHECK constraints hold for every stored row. */
  predicate Checked(t: Table<Product>) {
    forall i :: 0 <= i < |t.rows| ==> t.rows[i].status in Validator.ProductStatuses && t.rows[i].category in CategoryNames
  }

  /** Every stored product names an existing category. */
  predicate InCategories(t: Table<Product>, categories: Table<Categories.Category>) {
    forall i :: 0 <= i < |t.rows| ==> HasCategory(categories, t.rows[i].categoryId)
  }

  lemma CreateKeepsInvariants(t: Table<Product>, categories: Table<Categories.Category>, values: ProductValues, locale: Locale, now: int)
    requires Keyed(t, IdOf) && Checked(t) && InCategories(t, categories)
    ensures var u := CreateInCategory(t, categories, values, locale, now).1;
      Keyed(u, IdOf) && Checked(u) && InCategories(u, categories)
  {
    var r := CreateInCategory(t, categories, values, locale, now);
    if r.0.Success? {
      AppendKeyed(t, IdOf, r.0.value);
      assert r.1.rows[|t.rows|] == r.0.value;
    }
  }

  lemma SetStatusKeepsInvariants(t: Table<Product>, name: string, status: string)
    requires Keyed(t, IdOf) && Checked(t)
    ensures Keyed(SetStatus(t, name, status).1, IdOf) && Checked(SetStatus(t, name, status).1)
  {
    var r := SetStatus(t, name, status);
    if r.0.Success? {
      assert forall i :: 0 <= i < |t.rows| ==> IdOf(r.1.rows[i]) == IdOf(t.rows[i]);
      SameIdsKeyed(t, r.1, IdOf);
    }
  }

  /** The `IN (NULL)` branch agrees with the plain filter: the result is exactly the rows with a listed status. */
  lemma ListByStatusIsFilter(t: Table<Product>, statuses: seq<string>)
    ensures ListByStatus(t, statuses) == Where(t.rows, (p: Product) => p.status in statuses)
    ensures forall p :: p in ListByStatus(t, statuses) <==> p in t.rows && p.status in statuses
  {
    if |statuses| == 0 {
      WhereNone(t.rows, (p: Product) => p.status in statuses);
    }
  }
}
