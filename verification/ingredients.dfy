/**
 * The `ingredients` table and its accessors: create, edit, list and findById.
 * `name` is unique and not null; `value` and `price` are nullable.
 */
module Ingredients {
  import opened Wrappers
  import opened Errors
  import opened Store

  datatype Ingredient = Ingredient(
    id: nat, name: string, value: Option<int>, price: Option<real>, createdAt: int, updatedAt: int)

  function IdOf(g: Ingredient): nat {
    g.id
  }

  const NameConstraint: string := "ingredients_name_key"
  /** `name` is a `varchar(255)`. */
  const NameLength: nat := 255

  const NotFound: Fault := NotFoundError(None, None)

  /** The properties of `values` the INSERT reads; an absent one is bound as NULL. */
  datatype IngredientValues = IngredientValues(name: Option<string>, value: Option<int>, price: Option<real>)

  predicate NameTaken(rows: seq<Ingredient>, name: string, except: int) {
    exists i :: 0 <= i < |rows| && rows[i].name == name && rows[i].id != except
  }

  /** The values fit their columns: `name` a `varchar(255)`, `value` an `integer`, `price` a `decimal(10, 2)`. */
  predicate Fits(name: Option<string>, value: Option<int>, price: Option<real>) {
    FitsOptVarchar(name, NameLength) && FitsOptInteger(value) && FitsOptDecimal(price)
  }

  /**
   * `create(values)`: `INSERT INTO ingredients (name, value, price) ... RETURNING *`.
   * `value` is bound before the statement is planned; while it is planned the
   * name takes its `varchar(255)` type and the price is rounded and checked;
   * then the id is drawn, and NOT NULL and the unique index on the stored name
   * run.
   */
  function Create(t: Table<Ingredient>, values: IngredientValues, now: int): (r: (Result<Ingredient, Fault>, Table<Ingredient>))
    ensures r.0.Success? <==>
      && Fits(values.name, values.value, values.price) && values.name.Some?
      && !NameTaken(t.rows, Varchar(values.name.value, NameLength), -1)
    ensures r.0.Success? ==>
      && r.0.value == Ingredient(NextId(t), Varchar(values.name.value, NameLength), values.value, OptDecimal2(values.price), now, now)
      && r.1.rows == t.rows + [r.0.value]
    ensures !Fits(values.name, values.value, values.price) ==>
      r.0.Failure? && r.0.error.DatabaseFault? && ColumnError(r.0.error.error)
    ensures FitsOptInteger(values.value) && !FitsOptVarchar(values.name, NameLength) ==>
      r.0 == Failure(DatabaseFault(TooLongError(NameLength)))
    ensures Fits(values.name, values.value, values.price) && values.name.None? ==>
      r.0 == Failure(DatabaseFault(NotNullError("ingredients", "name")))
    ensures r.0.Failure? ==> r.1.rows == t.rows
    ensures r.1.last == if Fits(values.name, values.value, values.price) then NextId(t) else t.last
  {
    if !FitsOptInteger(values.value) then (Failure(DatabaseFault(IntegerRangeError(values.value.value))), t)
    else if !FitsOptVarchar(values.name, NameLength) then (Failure(DatabaseFault(TooLongError(NameLength))), t)
    else if !FitsOptDecimal(values.price) then (Failure(DatabaseFault(NumericOverflowError())), t)
    else if values.name.None? then (Failure(DatabaseFault(NotNullError("ingredients", "name"))), Consume(t))
    else
      var name := Varchar(values.name.value, NameLength);
      if NameTaken(t.rows, name, -1) then (Failure(DatabaseFault(UniqueError(NameConstraint))), Consume(t))
      else
        var row := Ingredient(NextId(t), name, values.value, OptDecimal2(values.price), now, now);
        (Success(row), Append(t, row))
  }

  /** `findById(id)`: the row with that id, or a NotFoundError. */
  function FindById(t: Table<Ingredient>, id: int): (r: Result<Ingredient, Fault>)
    ensures r.Success? <==> exists i :: 0 <= i < |t.rows| && t.rows[i].id == id
    ensures r.Success? ==> r.value in t.rows && r.value.id == id
    ensures r.Failure? ==> r.error == NotFound
  {
    match First(t.rows, (g: Ingredient) => g.id == id)
    case None => Failure(NotFound)
    case Some(g) => Success(g)
  }

  /** `list()`: every row. */
  function List(t: Table<Ingredient>): (r: seq<Ingredient>)
    ensures forall g :: g in r <==> g in t.rows
    ensures |r| == |t.rows|
  {
    t.rows
  }

  /** The fields a PATCH may set; an absent one keeps the stored value. */
  datatype IngredientPatch = IngredientPatch(name: Option<string>, value: Option<int>, price: Option<real>)

  /** `{ ...oldIngredient, ...values }` with `updated_at` refreshed. */
  function Merge(prev: Ingredient, patch: IngredientPatch, now: int): (g: Ingredient)
    ensures g.id == prev.id && g.createdAt == prev.createdAt && g.updatedAt == now
    ensures g.name == (if patch.name.Some? then patch.name.value else prev.name)
    ensures g.value == (if patch.value.Some? then patch.value else prev.value)
    ensures g.price == (if patch.price.Some? then patch.price else prev.price)
  {
    var value := if patch.value.Some? then patch.value else prev.value;
    var price := if patch.price.Some? then patch.price else prev.price;
    prev.(name := patch.name.GetOr(prev.name), value := value, price := price, updatedAt := now)
  }

  /** A row whose values fit their columns. */
  predicate RowFits(g: Ingredient) {
    Fits(Some(g.name), g.value, g.price)
  }

  /** The row as the columns store it: the name cut to its `varchar(255)`, the price rounded to cents. */
  function Stored(g: Ingredient): (s: Ingredient)
    requires RowFits(g)
    ensures s.id == g.id && s.value == g.value && s.createdAt == g.createdAt && s.updatedAt == g.updatedAt
    ensures s.name == Varchar(g.name, NameLength) && s.price == OptDecimal2(g.price)
  {
    g.(name := Varchar(g.name, NameLength), price := OptDecimal2(g.price))
  }

  /**
   * `edit(id, values)`: findById first, then one UPDATE of name, value, price
   * and updated_at. The merged `value` must bind as an `integer`; the merged
   * name must fit `varchar(255)` and the price `decimal(10, 2)`, which stores
   * it rounded; then the unique index on the stored name.
   */
  function Edit(t: Table<Ingredient>, id: int, patch: IngredientPatch, now: int): (r: (Result<Ingredient, Fault>, Table<Ingredient>))
    ensures FindById(t, id).Failure? ==> r == (Failure(NotFound), t)
    ensures r.0.Failure? ==> r.1 == t
    ensures FindById(t, id).Success? ==>
      var merged := Merge(FindById(t, id).value, patch, now);
      && (r.0.Success? <==> RowFits(merged) && !NameTaken(t.rows, Stored(merged).name, id))
      && (!RowFits(merged) ==> r.0.Failure? && r.0.error.DatabaseFault? && ColumnError(r.0.error.error))
    ensures r.0.Success? ==>
      && FindById(t, id).Success?
      && r.0.value == Stored(Merge(FindById(t, id).value, patch, now))
      && r.1.last == t.last && |r.1.rows| == |t.rows|
      && forall i :: 0 <= i < |t.rows| ==> r.1.rows[i] == if t.rows[i].id == id then r.0.value else t.rows[i]
  {
    match FindById(t, id)
    case Failure(e) => (Failure(e), t)
    case Success(prev) =>
      var merged := Merge(prev, patch, now);
      if !FitsOptInteger(merged.value) then (Failure(DatabaseFault(IntegerRangeError(merged.value.value))), t)
      else if !FitsVarchar(merged.name, NameLength) then (Failure(DatabaseFault(TooLongError(NameLength))), t)
      else if !FitsOptDecimal(merged.price) then (Failure(DatabaseFault(NumericOverflowError())), t)
      else
        var row := Stored(merged);
        if NameTaken(t.rows, row.name, id) then (Failure(DatabaseFault(UniqueError(NameConstraint))), t)
        else (Success(row), t.(rows := UpdateWhere(t.rows, (g: Ingredient) => g.id == id, (g: Ingredient) => row)))
  }

  // ---------------------------------------------------------------------------
  // Properties
  // ---------------------------------------------------------------------------

  lemma CreateKeyed(t: Table<Ingredient>, values: IngredientValues, now: int)
    requires Keyed(t, IdOf)
    ensures Keyed(Create(t, values, now).1, IdOf)
  {
    var r := Create(t, values, now);
    if r.0.Success? {
      AppendKeyed(t, IdOf, r.0.value);
    }
  }

  lemma EditKeyed(t: Table<Ingredient>, id: int, patch: IngredientPatch, now: int)
    requires Keyed(t, IdOf)
    ensures Keyed(Edit(t, id, patch, now).1, IdOf)
  {
    var r := Edit(t, id, patch, now);
    if r.0.Success? {
      forall i | 0 <= i < |t.rows| ensures IdOf(r.1.rows[i]) == IdOf(t.rows[i]) {
        if t.rows[i].id == id {
          assert r.1.rows[i] == r.0.value;
        }
      }
      SameIdsKeyed(t, r.1, IdOf);
    }
  }

  /** A created ingredient is found by its id, and the list gains exactly that row, last. */
  lemma CreateThenFind(t: Table<Ingredient>, values: IngredientValues, now: int)
    requires Keyed(t, IdOf)
    ensures var r := Create(t, values, now);
      r.0.Success? ==>
        && FindById(r.1, r.0.value.id) == Success(r.0.value)
        && List(r.1) == List(t) + [r.0.value]
  {
    var r := Create(t, values, now);
    if r.0.Success? {
      CreateKeyed(t, values, now);
      assert r.1.rows[|t.rows|] == r.0.value;
      FirstKeyed(r.1, IdOf, (g: Ingredient) => g.id == r.0.value.id, r.0.value.id, |t.rows|);
    }
  }

  /** In a keyed table, the edited row is the old row with the patch laid over it, as the columns store it. */
  lemma EditPatchesOver(t: Table<Ingredient>, id: int, patch: IngredientPatch, now: int, i: nat)
    requires Keyed(t, IdOf)
    requires i < |t.rows| && t.rows[i].id == id
    ensures var r := Edit(t, id, patch, now);
      r.0.Success? ==> RowFits(Merge(t.rows[i], patch, now)) && r.1.rows[i] == Stored(Merge(t.rows[i], patch, now))
  {
    FirstKeyed(t, IdOf, (g: Ingredient) => g.id == id, id, i);
  }

  /** In a keyed table, findById returns exactly the row with that id. */
  lemma FindByIdExact(t: Table<Ingredient>, i: nat)
    requires Keyed(t, IdOf)
    requires i < |t.rows|
    ensures FindById(t, t.rows[i].id) == Success(t.rows[i])
  {
    FirstKeyed(t, IdOf, (g: Ingredient) => g.id == t.rows[i].id, t.rows[i].id, i);
  }
}
