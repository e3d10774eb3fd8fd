/**
 * The `categories` table and its accessors: create, edit, listByStatus,
 * findById and setStatus. `name` is unique; `status` defaults to "available"
 * and its CHECK constraint admits the same two values the validator's
 * `category_status` enum does.
 */
module Categories {
  import opened Wrappers
  import opened Errors
  import opened Store
  import Validator

  datatype Category = Category(id: nat, name: string, status: string, createdAt: int, updatedAt: int)

  function IdOf(c: Category): nat {
    c.id
  }

  const DefaultStatus: string := "available"
  /** The column types: `name varchar(128)`, `status varchar(10)`. */
  const NameLength: nat := 128
  const StatusLength: nat := 10
  const NameConstraint: string := "categories_name_key"
  const StatusConstraint: string := "categories_status_check"

  const NotFound: Fault := NotFoundError(None, None)

  predicate NameTaken(rows: seq<Category>, name: string, except: int) {
    exists i :: 0 <= i < |rows| && rows[i].name == name && rows[i].id != except
  }

  /**
   * `create(name)`: `INSERT INTO categories (name) ... RETURNING *`. The name
   * takes its `varchar(128)` type while the statement is planned, before the
   * id is drawn; then the unique index runs on the stored name.
   */
  function Create(t: Table<Category>, name: string, now: int): (r: (Result<Category, Fault>, Table<Category>))
    ensures r.0.Success? <==>
      FitsVarchar(name, NameLength) && forall i :: 0 <= i < |t.rows| ==> t.rows[i].name != Varchar(name, NameLength)
    ensures r.0.Success? ==>
      && r.0.value == Category(NextId(t), Varchar(name, NameLength), DefaultStatus, now, now)
      && r.1.rows == t.rows + [r.0.value]
    ensures r.0.Failure? ==> r.1.rows == t.rows
    ensures r.0.Failure? ==> r.0.error == DatabaseFault(
      if FitsVarchar(name, NameLength) then UniqueError(NameConstraint) else TooLongError(NameLength))
    ensures r.1.last == if FitsVarchar(name, NameLength) then NextId(t) else t.last
  {
    if !FitsVarchar(name, NameLength) then (Failure(DatabaseFault(TooLongError(NameLength))), t)
    else if NameTaken(t.rows, Varchar(name, NameLength), -1) then (Failure(DatabaseFault(UniqueError(NameConstraint))), Consume(t))
    else
      var row := Category(NextId(t), Varchar(name, NameLength), DefaultStatus, now, now);
      (Success(row), Append(t, row))
  }

  /** `findById(id)`: the row with that id, or a NotFoundError. */
  function FindById(t: Table<Category>, id: int): (r: Result<Category, Fault>)
    ensures r.Success? <==> exists i :: 0 <= i < |t.rows| && t.rows[i].id == id
    ensures r.Success? ==> r.value in t.rows && r.value.id == id
    ensures r.Failure? ==> r.error == NotFound
  {
    match First(t.rows, (c: Category) => c.id == id)
    case None => Failure(NotFound)
    case Some(c) => Success(c)
  }

  /** The fields a PATCH may set; an absent one keeps the stored value. */
  datatype CategoryPatch = CategoryPatch(name: Option<string>, status: Option<string>)

  /** `{ ...oldCategory, ...values }` with `updated_at` refreshed. */
  function Merge(prev: Category, patch: CategoryPatch, now: int): (c: Category)
    ensures c.id == prev.id && c.createdAt == prev.createdAt && c.updatedAt == now
    ensures c.name == (if patch.name.Some? then patch.name.value else prev.name)
    ensures c.status == (if patch.status.Some? then patch.status.value else prev.status)
  {
    prev.(name := patch.name.GetOr(prev.name), status := patch.status.GetOr(prev.status), updatedAt := now)
  }

  /** The row's strings fit their `varchar` columns. */
  predicate Fits(c: Category) {
    FitsVarchar(c.name, NameLength) && FitsVarchar(c.status, StatusLength)
  }

  /** The row as the columns store it. */
  function Stored(c: Category): (s: Category)
    requires Fits(c)
    ensures s.id == c.id && s.createdAt == c.createdAt && s.updatedAt == c.updatedAt
    ensures s.name == Varchar(c.name, NameLength) && s.status == Varchar(c.status, StatusLength)
  {
    c.(name := Varchar(c.name, NameLength), status := Varchar(c.status, StatusLength))
  }

  /** The UPDATE `edit` runs on a merged row succeeds: CHECK on the stored status, then the unique index. */
  predicate Updatable(t: Table<Category>, id: int, row: Category) {
    Fits(row) && Stored(row).status in Validator.CategoryStatuses && !NameTaken(t.rows, Stored(row).name, id)
  }

  /**
   * `edit(id, values)`: findById first, then one UPDATE of name, status and
   * updated_at. The values take their `varchar` types in column order, then
   * PostgreSQL checks the CHECK constraint before the unique index.
   */
  function Edit(t: Table<Category>, id: int, patch: CategoryPatch, now: int): (r: (Result<Category, Fault>, Table<Category>))
    ensures FindById(t, id).Failure? ==> r == (Failure(NotFound), t)
    ensures r.0.Failure? ==> r.1 == t
    ensures FindById(t, id).Success? ==>
      var merged := Merge(FindById(t, id).value, patch, now);
      && (r.0.Success? <==> Updatable(t, id, merged))
      && (!FitsVarchar(merged.name, NameLength) ==> r.0 == Failure(DatabaseFault(TooLongError(NameLength))))
      && (FitsVarchar(merged.name, NameLength) && !FitsVarchar(merged.status, StatusLength) ==>
            r.0 == Failure(DatabaseFault(TooLongError(StatusLength))))
    ensures r.0.Success? ==>
      && FindById(t, id).Success?
      && r.0.value == Stored(Merge(FindById(t, id).value, patch, now))
      && r.0.value.status == Merge(FindById(t, id).value, patch, now).status
      && r.1.last == t.last && |r.1.rows| == |t.rows|
      && forall i :: 0 <= i < |t.rows| ==> r.1.rows[i] == if t.rows[i].id == id then r.0.value else t.rows[i]
  {
    match FindById(t, id)
    case Failure(e) => (Failure(e), t)
    case Success(prev) =>
      var merged := Merge(prev, patch, now);
      if !FitsVarchar(merged.name, NameLength) then (Failure(DatabaseFault(TooLongError(NameLength))), t)
      else if !FitsVarchar(merged.status, StatusLength) then (Failure(DatabaseFault(TooLongError(StatusLength))), t)
      else
        var row := Stored(merged);
        if row.status !in Validator.CategoryStatuses then
          (Failure(DatabaseFault(CheckError("categories", StatusConstraint))), t)
        else if NameTaken(t.rows, row.name, id) then
          (Failure(DatabaseFault(UniqueError(NameConstraint))), t)
        else
          (Success(row), t.(rows := UpdateWhere(t.rows, (c: Category) => c.id == id, (c: Category) => row)))
  }

  /** `listByStatus(status)`: `WHERE status = ANY($1)`. */
  function ListByStatus(t: Table<Category>, statuses: seq<string>): (r: seq<Category>)
    ensures forall c :: c in r <==> c in t.rows && c.status in statuses
    ensures |statuses| == 0 ==> r == []
  {
    var p := (c: Category) => c.status in statuses;
    if |statuses| == 0 then
      WhereNone(t.rows, p);
      Where(t.rows, p)
    else Where(t.rows, p)
  }

  /**
   * `setStatus(id, status)`: the updated rows. A status longer than its
   * `varchar(10)` fails while the statement is planned, whatever the id. An
   * unknown id then updates nothing and answers an empty list; `updated_at`
   * is not touched. The CHECK constraint runs on the stored status.
   */
  function SetStatus(t: Table<Category>, id: int, status: string): (r: (Result<seq<Category>, Fault>, Table<Category>))
    ensures !FitsVarchar(status, StatusLength) ==> r == (Failure(DatabaseFault(TooLongError(StatusLength))), t)
    ensures FitsVarchar(status, StatusLength) && FindById(t, id).Failure? ==> r == (Success([]), t)
    ensures r.0.Failure? ==> r.1 == t && status !in Validator.CategoryStatuses
    ensures FindById(t, id).Success? ==> (r.0.Success? <==> status in Validator.CategoryStatuses)
    ensures r.0.Success? ==>
      && r.1.last == t.last && |r.1.rows| == |t.rows|
      && forall i :: 0 <= i < |t.rows| ==> r.1.rows[i] == if t.rows[i].id == id then t.rows[i].(status := status) else t.rows[i]
    ensures r.0.Success? ==> forall c :: c in r.0.value <==> exists x :: x in t.rows && x.id == id && c == x.(status := status)
  {
    ShortMembers(status, StatusLength, Validator.CategoryStatuses);
    var p := (c: Category) => c.id == id;
    if !FitsVarchar(status, StatusLength) then (Failure(DatabaseFault(TooLongError(StatusLength))), t)
    else if !Matches(t.rows, p) then (Success([]), t)
    else if Varchar(status, StatusLength) !in Validator.CategoryStatuses then
      (Failure(DatabaseFault(CheckError("categories", StatusConstraint))), t)
    else
      var f := (c: Category) => c.(status := Varchar(status, StatusLength));
      (Success(Updated(t.rows, p, f)), t.(rows := UpdateWhere(t.rows, p, f)))
  }

  // ---------------------------------------------------------------------------
  // Properties
  // ---------------------------------------------------------------------------

  /** A 129-character name fails before the id is drawn: nothing, not even the sequence, changes. */
  lemma LongNameKeepsSequence(t: Table<Category>, now: int)
    ensures Create(t, seq(129, _ => 'x'), now) == (Failure(DatabaseFault(TooLongError(NameLength))), t)
  {
    assert seq(129, _ => 'x')[128] != ' ';
  }

  /** An 11-character status fails with 22001 whatever the id, stored or not. */
  lemma LongStatusRefused(t: Table<Category>, id: int)
    ensures SetStatus(t, id, "unavailable") == (Failure(DatabaseFault(TooLongError(StatusLength))), t)
  {
    assert "unavailable"[10] != ' ';
  }

  /** The status CHECK constraint holds for every stored row. */
  predicate Checked(t: Table<Category>) {
    forall i :: 0 <= i < |t.rows| ==> t.rows[i].status in Validator.CategoryStatuses
  }

  lemma CreateKeyed(t: Table<Category>, name: string, now: int)
    requires Keyed(t, IdOf)
    ensures Keyed(Create(t, name, now).1, IdOf)
  {
    var r := Create(t, name, now);
    if r.0.Success? {
      AppendKeyed(t, IdOf, r.0.value);
    }
  }

  lemma CreateChecked(t: Table<Category>, name: string, now: int)
    requires Checked(t)
    ensures Checked(Create(t, name, now).1)
  {
    var r := Create(t, name, now);
    if r.0.Success? {
      assert r.1.rows[|t.rows|] == r.0.value;
    }
  }

  lemma EditKeepsInvariants(t: Table<Category>, id: int, patch: CategoryPatch, now: int)
    requires Keyed(t, IdOf) && Checked(t)
    ensures Keyed(Edit(t, id, patch, now).1, IdOf) && Checked(Edit(t, id, patch, now).1)
  {
    var r := Edit(t, id, patch, now);
    if r.0.Success? {
      assert r.0.value.status in Validator.CategoryStatuses;
      assert forall i :: 0 <= i < |t.rows| ==> IdOf(r.1.rows[i]) == IdOf(t.rows[i]);
      SameIdsKeyed(t, r.1, IdOf);
    }
  }

  lemma SetStatusKeepsInvariants(t: Table<Category>, id: int, status: string)
    requires Keyed(t, IdOf) && Checked(t)
    ensures Keyed(SetStatus(t, id, status).1, IdOf) && Checked(SetStatus(t, id, status).1)
  {
    var r := SetStatus(t, id, status);
    if r.0.Success? {
      assert forall i :: 0 <= i < |t.rows| ==> IdOf(r.1.rows[i]) == IdOf(t.rows[i]);
      SameIdsKeyed(t, r.1, IdOf);
      assert forall i :: 0 <= i < |t.rows| ==> r.1.rows[i].status in Validator.CategoryStatuses;
    }
  }

  /** In a keyed table, findById returns exactly the row with that id. */
  lemma FindByIdExact(t: Table<Category>, i: nat)
    requires Keyed(t, IdOf)
    requires i < |t.rows|
    ensures FindById(t, t.rows[i].id) == Success(t.rows[i])
  {
    FirstKeyed(t, IdOf, (c: Category) => c.id == t.rows[i].id, t.rows[i].id, i);
  }

  /** A created category is found by its id afterwards, and old rows keep theirs. */
  lemma CreateThenFind(t: Table<Category>, name: string, now: int)
    requires Keyed(t, IdOf)
    ensures var r := Create(t, name, now);
      r.0.Success? ==> FindById(r.1, r.0.value.id) == Success(r.0.value)
  {
    var r := Create(t, name, now);
    if r.0.Success? {
      CreateKeyed(t, name, now);
      assert r.1.rows[|t.rows|] == r.0.value;
      FirstKeyed(r.1, IdOf, (c: Category) => c.id == r.0.value.id, r.0.value.id, |t.rows|);
    }
  }

  /** A new category is listed exactly when "available" is among the requested statuses. */
  lemma CreateThenList(t: Table<Category>, name: string, now: int, statuses: seq<string>)
    ensures var r := Create(t, name, now);
      r.0.Success? ==>
        && (r.0.value in ListByStatus(r.1, statuses) <==> DefaultStatus in statuses)
        && forall c :: c in t.rows ==> (c in ListByStatus(r.1, statuses) <==> c in ListByStatus(t, statuses))
  {
  }

  /** In a keyed table, the edited row is the old row with the patch laid over it, as the columns store it. */
  lemma EditPatchesOver(t: Table<Category>, id: int, patch: CategoryPatch, now: int, i: nat)
    requires Keyed(t, IdOf)
    requires i < |t.rows| && t.rows[i].id == id
    ensures var r := Edit(t, id, patch, now);
      r.0.Success? ==> Fits(Merge(t.rows[i], patch, now)) && r.1.rows[i] == Stored(Merge(t.rows[i], patch, now))
  {
    FirstKeyed(t, IdOf, (c: Category) => c.id == id, id, i);
  }
}
