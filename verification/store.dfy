/**
 * The relational state behind the models: each table is the sequence of its
 * rows in physical order plus the last value its `serial` id sequence issued.
 * The SQL statements the models send are single-table inserts, filters and
 * keyed updates, written here once over any row type.
 *
 * PostgreSQL sequences are not transactional: an insert that fails (a
 * constraint violation) has already drawn its id, and a rollback does not give
 * it back. `Consume` and `Rollback` keep that behaviour.
 *
 * A parameterised statement fails before any id is drawn and before any row
 * is matched when a parameter does not bind to its `integer` type, or when a
 * value does not fit its `varchar(n)` or `decimal(10, 2)` column: the driver
 * sends an unnamed statement, which PostgreSQL plans with the bound values as
 * constants, and the length and precision coercions are evaluated while it is
 * planned. NOT NULL, CHECK, unique and foreign-key constraints run later, on
 * the row being written, after the id is drawn.
 */
module Store {
  import opened Wrappers
  import opened Errors
  import Numeric
  import Text

  datatype Table<R> = Table(rows: seq<R>, last: nat)

  function Empty<R>(): (t: Table<R>)
    ensures |t.rows| == 0
  {
    Table([], 0)
  }

  /** The id the next insert draws from the table's sequence. */
  function NextId<R>(t: Table<R>): nat {
    t.last + 1
  }

  /** A successful `INSERT ... RETURNING *` of one row built with `NextId(t)`. */
  function Append<R>(t: Table<R>, row: R): (u: Table<R>)
    ensures u.rows == t.rows + [row]
    ensures u.last == NextId(t)
  {
    Table(t.rows + [row], t.last + 1)
  }

  /** A failed insert: the id is drawn, no row is written. */
  function Consume<R>(t: Table<R>): (u: Table<R>)
    ensures u.rows == t.rows && u.last == NextId(t)
  {
    t.(last := t.last + 1)
  }

  /**
   * `ROLLBACK` of a transaction that started at `before` and reached `after`:
   * the rows are those of `before`, the sequence keeps what `after` drew.
   */
  function Rollback<R>(before: Table<R>, after: Table<R>): (u: Table<R>)
    ensures u.rows == before.rows && u.last == after.last
  {
    Table(before.rows, after.last)
  }

  /** Every row's id was issued by the table's sequence, and no id appears twice. */
  predicate Keyed<R>(t: Table<R>, id: R -> nat) {
    && (forall i :: 0 <= i < |t.rows| ==> 1 <= id(t.rows[i]) <= t.last)
    && (forall i, j :: 0 <= i < j < |t.rows| ==> id(t.rows[i]) != id(t.rows[j]))
  }

  lemma AppendKeyed<R>(t: Table<R>, id: R -> nat, row: R)
    requires Keyed(t, id)
    requires id(row) == NextId(t)
    ensures Keyed(Append(t, row), id)
  {
    var u := Append(t, row);
    assert forall i :: 0 <= i < |t.rows| ==> u.rows[i] == t.rows[i];
  }

  /** In a keyed table, at most one row carries a given id. */
  lemma KeyedUnique<R>(t: Table<R>, id: R -> nat, i: nat, j: nat)
    requires Keyed(t, id)
    requires i < |t.rows| && j < |t.rows| && id(t.rows[i]) == id(t.rows[j])
    ensures i == j
  {
  }

  /** In a keyed table, every other row carries another id than row `k`. */
  lemma KeyedOthers<R>(t: Table<R>, id: R -> nat, k: nat)
    requires Keyed(t, id) && k < |t.rows|
    ensures forall j :: 0 <= j < |t.rows| && j != k ==> id(t.rows[j]) != id(t.rows[k])
  {
    forall j | 0 <= j < |t.rows| && j != k ensures id(t.rows[j]) != id(t.rows[k]) {
      if j < k {
        assert id(t.rows[j]) != id(t.rows[k]);
      } else {
        assert id(t.rows[k]) != id(t.rows[j]);
      }
    }
  }

  // ---------------------------------------------------------------------------
  // Statements over rows
  // ---------------------------------------------------------------------------

  /** `SELECT * ... WHERE p`, in table order. */
  function Where<R(==,!new)>(rows: seq<R>, p: R -> bool): (r: seq<R>)
    ensures |r| <= |rows|
    ensures forall x :: x in r <==> x in rows && p(x)
    ensures forall i :: 0 <= i < |r| ==> p(r[i])
  {
    if |rows| == 0 then []
    else (if p(rows[0]) then [rows[0]] else []) + Where(rows[1..], p)
  }

  /** `UPDATE ... SET f WHERE p`: the table after the statement. */
  function UpdateWhere<R>(rows: seq<R>, p: R -> bool, f: R -> R): (r: seq<R>)
    ensures |r| == |rows|
    ensures forall i :: 0 <= i < |rows| && p(rows[i]) ==> r[i] == f(rows[i])
    ensures forall i :: 0 <= i < |rows| && !p(rows[i]) ==> r[i] == rows[i]
  {
    if |rows| == 0 then []
    else [if p(rows[0]) then f(rows[0]) else rows[0]] + UpdateWhere(rows[1..], p, f)
  }

  /** `UPDATE ... RETURNING *`: the updated rows, in table order. */
  function Updated<R(==,!new)>(rows: seq<R>, p: R -> bool, f: R -> R): (r: seq<R>)
    ensures |r| <= |rows|
    ensures forall y :: y in r <==> exists x :: x in rows && p(x) && y == f(x)
  {
    if |rows| == 0 then []
    else (if p(rows[0]) then [f(rows[0])] else []) + Updated(rows[1..], p, f)
  }

  /** Whether the statement's filter matches at least one row. */
  predicate Matches<R>(rows: seq<R>, p: R -> bool) {
    exists i :: 0 <= i < |rows| && p(rows[i])
  }

  lemma WhereEmpty<R(!new)>(rows: seq<R>, p: R -> bool)
    ensures |Where(rows, p)| == 0 <==> !Matches(rows, p)
  {
    if Matches(rows, p) {
      var i :| 0 <= i < |rows| && p(rows[i]);
      assert rows[i] in Where(rows, p);
    }
    if |Where(rows, p)| > 0 {
      var x := Where(rows, p)[0];
      assert x in rows;
      var i :| 0 <= i < |rows| && rows[i] == x;
      assert p(rows[i]);
    }
  }

  lemma WhereNone<R(!new)>(rows: seq<R>, p: R -> bool)
    requires forall i :: 0 <= i < |rows| ==> !p(rows[i])
    ensures Where(rows, p) == []
  {
  }

  /** The first row the filter matches, as a `LIMIT 1` or `rows[0]` reads it. */
  lemma WhereFirst<R(!new)>(rows: seq<R>, p: R -> bool, i: nat)
    requires i < |rows| && p(rows[i])
    requires forall j :: 0 <= j < i ==> !p(rows[j])
    ensures |Where(rows, p)| > 0 && Where(rows, p)[0] == rows[i]
  {
    if i > 0 {
      WhereFirst(rows[1..], p, i - 1);
    }
  }

  /** Rewriting rows in place without changing any id keeps the table keyed. */
  lemma SameIdsKeyed<R>(t: Table<R>, u: Table<R>, id: R -> nat)
    requires Keyed(t, id)
    requires u.last == t.last && |u.rows| == |t.rows|
    requires forall i :: 0 <= i < |t.rows| ==> id(u.rows[i]) == id(t.rows[i])
    ensures Keyed(u, id)
  {
  }

  /** The first row the filter matches: `rows[0]` of a SELECT, or `LIMIT 1`. */
  function First<R(==,!new)>(rows: seq<R>, p: R -> bool): (r: Option<R>)
    ensures r.Some? <==> Matches(rows, p)
    ensures r.Some? ==> r.value in rows && p(r.value)
  {
    var found := Where(rows, p);
    WhereEmpty(rows, p);
    if |found| == 0 then None
    else
      assert found[0] in found;
      Some(found[0])
  }

  /** Filters that agree on every row select the same rows. */
  lemma {:induction false} WhereCongruent<R(!new)>(rows: seq<R>, p: R -> bool, q: R -> bool)
    requires forall x :: p(x) == q(x)
    ensures Where(rows, p) == Where(rows, q)
  {
    if |rows| > 0 {
      WhereCongruent(rows[1..], p, q);
    }
  }

  lemma FirstCongruent<R(!new)>(rows: seq<R>, p: R -> bool, q: R -> bool)
    requires forall x :: p(x) == q(x)
    ensures First(rows, p) == First(rows, q)
  {
    WhereCongruent(rows, p, q);
  }

  /** In a keyed table, the row an id filter finds is the only one with that id. */
  lemma FirstKeyed<R(!new)>(t: Table<R>, id: R -> nat, p: R -> bool, k: int, i: nat)
    requires Keyed(t, id)
    requires forall x :: p(x) <==> id(x) == k
    requires i < |t.rows| && id(t.rows[i]) == k
    ensures First(t.rows, p) == Some(t.rows[i])
  {
    var found := First(t.rows, p);
    assert p(t.rows[i]);
    var j :| 0 <= j < |t.rows| && t.rows[j] == found.value;
    KeyedUnique(t, id, i, j);
  }

  // ---------------------------------------------------------------------------
  // Driver errors
  // ---------------------------------------------------------------------------

  /** The language of the server's error messages (`lc_messages`). */
  datatype Locale = English | BrazilianPortuguese

  /** The text of a foreign-key violation raised by an insert into `table`. */
  function ForeignKeyMessage(locale: Locale, table: string, constraint: string): string {
    match locale
    case English =>
      "insert or update on table \"" + table + "\" violates foreign key constraint \"" + constraint + "\""
    case BrazilianPortuguese =>
      "inserção ou atualização em tabela \"" + table + "\" viola restrição de chave estrangeira \"" + constraint + "\""
  }

  function ForeignKeyError(locale: Locale, table: string, constraint: string): (e: DbError)
    ensures e.code == ForeignKeyViolation
  {
    DbError(ForeignKeyViolation, ForeignKeyMessage(locale, table, constraint))
  }

  function UniqueError(constraint: string): (e: DbError)
    ensures e.code == UniqueViolation
  {
    DbError(UniqueViolation, "duplicate key value violates unique constraint \"" + constraint + "\"")
  }

  function CheckError(table: string, constraint: string): (e: DbError)
    ensures e.code == CheckViolation
  {
    DbError(CheckViolation, "new row for relation \"" + table + "\" violates check constraint \"" + constraint + "\"")
  }

  function NotNullError(table: string, column: string): (e: DbError)
    ensures e.code == NotNullViolation
  {
    DbError(NotNullViolation, "null value in column \"" + column + "\" of relation \"" + table + "\" violates not-null constraint")
  }

  // ---------------------------------------------------------------------------
  // Column types
  // ---------------------------------------------------------------------------

  /** The range of PostgreSQL's `integer` (`int4`), which `serial` columns share. */
  const IntegerMin: int := -0x8000_0000
  const IntegerMax: int := 0x7FFF_FFFF

  /** A value an `integer` parameter or column accepts. */
  predicate FitsInteger(x: int) {
    IntegerMin <= x <= IntegerMax
  }

  /** Every element of an `integer[]` parameter fits `integer`. */
  predicate AllFitInteger(xs: seq<int>) {
    forall i :: 0 <= i < |xs| ==> FitsInteger(xs[i])
  }

  /** The first element outside the `integer` range, which the bind error quotes. */
  function FirstUnfit(xs: seq<int>): (x: int)
    requires !AllFitInteger(xs)
    ensures !FitsInteger(x) && x in xs
  {
    if !FitsInteger(xs[0]) then xs[0] else FirstUnfit(xs[1..])
  }

  /** A nullable `integer` parameter: NULL always binds. */
  predicate FitsOptInteger(x: Option<int>) {
    x.None? || FitsInteger(x.value)
  }

  /** The cents of a non-negative value, rounded half up. */
  function Cents(x: real): int
    requires x >= 0.0
  {
    (x * 100.0 + 0.5).Floor
  }

  /**
   * The value a `decimal(10, 2)` column stores: the input rounded to two
   * decimal places, halves away from zero, so it moves by at most half a cent.
   */
  function Decimal2(x: real): (r: real)
    ensures -0.005 <= r - x <= 0.005
  {
    if x >= 0.0 then Cents(x) as real / 100.0 else -(Cents(-x) as real / 100.0)
  }

  /** `decimal(10, 2)` keeps eight digits before the point: the rounded value must stay below 10^8. */
  predicate FitsDecimal(x: real) {
    -100000000.0 < Decimal2(x) < 100000000.0
  }

  /**
   * A string `varchar(n)` accepts on assignment. Its length counts code
   * points; a longer value is refused unless every excess character is a
   * space.
   */
  predicate FitsVarchar(s: string, n: nat) {
    forall i :: n <= i < |s| ==> s[i] == ' '
  }

  /** The value a `varchar(n)` column stores: the string cut to `n` characters, which drops only spaces. */
  function Varchar(s: string, n: nat): (r: string)
    requires FitsVarchar(s, n)
    ensures |r| <= n && r <= s
    ensures |s| <= n ==> r == s
    ensures |r| < n ==> r == s
    ensures forall i :: |r| <= i < |s| ==> s[i] == ' '
  {
    if |s| <= n then s else s[..n]
  }

  /**
   * When every member of a CHECK list is shorter than `n`, a string passes
   * `varchar(n)` and then the CHECK exactly when it is a member itself, and
   * it is stored unchanged.
   */
  lemma ShortMembers(s: string, n: nat, allowed: set<string>)
    requires forall x :: x in allowed ==> |x| < n
    ensures s in allowed ==> FitsVarchar(s, n) && Varchar(s, n) == s
    ensures FitsVarchar(s, n) ==> (Varchar(s, n) in allowed <==> s in allowed)
  {
  }

  /** A nullable `varchar(n)` value: NULL always fits. */
  predicate FitsOptVarchar(s: Option<string>, n: nat) {
    s.None? || FitsVarchar(s.value, n)
  }

  /** The stored form of a nullable `varchar(n)` value. */
  function OptVarchar(s: Option<string>, n: nat): (r: Option<string>)
    requires FitsOptVarchar(s, n)
    ensures r.Some? <==> s.Some?
    ensures r.Some? ==> |r.value| <= n && r.value <= s.value
  {
    if s.Some? then Some(Varchar(s.value, n)) else None
  }

  /** A nullable `decimal(10, 2)` value. */
  predicate FitsOptDecimal(x: Option<real>) {
    x.None? || FitsDecimal(x.value)
  }

  /** The stored form of a nullable `decimal(10, 2)` value. */
  function OptDecimal2(x: Option<real>): (r: Option<real>)
    ensures r.Some? <==> x.Some?
  {
    if x.Some? then Some(Decimal2(x.value)) else None
  }

  /** The stored value has two decimal places. */
  lemma Decimal2Places(x: real)
    ensures Numeric.IsIntegral(Decimal2(x) * 100.0)
  {
    var k := if x >= 0.0 then Cents(x) else -Cents(-x);
    assert Decimal2(x) == k as real / 100.0;
    assert (k as real / 100.0) * 100.0 == k as real;
    assert (k as real).Floor == k;
  }

  /** A value that already has two decimal places is stored unchanged. */
  lemma Decimal2Keeps(x: real)
    requires Numeric.IsIntegral(x * 100.0)
    ensures Decimal2(x) == x
  {
    var k := (x * 100.0).Floor;
    if x >= 0.0 {
      assert (x * 100.0 + 0.5).Floor == k;
    } else {
      assert (-x * 100.0 + 0.5).Floor == -k;
    }
  }

  /** Storing twice stores the same value as storing once. */
  lemma Decimal2Idempotent(x: real)
    ensures Decimal2(Decimal2(x)) == Decimal2(x)
  {
    Decimal2Places(x);
    Decimal2Keeps(Decimal2(x));
  }

  /** The decimal text of an integer, as PostgreSQL quotes a rejected value. */
  function IntText(x: int): (s: string)
    ensures |s| >= 1
  {
    if x < 0 then "-" + Text.NatText(-x) else Text.NatText(x)
  }

  /**
   * A value that does not fit its column's type, as the server words it: a
   * 22003 for an `integer` out of range or a numeric field overflow, a 22001
   * for a string too long for its `varchar(n)`. None of the messages starts
   * like a foreign-key violation's.
   */
  predicate ColumnError(e: DbError) {
    (e.code == OutOfRange || e.code == StringTooLong) && |e.message| > 0 && (e.message[0] == 'v' || e.message[0] == 'n')
  }

  /** SQLSTATE 22003 raised while binding an `integer` parameter, before the statement runs. */
  function IntegerRangeError(x: int): (e: DbError)
    ensures ColumnError(e)
  {
    DbError(OutOfRange, "value \"" + IntText(x) + "\" is out of range for type integer")
  }

  /** SQLSTATE 22003 raised while storing a `decimal(10, 2)` value that needs more than eight integer digits. */
  function NumericOverflowError(): (e: DbError)
    ensures ColumnError(e)
  {
    DbError(OutOfRange, "numeric field overflow")
  }

  /** SQLSTATE 22001 raised while storing a string too long for its `varchar(n)` column. */
  function TooLongError(n: nat): (e: DbError)
    ensures ColumnError(e) && e.code == StringTooLong
  {
    DbError(StringTooLong, "value too long for type character varying(" + Text.NatText(n) + ")")
  }
}
