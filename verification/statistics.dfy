/**
 * The statistics page's two charts over the grouped finished orders: the
 * number of orders per calendar month and the number of product entries per
 * product name. The month of a timestamp (`new Date(t).getMonth()`, which
 * depends on the browser's time zone) is a parameter.
 */
module Statistics {
  import opened Wrappers
  import Grouping
  import JsObject

  /** The x-axis labels of the monthly chart. */
  const MonthNames: seq<string> := [
    "Janeiro", "Fevereiro", "Março", "Abril", "Maio", "Junho",
    "Julho", "Agosto", "Setembro", "Outubro", "Novembro", "Dezembro"]

  function Sum(xs: seq<nat>): nat {
    if |xs| == 0 then 0 else xs[0] + Sum(xs[1..])
  }

  // ---------------------------------------------------------------------------
  // Orders per month
  // ---------------------------------------------------------------------------

  /** A month function maps every timestamp to 0 (January) .. 11 (December). */
  ghost predicate IsMonthFunction(month: int -> int) {
    forall t :: 0 <= month(t) < 12
  }

  /** The month of each group's creation time, in list order. */
  function Months(groups: seq<Grouping.Entry>, month: int -> int): (r: seq<int>)
    ensures |r| == |groups|
    ensures forall i :: 0 <= i < |groups| ==> r[i] == month(groups[i].header.createdAt)
  {
    seq(|groups|, i requires 0 <= i < |groups| => month(groups[i].header.createdAt))
  }

  /** Adding one to an entry adds one to the sum. */
  lemma {:induction false} SumBump(xs: seq<nat>, p: nat)
    requires p < |xs|
    ensures Sum(xs[p := xs[p] + 1]) == Sum(xs) + 1
  {
    var ys := xs[p := xs[p] + 1];
    if p > 0 {
      assert ys[1..] == xs[1..][p - 1 := xs[p] + 1];
      SumBump(xs[1..], p - 1);
    } else {
      assert ys[1..] == xs[1..];
    }
  }

  lemma {:induction false} SumAppend(xs: seq<nat>, x: nat)
    ensures Sum(xs + [x]) == Sum(xs) + x
  {
    if |xs| > 0 {
      assert (xs + [x])[1..] == xs[1..] + [x];
      SumAppend(xs[1..], x);
    }
  }

  lemma {:induction false} SumZeros(n: nat)
    ensures Sum(seq(n, _ => 0)) == 0
  {
    if n > 0 {
      assert seq(n, _ => 0)[1..] == seq(n - 1, _ => 0);
      SumZeros(n - 1);
    }
  }

  /**
   * `countOrderQuantityValues`: twelve buckets, bucket `m` holding the number
   * of groups created in month `m`; every group lands in exactly one bucket.
   */
  method MonthlyCounts(groups: seq<Grouping.Entry>, month: int -> int) returns (counts: seq<nat>)
    requires IsMonthFunction(month)
    ensures |counts| == |MonthNames| == 12
    ensures forall m :: 0 <= m < 12 ==> counts[m] == multiset(Months(groups, month))[m]
    ensures Sum(counts) == |groups|
  {
    var months := Months(groups, month);
    counts := seq(12, _ => 0);
    SumZeros(12);
    var k := 0;
    while k < |groups|
      invariant 0 <= k <= |groups|
      invariant |counts| == 12
      invariant forall m :: 0 <= m < 12 ==> counts[m] == multiset(months[..k])[m]
      invariant Sum(counts) == k
    {
      var m := month(groups[k].header.createdAt);
      assert months[..k + 1] == months[..k] + [m];
      SumBump(counts, m);
      counts := counts[m := counts[m] + 1];
      k := k + 1;
    }
    assert months[..k] == months;
  }

  // ---------------------------------------------------------------------------
  // Product entries per name
  // ---------------------------------------------------------------------------

  /** One property of `productCounts`: a product name and how often it was seen. */
  datatype Tally = Tally(name: string, count: nat)

  /** Every product entry's name, group by group, in the order `forEach` visits them. */
  function ProductNames(groups: seq<Grouping.Entry>): (r: seq<string>) {
    if |groups| == 0 then []
    else
      var items := groups[|groups| - 1].product;
      ProductNames(groups[..|groups| - 1]) + seq(|items|, i requires 0 <= i < |items| => items[i].name)
  }

  /** The number of product entries in all groups. */
  function ItemCount(groups: seq<Grouping.Entry>): nat {
    if |groups| == 0 then 0 else ItemCount(groups[..|groups| - 1]) + |groups[|groups| - 1].product|
  }

  lemma {:induction false} ProductNamesCount(groups: seq<Grouping.Entry>)
    ensures |ProductNames(groups)| == ItemCount(groups)
  {
    if |groups| > 0 {
      ProductNamesCount(groups[..|groups| - 1]);
    }
  }

  function Names(ts: seq<Tally>): (r: seq<string>)
    ensures |r| == |ts| && forall i :: 0 <= i < |ts| ==> r[i] == ts[i].name
  {
    seq(|ts|, i requires 0 <= i < |ts| => ts[i].name)
  }

  function Counts(ts: seq<Tally>): (r: seq<nat>)
    ensures |r| == |ts| && forall i :: 0 <= i < |ts| ==> r[i] == ts[i].count
  {
    seq(|ts|, i requires 0 <= i < |ts| => ts[i].count)
  }

  /** Where the tally for `name` is, if there is one. */
  function Position(ts: seq<Tally>, name: string): (r: Option<nat>)
    ensures r.Some? ==> r.value < |ts| && ts[r.value].name == name
    ensures r.None? ==> name !in Names(ts)
  {
    if |ts| == 0 then None
    else if ts[|ts| - 1].name == name then Some(|ts| - 1)
    else
      var r := Position(ts[..|ts| - 1], name);
      assert Names(ts) == Names(ts[..|ts| - 1]) + [ts[|ts| - 1].name];
      r
  }

  /** The sum of the counts of a tally list. */
  function Total(ts: seq<Tally>): nat {
    if |ts| == 0 then 0 else ts[0].count + Total(ts[1..])
  }

  lemma {:induction false} TotalIsSum(ts: seq<Tally>)
    ensures Total(ts) == Sum(Counts(ts))
  {
    if |ts| > 0 {
      assert Counts(ts)[1..] == Counts(ts[1..]);
      TotalIsSum(ts[1..]);
    }
  }

  lemma {:induction false} TotalUpdate(ts: seq<Tally>, p: nat, t: Tally)
    requires p < |ts|
    ensures Total(ts[p := t]) + ts[p].count == Total(ts) + t.count
  {
    if p > 0 {
      assert ts[p := t][1..] == ts[1..][p - 1 := t];
      TotalUpdate(ts[1..], p - 1, t);
    } else {
      assert ts[p := t][1..] == ts[1..];
    }
  }

  lemma {:induction false} TotalAppend(ts: seq<Tally>, t: Tally)
    ensures Total(ts + [t]) == Total(ts) + t.count
  {
    if |ts| > 0 {
      assert (ts + [t])[1..] == ts[1..] + [t];
      TotalAppend(ts[1..], t);
    }
  }

  /** Two tally lists holding the same tallies have the same total. */
  lemma {:induction false} TotalPermutation(a: seq<Tally>, b: seq<Tally>)
    requires multiset(a) == multiset(b)
    ensures Total(a) == Total(b)
    decreases |a|
  {
    if |a| > 0 {
      var j := Occurrence(b, a[0]);
      var rest := b[..j] + b[j + 1..];
      PermutationTail(a, b, j);
      TotalPermutation(a[1..], rest);
      TotalRemove(b, j);
    } else {
      assert |multiset(b)| == 0;
    }
  }

  /** An index at which an element of `multiset(s)` occurs in `s`. */
  function Occurrence<T(==)>(s: seq<T>, x: T): (j: nat)
    requires x in multiset(s)
    ensures j < |s| && s[j] == x
  {
    if s[0] == x then 0
    else
      assert s == [s[0]] + s[1..];
      1 + Occurrence(s[1..], x)
  }

  /** Matching the head of `a` with `b[j]` leaves two lists holding the same elements. */
  lemma PermutationTail<T>(a: seq<T>, b: seq<T>, j: nat)
    requires multiset(a) == multiset(b) && |a| > 0 && j < |b| && b[j] == a[0]
    ensures multiset(a[1..]) == multiset(b[..j] + b[j + 1..])
  {
    var rest := b[..j] + b[j + 1..];
    assert b == b[..j] + ([b[j]] + b[j + 1..]);
    assert multiset(b) == multiset(b[..j]) + (multiset{b[j]} + multiset(b[j + 1..]));
    assert multiset(rest) == multiset(b[..j]) + multiset(b[j + 1..]);
    assert a == [a[0]] + a[1..];
    assert multiset(a) == multiset{a[0]} + multiset(a[1..]);
    forall x ensures multiset(a[1..])[x] == multiset(rest)[x] {
      assert multiset(a)[x] == multiset(b)[x];
    }
  }

  /** Taking one tally out takes its count off the total. */
  lemma {:induction false} TotalRemove(ts: seq<Tally>, j: nat)
    requires j < |ts|
    ensures Total(ts) == ts[j].count + Total(ts[..j] + ts[j + 1..])
  {
    if j == 0 {
      assert ts[..j] + ts[j + 1..] == ts[1..];
    } else {
      var tail := ts[1..];
      TotalRemove(tail, j - 1);
      var rest := ts[..j] + ts[j + 1..];
      assert rest[0] == ts[0];
      assert rest[1..] == tail[..j - 1] + tail[j..];
    }
  }

  /** The key of a tally is an array index when the product name is a canonical numeral below 2^32 - 1. */
  function TallyIndex(t: Tally): Option<nat> {
    JsObject.StringIndex(t.name)
  }

  /** What the loop of `countProductQuantityValues` keeps true after seeing `seen`. */
  ghost predicate Tallied(seen: seq<string>, ts: seq<Tally>) {
    && JsObject.Distinct(Names(ts))
    && (forall n :: n in Names(ts) <==> n in seen)
    && (forall i :: 0 <= i < |ts| ==> ts[i].count == multiset(seen)[ts[i].name])
    && Total(ts) == |seen|
  }

  /** Seeing one more name: bump its tally, or add a tally of 1 at the end. */
  function See(ts: seq<Tally>, name: string): (r: seq<Tally>) {
    match Position(ts, name)
    case Some(p) => ts[p := Tally(name, ts[p].count + 1)]
    case None => ts + [Tally(name, 1)]
  }

  /** Tallies are added the first time a name is seen, so their names come in first-occurrence order. */
  lemma SeeNames(seen: seq<string>, ts: seq<Tally>, name: string)
    requires Names(ts) == Grouping.Dedup(seen)
    ensures Names(See(ts, name)) == Grouping.Dedup(seen + [name])
  {
    assert (seen + [name])[..|seen|] == seen;
    match Position(ts, name)
    case Some(p) =>
      assert name in Names(ts);
      assert Names(See(ts, name)) == Names(ts);
    case None =>
      assert Names(See(ts, name)) == Names(ts) + [name];
  }

  /** The names of the tallies picked by key kind are the names picked by key kind. */
  lemma {:induction false} NamesPicks(ts: seq<Tally>, indexed: bool)
    ensures Names(JsObject.Picks(ts, TallyIndex, indexed)) == JsObject.Picks(Names(ts), JsObject.StringIndex, indexed)
  {
    if |ts| > 0 {
      NamesPicks(ts[1..], indexed);
      assert Names(ts)[1..] == Names(ts[1..]);
      var head := if TallyIndex(ts[0]).Some? == indexed then [ts[0]] else [];
      var rest := JsObject.Picks(ts[1..], TallyIndex, indexed);
      assert JsObject.Picks(ts, TallyIndex, indexed) == head + rest;
      assert Names(head + rest) == Names(head) + Names(rest);
    }
  }

  lemma SeeTallied(seen: seq<string>, ts: seq<Tally>, name: string)
    requires Tallied(seen, ts)
    ensures Tallied(seen + [name], See(ts, name))
  {
    var r := See(ts, name);
    assert multiset(seen + [name]) == multiset(seen) + multiset{name};
    match Position(ts, name)
    case Some(p) =>
      assert Names(r) == Names(ts);
      TotalUpdate(ts, p, r[p]);
      forall i | 0 <= i < |r| ensures r[i].count == multiset(seen + [name])[r[i].name] {
        if i != p {
          assert Names(ts)[i] != Names(ts)[p];
        }
      }
    case None =>
      assert Names(r) == Names(ts) + [name];
      TotalAppend(ts, Tally(name, 1));
  }

  /**
   * `countProductQuantityValues`: `Object.keys` and `Object.values` of the
   * `productCounts` object, index-aligned. Each name occurs once, each count
   * is the number of product entries with that name (so at least 1), the
   * counts add up to the number of product entries, and the names are in
   * the object's own-key order: array-index names first, ascending, then the
   * other names in the order of their first occurrence.
   */
  method CountProducts(groups: seq<Grouping.Entry>) returns (names: seq<string>, quantities: seq<nat>)
    ensures |names| == |quantities|
    ensures JsObject.Distinct(names)
    ensures forall n :: n in names <==> n in ProductNames(groups)
    ensures forall i :: 0 <= i < |names| ==>
      quantities[i] == multiset(ProductNames(groups))[names[i]] && quantities[i] >= 1
    ensures Sum(quantities) == ItemCount(groups)
    ensures forall i, j :: 0 <= i < j < |names| && JsObject.StringIndex(names[j]).Some? ==>
      JsObject.StringIndex(names[i]).Some? && JsObject.StringIndex(names[i]).value <= JsObject.StringIndex(names[j]).value
    ensures JsObject.Picks(names, JsObject.StringIndex, false)
      == JsObject.Picks(Grouping.Dedup(ProductNames(groups)), JsObject.StringIndex, false)
  {
    var all := ProductNames(groups);
    var ts := TallyNames(all);
    var ordered := JsObject.KeyOrder(ts, TallyIndex);
    OrderedTallies(all, ts, ordered);
    ProductNamesCount(groups);
    TalliedSeries(all, ordered);
    NamesPicks(ordered, false);
    NamesPicks(ts, false);
    names := Names(ordered);
    quantities := Counts(ordered);
  }

  /** The `forEach` loop filling `productCounts`, in insertion order: a name's tally is added when it is first seen. */
  method TallyNames(all: seq<string>) returns (ts: seq<Tally>)
    ensures Tallied(all, ts)
    ensures Names(ts) == Grouping.Dedup(all)
  {
    ts := [];
    var k := 0;
    while k < |all|
      invariant 0 <= k <= |all|
      invariant Tallied(all[..k], ts)
      invariant Names(ts) == Grouping.Dedup(all[..k])
    {
      assert all[..k + 1] == all[..k] + [all[k]];
      SeeTallied(all[..k], ts, all[k]);
      SeeNames(all[..k], ts, all[k]);
      ts := See(ts, all[k]);
      k := k + 1;
    }
    assert all[..k] == all;
  }

  /** The two series read off a tally of `seen` whose counts are all positive. */
  lemma TalliedSeries(seen: seq<string>, ts: seq<Tally>)
    requires Tallied(seen, ts)
    requires forall i :: 0 <= i < |ts| ==> ts[i].count >= 1
    requires forall i, j :: 0 <= i < j < |ts| && TallyIndex(ts[j]).Some? ==>
      TallyIndex(ts[i]).Some? && TallyIndex(ts[i]).value <= TallyIndex(ts[j]).value
    ensures var names, quantities := Names(ts), Counts(ts);
      && JsObject.Distinct(names)
      && (forall n :: n in names <==> n in seen)
      && (forall i :: 0 <= i < |names| ==> quantities[i] == multiset(seen)[names[i]] && quantities[i] >= 1)
      && Sum(quantities) == |seen|
      && (forall i, j :: 0 <= i < j < |names| && JsObject.StringIndex(names[j]).Some? ==>
            JsObject.StringIndex(names[i]).Some? && JsObject.StringIndex(names[i]).value <= JsObject.StringIndex(names[j]).value)
  {
    TotalIsSum(ts);
  }

  /** A reordering of a tally of `seen` is still one, and every count in it is at least 1. */
  lemma OrderedTallies(seen: seq<string>, ts: seq<Tally>, ordered: seq<Tally>)
    requires Tallied(seen, ts)
    requires multiset(ordered) == multiset(ts)
    ensures Tallied(seen, ordered)
    ensures forall i :: 0 <= i < |ordered| ==> ordered[i].count >= 1
  {
    TotalPermutation(ordered, ts);
    OrderedCounts(seen, ts, ordered);
    OrderedNames(seen, ts, ordered);
    OrderedDistinct(ts, ordered);
  }

  lemma OrderedCounts(seen: seq<string>, ts: seq<Tally>, ordered: seq<Tally>)
    requires Tallied(seen, ts)
    requires multiset(ordered) == multiset(ts)
    ensures forall i :: 0 <= i < |ordered| ==> ordered[i].count == multiset(seen)[ordered[i].name] >= 1
  {
    forall i | 0 <= i < |ordered| ensures ordered[i].count == multiset(seen)[ordered[i].name] >= 1 {
      var j := Occurrence(ts, ordered[i]);
      assert Names(ts)[j] in seen;
    }
  }

  lemma OrderedNames(seen: seq<string>, ts: seq<Tally>, ordered: seq<Tally>)
    requires Tallied(seen, ts)
    requires multiset(ordered) == multiset(ts)
    ensures forall n :: n in Names(ordered) <==> n in seen
  {
    forall n | n in seen ensures n in Names(ordered) {
      var j :| 0 <= j < |ts| && Names(ts)[j] == n;
      var i := Occurrence(ordered, ts[j]);
      assert Names(ordered)[i] == n;
    }
    forall n | n in Names(ordered) ensures n in seen {
      var i :| 0 <= i < |ordered| && Names(ordered)[i] == n;
      var j := Occurrence(ts, ordered[i]);
      assert Names(ts)[j] == n;
    }
  }

  lemma OrderedDistinct(ts: seq<Tally>, ordered: seq<Tally>)
    requires JsObject.Distinct(Names(ts))
    requires multiset(ordered) == multiset(ts)
    ensures JsObject.Distinct(Names(ordered))
  {
    JsObject.PermutationDistinct(ts, ordered);
    forall i, j | 0 <= i < j < |ordered| ensures Names(ordered)[i] != Names(ordered)[j] {
      var a := Occurrence(ts, ordered[i]);
      var b := Occurrence(ts, ordered[j]);
      assert a != b;
      if a < b {
        assert Names(ts)[a] != Names(ts)[b];
      } else {
        assert Names(ts)[b] != Names(ts)[a];
      }
    }
  }

  // ---------------------------------------------------------------------------
  // The page's effect
  // ---------------------------------------------------------------------------

  datatype Charts = Charts(monthly: seq<nat>, months: seq<string>, names: seq<string>, quantities: seq<nat>)

  /**
   * The `useEffect` on the grouped orders: nothing is computed while there
   * are no orders; otherwise both charts' series and labels.
   */
  method ChartData(groups: seq<Grouping.Entry>, month: int -> int) returns (r: Option<Charts>)
    requires IsMonthFunction(month)
    ensures r.None? <==> |groups| == 0
    ensures r.Some? ==>
      && r.value.months == MonthNames
      && |r.value.monthly| == 12
      && Sum(r.value.monthly) == |groups|
      && |r.value.names| == |r.value.quantities|
      && Sum(r.value.quantities) == ItemCount(groups)
      && forall i :: 0 <= i < |r.value.names| ==>
           r.value.quantities[i] == multiset(ProductNames(groups))[r.value.names[i]]
  {
    if |groups| <= 0 {
      return None;
    }
    var monthly := MonthlyCounts(groups, month);
    var names, quantities := CountProducts(groups);
    r := Some(Charts(monthly, MonthNames, names, quantities));
  }
}
