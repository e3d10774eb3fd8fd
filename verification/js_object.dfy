/**
 * The order in which a plain JavaScript object lists its own properties
 * (`Object.keys`, `Object.values`): first the keys that are array indices, in
 * ascending numeric order, then every other string key in insertion order.
 * An object is modelled by the sequence of its entries in insertion order,
 * and `index` says which array index, if any, an entry's key names.
 */
module JsObject {
  import opened Wrappers
  import Numeric

  /** 2^32 - 1: an array index is an integer below it. */
  const IndexBound: nat := 0x1_0000_0000 - 1

  /** The array index a property key names: the canonical decimal numeral of an integer below 2^32 - 1. */
  function StringIndex(s: string): (r: Option<nat>)
    ensures r.Some? <==> |s| > 0 && Numeric.AllDigits(s) && (s[0] != '0' || |s| == 1) && Numeric.DigitsValue(s) < IndexBound
    ensures r.Some? ==> r.value == Numeric.DigitsValue(s) && r.value < IndexBound
  {
    if |s| > 0 && Numeric.AllDigits(s) && (s[0] != '0' || |s| == 1) && Numeric.DigitsValue(s) < IndexBound
    then Some(Numeric.DigitsValue(s))
    else None
  }

  /**
   * The array index named by the key an integer (or `null`) becomes, `String(n)`:
   * an integer prints as its canonical numeral and `null` as "null".
   */
  function NumberIndex(n: Option<int>): (r: Option<nat>)
    ensures r.Some? <==> n.Some? && 0 <= n.value < IndexBound
    ensures r.Some? ==> r.value == n.value
  {
    if n.Some? && 0 <= n.value < IndexBound then Some(n.value as nat) else None
  }

  /** The entries whose key is (`indexed`) or is not (`!indexed`) an array index, in their original order. */
  function Picks<K>(s: seq<K>, index: K -> Option<nat>, indexed: bool): (r: seq<K>)
    ensures |r| <= |s|
  {
    if |s| == 0 then []
    else (if index(s[0]).Some? == indexed then [s[0]] else []) + Picks(s[1..], index, indexed)
  }

  /** Every entry's key is an array index. */
  predicate AllIndexed<K>(s: seq<K>, index: K -> Option<nat>) {
    forall i :: 0 <= i < |s| ==> index(s[i]).Some?
  }

  /** No entry's key is an array index. */
  predicate NoneIndexed<K>(s: seq<K>, index: K -> Option<nat>) {
    forall i :: 0 <= i < |s| ==> index(s[i]).None?
  }

  predicate Ascending<K>(s: seq<K>, index: K -> Option<nat>)
    requires AllIndexed(s, index)
  {
    forall i, j :: 0 <= i < j < |s| ==> index(s[i]).value <= index(s[j]).value
  }

  predicate AtLeast<K>(s: seq<K>, index: K -> Option<nat>, low: nat)
    requires AllIndexed(s, index)
  {
    forall i :: 0 <= i < |s| ==> low <= index(s[i]).value
  }

  /** One step of an insertion sort by index. */
  function Insert<K(==)>(k: K, sorted: seq<K>, index: K -> Option<nat>): (r: seq<K>)
    requires index(k).Some? && AllIndexed(sorted, index)
    ensures multiset(r) == multiset(sorted) + multiset{k}
    ensures AllIndexed(r, index)
  {
    if |sorted| == 0 then [k]
    else if index(k).value <= index(sorted[0]).value then [k] + sorted
    else
      assert sorted == [sorted[0]] + sorted[1..];
      [sorted[0]] + Insert(k, sorted[1..], index)
  }

  lemma {:induction false} InsertAtLeast<K>(k: K, sorted: seq<K>, index: K -> Option<nat>, low: nat)
    requires index(k).Some? && AllIndexed(sorted, index)
    requires low <= index(k).value && AtLeast(sorted, index, low)
    ensures AtLeast(Insert(k, sorted, index), index, low)
  {
    if |sorted| > 0 && index(k).value > index(sorted[0]).value {
      InsertAtLeast(k, sorted[1..], index, low);
    }
  }

  lemma {:induction false} InsertAscending<K>(k: K, sorted: seq<K>, index: K -> Option<nat>)
    requires index(k).Some? && AllIndexed(sorted, index)
    requires Ascending(sorted, index)
    ensures Ascending(Insert(k, sorted, index), index)
  {
    if |sorted| > 0 && index(k).value > index(sorted[0]).value {
      var rest := Insert(k, sorted[1..], index);
      InsertAscending(k, sorted[1..], index);
      InsertAtLeast(k, sorted[1..], index, index(sorted[0]).value);
      var r := [sorted[0]] + rest;
      assert r == Insert(k, sorted, index);
      forall i, j | 0 <= i < j < |r| ensures index(r[i]).value <= index(r[j]).value {
        if i > 0 {
          assert r[i] == rest[i - 1] && r[j] == rest[j - 1];
        } else {
          assert r[j] == rest[j - 1];
        }
      }
    }
  }

  function Sort<K(==)>(s: seq<K>, index: K -> Option<nat>): (r: seq<K>)
    requires AllIndexed(s, index)
    ensures multiset(r) == multiset(s)
    ensures AllIndexed(r, index)
    ensures Ascending(r, index)
  {
    if |s| == 0 then []
    else
      assert s == [s[0]] + s[1..];
      var rest := Sort(s[1..], index);
      InsertAscending(s[0], rest, index);
      Insert(s[0], rest, index)
  }

  /**
   * Own-property order: the index-keyed entries in ascending index order,
   * then the rest in insertion order.
   */
  function KeyOrder<K(==)>(s: seq<K>, index: K -> Option<nat>): (r: seq<K>)
    ensures multiset(r) == multiset(s)
    ensures forall i, j :: 0 <= i < j < |r| && index(r[j]).Some? ==>
      index(r[i]).Some? && index(r[i]).value <= index(r[j]).value
    ensures Picks(r, index, false) == Picks(s, index, false)
  {
    PicksIndexed(s, index);
    var indexed := Sort(Picks(s, index, true), index);
    var others := Picks(s, index, false);
    PicksSplit(s, index);
    PicksAppend(indexed, others, index);
    PicksNone(indexed, index);
    PicksAll(others, index);
    IndexedFirst(indexed, others, index);
    indexed + others
  }

  /** Ascending index keys followed by non-index keys are in own-property order. */
  lemma IndexedFirst<K>(indexed: seq<K>, others: seq<K>, index: K -> Option<nat>)
    requires AllIndexed(indexed, index) && Ascending(indexed, index)
    requires NoneIndexed(others, index)
    ensures var r := indexed + others;
      forall i, j :: 0 <= i < j < |r| && index(r[j]).Some? ==>
        index(r[i]).Some? && index(r[i]).value <= index(r[j]).value
  {
    var r := indexed + others;
    forall i, j | 0 <= i < j < |r| && index(r[j]).Some?
      ensures index(r[i]).Some? && index(r[i]).value <= index(r[j]).value
    {
      assert j < |indexed|;
      assert r[i] == indexed[i] && r[j] == indexed[j];
    }
  }

  lemma {:induction false} PicksIndexed<K>(s: seq<K>, index: K -> Option<nat>)
    ensures AllIndexed(Picks(s, index, true), index)
    ensures NoneIndexed(Picks(s, index, false), index)
  {
    if |s| > 0 {
      PicksIndexed(s[1..], index);
    }
  }

  /** The first entry goes to exactly one of the two picks. */
  lemma PicksCons<K>(s: seq<K>, index: K -> Option<nat>)
    requires |s| > 0
    ensures index(s[0]).Some? ==>
      && Picks(s, index, true) == [s[0]] + Picks(s[1..], index, true)
      && Picks(s, index, false) == Picks(s[1..], index, false)
    ensures index(s[0]).None? ==>
      && Picks(s, index, true) == Picks(s[1..], index, true)
      && Picks(s, index, false) == [s[0]] + Picks(s[1..], index, false)
  {
  }

  lemma MultisetCons<K>(x: K, s: seq<K>)
    ensures multiset([x] + s) == multiset{x} + multiset(s)
  {
  }

  lemma {:induction false} PicksSplit<K>(s: seq<K>, index: K -> Option<nat>)
    ensures multiset(Picks(s, index, true)) + multiset(Picks(s, index, false)) == multiset(s)
  {
    if |s| > 0 {
      var x, rest := s[0], s[1..];
      var yes, no := Picks(rest, index, true), Picks(rest, index, false);
      PicksSplit(rest, index);
      assert multiset(s) == multiset{x} + multiset(rest) by {
        assert s == [x] + rest;
        MultisetCons(x, rest);
      }
      PicksCons(s, index);
      if index(x).Some? {
        MultisetCons(x, yes);
      } else {
        MultisetCons(x, no);
      }
    }
  }

  lemma {:induction false} PicksAppend<K>(a: seq<K>, b: seq<K>, index: K -> Option<nat>)
    ensures Picks(a + b, index, false) == Picks(a, index, false) + Picks(b, index, false)
  {
    if |a| > 0 {
      assert (a + b)[1..] == a[1..] + b;
      PicksAppend(a[1..], b, index);
    } else {
      assert a + b == b;
    }
  }

  lemma {:induction false} PicksNone<K>(s: seq<K>, index: K -> Option<nat>)
    requires AllIndexed(s, index)
    ensures Picks(s, index, false) == []
  {
    if |s| > 0 {
      PicksNone(s[1..], index);
    }
  }

  lemma {:induction false} PicksAll<K>(s: seq<K>, index: K -> Option<nat>)
    requires NoneIndexed(s, index)
    ensures Picks(s, index, false) == s
  {
    if |s| > 0 {
      PicksAll(s[1..], index);
      assert s == [s[0]] + s[1..];
    }
  }

  /** Reordering keeps a sequence's elements distinct when they were. */
  predicate Distinct<K(==)>(s: seq<K>) {
    forall i, j :: 0 <= i < j < |s| ==> s[i] != s[j]
  }

  lemma {:induction false} DistinctOnce<K>(s: seq<K>, x: K)
    requires Distinct(s)
    ensures multiset(s)[x] <= 1
  {
    if |s| > 0 {
      assert s == [s[0]] + s[1..];
      DistinctOnce(s[1..], x);
      if s[0] == x {
        assert x !in s[1..];
      }
    }
  }

  lemma PermutationDistinct<K>(a: seq<K>, b: seq<K>)
    requires multiset(a) == multiset(b) && Distinct(a)
    ensures Distinct(b)
  {
    forall i, j | 0 <= i < j < |b| ensures b[i] != b[j] {
      if b[i] == b[j] {
        assert b == b[..j] + [b[j]] + b[j + 1..];
        assert b[i] in b[..j];
        assert multiset(b)[b[j]] >= 2;
        DistinctOnce(a, b[j]);
      }
    }
  }
}
