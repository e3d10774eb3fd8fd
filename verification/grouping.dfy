/**
 * The admin pages' `fetchOrders` transformation of the `GET /api/v1/orders`
 * rows, shared by the pending, accepted and statistics pages: each row is
 * flattened (its observation and ingredient lists move onto its first
 * product), then the rows are grouped by `order_id` with a `reduce` into a
 * plain object, whose `Object.values` is the list the page shows.
 */
module Grouping {
  import opened Wrappers
  import Orders
  import JsObject

  /**
   * A product as the page holds it: the `json_agg` name and price, plus the
   * keys flattening moves onto it. The keys are always added in this order,
   * so two items are equal exactly when their `JSON.stringify` texts are.
   */
  datatype Item = Item(
    name: string, price: real, observation: Option<string>,
    additional: Option<seq<Orders.ExtraBrief>>, removed: Option<seq<string>>)

  /** What is left of an order row once the three moved keys are deleted. */
  datatype Header = Header(
    id: nat, orderId: Option<int>, productId: Option<int>, price: Option<real>,
    tableNumber: Option<int>, status: Option<string>, createdAt: int)

  datatype Entry = Entry(header: Header, product: seq<Item>)

  function HeaderOf(o: Orders.Order): Header {
    Header(o.id, o.orderId, o.productId, o.price, o.tableNumber, o.status, o.orderedAt)
  }

  function Plain(p: Orders.ProductBrief): Item {
    Item(p.name, p.price, None, None, None)
  }

  /** `if (o.observation)`: null and the empty string are falsy. */
  predicate Truthy(s: Option<string>) {
    s.Some? && s.value != ""
  }

  /** Whether flattening has to write to `product[0]`. */
  predicate MovesOntoProduct(v: Orders.OrderView) {
    Truthy(v.order.observation) || |v.additional| > 0 || |v.removed| > 0
  }

  // ---------------------------------------------------------------------------
  // Flattening
  // ---------------------------------------------------------------------------

  /**
   * The `data.map` callback on one row. A row that must move something onto
   * `product[0]` but has no product raises a TypeError: that is `None`.
   */
  function Flatten(v: Orders.OrderView): (r: Option<Entry>)
    ensures r.Some? <==> |v.product| > 0 || !MovesOntoProduct(v)
    ensures r.Some? ==> r.value.header == HeaderOf(v.order) && |r.value.product| == |v.product|
    ensures r.Some? ==> forall i :: 0 <= i < |v.product| ==>
      r.value.product[i].name == v.product[i].name && r.value.product[i].price == v.product[i].price
    ensures r.Some? ==> forall i :: 1 <= i < |v.product| ==> r.value.product[i] == Plain(v.product[i])
  {
    if |v.product| == 0 then (if MovesOntoProduct(v) then None else Some(Entry(HeaderOf(v.order), [])))
    else
      var first := Item(
        v.product[0].name, v.product[0].price,
        if Truthy(v.order.observation) then v.order.observation else None,
        if |v.additional| > 0 then Some(v.additional) else None,
        if |v.removed| > 0 then Some(v.removed) else None);
      var items := seq(|v.product|, i requires 0 <= i < |v.product| => if i == 0 then first else Plain(v.product[i]));
      Some(Entry(HeaderOf(v.order), items))
  }

  /** The aggregate lists a flattened entry still carries, read back off `product[0]`. */
  function Aggregates(e: Entry): (seq<Orders.ProductBrief>, seq<Orders.ExtraBrief>, seq<string>) {
    var products := seq(|e.product|, i requires 0 <= i < |e.product| => Orders.ProductBrief(e.product[i].name, e.product[i].price));
    if |e.product| == 0 then (products, [], [])
    else (products, e.product[0].additional.GetOr([]), e.product[0].removed.GetOr([]))
  }

  /**
   * Flattening loses nothing but falsy observations: the product, additional
   * and removed lists can be read back off the entry, and so can the
   * observation whenever it was truthy.
   */
  lemma FlattenRoundTrip(v: Orders.OrderView)
    requires Flatten(v).Some?
    ensures Aggregates(Flatten(v).value) == (v.product, v.additional, v.removed)
    ensures var e := Flatten(v).value;
      Truthy(v.order.observation) <==> |e.product| > 0 && e.product[0].observation.Some?
    ensures var e := Flatten(v).value;
      Truthy(v.order.observation) ==> e.product[0].observation == v.order.observation
  {
    var e := Flatten(v).value;
    var (products, _, _) := Aggregates(e);
    assert products == v.product;
  }

  /** The whole `data.map`: one TypeError aborts it, and the page keeps its previous orders. */
  function FlattenAll(views: seq<Orders.OrderView>): (r: Option<seq<Entry>>)
    ensures r.Some? <==> forall i :: 0 <= i < |views| ==> Flatten(views[i]).Some?
    ensures r.Some? ==> |r.value| == |views| && forall i :: 0 <= i < |views| ==> Some(r.value[i]) == Flatten(views[i])
  {
    if |views| == 0 then Some([])
    else
      match (Flatten(views[0]), FlattenAll(views[1..]))
      case (Some(e), Some(rest)) =>
        assert forall i :: 1 <= i < |views| ==> views[i] == views[1..][i - 1];
        Some([e] + rest)
      case (None, _) => None
      case (_, None) =>
        assert forall i :: 0 <= i < |views| - 1 ==> views[1..][i] == views[i + 1];
        None
  }

  // ---------------------------------------------------------------------------
  // Structural de-duplication
  // ---------------------------------------------------------------------------

  /** The position of the first occurrence of `x`. */
  function FirstIndex<T(==)>(s: seq<T>, x: T): (i: nat)
    requires x in s
    ensures i < |s| && s[i] == x
    ensures forall k :: 0 <= k < i ==> s[k] != x
  {
    if s[0] == x then 0 else 1 + FirstIndex(s[1..], x)
  }

  lemma {:induction false} FirstIndexPrefix<T>(s: seq<T>, n: nat, x: T)
    requires n <= |s| && x in s[..n]
    ensures x in s && FirstIndex(s, x) == FirstIndex(s[..n], x)
  {
    assert s[..n][0] == s[0];
    if s[0] != x {
      assert s[..n][1..] == s[1..][..n - 1];
      FirstIndexPrefix(s[1..], n - 1, x);
    }
  }

  /**
   * `Array.from(new Set(xs.map(JSON.stringify))).map(JSON.parse)`: each
   * value is kept the first time it is seen.
   */
  function Dedup<T(==)>(s: seq<T>): (r: seq<T>) {
    if |s| == 0 then []
    else
      var d := Dedup(s[..|s| - 1]);
      if s[|s| - 1] in d then d else d + [s[|s| - 1]]
  }

  /**
   * De-duplication keeps exactly the values of its input, each once, in the
   * order of their first occurrences; so it never lengthens a list.
   */
  lemma {:induction false} DedupSpec<T>(s: seq<T>)
    ensures forall x :: x in Dedup(s) <==> x in s
    ensures JsObject.Distinct(Dedup(s))
    ensures forall i, j :: 0 <= i < j < |Dedup(s)| ==> FirstIndex(s, Dedup(s)[i]) < FirstIndex(s, Dedup(s)[j])
    ensures |Dedup(s)| <= |s|
  {
    if |s| > 0 {
      var init := s[..|s| - 1];
      var last := s[|s| - 1];
      assert s == init + [last];
      DedupSpec(init);
      var d := Dedup(init);
      forall x | x in init ensures FirstIndex(s, x) == FirstIndex(init, x) {
        FirstIndexPrefix(s, |s| - 1, x);
      }
      if last !in d {
        assert FirstIndex(s, last) == |s| - 1;
      }
    }
  }

  /** A list without repeats comes back unchanged; hence de-duplicating twice is de-duplicating once. */
  lemma {:induction false} DedupDistinct<T(!new)>(s: seq<T>)
    requires JsObject.Distinct(s)
    ensures Dedup(s) == s
  {
    if |s| > 0 {
      var init := s[..|s| - 1];
      var last := s[|s| - 1];
      assert JsObject.Distinct(init) by {
        forall i, j | 0 <= i < j < |init| ensures init[i] != init[j] {
          assert init[i] == s[i] && init[j] == s[j];
        }
      }
      DedupDistinct(init);
      assert last !in init by {
        forall i | 0 <= i < |init| ensures init[i] != last {
          assert init[i] == s[i];
        }
      }
      assert s == init + [last];
    }
  }

  lemma DedupIdempotent<T(!new)>(s: seq<T>)
    ensures Dedup(Dedup(s)) == Dedup(s)
  {
    DedupSpec(s);
    DedupDistinct(Dedup(s));
  }

  // ---------------------------------------------------------------------------
  // Merging a row into its group
  // ---------------------------------------------------------------------------

  /** `xs?.length` is truthy. */
  predicate Filled<T>(xs: Option<seq<T>>) {
    xs.Some? && |xs.value| > 0
  }

  /**
   * The product list after the first merge step: the de-duplicated
   * concatenation when both sides have products, else the group's own list.
   */
  function MergedItems(acc: seq<Item>, more: seq<Item>): (r: seq<Item>)
    ensures |acc| > 0 && |more| > 0 ==>
      && (forall x :: x in r <==> x in acc || x in more)
      && JsObject.Distinct(r)
      && |r| <= |acc| + |more|
    ensures |acc| == 0 || |more| == 0 ==> r == acc
    ensures |acc| > 0 ==> |r| > 0 && r[0] == acc[0]
  {
    if |acc| > 0 && |more| > 0 then
      DedupHead(acc + more);
      DedupSpec(acc + more);
      Dedup(acc + more)
    else acc
  }

  /** The first element is always seen first. */
  lemma {:induction false} DedupHead<T(!new)>(s: seq<T>)
    requires |s| > 0
    ensures |Dedup(s)| > 0 && Dedup(s)[0] == s[0]
  {
    if |s| > 1 {
      var init := s[..|s| - 1];
      DedupHead(init);
      assert init[0] == s[0];
    } else {
      assert s[..|s| - 1] == [];
    }
  }

  /** The merge of one row into the group already holding its `order_id`. */
  function Merge(acc: Entry, e: Entry): (r: Entry)
    ensures r.header == acc.header
    ensures |r.product| == |MergedItems(acc.product, e.product)|
    ensures forall i :: 1 <= i < |r.product| ==> r.product[i] == MergedItems(acc.product, e.product)[i]
    ensures |r.product| > 0 ==>
      && var base := MergedItems(acc.product, e.product)[0];
      && r.product[0].name == base.name && r.product[0].price == base.price
      && r.product[0].observation == base.observation
  {
    var items := MergedItems(acc.product, e.product);
    if |items| == 0 || |e.product| == 0 then Entry(acc.header, items)
    else
      var first := items[0];
      var incoming := e.product[0];
      var additional :=
        if Filled(incoming.additional) && Filled(first.additional)
        then Some(Dedup(first.additional.value + incoming.additional.value))
        else first.additional;
      var removed :=
        if Filled(incoming.removed) && Filled(first.removed)
        then Some(first.removed.value + incoming.removed.value)
        else first.removed;
      Entry(acc.header, [first.(additional := additional, removed := removed)] + items[1..])
  }

  /**
   * When both the group and the row have products, the group's products are
   * every product either had, once each; the first stays first. The first
   * product's extra ingredients are the union of both firsts' lists without
   * repeats, while its removed ingredients are the plain concatenation.
   */
  lemma MergeBothFilled(acc: Entry, e: Entry)
    requires |acc.product| > 0 && |e.product| > 0
    ensures var r := Merge(acc, e);
      && |r.product| > 0
      && r.product[0].name == acc.product[0].name && r.product[0].price == acc.product[0].price
      && (forall i :: 1 <= i < |r.product| ==> r.product[i] in acc.product || r.product[i] in e.product)
      && (forall x :: x in acc.product[1..] ==> x in r.product || x == acc.product[0])
      && (forall x :: x in e.product && x != acc.product[0] ==> x in r.product)
    ensures var r := Merge(acc, e);
      var a := acc.product[0].additional;
      var b := e.product[0].additional;
      Filled(a) && Filled(b) ==>
        && r.product[0].additional.Some?
        && (forall x :: x in r.product[0].additional.value <==> x in a.value || x in b.value)
        && JsObject.Distinct(r.product[0].additional.value)
    ensures var r := Merge(acc, e);
      var a := acc.product[0].removed;
      var b := e.product[0].removed;
      Filled(a) && Filled(b) ==> r.product[0].removed == Some(a.value + b.value)
  {
    var items := MergedItems(acc.product, e.product);
    var r := Merge(acc, e);
    if Filled(acc.product[0].additional) && Filled(e.product[0].additional) {
      DedupSpec(acc.product[0].additional.value + e.product[0].additional.value);
    }
    forall x | x in items && x != items[0] ensures x in r.product {
      var k :| 0 <= k < |items| && items[k] == x;
      assert r.product[k] == x;
    }
    forall x | x in acc.product[1..] ensures x in acc.product {
    }
  }

  /**
   * A group whose first row had no product never gains one, and a row with
   * no product leaves its group unchanged.
   */
  lemma MergeWithoutProducts(acc: Entry, e: Entry)
    requires |acc.product| == 0 || |e.product| == 0
    ensures Merge(acc, e) == acc
  {
  }

  // ---------------------------------------------------------------------------
  // Grouping by order_id
  // ---------------------------------------------------------------------------

  /** The `order_id` of each entry, in order. */
  function Keys(s: seq<Entry>): (r: seq<Option<int>>)
    ensures |r| == |s| && forall i :: 0 <= i < |s| ==> r[i] == s[i].header.orderId
  {
    seq(|s|, i requires 0 <= i < |s| => s[i].header.orderId)
  }

  /** The position of the group with that key, if there is one. */
  function Find(groups: seq<Entry>, key: Option<int>): (r: Option<nat>)
    ensures r.Some? ==> r.value < |groups| && groups[r.value].header.orderId == key
    ensures r.None? <==> key !in Keys(groups)
  {
    if |groups| == 0 then None
    else if groups[0].header.orderId == key then Some(0)
    else
      assert forall i :: 1 <= i < |groups| ==> Keys(groups)[i] == Keys(groups[1..])[i - 1];
      match Find(groups[1..], key)
      case None => None
      case Some(i) => Some(i + 1)
  }

  /** One `reduce` step: a new key opens a group, a known one is merged into it. */
  function Step(groups: seq<Entry>, e: Entry): (r: seq<Entry>)
    ensures Keys(r) == if e.header.orderId in Keys(groups) then Keys(groups) else Keys(groups) + [e.header.orderId]
    ensures forall i :: 0 <= i < |groups| ==> r[i].header == groups[i].header
    ensures e.header.orderId !in Keys(groups) ==> r == groups + [e]
  {
    match Find(groups, e.header.orderId)
    case None => groups + [e]
    case Some(i) => groups[i := Merge(groups[i], e)]
  }

  /** The `reduce` over the flattened rows: groups in the order their keys were first seen. */
  function Group(s: seq<Entry>): (r: seq<Entry>)
    ensures Keys(r) == Dedup(Keys(s))
    ensures |r| <= |s|
  {
    if |s| == 0 then []
    else
      var init := s[..|s| - 1];
      assert Keys(s) == Keys(init) + [s[|s| - 1].header.orderId];
      assert Keys(s)[..|s| - 1] == Keys(init);
      Step(Group(init), s[|s| - 1])
  }

  /** Every group carries the header of the first row with its key. */
  predicate Headed(s: seq<Entry>, groups: seq<Entry>) {
    forall n :: 0 <= n < |groups| ==>
      && groups[n].header.orderId in Keys(s)
      && groups[n].header == s[FirstIndex(Keys(s), groups[n].header.orderId)].header
  }

  /**
   * There is exactly one group per distinct `order_id`, and each group keeps
   * the header — id, price, table number, status, time — of the first row
   * with its key: the price a group displays is that row's, not a total.
   */
  lemma {:induction false} GroupHeaders(s: seq<Entry>)
    ensures JsObject.Distinct(Keys(Group(s)))
    ensures forall k :: k in Keys(Group(s)) <==> k in Keys(s)
    ensures Headed(s, Group(s))
  {
    DedupSpec(Keys(s));
    if |s| > 0 {
      var init := s[..|s| - 1];
      assert s == init + [s[|s| - 1]];
      GroupHeaders(init);
      StepHeaded(init, s[|s| - 1], Group(init));
    }
  }

  lemma KeysAppend(s: seq<Entry>, e: Entry)
    ensures Keys(s + [e]) == Keys(s) + [e.header.orderId]
  {
  }

  /** The inductive step of `GroupHeaders`. */
  lemma StepHeaded(init: seq<Entry>, last: Entry, g: seq<Entry>)
    requires Headed(init, g)
    requires forall k :: k in Keys(g) <==> k in Keys(init)
    ensures Headed(init + [last], Step(g, last))
  {
    var s := init + [last];
    var r := Step(g, last);
    KeysAppend(init, last);
    var ks := Keys(s);
    assert ks[..|init|] == Keys(init);
    forall n | 0 <= n < |r|
      ensures r[n].header.orderId in ks
      ensures r[n].header == s[FirstIndex(ks, r[n].header.orderId)].header
    {
      var key := r[n].header.orderId;
      if n < |g| {
        assert r[n].header == g[n].header;
        assert key in Keys(init);
        FirstIndexPrefix(ks, |init|, key);
        var m := FirstIndex(Keys(init), key);
        assert s[m] == init[m];
      } else {
        assert last.header.orderId !in Keys(init);
        assert r == g + [last];
        assert ks[|init|] == key;
        assert FirstIndex(ks, key) == |init|;
      }
    }
  }

  /** The number of groups is the number of distinct `order_id`s, so at most the number of rows. */
  lemma GroupCount(s: seq<Entry>)
    ensures |Group(s)| == |Dedup(Keys(s))| <= |s|
  {
    DedupSpec(Keys(s));
    assert |Keys(Group(s))| == |Group(s)|;
  }

  /** The key an entry is filed under is an array index when its `order_id` is an integer in [0, 2^32 - 1). */
  function GroupIndex(g: Entry): Option<nat> {
    JsObject.NumberIndex(g.header.orderId)
  }

  /** `Object.values(groupedOrders)`. */
  function Values(groups: seq<Entry>): (r: seq<Entry>)
    ensures multiset(r) == multiset(groups)
    ensures forall i, j :: 0 <= i < j < |r| && GroupIndex(r[j]).Some? ==>
      GroupIndex(r[i]).Some? && GroupIndex(r[i]).value <= GroupIndex(r[j]).value
    ensures JsObject.Picks(r, GroupIndex, false) == JsObject.Picks(groups, GroupIndex, false)
  {
    JsObject.KeyOrder(groups, GroupIndex)
  }

  /** `fetchOrders` from the rows the API returned to the list the page stores; `None` when flattening throws. */
  function Fetch(views: seq<Orders.OrderView>): (r: Option<seq<Entry>>)
    ensures r.Some? <==> forall i :: 0 <= i < |views| ==> Flatten(views[i]).Some?
    ensures r.Some? ==> multiset(r.value) == multiset(Group(FlattenAll(views).value))
  {
    var flat :- FlattenAll(views);
    Some(Values(Group(flat)))
  }

  /**
   * The page's list holds one group per distinct `order_id` of the rows,
   * no two with the same key; groups with a non-negative `order_id` come
   * first, by increasing `order_id`.
   */
  lemma FetchGroups(views: seq<Orders.OrderView>)
    requires Fetch(views).Some?
    ensures var r := Fetch(views).value;
      && JsObject.Distinct(Keys(r))
      && (forall k :: k in Keys(r) <==> k in OrderIds(views))
      && |r| <= |views|
      && forall i, j :: 0 <= i < j < |r| && GroupIndex(r[j]).Some? ==>
           GroupIndex(r[i]).Some? && r[i].header.orderId.value < r[j].header.orderId.value
  {
    var flat := FlattenAll(views).value;
    var g := Group(flat);
    var r := Values(g);
    assert Fetch(views).value == r;
    DedupSpec(Keys(flat));
    assert Keys(g) == Dedup(Keys(flat));
    assert |g| <= |flat| == |views|;
    ListedGroups(g, r);
    FetchKeys(views);
  }

  /** The `order_id` of each row the API returned. */
  function OrderIds(views: seq<Orders.OrderView>): (r: seq<Option<int>>)
    ensures |r| == |views| && forall i :: 0 <= i < |views| ==> r[i] == views[i].order.orderId
  {
    seq(|views|, i requires 0 <= i < |views| => views[i].order.orderId)
  }

  /** The keys of the page's list are the `order_id`s of the rows. */
  lemma FetchKeys(views: seq<Orders.OrderView>)
    requires Fetch(views).Some?
    ensures forall k :: k in Keys(Fetch(views).value) <==> k in OrderIds(views)
  {
    var flat := FlattenAll(views).value;
    var g := Group(flat);
    var r := Values(g);
    assert Fetch(views).value == r;
    GroupKeys(flat);
    PermutationKeys(g, r);
    FlatKeys(views);
    forall k ensures k in Keys(r) <==> k in OrderIds(views) {
      assert k in Keys(r) <==> k in Keys(g);
      assert k in Keys(g) <==> k in Keys(flat);
    }
  }

  lemma GroupKeys(s: seq<Entry>)
    ensures forall k :: k in Keys(Group(s)) <==> k in Keys(s)
  {
    DedupSpec(Keys(s));
  }

  lemma FlatKeys(views: seq<Orders.OrderView>)
    requires FlattenAll(views).Some?
    ensures Keys(FlattenAll(views).value) == OrderIds(views)
  {
    var flat := FlattenAll(views).value;
    forall i | 0 <= i < |views| ensures Keys(flat)[i] == OrderIds(views)[i] {
      assert Some(flat[i]) == Flatten(views[i]);
    }
  }

  /** What the reordering by `Object.values` keeps of a list of groups with distinct keys. */
  lemma ListedGroups(g: seq<Entry>, r: seq<Entry>)
    requires JsObject.Distinct(Keys(g))
    requires multiset(g) == multiset(r)
    requires forall i, j :: 0 <= i < j < |r| && GroupIndex(r[j]).Some? ==>
      GroupIndex(r[i]).Some? && GroupIndex(r[i]).value <= GroupIndex(r[j]).value
    ensures JsObject.Distinct(Keys(r)) && |r| == |g|
    ensures forall k :: k in Keys(r) <==> k in Keys(g)
    ensures forall i, j :: 0 <= i < j < |r| && GroupIndex(r[j]).Some? ==>
      GroupIndex(r[i]).Some? && r[i].header.orderId.value < r[j].header.orderId.value
  {
    PermutationKeys(g, r);
    DistinctKeysPermutation(g, r);
    forall i, j | 0 <= i < j < |r| && GroupIndex(r[j]).Some?
      ensures GroupIndex(r[i]).Some? && r[i].header.orderId.value < r[j].header.orderId.value
    {
      assert Keys(r)[i] != Keys(r)[j];
    }
  }

  /** Reordering the groups keeps their number and their keys. */
  lemma PermutationKeys(g: seq<Entry>, r: seq<Entry>)
    requires multiset(g) == multiset(r)
    ensures |r| == |g|
    ensures forall k :: k in Keys(r) <==> k in Keys(g)
  {
    assert |multiset(r)| == |multiset(g)|;
    forall k ensures k in Keys(r) <==> k in Keys(g) {
      if k in Keys(r) {
        var i :| 0 <= i < |r| && Keys(r)[i] == k;
        assert r[i] in multiset(g);
        var a :| 0 <= a < |g| && g[a] == r[i];
        assert Keys(g)[a] == k;
      }
      if k in Keys(g) {
        var i :| 0 <= i < |g| && Keys(g)[i] == k;
        assert g[i] in multiset(r);
        var a :| 0 <= a < |r| && r[a] == g[i];
        assert Keys(r)[a] == k;
      }
    }
  }

  /** Reordering groups with distinct keys keeps their keys distinct. */
  lemma DistinctKeysPermutation(g: seq<Entry>, r: seq<Entry>)
    requires multiset(g) == multiset(r) && JsObject.Distinct(Keys(g))
    ensures JsObject.Distinct(Keys(r))
  {
    assert JsObject.Distinct(g) by {
      forall i, j | 0 <= i < j < |g| ensures g[i] != g[j] {
        assert Keys(g)[i] != Keys(g)[j];
      }
    }
    JsObject.PermutationDistinct(g, r);
    forall i, j | 0 <= i < j < |r| ensures Keys(r)[i] != Keys(r)[j] {
      assert r[i] in multiset(g) && r[j] in multiset(g);
      var a :| 0 <= a < |g| && g[a] == r[i];
      var b :| 0 <= b < |g| && g[b] == r[j];
      assert a != b;
    }
  }
}
