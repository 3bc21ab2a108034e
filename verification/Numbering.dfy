/**
 Occurrence numbers: items are grouped by a key, each group is sorted, and its members are numbered
 from 1. Both the duplicate-code ratchet and the monetary-float guard identify findings this way.
 */
module Numbering {
  import opened Sorting

  /** The members of one group, in input order. */
  function GroupOf<K(==), T>(items: seq<T>, keyOf: T -> K, k: K): seq<T> {
    if items == [] then []
    else
      var init, last := GroupOf(items[..|items| - 1], keyOf, k), items[|items| - 1];
      if keyOf(last) == k then init + [last] else init
  }

  lemma {:induction false} GroupMembers<K, T>(items: seq<T>, keyOf: T -> K, k: K)
    ensures forall x :: x in GroupOf(items, keyOf, k) <==> x in items && keyOf(x) == k
    ensures Distinct(items) ==> Distinct(GroupOf(items, keyOf, k))
  {
    if items != [] {
      var init, last := items[..|items| - 1], items[|items| - 1];
      assert items == init + [last];
      GroupMembers(init, keyOf, k);
      if Distinct(items) {
        assert Distinct(init) && last !in init;
      }
    }
  }

  /** How many items share the key. */
  function Count<K(==), T>(items: seq<T>, keyOf: T -> K, k: K): nat {
    |GroupOf(items, keyOf, k)|
  }

  function PlaceOf<T(==)>(xs: seq<T>, x: T): (i: nat)
    requires x in xs
    ensures i < |xs| && xs[i] == x
  {
    if xs[0] == x then 0 else 1 + PlaceOf(xs[1..], x)
  }

  lemma {:induction false} PlaceIsUnique<T>(xs: seq<T>, i: nat)
    requires Distinct(xs) && i < |xs|
    ensures PlaceOf(xs, xs[i]) == i
  {
    assert xs[i] in xs;
    var p := PlaceOf(xs, xs[i]);
    assert xs[p] == xs[i];
  }

  ghost function SortedGroup<K, T>(items: seq<T>, keyOf: T -> K, le: (T, T) -> bool, k: K): seq<T> {
    SortBy(GroupOf(items, keyOf, k), le)
  }

  lemma SortedGroupMembers<K, T(!new)>(items: seq<T>, keyOf: T -> K, le: (T, T) -> bool, k: K)
    requires TotalOrder(le)
    ensures var g := SortedGroup(items, keyOf, le, k);
      && |g| == Count(items, keyOf, k)
      && Sorted(g, le)
      && (forall x :: x in g <==> x in items && keyOf(x) == k)
      && (Distinct(items) ==> Distinct(g))
  {
    var g, sorted := GroupOf(items, keyOf, k), SortedGroup(items, keyOf, le, k);
    GroupMembers(items, keyOf, k);
    SortBySorts(g, le);
    SameMembers(g, sorted);
    if Distinct(items) {
      SortKeepsDistinct(g, le);
    }
  }

  /** The 1-based place of an item in its sorted group. */
  ghost function Number<K, T(!new)>(items: seq<T>, keyOf: T -> K, le: (T, T) -> bool, x: T): nat
    requires TotalOrder(le) && x in items
  {
    SortedGroupMembers(items, keyOf, le, keyOf(x));
    1 + PlaceOf(SortedGroup(items, keyOf, le, keyOf(x)), x)
  }

  /** Some member of group `k` carries the number `i`. */
  ghost predicate Taken<K, T(!new)>(items: seq<T>, keyOf: T -> K, le: (T, T) -> bool, k: K, i: int)
    requires TotalOrder(le)
  {
    exists x :: x in items && keyOf(x) == k && Number(items, keyOf, le, x) == i
  }

  /** The members of a group carry exactly the numbers 1 to the size of the group, each once. */
  lemma NumbersFillGroup<K, T(!new)>(items: seq<T>, keyOf: T -> K, le: (T, T) -> bool, k: K)
    requires TotalOrder(le) && Distinct(items)
    ensures forall i :: Taken(items, keyOf, le, k, i) <==> 1 <= i <= Count(items, keyOf, k)
    ensures forall x, y | x in items && y in items && keyOf(x) == keyOf(y) == k ::
      Number(items, keyOf, le, x) == Number(items, keyOf, le, y) ==> x == y
  {
    SortedGroupMembers(items, keyOf, le, k);
    var g := SortedGroup(items, keyOf, le, k);
    forall i ensures Taken(items, keyOf, le, k, i) <==> 1 <= i <= Count(items, keyOf, k) {
      if 1 <= i <= |g| {
        assert g[i - 1] in g;
        PlaceIsUnique(g, i - 1);
        assert Number(items, keyOf, le, g[i - 1]) == i;
      }
    }
  }

  lemma {:induction false} DistinctSize<T>(xs: seq<T>)
    requires Distinct(xs)
    ensures |set x | x in xs| == |xs|
  {
    if xs != [] {
      var init, last := xs[..|xs| - 1], xs[|xs| - 1];
      DistinctSize(init);
      assert xs == init + [last];
      assert last !in init;
      assert (set x | x in xs) == (set x | x in init) + {last};
    }
  }

  /** The members of an item's group that do not come after it. */
  ghost function UpTo<K, T>(items: seq<T>, keyOf: T -> K, le: (T, T) -> bool, x: T): set<T> {
    set y | y in items && keyOf(y) == keyOf(x) && le(y, x)
  }

  /** An item's number counts the members of its group that do not come after it: no sorting needed. */
  lemma NumberCounts<K, T(!new)>(items: seq<T>, keyOf: T -> K, le: (T, T) -> bool, x: T)
    requires TotalOrder(le) && Distinct(items) && Distinguishes(le, items) && x in items
    ensures Number(items, keyOf, le, x) == |UpTo(items, keyOf, le, x)|
  {
    SortedGroupMembers(items, keyOf, le, keyOf(x));
    var g := SortedGroup(items, keyOf, le, keyOf(x));
    var p := PlaceOf(g, x);
    var upTo := g[..p + 1];
    forall y ensures y in upTo <==> y in items && keyOf(y) == keyOf(x) && le(y, x) {
      if y in upTo {
        var j :| 0 <= j <= p && g[j] == y;
        assert y in g;
      }
      if y in g && le(y, x) {
        var j :| 0 <= j < |g| && g[j] == y;
        assert j <= p;
        assert upTo[j] == y;
      }
    }
    DistinctSize(upTo);
    assert (set y | y in upTo) == UpTo(items, keyOf, le, x);
  }

  lemma GroupStep<K, T>(items: seq<T>, i: nat, keyOf: T -> K, k: K)
    requires i < |items|
    ensures var before := GroupOf(items[..i], keyOf, k);
      GroupOf(items[..i + 1], keyOf, k) == if keyOf(items[i]) == k then before + [items[i]] else before
  {
    assert items[..i + 1][..i] == items[..i];
  }

  /** First pass: the groups, and their keys in order of first appearance. */
  method GroupByKey<K(==), T>(items: seq<T>, keyOf: T -> K) returns (grouped: map<K, seq<T>>, order: seq<K>)
    ensures forall k :: k in order <==> k in grouped
    ensures forall k :: k in grouped ==> grouped[k] == GroupOf(items, keyOf, k)
    ensures forall x :: x in items ==> keyOf(x) in grouped
    ensures forall k :: k in grouped ==> grouped[k] != []
  {
    grouped, order := map[], [];
    for i := 0 to |items|
      invariant forall k :: k in order <==> k in grouped
      invariant forall k :: GroupOf(items[..i], keyOf, k) == if k in grouped then grouped[k] else []
      invariant forall x :: x in items[..i] ==> keyOf(x) in grouped
      invariant forall k :: k in grouped ==> grouped[k] != []
    {
      var k := keyOf(items[i]);
      var group := if k in grouped then grouped[k] else [];
      if k !in grouped {
        order := order + [k];
      }
      forall k' { GroupStep(items, i, keyOf, k'); }
      grouped := grouped[k := group + [items[i]]];
      assert forall x :: x in items[..i + 1] <==> x in items[..i] || x == items[i];
    }
    assert items[..|items|] == items;
  }

  /** The dictionary fill of the scripts: group in one pass, then number each sorted group. */
  method NumberOccurrences<K(==), T(!new, ==)>(items: seq<T>, keyOf: T -> K, le: (T, T) -> bool)
    returns (numbers: map<T, nat>)
    requires TotalOrder(le) && Distinct(items)
    ensures forall x :: x in numbers <==> x in items
    ensures forall x :: x in items ==> numbers[x] == Number(items, keyOf, le, x)
  {
    var grouped, order := GroupByKey(items, keyOf);
    numbers := map[];
    for j := 0 to |order|
      invariant forall x :: x in numbers <==> x in items && keyOf(x) in order[..j]
      invariant forall x :: x in numbers ==> numbers[x] == Number(items, keyOf, le, x)
    {
      var k := order[j];
      assert k in order;
      var sorted := SortBy(grouped[k], le);
      SortedGroupMembers(items, keyOf, le, k);
      ghost var before := numbers;
      for n := 0 to |sorted|
        invariant forall x :: x in numbers <==> x in before || x in sorted[..n]
        invariant forall x :: x in numbers ==> numbers[x] == Number(items, keyOf, le, x)
      {
        assert sorted[n] in sorted;
        PlaceIsUnique(sorted, n);
        numbers := numbers[sorted[n] := n + 1];
        assert forall x :: x in sorted[..n + 1] <==> x in sorted[..n] || x == sorted[n];
      }
      assert sorted[..|sorted|] == sorted;
      assert forall k' :: k' in order[..j + 1] <==> k' in order[..j] || k' == k;
    }
    assert order[..|order|] == order;
  }
}
