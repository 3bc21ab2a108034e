/** Python's `sorted`: a stable sort under a given order, and the order of strings. */
module Sorting {

  ghost predicate TotalOrder<T(!new)>(le: (T, T) -> bool) {
    && (forall a, b :: le(a, b) || le(b, a))
    && (forall a, b, c :: le(a, b) && le(b, c) ==> le(a, c))
  }

  /** Elements that compare equal are the same element. */
  ghost predicate Distinguishes<T>(le: (T, T) -> bool, xs: seq<T>) {
    forall a, b :: a in xs && b in xs && le(a, b) && le(b, a) ==> a == b
  }

  ghost predicate Sorted<T>(xs: seq<T>, le: (T, T) -> bool) {
    forall i, j :: 0 <= i < j < |xs| ==> le(xs[i], xs[j])
  }

  predicate Distinct<T(==)>(xs: seq<T>) {
    forall i, j :: 0 <= i < j < |xs| ==> xs[i] != xs[j]
  }

  /** Inserts after the elements that do not come after `x`, which keeps equals in order. */
  function Insert<T>(x: T, xs: seq<T>, le: (T, T) -> bool): seq<T> {
    if xs == [] then [x]
    else if le(xs[|xs| - 1], x) then xs + [x]
    else Insert(x, xs[..|xs| - 1], le) + [xs[|xs| - 1]]
  }

  function SortBy<T>(xs: seq<T>, le: (T, T) -> bool): seq<T> {
    if xs == [] then [] else Insert(xs[|xs| - 1], SortBy(xs[..|xs| - 1], le), le)
  }

  lemma {:induction false} InsertSorted<T(!new)>(x: T, xs: seq<T>, le: (T, T) -> bool)
    requires TotalOrder(le) && Sorted(xs, le)
    ensures Sorted(Insert(x, xs, le), le)
    ensures multiset(Insert(x, xs, le)) == multiset(xs) + multiset{x}
  {
    if xs != [] {
      var init, last := xs[..|xs| - 1], xs[|xs| - 1];
      assert xs == init + [last];
      if !le(last, x) {
        InsertSorted(x, init, le);
        var r := Insert(x, init, le);
        forall i | 0 <= i < |r| ensures le(r[i], last) {
          assert r[i] in multiset(r);
          assert r[i] in init || r[i] == x;
        }
      } else {
        assert forall i :: 0 <= i < |xs| ==> le(xs[i], last);
      }
    }
  }

  lemma {:induction false} SortBySorts<T(!new)>(xs: seq<T>, le: (T, T) -> bool)
    requires TotalOrder(le)
    ensures Sorted(SortBy(xs, le), le)
    ensures multiset(SortBy(xs, le)) == multiset(xs)
    ensures |SortBy(xs, le)| == |xs|
  {
    if xs != [] {
      assert xs == xs[..|xs| - 1] + [xs[|xs| - 1]];
      SortBySorts(xs[..|xs| - 1], le);
      InsertSorted(xs[|xs| - 1], SortBy(xs[..|xs| - 1], le), le);
    }
    assert |multiset(SortBy(xs, le))| == |SortBy(xs, le)|;
    assert |multiset(xs)| == |xs|;
  }

  lemma SameMembers<T>(xs: seq<T>, ys: seq<T>)
    requires multiset(xs) == multiset(ys)
    ensures |xs| == |ys| && forall x :: x in xs <==> x in ys
  {
    assert |multiset(xs)| == |xs| && |multiset(ys)| == |ys|;
    forall x ensures x in xs <==> x in ys {
      assert x in xs <==> x in multiset(xs);
      assert x in ys <==> x in multiset(ys);
    }
  }

  lemma DropLast<T>(xs: seq<T>)
    requires xs != []
    ensures multiset(xs[..|xs| - 1]) == multiset(xs) - multiset{xs[|xs| - 1]}
    ensures xs == xs[..|xs| - 1] + [xs[|xs| - 1]]
  {
    assert xs == xs[..|xs| - 1] + [xs[|xs| - 1]];
  }

  lemma LastIsGreatest<T(!new)>(xs: seq<T>, x: T, le: (T, T) -> bool)
    requires TotalOrder(le) && Sorted(xs, le) && x in xs
    ensures le(x, xs[|xs| - 1])
  {
    var i :| 0 <= i < |xs| && xs[i] == x;
    assert le(xs[i], xs[|xs| - 1]) || i == |xs| - 1;
  }

  lemma StillSorted<T>(xs: seq<T>, le: (T, T) -> bool)
    requires Sorted(xs, le) && xs != []
    ensures Sorted(xs[..|xs| - 1], le)
    ensures Distinguishes(le, xs) ==> Distinguishes(le, xs[..|xs| - 1])
  {
    assert forall z :: z in xs[..|xs| - 1] ==> z in xs;
  }

  lemma SameLast<T(!new)>(xs: seq<T>, ys: seq<T>, le: (T, T) -> bool)
    requires TotalOrder(le) && Sorted(xs, le) && Sorted(ys, le) && xs != [] && ys != []
    requires (forall x :: x in xs <==> x in ys) && Distinguishes(le, xs)
    ensures xs[|xs| - 1] == ys[|ys| - 1]
  {
    var x, y := xs[|xs| - 1], ys[|ys| - 1];
    assert x in xs && y in ys;
    LastIsGreatest(ys, x, le);
    LastIsGreatest(xs, y, le);
  }

  /** Two sorted arrangements of the same elements agree, when the order tells elements apart. */
  lemma {:induction false} SortedUnique<T(!new)>(xs: seq<T>, ys: seq<T>, le: (T, T) -> bool)
    requires TotalOrder(le) && Sorted(xs, le) && Sorted(ys, le)
    requires multiset(xs) == multiset(ys) && Distinguishes(le, xs)
    ensures xs == ys
  {
    SameMembers(xs, ys);
    if xs != [] {
      SameLast(xs, ys, le);
      DropLast(xs);
      DropLast(ys);
      StillSorted(xs, le);
      StillSorted(ys, le);
      hide Sorted, Distinguishes, TotalOrder;
      SortedUnique(xs[..|xs| - 1], ys[..|ys| - 1], le);
    }
  }

  /** Sorting forgets the order of its input, when the order tells elements apart. */
  lemma SortForgetsOrder<T(!new)>(xs: seq<T>, ys: seq<T>, le: (T, T) -> bool)
    requires TotalOrder(le) && multiset(xs) == multiset(ys) && Distinguishes(le, xs)
    ensures SortBy(xs, le) == SortBy(ys, le)
  {
    SortBySorts(xs, le);
    SortBySorts(ys, le);
    SameMembers(xs, SortBy(xs, le));
    SortedUnique(SortBy(xs, le), SortBy(ys, le), le);
  }

  lemma DistinctMultiset<T>(xs: seq<T>)
    ensures Distinct(xs) <==> forall x :: multiset(xs)[x] <= 1
  {
    if Distinct(xs) {
      DistinctCounts(xs);
    } else {
      var i, j :| 0 <= i < j < |xs| && xs[i] == xs[j];
      var head, tail := xs[..j], xs[j..];
      assert xs == head + tail;
      assert head[i] in multiset(head) && tail[0] in multiset(tail);
      assert multiset(xs)[xs[i]] >= 2;
    }
  }

  lemma {:induction false} DistinctCounts<T>(xs: seq<T>)
    requires Distinct(xs)
    ensures forall x :: multiset(xs)[x] <= 1
  {
    if xs != [] {
      var init, last := xs[..|xs| - 1], xs[|xs| - 1];
      assert xs == init + [last];
      DistinctCounts(init);
      assert last !in init;
      assert last !in multiset(init);
    }
  }

  /** Sorting keeps elements distinct. */
  lemma SortKeepsDistinct<T(!new)>(xs: seq<T>, le: (T, T) -> bool)
    requires TotalOrder(le) && Distinct(xs)
    ensures Distinct(SortBy(xs, le))
  {
    SortBySorts(xs, le);
    DistinctMultiset(xs);
    DistinctMultiset(SortBy(xs, le));
  }

  lemma {:induction false} InOrderInsert<T>(x: T, xs: seq<T>, le: (T, T) -> bool)
    requires forall i :: 0 <= i < |xs| ==> le(xs[i], x)
    ensures Insert(x, xs, le) == xs + [x]
  {}

  /** A list that is in order is sorted as it stands: elements that compare equal keep their order. */
  lemma {:induction false} SortedStays<T>(xs: seq<T>, le: (T, T) -> bool)
    requires Sorted(xs, le)
    ensures SortBy(xs, le) == xs
  {
    if xs != [] {
      var init, last := xs[..|xs| - 1], xs[|xs| - 1];
      SortedStays(init, le);
      InOrderInsert(last, init, le);
      assert xs == init + [last];
    }
  }

  // ----- filtering -----

  /** The elements that satisfy `keep`, in order. */
  function Filter<T>(xs: seq<T>, keep: T -> bool): seq<T> {
    if xs == [] then []
    else
      var init := Filter(xs[..|xs| - 1], keep);
      if keep(xs[|xs| - 1]) then init + [xs[|xs| - 1]] else init
  }

  lemma FilterAppend<T>(xs: seq<T>, x: T, keep: T -> bool)
    ensures Filter(xs + [x], keep) == if keep(x) then Filter(xs, keep) + [x] else Filter(xs, keep)
  {
    assert (xs + [x])[..|xs|] == xs;
  }

  lemma {:induction false} FilterMembers<T>(xs: seq<T>, keep: T -> bool)
    ensures forall x :: multiset(Filter(xs, keep))[x] == if keep(x) then multiset(xs)[x] else 0
    ensures forall x :: x in Filter(xs, keep) <==> x in xs && keep(x)
  {
    if xs != [] {
      DropLast(xs);
      FilterMembers(xs[..|xs| - 1], keep);
    }
  }

  lemma {:induction false} FilterEmpty<T>(xs: seq<T>, keep: T -> bool)
    ensures Filter(xs, keep) == [] <==> forall x :: x in xs ==> !keep(x)
  {
    if xs != [] {
      var init, last := xs[..|xs| - 1], xs[|xs| - 1];
      assert xs == init + [last];
      FilterEmpty(init, keep);
    }
  }

  lemma {:induction false} FilterConcat<T>(xs: seq<T>, ys: seq<T>, keep: T -> bool)
    ensures Filter(xs + ys, keep) == Filter(xs, keep) + Filter(ys, keep)
  {
    if ys == [] {
      assert xs + ys == xs;
    } else {
      assert (xs + ys)[..|xs + ys| - 1] == xs + ys[..|ys| - 1];
      FilterConcat(xs, ys[..|ys| - 1], keep);
    }
  }

  lemma FilterExtract<T>(before: seq<T>, x: T, after: seq<T>, keep: T -> bool)
    ensures multiset(Filter(before + ([x] + after), keep)) ==
      multiset(Filter(before + after, keep)) + if keep(x) then multiset{x} else multiset{}
  {
    FilterConcat(before, after, keep);
    FilterConcat(before, [x] + after, keep);
    FilterConcat([x], after, keep);
    assert Filter([x], keep) == if keep(x) then [x] else [];
  }

  lemma Extract<T>(xs: seq<T>, ys: seq<T>) returns (before: seq<T>, after: seq<T>)
    requires xs != [] && multiset(xs) == multiset(ys)
    ensures ys == before + ([xs[|xs| - 1]] + after)
    ensures multiset(before + after) == multiset(xs[..|xs| - 1])
  {
    SameMembers(xs, ys);
    DropLast(xs);
    var x := xs[|xs| - 1];
    assert x in xs;
    var j :| 0 <= j < |ys| && ys[j] == x;
    before, after := ys[..j], ys[j + 1..];
    assert ys == before + ([x] + after);
    assert multiset(before + after) == multiset(ys) - multiset{x};
  }

  /** Two arrangements of the same elements keep the same elements. */
  lemma {:induction false} FilterForgetsOrder<T>(xs: seq<T>, ys: seq<T>, keep: T -> bool)
    requires multiset(xs) == multiset(ys)
    ensures multiset(Filter(xs, keep)) == multiset(Filter(ys, keep))
    ensures |Filter(xs, keep)| == |Filter(ys, keep)|
  {
    if xs == [] {
      SameMembers(xs, ys);
      assert xs == ys;
    } else {
      var before, after := Extract(xs, ys);
      FilterForgetsOrder(xs[..|xs| - 1], before + after, keep);
      FilterExtract(before, xs[|xs| - 1], after, keep);
    }
    SameSize(Filter(xs, keep), Filter(ys, keep));
  }

  lemma SameSize<T>(xs: seq<T>, ys: seq<T>)
    ensures multiset(xs) == multiset(ys) ==> |xs| == |ys|
  {
    assert |multiset(xs)| == |xs| && |multiset(ys)| == |ys|;
  }

  lemma {:induction false} FilterInsert<T(!new)>(x: T, xs: seq<T>, le: (T, T) -> bool, keep: T -> bool)
    requires TotalOrder(le) && Sorted(xs, le)
    ensures Filter(Insert(x, xs, le), keep) ==
      if keep(x) then Insert(x, Filter(xs, keep), le) else Filter(xs, keep)
  {
    if xs == [] || le(xs[|xs| - 1], x) {
      FilterAppend(xs, x, keep);
      assert xs + [x] == Insert(x, xs, le);
      InsertLast(x, xs, le, keep);
    } else {
      var init, last := xs[..|xs| - 1], xs[|xs| - 1];
      FilterInsert(x, init, le, keep);
      FilterAppend(Insert(x, init, le), last, keep);
      if keep(last) {
        var kept := Filter(init, keep);
        assert (kept + [last])[..|kept|] == kept;
      }
    }
  }

  lemma InsertLast<T(!new)>(x: T, xs: seq<T>, le: (T, T) -> bool, keep: T -> bool)
    requires TotalOrder(le) && Sorted(xs, le) && (xs != [] ==> le(xs[|xs| - 1], x))
    ensures Insert(x, Filter(xs, keep), le) == Filter(xs, keep) + [x]
  {
    var kept := Filter(xs, keep);
    FilterMembers(xs, keep);
    if kept != [] {
      assert kept[|kept| - 1] in kept;
      LastIsGreatest(xs, kept[|kept| - 1], le);
    }
  }

  /** A stable sort and a filter commute. */
  lemma {:induction false} FilterSorted<T(!new)>(xs: seq<T>, le: (T, T) -> bool, keep: T -> bool)
    requires TotalOrder(le)
    ensures Filter(SortBy(xs, le), keep) == SortBy(Filter(xs, keep), le)
  {
    if xs != [] {
      var init, last := xs[..|xs| - 1], xs[|xs| - 1];
      FilterSorted(init, le, keep);
      SortBySorts(init, le);
      FilterInsert(last, SortBy(init, le), le, keep);
      var kept := Filter(init, keep);
      assert (kept + [last])[..|kept|] == kept;
    }
  }

  /** A sort is stable: the elements that compare equal to one of them come in the order they had. */
  lemma SortIsStable<T(!new)>(xs: seq<T>, le: (T, T) -> bool, alike: T -> bool)
    requires TotalOrder(le) && forall a, b :: alike(a) && alike(b) ==> le(a, b)
    ensures Filter(SortBy(xs, le), alike) == Filter(xs, alike)
  {
    FilterSorted(xs, le, alike);
    FilterMembers(xs, alike);
    var same := Filter(xs, alike);
    assert forall i :: 0 <= i < |same| ==> same[i] in same;
    SortedStays(same, le);
  }

  // ----- the order of strings -----

  predicate TextLe(a: string, b: string) {
    a == "" || (b != "" && (a[0] < b[0] || (a[0] == b[0] && TextLe(a[1..], b[1..]))))
  }

  lemma {:induction false} TextTotal(a: string, b: string)
    ensures TextLe(a, b) || TextLe(b, a)
    ensures TextLe(a, b) && TextLe(b, a) ==> a == b
  {
    if a != "" && b != "" && a[0] == b[0] {
      TextTotal(a[1..], b[1..]);
      assert a == [a[0]] + a[1..] && b == [b[0]] + b[1..];
    }
  }

  lemma {:induction false} TextTransitive(a: string, b: string, c: string)
    requires TextLe(a, b) && TextLe(b, c)
    ensures TextLe(a, c)
  {
    if a != "" && a[0] == b[0] == c[0] {
      TextTransitive(a[1..], b[1..], c[1..]);
    }
  }

  /** The texts agree before `k` and differ there. */
  ghost predicate DifferAt(a: string, b: string, k: nat) {
    k < |a| && k < |b| && a[k] != b[k] && forall i :: 0 <= i < k ==> a[i] == b[i]
  }

  /** Strings compare by the first character that differs; a prefix comes first. */
  lemma {:induction false} TextLeExactly(a: string, b: string)
    ensures TextLe(a, b) <==> a <= b || exists k: nat :: DifferAt(a, b, k) && a[k] < b[k]
  {
    if a != "" && b != "" {
      TextLeExactly(a[1..], b[1..]);
      if a[0] == b[0] {
        if k: nat :| DifferAt(a[1..], b[1..], k) && a[1..][k] < b[1..][k] {
          assert DifferAt(a, b, k + 1);
        }
        if k: nat :| DifferAt(a, b, k) && a[k] < b[k] {
          assert DifferAt(a[1..], b[1..], k - 1);
        }
        assert a <= b <==> a[1..] <= b[1..];
      } else {
        assert DifferAt(a, b, 0);
      }
    }
  }

  lemma TextOrder()
    ensures TotalOrder(TextLe)
    ensures forall xs: seq<string> :: Distinguishes(TextLe, xs)
  {
    forall a: string, b: string ensures TextLe(a, b) || TextLe(b, a) {
      TextTotal(a, b);
    }
    forall a: string, b: string, c: string | TextLe(a, b) && TextLe(b, c) ensures TextLe(a, c) {
      TextTransitive(a, b, c);
    }
    forall a: string, b: string | TextLe(a, b) && TextLe(b, a) ensures a == b {
      TextTotal(a, b);
    }
  }

  // ----- `sorted` of a set of strings -----

  lemma {:induction false} LeastExists(s: set<string>)
    requires s != {}
    ensures exists m :: m in s && forall x :: x in s ==> TextLe(m, x)
  {
    var y :| y in s;
    var rest := s - {y};
    if rest == {} {
      assert s == {y};
      TextTotal(y, y);
    } else {
      LeastExists(rest);
      var m :| m in rest && forall x :: x in rest ==> TextLe(m, x);
      TextTotal(m, y);
      TextTotal(y, y);
      var least := if TextLe(m, y) then m else y;
      forall x | x in s ensures TextLe(least, x) {
        if x != y && least == y {
          TextTransitive(y, m, x);
        }
      }
      assert least in s;
    }
  }

  lemma LeastUnique(s: set<string>, m: string, n: string)
    requires m in s && n in s && TextLe(m, n) && TextLe(n, m)
    ensures m == n
  {
    TextTotal(m, n);
  }

  function Least(s: set<string>): (m: string)
    requires s != {}
    ensures m in s && forall x :: x in s ==> TextLe(m, x)
  {
    LeastExists(s);
    assert forall m, n :: m in s && n in s && TextLe(m, n) && TextLe(n, m) ==> m == n by {
      TextOrder();
      assert forall xs: seq<string> :: Distinguishes(TextLe, xs);
      forall m, n | m in s && n in s && TextLe(m, n) && TextLe(n, m) ensures m == n {
        LeastUnique(s, m, n);
      }
    }
    var m :| m in s && forall x :: x in s ==> TextLe(m, x);
    m
  }

  /** `sorted(s)` for a set of strings. */
  function SortedSet(s: set<string>): (r: seq<string>)
    ensures |r| == |s| && forall x :: x in r <==> x in s
    ensures Distinct(r) && Sorted(r, TextLe)
    decreases |s|
  {
    if s == {} then []
    else
      var m := Least(s);
      var rest := SortedSet(s - {m});
      assert forall x :: x in [m] + rest <==> x == m || x in rest;
      assert forall i :: 0 <= i < |rest| ==> rest[i] in rest;
      [m] + rest
  }
}
