/**
 Python's `==` on documents, as the policy gate and the duplicate-code ratchet use it: an equivalence
 that looks at what a dictionary holds and not at the order of its keys.
 */
module JsonEquality {
  import opened Wrappers
  import opened Json
  import opened Sorting
  import opened JsonRoundTrip

  lemma {:induction false} LookupIn(members: seq<Member>, key: string)
    ensures Lookup(members, key).Some? <==> key in Keys(members)
    ensures Lookup(members, key).Some? ==>
      exists i :: 0 <= i < |members| && members[i] == Member(key, Lookup(members, key).value)
  {
    if members != [] {
      LookupIn(members[1..], key);
      assert Keys(members) == [members[0].key] + Keys(members[1..]);
      if members[0].key != key && Lookup(members[1..], key).Some? {
        var i :| 0 <= i < |members[1..]| && members[1..][i] == Member(key, Lookup(members[1..], key).value);
        assert members[i + 1] == members[1..][i];
      }
    }
  }

  /** The same keys with equal values. */
  ghost predicate SameEntries(ms: seq<Member>, ns: seq<Member>) {
    && (forall k :: Lookup(ms, k).Some? <==> Lookup(ns, k).Some?)
    && forall k :: Lookup(ms, k).Some? && Lookup(ns, k).Some? ==> PyEqual(Lookup(ms, k).value, Lookup(ns, k).value)
  }

  lemma EqualHaveSameEntries(ms: seq<Member>, ns: seq<Member>)
    requires Distinct(Keys(ms)) && PyEqual(Obj(ms), Obj(ns))
    ensures SameEntries(ms, ns)
  {
    hide Distinct, PyEqual, Lookup;
    assert forall i :: 0 <= i < |ms| ==>
      Lookup(ns, ms[i].key).Some? && PyEqual(ms[i].value, Lookup(ns, ms[i].key).value)
    by {
      EntriesOf(ms, ns);
    }
    assert forall k :: k in Keys(ns) ==> k in Keys(ms) by {
      EntriesOf(ms, ns);
    }
    forall k
      ensures Lookup(ms, k).Some? <==> Lookup(ns, k).Some?
      ensures Lookup(ms, k).Some? && Lookup(ns, k).Some? ==> PyEqual(Lookup(ms, k).value, Lookup(ns, k).value)
    {
      LookupIn(ns, k);
      LookupIn(ms, k);
      if Lookup(ms, k).Some? {
        var i := PlaceOf(ms, k);
        assert ms[i].key == k && ms[i].value == Lookup(ms, k).value;
      }
    }
  }

  lemma EntriesOf(ms: seq<Member>, ns: seq<Member>)
    requires PyEqual(Obj(ms), Obj(ns))
    ensures forall k :: k in Keys(ns) ==> k in Keys(ms)
    ensures forall i :: 0 <= i < |ms| ==>
      Lookup(ns, ms[i].key).Some? && PyEqual(ms[i].value, Lookup(ns, ms[i].key).value)
  {
    hide Lookup;
  }

  lemma SameEntriesAreEqual(ms: seq<Member>, ns: seq<Member>)
    requires Distinct(Keys(ms)) && SameEntries(ms, ns)
    ensures PyEqual(Obj(ms), Obj(ns))
  {
    hide Distinct, Lookup;
    forall k ensures k in Keys(ns) ==> k in Keys(ms) {
      LookupIn(ms, k);
      LookupIn(ns, k);
    }
    forall i | 0 <= i < |ms|
      ensures Lookup(ns, ms[i].key).Some? && PyEqual(ms[i].value, Lookup(ns, ms[i].key).value)
    {
      LookupAt(ms, i);
    }
  }

  /** Two dictionaries are equal exactly when they have the same keys with equal values. */
  lemma DictionariesExactly(ms: seq<Member>, ns: seq<Member>)
    requires Distinct(Keys(ms))
    ensures PyEqual(Obj(ms), Obj(ns)) <==> SameEntries(ms, ns)
  {
    hide Distinct, PyEqual, SameEntries;
    if PyEqual(Obj(ms), Obj(ns)) {
      EqualHaveSameEntries(ms, ns);
    }
    if SameEntries(ms, ns) {
      SameEntriesAreEqual(ms, ns);
    }
  }

  lemma {:induction false} EqualToItself(v: Json)
    requires WellFormed(v)
    ensures PyEqual(v, v)
    decreases v
  {
    match v
    case Arr(items) =>
      forall i | 0 <= i < |items| ensures PyEqual(items[i], items[i]) {
        EqualToItself(items[i]);
      }
    case Obj(members) =>
      forall i | 0 <= i < |members|
        ensures Lookup(members, members[i].key) == Some(members[i].value) && PyEqual(members[i].value, members[i].value)
      {
        LookupAt(members, i);
        EqualToItself(members[i].value);
      }
    case _ =>
  }

  lemma {:induction false} EqualBothWays(a: Json, b: Json)
    requires WellFormed(a) && WellFormed(b) && PyEqual(a, b)
    ensures PyEqual(b, a)
    decreases a
  {
    match (a, b)
    case (Arr(xs), Arr(ys)) =>
      forall i | 0 <= i < |xs| ensures PyEqual(ys[i], xs[i]) {
        EqualBothWays(xs[i], ys[i]);
      }
    case (Obj(ms), Obj(ns)) =>
      forall k | Lookup(ms, k).Some? && Lookup(ns, k).Some?
        ensures PyEqual(Lookup(ns, k).value, Lookup(ms, k).value)
      {
        DictionariesExactly(ms, ns);
        var i, j := PlaceOf(ms, k), PlaceOf(ns, k);
        EqualBothWays(ms[i].value, ns[j].value);
      }
      DictionariesExactly(ms, ns);
      DictionariesExactly(ns, ms);
    case _ =>
  }

  ghost function PlaceOf(members: seq<Member>, key: string): (i: nat)
    requires Lookup(members, key).Some?
    ensures i < |members| && members[i] == Member(key, Lookup(members, key).value)
  {
    LookupIn(members, key);
    var i :| 0 <= i < |members| && members[i] == Member(key, Lookup(members, key).value);
    i
  }

  lemma {:induction false} EqualInTurn(a: Json, b: Json, c: Json)
    requires WellFormed(a) && WellFormed(b) && PyEqual(a, b) && PyEqual(b, c)
    ensures PyEqual(a, c)
    decreases a, 1
  {
    hide Lookup, Distinct;
    match (a, b, c)
    case (Arr(xs), Arr(ys), Arr(zs)) =>
      forall i | 0 <= i < |xs| ensures PyEqual(xs[i], zs[i]) {
        EqualInTurn(xs[i], ys[i], zs[i]);
      }
    case (Obj(ms), Obj(ns), Obj(os)) =>
      DictionariesInTurn(ms, ns, os);
    case _ =>
  }

  lemma {:induction false} DictionariesInTurn(ms: seq<Member>, ns: seq<Member>, os: seq<Member>)
    requires WellFormed(Obj(ms)) && WellFormed(Obj(ns)) && PyEqual(Obj(ms), Obj(ns)) && PyEqual(Obj(ns), Obj(os))
    ensures PyEqual(Obj(ms), Obj(os))
    decreases Obj(ms), 0
  {
    hide Lookup, Distinct, PyEqual;
    DictionariesExactly(ms, ns);
    DictionariesExactly(ns, os);
    forall k | Lookup(ms, k).Some? && Lookup(os, k).Some?
      ensures PyEqual(Lookup(ms, k).value, Lookup(os, k).value)
    {
      var i, j := PlaceOf(ms, k), PlaceOf(ns, k);
      assert PyEqual(ms[i].value, ns[j].value) && PyEqual(ns[j].value, Lookup(os, k).value);
      EqualInTurn(ms[i].value, ns[j].value, Lookup(os, k).value);
    }
    DictionariesExactly(ms, os);
  }

  /** On documents whose dictionaries repeat no key, `==` is an equivalence. */
  lemma EqualityIsAnEquivalence(a: Json, b: Json, c: Json)
    requires WellFormed(a) && WellFormed(b) && WellFormed(c)
    ensures PyEqual(a, a)
    ensures PyEqual(a, b) <==> PyEqual(b, a)
    ensures PyEqual(a, b) && PyEqual(b, c) ==> PyEqual(a, c)
  {
    hide PyEqual, WellFormed;
    EqualToItself(a);
    if PyEqual(a, b) {
      EqualBothWays(a, b);
    }
    if PyEqual(b, a) {
      EqualBothWays(b, a);
    }
    if PyEqual(a, b) && PyEqual(b, c) {
      EqualInTurn(a, b, c);
    }
  }
}
