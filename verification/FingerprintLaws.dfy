/**
 What an identity depends on (scripts/check_duplicate_code_ratchet.py): which clones share a grouping
 key, and which changes of a report leave its fingerprints as they were.
 */
module FingerprintLaws {
  import opened Wrappers
  import opened Sorting
  import opened FragmentScanner
  import opened FragmentNormaliser
  import opened FragmentSpacing
  import opened DuplicateReport
  import opened DuplicateRatchet

  // ----- the canonical side -----

  function StartColumn(l: Location): int {
    match l.columns
    case None => -1
    case Some(c) => c.startColumn
  }

  /** By source, then by line, then by column; an unknown column comes first. */
  ghost predicate NotAfter(a: Location, b: Location) {
    if a.source != b.source then TextLe(a.source, b.source)
    else if a.start != b.start then a.start < b.start
    else StartColumn(a) <= StartColumn(b)
  }

  lemma NotAfterExactly(a: Location, b: Location)
    ensures InOrder(a, b) <==> NotAfter(a, b)
  {
    hide TextLe;
    var x, y := SortKey(a), SortKey(b);
    assert x[1..][1..] == [x[2]] && y[1..][1..] == [y[2]];
    assert x[0] == y[0] <==> a.source == b.source;
    assert x[2] == NumberCell(StartColumn(a)) && y[2] == NumberCell(StartColumn(b));
    LastCell(x[2], y[2]);
    if a.source == b.source {
      RowStep(x, y);
      RowStep(x[1..], y[1..]);
    }
  }

  lemma RowStep(x: seq<Cell>, y: seq<Cell>)
    requires x != [] && y != []
    ensures RowLe(x, y) <==> if x[0] == y[0] then RowLe(x[1..], y[1..]) else CellLe(x[0], y[0])
  {}

  lemma LastCell(x: Cell, y: Cell)
    ensures RowLe([x], [y]) <==> x == y || CellLe(x, y)
  {
    assert [x][1..] == [] == [y][1..];
  }

  /** The rows agree before `k` and differ there. */
  ghost predicate FirstDifference(a: seq<Cell>, b: seq<Cell>, k: nat) {
    k < |a| && k < |b| && a[k] != b[k] && forall i :: 0 <= i < k ==> a[i] == b[i]
  }

  /** Rows of one length compare by their first difference, and cannot be compared when a cell is missing there. */
  lemma {:induction false} FirstDifferenceDecides(a: seq<Cell>, b: seq<Cell>)
    requires |a| == |b|
    ensures RowLe(a, b) <==> a == b || exists k: nat :: FirstDifference(a, b, k) && CellLe(a[k], b[k])
    ensures Comparable(a, b) <==> forall k: nat :: FirstDifference(a, b, k) ==> !a[k].Missing? && !b[k].Missing?
  {
    hide CellLe;
    if a != [] {
      FirstDifferenceDecides(a[1..], b[1..]);
      if a[0] == b[0] {
        forall k: nat ensures FirstDifference(a, b, k + 1) <==> FirstDifference(a[1..], b[1..], k) {
          assert forall i :: 0 < i < |a| ==> a[i] == a[1..][i - 1] && b[i] == b[1..][i - 1];
        }
        LaterDifference(a, b);
        assert a == b <==> a[1..] == b[1..] by {
          assert a == [a[0]] + a[1..] && b == [b[0]] + b[1..];
        }
      } else {
        assert FirstDifference(a, b, 0);
        assert forall k: nat :: FirstDifference(a, b, k) ==> k == 0;
      }
    }
  }

  lemma LaterDifference(a: seq<Cell>, b: seq<Cell>)
    requires |a| == |b| && a != [] && a[0] == b[0]
    ensures forall k: nat :: FirstDifference(a, b, k) ==> k > 0 && FirstDifference(a[1..], b[1..], k - 1)
  {
    forall k: nat | FirstDifference(a, b, k) ensures k > 0 && FirstDifference(a[1..], b[1..], k - 1) {
      assert forall i :: 0 <= i < k - 1 ==> a[1..][i] == a[i + 1] && b[1..][i] == b[i + 1];
    }
  }

  lemma {:induction false} ComparableApart(a: seq<Cell>, b: seq<Cell>, c: seq<Cell>, d: seq<Cell>)
    requires |a| == |b|
    ensures Comparable(a + c, b + d) <==> if a == b then Comparable(c, d) else Comparable(a, b)
  {
    if a == [] {
      assert a + c == c && b + d == d;
    } else {
      assert (a + c)[1..] == a[1..] + c && (b + d)[1..] == b[1..] + d;
      assert a == [a[0]] + a[1..] && b == [b[0]] + b[1..];
      ComparableApart(a[1..], b[1..], c, d);
    }
  }

  /** Columns are known for one of two places that start on one line of one source. */
  ghost predicate HalfKnown(a: Location, b: Location) {
    a.source == b.source && a.start == b.start && (a.columns.Some? <==> b.columns.None?)
  }

  lemma RowExactly(a: Location, b: Location)
    ensures Row(a) == Row(b) <==> a == b
    ensures Comparable(Row(a), Row(b)) <==> !HalfKnown(a, b)
  {
    var x, y := Row(a), Row(b);
    assert x[0] == y[0] <==> a.source == b.source;
    assert x[1] == y[1] <==> a.start == b.start;
    assert x[2] == y[2] && x[3] == y[3] && x[4] == y[4] <==> a.columns == b.columns;
    FirstDifferenceDecides(x, y);
    hide Comparable, RowLe;
    if HalfKnown(a, b) {
      assert FirstDifference(x, y, 2);
    } else {
      forall k: nat | FirstDifference(x, y, k) ensures !x[k].Missing? && !y[k].Missing? {
        if k >= 2 {
          assert x[0] == y[0] && x[1] == y[1];
        }
      }
    }
  }

  /** Two identities with one key cannot be sorted when, at the first side that differs, columns are known for one. */
  lemma SortFailsExactly(identities: seq<Identity>)
    ensures SortFails(identities) <==>
      exists i, j :: 0 <= i < j < |identities| && identities[i].key == identities[j].key
        && ClashAt(identities[i], identities[j])
  {
    hide Comparable;
    forall i, j | 0 <= i < j < |identities|
      ensures Comparable(Rows(identities[i]), Rows(identities[j])) <==> !ClashAt(identities[i], identities[j])
    {
      ClashExactly(identities[i], identities[j]);
    }
    hide Rows, ClashAt;
  }

  ghost predicate ClashAt(x: Identity, y: Identity) {
    HalfKnown(x.first, y.first) || (x.first == y.first && HalfKnown(x.second, y.second))
  }

  lemma ClashExactly(x: Identity, y: Identity)
    ensures Comparable(Rows(x), Rows(y)) <==> !ClashAt(x, y)
  {
    ComparableApart(Row(x.first), Row(y.first), Row(x.second), Row(y.second));
    RowExactly(x.first, y.first);
    RowExactly(x.second, y.second);
    hide Row, Comparable;
  }

  ghost function Low(e: Entry): Location {
    if NotAfter(e.first, e.second) then e.first else e.second
  }

  ghost function High(e: Entry): Location {
    if NotAfter(e.first, e.second) then e.second else e.first
  }

  /** The text a clone is judged by: that of its lower side, where the sources are at hand. */
  ghost function JudgedText(tools: Tools, e: Entry): string {
    match tools.root
    case None => e.fragment
    case Some(r) => r.fragmentAt(Low(e), e.lines)
  }

  /** What surrounds the two sides, the lower one first. */
  ghost function Surroundings(tools: Tools, e: Entry): Option<(string, string)> {
    match tools.root
    case None => None
    case Some(r) =>
      Some((r.contextAt(Low(e).source, Low(e).start, e.lines), r.contextAt(High(e).source, High(e).start, e.lines)))
  }

  /** An entry has an identity exactly when its text has a normal form, and the identity says where it lies. */
  lemma IdentityExactly(tools: Tools, e: Entry)
    ensures Identify(tools, e).Success? <==> NormaliseFragment(tools.scanner, JudgedText(tools, e)) != ""
    ensures Identify(tools, e).Success? ==>
      Identify(tools, e).value.first == Low(e) && Identify(tools, e).value.second == High(e)
  {
    hide NormaliseFragment, InOrder, NotAfter;
    NotAfterExactly(e.first, e.second);
  }

  ghost predicate InjectiveDigest(tools: Tools) {
    forall s, t :: tools.sha256(s) == tools.sha256(t) ==> s == t
  }

  /** The same clone as far as a baseline can tell. */
  ghost predicate SameClone(tools: Tools, e: Entry, f: Entry) {
    && e.format == f.format
    && multiset{e.first.source, e.second.source} == multiset{f.first.source, f.second.source}
    && NormaliseFragment(tools.scanner, JudgedText(tools, e)) == NormaliseFragment(tools.scanner, JudgedText(tools, f))
    && Surroundings(tools, e) == Surroundings(tools, f)
  }

  lemma OrderedPair(a: string, b: string, c: string, d: string)
    ensures multiset{a, b} == multiset{c, d} <==>
      (if TextLe(a, b) then (a, b) else (b, a)) == (if TextLe(c, d) then (c, d) else (d, c))
  {
    hide TextLe;
    TextTotal(a, b);
    TextTotal(c, d);
    if multiset{a, b} == multiset{c, d} {
      assert a in multiset{c, d} && b in multiset{c, d} && c in multiset{a, b} && d in multiset{a, b};
      if a == c {
        assert multiset{b} == multiset{a, b} - multiset{a} == multiset{c, d} - multiset{c} == multiset{d};
        assert b in multiset{d};
      } else {
        assert a == d && b == c;
      }
    }
  }

  /** What an identity's key is made of. */
  lemma KeyParts(tools: Tools, e: Entry)
    requires Identify(tools, e).Success?
    ensures var key := Identify(tools, e).value.key;
      && key.format == e.format
      && key.fragmentDigest == tools.sha256(NormaliseFragment(tools.scanner, JudgedText(tools, e)))
      && key.sources == (if TextLe(e.first.source, e.second.source)
           then (e.first.source, e.second.source) else (e.second.source, e.first.source))
      && key.contextDigests == (match Surroundings(tools, e)
           case None => (None, None)
           case Some((x, y)) => (Some(tools.sha256(x)), Some(tools.sha256(y))))
  {
    hide NormaliseFragment, InOrder, NotAfter;
    NotAfterExactly(e.first, e.second);
  }

  /**
   Two clones share a grouping key exactly when they have one format, the same two sources, the same
   normal form and the same surroundings.
   */
  lemma KeysExactly(tools: Tools, e: Entry, f: Entry)
    requires InjectiveDigest(tools) && Identify(tools, e).Success? && Identify(tools, f).Success?
    ensures Identify(tools, e).value.key == Identify(tools, f).value.key <==> SameClone(tools, e, f)
  {
    hide NormaliseFragment, Identify, JudgedText, TextLe, Low, High, Surroundings;
    KeyParts(tools, e);
    KeyParts(tools, f);
    OrderedPair(e.first.source, e.second.source, f.first.source, f.second.source);
    assert Surroundings(tools, e).Some? <==> tools.root.Some? by { RootDecides(tools, e); }
    assert Surroundings(tools, f).Some? <==> tools.root.Some? by { RootDecides(tools, f); }
  }

  lemma RootDecides(tools: Tools, e: Entry)
    ensures Surroundings(tools, e).Some? <==> tools.root.Some?
  {}

  // ----- changes that leave a report as it was -----

  /** One scanner and one digest, and sources that are at hand for both or for neither. */
  ghost predicate SameMeans(tools: Tools, others: Tools) {
    tools.scanner == others.scanner && tools.sha256 == others.sha256 && (tools.root.Some? <==> others.root.Some?)
  }

  /** The entry's text is re-spaced, in the report or in the sources; all else about it stays. */
  ghost predicate OnlyRespaced(tools: Tools, others: Tools, e: Entry, f: Entry, texts: seq<string>) {
    && SameMeans(tools, others)
    && f == e.(fragment := f.fragment)
    && Surroundings(tools, e) == Surroundings(others, f)
    && Respaced(tools.scanner, texts)
    && texts[0] == JudgedText(tools, e) && texts[|texts| - 1] == JudgedText(others, f)
  }

  ghost predicate StillTheSame(tools: Tools, others: Tools, e: Entry, f: Entry) {
    exists texts :: OnlyRespaced(tools, others, e, f, texts)
  }

  lemma RespacedIdentity(tools: Tools, others: Tools, e: Entry, f: Entry)
    requires tools.scanner.Valid() && StillTheSame(tools, others, e, f)
    ensures Identify(tools, e) == Identify(others, f)
  {
    hide NormaliseFragment, JudgedText, Identify, Respaced, Scanner.Valid, Surroundings;
    var texts :| OnlyRespaced(tools, others, e, f, texts);
    RespacedForm(tools.scanner, texts);
    IdentityExactly(tools, e);
    IdentityExactly(others, f);
    if Identify(tools, e).Success? {
      KeyParts(tools, e);
      KeyParts(others, f);
    } else {
      OneFailure(tools, e);
      OneFailure(others, f);
    }
  }

  lemma OneFailure(tools: Tools, e: Entry)
    ensures Identify(tools, e).Failure? ==> Identify(tools, e) == Failure(EmptyFragment)
  {
    hide NormaliseFragment;
  }

  /** The findings a report's entries give rise to, as `LoadReport` finds them. */
  ghost predicate FoundIn(
      tools: Tools, finger: (GroupingKey, nat) -> string, entries: seq<Entry>, findings: seq<Finding>)
  {
    exists identities :: Identified(tools, entries, identities) && Found(identities, finger, findings)
  }

  /** Re-spacing the clones of a report leaves its findings as they were, fingerprint by fingerprint. */
  lemma RespacedReport(
      tools: Tools, others: Tools, entries: seq<Entry>, respaced: seq<Entry>,
      finger: (GroupingKey, nat) -> string, findings: seq<Finding>, found: seq<Finding>)
    requires tools.scanner.Valid() && |entries| == |respaced|
    requires forall i :: 0 <= i < |entries| ==> StillTheSame(tools, others, entries[i], respaced[i])
    requires FoundIn(tools, finger, entries, findings) && FoundIn(others, finger, respaced, found)
    ensures found == findings
  {
    hide Identify, StillTheSame, Scanner.Valid, Found;
    var xs :| Identified(tools, entries, xs) && Found(xs, finger, findings);
    var ys :| Identified(others, respaced, ys) && Found(ys, finger, found);
    forall i | 0 <= i < |entries| ensures xs[i] == ys[i] {
      RespacedIdentity(tools, others, entries[i], respaced[i]);
    }
    assert xs == ys;
    FindingsAreDecided(xs, finger, findings, found);
  }

  lemma FindingsAreDecided(
      identities: seq<Identity>, finger: (GroupingKey, nat) -> string, findings: seq<Finding>, found: seq<Finding>)
    requires Found(identities, finger, findings) && Found(identities, finger, found)
    ensures found == findings
  {
    hide OccurrenceOf;
  }
}
