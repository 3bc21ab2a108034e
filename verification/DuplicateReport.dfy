/**
 How scripts/check_duplicate_code_ratchet.py turns a detector report into stable fingerprints:
 identities, grouping keys and occurrence numbers.
 */
module DuplicateReport {
  import opened Wrappers
  import opened Json
  import opened Sorting
  import opened Numbering
  import opened FragmentScanner
  import opened FragmentNormaliser
  import opened FragmentLayout

  /** Columns are known for both ends or for neither. */
  datatype Columns = Columns(startColumn: nat, end: nat, endColumn: nat)

  datatype Location = Location(source: string, start: nat, columns: Option<Columns>)

  datatype GroupingKey = GroupingKey(
    format: string,
    fragmentDigest: string,
    sources: (string, string),
    contextDigests: (Option<string>, Option<string>))

  datatype Identity = Identity(key: GroupingKey, first: Location, second: Location)

  /** A detector entry whose fields have passed their own checks. */
  datatype Entry = Entry(first: Location, second: Location, format: string, fragment: string, lines: nat)

  /** Reading the checked-out sources, when a source root is given. */
  datatype SourceRoot = SourceRoot(fragmentAt: (Location, nat) -> string, contextAt: (string, nat, nat) -> string)

  datatype Tools = Tools(scanner: Scanner, sha256: string -> string, root: Option<SourceRoot>)

  datatype Error = EmptyFragment | IncomparableLocations | BadCloneCount | BadDuplicatedLines | BadPercentage

  // ----- the order of locations -----

  datatype Cell = TextCell(text: string) | NumberCell(n: int) | Missing

  /** The tuple `(source, start, start_column, end, end_column)`. */
  function Row(l: Location): seq<Cell> {
    [TextCell(l.source), NumberCell(l.start)] +
    match l.columns
    case None => [Missing, Missing, Missing]
    case Some(c) => [NumberCell(c.startColumn), NumberCell(c.end), NumberCell(c.endColumn)]
  }

  function Rows(i: Identity): seq<Cell> {
    Row(i.first) + Row(i.second)
  }

  predicate CellLe(a: Cell, b: Cell) {
    match (a, b)
    case (TextCell(s), TextCell(t)) => TextLe(s, t)
    case (NumberCell(m), NumberCell(n)) => m <= n
    case (Missing, _) => true
    case (TextCell(_), NumberCell(_)) => true
    case _ => false
  }

  /** Tuple comparison: the first cells that differ decide. */
  predicate RowLe(a: seq<Cell>, b: seq<Cell>) {
    a == [] || (b != [] && if a[0] == b[0] then RowLe(a[1..], b[1..]) else CellLe(a[0], b[0]))
  }

  /** Python cannot order `None` and a number, so such a pair of locations raises `TypeError`. */
  predicate Comparable(a: seq<Cell>, b: seq<Cell>) {
    a == [] || b == [] ||
    if a[0] == b[0] then Comparable(a[1..], b[1..]) else !a[0].Missing? && !b[0].Missing?
  }

  lemma CellOrder(a: Cell, b: Cell, c: Cell)
    ensures CellLe(a, b) || CellLe(b, a)
    ensures CellLe(a, b) && CellLe(b, a) ==> a == b
    ensures CellLe(a, b) && CellLe(b, c) ==> CellLe(a, c)
  {
    if a.TextCell? && b.TextCell? {
      TextTotal(a.text, b.text);
      if c.TextCell? && CellLe(a, b) && CellLe(b, c) {
        TextTransitive(a.text, b.text, c.text);
      }
    }
  }

  lemma {:induction false} RowTotal(a: seq<Cell>, b: seq<Cell>)
    ensures RowLe(a, b) || RowLe(b, a)
  {
    if a != [] && b != [] {
      if a[0] == b[0] {
        RowTotal(a[1..], b[1..]);
      } else {
        CellOrder(a[0], b[0], a[0]);
      }
    }
  }

  lemma {:induction false} RowTransitive(a: seq<Cell>, b: seq<Cell>, c: seq<Cell>)
    requires RowLe(a, b) && RowLe(b, c)
    ensures RowLe(a, c)
  {
    if a != [] {
      CellOrder(a[0], b[0], c[0]);
      if a[0] == b[0] == c[0] {
        RowTransitive(a[1..], b[1..], c[1..]);
      }
    }
  }

  // ----- identities -----

  /** `sorted((first, second), key=(source, start, start_column or -1))`; a tie keeps the order. */
  predicate InOrder(a: Location, b: Location) {
    RowLe(SortKey(a), SortKey(b))
  }

  function SortKey(l: Location): seq<Cell> {
    [TextCell(l.source), NumberCell(l.start),
     NumberCell(if l.columns.Some? then l.columns.value.startColumn else -1)]
  }

  function Identify(tools: Tools, e: Entry): Result<Identity, Error> {
    var (low, high) := if InOrder(e.first, e.second) then (e.first, e.second) else (e.second, e.first);
    var sources := if TextLe(e.first.source, e.second.source)
      then (e.first.source, e.second.source) else (e.second.source, e.first.source);
    var fragment := if tools.root.Some? then tools.root.value.fragmentAt(low, e.lines) else e.fragment;
    var normalised := NormaliseFragment(tools.scanner, fragment);
    if normalised == "" then Failure(EmptyFragment)
    else
      var contexts := match tools.root
        case None => (None, None)
        case Some(r) => (
          Some(tools.sha256(r.contextAt(low.source, low.start, e.lines))),
          Some(tools.sha256(r.contextAt(high.source, high.start, e.lines))));
      Success(Identity(GroupingKey(e.format, tools.sha256(normalised), sources, contexts), low, high))
  }

  function Swapped(e: Entry): Entry {
    e.(first := e.second, second := e.first)
  }

  /**
   Which side of a clone the detector calls the first does not matter exactly when two sides that
   start at one place are the same: the sort does not look at where they end.
   */
  lemma SidesAreInterchangeable(tools: Tools, e: Entry)
    ensures (SortKey(e.first) == SortKey(e.second) ==> e.first == e.second)
      ==> Identify(tools, Swapped(e)) == Identify(tools, e)
    ensures Identify(tools, e).Success? && SortKey(e.first) == SortKey(e.second) && e.first != e.second
      ==> Identify(tools, Swapped(e)) != Identify(tools, e)
  {
    hide NormaliseFragment;
    TextTotal(e.first.source, e.second.source);
    RowTotal(SortKey(e.first), SortKey(e.second));
    if RowLe(SortKey(e.first), SortKey(e.second)) && RowLe(SortKey(e.second), SortKey(e.first)) {
      RowAntisymmetric(SortKey(e.first), SortKey(e.second));
    }
  }

  const SOURCE := "src/app/a.py"

  /** One line of one file, up to the second column and up to the third. */
  const NESTED := Entry(
    Location(SOURCE, 1, Some(Columns(0, 1, 2))), Location(SOURCE, 1, Some(Columns(0, 1, 3))), "python", "a", 1)

  /** Two sides that start together and end apart: each order gives its own identity. */
  lemma NestedSidesDiffer(tools: Tools)
    requires tools.root.None? && NormaliseFragment(tools.scanner, NESTED.fragment) != ""
    ensures Identify(tools, NESTED).Success? && Identify(tools, Swapped(NESTED)).Success?
    ensures Identify(tools, NESTED) != Identify(tools, Swapped(NESTED))
  {
    hide NormaliseFragment;
    SidesAreInterchangeable(tools, NESTED);
  }

  /** The same with the tokens Python gives for the fragment. */
  lemma NestedSidesDifferAsTokenized(tools: Tools)
    requires tools.root.None? && FirstCharacterOnly(tools.scanner, NESTED.fragment)
    ensures Identify(tools, NESTED).Success? && Identify(tools, Swapped(NESTED)).Success?
    ensures Identify(tools, NESTED) != Identify(tools, Swapped(NESTED))
  {
    hide NormaliseFragment, FirstCharacterOnly, Identify;
    assert NESTED.fragment == ['a'];
    LoneCharacterForm(tools.scanner, 'a');
    NestedSidesDiffer(tools);
  }

  lemma {:induction false} RowAntisymmetric(a: seq<Cell>, b: seq<Cell>)
    requires RowLe(a, b) && RowLe(b, a)
    ensures a == b
  {
    if a != [] {
      CellOrder(a[0], b[0], a[0]);
      RowAntisymmetric(a[1..], b[1..]);
      assert a == [a[0]] + a[1..] && b == [b[0]] + b[1..];
    }
  }

  // ----- fingerprints -----

  /** `finger(key, n)` stands for the SHA-256 of the JSON payload of an identity and its number. */
  ghost predicate Injective(finger: (GroupingKey, nat) -> string) {
    forall k, i: nat, k', j: nat :: finger(k, i) == finger(k', j) ==> k == k' && i == j
  }

  datatype Finding = Finding(fingerprint: string, identity: Identity)

  datatype Report = Report(findings: seq<Finding>, duplicatedLines: nat, percentage: Decimal)

  function GroupingKeys(identities: seq<Identity>): (r: seq<GroupingKey>)
    ensures |r| == |identities| && forall i :: 0 <= i < |r| ==> r[i] == identities[i].key
  {
    seq(|identities|, i requires 0 <= i < |identities| => identities[i].key)
  }

  function Fingerprints(findings: seq<Finding>): set<string> {
    set f | f in findings :: f.fingerprint
  }

  /** The fingerprints of a multiset of grouping keys: each key with the numbers up to its count. */
  ghost function Numbered(keys: multiset<GroupingKey>, finger: (GroupingKey, nat) -> string): set<string> {
    set k, i: nat | k in keys && 1 <= i <= keys[k] :: finger(k, i)
  }

  function Indices(n: nat): (r: seq<nat>)
    ensures |r| == n && forall i :: 0 <= i < n ==> r[i] == i
  {
    seq(n, i => i)
  }

  /** Keys and order of the indices that `load_report` groups and sorts; total on all naturals. */
  function KeyAt(identities: seq<Identity>): nat -> Option<GroupingKey> {
    (i: nat) => if i < |identities| then Some(identities[i].key) else None
  }

  function OrderAt(identities: seq<Identity>): (nat, nat) -> bool {
    (i: nat, j: nat) => RowLe(RowsAt(identities, i), RowsAt(identities, j))
  }

  function RowsAt(identities: seq<Identity>, i: nat): seq<Cell> {
    if i < |identities| then Rows(identities[i]) else []
  }

  lemma OrderIsTotal(identities: seq<Identity>)
    ensures TotalOrder(OrderAt(identities))
  {
    var le := OrderAt(identities);
    forall i: nat, j: nat ensures le(i, j) || le(j, i) {
      RowTotal(RowsAt(identities, i), RowsAt(identities, j));
    }
    forall i: nat, j: nat, k: nat | le(i, j) && le(j, k) ensures le(i, k) {
      RowTransitive(RowsAt(identities, i), RowsAt(identities, j), RowsAt(identities, k));
    }
  }

  /** Sorting a group compares every two neighbours, so it fails when two members cannot be compared. */
  predicate SortFails(identities: seq<Identity>) {
    exists i, j :: 0 <= i < j < |identities| && identities[i].key == identities[j].key
      && !Comparable(Rows(identities[i]), Rows(identities[j]))
  }

  ghost function OccurrenceOf(identities: seq<Identity>, i: nat): nat
    requires i < |identities|
  {
    OrderIsTotal(identities);
    assert Indices(|identities|)[i] == i;
    Number(Indices(|identities|), KeyAt(identities), OrderAt(identities), i)
  }

  /** Which findings a list of identities gives rise to. */
  ghost predicate Found(
      identities: seq<Identity>, finger: (GroupingKey, nat) -> string, findings: seq<Finding>)
  {
    && |findings| == |identities|
    && forall i :: 0 <= i < |findings| ==>
         findings[i] == Finding(finger(identities[i].key, OccurrenceOf(identities, i)), identities[i])
  }

  /** The occurrence numbers of the identities, by their place in the report. */
  method OccurrenceNumbers(identities: seq<Identity>) returns (numbers: map<nat, nat>)
    ensures forall i :: 0 <= i < |identities| ==> i in numbers && numbers[i] == OccurrenceOf(identities, i)
  {
    hide OrderAt, Number;
    OrderIsTotal(identities);
    numbers := NumberOccurrences(Indices(|identities|), KeyAt(identities), OrderAt(identities));
    forall i | 0 <= i < |identities| ensures i in Indices(|identities|) {
      assert Indices(|identities|)[i] == i;
    }
  }

  /** The findings of `load_report`: group, sort, number, then fingerprint in report order. */
  method NumberFindings(identities: seq<Identity>, finger: (GroupingKey, nat) -> string)
    returns (findings: seq<Finding>)
    ensures Found(identities, finger, findings)
  {
    hide OccurrenceOf;
    var numbers := OccurrenceNumbers(identities);
    findings := [];
    for i := 0 to |identities|
      invariant |findings| == i
      invariant forall j :: 0 <= j < i ==>
        findings[j] == Finding(finger(identities[j].key, OccurrenceOf(identities, j)), identities[j])
    {
      findings := findings + [Finding(finger(identities[i].key, numbers[i]), identities[i])];
    }
  }

  lemma {:induction false} GroupCount(identities: seq<Identity>, n: nat, k: GroupingKey)
    requires n <= |identities|
    ensures Count(Indices(n), KeyAt(identities), Some(k)) == multiset(GroupingKeys(identities[..n]))[k]
  {
    if n > 0 {
      GroupCount(identities, n - 1, k);
      assert Indices(n)[..n - 1] == Indices(n - 1);
      assert GroupingKeys(identities[..n]) == GroupingKeys(identities[..n - 1]) + [identities[n - 1].key];
    }
  }

  /** The numbers of one grouping key are those up to its count. */
  lemma KeyNumbers(identities: seq<Identity>, k: GroupingKey)
    requires TotalOrder(OrderAt(identities))
    ensures forall i ::
      Taken(Indices(|identities|), KeyAt(identities), OrderAt(identities), Some(k), i)
      <==> 1 <= i <= multiset(GroupingKeys(identities))[k]
  {
    hide OrderAt, KeyAt, Number;
    var n := |identities|;
    assert identities[..n] == identities;
    NumbersFillGroup(Indices(n), KeyAt(identities), OrderAt(identities), Some(k));
    GroupCount(identities, n, k);
  }

  lemma FoundIsNumbered(
      identities: seq<Identity>, finger: (GroupingKey, nat) -> string, findings: seq<Finding>, f: string)
    requires Found(identities, finger, findings) && f in Fingerprints(findings)
    ensures f in Numbered(multiset(GroupingKeys(identities)), finger)
  {
    hide OrderAt, Number;
    OrderIsTotal(identities);
    var n, keys := |identities|, multiset(GroupingKeys(identities));
    var i :| 0 <= i < n && findings[i].fingerprint == f;
    var k := identities[i].key;
    KeyNumbers(identities, k);
    assert Indices(n)[i] == i && KeyAt(identities)(i) == Some(k);
    assert Taken(Indices(n), KeyAt(identities), OrderAt(identities), Some(k), OccurrenceOf(identities, i));
    assert GroupingKeys(identities)[i] == k;
    assert k in keys;
  }

  lemma NumberedIsFound(
      identities: seq<Identity>, finger: (GroupingKey, nat) -> string, findings: seq<Finding>, f: string)
    requires Found(identities, finger, findings) && f in Numbered(multiset(GroupingKeys(identities)), finger)
    ensures f in Fingerprints(findings)
  {
    hide OrderAt, Number;
    OrderIsTotal(identities);
    var n, keys := |identities|, multiset(GroupingKeys(identities));
    var k, i: nat :| k in keys && 1 <= i <= keys[k] && finger(k, i) == f;
    KeyNumbers(identities, k);
    assert Taken(Indices(n), KeyAt(identities), OrderAt(identities), Some(k), i);
    var x :| x in Indices(n) && KeyAt(identities)(x) == Some(k)
      && Number(Indices(n), KeyAt(identities), OrderAt(identities), x) == i;
    assert OccurrenceOf(identities, x) == i;
    assert findings[x].fingerprint == f && findings[x] in findings;
  }

  /**
   A report's fingerprints are the numbered multiset of its grouping keys, and nothing else: no
   two findings share one, and neither the order of the entries nor their positions matter.
   */
  lemma FingerprintsAreNumbered(
      identities: seq<Identity>, finger: (GroupingKey, nat) -> string, findings: seq<Finding>)
    requires Found(identities, finger, findings)
    ensures Fingerprints(findings) == Numbered(multiset(GroupingKeys(identities)), finger)
  {
    hide Found, Fingerprints, Numbered;
    forall f ensures f in Fingerprints(findings) <==> f in Numbered(multiset(GroupingKeys(identities)), finger) {
      if f in Fingerprints(findings) {
        FoundIsNumbered(identities, finger, findings, f);
      }
      if f in Numbered(multiset(GroupingKeys(identities)), finger) {
        NumberedIsFound(identities, finger, findings, f);
      }
    }
  }

  /** Pairwise distinct: a report has as many fingerprints as findings. */
  lemma FingerprintsAreDistinct(
      identities: seq<Identity>, finger: (GroupingKey, nat) -> string, findings: seq<Finding>)
    requires Found(identities, finger, findings) && Injective(finger)
    ensures forall i, j :: 0 <= i < j < |findings| ==> findings[i].fingerprint != findings[j].fingerprint
    ensures |Fingerprints(findings)| == |findings|
  {
    hide RowLe, Rows, RowsAt;
    OrderIsTotal(identities);
    var n := |identities|;
    forall i, j | 0 <= i < j < n ensures findings[i].fingerprint != findings[j].fingerprint {
      assert Indices(n)[i] == i && Indices(n)[j] == j;
      NumbersFillGroup(Indices(n), KeyAt(identities), OrderAt(identities), Some(identities[i].key));
    }
    DistinctSetSize(findings);
  }

  lemma {:induction false} DistinctSetSize(findings: seq<Finding>)
    requires forall i, j :: 0 <= i < j < |findings| ==> findings[i].fingerprint != findings[j].fingerprint
    ensures |Fingerprints(findings)| == |findings|
  {
    if findings != [] {
      var init, last := findings[..|findings| - 1], findings[|findings| - 1];
      DistinctSetSize(init);
      assert findings == init + [last];
      assert Fingerprints(findings) == Fingerprints(init) + {last.fingerprint};
      assert last.fingerprint !in Fingerprints(init);
    }
  }

  // ----- comparing two reports -----

  lemma NumberedStep(keys: multiset<GroupingKey>, k: GroupingKey, finger: (GroupingKey, nat) -> string)
    requires k in keys && Injective(finger)
    ensures Numbered(keys, finger) == Numbered(keys - multiset{k}, finger) + {finger(k, keys[k])}
    ensures finger(k, keys[k]) !in Numbered(keys - multiset{k}, finger)
  {
    var less := keys - multiset{k};
    forall f ensures f in Numbered(keys, finger) <==> f in Numbered(less, finger) + {finger(k, keys[k])} {
      if f in Numbered(keys, finger) {
        var k', i: nat :| k' in keys && 1 <= i <= keys[k'] && finger(k', i) == f;
        assert k' != k || i < keys[k] ==> k' in less && i <= less[k'];
      }
      if f in Numbered(less, finger) {
        var k', i: nat :| k' in less && 1 <= i <= less[k'] && finger(k', i) == f;
        assert k' in keys && i <= keys[k'];
      }
    }
  }

  /**
   Comparing the fingerprints of two reports counts the clones one has more of than the other:
   the sum over all grouping keys of how far its count exceeds the other's.
   */
  lemma {:induction false} SurplusIsCounted(
      current: multiset<GroupingKey>, base: multiset<GroupingKey>, finger: (GroupingKey, nat) -> string)
    requires Injective(finger)
    ensures |Numbered(current, finger) - Numbered(base, finger)| == |current - base|
    decreases |current|
  {
    if current == multiset{} {
      assert Numbered(current, finger) == {};
    } else {
      hide Numbered;
      var k :| k in current;
      var less := current - multiset{k};
      NumberedStep(current, k, finger);
      NumberedMember(base, k, current[k], finger);
      SurplusIsCounted(less, base, finger);
      SurplusStep(Numbered(current, finger), Numbered(less, finger), Numbered(base, finger), finger(k, current[k]));
      MultisetStep(current, base, k);
    }
  }

  lemma MultisetStep<T>(current: multiset<T>, base: multiset<T>, k: T)
    requires k in current
    ensures |current - base| == |(current - multiset{k}) - base| + if current[k] > base[k] then 1 else 0
  {
    var more, less := current - base, (current - multiset{k}) - base;
    if current[k] > base[k] {
      forall x ensures more[x] == (less + multiset{k})[x] {}
      assert more == less + multiset{k};
    } else {
      forall x ensures more[x] == less[x] {}
      assert more == less;
    }
  }

  lemma SurplusStep<T>(all: set<T>, less: set<T>, base: set<T>, x: T)
    requires all == less + {x} && x !in less
    ensures |all - base| == |less - base| + if x in base then 0 else 1
  {
    if x in base {
      assert all - base == less - base;
    } else {
      assert all - base == (less - base) + {x};
    }
  }

  lemma NumberedMember(keys: multiset<GroupingKey>, k: GroupingKey, i: nat, finger: (GroupingKey, nat) -> string)
    requires Injective(finger) && i >= 1
    ensures finger(k, i) in Numbered(keys, finger) <==> i <= keys[k]
  {
    if i <= keys[k] {
      assert k in keys;
    }
  }
}
