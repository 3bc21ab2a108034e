/**
 What the monetary-float guard promises: how many findings of a place it can excuse, that moving
 lines is never reported, and what a refreshed allowlist keeps.
 */
module MonetaryGuardLaws {
  import opened Wrappers
  import opened Text
  import opened Sorting
  import opened Numbering
  import opened MonetaryGuard

  // ----- sizes of images -----

  ghost function Image<S, T>(xs: set<S>, f: S -> T): set<T> {
    set x | x in xs :: f(x)
  }

  lemma ImageStep<S, T>(xs: set<S>, f: S -> T, x: S)
    requires x in xs
    ensures Image(xs, f) == Image(xs - {x}, f) + {f(x)}
  {}

  lemma {:induction false} ImageSize<S, T>(xs: set<S>, f: S -> T)
    requires forall x, y :: x in xs && y in xs && f(x) == f(y) ==> x == y
    ensures |Image(xs, f)| == |xs|
  {
    if xs != {} {
      var x :| x in xs;
      ImageSize(xs - {x}, f);
      ImageStep(xs, f, x);
    } else {
      assert Image(xs, f) == {};
    }
  }

  lemma {:induction false} ImageBound<S, T>(xs: set<S>, f: S -> T)
    ensures |Image(xs, f)| <= |xs|
  {
    if xs != {} {
      var x :| x in xs;
      ImageBound(xs - {x}, f);
      ImageStep(xs, f, x);
    } else {
      assert Image(xs, f) == {};
    }
  }

  ghost function Interval(lo: nat, hi: nat): (r: set<nat>)
    ensures forall i :: i in r <==> lo < i <= hi
    ensures |r| == if lo < hi then hi - lo else 0
  {
    if lo < hi then Interval(lo, hi - 1) + {hi} else {}
  }

  lemma SubsetSize<T>(a: set<T>, b: set<T>)
    requires a <= b
    ensures |a| <= |b| && |b - a| == |b| - |a|
  {
    assert b == a + (b - a);
  }

  // ----- reading findings and keys -----

  lemma {:induction false} CutAt(head: string, tail: string)
    requires ':' !in head
    ensures Cut(head + ":" + tail) == Some((head, tail))
  {
    var s := head + ":" + tail;
    if head == "" {
      assert s[1..] == tail;
    } else {
      assert s[0] == head[0] && head[0] in head;
      assert s[1..] == head[1..] + ":" + tail;
      CutAt(head[1..], tail);
      assert [head[0]] + head[1..] == head;
    }
  }

  lemma NumberHasNoColon(n: nat)
    ensures ':' !in NatText(n)
  {
    var s := NatText(n);
    forall i | 0 <= i < |s| ensures s[i] != ':' {
      assert IsDigit(s[i]);
    }
  }

  /** A finding the scan wrote reads back as its place and line. */
  lemma FindingReadsBack(numeral: Numeral, path: string, line: nat, source: string)
    requires ':' !in path && numeral(NatText(line)) == Some(line)
    ensures Parse(numeral, Finding(path, line, source)) == Some(Parsed(Place(path, Strip(Strip(source))), line))
  {
    hide NatText, Strip;
    NumberHasNoColon(line);
    var rest := NatText(line) + ":" + Strip(source);
    assert Finding(path, line, source) == path + ":" + rest;
    CutAt(path, rest);
    CutAt(NatText(line), Strip(source));
  }

  /** `path:number:source`, cut at the first two colons. */
  ghost predicate ReadsAs(numeral: Numeral, finding: string, p: Parsed, number: string, source: string) {
    && finding == p.place.path + ":" + number + ":" + source && ':' !in p.place.path && ':' !in number
    && numeral(number) == Some(p.line) && Strip(source) == p.place.source
  }

  lemma CutTwice(path: string, number: string, source: string)
    requires ':' !in path && ':' !in number
    ensures var finding := path + ":" + number + ":" + source;
      Cut(finding) == Some((path, number + ":" + source)) && Cut(number + ":" + source) == Some((number, source))
  {
    var rest := number + ":" + source;
    assert path + ":" + number + ":" + source == path + ":" + rest;
    CutAt(path, rest);
    CutAt(number, source);
  }

  /** A text is a located finding exactly when it is a path, a number and a source, in this order. */
  lemma ParseExactly(numeral: Numeral, finding: string, p: Parsed)
    ensures Parse(numeral, finding) == Some(p) <==>
      exists number, source :: ReadsAs(numeral, finding, p, number, source)
  {
    hide Cut, Strip;
    if number, source :| ReadsAs(numeral, finding, p, number, source) {
      CutTwice(p.place.path, number, source);
    }
    if Parse(numeral, finding) == Some(p) {
      var rest := Cut(finding).value.1;
      var number, source := Cut(rest).value.0, Cut(rest).value.1;
      Assoc(p.place.path + ":", number + ":", source);
      Assoc(p.place.path + ":", number, ":");
      assert ReadsAs(numeral, finding, p, number, source);
    }
  }

  /** Within a place the ranks follow the lines; on one line, the texts. */
  lemma RankFollowsLine(numeral: Numeral, findings: set<string>, f: string, g: string)
    requires f in findings && g in findings && f != g && PlaceOfFinding(numeral, f).Some?
    requires PlaceOfFinding(numeral, f) == PlaceOfFinding(numeral, g)
    ensures Rank(numeral, findings, f) < Rank(numeral, findings, g) <==>
      LineOf(numeral, f) < LineOf(numeral, g) || (LineOf(numeral, f) == LineOf(numeral, g) && TextLe(f, g))
  {
    hide Parse, PlaceOfFinding, LineOf;
    TextTotal(f, g);
    if LineOrder(numeral, f, g) {
      EarlierRanksLower(numeral, findings, f, g);
    } else {
      EarlierRanksLower(numeral, findings, g, f);
    }
  }

  lemma EarlierRanksLower(numeral: Numeral, findings: set<string>, f: string, g: string)
    requires f in findings && g in findings && f != g && LineOrder(numeral, f, g)
    requires PlaceOfFinding(numeral, f) == PlaceOfFinding(numeral, g)
    ensures Rank(numeral, findings, f) < Rank(numeral, findings, g)
  {
    hide Parse, PlaceOfFinding, LineOf, TextLe;
    LineOrderTotal(numeral);
    var le := Before(numeral);
    TextTotal(f, g);
    TextTotal(g, g);
    var lower, upper := NotAfter(numeral, findings, f), NotAfter(numeral, findings, g);
    forall h | h in lower ensures h in upper {
      assert le(h, f) && le(f, g);
      assert le(h, g);
    }
    assert g in upper && g !in lower;
    SubsetSize(lower, upper - {g});
  }

  lemma PathHasNoColon(numeral: Numeral, finding: string)
    ensures var place := PlaceOfFinding(numeral, finding); place.Some? ==> ':' !in place.value.path
  {
    hide Strip;
  }

  lemma DigitTail(s: string, t: string, k: nat)
    requires AllDigits(t)
    ensures k < |t| ==> IsDigit((s + t)[|s + t| - 1 - k])
  {}

  lemma OccurrenceSplits(s: string, i: nat, t: string, j: nat)
    requires s + ":occurrence=" + NatText(i) == t + ":occurrence=" + NatText(j) && |NatText(i)| <= |NatText(j)|
    ensures s == t && i == j
  {
    hide NatText;
    var whole, n := s + ":occurrence=" + NatText(i), |NatText(i)|;
    assert whole[|whole| - 1 - n] == '=';
    DigitTail(t + ":occurrence=", NatText(j), n);
    assert NatText(i) == whole[|whole| - n..] == NatText(j);
    assert s == whole[..|whole| - n - 12] == t;
    NatTextInjective(i, j);
  }

  /** A key names one place and one rank. */
  lemma KeyTextInjective(p: Place, i: nat, q: Place, j: nat)
    requires ':' !in p.path && ':' !in q.path && KeyText(p, i) == KeyText(q, j)
    ensures p == q && i == j
  {
    hide NatText;
    var s, t := p.source + ":occurrence=" + NatText(i), q.source + ":occurrence=" + NatText(j);
    assert KeyText(p, i) == p.path + ":" + s && KeyText(q, j) == q.path + ":" + t;
    CutAt(p.path, s);
    CutAt(q.path, t);
    if |NatText(i)| <= |NatText(j)| {
      OccurrenceSplits(p.source, i, q.source, j);
    } else {
      OccurrenceSplits(q.source, j, p.source, i);
    }
  }

  // ----- ranks -----

  ghost predicate HasRank(numeral: Numeral, findings: set<string>, place: Place, rank: int) {
    exists f :: f in Group(numeral, findings, place) && Rank(numeral, findings, f) == rank
  }

  /** The findings that have a place, in some order. */
  ghost function Located(numeral: Numeral, findings: set<string>): (items: seq<string>)
    ensures Distinct(items)
    ensures forall f :: f in items <==> f in findings && PlaceOfFinding(numeral, f).Some?
  {
    SortedSet(set f | f in findings && PlaceOfFinding(numeral, f).Some?)
  }

  lemma GroupCount(numeral: Numeral, findings: set<string>, place: Place)
    ensures Count(Located(numeral, findings), Places(numeral), Some(place)) == |Group(numeral, findings, place)|
  {
    hide PlaceOfFinding, Located;
    var items, keyOf := Located(numeral, findings), Places(numeral);
    var group := GroupOf(items, keyOf, Some(place));
    GroupMembers(items, keyOf, Some(place));
    DistinctSize(group);
    assert (set f | f in group) == Group(numeral, findings, place);
  }

  /** The findings of a place carry the ranks 1 to their count, each once. */
  lemma RanksFill(numeral: Numeral, findings: set<string>, place: Place)
    ensures forall i :: HasRank(numeral, findings, place, i) <==> 1 <= i <= |Group(numeral, findings, place)|
    ensures forall f, g | f in Group(numeral, findings, place) && g in Group(numeral, findings, place) ::
      Rank(numeral, findings, f) == Rank(numeral, findings, g) ==> f == g
  {
    hide PlaceOfFinding, Rank, Located, Number;
    LineOrderTotal(numeral);
    var le, keyOf, items := Before(numeral), Places(numeral), Located(numeral, findings);
    forall f | f in items ensures Number(items, keyOf, le, f) == Rank(numeral, findings, f) {
      NumberIsRank(numeral, findings, items, f);
    }
    NumbersFillGroup(items, keyOf, le, Some(place));
    GroupCount(numeral, findings, place);
    forall f ensures f in Group(numeral, findings, place) <==> f in items && keyOf(f) == Some(place) {}
    forall i ensures HasRank(numeral, findings, place, i) <==> Taken(items, keyOf, le, Some(place), i) {}
  }

  /** The findings of a place that rank after `m`. */
  ghost function Late(numeral: Numeral, findings: set<string>, place: Place, m: nat): set<string> {
    set f | f in Group(numeral, findings, place) && Rank(numeral, findings, f) > m
  }

  lemma LateSize(numeral: Numeral, findings: set<string>, place: Place, m: nat)
    ensures var n := |Group(numeral, findings, place)|;
      |Late(numeral, findings, place, m)| == if m < n then n - m else 0
  {
    hide PlaceOfFinding, Rank;
    RanksFill(numeral, findings, place);
    var late, n := Late(numeral, findings, place, m), |Group(numeral, findings, place)|;
    var rankOf: string -> nat := f => Rank(numeral, findings, f);
    ImageSize(late, rankOf);
    forall i: nat ensures i in Interval(m, n) <==> i in Image(late, rankOf) {
      if i in Interval(m, n) {
        assert HasRank(numeral, findings, place, i);
        var f :| f in Group(numeral, findings, place) && Rank(numeral, findings, f) == i;
        assert f in late && rankOf(f) == i;
      }
      if i in Image(late, rankOf) {
        var f :| f in late && rankOf(f) == i;
        assert HasRank(numeral, findings, place, i);
      }
    }
    assert Interval(m, n) == Image(late, rankOf);
  }

  // ----- what is excused -----

  ghost predicate AllLocated(numeral: Numeral, findings: set<string>) {
    forall f :: f in findings ==> PlaceOfFinding(numeral, f).Some?
  }

  /** An entry of the same place excuses the finding that has its rank. */
  lemma RankExcuses(numeral: Numeral, findings: set<string>, allowed: set<string>, place: Place, finding: string)
    requires finding in Group(numeral, findings, place)
    requires Rank(numeral, findings, finding) <= |Group(numeral, allowed, place)|
    ensures Excused(numeral, findings, allowed, finding)
  {
    hide PlaceOfFinding, Rank, KeyText;
    RanksFill(numeral, findings, place);
    RanksFill(numeral, allowed, place);
    var rank := Rank(numeral, findings, finding);
    assert HasRank(numeral, findings, place, rank);
    assert HasRank(numeral, allowed, place, rank);
    var e :| e in Group(numeral, allowed, place) && Rank(numeral, allowed, e) == rank;
    assert StableKey(numeral, allowed, e) == StableKey(numeral, findings, finding);
  }

  /** With an allowlist of located entries, nothing else excuses a finding but its own text. */
  lemma ExcusedExactly(numeral: Numeral, findings: set<string>, allowed: set<string>, place: Place, finding: string)
    requires finding in Group(numeral, findings, place) && AllLocated(numeral, allowed)
    ensures Excused(numeral, findings, allowed, finding) <==>
      finding in allowed || Rank(numeral, findings, finding) <= |Group(numeral, allowed, place)|
  {
    hide PlaceOfFinding, Rank, KeyText;
    if Rank(numeral, findings, finding) <= |Group(numeral, allowed, place)| {
      RankExcuses(numeral, findings, allowed, place, finding);
    }
    if Excused(numeral, findings, allowed, finding) && finding !in allowed {
      var e :| e in allowed && StableKey(numeral, allowed, e) == StableKey(numeral, findings, finding);
      PathHasNoColon(numeral, e);
      PathHasNoColon(numeral, finding);
      var other := PlaceOfFinding(numeral, e).value;
      KeyTextInjective(other, Rank(numeral, allowed, e), place, Rank(numeral, findings, finding));
      RanksFill(numeral, allowed, place);
      assert HasRank(numeral, allowed, place, Rank(numeral, allowed, e));
    }
  }

  ghost function Reported(numeral: Numeral, findings: set<string>, allowed: set<string>, place: Place): set<string> {
    Unapproved(numeral, findings, allowed) * Group(numeral, findings, place)
  }

  /** However the allowlist looks, a place never reports more findings than it has beyond its entries. */
  lemma AtMostTheSurplus(numeral: Numeral, findings: set<string>, allowed: set<string>, place: Place)
    ensures var n, m := |Group(numeral, findings, place)|, |Group(numeral, allowed, place)|;
      |Reported(numeral, findings, allowed, place)| <= if m < n then n - m else 0
  {
    hide PlaceOfFinding, Rank, Excused;
    var m := |Group(numeral, allowed, place)|;
    LateSize(numeral, findings, place, m);
    forall f | f in Reported(numeral, findings, allowed, place) ensures f in Late(numeral, findings, place, m) {
      if Rank(numeral, findings, f) <= m {
        RankExcuses(numeral, findings, allowed, place, f);
      }
    }
    SubsetSize(Reported(numeral, findings, allowed, place), Late(numeral, findings, place, m));
  }

  lemma ReportedIsLate(numeral: Numeral, findings: set<string>, allowed: set<string>, place: Place)
    requires AllLocated(numeral, allowed)
    ensures Reported(numeral, findings, allowed, place)
      == Late(numeral, findings, place, |Group(numeral, allowed, place)|) - allowed
  {
    hide PlaceOfFinding, Rank, Excused;
    forall f | f in Group(numeral, findings, place)
      ensures Excused(numeral, findings, allowed, f) <==>
        f in allowed || Rank(numeral, findings, f) <= |Group(numeral, allowed, place)|
    {
      ExcusedExactly(numeral, findings, allowed, place, f);
    }
  }

  /**
   The count theorem: of n findings against m entries, between n - 2m and max(0, n - m) are reported;
   the upper figure is met exactly when no finding that ranks after m is itself an entry.
   */
  lemma ReportedCount(numeral: Numeral, findings: set<string>, allowed: set<string>, place: Place)
    requires AllLocated(numeral, allowed)
    ensures var n, m := |Group(numeral, findings, place)|, |Group(numeral, allowed, place)|;
      var reported, surplus := |Reported(numeral, findings, allowed, place)|, if m < n then n - m else 0;
      && n - 2 * m <= reported <= surplus
      && (reported == surplus <==>
            forall f :: f in Group(numeral, findings, place) && f in allowed ==> Rank(numeral, findings, f) <= m)
  {
    hide PlaceOfFinding, Rank, Excused, Unapproved;
    var m := |Group(numeral, allowed, place)|;
    var late := Late(numeral, findings, place, m);
    LateSize(numeral, findings, place, m);
    ReportedIsLate(numeral, findings, allowed, place);
    SubsetSize(late * allowed, late);
    assert late - late * allowed == late - allowed;
    SubsetSize(late * allowed, Group(numeral, allowed, place));
    if |late * allowed| == 0 {
      forall f | f in Group(numeral, findings, place) && f in allowed ensures Rank(numeral, findings, f) <= m {
        assert f !in late * allowed;
      }
    } else {
      var f :| f in late * allowed;
    }
  }

  /** One entry can excuse two findings: the one it names and the one that has its rank. */
  lemma OneEntryExcusesTwo(numeral: Numeral, path: string, source: string, i: nat, j: nat)
    requires ':' !in path && i < j && numeral(NatText(i)) == Some(i) && numeral(NatText(j)) == Some(j)
    ensures var a, b := Finding(path, i, source), Finding(path, j, source);
      a != b && Unapproved(numeral, {a, b}, {b}) == {}
  {
    hide Parse, Finding;
    var a, b := Finding(path, i, source), Finding(path, j, source);
    FindingReadsBack(numeral, path, i, source);
    FindingReadsBack(numeral, path, j, source);
    var place := Place(path, Strip(Strip(source)));
    assert NotAfter(numeral, {a, b}, a) == {a} by {
      TextTotal(a, a);
    }
    assert b in Group(numeral, {b}, place);
    assert |Group(numeral, {b}, place)| >= 1;
    RankExcuses(numeral, {a, b}, {b}, place, a);
  }

  // ----- movement -----

  /** Nothing is reported when no place has more findings than entries and the rest are entries. */
  lemma NothingGrew(numeral: Numeral, findings: set<string>, allowed: set<string>)
    requires forall place :: |Group(numeral, findings, place)| <= |Group(numeral, allowed, place)|
    requires forall f :: f in findings && PlaceOfFinding(numeral, f).None? ==> f in allowed
    ensures Unapproved(numeral, findings, allowed) == {}
  {
    hide PlaceOfFinding, Excused;
    forall f | f in findings ensures Excused(numeral, findings, allowed, f) {
      if PlaceOfFinding(numeral, f).None? {
        OwnEntryExcuses(numeral, findings, allowed, f);
      } else {
        var place := PlaceOfFinding(numeral, f).value;
        AtMostTheSurplus(numeral, findings, allowed, place);
        assert f !in Reported(numeral, findings, allowed, place);
        assert f in Group(numeral, findings, place);
      }
    }
  }

  lemma OwnEntryExcuses(numeral: Numeral, findings: set<string>, allowed: set<string>, f: string)
    requires f in allowed
    ensures Excused(numeral, findings, allowed, f)
  {}

  /** A rewriting of findings that leaves each at its place; findings without a place stay as they are. */
  ghost predicate KeepsPlaces(numeral: Numeral, findings: set<string>, move: string -> string) {
    forall f :: f in findings ==>
      && PlaceOfFinding(numeral, move(f)) == PlaceOfFinding(numeral, f)
      && (PlaceOfFinding(numeral, f).None? ==> move(f) == f)
  }

  /** Moving allowlisted findings to other lines, in any order, and deleting any of them is never reported. */
  lemma MovementIsNotReported(numeral: Numeral, allowed: set<string>, move: string -> string, findings: set<string>)
    requires KeepsPlaces(numeral, allowed, move) && findings <= Image(allowed, move)
    ensures Unapproved(numeral, findings, allowed) == {}
  {
    hide PlaceOfFinding, Unapproved;
    forall place ensures |Group(numeral, findings, place)| <= |Group(numeral, allowed, place)| {
      var own := Group(numeral, allowed, place);
      ImageBound(own, move);
      SubsetSize(Group(numeral, findings, place), Image(own, move));
    }
    NothingGrew(numeral, findings, allowed);
  }

  /** Findings of one place keep their order. */
  ghost predicate KeepsOrder(numeral: Numeral, findings: set<string>, move: string -> string) {
    forall f, g | f in findings && g in findings && PlaceOfFinding(numeral, f) == PlaceOfFinding(numeral, g) ::
      LineOrder(numeral, move(f), move(g)) <==> LineOrder(numeral, f, g)
  }

  lemma SameOrderSame(numeral: Numeral, f: string, g: string)
    ensures LineOrder(numeral, f, f)
    ensures LineOrder(numeral, f, g) && LineOrder(numeral, g, f) ==> f == g
  {
    hide Parse;
    TextTotal(f, f);
    TextTotal(f, g);
  }

  /** An order-keeping movement keeps every stable key. */
  lemma MovementKeepsKeys(numeral: Numeral, findings: set<string>, move: string -> string, f: string)
    requires KeepsPlaces(numeral, findings, move) && KeepsOrder(numeral, findings, move) && f in findings
    requires PlaceOfFinding(numeral, f).Some?
    ensures StableKey(numeral, Image(findings, move), move(f)) == StableKey(numeral, findings, f)
  {
    hide PlaceOfFinding, LineOrder, KeyText;
    var before, after := NotAfter(numeral, findings, f), NotAfter(numeral, Image(findings, move), move(f));
    forall g, h | g in before && h in before && move(g) == move(h) ensures g == h {
      SameOrderSame(numeral, g, h);
      SameOrderSame(numeral, move(g), move(h));
    }
    ImageSize(before, move);
    assert after == Image(before, move);
  }

  // ----- the refreshed allowlist -----

  /** With located entries, one stable key leads to one entry. */
  lemma KeyLeadsToOneEntry(numeral: Numeral, allowed: set<string>, e: string, f: string)
    requires AllLocated(numeral, allowed) && e in allowed && f in allowed
    requires StableKey(numeral, allowed, e) == StableKey(numeral, allowed, f)
    ensures e == f
  {
    hide PlaceOfFinding, Rank, KeyText;
    PathHasNoColon(numeral, e);
    PathHasNoColon(numeral, f);
    var p, q := PlaceOfFinding(numeral, e).value, PlaceOfFinding(numeral, f).value;
    KeyTextInjective(p, Rank(numeral, allowed, e), q, Rank(numeral, allowed, f));
    RanksFill(numeral, allowed, p);
  }

  /**
   After allowlisted findings moved without changing order, a refreshed entry still carries what the
   old one said, unless the new text happens to be the old text of another entry.
   */
  lemma MovementKeepsMetadata<M>(
      numeral: Numeral, existing: map<string, M>, move: string -> string, default: M, e: string, kept: M)
    requires AllLocated(numeral, existing.Keys) && e in existing
    requires KeepsPlaces(numeral, existing.Keys, move) && KeepsOrder(numeral, existing.Keys, move)
    requires Carries(numeral, Image(existing.Keys, move), existing, default, move(e), kept)
    ensures kept == existing[e] <==> (move(e) in existing ==> existing[move(e)] == existing[e])
  {
    hide PlaceOfFinding, StableKey, KeepsPlaces, KeepsOrder;
    KeepsPlaceOf(numeral, existing.Keys, move, e);
    MovementKeepsKeys(numeral, existing.Keys, move, e);
    assert InheritsFrom(numeral, Image(existing.Keys, move), existing, move(e), e);
    if move(e) !in existing {
      var g :| InheritsFrom(numeral, Image(existing.Keys, move), existing, move(e), g) && kept == existing[g];
      KeyLeadsToOneEntry(numeral, existing.Keys, e, g);
    }
  }

  lemma KeepsPlaceOf(numeral: Numeral, findings: set<string>, move: string -> string, f: string)
    requires AllLocated(numeral, findings) && f in findings
    ensures PlaceOfFinding(numeral, f).Some?
  {}

  /** The second line of a place, and where each of its first three lines stands. */
  ghost predicate ThreeLines(numeral: Numeral, path: string) {
    ':' !in path && numeral(NatText(1)) == Some(1) && numeral(NatText(2)) == Some(2) && numeral(NatText(3)) == Some(3)
  }

  /**
   Two findings move down one line: the first now reads as the second did, and is given what the
   second entry said.
   */
  lemma MetadataGoesAstray<M>(
      numeral: Numeral, path: string, source: string, first: M, second: M, default: M, metadata: M)
    requires ThreeLines(numeral, path) && first != second
    requires var a, b, c := Finding(path, 1, source), Finding(path, 2, source), Finding(path, 3, source);
      Carries(numeral, {b, c}, map[a := first, b := second], default, b, metadata)
    ensures var a, b, c := Finding(path, 1, source), Finding(path, 2, source), Finding(path, 3, source);
      && StableKey(numeral, {b, c}, b) == StableKey(numeral, {a, b}, a)
      && metadata == second
  {
    hide Parse, Finding, Carries;
    var a, b, c := Finding(path, 1, source), Finding(path, 2, source), Finding(path, 3, source);
    FindingReadsBack(numeral, path, 1, source);
    FindingReadsBack(numeral, path, 2, source);
    FindingReadsBack(numeral, path, 3, source);
    TextTotal(a, a);
    TextTotal(b, b);
    assert NotAfter(numeral, {a, b}, a) == {a};
    assert NotAfter(numeral, {b, c}, b) == {b};
    OwnMetadata(numeral, {b, c}, map[a := first, b := second], default, b, metadata);
  }

  lemma OwnMetadata<M>(
      numeral: Numeral, findings: set<string>, existing: map<string, M>, default: M, finding: string, metadata: M)
    requires Carries(numeral, findings, existing, default, finding, metadata) && finding in existing
    ensures metadata == existing[finding]
  {}
}
