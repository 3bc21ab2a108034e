/**
 What the gate audit promises: the outcome is a property of the set of attempts, attempts without a
 verdict never change it, and a failing verdict cannot be erased.
 */
module GateAuditLaws {
  import opened Wrappers
  import opened Text
  import opened Sorting
  import opened GateAudit
  import opened Json

  // ----- the order of attempts -----

  lemma NotLaterTotal()
    ensures TotalOrder(NotLater)
  {
    TextOrder();
    hide RJust, TextLe;
    forall a, b ensures NotLater(a, b) || NotLater(b, a) {
      assert forall s, t :: TextLe(s, t) || TextLe(t, s);
    }
    forall a, b, c | NotLater(a, b) && NotLater(b, c) ensures NotLater(a, c) {
      ThreeInOrder(a.startedAt, b.startedAt, c.startedAt);
      ThreeInOrder(RJust(a.databaseId, 24), RJust(b.databaseId, 24), RJust(c.databaseId, 24));
      ThreeInOrder(RJust(a.attempt, 6), RJust(b.attempt, 6), RJust(c.attempt, 6));
    }
  }

  lemma ThreeInOrder(a: string, b: string, c: string)
    ensures TextLe(a, b) && TextLe(b, c) ==> TextLe(a, c) && (a == c ==> a == b)
  {
    if TextLe(a, b) && TextLe(b, c) {
      TextTransitive(a, b, c);
      TextTotal(a, b);
    }
  }

  /** Attempts neither of which comes after the other start together and pad to the same numbers. */
  lemma SamePlace(a: Attempt, b: Attempt)
    requires NotLater(a, b) && NotLater(b, a)
    ensures a.startedAt == b.startedAt && RJust(a.databaseId, 24) == RJust(b.databaseId, 24)
    ensures RJust(a.attempt, 6) == RJust(b.attempt, 6)
  {
    hide RJust;
    TextTotal(a.startedAt, b.startedAt);
    TextTotal(RJust(a.databaseId, 24), RJust(b.databaseId, 24));
    TextTotal(RJust(a.attempt, 6), RJust(b.attempt, 6));
  }

  // ----- padded numbers -----

  /** Padding tells numbers apart, whatever their width. */
  lemma PaddingInjective(m: nat, n: nat, width: nat)
    requires RJust(NatText(m), width) == RJust(NatText(n), width)
    ensures m == n
  {
    RJustDigits(NatText(m), width);
    RJustDigits(NatText(n), width);
    NatTextValue(m);
    NatTextValue(n);
  }

  lemma NextPlace(d: nat, p: nat, r: nat, last: nat)
    requires r < p && last < 10
    ensures (d * p + r) * 10 + last == d * (10 * p) + (r * 10 + last) && r * 10 + last < 10 * p
  {}

  lemma {:induction false} HeadValue(s: string)
    requires AllDigits(s) && s != ""
    ensures NatValue(s) == DigitValue(s[0]) * Pow10(|s| - 1) + NatValue(s[1..])
    ensures NatValue(s[1..]) < Pow10(|s| - 1)
  {
    if |s| == 1 {
      assert s[..0] == "" && s[1..] == "";
    } else {
      var init, last := s[..|s| - 1], DigitValue(s[|s| - 1]);
      assert s[1..][..|s| - 2] == init[1..];
      assert NatValue(s) == NatValue(init) * 10 + last;
      assert NatValue(s[1..]) == NatValue(init[1..]) * 10 + last;
      assert Pow10(|s| - 1) == 10 * Pow10(|s| - 2);
      HeadValue(init);
      hide NatValue, Pow10, DigitValue;
      NextPlace(DigitValue(s[0]), Pow10(|s| - 2), NatValue(init[1..]), last);
    }
  }

  lemma LeadingPlaceDecides(x: nat, y: nat, p: nat, r: nat, s: nat)
    requires r < p && s < p && x < y
    ensures x * p + r < y * p + s
  {
    assert (x + 1) * p <= y * p;
  }

  /** Digit texts of one length compare as their numbers do. */
  lemma {:induction false} DigitOrder(a: string, b: string)
    requires AllDigits(a) && AllDigits(b) && |a| == |b|
    ensures TextLe(a, b) <==> NatValue(a) <= NatValue(b)
  {
    if a != "" {
      HeadValue(a);
      HeadValue(b);
      DigitOrder(a[1..], b[1..]);
      var x, y := DigitValue(a[0]), DigitValue(b[0]);
      assert a[0] == Digit(x) && b[0] == Digit(y);
      hide NatValue, Pow10, Digit;
      if x < y {
        LeadingPlaceDecides(x, y, Pow10(|a| - 1), NatValue(a[1..]), NatValue(b[1..]));
      } else if y < x {
        LeadingPlaceDecides(y, x, Pow10(|a| - 1), NatValue(b[1..]), NatValue(a[1..]));
      }
    }
  }

  /** Within the padding width, padded numbers sort as numbers: 9 before 10. */
  lemma PaddedOrder(m: nat, n: nat, width: nat)
    requires |NatText(m)| <= width && |NatText(n)| <= width
    ensures TextLe(RJust(NatText(m), width), RJust(NatText(n), width)) <==> m <= n
  {
    hide NatText;
    RJustDigits(NatText(m), width);
    RJustDigits(NatText(n), width);
    NatTextValue(m);
    NatTextValue(n);
    DigitOrder(RJust(NatText(m), width), RJust(NatText(n), width));
  }

  // ----- the outcome -----

  /** The order in which attempts are listed does not matter. */
  lemma OutcomeForgetsOrder(xs: seq<Attempt>, ys: seq<Attempt>)
    requires multiset(xs) == multiset(ys) && Distinguishes(NotLater, xs)
    ensures Classify(Some(xs)) == Classify(Some(ys))
  {
    hide NotLater, IsUndated, IsVerdict, IsFailure;
    NotLaterTotal();
    SortForgetsOrder(xs, ys, NotLater);
    FilterForgetsOrder(xs, ys, IsUndated);
  }

  lemma {:induction false} FilterTwice<T>(xs: seq<T>, inner: T -> bool, outer: T -> bool)
    requires forall x :: outer(x) ==> inner(x)
    ensures Filter(Filter(xs, inner), outer) == Filter(xs, outer)
  {
    if xs != [] {
      var init, last := xs[..|xs| - 1], xs[|xs| - 1];
      FilterTwice(init, inner, outer);
      FilterAppend(Filter(init, inner), last, outer);
    }
  }

  /** The attempts with a verdict decide alone, when there are any. */
  lemma OnlyVerdictsMatter(xs: seq<Attempt>)
    requires Filter(xs, IsVerdict) != []
    ensures Classify(Some(xs)) == Classify(Some(Filter(xs, IsVerdict)))
  {
    hide NotLater, SortedSet;
    NotLaterTotal();
    var verdicts := Filter(xs, IsVerdict);
    FilterTwice(xs, IsVerdict, IsUndated);
    FilterTwice(xs, IsVerdict, IsVerdict);
    FilterSorted(xs, NotLater, IsVerdict);
    FilterSorted(verdicts, NotLater, IsVerdict);
    SortBySorts(verdicts, NotLater);
    assert SortBy(verdicts, NotLater) != [];
  }

  /** However attempts without a verdict are added, dropped or moved, an outcome with a verdict stays. */
  lemma NoiseChangesNothing(xs: seq<Attempt>, ys: seq<Attempt>)
    requires Filter(xs, IsVerdict) == Filter(ys, IsVerdict) != []
    ensures Classify(Some(xs)) == Classify(Some(ys))
  {
    hide Classify;
    OnlyVerdictsMatter(xs);
    OnlyVerdictsMatter(ys);
  }

  /** `v` is a verdict no other verdict comes after. */
  ghost predicate Newest(attempts: seq<Attempt>, v: Attempt) {
    v in attempts && IsVerdict(v) && forall a :: a in attempts && IsVerdict(a) ==> NotLater(a, v)
  }

  lemma SortedVerdicts(attempts: seq<Attempt>)
    ensures var verdicts := Filter(OldestFirst(attempts), IsVerdict);
      && (forall a :: a in verdicts <==> a in attempts && IsVerdict(a))
      && Sorted(verdicts, NotLater)
      && multiset(Filter(verdicts, IsFailure)) == multiset(Filter(attempts, IsFailure))
  {
    hide NotLater;
    NotLaterTotal();
    var ordered := OldestFirst(attempts);
    SortBySorts(attempts, NotLater);
    SameMembers(attempts, ordered);
    FilterMembers(ordered, IsVerdict);
    FilterSorted(attempts, NotLater, IsVerdict);
    SortBySorts(Filter(attempts, IsVerdict), NotLater);
    FilterTwice(ordered, IsVerdict, IsFailure);
    FilterForgetsOrder(ordered, attempts, IsFailure);
  }

  /**
   With every verdict dated, the newest verdict gives the current outcome, and the number of failing
   verdicts tells a recovered commit from one that always passed. No sorting is involved.
   */
  lemma NewestDecides(attempts: seq<Attempt>, v: Attempt)
    requires Newest(attempts, v) && Distinguishes(NotLater, attempts)
    requires forall a :: a in attempts ==> !IsUndated(a)
    ensures var failures := Filter(attempts, IsFailure);
      Classify(Some(attempts)) ==
        if IsFailure(v) then Failing(v.conclusion)
        else if failures == [] then Passing
        else Recovered(|failures|, SortedSet(set a | a in failures :: a.conclusion))
  {
    hide NotLater, SortedSet, OldestFirst;
    NotLaterTotal();
    SortedVerdicts(attempts);
    FilterMembers(attempts, IsUndated);
    var verdicts := Filter(OldestFirst(attempts), IsVerdict);
    var failures := Filter(attempts, IsFailure);
    assert v in verdicts;
    LastIsGreatest(verdicts, v, NotLater);
    var last := verdicts[|verdicts| - 1];
    assert last in verdicts;
    assert last == v;
    SameMembers(Filter(verdicts, IsFailure), failures);
    assert (set a | a in Filter(verdicts, IsFailure) :: a.conclusion) == (set a | a in failures :: a.conclusion);
  }

  /** Whatever attempts surround it, a failing verdict is never read as passing or ungated. */
  lemma FailureIsNeverErased(attempts: seq<Attempt>, a: Attempt)
    requires a in attempts && IsFailure(a)
    ensures var outcome := Classify(Some(attempts)); !outcome.Passing? && !outcome.Ungated?
  {
    hide NotLater, SortedSet, OldestFirst;
    SortedVerdicts(attempts);
    FilterMembers(attempts, IsFailure);
    var verdicts := Filter(OldestFirst(attempts), IsVerdict);
    assert a in verdicts;
    SameMembers(Filter(verdicts, IsFailure), Filter(attempts, IsFailure));
  }

  /** A commit passes exactly when it has verdicts, all of them dated and successful. */
  lemma PassingExactly(attempts: seq<Attempt>)
    ensures Classify(Some(attempts)).Passing? <==>
      && (exists a :: a in attempts && IsVerdict(a))
      && forall a :: a in attempts && IsVerdict(a) ==> a.conclusion == SUCCESS && a.startedAt != ""
  {
    hide NotLater, SortedSet, OldestFirst;
    SortedVerdicts(attempts);
    hide Filter;
    FilterEmpty(attempts, IsUndated);
    var verdicts := Filter(OldestFirst(attempts), IsVerdict);
    FilterEmpty(verdicts, IsFailure);
    if verdicts != [] {
      assert verdicts[|verdicts| - 1] in verdicts;
    }
  }

  /** A commit is ungated exactly when it has no attempts at all. */
  lemma UngatedExactly(attempts: seq<Attempt>)
    ensures Classify(Some(attempts)).Ungated? <==> attempts == []
  {
    hide NotLater, SortedSet;
    NotLaterTotal();
    SortBySorts(attempts, NotLater);
  }

  // ----- from the run listing to the outcome -----

  ghost predicate Readable(sha: string, runs: seq<Option<Run>>, archive: Archive) {
    forall i :: 0 <= i < |runs| ==> !Hole(sha, runs[i], archive)
  }

  predicate Concerns(sha: string, run: Option<Run>) {
    run.Some? && EvaluatedSource(run.value) == Some(sha)
  }

  ghost function Contribution(sha: string, run: Option<Run>, archive: Archive): seq<Attempt>
    requires !Hole(sha, run, archive)
  {
    if Concerns(sha, run) then AttemptsOf(run.value, archive) else []
  }

  lemma AttemptsMembers(run: Run, archive: Archive, a: Attempt)
    requires run.newest.Some?
    requires forall k :: 1 <= k < run.newest.value ==> EarlierAttempt(archive, run.databaseId, k).Some?
    ensures a in AttemptsOf(run, archive) <==> AttemptOf(run, archive, a)
  {
    hide EarlierAttempt, Record;
    var attempts := AttemptsOf(run, archive);
    if AttemptOf(run, archive, a) && a != Record(run, run.newest.value) {
      var k :| 1 <= k < run.newest.value && EarlierAttempt(archive, run.databaseId, k) == Some(a);
      assert attempts[k] == a;
    }
    if a in attempts {
      var i :| 0 <= i < |attempts| && attempts[i] == a;
      assert i > 0 ==> EarlierAttempt(archive, run.databaseId, i) == Some(a);
    }
  }

  /** The history holds exactly the attempts, newest and superseded, of the runs that evaluated the source. */
  lemma {:induction false} HistoryExactly(sha: string, runs: seq<Option<Run>>, archive: Archive, a: Attempt)
    requires Readable(sha, runs, archive)
    ensures a in History(sha, runs, archive) <==>
      exists i :: 0 <= i < |runs| && Concerns(sha, runs[i]) && AttemptOf(runs[i].value, archive, a)
  {
    hide AttemptOf, EvaluatedSource, AttemptsOf, NamesMainline, EarlierAttempt;
    if runs != [] {
      var init, last := runs[..|runs| - 1], runs[|runs| - 1];
      HistoryExactly(sha, init, archive, a);
      assert !Hole(sha, last, archive);
      if Concerns(sha, last) {
        AttemptsMembers(last.value, archive, a);
      }
      if i :| 0 <= i < |init| && Concerns(sha, init[i]) && AttemptOf(init[i].value, archive, a) {
        assert runs[i] == init[i];
      }
      if i :| 0 <= i < |runs| && Concerns(sha, runs[i]) && AttemptOf(runs[i].value, archive, a) {
        assert i < |init| ==> init[i] == runs[i];
      }
    }
  }

  /** A failing attempt of the source, superseded or not, is never read as passing or ungated. */
  lemma FailedAttemptStays(sha: string, runs: seq<Option<Run>>, archive: Archive, run: Run, a: Attempt)
    requires Readable(sha, runs, archive) && Some(run) in runs && EvaluatedSource(run) == Some(sha)
    requires AttemptOf(run, archive, a) && IsFailure(a)
    ensures var outcome := Classify(Some(History(sha, runs, archive))); !outcome.Passing? && !outcome.Ungated?
  {
    hide Classify, Hole, AttemptOf, EvaluatedSource, History;
    HistoryExactly(sha, runs, archive, a);
    FailureIsNeverErased(History(sha, runs, archive), a);
  }

  lemma {:induction false} HistoryConcat(sha: string, xs: seq<Option<Run>>, ys: seq<Option<Run>>, archive: Archive)
    requires Readable(sha, xs, archive) && Readable(sha, ys, archive)
    ensures Readable(sha, xs + ys, archive)
    ensures History(sha, xs + ys, archive) == History(sha, xs, archive) + History(sha, ys, archive)
  {
    hide Hole, EvaluatedSource, AttemptsOf;
    if ys == [] {
      assert xs + ys == xs;
    } else {
      var init := ys[..|ys| - 1];
      assert (xs + ys)[..|xs + ys| - 1] == xs + init;
      assert Readable(sha, init, archive);
      HistoryConcat(sha, xs, init, archive);
      assert (xs + ys)[|xs + ys| - 1] == ys[|ys| - 1];
    }
  }

  /** A mainline run whose title names no source, or that ran off main, leaves every history as it was. */
  lemma UnprovenTitleIsSkipped(
      sha: string, xs: seq<Option<Run>>, run: Run, ys: seq<Option<Run>>, archive: Archive)
    requires NamesMainline(run) && EvaluatedSource(run).None?
    ensures Readable(sha, xs + ([Some(run)] + ys), archive) <==> Readable(sha, xs + ys, archive)
    ensures Readable(sha, xs + ys, archive) ==>
      History(sha, xs + ([Some(run)] + ys), archive) == History(sha, xs + ys, archive)
  {
    hide EvaluatedSource, NamesMainline, AttemptsOf, History;
    assert !Hole(sha, Some(run), archive);
    hide Hole;
    SplitReadable(sha, xs, ys, archive);
    SplitReadable(sha, xs, [Some(run)] + ys, archive);
    SplitReadable(sha, [Some(run)], ys, archive);
    if Readable(sha, xs + ys, archive) {
      HistoryConcat(sha, xs, ys, archive);
      HistoryConcat(sha, [Some(run)], ys, archive);
      HistoryConcat(sha, xs, [Some(run)] + ys, archive);
      SingleHistory(sha, Some(run), archive);
    }
  }

  lemma SingleHistory(sha: string, run: Option<Run>, archive: Archive)
    requires !Hole(sha, run, archive)
    ensures History(sha, [run], archive) == Contribution(sha, run, archive)
  {
    hide AttemptsOf, EvaluatedSource, NamesMainline, EarlierAttempt;
    var runs, none: seq<Option<Run>> := [run], [];
    assert runs[..|runs| - 1] == none && runs[|runs| - 1] == run;
    assert History(sha, none, archive) == [];
    if Concerns(sha, run) {
      assert History(sha, runs, archive) == [] + AttemptsOf(run.value, archive);
    }
  }

  lemma SplitReadable(sha: string, xs: seq<Option<Run>>, ys: seq<Option<Run>>, archive: Archive)
    ensures Readable(sha, xs + ys, archive) <==> Readable(sha, xs, archive) && Readable(sha, ys, archive)
  {
    hide Hole;
    if Readable(sha, xs + ys, archive) {
      forall i | 0 <= i < |xs| ensures !Hole(sha, xs[i], archive) {
        assert (xs + ys)[i] == xs[i];
      }
      forall i | 0 <= i < |ys| ensures !Hole(sha, ys[i], archive) {
        assert (xs + ys)[|xs| + i] == ys[i];
      }
    }
  }

  /** A listing in another order gives the same attempts. */
  lemma {:induction false} HistoryForgetsOrder(
      sha: string, xs: seq<Option<Run>>, ys: seq<Option<Run>>, archive: Archive)
    requires multiset(xs) == multiset(ys) && Readable(sha, xs, archive)
    ensures Readable(sha, ys, archive)
    ensures multiset(History(sha, xs, archive)) == multiset(History(sha, ys, archive))
  {
    hide Hole, AttemptsOf, EvaluatedSource;
    if xs == [] {
      SameMembers(xs, ys);
      assert xs == ys;
    } else {
      var init, last := xs[..|xs| - 1], xs[|xs| - 1];
      var before, after := Extract(xs, ys);
      HistoryForgetsOrder(sha, init, before + after, archive);
      SplitReadable(sha, before, after, archive);
      SplitReadable(sha, [last], after, archive);
      SplitReadable(sha, before, [last] + after, archive);
      assert Readable(sha, [last], archive);
      HistoryConcat(sha, before, after, archive);
      HistoryConcat(sha, [last], after, archive);
      HistoryConcat(sha, before, [last] + after, archive);
      SingleHistory(sha, last, archive);
      assert History(sha, xs, archive) == History(sha, init, archive) + Contribution(sha, last, archive);
    }
  }

  // ----- when attempts can be told apart -----

  /** Run identifiers are numbers, no two runs share one, and attempts count from 1. */
  ghost predicate Identified(sha: string, runs: seq<Option<Run>>) {
    && (forall i :: 0 <= i < |runs| && Concerns(sha, runs[i]) ==>
          && (exists n :: runs[i].value.databaseId == NatText(n))
          && runs[i].value.newest.Some? && runs[i].value.newest.value >= 1)
    && forall i, j :: 0 <= i < j < |runs| && Concerns(sha, runs[i]) && Concerns(sha, runs[j]) ==>
         runs[i].value.databaseId != runs[j].value.databaseId
  }

  /** An attempt of a run carries the run's identifier and its own number, and is found by that number. */
  lemma AttemptNumber(run: Run, archive: Archive, a: Attempt) returns (k: nat)
    requires AttemptOf(run, archive, a) && run.newest.value >= 1
    ensures a.databaseId == run.databaseId && a.attempt == NatText(k) && 1 <= k <= run.newest.value
    ensures if k == run.newest.value then a == Record(run, k) else EarlierAttempt(archive, run.databaseId, k) == Some(a)
  {
    if a == Record(run, run.newest.value) {
      k := run.newest.value;
    } else {
      k :| 1 <= k < run.newest.value && EarlierAttempt(archive, run.databaseId, k) == Some(a);
    }
  }

  lemma FindAttempt(sha: string, runs: seq<Option<Run>>, archive: Archive, a: Attempt) returns (i: nat, n: nat, k: nat)
    requires Readable(sha, runs, archive) && Identified(sha, runs) && a in History(sha, runs, archive)
    ensures i < |runs| && Concerns(sha, runs[i]) && runs[i].value.newest.Some?
    ensures a.databaseId == runs[i].value.databaseId == NatText(n) && a.attempt == NatText(k)
    ensures var run := runs[i].value;
      if k == run.newest.value then a == Record(run, k) else EarlierAttempt(archive, run.databaseId, k) == Some(a)
  {
    hide AttemptOf, EvaluatedSource, Hole, History, Record, EarlierAttempt;
    HistoryExactly(sha, runs, archive, a);
    i :| 0 <= i < |runs| && Concerns(sha, runs[i]) && AttemptOf(runs[i].value, archive, a);
    n :| runs[i].value.databaseId == NatText(n);
    k := AttemptNumber(runs[i].value, archive, a);
  }

  lemma AttemptsToldApart(sha: string, runs: seq<Option<Run>>, archive: Archive)
    requires Readable(sha, runs, archive) && Identified(sha, runs)
    ensures Distinguishes(NotLater, History(sha, runs, archive))
  {
    hide NotLater, EvaluatedSource, Hole, History, RJust, NatText;
    var history := History(sha, runs, archive);
    forall a, b | a in history && b in history && NotLater(a, b) && NotLater(b, a) ensures a == b {
      SamePlace(a, b);
      var i, m, k := FindAttempt(sha, runs, archive, a);
      var j, n, l := FindAttempt(sha, runs, archive, b);
      PaddingInjective(m, n, 24);
      PaddingInjective(k, l, 6);
      assert i == j;
    }
  }

  /** The order in which the API lists runs never changes what a commit's history says. */
  lemma ListingOrderDoesNotMatter(sha: string, xs: seq<Option<Run>>, ys: seq<Option<Run>>, archive: Archive)
    requires multiset(xs) == multiset(ys) && Readable(sha, xs, archive) && Identified(sha, xs)
    ensures Readable(sha, ys, archive)
    ensures Classify(Some(History(sha, xs, archive))) == Classify(Some(History(sha, ys, archive)))
  {
    hide Classify, History, Hole, Concerns, NotLater;
    HistoryForgetsOrder(sha, xs, ys, archive);
    AttemptsToldApart(sha, xs, archive);
    OutcomeForgetsOrder(History(sha, xs, archive), History(sha, ys, archive));
  }
}
