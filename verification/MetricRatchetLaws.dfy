/** What the metric ratchet promises, and exactly when entries that share a name break the promise. */
module MetricRatchetLaws {
  import opened Wrappers
  import opened MetricRatchet

  /** A threshold at least as strict as another, in the metric's own direction. */
  predicate AtLeastAsTight(c: Comparison, new': real, old': real) {
    match c
    case NotBelow => new' >= old'
    case _ => new' <= old'
  }

  /** Explicitly allowed, by name, at this value, with a reason. */
  predicate Allowed(name: string, value: real, allowed: map<string, real>, reason: string) {
    name in allowed && allowed[name] == value && reason != ""
  }

  /** The measurement is on the wrong side of the threshold. */
  ghost predicate Misses(m: Metric, current: real) {
    match m.comparison
    case NotBelow => current < m.threshold
    case _ => current > m.threshold
  }

  ghost predicate IsLast(metrics: seq<Metric>, j: nat, name: string) {
    j < |metrics| && metrics[j].name == name && forall k :: j < k < |metrics| ==> metrics[k].name != name
  }

  lemma LastExactly(metrics: seq<Metric>, name: string, j: nat)
    ensures LastNamed(metrics, name) == Some(j) <==> IsLast(metrics, j, name)
  {}

  /** Each name allowed to be worse is that of a metric, and the last of that name misses its threshold. */
  ghost predicate AllowancesAreNeeded(metrics: seq<Metric>, currents: seq<real>, allowed: map<string, real>)
    requires Measured(metrics, currents)
  {
    forall name :: name in allowed ==> exists j: nat :: IsLast(metrics, j, name) && Misses(metrics[j], currents[j])
  }

  /**
   An update is accepted exactly when every comparison is known, every metric that misses its threshold
   is allowed that very value, no allowance is idle, and there is a reason if any metric misses.
   */
  lemma AcceptedExactly(metrics: seq<Metric>, currents: seq<real>, allowed: map<string, real>, reason: string)
    requires Measured(metrics, currents)
    ensures Accepted(metrics, currents, allowed, reason) <==>
      && (forall i :: 0 <= i < |metrics| ==> metrics[i].comparison == NotBelow || metrics[i].comparison == NotAbove)
      && (forall i :: 0 <= i < |metrics| && Misses(metrics[i], currents[i]) ==>
            metrics[i].name in allowed && allowed[metrics[i].name] == currents[i] && reason != "")
      && AllowancesAreNeeded(metrics, currents, allowed)
  {
    forall i | 0 <= i < |metrics| ensures Fails(metrics, currents, i) <==> Misses(metrics[i], currents[i]) {}
    forall i | 0 <= i < |metrics| ensures
      Supported(metrics[i]) <==> metrics[i].comparison == NotBelow || metrics[i].comparison == NotAbove {}
    forall name, j: nat ensures LastNamed(metrics, name) == Some(j) <==> IsLast(metrics, j, name) {
      LastExactly(metrics, name, j);
    }
    hide Misses, Fails, IsLast, LastNamed, Supported;
    assert (!Unknown(metrics, allowed) && forall name :: name in allowed ==> !Needless(metrics, currents, name))
      <==> AllowancesAreNeeded(metrics, currents, allowed) by {
      AllowancesExactly(metrics, currents, allowed);
    }
    if Accepted(metrics, currents, allowed, reason) {
      forall i | 0 <= i < |metrics| && Misses(metrics[i], currents[i])
        ensures metrics[i].name in allowed && allowed[metrics[i].name] == currents[i] && reason != ""
      {
        assert !Refused(metrics, currents, allowed, i);
      }
    }
  }

  lemma AllowancesExactly(metrics: seq<Metric>, currents: seq<real>, allowed: map<string, real>)
    requires Measured(metrics, currents)
    ensures (!Unknown(metrics, allowed) && forall name :: name in allowed ==> !Needless(metrics, currents, name))
      <==> AllowancesAreNeeded(metrics, currents, allowed)
  {
    forall name | name in allowed ensures
      LastNamed(metrics, name).Some? && !Needless(metrics, currents, name)
      <==> exists j: nat :: IsLast(metrics, j, name) && Misses(metrics[j], currents[j])
    {
      if LastNamed(metrics, name).Some? {
        var j := LastNamed(metrics, name).value;
        LastExactly(metrics, name, j);
        assert Fails(metrics, currents, j) <==> Misses(metrics[j], currents[j]);
      }
      if j: nat :| IsLast(metrics, j, name) {
        LastExactly(metrics, name, j);
      }
    }
  }

  /** Every threshold of `after` is as tight as in `before` or explicitly allowed. */
  ghost predicate NoneLoosened(before: seq<Metric>, after: seq<Metric>, allowed: map<string, real>, reason: string)
    requires |before| == |after|
  {
    forall i :: 0 <= i < |before| ==>
      || AtLeastAsTight(before[i].comparison, after[i].threshold, before[i].threshold)
      || Allowed(before[i].name, after[i].threshold, allowed, reason)
  }

  /** No accepted update, whatever is measured and allowed, loosens a threshold. */
  ghost predicate NeverLoosens(metrics: seq<Metric>) {
    forall currents, allowed, reason | Measured(metrics, currents) && Accepted(metrics, currents, allowed, reason) ::
      NoneLoosened(metrics, Updated(metrics, currents), allowed, reason)
  }

  /** Each entry agrees with the last of its name on the direction, and the last is as tight. */
  ghost predicate Covered(metrics: seq<Metric>) {
    forall i :: 0 <= i < |metrics| ==>
      var last := metrics[Namesake(metrics, i)];
      last.comparison == metrics[i].comparison && AtLeastAsTight(last.comparison, last.threshold, metrics[i].threshold)
  }

  ghost predicate DistinctNames(metrics: seq<Metric>) {
    forall i, j :: 0 <= i < j < |metrics| ==> metrics[i].name != metrics[j].name
  }

  lemma DistinctNamesAreCovered(metrics: seq<Metric>)
    requires DistinctNames(metrics)
    ensures Covered(metrics) && forall i :: 0 <= i < |metrics| ==> Namesake(metrics, i) == i
  {}

  lemma CoveredNeverLoosens(metrics: seq<Metric>)
    requires AllSupported(metrics) && Covered(metrics)
    ensures NeverLoosens(metrics)
  {
    forall currents, allowed, reason | Measured(metrics, currents) && Accepted(metrics, currents, allowed, reason)
      ensures NoneLoosened(metrics, Updated(metrics, currents), allowed, reason)
    {
      forall i | 0 <= i < |metrics|
        ensures var value := currents[Namesake(metrics, i)];
          || AtLeastAsTight(metrics[i].comparison, value, metrics[i].threshold)
          || Allowed(metrics[i].name, value, allowed, reason)
      {
        var j := Namesake(metrics, i);
        assert !Refused(metrics, currents, allowed, j);
        assert Supported(metrics[j]);
      }
    }
  }

  /** Everything measured exactly at its threshold, except entry `j`. */
  function AtThresholds(metrics: seq<Metric>, j: nat, value: real): (currents: seq<real>)
    ensures Measured(metrics, currents)
  {
    seq(|metrics|, k requires 0 <= k < |metrics| => if k == j then value else metrics[k].threshold)
  }

  lemma AtThresholdsAccepted(metrics: seq<Metric>, j: nat, value: real)
    requires AllSupported(metrics) && j < |metrics| && Passes(metrics[j], value)
    ensures Accepted(metrics, AtThresholds(metrics, j, value), map[], "")
  {
    var currents := AtThresholds(metrics, j, value);
    forall k | 0 <= k < |metrics| ensures !Fails(metrics, currents, k) {
      assert Supported(metrics[k]);
    }
  }

  /** A value the later entry accepts and the earlier one, of the same name, should not. */
  function Escaping(earlier: Metric, later: Metric): real {
    if later.comparison == earlier.comparison then later.threshold
    else if later.comparison.NotBelow? then
      if later.threshold > earlier.threshold then later.threshold else earlier.threshold + 1.0
    else
      if later.threshold < earlier.threshold then later.threshold else earlier.threshold - 1.0
  }

  /** The ratchet never loosens exactly when every entry is covered by the last entry of its name. */
  lemma NeverLoosensExactly(metrics: seq<Metric>)
    requires AllSupported(metrics)
    ensures NeverLoosens(metrics) <==> Covered(metrics)
  {
    if Covered(metrics) {
      CoveredNeverLoosens(metrics);
    } else {
      var i :| 0 <= i < |metrics| &&
        var last := metrics[Namesake(metrics, i)];
        !(last.comparison == metrics[i].comparison
          && AtLeastAsTight(last.comparison, last.threshold, metrics[i].threshold));
      var j := Namesake(metrics, i);
      var value := Escaping(metrics[i], metrics[j]);
      assert Supported(metrics[i]) && Supported(metrics[j]);
      AtThresholdsAccepted(metrics, j, value);
      var currents := AtThresholds(metrics, j, value);
      assert Updated(metrics, currents)[i].threshold == value;
      assert !NoneLoosened(metrics, Updated(metrics, currents), map[], "");
    }
  }

  // ----- checking again -----

  ghost predicate AllPass(metrics: seq<Metric>, currents: seq<real>)
    requires Measured(metrics, currents)
  {
    forall i :: 0 <= i < |metrics| ==> !Fails(metrics, currents, i)
  }

  /** After any accepted update the same measurements pass. */
  ghost predicate RecheckPasses(metrics: seq<Metric>) {
    forall currents, allowed, reason | Measured(metrics, currents) && Accepted(metrics, currents, allowed, reason) ::
      AllPass(Updated(metrics, currents), currents)
  }

  lemma ShiftedAccepted(metrics: seq<Metric>, j: nat, value: real) returns (allowed: map<string, real>, reason: string)
    requires AllSupported(metrics) && j < |metrics| && Namesake(metrics, j) == j
    ensures Accepted(metrics, AtThresholds(metrics, j, value), allowed, reason)
  {
    var currents := AtThresholds(metrics, j, value);
    if Passes(metrics[j], value) {
      AtThresholdsAccepted(metrics, j, value);
      allowed, reason := map[], "";
    } else {
      allowed, reason := map[metrics[j].name := value], "accepted in review";
      forall k | 0 <= k < |metrics| ensures !Refused(metrics, currents, allowed, k) {
        assert Supported(metrics[k]);
      }
    }
  }

  /** Checking again always passes exactly when no two entries share a name. */
  lemma RecheckPassesExactly(metrics: seq<Metric>)
    requires AllSupported(metrics)
    ensures RecheckPasses(metrics) <==> DistinctNames(metrics)
  {
    if DistinctNames(metrics) {
      DistinctNamesAreCovered(metrics);
    } else {
      var i, k :| 0 <= i < k < |metrics| && metrics[i].name == metrics[k].name;
      var j := Namesake(metrics, i);
      var value := if metrics[i].comparison.NotBelow? then metrics[i].threshold + 1.0 else metrics[i].threshold - 1.0;
      var currents := AtThresholds(metrics, j, value);
      assert Namesake(metrics, j) == j;
      var allowed, reason := ShiftedAccepted(metrics, j, value);
      assert Supported(metrics[i]);
      assert Fails(Updated(metrics, currents), currents, i);
    }
  }

  /** One name twice: the second entry is looser, and its value decides for both. */
  const TWICE: seq<Metric> := [Metric("m", 1.0, 1.0, NotAbove), Metric("m", 5.0, 5.0, NotAbove)]

  lemma SharedNameLoosens()
    ensures AllSupported(TWICE) && !NeverLoosens(TWICE) && !RecheckPasses(TWICE)
  {
    assert Namesake(TWICE, 0) == 1;
    assert !Covered(TWICE);
    assert !DistinctNames(TWICE);
    hide NeverLoosens, RecheckPasses, Covered, DistinctNames;
    NeverLoosensExactly(TWICE);
    RecheckPassesExactly(TWICE);
  }

  // ----- many updates -----

  /** An attempted update: what was measured, what was explicitly allowed, and why. */
  datatype Attempt = Attempt(currents: seq<real>, allowed: map<string, real>, reason: string)

  /** The baseline after a sequence of attempts; a refused one changes nothing. */
  ghost function After(metrics: seq<Metric>, runs: seq<Attempt>): (r: seq<Metric>)
    requires forall k :: 0 <= k < |runs| ==> Measured(metrics, runs[k].currents)
    ensures |r| == |metrics|
  {
    if runs == [] then metrics
    else
      var before := After(metrics, runs[..|runs| - 1]);
      var last := runs[|runs| - 1];
      assert Measured(metrics, runs[|runs| - 1].currents);
      if Accepted(before, last.currents, last.allowed, last.reason) then Updated(before, last.currents) else before
  }

  /** The value was explicitly allowed for the name, with a reason, in one of the runs. */
  ghost predicate AllowedInSome(name: string, value: real, runs: seq<Attempt>) {
    exists k :: 0 <= k < |runs| && Allowed(name, value, runs[k].allowed, runs[k].reason)
  }

  /** As tight as the bound itself, or as a value that was explicitly allowed in place of it. */
  ghost predicate TightOrAllowed(m: Metric, threshold: real, runs: seq<Attempt>) {
    || AtLeastAsTight(m.comparison, threshold, m.threshold)
    || exists value :: AllowedInSome(m.name, value, runs) && AtLeastAsTight(m.comparison, threshold, value)
  }

  lemma UpdateKeepsCovered(metrics: seq<Metric>, currents: seq<real>)
    requires Measured(metrics, currents) && Covered(metrics)
    ensures Covered(Updated(metrics, currents))
  {
    var after := Updated(metrics, currents);
    forall i | 0 <= i < |after|
      ensures Namesake(after, i) == Namesake(metrics, i) && after[Namesake(metrics, i)].threshold == after[i].threshold
    {
      var j := Namesake(metrics, i);
      assert after[j].name == after[i].name;
      assert Namesake(metrics, j) == j;
    }
  }

  lemma MoreRuns(m: Metric, threshold: real, runs: seq<Attempt>, last: Attempt)
    requires TightOrAllowed(m, threshold, runs)
    ensures TightOrAllowed(m, threshold, runs + [last])
  {
    if !AtLeastAsTight(m.comparison, threshold, m.threshold) {
      var value :| AllowedInSome(m.name, value, runs) && AtLeastAsTight(m.comparison, threshold, value);
      var k :| 0 <= k < |runs| && Allowed(m.name, value, runs[k].allowed, runs[k].reason);
      assert (runs + [last])[k] == runs[k];
      assert AllowedInSome(m.name, value, runs + [last]);
    }
  }

  lemma NextThreshold(m: Metric, before: real, after: real, runs: seq<Attempt>, last: Attempt)
    requires TightOrAllowed(m, before, runs)
    requires AtLeastAsTight(m.comparison, after, before) || Allowed(m.name, after, last.allowed, last.reason)
    ensures TightOrAllowed(m, after, runs + [last])
  {
    if AtLeastAsTight(m.comparison, after, before) {
      assert TightOrAllowed(m, after, runs);
      MoreRuns(m, after, runs, last);
    } else {
      assert (runs + [last])[|runs|] == last;
      assert AllowedInSome(m.name, after, runs + [last]) && AtLeastAsTight(m.comparison, after, after);
    }
  }

  /**
   Over any sequence of updates, accepted or refused, each threshold of a covered baseline stays as
   tight as it was, in its own direction, or as tight as a value explicitly allowed for it with a reason.
   */
  lemma {:induction false} UpdatesOnlyTighten(metrics: seq<Metric>, runs: seq<Attempt>)
    requires AllSupported(metrics) && Covered(metrics)
    requires forall k :: 0 <= k < |runs| ==> Measured(metrics, runs[k].currents)
    ensures var after := After(metrics, runs);
      && Covered(after) && AllSupported(after)
      && forall i :: 0 <= i < |metrics| ==>
           && after[i].name == metrics[i].name && after[i].comparison == metrics[i].comparison
           && TightOrAllowed(metrics[i], after[i].threshold, runs)
  {
    hide AtLeastAsTight, TightOrAllowed, Accepted, NeverLoosens, Allowed;
    if runs == [] {
      forall i | 0 <= i < |metrics| ensures TightOrAllowed(metrics[i], metrics[i].threshold, runs) {
        SameIsTight(metrics[i], runs);
      }
    } else {
      var init, last := runs[..|runs| - 1], runs[|runs| - 1];
      assert runs == init + [last];
      var before, after := After(metrics, init), After(metrics, runs);
      UpdatesOnlyTighten(metrics, init);
      forall i | 0 <= i < |metrics| ensures TightOrAllowed(metrics[i], before[i].threshold, init + [last]) {
        MoreRuns(metrics[i], before[i].threshold, init, last);
      }
      if Accepted(before, last.currents, last.allowed, last.reason) {
        UpdateKeepsCovered(before, last.currents);
        AcceptedIsNotLoosened(before, last);
        forall i | 0 <= i < |metrics| ensures TightOrAllowed(metrics[i], after[i].threshold, init + [last]) {
          NextThreshold(metrics[i], before[i].threshold, after[i].threshold, init, last);
        }
      }
    }
  }

  lemma SameIsTight(m: Metric, runs: seq<Attempt>)
    ensures TightOrAllowed(m, m.threshold, runs)
  {}

  lemma AcceptedIsNotLoosened(metrics: seq<Metric>, run: Attempt)
    requires AllSupported(metrics) && Covered(metrics) && Measured(metrics, run.currents)
    requires Accepted(metrics, run.currents, run.allowed, run.reason)
    ensures NoneLoosened(metrics, Updated(metrics, run.currents), run.allowed, run.reason)
  {
    hide Accepted, NoneLoosened;
    CoveredNeverLoosens(metrics);
  }
}
