/**
 scripts/check_quality_baseline_ratchet.py: measured metrics against their thresholds, and the update
 that may only tighten them.
 */
module MetricRatchet {
  import opened Wrappers

  datatype Comparison = NotBelow | NotAbove | Unsupported(name: string)

  datatype Metric = Metric(name: string, baseline: real, threshold: real, comparison: Comparison)

  datatype Refusal = UnknownMetric | UnsupportedComparison | Loosens(name: string) | NotNeeded | NoReason

  /** `MetricResult.passed`, for a supported comparison. */
  predicate Passes(m: Metric, current: real) {
    match m.comparison
    case NotBelow => current >= m.threshold
    case _ => current <= m.threshold
  }

  predicate Supported(m: Metric) {
    !m.comparison.Unsupported?
  }

  predicate AllSupported(metrics: seq<Metric>) {
    forall i :: 0 <= i < |metrics| ==> Supported(metrics[i])
  }

  /** The last entry of a name: dictionaries built from the list keep that one. */
  function LastNamed(metrics: seq<Metric>, name: string): (j: Option<nat>)
    ensures j.Some? ==>
      j.value < |metrics| && metrics[j.value].name == name
      && forall k :: j.value < k < |metrics| ==> metrics[k].name != name
    ensures j.None? ==> forall k :: 0 <= k < |metrics| ==> metrics[k].name != name
  {
    if metrics == [] then None
    else if metrics[|metrics| - 1].name == name then Some(|metrics| - 1)
    else LastNamed(metrics[..|metrics| - 1], name)
  }

  /** The last entry that shares the name of entry `i`. */
  function Namesake(metrics: seq<Metric>, i: nat): (j: nat)
    requires i < |metrics|
    ensures i <= j < |metrics| && metrics[j].name == metrics[i].name
    ensures forall k :: j < k < |metrics| ==> metrics[k].name != metrics[i].name
  {
    LastNamed(metrics, metrics[i].name).value
  }

  predicate Measured(metrics: seq<Metric>, currents: seq<real>) {
    |currents| == |metrics|
  }

  // ----- the update as a function -----

  predicate Unknown(metrics: seq<Metric>, allowed: map<string, real>) {
    exists name :: name in allowed && LastNamed(metrics, name).None?
  }

  predicate Fails(metrics: seq<Metric>, currents: seq<real>, i: nat)
    requires Measured(metrics, currents) && i < |metrics|
  {
    !Passes(metrics[i], currents[i])
  }

  /** A failing entry whose value is not allowed by name. */
  predicate Refused(metrics: seq<Metric>, currents: seq<real>, allowed: map<string, real>, i: nat)
    requires Measured(metrics, currents) && i < |metrics|
  {
    Fails(metrics, currents, i) && !(metrics[i].name in allowed && allowed[metrics[i].name] == currents[i])
  }

  predicate Needless(metrics: seq<Metric>, currents: seq<real>, name: string)
    requires Measured(metrics, currents)
  {
    LastNamed(metrics, name).Some? && !Fails(metrics, currents, LastNamed(metrics, name).value)
  }

  /** Whether an update goes through. */
  ghost predicate Accepted(metrics: seq<Metric>, currents: seq<real>, allowed: map<string, real>, reason: string)
    requires Measured(metrics, currents)
  {
    && AllSupported(metrics)
    && !Unknown(metrics, allowed)
    && (forall i :: 0 <= i < |metrics| ==> !Refused(metrics, currents, allowed, i))
    && (forall name :: name in allowed ==> !Needless(metrics, currents, name))
    && (reason != "" || forall i :: 0 <= i < |metrics| ==> !Fails(metrics, currents, i))
  }

  /** The entries after an update: each takes the value measured for the last entry of its name. */
  function Updated(metrics: seq<Metric>, currents: seq<real>): (r: seq<Metric>)
    requires Measured(metrics, currents)
    ensures |r| == |metrics|
  {
    seq(|metrics|, i requires 0 <= i < |metrics| =>
      var value := currents[Namesake(metrics, i)];
      metrics[i].(baseline := value, threshold := value))
  }

  class QualityBaseline {
    var metrics: seq<Metric>

    constructor (metrics: seq<Metric>)
      ensures this.metrics == metrics
    {
      this.metrics := metrics;
    }

    /** `{result.name: result.current}` */
    method CurrentByName(currents: seq<real>) returns (values: map<string, real>)
      requires Measured(metrics, currents)
      ensures forall name :: name in values <==> LastNamed(metrics, name).Some?
      ensures forall name :: name in values ==> values[name] == currents[LastNamed(metrics, name).value]
    {
      values := map[];
      for i := 0 to |metrics|
        invariant forall name :: name in values <==> LastNamed(metrics[..i], name).Some?
        invariant forall name :: name in values ==> values[name] == currents[LastNamed(metrics[..i], name).value]
      {
        assert metrics[..i + 1][..i] == metrics[..i];
        values := values[metrics[i].name := currents[i]];
      }
      assert metrics[..|metrics|] == metrics;
    }

    /** The first failing entry that is not allowed, and whether any entry fails. */
    method Failures(currents: seq<real>, allowed: map<string, real>) returns (loosened: Option<string>, failing: bool)
      requires Measured(metrics, currents)
      ensures loosened.Some? <==> exists i :: 0 <= i < |metrics| && Refused(metrics, currents, allowed, i)
      ensures loosened.None? ==> (failing <==> exists i :: 0 <= i < |metrics| && Fails(metrics, currents, i))
    {
      failing := false;
      for i := 0 to |metrics|
        invariant forall k :: 0 <= k < i ==> !Refused(metrics, currents, allowed, k)
        invariant failing <==> exists k :: 0 <= k < i && Fails(metrics, currents, k)
      {
        if Fails(metrics, currents, i) {
          failing := true;
          if !(metrics[i].name in allowed && allowed[metrics[i].name] == currents[i]) {
            assert Refused(metrics, currents, allowed, i);
            return Some(metrics[i].name), failing;
          }
        }
      }
      return None, failing;
    }

    /** `_update_baseline`: a refusal changes nothing. */
    method UpdateBaseline(currents: seq<real>, allowed: map<string, real>, reason: string)
      returns (refusal: Option<Refusal>)
      requires Measured(metrics, currents)
      modifies this
      ensures refusal.None? <==> Accepted(old(metrics), currents, allowed, reason)
      ensures metrics == if refusal.None? then Updated(old(metrics), currents) else old(metrics)
    {
      var values := CurrentByName(currents);
      if exists name | name in allowed :: name !in values {
        return Some(UnknownMetric);
      }
      if exists i | 0 <= i < |metrics| :: !Supported(metrics[i]) {
        return Some(UnsupportedComparison);
      }
      var loosened, failing := Failures(currents, allowed);
      if loosened.Some? {
        return Some(Loosens(loosened.value));
      }
      if exists name | name in allowed :: Needless(metrics, currents, name) {
        return Some(NotNeeded);
      }
      if failing && reason == "" {
        return Some(NoReason);
      }
      Write(currents, values);
      return None;
    }

    method Write(currents: seq<real>, values: map<string, real>)
      requires Measured(metrics, currents)
      requires forall name :: name in values <==> LastNamed(metrics, name).Some?
      requires forall name :: name in values ==> values[name] == currents[LastNamed(metrics, name).value]
      modifies this
      ensures metrics == Updated(old(metrics), currents)
    {
      ghost var before := metrics;
      for i := 0 to |metrics|
        invariant |metrics| == |before|
        invariant forall k :: 0 <= k < i ==> metrics[k] == Updated(before, currents)[k]
        invariant forall k :: i <= k < |metrics| ==> metrics[k] == before[k]
      {
        var value := values[metrics[i].name];
        assert value == currents[Namesake(before, i)];
        metrics := metrics[i := metrics[i].(baseline := value, threshold := value)];
      }
      assert metrics == Updated(before, currents);
    }

    /**
     The command line: the exit code, and the file rewritten only by an accepted update. Without
     readings, or with a comparison it does not know, the script stops on an error.
     */
    method Execute(readings: Option<seq<real>>, update: bool, allowed: map<string, real>, reason: string)
      returns (code: nat)
      requires readings.Some? ==> Measured(metrics, readings.value)
      modifies this
      ensures
        if (reason != "" && allowed == map[]) || (allowed != map[] && !update) then
          code == 2 && metrics == old(metrics)
        else if readings.None? || !AllSupported(old(metrics)) then
          code == 1 && metrics == old(metrics)
        else if update then
          var accepted := Accepted(old(metrics), readings.value, allowed, reason);
          && code == (if accepted then 0 else 2)
          && metrics == if accepted then Updated(old(metrics), readings.value) else old(metrics)
        else
          && metrics == old(metrics)
          && code == if forall i :: 0 <= i < |metrics| ==> !Fails(metrics, readings.value, i) then 0 else 1
    {
      if reason != "" && allowed == map[] {
        return 2;
      }
      if allowed != map[] && !update {
        return 2;
      }
      if readings.None? || !AllSupported(metrics) {
        return 1;
      }
      if update {
        var refusal := UpdateBaseline(readings.value, allowed, reason);
        return if refusal.Some? then 2 else 0;
      }
      if exists i | 0 <= i < |metrics| :: Fails(metrics, readings.value, i) {
        return 1;
      }
      return 0;
    }
  }
}
