/** Which baseline files are accepted, and what each allows (scripts/check_duplicate_code_ratchet.py). */
module DuplicatePolicy {
  import opened Wrappers
  import opened Json
  import opened Sorting
  import opened DuplicateReport
  import opened DuplicateRatchet
  import opened DuplicateRatchetLaws

  /** The number a document gives; a boolean is none. */
  ghost predicate IsNumber(v: Json, x: real) {
    (v.Int? && x == v.n as real) || (v.Dec? && x == Value(v.d))
  }

  lemma NumberExactly(v: Json, x: real)
    ensures DecimalOf(v).Some? && Value(DecimalOf(v).value) == x <==> IsNumber(v, x)
  {
    assert Pow10(0) == 1;
  }

  /** `metrics[name]["threshold"]` is a number that is not negative. */
  ghost predicate HasThreshold(metrics: seq<Member>, name: string, x: real) {
    && Lookup(metrics, name).Some? && Lookup(metrics, name).value.Obj?
    && Lookup(Lookup(metrics, name).value.members, "threshold").Some?
    && IsNumber(Lookup(Lookup(metrics, name).value.members, "threshold").value, x) && x >= 0.0
  }

  lemma ThresholdExactly(metrics: seq<Member>, name: string, x: real)
    ensures Threshold(metrics, name) == Some(x) <==> HasThreshold(metrics, name, x)
  {
    hide Lookup, Value;
    match Lookup(metrics, name)
    case Some(Obj(metric)) =>
      if Lookup(metric, "threshold").Some? {
        var v := Lookup(metric, "threshold").value;
        NumberExactly(v, x);
        if DecimalOf(v).Some? {
          NumberExactly(v, Value(DecimalOf(v).value));
        }
      }
    case _ =>
  }

  lemma IntegerExactly(metrics: seq<Member>, name: string, n: int)
    ensures IntegerThreshold(metrics, name) == Some(n) <==> HasThreshold(metrics, name, n as real)
  {
    ThresholdExactly(metrics, name, n as real);
    hide Threshold, HasThreshold;
    assert (n as real).Floor == n;
  }

  lemma {:induction false} TextsExactly(items: seq<Json>)
    ensures Texts(items).Some? <==> forall i :: 0 <= i < |items| ==> items[i].Str?
  {
    if items != [] {
      TextsExactly(items[1..]);
      assert forall i :: 0 < i < |items| ==> items[i] == items[1..][i - 1];
    }
  }

  /** The list names the allowed fingerprints, each once. */
  ghost predicate Lists(items: seq<Json>, allowed: set<string>) {
    && (forall i :: 0 <= i < |items| ==> items[i].Str? && items[i].s in allowed)
    && (forall t :: t in allowed ==> Str(t) in items)
    && Distinct(items)
  }

  lemma ListsExactly(items: seq<Json>, allowed: set<string>)
    ensures Lists(items, allowed) <==>
      Texts(items).Some? && Distinct(Texts(items).value) && allowed == set t | t in Texts(items).value
  {
    TextsExactly(items);
    if Texts(items).Some? {
      var texts := Texts(items).value;
      hide Texts;
      assert Distinct(items) <==> Distinct(texts);
      forall t ensures t in texts <==> Str(t) in items {
        if t in texts {
          var i :| 0 <= i < |texts| && texts[i] == t;
          assert items[i] == Str(t);
        }
        if Str(t) in items {
          var i :| 0 <= i < |items| && items[i] == Str(t);
          assert texts[i] == t;
        }
      }
      forall i | 0 <= i < |items| ensures items[i].s in texts {
        assert texts[i] == items[i].s;
      }
    }
  }

  /** Schema version 1, written for this detector, with the three limits and the fingerprints. */
  ghost predicate Allows(baseline: Json, p: Policy) {
    && baseline.Obj?
    && Lookup(baseline.members, "schema_version").Some?
    && NumberOf(Lookup(baseline.members, "schema_version").value) == Some(1.0)
    && Lookup(baseline.members, "detector").Some?
    && PyEqual(Lookup(baseline.members, "detector").value, DETECTOR_POLICY)
    && Lookup(baseline.members, "metrics").Some? && Lookup(baseline.members, "metrics").value.Obj?
    && Lookup(baseline.members, "allowed_fingerprints").Some?
    && Lookup(baseline.members, "allowed_fingerprints").value.Arr?
    && Limits(Lookup(baseline.members, "metrics").value.members, p)
    && Lists(Lookup(baseline.members, "allowed_fingerprints").value.items, p.allowed)
  }

  ghost predicate Limits(metrics: seq<Member>, p: Policy) {
    && HasThreshold(metrics, "clone_count", p.clones as real)
    && HasThreshold(metrics, "duplicated_lines", p.lines as real)
    && HasThreshold(metrics, "duplicated_percentage", p.percentage)
  }

  /** The metric is written twice over: as the value at the baseline and as the limit. */
  ghost predicate BothWays(metrics: seq<Member>, name: string, v: Json) {
    && Lookup(metrics, name).Some? && Lookup(metrics, name).value.Obj?
    && Lookup(Lookup(metrics, name).value.members, "baseline") == Some(v)
    && Lookup(Lookup(metrics, name).value.members, "threshold") == Some(v)
  }

  /** A baseline built from a report gives its three figures, each as baseline and as threshold. */
  lemma BuiltFigures(report: Report)
    ensures var metrics := BuildMetrics(report);
      && BothWays(metrics, "clone_count", Int(|report.findings|))
      && BothWays(metrics, "duplicated_lines", Int(report.duplicatedLines))
      && BothWays(metrics, "duplicated_percentage", Dec(report.percentage))
  {
    var metrics := BuildMetrics(report);
    MetricFields(metrics);
    hide Lookup;
    WrittenTwice(Int(|report.findings|));
    WrittenTwice(Int(report.duplicatedLines));
    WrittenTwice(Dec(report.percentage));
  }

  lemma WrittenTwice(v: Json)
    ensures Metric(v).Obj?
    ensures Lookup(Metric(v).members, "baseline") == Some(v) && Lookup(Metric(v).members, "threshold") == Some(v)
  {
    var members := Metric(v).members;
    assert members[1..] == [Member("threshold", v)];
    assert Lookup(members[1..], "threshold") == Some(v);
  }

  lemma LimitsExactly(metrics: seq<Member>, items: seq<Json>, p: Policy)
    ensures ReadLimits(metrics, items) == Some(p) <==> Limits(metrics, p) && Lists(items, p.allowed)
  {
    hide Texts, Threshold, IntegerThreshold, HasThreshold, Distinct, Lists;
    IntegerExactly(metrics, "clone_count", p.clones);
    IntegerExactly(metrics, "duplicated_lines", p.lines);
    ThresholdExactly(metrics, "duplicated_percentage", p.percentage);
    ListsExactly(items, p.allowed);
  }

  /** A baseline is read as a policy exactly when it is one for this detector and has those limits. */
  lemma PolicyExactly(baseline: Json, p: Policy)
    ensures ReadPolicy(baseline) == Some(p) <==> Allows(baseline, p)
  {
    hide ReadLimits, Limits, Lists, Lookup, DETECTOR_POLICY;
    if baseline.Obj? {
      var metrics, allowed := Lookup(baseline.members, "metrics"), Lookup(baseline.members, "allowed_fingerprints");
      if metrics.Some? && metrics.value.Obj? && allowed.Some? && allowed.value.Arr? {
        LimitsExactly(metrics.value.members, allowed.value.items, p);
      }
    }
  }
}
