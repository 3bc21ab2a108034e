/** The duplicate-code ratchet never loosens, and what it writes it accepts. */
module DuplicateRatchetLaws {
  import opened Wrappers
  import opened Json
  import opened JsonRoundTrip
  import opened Sorting
  import opened DuplicateReport
  import opened DuplicateRatchet

  /** What LoadReport guarantees of a report. */
  predicate Loaded(report: Report) {
    Value(report.percentage) >= 0.0
  }

  lemma {:induction false} LookupReread(members: seq<Member>, key: string)
    ensures Lookup(RereadMembers(members), key) ==
      match Lookup(members, key) { case None => None case Some(v) => Some(Reread(v)) }
  {
    if members != [] {
      var again := RereadMembers(members);
      assert again[0] == Member(members[0].key, Reread(members[0].value));
      assert again[1..] == RereadMembers(members[1..]);
      LookupReread(members[1..], key);
    }
  }

  lemma RereadObject(members: seq<Member>)
    ensures Reread(Obj(members)) == Obj(RereadMembers(members))
  {}

  lemma {:induction false} TextsOfItems(texts: seq<string>)
    ensures Texts(TextItems(texts)) == Some(texts)
  {
    if texts != [] {
      assert TextItems(texts)[1..] == TextItems(texts[1..]);
      TextsOfItems(texts[1..]);
      assert [texts[0]] + texts[1..] == texts;
    }
  }

  lemma MetricReread(v: Json)
    requires NonNegative(v)
    ensures Reread(Metric(v)).Obj?
    ensures Lookup(Reread(Metric(v)).members, "threshold") == Some(Reread(v)) && NonNegative(Reread(v))
    ensures Value(DecimalOf(Reread(v)).value) == Value(DecimalOf(v).value)
  {
    var members := [Member("baseline", v), Member("threshold", v)];
    RereadObject(members);
    LookupReread(members, "threshold");
    assert Lookup(members[1..], "threshold") == Some(v);
    match v
    case Int(n) =>
    case Dec(d) =>
      RereadValue(d);
      if d.exponent >= 0 {
        IntDecimalValue(Reread(v).n);
      }
  }

  lemma IntDecimalValue(n: int)
    ensures Value(DecimalOf(Int(n)).value) == n as real
  {
    assert Pow10(0) == 1;
  }

  lemma ThresholdReread(metrics: seq<Member>, name: string, v: Json)
    requires Lookup(metrics, name) == Some(Metric(v)) && NonNegative(v)
    ensures Threshold(RereadMembers(metrics), name) == Some(Value(DecimalOf(v).value))
  {
    hide Value, Metric, RereadMembers, Lookup;
    LookupReread(metrics, name);
    MetricReread(v);
  }

  lemma MetricFields(metrics: seq<Member>)
    requires |metrics| == 3
    requires metrics[0].key == "clone_count" && metrics[1].key == "duplicated_lines"
    requires metrics[2].key == "duplicated_percentage"
    ensures Lookup(metrics, "clone_count") == Some(metrics[0].value)
    ensures Lookup(metrics, "duplicated_lines") == Some(metrics[1].value)
    ensures Lookup(metrics, "duplicated_percentage") == Some(metrics[2].value)
    ensures Distinct(Keys(metrics))
  {
    assert Keys(metrics) == ["clone_count", "duplicated_lines", "duplicated_percentage"];
    hide Lookup;
    LookupAt(metrics, 0);
    LookupAt(metrics, 1);
    LookupAt(metrics, 2);
  }

  lemma MetricsReread(report: Report)
    requires Loaded(report)
    ensures var metrics := RereadMembers(BuildMetrics(report));
      && IntegerThreshold(metrics, "clone_count") == Some(|report.findings|)
      && IntegerThreshold(metrics, "duplicated_lines") == Some(report.duplicatedLines)
      && Threshold(metrics, "duplicated_percentage") == Some(Value(report.percentage))
  {
    hide Value, Metric, RereadMembers, Lookup, Threshold;
    var metrics := BuildMetrics(report);
    MetricFields(metrics);
    IntDecimalValue(|report.findings|);
    IntDecimalValue(report.duplicatedLines);
    ThresholdReread(metrics, "clone_count", Int(|report.findings|));
    ThresholdReread(metrics, "duplicated_lines", Int(report.duplicatedLines));
    ThresholdReread(metrics, "duplicated_percentage", Dec(report.percentage));
  }

  lemma DetectorReread()
    ensures Reread(DETECTOR_POLICY) == DETECTOR_POLICY && WellFormed(DETECTOR_POLICY)
    ensures PyEqual(DETECTOR_POLICY, DETECTOR_POLICY)
  {
    var members := DETECTOR_POLICY.members;
    RereadObject(members);
    assert RereadMembers(members) == members;
    DetectorKeys();
    RereadIsEqual(DETECTOR_POLICY);
  }

  lemma DetectorKeys()
    ensures Distinct(Keys(DETECTOR_POLICY.members))
  {
    var keys := Keys(DETECTOR_POLICY.members);
    assert keys == ["name", "version", "format", "input_root", "pattern", "min_lines", "min_tokens", "max_lines",
      "max_size"];
  }

  /** The parts of a freshly built baseline, as they are read back. */
  lemma BaselineReread(report: Report)
    ensures var read := Reread(BuildBaseline(report));
      && read.Obj?
      && Lookup(read.members, "schema_version") == Some(Int(1))
      && Lookup(read.members, "detector") == Some(DETECTOR_POLICY)
      && Lookup(read.members, "metrics") == Some(Obj(RereadMembers(BuildMetrics(report))))
      && Lookup(read.members, "allowed_fingerprints")
           == Some(Arr(TextItems(SortedSet(Fingerprints(report.findings)))))
  {
    hide SortedSet, Fingerprints, Lookup, BuildMetrics;
    var items := TextItems(SortedSet(Fingerprints(report.findings)));
    var members := BuildBaseline(report).members;
    RereadObject(members);
    RereadObject(BuildMetrics(report));
    assert Reread(Arr(items)) == Arr(items) by {
      assert RereadItems(items) == items;
    }
    DetectorReread();
    BaselineFields(members);
    LookupReread(members, "schema_version");
    LookupReread(members, "detector");
    LookupReread(members, "metrics");
    LookupReread(members, "allowed_fingerprints");
  }

  lemma FourKeysDiffer(members: seq<Member>)
    requires |members| == 4
    requires members[0].key == "schema_version" && members[1].key == "detector"
    requires members[2].key == "metrics" && members[3].key == "allowed_fingerprints"
    ensures Distinct(Keys(members))
  {
    var keys := Keys(members);
    assert |keys[0]| == 14 && |keys[1]| == 8 && |keys[2]| == 7 && |keys[3]| == 20;
    forall i, j | 0 <= i < j < 4 ensures keys[i] != keys[j] {
      assert |keys[i]| != |keys[j]|;
    }
  }

  lemma BaselineFields(members: seq<Member>)
    requires |members| == 4
    requires members[0].key == "schema_version" && members[1].key == "detector"
    requires members[2].key == "metrics" && members[3].key == "allowed_fingerprints"
    ensures Lookup(members, "schema_version") == Some(members[0].value)
    ensures Lookup(members, "detector") == Some(members[1].value)
    ensures Lookup(members, "metrics") == Some(members[2].value)
    ensures Lookup(members, "allowed_fingerprints") == Some(members[3].value)
    ensures Distinct(Keys(members))
  {
    hide Lookup, Distinct;
    FourKeysDiffer(members);
    LookupAt(members, 0);
    LookupAt(members, 1);
    LookupAt(members, 2);
    LookupAt(members, 3);
  }

  lemma BaselineIsWellFormed(report: Report)
    ensures WellFormed(BuildBaseline(report))
  {
    DetectorReread();
    MetricsAreWellFormed(report);
    hide SortedSet, Fingerprints, Lookup, BuildMetrics;
    var members := BuildBaseline(report).members;
    BaselineFields(members);
    forall i | 0 <= i < 4 ensures WellFormed(members[i].value) {}
  }

  lemma MetricsAreWellFormed(report: Report)
    ensures WellFormed(Obj(BuildMetrics(report)))
  {
    var metrics := BuildMetrics(report);
    assert Keys(metrics) == ["clone_count", "duplicated_lines", "duplicated_percentage"];
    forall i | 0 <= i < 3 ensures WellFormed(metrics[i].value) {
      assert Keys(metrics[i].value.members) == ["baseline", "threshold"];
    }
  }

  /** A written baseline is read back as a valid policy that allows exactly the report it came from. */
  lemma WrittenPolicy(report: Report)
    requires Loaded(report)
    ensures PolicyOf(BaselineText(report)) == Some(Policy(
      |report.findings|, report.duplicatedLines, Value(report.percentage), Fingerprints(report.findings)))
  {
    BaselineIsWellFormed(report);
    RoundTrip(BuildBaseline(report));
    BaselineReread(report);
    ReadBack(report, Reread(BuildBaseline(report)));
    hide JsonText.Encode, JsonText.ReadDocument, BuildBaseline, ReadPolicy;
  }

  lemma ReadBack(report: Report, read: Json)
    requires Loaded(report) && read.Obj?
    requires Lookup(read.members, "schema_version") == Some(Int(1))
    requires Lookup(read.members, "detector") == Some(DETECTOR_POLICY)
    requires Lookup(read.members, "metrics") == Some(Obj(RereadMembers(BuildMetrics(report))))
    requires Lookup(read.members, "allowed_fingerprints")
      == Some(Arr(TextItems(SortedSet(Fingerprints(report.findings)))))
    ensures ReadPolicy(read) == Some(Policy(
      |report.findings|, report.duplicatedLines, Value(report.percentage), Fingerprints(report.findings)))
  {
    hide Lookup, ReadLimits, BuildMetrics, RereadMembers, SortedSet, Fingerprints, Value, TextItems;
    assert PyEqual(Int(1), Int(1));
    hide PyEqual;
    DetectorReread();
    LimitsReadBack(report);
  }

  lemma LimitsReadBack(report: Report)
    requires Loaded(report)
    ensures ReadLimits(RereadMembers(BuildMetrics(report)), TextItems(SortedSet(Fingerprints(report.findings))))
      == Some(Policy(
        |report.findings|, report.duplicatedLines, Value(report.percentage), Fingerprints(report.findings)))
  {
    MetricsReread(report);
    var current := Fingerprints(report.findings);
    var texts := SortedSet(current);
    TextsOfItems(texts);
    assert (set t | t in texts) == current;
    hide Threshold, IntegerThreshold, BuildMetrics, RereadMembers, SortedSet, Texts, Fingerprints, Value, TextItems;
  }

  // ----- runs -----

  /** Nothing `q` allows is disallowed by `p`. */
  predicate Tightens(q: Policy, p: Policy) {
    q.clones <= p.clones && q.lines <= p.lines && q.percentage <= p.percentage && q.allowed <= p.allowed
  }

  lemma EmptySorted(s: set<string>)
    ensures SortedSet(s) == [] <==> s == {}
  {
    assert |SortedSet(s)| == |s|;
  }

  /** A check passes exactly when the detector ran, no metric grew, and the fingerprints are those allowed. */
  lemma CheckPassesIff(text: string, report: Report, status: int)
    ensures var current := Fingerprints(report.findings);
      Run(text, Check, report, status) == (text, 0) <==>
        && status == 0 && PolicyOf(text).Some?
        && var p := PolicyOf(text).value;
           && |report.findings| <= p.clones && report.duplicatedLines <= p.lines
           && Value(report.percentage) <= p.percentage && current == p.allowed
  {
    hide ReadPolicy, JsonText.ReadDocument;
    if PolicyOf(text).Some? {
      var p, current := PolicyOf(text).value, Fingerprints(report.findings);
      EmptySorted(current - p.allowed);
      EmptySorted(p.allowed - current);
      assert current - p.allowed == {} && p.allowed - current == {} <==> current == p.allowed;
    }
  }

  /** An update either leaves the file alone or writes a policy that allows no more than before. */
  lemma UpdateTightens(text: string, report: Report, status: int)
    requires Loaded(report)
    ensures var (after, exit) := Run(text, Update, report, status);
      if exit == 0 then
        PolicyOf(text).Some? && PolicyOf(after).Some? && Tightens(PolicyOf(after).value, PolicyOf(text).value)
      else after == text
  {
    hide ReadPolicy, JsonText.ReadDocument, BaselineText, PolicyOf;
    WrittenPolicy(report);
    if PolicyOf(text).Some? {
      EmptySorted(Fingerprints(report.findings) - PolicyOf(text).value.allowed);
    }
  }

  /** After an accepted update the same input passes the check, and updating again changes nothing. */
  lemma RecheckPasses(text: string, report: Report, status: int)
    requires Loaded(report) && Run(text, Update, report, status).1 == 0
    ensures var after := Run(text, Update, report, status).0;
      && Run(after, Check, report, status) == (after, 0)
      && Run(after, Update, report, status) == (after, 0)
  {
    hide ReadPolicy, JsonText.ReadDocument, BaselineText, PolicyOf;
    WrittenPolicy(report);
    var after := BaselineText(report);
    CheckPassesIff(after, report, status);
    EmptySorted({});
    var current := Fingerprints(report.findings);
    assert current - current == {};
  }

  /** A sequence of update runs, each with its own report and detector status. */
  function Updates(text: string, runs: seq<(Report, int)>): string
    decreases |runs|
  {
    if runs == [] then text else Updates(Run(text, Update, runs[0].0, runs[0].1).0, runs[1..])
  }

  /** Over any sequence of updates the baseline only ever tightens. */
  lemma {:induction false} UpdatesTighten(text: string, runs: seq<(Report, int)>)
    requires forall i :: 0 <= i < |runs| ==> Loaded(runs[i].0)
    ensures var after := Updates(text, runs);
      if PolicyOf(text).Some? then
        PolicyOf(after).Some? && Tightens(PolicyOf(after).value, PolicyOf(text).value)
      else after == text
    decreases |runs|
  {
    hide PolicyOf, Run;
    if runs != [] {
      UpdateTightens(text, runs[0].0, runs[0].1);
      UnreadableIsKept(text, runs[0].0, runs[0].1);
      UpdatesTighten(Run(text, Update, runs[0].0, runs[0].1).0, runs[1..]);
    }
  }

  lemma UnreadableIsKept(text: string, report: Report, status: int)
    ensures PolicyOf(text).None? ==> Run(text, Update, report, status) == (text, 2)
  {
    hide PolicyOf;
  }

  /**
   Against a baseline written for another report, the unexpected and the stale fingerprints count
   the clones that appeared and disappeared, key by key.
   */
  lemma ClonesComeAndGo(
      before: seq<Identity>, after: seq<Identity>, finger: (GroupingKey, nat) -> string,
      earlier: Report, later: Report, status: int)
    requires Injective(finger) && Loaded(earlier)
    requires Found(before, finger, earlier.findings) && Found(after, finger, later.findings)
    ensures PolicyOf(BaselineText(earlier)).Some?
    ensures var result := Evaluate(later, PolicyOf(BaselineText(earlier)).value, status);
      var was, is_ := multiset(GroupingKeys(before)), multiset(GroupingKeys(after));
      |result.unexpected| == |is_ - was| && |result.stale| == |was - is_|
  {
    hide PolicyOf, BaselineText;
    WrittenPolicy(earlier);
    FingerprintsAreNumbered(before, finger, earlier.findings);
    FingerprintsAreNumbered(after, finger, later.findings);
    var was, is_ := multiset(GroupingKeys(before)), multiset(GroupingKeys(after));
    SurplusIsCounted(is_, was, finger);
    SurplusIsCounted(was, is_, finger);
  }
}
