/**
 The ratchet of scripts/check_duplicate_code_ratchet.py: loading a report, judging it against the
 baseline file, and the only ways the baseline file may change.
 */
module DuplicateRatchet {
  import opened Wrappers
  import opened Json
  import JsonText
  import opened Sorting
  import opened DuplicateReport

  // ----- loading a report -----

  /** `statistics.total` as it stands in the document. */
  datatype Totals = Totals(clones: Json, duplicatedLines: Json, percentage: Json)

  function DecimalOf(v: Json): Option<Decimal> {
    match v
    case Int(n) => Some(Decimal(n < 0, if n < 0 then -n else n, 0))
    case Dec(d) => Some(d)
    case _ => None
  }

  /** A number that is not below zero; a boolean is not a number here. */
  predicate NonNegative(v: Json) {
    DecimalOf(v).Some? && Value(DecimalOf(v).value) >= 0.0
  }

  method LoadReport(tools: Tools, finger: (GroupingKey, nat) -> string, entries: seq<Entry>, totals: Totals)
    returns (r: Result<Report, Error>)
    ensures r.Success? ==> exists identities ::
      && Identified(tools, entries, identities)
      && !SortFails(identities)
      && Found(identities, finger, r.value.findings)
      && totals == Totals(Int(|entries|), Int(r.value.duplicatedLines), totals.percentage)
      && NonNegative(totals.percentage) && DecimalOf(totals.percentage) == Some(r.value.percentage)
    ensures r.Failure? ==>
      || (exists e <- entries :: Identify(tools, e).Failure?)
      || (exists identities :: Identified(tools, entries, identities) && SortFails(identities))
      || totals.clones != Int(|entries|)
      || !totals.duplicatedLines.Int? || totals.duplicatedLines.n < 0
      || !NonNegative(totals.percentage)
  {
    var identities: seq<Identity> := [];
    for i := 0 to |entries|
      invariant |identities| == i
      invariant forall j :: 0 <= j < i ==> Identify(tools, entries[j]) == Success(identities[j])
    {
      var identity := Identify(tools, entries[i]);
      if identity.Failure? {
        assert entries[i] in entries;
        return Failure(identity.error);
      }
      identities := identities + [identity.value];
    }
    assert Identified(tools, entries, identities);
    if SortFails(identities) {
      return Failure(IncomparableLocations);
    }
    var findings := NumberFindings(identities, finger);
    if !totals.clones.Int? || totals.clones.n != |findings| {
      return Failure(BadCloneCount);
    }
    if !totals.duplicatedLines.Int? || totals.duplicatedLines.n < 0 {
      return Failure(BadDuplicatedLines);
    }
    if !NonNegative(totals.percentage) {
      return Failure(BadPercentage);
    }
    return Success(Report(findings, totals.duplicatedLines.n, DecimalOf(totals.percentage).value));
  }

  ghost predicate Identified(tools: Tools, entries: seq<Entry>, identities: seq<Identity>) {
    && |identities| == |entries|
    && forall j :: 0 <= j < |entries| ==> Identify(tools, entries[j]) == Success(identities[j])
  }

  // ----- the baseline document -----

  const DETECTOR_POLICY: Json := Obj([
    Member("name", Str("jscpd")),
    Member("version", Str("4.2.2")),
    Member("format", Str("python")),
    Member("input_root", Str("src/app")),
    Member("pattern", Str("**/*.py")),
    Member("min_lines", Int(15)),
    Member("min_tokens", Int(50)),
    Member("max_lines", Int(10000)),
    Member("max_size", Str("1mb"))])

  /** What a valid baseline allows. */
  datatype Policy = Policy(clones: int, lines: int, percentage: real, allowed: set<string>)

  /** `_decimal_metric` */
  function Threshold(metrics: seq<Member>, name: string): Option<real> {
    match Lookup(metrics, name)
    case Some(Obj(metric)) =>
      (match Lookup(metric, "threshold")
       case Some(v) => if NonNegative(v) then Some(Value(DecimalOf(v).value)) else None
       case None => None)
    case _ => None
  }

  /** `_integer_metric` */
  function IntegerThreshold(metrics: seq<Member>, name: string): Option<int> {
    match Threshold(metrics, name)
    case Some(x) => if x == x.Floor as real then Some(x.Floor) else None
    case None => None
  }

  function Texts(items: seq<Json>): (r: Option<seq<string>>)
    ensures r.Some? ==> |r.value| == |items| && forall i :: 0 <= i < |items| ==> items[i] == Str(r.value[i])
  {
    if items == [] then Some([])
    else if !items[0].Str? then None
    else match Texts(items[1..])
      case None => None
      case Some(rest) => Some([items[0].s] + rest)
  }

  /** The thresholds and the allowed fingerprints, which must be unique strings. */
  function ReadLimits(metrics: seq<Member>, allowed: seq<Json>): Option<Policy> {
    match (Texts(allowed), IntegerThreshold(metrics, "clone_count"),
           IntegerThreshold(metrics, "duplicated_lines"), Threshold(metrics, "duplicated_percentage"))
    case (Some(texts), Some(clones), Some(lines), Some(percentage)) =>
      if Distinct(texts) then Some(Policy(clones, lines, percentage, set t | t in texts)) else None
    case _ => None
  }

  /** The checks `evaluate` makes of the baseline; any failure ends the run as an input error. */
  function ReadPolicy(baseline: Json): Option<Policy> {
    if !baseline.Obj? then None
    else
      match (Lookup(baseline.members, "schema_version"), Lookup(baseline.members, "detector"),
             Lookup(baseline.members, "metrics"), Lookup(baseline.members, "allowed_fingerprints"))
      case (Some(version), Some(detector), Some(Obj(metrics)), Some(Arr(allowed))) =>
        if PyEqual(version, Int(1)) && PyEqual(detector, DETECTOR_POLICY) then ReadLimits(metrics, allowed)
        else None
      case _ => None
  }

  datatype RatchetResult = RatchetResult(
    report: Report,
    policy: Policy,
    unexpected: seq<string>,
    stale: seq<string>,
    status: int)
  {
    predicate MetricsPassed() {
      && status == 0
      && |report.findings| <= policy.clones
      && report.duplicatedLines <= policy.lines
      && Value(report.percentage) <= policy.percentage
      && unexpected == []
    }

    predicate Passed() {
      MetricsPassed() && stale == []
    }
  }

  function Evaluate(report: Report, policy: Policy, status: int): RatchetResult {
    var current := Fingerprints(report.findings);
    RatchetResult(report, policy, SortedSet(current - policy.allowed), SortedSet(policy.allowed - current), status)
  }

  function Metric(v: Json): Json {
    Obj([Member("baseline", v), Member("threshold", v)])
  }

  function TextItems(texts: seq<string>): (r: seq<Json>)
    ensures |r| == |texts| && forall i :: 0 <= i < |r| ==> r[i] == Str(texts[i])
  {
    seq(|texts|, i requires 0 <= i < |texts| => Str(texts[i]))
  }

  function BuildMetrics(report: Report): seq<Member> {
    [Member("clone_count", Metric(Int(|report.findings|))),
     Member("duplicated_lines", Metric(Int(report.duplicatedLines))),
     Member("duplicated_percentage", Metric(Dec(report.percentage)))]
  }

  function BuildBaseline(report: Report): Json {
    Obj([
      Member("schema_version", Int(1)),
      Member("detector", DETECTOR_POLICY),
      Member("metrics", Obj(BuildMetrics(report))),
      Member("allowed_fingerprints", Arr(TextItems(SortedSet(Fingerprints(report.findings)))))])
  }

  function BaselineText(report: Report): string {
    JsonText.Encode(BuildBaseline(report), 0) + "\n"
  }

  /** What a baseline file allows; a file that cannot be read as a valid baseline allows nothing. */
  function PolicyOf(text: string): Option<Policy> {
    match JsonText.ReadDocument(text)
    case None => None
    case Some(document) => ReadPolicy(document)
  }

  datatype Mode = Check | Initialize | Update

  /** One run of `main` on a loaded report: the baseline file afterwards, and the exit code. */
  function Run(text: string, mode: Mode, report: Report, status: int): (string, int) {
    if mode == Initialize then
      if status != 0 then (text, 2) else (BaselineText(report), 0)
    else match PolicyOf(text)
      case None => (text, 2)
      case Some(policy) =>
        var result := Evaluate(report, policy, status);
        if mode == Update then
          if result.MetricsPassed() then (BaselineText(report), 0) else (text, 2)
        else (text, if result.Passed() then 0 else 1)
  }
}
