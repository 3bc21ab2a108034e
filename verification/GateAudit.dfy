/**
 scripts/audit_main_gate_coverage.py: which attempts of the releasability gate belong to a commit,
 and what they say about it.
 */
module GateAudit {
  import opened Wrappers
  import opened Text
  import opened Sorting

  const SUCCESS := "success"
  const FAILURES: set<string> := {"failure", "timed_out", "startup_failure"}
  const VERDICTS: set<string> := {SUCCESS} + FAILURES
  const PENDING: set<string> := {"queued", "in_progress", "waiting", "requested", "pending"}

  datatype Attempt = Attempt(
    conclusion: string, status: string, startedAt: string, databaseId: string, attempt: string)

  datatype Reason =
    | Unread
    | Undated(count: nat)
    | StillRunning(statuses: seq<string>)
    | WithoutVerdict(reached: seq<string>)

  datatype Outcome =
    | Ungated
    | Unverifiable(reason: Reason)
    | Passing
    | Recovered(failures: nat, conclusions: seq<string>)
    | Failing(newest: string)

  predicate IsVerdict(a: Attempt) {
    a.conclusion in VERDICTS
  }

  predicate IsFailure(a: Attempt) {
    a.conclusion in FAILURES
  }

  predicate IsUndated(a: Attempt) {
    IsVerdict(a) && a.startedAt == ""
  }

  /** The sort key of an attempt compared part by part: start time, then run, then attempt. */
  predicate NotLater(a: Attempt, b: Attempt) {
    if a.startedAt != b.startedAt then TextLe(a.startedAt, b.startedAt)
    else if RJust(a.databaseId, 24) != RJust(b.databaseId, 24) then
      TextLe(RJust(a.databaseId, 24), RJust(b.databaseId, 24))
    else TextLe(RJust(a.attempt, 6), RJust(b.attempt, 6))
  }

  function OldestFirst(attempts: seq<Attempt>): seq<Attempt> {
    SortBy(attempts, NotLater)
  }

  function Classify(attempts: Option<seq<Attempt>>): Outcome {
    if attempts.None? then Unverifiable(Unread)
    else if Filter(attempts.value, IsUndated) != [] then
      Unverifiable(Undated(|Filter(attempts.value, IsUndated)|))
    else
      var ordered := OldestFirst(attempts.value);
      var verdicts := Filter(ordered, IsVerdict);
      if verdicts != [] then
        var failures := Filter(verdicts, IsFailure);
        if verdicts[|verdicts| - 1].conclusion == SUCCESS then
          if failures == [] then Passing
          else Recovered(|failures|, SortedSet(set a | a in failures :: a.conclusion))
        else Failing(verdicts[|verdicts| - 1].conclusion)
      else if ordered == [] then Ungated
      else
        var pending := set a | a in ordered && a.status in PENDING :: a.status;
        if pending != {} then Unverifiable(StillRunning(SortedSet(pending)))
        else
          var reached := set a | a in ordered :: if a.conclusion != "" then a.conclusion else a.status;
          Unverifiable(WithoutVerdict(SortedSet(reached)))
  }

  // ----- the attempts of one source -----

  /** One entry of the run listing; `newest` is its attempt number when that reads as an integer. */
  datatype Run = Run(
    conclusion: string, status: string, startedAt: string, databaseId: string, newest: Option<int>,
    headSha: string, headBranch: string, displayTitle: string)

  /** What the API says about a superseded attempt. */
  datatype Superseded = Superseded(conclusion: string, status: string, startedAt: string)

  type Archive = (string, int) -> Option<Superseded>

  const TITLE := "Main Releasability "
  const DOT: char := 0xB7 as char
  const TITLE_PREFIX := TITLE + [DOT] + " "
  const GARBLED_PREFIX := TITLE + [0xC2 as char, DOT] + " "

  predicate IsSha(s: string) {
    |s| == 40 && forall i :: 0 <= i < |s| ==> '0' <= s[i] <= '9' || 'a' <= s[i] <= 'f'
  }

  predicate NamesMainline(run: Run) {
    TITLE_PREFIX <= run.displayTitle || GARBLED_PREFIX <= run.displayTitle
  }

  /** `_evaluated_source_sha` */
  function EvaluatedSource(run: Run): Option<string> {
    if NamesMainline(run) then
      var prefix := if TITLE_PREFIX <= run.displayTitle then TITLE_PREFIX else GARBLED_PREFIX;
      var source := run.displayTitle[|prefix|..];
      if run.headBranch == "main" && IsSha(source) then Some(source) else None
    else if IsSha(run.headSha) then Some(run.headSha)
    else None
  }

  function Record(run: Run, newest: int): Attempt {
    Attempt(run.conclusion, run.status, run.startedAt, run.databaseId, IntText(newest))
  }

  function EarlierAttempt(archive: Archive, id: string, attempt: int): Option<Attempt> {
    match archive(id, attempt)
    case None => None
    case Some(s) => Some(Attempt(s.conclusion, s.status, s.startedAt, id, IntText(attempt)))
  }

  /** A run that leaves the history of the source unknown. */
  ghost predicate Hole(sha: string, run: Option<Run>, archive: Archive) {
    || run.None?
    || (EvaluatedSource(run.value).None? && !NamesMainline(run.value))
    || (EvaluatedSource(run.value) == Some(sha)
        && (run.value.newest.None?
            || exists k :: 1 <= k < run.value.newest.value && EarlierAttempt(archive, run.value.databaseId, k).None?))
  }

  /** Attempt `a` of run `run`: its newest one or one it superseded. */
  ghost predicate AttemptOf(run: Run, archive: Archive, a: Attempt) {
    && run.newest.Some?
    && (a == Record(run, run.newest.value)
        || exists k :: 1 <= k < run.newest.value && EarlierAttempt(archive, run.databaseId, k) == Some(a))
  }

  /** The attempts a run contributes, newest first and then from the oldest on. */
  ghost function AttemptsOf(run: Run, archive: Archive): seq<Attempt>
    requires run.newest.Some?
    requires forall k :: 1 <= k < run.newest.value ==> EarlierAttempt(archive, run.databaseId, k).Some?
  {
    var earlier := if run.newest.value > 1 then run.newest.value - 1 else 0;
    [Record(run, run.newest.value)]
    + seq(earlier, k requires 0 <= k < earlier => EarlierAttempt(archive, run.databaseId, k + 1).value)
  }

  ghost function History(sha: string, runs: seq<Option<Run>>, archive: Archive): seq<Attempt>
    requires forall i :: 0 <= i < |runs| ==> !Hole(sha, runs[i], archive)
  {
    if runs == [] then []
    else
      var init, last := History(sha, runs[..|runs| - 1], archive), runs[|runs| - 1];
      assert !Hole(sha, last, archive);
      if EvaluatedSource(last.value) == Some(sha) then init + AttemptsOf(last.value, archive) else init
  }

  /** The attempts a run superseded, or nothing when one of them cannot be read. */
  method SupersededAttempts(run: Run, newest: int, archive: Archive) returns (r: Option<seq<Attempt>>)
    requires run.newest == Some(newest)
    ensures r.None? <==> exists k :: 1 <= k < newest && EarlierAttempt(archive, run.databaseId, k).None?
    ensures r.Some? ==> [Record(run, newest)] + r.value == AttemptsOf(run, archive)
  {
    var attempts: seq<Attempt> := [];
    var k := 1;
    while k < newest
      invariant 1 <= k && (k <= newest || k == 1) && |attempts| == k - 1
      invariant forall j :: 1 <= j < k ==> EarlierAttempt(archive, run.databaseId, j) == Some(attempts[j - 1])
    {
      var earlier := EarlierAttempt(archive, run.databaseId, k);
      if earlier.None? {
        return None;
      }
      attempts := attempts + [earlier.value];
      k := k + 1;
    }
    return Some(attempts);
  }

  /** `_gate_runs`: nothing when the listing leaves the history unknown, otherwise every attempt. */
  method GateRuns(sha: string, listing: Option<seq<Option<Run>>>, archive: Archive) returns (r: Option<seq<Attempt>>)
    ensures r.None? <==> listing.None? || exists run :: run in listing.value && Hole(sha, run, archive)
    ensures r.Some? ==> r.value == History(sha, listing.value, archive)
  {
    if listing.None? {
      return None;
    }
    var runs := listing.value;
    var attempts: seq<Attempt> := [];
    for i := 0 to |runs|
      invariant forall j :: 0 <= j < i ==> !Hole(sha, runs[j], archive)
      invariant attempts == History(sha, runs[..i], archive)
    {
      assert runs[i] in runs && runs[..i + 1][..i] == runs[..i];
      if runs[i].None? {
        return None;
      }
      var run := runs[i].value;
      var source := EvaluatedSource(run);
      if source.None? {
        if NamesMainline(run) {
          continue;
        }
        return None;
      }
      if source.value != sha {
        continue;
      }
      if run.newest.None? {
        return None;
      }
      var earlier := SupersededAttempts(run, run.newest.value, archive);
      if earlier.None? {
        return None;
      }
      Assoc(attempts, [Record(run, run.newest.value)], earlier.value);
      attempts := attempts + [Record(run, run.newest.value)] + earlier.value;
    }
    assert runs[..|runs|] == runs;
    assert forall run :: run in runs ==> !Hole(sha, run, archive);
    return Some(attempts);
  }
}
