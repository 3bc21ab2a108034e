/**
 scripts/check_workflow_action_runtime.py: the one-pass scan for job timeouts, against a description of
 the file as sections and job blocks.
 */
module WorkflowTimeouts {
  import opened Wrappers
  import opened Text

  const MAX_MINUTES := 60

  datatype Violation = Missing(job: string) | OutOfRange(job: string, minutes: nat)

  // ----- one line -----

  predicate IsJobChar(c: char) {
    'A' <= c <= 'Z' || 'a' <= c <= 'z' || IsDigit(c) || c == '_' || c == '-'
  }

  function LeadingRun(s: string, ok: char -> bool): (n: nat)
    ensures n <= |s| && (forall i :: 0 <= i < n ==> ok(s[i])) && (n < |s| ==> !ok(s[n]))
  {
    if s != "" && ok(s[0]) then 1 + LeadingRun(s[1..], ok) else 0
  }

  /** The job a heading line names: two spaces, the name, a colon, and nothing but space after it. */
  function Heading(line: string): (job: Option<string>)
    ensures job.Some? ==> " " <= line
  {
    if !("  " <= line) then None
    else
      var rest := line[2..];
      var n := LeadingRun(rest, IsJobChar);
      if n > 0 && n < |rest| && rest[n] == ':' && AllSpace(rest[n + 1..]) then Some(rest[..n]) else None
  }

  const TIMEOUT_KEY := "    timeout-minutes:"

  /** The minutes a job-level timeout line gives. */
  function Minutes(line: string): Option<nat> {
    if !(TIMEOUT_KEY <= line) then None
    else
      var text := Strip(line[|TIMEOUT_KEY|..]);
      if text != "" && AllDigits(text) then Some(NatValue(text)) else None
  }

  /** A line that ends a jobs section. */
  predicate Ends(line: string) {
    line != "" && !(" " <= line) && line != "jobs:"
  }

  // ----- the file as blocks -----

  /** Line `i` is read inside a jobs section. */
  ghost predicate InJobs(lines: seq<string>, i: nat)
    requires i <= |lines|
  {
    exists j :: 0 <= j < i && lines[j] == "jobs:" && forall k :: j < k < i ==> !Ends(lines[k])
  }

  ghost predicate IsJob(lines: seq<string>, i: nat)
    requires i < |lines|
  {
    InJobs(lines, i) && Heading(lines[i]).Some?
  }

  predicate Stops(line: string) {
    Ends(line) || Heading(line).Some?
  }

  /** The line after the block that starts at `i`: the next heading, the section's end, or the file's. */
  function BlockEnd(lines: seq<string>, i: nat): (e: nat)
    requires i < |lines|
    ensures i < e <= |lines| && (e < |lines| ==> Stops(lines[e])) && forall k :: i < k < e ==> !Stops(lines[k])
    decreases |lines| - i
  {
    if i + 1 == |lines| || Stops(lines[i + 1]) then i + 1 else BlockEnd(lines, i + 1)
  }

  /** The last timeout given on the lines from `i` up to `e`. */
  function LastMinutes(lines: seq<string>, i: nat, e: nat): Option<nat>
    requires i <= e <= |lines|
  {
    if i == e then None
    else if Minutes(lines[e - 1]).Some? then Minutes(lines[e - 1])
    else LastMinutes(lines, i, e - 1)
  }

  function Judge(job: string, minutes: Option<nat>): seq<Violation> {
    match minutes
    case None => [Missing(job)]
    case Some(m) => if m < 1 || m > MAX_MINUTES then [OutOfRange(job, m)] else []
  }

  /** What the block of the heading at `i` is reported for. */
  function JudgeBlock(lines: seq<string>, i: nat): seq<Violation>
    requires i < |lines| && Heading(lines[i]).Some?
  {
    Judge(Heading(lines[i]).value, LastMinutes(lines, i + 1, BlockEnd(lines, i)))
  }

  ghost function JudgeLine(lines: seq<string>, i: nat): seq<Violation>
    requires i < |lines|
  {
    if IsJob(lines, i) then JudgeBlock(lines, i) else []
  }

  /** The jobs that start before line `n`, each judged once, in order. */
  ghost function Report(lines: seq<string>, n: nat): seq<Violation>
    requires n <= |lines|
  {
    if n == 0 then [] else Report(lines, n - 1) + JudgeLine(lines, n - 1)
  }

  // ----- the scan -----

  lemma SectionStep(lines: seq<string>, i: nat)
    requires i < |lines|
    ensures InJobs(lines, i + 1) <==> lines[i] == "jobs:" || (InJobs(lines, i) && !Ends(lines[i]))
  {
    hide Ends;
    if InJobs(lines, i + 1) && lines[i] != "jobs:" {
      var j :| 0 <= j < i + 1 && lines[j] == "jobs:" && forall k :: j < k < i + 1 ==> !Ends(lines[k]);
      assert j < i;
    }
  }

  lemma {:induction false} NothingReported(lines: seq<string>, m: nat, n: nat)
    requires m <= n <= |lines| && forall k :: m <= k < n ==> !IsJob(lines, k)
    ensures Report(lines, n) == Report(lines, m)
  {
    if m < n {
      NothingReported(lines, m, n - 1);
    }
  }

  lemma EndOfBlock(lines: seq<string>, i: nat, e: nat)
    requires i < e <= |lines| && (e < |lines| ==> Stops(lines[e])) && forall k :: i < k < e ==> !Stops(lines[k])
    ensures BlockEnd(lines, i) == e
  {
    hide Stops;
  }

  /** The open job, closed at line `e`, is the one block still missing from the report. */
  lemma CloseBlock(lines: seq<string>, h: nat, e: nat)
    requires h < e <= |lines| && IsJob(lines, h) && (e < |lines| ==> Stops(lines[e]))
    requires forall k :: h < k < e ==> !Stops(lines[k])
    ensures Report(lines, e) == Report(lines, h) + Judge(Heading(lines[h]).value, LastMinutes(lines, h + 1, e))
  {
    hide InJobs, Heading, Minutes, LastMinutes, Judge;
    EndOfBlock(lines, h, e);
    NothingReported(lines, h + 1, e);
  }

  /** `find_workflow_job_timeout_violations`, on the lines of one file. */
  method FindTimeoutViolations(lines: seq<string>) returns (violations: seq<Violation>)
    ensures violations == Report(lines, |lines|)
  {
    hide Heading, Minutes, Judge, LastMinutes, BlockEnd, Report, InJobs;
    assert Report(lines, 0) == [] && !InJobs(lines, 0) by { Start(lines); }
    violations := [];
    var job: Option<string>, minutes: Option<nat>, inJobs := None, None, false;
    ghost var h: nat := 0;
    for i := 0 to |lines|
      invariant inJobs <==> InJobs(lines, i)
      invariant job.Some? ==> inJobs && h < i && IsJob(lines, h) && job == Heading(lines[h])
      invariant job.Some? ==> minutes == LastMinutes(lines, h + 1, i) && forall k :: h < k < i ==> !Stops(lines[k])
      invariant violations == Report(lines, if job.Some? then h else i)
    {
      var line := lines[i];
      SectionStep(lines, i);
      Unfold(lines, i, h);
      if line == "jobs:" {
        inJobs := true;
        continue;
      }
      if !inJobs {
        continue;
      }
      if line != "" && !(" " <= line) {
        if job.Some? {
          CloseBlock(lines, h, i);
          violations := violations + Judge(job.value, minutes);
        }
        job, minutes, inJobs := None, None, false;
        continue;
      }
      if Heading(line).Some? {
        if job.Some? {
          CloseBlock(lines, h, i);
          violations := violations + Judge(job.value, minutes);
        }
        job, minutes := Heading(line), None;
        h := i;
        continue;
      }
      if Minutes(line).Some? && job.Some? {
        minutes := Minutes(line);
      }
    }
    if job.Some? {
      CloseBlock(lines, h, |lines|);
      violations := violations + Judge(job.value, minutes);
    }
  }

  lemma Start(lines: seq<string>)
    ensures Report(lines, 0) == [] && !InJobs(lines, 0)
  {}

  lemma Unfold(lines: seq<string>, i: nat, h: nat)
    requires i < |lines|
    ensures !IsJob(lines, i) ==> Report(lines, i + 1) == Report(lines, i)
    ensures h < i ==> (LastMinutes(lines, h + 1, i + 1) ==
      if Minutes(lines[i]).Some? then Minutes(lines[i]) else LastMinutes(lines, h + 1, i))
    ensures LastMinutes(lines, i + 1, i + 1) == None
    ensures Minutes("jobs:").None? && Heading("jobs:").None?
  {
    assert "jobs:"[0] != ' ';
  }

  // ----- what the report says -----

  ghost predicate TimeoutInRange(lines: seq<string>, i: nat)
    requires i < |lines|
  {
    var minutes := LastMinutes(lines, i + 1, BlockEnd(lines, i));
    minutes.Some? && 1 <= minutes.value <= 60
  }

  ghost function JobsOutOfRange(lines: seq<string>, n: nat): set<nat>
    requires n <= |lines|
  {
    set i: nat | i < n && IsJob(lines, i) && !TimeoutInRange(lines, i)
  }

  lemma JudgedOnce(lines: seq<string>, i: nat)
    requires i < |lines|
    ensures |JudgeLine(lines, i)| == if IsJob(lines, i) && !TimeoutInRange(lines, i) then 1 else 0
  {
    hide InJobs, Heading, BlockEnd, LastMinutes;
  }

  lemma OutOfRangeStep(lines: seq<string>, n: nat)
    requires 0 < n <= |lines|
    ensures JobsOutOfRange(lines, n) == JobsOutOfRange(lines, n - 1)
      + if IsJob(lines, n - 1) && !TimeoutInRange(lines, n - 1) then {n - 1} else {}
  {
    hide IsJob, TimeoutInRange;
  }

  /** There is one violation for each job whose last timeout is absent or out of range, and no other. */
  lemma {:induction false} OneViolationPerJob(lines: seq<string>, n: nat)
    requires n <= |lines|
    ensures |Report(lines, n)| == |JobsOutOfRange(lines, n)|
  {
    hide IsJob, TimeoutInRange, JudgeLine;
    if n == 0 {
      assert JobsOutOfRange(lines, n) == {};
    } else {
      OneViolationPerJob(lines, n - 1);
      OutOfRangeStep(lines, n);
      JudgedOnce(lines, n - 1);
    }
  }

  /** A file is clean exactly when every job's last timeout lies in range. */
  lemma CleanExactly(lines: seq<string>)
    ensures Report(lines, |lines|) == [] <==>
      forall i :: 0 <= i < |lines| && IsJob(lines, i) ==> TimeoutInRange(lines, i)
  {
    hide IsJob, TimeoutInRange, Report;
    OneViolationPerJob(lines, |lines|);
    assert JobsOutOfRange(lines, |lines|) == {} <==>
      forall i :: 0 <= i < |lines| && IsJob(lines, i) ==> i !in JobsOutOfRange(lines, |lines|);
  }

  // ----- the lines that count -----

  lemma {:induction false} RunIs(s: string, ok: char -> bool, n: nat)
    requires n <= |s| && (forall i :: 0 <= i < n ==> ok(s[i])) && (n < |s| ==> !ok(s[n]))
    ensures LeadingRun(s, ok) == n
  {
    if n > 0 {
      RunIs(s[1..], ok, n - 1);
    }
  }

  ghost predicate HeadingOf(line: string, job: string, tail: string) {
    && line == "  " + job + ":" + tail && AllSpace(tail)
    && job != "" && forall i :: 0 <= i < |job| ==>
         'A' <= job[i] <= 'Z' || 'a' <= job[i] <= 'z' || '0' <= job[i] <= '9' || job[i] == '_' || job[i] == '-'
  }

  /** A heading is two spaces, a name of letters, digits, `_` and `-`, a colon, and nothing more to see. */
  lemma HeadingExactly(line: string, job: string)
    ensures Heading(line) == Some(job) <==> exists tail :: HeadingOf(line, job, tail)
  {
    hide LeadingRun, AllSpace;
    if tail :| HeadingOf(line, job, tail) {
      var rest := line[2..];
      assert line[..2] == "  " && rest == job + ":" + tail;
      assert forall i :: 0 <= i < |job| ==> rest[i] == job[i];
      assert rest[|job|] == ':' && rest[..|job|] == job && rest[|job| + 1..] == tail;
      RunIs(rest, IsJobChar, |job|);
    }
    if Heading(line) == Some(job) {
      var rest := line[2..];
      var tail := rest[|job| + 1..];
      assert rest == job + ":" + tail;
      assert line == "  " + rest;
      assert HeadingOf(line, job, tail);
    }
  }

  ghost predicate MinutesOf(line: string, n: nat, before: string, digits: string, after: string) {
    && line == "    timeout-minutes:" + (before + digits + after) && AllSpace(before) && AllSpace(after)
    && digits != "" && AllDigits(digits) && NatValue(digits) == n
  }

  /** A timeout is four spaces, its key, and digits between whitespace. */
  lemma MinutesExactly(line: string, n: nat)
    ensures Minutes(line) == Some(n) <==> exists before, digits, after :: MinutesOf(line, n, before, digits, after)
  {
    hide Strip, NatValue, AllSpace;
    if before, digits, after :| MinutesOf(line, n, before, digits, after) {
      var text := before + digits + after;
      assert line[|TIMEOUT_KEY|..] == text;
      DigitsAreStripped(digits);
      StripExactly(text, digits);
      assert Surrounds(before, digits, after, text);
    }
    if Minutes(line) == Some(n) {
      var text := line[|TIMEOUT_KEY|..];
      StripExactly(text, Strip(text));
      var before, after :| Surrounds(before, Strip(text), after, text);
      assert line == TIMEOUT_KEY + text;
      assert MinutesOf(line, n, before, Strip(text), after);
    }
  }

  lemma DigitsAreStripped(digits: string)
    requires AllDigits(digits)
    ensures IsStripped(digits)
  {
    if digits != "" {
      assert IsDigit(digits[0]) && IsDigit(digits[|digits| - 1]);
    }
  }

  // ----- sections are judged apart -----

  lemma {:induction false} BlockEndWithin(a: seq<string>, b: seq<string>, i: nat)
    requires i < |a| && b != [] && Ends(b[0])
    ensures BlockEnd(a + b, i) == BlockEnd(a, i)
  {
    var e := BlockEnd(a, i);
    hide Ends, Stops;
    assert e < |a| ==> (a + b)[e] == a[e];
    assert e == |a| ==> (a + b)[e] == b[0] && Stops(b[0]) by {
      EndsStops(b[0]);
    }
    forall k | i < k < e ensures !Stops((a + b)[k]) {
      assert (a + b)[k] == a[k];
    }
    EndOfBlock(a + b, i, e);
  }

  lemma EndsStops(line: string)
    ensures Ends(line) ==> Stops(line) && Heading(line).None?
  {}

  lemma {:induction false} SameMinutes(xs: seq<string>, ys: seq<string>, shift: int, i: nat, e: nat)
    requires i <= e <= |xs| && 0 <= i + shift && e + shift <= |ys|
    requires forall k :: i <= k < e ==> ys[k + shift] == xs[k]
    ensures LastMinutes(ys, i + shift, e + shift) == LastMinutes(xs, i, e)
  {
    if i < e {
      assert ys[(e - 1) + shift] == xs[e - 1];
      SameMinutes(xs, ys, shift, i, e - 1);
    }
  }

  lemma InJobsBefore(a: seq<string>, b: seq<string>, i: nat)
    requires i <= |a|
    ensures InJobs(a + b, i) <==> InJobs(a, i)
  {
    hide Ends;
    var ab := a + b;
    assert forall k :: 0 <= k < |a| ==> ab[k] == a[k];
  }

  lemma SameBefore(a: seq<string>, b: seq<string>, i: nat)
    requires i < |a| && b != [] && Ends(b[0])
    ensures JudgeLine(a + b, i) == JudgeLine(a, i)
  {
    hide Ends, InJobs, Heading, Minutes, BlockEnd, LastMinutes, Judge, Stops;
    InJobsBefore(a, b, i);
    assert (a + b)[i] == a[i];
    if IsJob(a, i) {
      BlockEndWithin(a, b, i);
      SameMinutes(a, a + b, 0, i + 1, BlockEnd(a, i));
    }
  }

  lemma InJobsAfter(a: seq<string>, b: seq<string>, i: nat)
    requires 0 < i < |b| && Ends(b[0])
    ensures InJobs(a + b, |a| + i) <==> InJobs(b, i)
  {
    var ab, n := a + b, |a|;
    hide Ends;
    assert ab[n] == b[0];
    if InJobs(ab, n + i) {
      var j :| 0 <= j < n + i && ab[j] == "jobs:" && forall k :: j < k < n + i ==> !Ends(ab[k]);
      assert j >= n;
      forall k | j - n < k < i ensures !Ends(b[k]) {
        assert ab[n + k] == b[k];
      }
      assert b[j - n] == "jobs:";
    }
    if InJobs(b, i) {
      var j :| 0 <= j < i && b[j] == "jobs:" && forall k :: j < k < i ==> !Ends(b[k]);
      assert ab[n + j] == "jobs:";
      forall k | n + j < k < n + i ensures !Ends(ab[k]) {
        assert ab[k] == b[k - n];
      }
    }
  }

  lemma BlockEndAfter(a: seq<string>, b: seq<string>, i: nat)
    requires i < |b|
    ensures BlockEnd(a + b, |a| + i) == |a| + BlockEnd(b, i)
  {
    hide Stops;
    var ab, n, e := a + b, |a|, BlockEnd(b, i);
    forall k | n + i < k < n + e ensures !Stops(ab[k]) {
      assert ab[k] == b[k - n];
    }
    assert e < |b| ==> ab[n + e] == b[e];
    EndOfBlock(ab, n + i, n + e);
  }

  lemma MinutesAfter(a: seq<string>, b: seq<string>, i: nat, e: nat)
    requires i <= e <= |b|
    ensures LastMinutes(a + b, |a| + i, |a| + e) == LastMinutes(b, i, e)
  {
    hide LastMinutes;
    assert forall k :: i <= k < e ==> (a + b)[k + |a|] == b[k];
    SameMinutes(b, a + b, |a|, i, e);
  }

  lemma SameAfter(a: seq<string>, b: seq<string>, i: nat)
    requires i < |b| && Ends(b[0])
    ensures JudgeLine(a + b, |a| + i) == JudgeLine(b, i)
  {
    hide Ends, InJobs, Heading, Minutes, BlockEnd, LastMinutes, Judge, Stops;
    EndsStops(b[0]);
    assert (a + b)[|a| + i] == b[i];
    if i > 0 {
      InJobsAfter(a, b, i);
      BlockEndAfter(a, b, i);
      MinutesAfter(a, b, i + 1, BlockEnd(b, i));
    }
  }

  lemma {:induction false} ReportBefore(a: seq<string>, b: seq<string>, n: nat)
    requires n <= |a| && b != [] && Ends(b[0])
    ensures Report(a + b, n) == Report(a, n)
  {
    hide JudgeLine, Ends;
    if n > 0 {
      ReportBefore(a, b, n - 1);
      SameBefore(a, b, n - 1);
    }
  }

  lemma {:induction false} ReportAfter(a: seq<string>, b: seq<string>, n: nat)
    requires n <= |b| && b != [] && Ends(b[0])
    ensures Report(a + b, |a| + n) == Report(a, |a|) + Report(b, n)
  {
    hide JudgeLine, Ends;
    if n == 0 {
      ReportBefore(a, b, |a|);
    } else {
      ReportAfter(a, b, n - 1);
      SameAfter(a, b, n - 1);
      Assoc(Report(a, |a|), Report(b, n - 1), JudgeLine(b, n - 1));
    }
  }

  /** What follows a line that ends a section is judged on its own. */
  lemma SectionsAreJudgedApart(a: seq<string>, b: seq<string>)
    requires b != [] && Ends(b[0])
    ensures Report(a + b, |a + b|) == Report(a, |a|) + Report(b, |b|)
  {
    hide Report, Ends;
    assert |a + b| == |a| + |b|;
    ReportAfter(a, b, |b|);
  }
}
