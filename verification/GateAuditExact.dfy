/**
 The tables of scripts/audit_main_gate_coverage.py spelled out: which source a run counts for, what
 makes one attempt later than another, and when a commit has no verdict.
 */
module GateAuditExact {
  import opened Wrappers
  import opened Text
  import opened Sorting
  import opened GateAudit
  import opened GateAuditLaws

  // ----- the source of a run -----

  /** Forty lower-case hexadecimal digits. */
  ghost predicate FullRevision(s: string) {
    |s| == 40 && forall i :: 0 <= i < 40 ==> s[i] in "0123456789abcdef"
  }

  lemma HexDigit(c: char)
    ensures c in "0123456789abcdef" <==> '0' <= c <= '9' || 'a' <= c <= 'f'
  {
    var hex := "0123456789abcdef";
    if '0' <= c <= '9' {
      assert hex[c as int - '0' as int] == c;
    } else if 'a' <= c <= 'f' {
      assert hex[10 + (c as int - 'a' as int)] == c;
    }
  }

  lemma RevisionExactly(s: string)
    ensures IsSha(s) <==> FullRevision(s)
  {
    forall i | 0 <= i < |s| ensures s[i] in "0123456789abcdef" <==> '0' <= s[i] <= '9' || 'a' <= s[i] <= 'f' {
      HexDigit(s[i]);
    }
  }

  /** `Main Releasability ·`, as it is or as UTF-8 read byte by byte. */
  ghost predicate MainlineTitle(title: string) {
    "Main Releasability \U{00b7} " <= title || "Main Releasability \U{00c2}\U{00b7} " <= title
  }

  /** The title is that of a mainline run, and names the source. */
  ghost predicate TitleNames(title: string, sha: string) {
    title == "Main Releasability \U{00b7} " + sha || title == "Main Releasability \U{00c2}\U{00b7} " + sha
  }

  lemma TitlesDiffer(title: string)
    ensures TITLE_PREFIX == "Main Releasability \U{00b7} " && GARBLED_PREFIX == "Main Releasability \U{00c2}\U{00b7} "
    ensures TITLE_PREFIX <= title ==> !(GARBLED_PREFIX <= title)
  {
    assert TITLE_PREFIX[|TITLE|] == DOT && GARBLED_PREFIX[|TITLE|] == 0xC2 as char;
  }

  /**
   A mainline run counts for the source its title names, when it ran on the main branch; any other run
   for the revision it was started on.
   */
  lemma SourceExactly(run: Run, sha: string)
    ensures EvaluatedSource(run) == Some(sha) <==>
      && FullRevision(sha)
      && if MainlineTitle(run.displayTitle) then run.headBranch == "main" && TitleNames(run.displayTitle, sha)
         else run.headSha == sha
  {
    hide IsSha, FullRevision;
    var title := run.displayTitle;
    TitlesDiffer(title);
    RevisionExactly(sha);
    RevisionExactly(run.headSha);
    if TITLE_PREFIX <= title {
      RestOfTitle(title, TITLE_PREFIX, sha);
      assert !(GARBLED_PREFIX <= title) ==> title != GARBLED_PREFIX + sha;
    } else if GARBLED_PREFIX <= title {
      RestOfTitle(title, GARBLED_PREFIX, sha);
      assert title != TITLE_PREFIX + sha;
    }
  }

  lemma RestOfTitle(title: string, prefix: string, sha: string)
    requires prefix <= title
    ensures title[|prefix|..] == sha <==> title == prefix + sha
  {
    assert title == prefix + title[|prefix|..];
    assert (prefix + sha)[|prefix|..] == sha;
  }

  /** Off the main branch a mainline title counts for no commit: every history is as it is without that run. */
  lemma TitleOffMain(sha: string, xs: seq<Option<Run>>, run: Run, ys: seq<Option<Run>>, archive: Archive)
    requires MainlineTitle(run.displayTitle) && run.headBranch != "main"
    ensures EvaluatedSource(run) == None
    ensures Readable(sha, xs + ([Some(run)] + ys), archive) <==> Readable(sha, xs + ys, archive)
    ensures Readable(sha, xs + ys, archive) ==>
      History(sha, xs + ([Some(run)] + ys), archive) == History(sha, xs + ys, archive)
  {
    hide History, Hole, IsSha;
    TitlesDiffer(run.displayTitle);
    UnprovenTitleIsSkipped(sha, xs, run, ys, archive);
  }

  /** What is recorded of an attempt: the run's own fields for the newest, the archive's for the others. */
  lemma AttemptExactly(run: Run, archive: Archive, a: Attempt)
    ensures AttemptOf(run, archive, a) <==>
      && run.newest.Some? && a.databaseId == run.databaseId
      && ((a.attempt == IntText(run.newest.value) && RanAs(a, run.conclusion, run.status, run.startedAt))
          || exists k :: 1 <= k < run.newest.value && ArchivedAs(run, archive, a, k))
  {
    if run.newest.Some? {
      forall k ensures EarlierAttempt(archive, run.databaseId, k) == Some(a) <==>
        a.databaseId == run.databaseId && ArchivedAs(run, archive, a, k) {}
    }
  }

  ghost predicate RanAs(a: Attempt, conclusion: string, status: string, startedAt: string) {
    a.conclusion == conclusion && a.status == status && a.startedAt == startedAt
  }

  ghost predicate ArchivedAs(run: Run, archive: Archive, a: Attempt, k: int) {
    && a.attempt == IntText(k) && archive(run.databaseId, k).Some?
    && var s := archive(run.databaseId, k).value; RanAs(a, s.conclusion, s.status, s.startedAt)
  }

  // ----- later and earlier -----

  /** Attempts come by start time; then by run number, and then by attempt number. */
  lemma LaterExactly(a: Attempt, b: Attempt, run: nat, otherRun: nat, number: nat, otherNumber: nat)
    requires a.databaseId == NatText(run) && b.databaseId == NatText(otherRun) && |NatText(run)| <= 24
    requires a.attempt == NatText(number) && b.attempt == NatText(otherNumber) && |NatText(otherRun)| <= 24
    requires |NatText(number)| <= 6 && |NatText(otherNumber)| <= 6
    ensures NotLater(a, b) <==>
      if a.startedAt != b.startedAt then TextLe(a.startedAt, b.startedAt)
      else run < otherRun || (run == otherRun && number <= otherNumber)
  {
    hide NatText, TextLe, RJust;
    PaddedOrder(run, otherRun, 24);
    PaddedOrder(number, otherNumber, 6);
    if RJust(a.databaseId, 24) == RJust(b.databaseId, 24) {
      PaddingInjective(run, otherRun, 24);
    }
  }

  // ----- commits without a verdict -----

  /** The run ended with a verdict, one way or the other. */
  ghost predicate Decided(a: Attempt) {
    a.conclusion == "success" || Failed(a)
  }

  ghost predicate Failed(a: Attempt) {
    a.conclusion == "failure" || a.conclusion == "timed_out" || a.conclusion == "startup_failure"
  }

  ghost predicate Unfinished(a: Attempt) {
    || a.status == "queued" || a.status == "in_progress" || a.status == "waiting"
    || a.status == "requested" || a.status == "pending"
  }

  lemma VerdictsExactly(a: Attempt)
    ensures IsVerdict(a) <==> Decided(a)
    ensures IsFailure(a) <==> Failed(a)
    ensures a.status in PENDING <==> Unfinished(a)
  {}

  lemma NoVerdicts(attempts: seq<Attempt>)
    requires forall a :: a in attempts ==> !IsVerdict(a)
    ensures var ordered := OldestFirst(attempts);
      && (forall a :: a in ordered <==> a in attempts)
      && Filter(attempts, IsUndated) == [] && Filter(ordered, IsVerdict) == []
      && (ordered == [] <==> attempts == [])
  {
    hide NotLater;
    NotLaterTotal();
    SortBySorts(attempts, NotLater);
    SameMembers(attempts, OldestFirst(attempts));
    FilterEmpty(attempts, IsUndated);
    FilterEmpty(OldestFirst(attempts), IsVerdict);
  }

  /**
   A commit with attempts and no verdict is unverifiable. While an attempt is unfinished the statuses
   of the unfinished ones are given; otherwise what each attempt came to.
   */
  lemma WithoutVerdictExactly(attempts: seq<Attempt>)
    requires attempts != [] && forall a :: a in attempts ==> !Decided(a)
    ensures Classify(Some(attempts)) == Unverifiable(
      if exists a :: a in attempts && Unfinished(a)
      then StillRunning(SortedSet(set a | a in attempts && Unfinished(a) :: a.status))
      else WithoutVerdict(SortedSet(set a | a in attempts :: if a.conclusion != "" then a.conclusion else a.status)))
  {
    hide OldestFirst, SortedSet, IsVerdict, Decided;
    forall a | a in attempts ensures !IsVerdict(a) {
      VerdictsExactly(a);
    }
    NoVerdicts(attempts);
    var ordered := OldestFirst(attempts);
    var pending := set a | a in ordered && a.status in PENDING :: a.status;
    assert pending == set a | a in attempts && Unfinished(a) :: a.status by {
      forall a: Attempt ensures a.status in PENDING <==> Unfinished(a) {
        VerdictsExactly(a);
      }
    }
    assert (set a | a in ordered :: if a.conclusion != "" then a.conclusion else a.status)
      == set a | a in attempts :: if a.conclusion != "" then a.conclusion else a.status;
    if a :| a in attempts && Unfinished(a) {
      assert a.status in pending;
    }
  }

  /** A verdict without a date makes the whole commit unverifiable, however many others there are. */
  lemma UndatedExactly(attempts: seq<Attempt>)
    ensures Classify(Some(attempts)).Unverifiable? && Classify(Some(attempts)).reason.Undated?
      <==> exists a :: a in attempts && Decided(a) && a.startedAt == ""
    ensures Classify(Some(attempts)).Unverifiable? && Classify(Some(attempts)).reason.Undated? ==>
      Classify(Some(attempts)).reason.count == |Filter(attempts, IsUndated)|
  {
    hide OldestFirst, SortedSet, IsVerdict;
    FilterEmpty(attempts, IsUndated);
    forall a | a in attempts ensures IsVerdict(a) <==> Decided(a) {
      VerdictsExactly(a);
    }
    hide Decided;
    if a :| a in attempts && Decided(a) && a.startedAt == "" {
      assert IsUndated(a);
    }
  }
}
