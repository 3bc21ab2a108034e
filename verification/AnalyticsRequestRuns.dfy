/**
 Whole requests told from the replies and the times alone (src/app/clients/lotus_analytics_client.py):
 what becomes of a submission that is answered in time, too late, or not at all.
 */
module AnalyticsRequestRuns {
  import opened Wrappers
  import opened RetryEngine
  import opened ExecutionBudget
  import opened AnalyticsPolling
  import opened AnalyticsPollingRuns
  import opened AnalyticsRequest

  /** What the gateway says for itself when the time is up. */
  const TOO_LATE: Payload := map[
    "detail" := Text("analytics result did not complete within the governed Gateway deadline"),
    "error_code" := Text("ASYNC_RESULT_DEADLINE_EXHAUSTED"),
    "state" := Text("degraded"),
    "reason" := Text("async_poll_deadline_exhausted")]

  /** The submission's reply is there at `at`, before any timer ends it. */
  ghost predicate Arrives(r: Request, now: real, submit: Answer, at: real) {
    && at == now + submit.latency + submit.lag
    && (r.timeout.Some? ==> 0.0 < r.timeout.value && submit.latency <= r.timeout.value)
  }

  ghost predicate TooLate(r: Request, now: real, at: real) {
    r.timeout.Some? && at >= now + r.timeout.value
  }

  /** A reply that starts no polling: anything but a 202 that names a result path. */
  ghost predicate IsFinal(reply: Reply<Payload>) {
    match reply
    case Response(status, payload) => status != 202 || AsyncResultPath(202, payload).None?
    case Failed(_) => true
  }

  lemma SubmissionIs(r: Request, now: real, submit: Answer, sent: nat, at: real)
    requires Stops(SubmitSettings(r.client, FromTimeout(r.timeout, now)), submit.replies, sent)
    requires Arrives(r, now, submit, at)
    ensures sent >= 1
    ensures var b, o := FromTimeout(r.timeout, now), Settled(submit.replies(sent - 1).reply);
      Submission(r.client, b, now, submit)
        == (Admitted(r.client, if TooLate(r, now, at) && o.status != 504 then SubmissionDeadline(Some(o)) else o), at)
  {
    hide Stops, Settled, SubmissionDeadline, Repeats, SubmitSettings;
    var s := SubmitSettings(r.client, FromTimeout(r.timeout, now));
    AtLeastOne(s, submit.replies, sent);
    SentFrom(s, submit.replies, sent, 0);
  }

  /** A final answer that arrives in time is the caller's answer. */
  lemma FinalAnswerIsReturned(
      r: Request, c: Context, now: real, submit: Answer, answers: seq<Answer>, sent: nat, at: real)
    requires Stops(SubmitSettings(r.client, FromTimeout(r.timeout, now)), submit.replies, sent) && sent >= 1
    requires Arrives(r, now, submit, at) && !TooLate(r, now, at) && IsFinal(submit.replies(sent - 1).reply)
    requires c.client == r.client
    ensures Post(r, now, submit, answers) == Finished(SeenAs(c, submit.replies(sent - 1).reply), at, 0)
  {
    SubmissionIs(r, now, submit, sent, at);
    hide Stops, Submission, PollRun, SubmissionDeadline;
  }

  /** A submission the timer ends, or that has no time at all, is answered by the gateway alone. */
  lemma UnansweredSubmission(r: Request, now: real, submit: Answer, answers: seq<Answer>)
    requires r.timeout.Some? && (r.timeout.value <= 0.0 || submit.latency > r.timeout.value)
    ensures Post(r, now, submit, answers) == Finished(
      HttpResult(504, TOO_LATE), if r.timeout.value <= 0.0 then now else now + r.timeout.value + submit.lag, 0)
  {
    hide PollRun, RunOutcome;
  }

  /** An answer that is there too late counts only as a 504 of its own, or for the path it accepted. */
  lemma LateAnswer(r: Request, now: real, submit: Answer, answers: seq<Answer>, sent: nat, at: real)
    requires Stops(SubmitSettings(r.client, FromTimeout(r.timeout, now)), submit.replies, sent) && sent >= 1
    requires Arrives(r, now, submit, at) && TooLate(r, now, at)
    ensures Post(r, now, submit, answers) == Finished(
      match submit.replies(sent - 1).reply
      case Response(status, payload) =>
        if status == 504 then HttpResult(504, payload)
        else if status == 202 then HttpResult(504, Kept(payload))
        else HttpResult(504, TOO_LATE)
      case Failed(_) => HttpResult(504, TOO_LATE), at, 0)
  {
    SubmissionIs(r, now, submit, sent, at);
    hide Stops, Submission, PollRun, AsyncResultPath, CalculationId;
  }

  /** What is kept of an acceptance: where its result will be, and the calculation it named. */
  ghost function Kept(accepted: Payload): Payload {
    var path, id := AsyncResultPath(202, accepted), CalculationId(Some(accepted));
    var located := if path.Some? then TOO_LATE["result_path" := Text(path.value)] else TOO_LATE;
    if id.Some? then located["calculation_id" := Text(id.value)] else located
  }

  /** A 202 in time that names a path leads to polling it, or is refused when the path is foreign. */
  lemma AcceptanceIsPolled(
      r: Request, now: real, submit: Answer, answers: seq<Answer>, sent: nat, at: real, payload: Payload, path: string)
    requires Stops(SubmitSettings(r.client, FromTimeout(r.timeout, now)), submit.replies, sent) && sent >= 1
    requires Arrives(r, now, submit, at) && !TooLate(r, now, at)
    requires submit.replies(sent - 1).reply == Response(202, payload) && AsyncResultPath(202, payload) == Some(path)
    ensures Post(r, now, submit, answers) ==
      if r.client.callerHeaders && !r.sameOrigin(path) then
        Finished(HttpResult(502, map[
          "detail" := Text("Analytics result target is outside the configured source.")]), at, 0)
      else
        var deadline := match r.timeout { case None => None case Some(seconds) => Some(now + seconds) };
        PollRun(Context(r.client, path, Budget(deadline), Some(payload), r.attempts, r.interval),
                at, submit.sleepLag, answers)
  {
    SubmissionIs(r, now, submit, sent, at);
    hide Stops, Submission, PollRun, AsyncResultPath, SubmissionDeadline;
  }
}
