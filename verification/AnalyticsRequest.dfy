/**
 Submission and polling together, as src/app/clients/lotus_analytics_client.py runs them: one
 budget covers the submission and every result read.
 */
module AnalyticsRequest {
  import opened Wrappers
  import opened RetryEngine
  import opened ExecutionBudget
  import opened AnalyticsPolling

  /** A request: its client, its limits, and whether a result path lies on the configured origin. */
  datatype Request = Request(
    client: Client,
    attempts: Option<int>,
    interval: real,
    timeout: Option<real>,
    sameOrigin: string -> bool)

  predicate Truthy(v: Value) {
    match v
    case Text(s) => s != ""
    case Number(x) => x != 0.0
    case NotFinite => true
    case Truth(b) => b
    case Other(truthy) => truthy
  }

  predicate Given(payload: Payload, key: string) {
    key in payload && Truthy(payload[key])
  }

  predicate Says(payload: Payload, key: string, text: string) {
    key in payload && payload[key] == Text(text)
  }

  /** `_async_result_path`: `result_path or resultPath`, if that is a non-empty string. */
  function AsyncResultPath(status: int, payload: Payload): (path: Option<string>)
    ensures path.Some? ==> status == 202 && path.value != ""
    ensures forall p :: path == Some(p) <==>
      && status == 202 && p != ""
      && if Given(payload, "result_path") then Says(payload, "result_path", p) else Says(payload, "resultPath", p)
  {
    if status != 202 then None
    else
      var key := if Given(payload, "result_path") then "result_path" else "resultPath";
      if key in payload && payload[key].Text? && payload[key].text != "" then Some(payload[key].text) else None
  }

  /** `_submission_deadline_outcome`: what is kept of an acceptance that came too late. */
  function SubmissionDeadline(accepted: Option<Outcome<Payload>>): Outcome<Payload> {
    if accepted.Some? && accepted.value.status == 202 then
      var payload := PayloadOf(accepted.value);
      Outcome(504, Some(DeadlinePayload(AsyncResultPath(202, payload), Some(payload))), None)
    else Outcome(504, Some(DeadlinePayload(None, None)), None)
  }

  function SubmitSettings(client: Client, b: Budget): Settings {
    RequestSettings(None, false, true, Some(!client.callerHeaders),
                    b.RequestMaxRetries(client.maxRetries), client.backoff)
  }

  /** Submissions repeat no timeout and polls repeat them only without a deadline; neither repeats a status. */
  lemma RequestSettingsAre(client: Client, b: Budget, c: Context)
    ensures SubmitSettings(client, b) ==
      Settings(None, false, true, !client.callerHeaders,
        if b.deadlineAt.Some? then 0 else client.maxRetries, client.backoff)
    ensures PollSettings(c) ==
      Settings(None, c.budget.deadlineAt.None?, true, !c.client.callerHeaders,
               if c.budget.deadlineAt.Some? then 0 else c.client.maxRetries, c.client.backoff)
  {}

  /** A submission is never sent again after a timeout, whatever the budget. */
  lemma SubmissionStopsAtTimeout(client: Client, b: Budget, replies: nat -> Attempt<Payload>, sent: nat, i: nat)
    requires Stops(SubmitSettings(client, b), replies, sent) && i < sent
    requires replies(i).reply in {
      Failed(ConnectTimeout), Failed(ReadTimeout), Failed(WriteTimeout), Failed(PoolTimeout)}
    ensures i == sent - 1
  {
    TimeoutEndsTheRun(SubmitSettings(client, b), replies, sent, i);
  }

  /** `_post_observed_analytics_request`: the outcome of the submission, and when it was known. */
  function Submission(client: Client, b: Budget, now: real, a: Answer): (Outcome<Payload>, real) {
    match b.RunRequest(now, a.latency, a.lag)
    case Exceeded(at) => (Admitted(client, SubmissionDeadline(None)), at)
    case Delivered(at) =>
      var o := RunOutcome(SubmitSettings(client, b), a.replies);
      (Admitted(client, if b.IsExpired(at) && o.status != 504 then SubmissionDeadline(Some(o)) else o), at)
  }

  const REFUSED_TARGET: Payload :=
    map["detail" := Text("Analytics result target is outside the configured source.")]

  function PollContext(r: Request, b: Budget, path: string, accepted: Payload): Context {
    Context(r.client, path, b, Some(accepted), r.attempts, r.interval)
  }

  /** `_post_analytics_request`, started at `now`. The first answer is the submission's. */
  function Post(r: Request, now: real, submit: Answer, answers: seq<Answer>): Run {
    var b := FromTimeout(r.timeout, now);
    var (o, at) := Submission(r.client, b, now, submit);
    match AsyncResultPath(o.status, PayloadOf(o))
    case None => Finished(AsResult(o), at, 0)
    case Some(path) =>
      if r.client.callerHeaders && !r.sameOrigin(path) then Finished(HttpResult(502, REFUSED_TARGET), at, 0)
      else PollRun(PollContext(r, b, path, PayloadOf(o)), at, submit.sleepLag, answers)
  }

  /** The same request with the source's own steps: submit, look for a result path, then poll. */
  method PostAnalyticsRequest(r: Request, now: real, submit: Answer, answers: seq<Answer>)
    returns (run: Run, submissions: nat)
    ensures run == Post(r, now, submit, answers)
    ensures r.timeout.Some? ==> submissions == if r.timeout.value > 0.0 then 1 else 0
    ensures submissions <= RetryAttempts(r.client.maxRetries)
  {
    hide PollRun, DeadlinePayload, AsyncResultPath;
    var b := FromTimeout(r.timeout, now);
    var at := now;
    var outcome: Outcome<Payload>;
    submissions := 0;
    var ran := b.RunRequest(now, submit.latency, submit.lag);
    if b.IsExpired(now) {
      outcome := SubmissionDeadline(None);
    } else {
      var slept: real;
      outcome, submissions, slept := ExecuteJsonRequest(SubmitSettings(r.client, b), submit.replies);
      at := ran.at;
      if ran.Exceeded? {
        outcome := SubmissionDeadline(None);
      }
    }
    if b.IsExpired(at) && outcome.status != 504 {
      outcome := SubmissionDeadline(Some(outcome));
    }
    outcome := Admitted(r.client, outcome);
    var path := AsyncResultPath(outcome.status, PayloadOf(outcome));
    if path.None? {
      return Finished(AsResult(outcome), at, 0), submissions;
    }
    if r.client.callerHeaders && !r.sameOrigin(path.value) {
      return Finished(HttpResult(502, REFUSED_TARGET), at, 0), submissions;
    }
    run := RunAsyncPollLoop(PollContext(r, b, path.value, PayloadOf(outcome)), at, submit.sleepLag, answers);
  }

  ghost predicate Bounded(r: Request, submit: Answer, answers: seq<Answer>, lag: real) {
    && r.timeout.Some? && r.timeout.value >= 0.0 && r.attempts.None?
    && Timely([submit] + answers, lag)
  }

  /** A submission that is expired by the time it is known never names a path to poll. */
  lemma LateSubmissionIsDeadline(client: Client, b: Budget, now: real, a: Answer)
    ensures var (o, at) := Submission(client, b, now, a);
      b.IsExpired(at) ==> o.status != 202
  {
    hide DeadlinePayload, AsyncResultPath;
  }

  lemma SubmissionTime(client: Client, b: Budget, now: real, a: Answer, lag: real)
    requires b.IsBounded() && a.latency >= 0.0 && 0.0 <= a.lag <= lag && now <= b.deadlineAt.value
    ensures Submission(client, b, now, a).1 <= b.deadlineAt.value + lag
  {
    hide DeadlinePayload, AsyncResultPath, RunOutcome;
  }

  /**
   A bounded request without an attempt limit is over by its deadline, give or take one late
   wake-up, and shows a 202 only when the acceptance itself named no usable result path. One that is
   not over has not reached its deadline.
   */
  lemma BoundedRequest(r: Request, now: real, submit: Answer, answers: seq<Answer>, lag: real)
    requires Bounded(r, submit, answers, lag)
    ensures var run := Post(r, now, submit, answers);
      && (run.Waiting? ==> run.state.now < now + r.timeout.value)
      && (run.Finished? ==>
            && run.at <= now + r.timeout.value + lag
            && (run.result.status == 202 ==>
                  var o := Submission(r.client, FromTimeout(r.timeout, now), now, submit).0;
                  o.status == 202 && AsyncResultPath(202, PayloadOf(o)).None? && run.result == AsResult(o)))
  {
    hide DeadlinePayload, RunOutcome, Submission, PollRun;
    RestIsTimely(submit, answers, lag);
    var b := FromTimeout(r.timeout, now);
    SubmissionTime(r.client, b, now, submit, lag);
    LateSubmissionIsDeadline(r.client, b, now, submit);
    var (o, at) := Submission(r.client, b, now, submit);
    var path := AsyncResultPath(o.status, PayloadOf(o));
    if path.Some? {
      BoundedRunIsSafe(PollContext(r, b, path.value, PayloadOf(o)), at, submit.sleepLag, answers, lag);
    }
  }

  /** A gateway deadline result from which the caller can resume. */
  ghost predicate Resumable(result: HttpResult, path: string, accepted: Payload) {
    && result.status == 504
    && "result_path" in result.payload && result.payload["result_path"] == Text(path)
    && ("calculation_id" in result.payload <==> CalculationId(Some(accepted)).Some?)
    && (CalculationId(Some(accepted)).Some? ==>
          result.payload["calculation_id"] == Text(CalculationId(Some(accepted)).value))
  }

  /** The submission was answered 202 with a usable result path, at time `at`. */
  ghost predicate AcceptedWithPath(r: Request, now: real, submit: Answer, path: string, at: real) {
    var b := FromTimeout(r.timeout, now);
    var o := RunOutcome(SubmitSettings(r.client, b), submit.replies);
    && b.RunRequest(now, submit.latency, submit.lag) == Delivered(at)
    && o.status == 202 && AsyncResultPath(202, PayloadOf(o)) == Some(path)
  }

  lemma LateAcceptance(r: Request, now: real, submit: Answer, answers: seq<Answer>, path: string, at: real)
    requires AcceptedWithPath(r, now, submit, path, at) && FromTimeout(r.timeout, now).IsExpired(at)
    ensures var b := FromTimeout(r.timeout, now);
      var payload := PayloadOf(RunOutcome(SubmitSettings(r.client, b), submit.replies));
      Post(r, now, submit, answers) == Finished(DeadlineResult(PollContext(r, b, path, payload)), at, 0)
  {
    hide DeadlinePayload, RunOutcome, PollRun;
  }

  lemma TimelyAcceptance(r: Request, now: real, submit: Answer, answers: seq<Answer>, path: string, at: real)
    requires AcceptedWithPath(r, now, submit, path, at) && !FromTimeout(r.timeout, now).IsExpired(at)
    ensures var b := FromTimeout(r.timeout, now);
      var payload := PayloadOf(RunOutcome(SubmitSettings(r.client, b), submit.replies));
      Post(r, now, submit, answers) ==
        if r.client.callerHeaders && !r.sameOrigin(path) then Finished(HttpResult(502, REFUSED_TARGET), at, 0)
        else PollRun(PollContext(r, b, path, payload), at, submit.sleepLag, answers)
  {
    hide DeadlinePayload, RunOutcome, PollRun, AsyncResultPath;
  }

  /**
   Acceptance is never lost: once a submission was answered 202 with a result path, a bounded
   request either gives the source's own answer, refuses a foreign target, or ends in a deadline
   result that carries the path and any calculation id.
   */
  lemma AcceptanceIsKept(
      r: Request, now: real, submit: Answer, answers: seq<Answer>, lag: real, path: string, at: real)
    requires Bounded(r, submit, answers, lag) && AcceptedWithPath(r, now, submit, path, at)
    ensures var b := FromTimeout(r.timeout, now);
      var payload := PayloadOf(RunOutcome(SubmitSettings(r.client, b), submit.replies));
      var run := Post(r, now, submit, answers);
      run.Finished? ==>
        || run.result == HttpResult(502, REFUSED_TARGET)
        || InTime(PollContext(r, b, path, payload), answers, run)
        || Resumable(run.result, path, payload)
  {
    hide DeadlineResult, RunOutcome, PollRun, AsyncResultPath, Post, InTime, CalculationId, Timely, Budget.RunRequest;
    var b := FromTimeout(r.timeout, now);
    var payload := PayloadOf(RunOutcome(SubmitSettings(r.client, b), submit.replies));
    var c := PollContext(r, b, path, payload);
    DeadlineEvidence(c);
    RestIsTimely(submit, answers, lag);
    if b.IsExpired(at) {
      LateAcceptance(r, now, submit, answers, path, at);
    } else {
      TimelyAcceptance(r, now, submit, answers, path, at);
      BoundedRunIsSafe(c, at, submit.sleepLag, answers, lag);
    }
  }

  lemma RestIsTimely(submit: Answer, answers: seq<Answer>, lag: real)
    requires Timely([submit] + answers, lag)
    ensures Timely(answers, lag)
    ensures submit.latency >= 0.0 && 0.0 <= submit.lag <= lag && 0.0 <= submit.sleepLag <= lag
  {
    assert ([submit] + answers)[0] == submit;
    forall i | 0 <= i < |answers|
      ensures answers[i].latency >= 0.0 && 0.0 <= answers[i].lag <= lag && 0.0 <= answers[i].sleepLag <= lag
    {
      assert ([submit] + answers)[i + 1] == answers[i];
    }
  }
}
