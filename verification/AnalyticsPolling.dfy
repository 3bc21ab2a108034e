/**
 The poll loop of src/app/clients/lotus_analytics_async_polling.py. The source and the timers
 behave as a list of answers says; the loop itself never depends on how long that list is.
 */
module AnalyticsPolling {
  import opened Wrappers
  import opened RetryEngine
  import opened ExecutionBudget

  /**
   One poll as the outside world plays it: the replies to its attempts, how long the request
   takes, and how late the caller is woken after the request and after the sleep that follows.
   */
  datatype Answer = Answer(replies: nat -> Attempt<Payload>, latency: real, lag: real, sleepLag: real)

  datatype Client = Client(callerHeaders: bool, maxRetries: int, backoff: real)

  datatype Context = Context(
    client: Client,
    resultPath: string,
    budget: Budget,
    accepted: Option<Payload>,
    maxAttempts: Option<int>,
    fallback: real)

  datatype HttpResult = HttpResult(status: int, payload: Payload)

  datatype State = State(attempts: nat, status: int, payload: Payload, now: real)

  /** A run that is over, or one whose list of answers has been used up. */
  datatype Run =
    | Finished(result: HttpResult, at: real, polls: nat)
    | Waiting(state: State, polls: nat)

  const PENDING_PAYLOAD: Payload := map["detail" := Text("async analytics result still pending")]

  /** `build_async_poll_deadline_payload` */
  function DeadlinePayload(resultPath: Option<string>, accepted: Option<Payload>): Payload {
    var base: Payload := map[
      "detail" := Text("analytics result did not complete within the governed Gateway deadline"),
      "error_code" := Text("ASYNC_RESULT_DEADLINE_EXHAUSTED"),
      "state" := Text("degraded"),
      "reason" := Text("async_poll_deadline_exhausted")];
    var withPath :=
      if resultPath.Some? && resultPath.value != "" then base["result_path" := Text(resultPath.value)] else base;
    if CalculationId(accepted).Some? then withPath["calculation_id" := Text(CalculationId(accepted).value)]
    else withPath
  }

  /** A non-empty string under `calculation_id`. */
  function CalculationId(accepted: Option<Payload>): Option<string> {
    if accepted.Some? && "calculation_id" in accepted.value
       && accepted.value["calculation_id"].Text? && accepted.value["calculation_id"].text != ""
    then Some(accepted.value["calculation_id"].text)
    else None
  }

  function DeadlineResult(c: Context): HttpResult {
    HttpResult(504, DeadlinePayload(Some(c.resultPath), c.accepted))
  }

  /** `_admitted_outcome`: a redirect is refused when the request carried the caller's authority. */
  function Admitted(client: Client, o: Outcome<Payload>): Outcome<Payload> {
    if client.callerHeaders && 300 <= o.status < 400
    then Outcome(502, Some(map["detail" := Text("Performance source redirect was refused.")]), None)
    else o
  }

  /** The payload of an outcome; the gateway's own failures describe themselves in `detail`. */
  function PayloadOf(o: Outcome<Payload>): Payload {
    match o.payload
    case Some(p) => p
    case None => map["detail" := Text("upstream communication failure")]
  }

  function AsResult(o: Outcome<Payload>): HttpResult {
    HttpResult(o.status, PayloadOf(o))
  }

  function PollSettings(c: Context): Settings {
    RequestSettings(None, !c.budget.IsBounded(), true, Some(!c.client.callerHeaders),
                    c.budget.RequestMaxRetries(c.client.maxRetries), c.client.backoff)
  }

  /** The outcome of one poll, as the loop sees it. */
  function PollOutcome(c: Context, a: Answer): Outcome<Payload> {
    Admitted(c.client, RunOutcome(PollSettings(c), a.replies))
  }

  predicate ShouldContinue(c: Context, o: Outcome<Payload>) {
    o.status == 202 || (c.budget.IsBounded() && o.IsTransientTransportFailure())
  }

  /** `_wait_for_next_async_poll`: the time after the sleep, or nothing when there is none left. */
  function Wake(c: Context, payload: Payload, now: real, lag: real): Option<real> {
    var interval := c.budget.PollInterval(payload, c.fallback, now);
    if interval > 0.0 then Some(now + interval + lag) else None
  }

  predicate AttemptsLeft(c: Context, attempts: nat) {
    c.maxAttempts.None? || attempts < c.maxAttempts.value
  }

  /** The run from one turn of the loop on. */
  function PollFrom(c: Context, st: State, answers: seq<Answer>): Run
    decreases |answers|
  {
    if !AttemptsLeft(c, st.attempts) then Finished(HttpResult(st.status, st.payload), st.now, 0)
    else if c.budget.IsExpired(st.now) then Finished(DeadlineResult(c), st.now, 0)
    else if answers == [] then Waiting(st, 0)
    else
      var a := answers[0];
      match c.budget.RunRequest(st.now, a.latency, a.lag)
      case Exceeded(at) => Finished(DeadlineResult(c), at, 1)
      case Delivered(at) =>
        var o := PollOutcome(c, a);
        if c.budget.IsExpired(at) then Finished(DeadlineResult(c), at, 1)
        else if !ShouldContinue(c, o) then Finished(AsResult(o), at, 1)
        else match Wake(c, PayloadOf(o), at, a.sleepLag)
          case None => Finished(DeadlineResult(c), at, 1)
          case Some(next) =>
            Add(PollFrom(c, State(st.attempts + 1, o.status, PayloadOf(o), next), answers[1..]), 1)
  }

  /** The same run after `n` polls that came before it. */
  function Add(r: Run, n: nat): Run {
    match r
    case Finished(result, at, polls) => Finished(result, at, polls + n)
    case Waiting(st, polls) => Waiting(st, polls + n)
  }

  /** `_run_async_poll_loop`: an optional first sleep, then the loop. */
  function PollRun(c: Context, now: real, firstLag: real, answers: seq<Answer>): Run {
    var payload := if c.accepted.Some? && c.accepted.value != map[] then c.accepted.value else PENDING_PAYLOAD;
    if c.accepted.None? then PollFrom(c, State(0, 202, payload, now), answers)
    else match Wake(c, c.accepted.value, now, firstLag)
      case None => Finished(DeadlineResult(c), now, 0)
      case Some(start) => PollFrom(c, State(0, 202, payload, start), answers)
  }

  /** The loop as the source writes it. */
  method RunAsyncPollLoop(c: Context, now: real, firstLag: real, answers: seq<Answer>) returns (run: Run)
    ensures run == PollRun(c, now, firstLag, answers)
  {
    hide PollOutcome, DeadlineResult, PayloadOf, Budget.RunRequest;
    var clock := now;
    var attempts: nat, status := 0, 202;
    var payload := if c.accepted.Some? && c.accepted.value != map[] then c.accepted.value else PENDING_PAYLOAD;
    if c.accepted.Some? {
      var start := Wake(c, c.accepted.value, now, firstLag);
      if start.None? {
        return Finished(DeadlineResult(c), now, 0);
      }
      clock := start.value;
    }
    var used := 0;
    assert answers[0..] == answers;
    while AttemptsLeft(c, attempts)
      invariant used <= |answers|
      invariant PollRun(c, now, firstLag, answers)
        == Add(PollFrom(c, State(attempts, status, payload, clock), answers[used..]), used)
      decreases |answers| - used
    {
      if c.budget.IsExpired(clock) {
        return Finished(DeadlineResult(c), clock, used);
      }
      if used == |answers| {
        return Waiting(State(attempts, status, payload, clock), used);
      }
      var a := answers[used];
      assert answers[used..][1..] == answers[used + 1..];
      used := used + 1;
      var ran := c.budget.RunRequest(clock, a.latency, a.lag);
      if ran.Exceeded? {
        return Finished(DeadlineResult(c), ran.at, used);
      }
      var outcome := PollOutcome(c, a);
      status, payload, attempts := outcome.status, PayloadOf(outcome), attempts + 1;
      if c.budget.IsExpired(ran.at) {
        return Finished(DeadlineResult(c), ran.at, used);
      }
      if !ShouldContinue(c, outcome) {
        return Finished(AsResult(outcome), ran.at, used);
      }
      var next := Wake(c, payload, ran.at, a.sleepLag);
      if next.None? {
        return Finished(DeadlineResult(c), ran.at, used);
      }
      clock := next.value;
    }
    return Finished(HttpResult(status, payload), clock, used);
  }

  // ----- what every run keeps -----

  /** Time only moves forward, and nobody is woken more than `lag` late. */
  ghost predicate Timely(answers: seq<Answer>, lag: real) {
    forall i :: 0 <= i < |answers| ==>
      answers[i].latency >= 0.0 && 0.0 <= answers[i].lag <= lag && 0.0 <= answers[i].sleepLag <= lag
  }

  /** A result the source gave while there was still time left. */
  ghost predicate InTime(c: Context, answers: seq<Answer>, r: Run) {
    && r.Finished? && 1 <= r.polls <= |answers|
    && var o := PollOutcome(c, answers[r.polls - 1]);
       !ShouldContinue(c, o) && r.result == AsResult(o) && !c.budget.IsExpired(r.at)
  }

  lemma InTimeLater(c: Context, a: Answer, rest: seq<Answer>, r: Run)
    requires InTime(c, rest, r)
    ensures InTime(c, [a] + rest, Add(r, 1))
  {}

  /**
   A bounded run without an attempt limit ends by its deadline, give or take one late wake-up,
   and gives either the deadline result or an answer that arrived with time left. A run that is not
   over has not reached its deadline.
   */
  lemma {:induction false} DeadlineSafety(c: Context, st: State, answers: seq<Answer>, lag: real)
    requires c.budget.IsBounded() && c.maxAttempts.None? && lag >= 0.0
    requires Timely(answers, lag) && st.now <= c.budget.deadlineAt.value + lag
    ensures var r := PollFrom(c, st, answers);
      && (r.Waiting? ==> r.state.now < c.budget.deadlineAt.value)
      && (r.Finished? ==>
            && r.at <= c.budget.deadlineAt.value + lag
            && (r.result == DeadlineResult(c) || InTime(c, answers, r)))
    decreases |answers|
  {
    hide PollOutcome, DeadlineResult;
    if !c.budget.IsExpired(st.now) && answers != [] {
      var a := answers[0];
      var ran := c.budget.RunRequest(st.now, a.latency, a.lag);
      var o := PollOutcome(c, a);
      if ran.Delivered? && !c.budget.IsExpired(ran.at) && ShouldContinue(c, o) {
        var next := Wake(c, PayloadOf(o), ran.at, a.sleepLag);
        SleepEndsByDeadline(c.budget, PayloadOf(o), c.fallback, ran.at);
        if next.Some? {
          var st' := State(st.attempts + 1, o.status, PayloadOf(o), next.value);
          DeadlineSafety(c, st', answers[1..], lag);
          var r := PollFrom(c, st', answers[1..]);
          if InTime(c, answers[1..], r) {
            InTimeLater(c, a, answers[1..], r);
            assert [a] + answers[1..] == answers;
          }
        }
      }
    }
  }

  /**
   The whole loop: what a bounded, unlimited run returns is never a 202 nor a transient transport
   failure; a deadline result carries the result path and the calculation id it was given.
   */
  lemma BoundedRunIsSafe(c: Context, now: real, firstLag: real, answers: seq<Answer>, lag: real)
    requires c.budget.IsBounded() && c.maxAttempts.None? && 0.0 <= firstLag <= lag
    requires Timely(answers, lag) && now < c.budget.deadlineAt.value
    ensures var r := PollRun(c, now, firstLag, answers);
      && (r.Waiting? ==> r.state.now < c.budget.deadlineAt.value)
      && (r.Finished? ==>
            && r.at <= c.budget.deadlineAt.value + lag
            && r.result.status != 202
            && (r.result == DeadlineResult(c) || InTime(c, answers, r)))
  {
    hide PollOutcome;
    if c.accepted.Some? {
      SleepEndsByDeadline(c.budget, c.accepted.value, c.fallback, now);
    }
    var payload := if c.accepted.Some? && c.accepted.value != map[] then c.accepted.value else PENDING_PAYLOAD;
    var start := if c.accepted.Some? then Wake(c, c.accepted.value, now, firstLag) else Some(now);
    if start.Some? {
      DeadlineSafety(c, State(0, 202, payload, start.value), answers, lag);
    }
  }

  /** Resume evidence: the deadline payload names the path, and the calculation id exactly when known. */
  lemma DeadlineEvidence(c: Context)
    requires c.resultPath != ""
    ensures var r := DeadlineResult(c);
      && r.status == 504
      && "result_path" in r.payload && r.payload["result_path"] == Text(c.resultPath)
      && ("calculation_id" in r.payload <==> CalculationId(c.accepted).Some?)
      && (CalculationId(c.accepted).Some? ==>
            r.payload["calculation_id"] == Text(CalculationId(c.accepted).value))
  {}

  /** A bounded poll is a single attempt. */
  lemma BoundedPollIsOneAttempt(c: Context, a: Answer)
    requires c.budget.IsBounded()
    ensures Sent(PollSettings(c), a.replies) == 1
  {}

  // ----- how many polls -----

  /** Every interval the source recommends, when usable, is at least `least`. */
  ghost predicate Paced(c: Context, answers: seq<Answer>, least: real) {
    forall i :: 0 <= i < |answers| ==>
      RecommendedPollInterval(PayloadOf(PollOutcome(c, answers[i])), c.fallback) >= least
  }

  /** `polls` is at most the number of intervals of length `least` it takes to cover `span`. */
  ghost predicate Fits(polls: nat, least: real, span: real) {
    polls > 0 ==> (polls - 1) as real * least < span
  }

  lemma FitsOneMore(polls: nat, least: real, deadline: real, earlier: real, next: real)
    requires least > 0.0 && earlier < deadline && Fits(polls, least, deadline - next)
    requires if polls > 0 then next >= earlier + least else true
    ensures Fits(polls + 1, least, deadline - earlier)
  {
    if polls > 0 {
      assert polls as real * least == (polls - 1) as real * least + least;
    }
  }

  /** A bounded run of length T makes no more than ceil(T / least) polls. */
  lemma {:induction false} PollsAreBounded(c: Context, st: State, answers: seq<Answer>, lag: real, least: real)
    requires c.budget.IsBounded() && least > 0.0 && Timely(answers, lag) && Paced(c, answers, least)
    ensures Fits(PollFrom(c, st, answers).polls, least, c.budget.deadlineAt.value - st.now)
    decreases |answers|
  {
    hide PollOutcome, DeadlineResult, RecommendedPollInterval, Budget.PollInterval;
    if AttemptsLeft(c, st.attempts) && !c.budget.IsExpired(st.now) && answers != [] {
      var a := answers[0];
      var ran := c.budget.RunRequest(st.now, a.latency, a.lag);
      var o := PollOutcome(c, a);
      var next := Wake(c, PayloadOf(o), ran.at, a.sleepLag);
      if ran.Delivered? && !c.budget.IsExpired(ran.at) && ShouldContinue(c, o) && next.Some? {
        var st' := State(st.attempts + 1, o.status, PayloadOf(o), next.value);
        PollsAreBounded(c, st', answers[1..], lag, least);
        SleepIsLongEnough(c, PayloadOf(o), ran.at, a.sleepLag, least);
        if st'.now >= c.budget.deadlineAt.value {
          ExpiredMeansNoPoll(c, st', answers[1..]);
        }
        var polls := PollFrom(c, st', answers[1..]).polls;
        hide Fits, PollFrom, Wake;
        FitsOneMore(polls, least, c.budget.deadlineAt.value, st.now, next.value);
      }
    }
  }

  /** Unless it is cut short at the deadline, a sleep lasts at least `least`. */
  lemma SleepIsLongEnough(c: Context, payload: Payload, now: real, lag: real, least: real)
    requires c.budget.IsBounded() && lag >= 0.0 && Wake(c, payload, now, lag).Some?
    requires RecommendedPollInterval(payload, c.fallback) >= least
    ensures var next := Wake(c, payload, now, lag).value;
      next >= now + least || next >= c.budget.deadlineAt.value
  {
    hide RecommendedPollInterval;
  }

  lemma ExpiredMeansNoPoll(c: Context, st: State, answers: seq<Answer>)
    requires c.budget.IsBounded() && st.now >= c.budget.deadlineAt.value
    ensures PollFrom(c, st, answers).polls == 0
  {}

  /** So a paced run is over once it has been offered that many answers. */
  lemma PacedRunEnds(c: Context, st: State, answers: seq<Answer>, lag: real, least: real)
    requires c.budget.IsBounded() && least > 0.0 && Timely(answers, lag) && Paced(c, answers, least)
    requires !Fits(|answers|, least, c.budget.deadlineAt.value - st.now)
    ensures PollFrom(c, st, answers).Finished?
  {
    hide PollFrom, PollOutcome, Paced, Timely, Fits;
    PollsAreBounded(c, st, answers, lag, least);
    WaitingUsedAll(c, st, answers);
  }

  lemma {:induction false} WaitingUsedAll(c: Context, st: State, answers: seq<Answer>)
    ensures var r := PollFrom(c, st, answers);
      r.polls <= |answers| && (r.Waiting? ==> r.polls == |answers|)
    decreases |answers|
  {
    hide PollOutcome, DeadlineResult;
    if AttemptsLeft(c, st.attempts) && !c.budget.IsExpired(st.now) && answers != [] {
      var a := answers[0];
      var ran := c.budget.RunRequest(st.now, a.latency, a.lag);
      var o := PollOutcome(c, a);
      var next := Wake(c, PayloadOf(o), ran.at, a.sleepLag);
      if next.Some? {
        WaitingUsedAll(c, State(st.attempts + 1, o.status, PayloadOf(o), next.value), answers[1..]);
      }
    }
  }

  /** A 202 that recommends the given interval. */
  function Accepted(interval: real): Answer {
    Answer((i: nat) => Attempt(Response(202, map["recommended_poll_after_seconds" := Number(interval)]), true),
           0.0, 0.0, 0.0)
  }

  /** A source that recommends half of the time left is polled again when half of it is left. */
  lemma HalfWay(c: Context, now: real, half: real)
    requires c.budget.IsBounded() && half > 0.0 && now + half + half == c.budget.deadlineAt.value
    ensures var a, o := Accepted(half), PollOutcome(c, Accepted(half));
      && a.latency == 0.0 && a.lag == 0.0 && a.sleepLag == 0.0
      && o.status == 202 && Wake(c, PayloadOf(o), now, 0.0) == Some(now + half)
  {
    var o := PollOutcome(c, Accepted(half));
    assert Sent(PollSettings(c), Accepted(half).replies) == 1;
    assert o == Outcome(202, Some(map["recommended_poll_after_seconds" := Number(half)]), None);
  }

  /**
   Without such a lower bound there is no bound at all: a source that halves its recommendation
   each time keeps any bounded, unlimited run polling for as often as one likes.
   */
  lemma {:induction false} NoBoundWithoutPace(c: Context, st: State, n: nat) returns (answers: seq<Answer>)
    requires c.budget.IsBounded() && c.maxAttempts.None? && !c.budget.IsExpired(st.now)
    ensures |answers| == n && Timely(answers, 0.0)
    ensures PollFrom(c, st, answers).Waiting?
    decreases n
  {
    if n == 0 {
      answers := [];
    } else {
      var half := (c.budget.deadlineAt.value - st.now) / 2.0;
      var a := Accepted(half);
      var o := PollOutcome(c, a);
      HalfWay(c, st.now, half);
      hide PollOutcome, Wake, Accepted;
      var rest := NoBoundWithoutPace(c, State(st.attempts + 1, 202, PayloadOf(o), st.now + half), n - 1);
      answers := [a] + rest;
      assert answers[1..] == rest;
    }
  }

  /** Without a deadline, a run makes at most its allowed attempts and stops at the first answer that is no 202. */
  lemma {:induction false} UnboundedRunStops(c: Context, st: State, answers: seq<Answer>)
    requires !c.budget.IsBounded()
    ensures var r := PollFrom(c, st, answers);
      && (c.maxAttempts.Some? ==> st.attempts + r.polls <= Max0(c.maxAttempts.value) || r.polls == 0)
      && r.polls <= |answers|
      && (forall i :: 0 <= i < r.polls - 1 ==> PollOutcome(c, answers[i]).status == 202)
    decreases |answers|
  {
    hide PollOutcome, DeadlineResult;
    if AttemptsLeft(c, st.attempts) && answers != [] {
      var a := answers[0];
      var ran := c.budget.RunRequest(st.now, a.latency, a.lag);
      var o := PollOutcome(c, a);
      var next := Wake(c, PayloadOf(o), ran.at, a.sleepLag);
      if ShouldContinue(c, o) && next.Some? {
        var st' := State(st.attempts + 1, o.status, PayloadOf(o), next.value);
        UnboundedRunStops(c, st', answers[1..]);
      }
    }
  }
}
