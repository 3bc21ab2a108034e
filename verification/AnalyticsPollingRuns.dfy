/**
 Whole poll runs told from the replies and the times alone: which answers a run waits through, and how
 it ends. Nothing here speaks of the loop's own helpers but the run it computes.
 */
module AnalyticsPollingRuns {
  import opened Wrappers
  import opened RetryEngine
  import opened ExecutionBudget
  import opened AnalyticsPolling

  // ----- what one answer says -----

  lemma {:induction false} SentStops<P>(s: Settings, replies: nat -> Attempt<P>, i: nat)
    requires forall j: nat :: j < i ==> j < s.maxRetries && Repeats(s, replies(j).reply)
    ensures Stops(s, replies, Sent(s, replies, i))
    decreases Max0(s.maxRetries) - i
  {
    hide ShouldRetry, Repeats;
    RepeatsAlways(s, replies);
    if ShouldRetry(s, replies(i).reply, i) {
      assert i < s.maxRetries && Repeats(s, replies(i).reply);
      SentStops(s, replies, i + 1);
    } else {
      assert !(i < s.maxRetries && Repeats(s, replies(i).reply));
      assert Sent(s, replies, i) - 1 == i;
    }
  }

  /** The reply a poll comes down to: that of its last attempt. */
  ghost function LastReply(c: Context, a: Answer): Reply<Payload> {
    a.replies(Sent(PollSettings(c), a.replies) - 1).reply
  }

  /** The last attempt is the one at which the retry rules stop. */
  lemma LastReplyIs(c: Context, a: Answer, sent: nat)
    requires Stops(PollSettings(c), a.replies, sent)
    ensures LastReply(c, a) == a.replies(sent - 1).reply
  {
    hide Stops, Repeats;
    assert sent >= 1 by { AtLeastOne(PollSettings(c), a.replies, sent); }
    SentFrom(PollSettings(c), a.replies, sent, 0);
  }

  lemma AtLeastOne<P>(s: Settings, replies: nat -> Attempt<P>, sent: nat)
    requires Stops(s, replies, sent)
    ensures sent >= 1
  {}

  const REFUSED: Payload := map["detail" := Text("Performance source redirect was refused.")]

  const NO_REPLY: Payload := map["detail" := Text("upstream communication failure")]

  /** What the caller is given for a reply. */
  ghost function SeenAs(c: Context, reply: Reply<Payload>): HttpResult {
    match reply
    case Response(status, payload) =>
      if c.client.callerHeaders && 300 <= status <= 399 then HttpResult(502, REFUSED) else HttpResult(status, payload)
    case Failed(_) => HttpResult(503, NO_REPLY)
  }

  /** The replies after which a run asks again: a 202, and with a deadline any transient failure. */
  ghost predicate AsksAgain(c: Context, reply: Reply<Payload>) {
    match reply
    case Response(status, _) => status == 202
    case Failed(DecodingError) => false
    case Failed(LocalProtocolError) => false
    case Failed(ProxyError) => false
    case Failed(UnsupportedProtocol) => false
    case Failed(TooManyRedirects) => false
    case Failed(_) => c.budget.deadlineAt.Some?
  }

  lemma OutcomeIsSeen(c: Context, a: Answer)
    ensures AsResult(PollOutcome(c, a)) == SeenAs(c, LastReply(c, a))
    ensures ShouldContinue(c, PollOutcome(c, a)) <==> AsksAgain(c, LastReply(c, a))
    ensures PollOutcome(c, a).status == SeenAs(c, LastReply(c, a)).status
    ensures PayloadOf(PollOutcome(c, a)) == SeenAs(c, LastReply(c, a)).payload
  {
    hide Sent, PollSettings;
  }

  // ----- times -----

  /** The answer is there at `at`, with time left if there is a deadline at all. */
  ghost predicate InTimeAt(c: Context, now: real, a: Answer, at: real) {
    && at == now + a.latency + a.lag
    && match c.budget.deadlineAt
       case None => true
       case Some(deadline) => now < deadline && now + a.latency <= deadline && at < deadline
  }

  /** How long the run sleeps: what the source recommends, or the fallback, but not past the deadline. */
  ghost function Nap(c: Context, payload: Payload, at: real): real {
    var key := "recommended_poll_after_seconds";
    var usable := key in payload && payload[key].Number? && payload[key].x > 0.0;
    var interval := if usable then payload[key].x else c.fallback;
    match c.budget.deadlineAt
    case None => interval
    case Some(deadline) =>
      var left := if deadline > at then deadline - at else 0.0;
      if interval < left then interval else left
  }

  ghost predicate MayAsk(c: Context, attempts: nat) {
    c.maxAttempts.None? || attempts < c.maxAttempts.value
  }

  // ----- runs -----

  /** From `st` the run asks, is told to wait, sleeps, and asks again from `next`. */
  ghost predicate Waits(c: Context, st: State, a: Answer, next: State) {
    var reply := LastReply(c, a);
    var seen, at := SeenAs(c, reply), st.now + a.latency + a.lag;
    && MayAsk(c, st.attempts) && InTimeAt(c, st.now, a, at) && AsksAgain(c, reply)
    && Nap(c, seen.payload, at) > 0.0
    && next == State(st.attempts + 1, seen.status, seen.payload, at + Nap(c, seen.payload, at) + a.sleepLag)
  }

  /** The states between the answers a run waits through. */
  ghost predicate Chain(c: Context, states: seq<State>, answers: seq<Answer>) {
    && 1 <= |states| <= |answers| + 1
    && forall i :: 0 <= i < |states| - 1 ==> Waits(c, states[i], answers[i], states[i + 1])
  }

  /** How a run ends from a state it does not wait in any more. */
  ghost predicate EndsAs(c: Context, st: State, answers: seq<Answer>, r: Run) {
    if !MayAsk(c, st.attempts) then r == Finished(HttpResult(st.status, st.payload), st.now, 0)
    else if c.budget.deadlineAt.Some? && c.budget.deadlineAt.value <= st.now then
      r == Finished(DeadlineResult(c), st.now, 0)
    else if answers == [] then r == Waiting(st, 0)
    else
      var a := answers[0];
      var at, reply := st.now + a.latency + a.lag, LastReply(c, a);
      if !InTimeAt(c, st.now, a, at) then
        && r.Finished? && r.result == DeadlineResult(c) && r.polls == 1
        && r.at == if st.now + a.latency > c.budget.deadlineAt.value then c.budget.deadlineAt.value + a.lag else at
      else if !AsksAgain(c, reply) then r == Finished(SeenAs(c, reply), at, 1)
      else Nap(c, SeenAs(c, reply).payload, at) <= 0.0 && r == Finished(DeadlineResult(c), at, 1)
  }

  lemma WaitStep(c: Context, st: State, answers: seq<Answer>, next: State)
    requires answers != [] && Waits(c, st, answers[0], next)
    ensures PollFrom(c, st, answers) == Add(PollFrom(c, next, answers[1..]), 1)
  {
    OutcomeIsSeen(c, answers[0]);
    hide LastReply, SeenAs, AsksAgain, DeadlineResult, PollOutcome, ShouldContinue;
  }

  /** A run either waits for the next answer or ends, and ends in exactly one way. */
  lemma WaitsOrEnds(c: Context, st: State, answers: seq<Answer>) returns (next: Option<State>)
    ensures match next
      case Some(n) => answers != [] && Waits(c, st, answers[0], n)
      case None => EndsAs(c, st, answers, PollFrom(c, st, answers))
  {
    if answers != [] {
      OutcomeIsSeen(c, answers[0]);
    }
    hide LastReply, SeenAs, AsksAgain, DeadlineResult, PollOutcome, ShouldContinue;
    if answers != [] {
      var a := answers[0];
      var at, seen := st.now + a.latency + a.lag, SeenAs(c, LastReply(c, a));
      var n := State(st.attempts + 1, seen.status, seen.payload, at + Nap(c, seen.payload, at) + a.sleepLag);
      if Waits(c, st, a, n) {
        return Some(n);
      }
    }
    return None;
  }

  /** The answers a run waits through add nothing but their number. */
  lemma {:induction false} ChainIsSkipped(c: Context, states: seq<State>, answers: seq<Answer>)
    requires Chain(c, states, answers)
    ensures var k := |states| - 1;
      PollFrom(c, states[0], answers) == Add(PollFrom(c, states[k], answers[k..]), k)
    decreases |states|
  {
    hide Waits, PollFrom;
    if |states| == 1 {
      assert answers[0..] == answers;
      assert Add(PollFrom(c, states[0], answers), 0) == PollFrom(c, states[0], answers);
    } else {
      WaitStep(c, states[0], answers, states[1]);
      assert Chain(c, states[1..], answers[1..]) by {
        forall i | 0 <= i < |states[1..]| - 1 ensures Waits(c, states[1..][i], answers[1..][i], states[1..][i + 1]) {
          assert states[1..][i] == states[i + 1] && answers[1..][i] == answers[i + 1];
          assert states[1..][i + 1] == states[i + 2];
        }
      }
      ChainIsSkipped(c, states[1..], answers[1..]);
      assert answers[1..][|states| - 2..] == answers[|states| - 1..];
    }
  }

  /** Every run is a chain of waits and one ending: no answer, time or reply is passed over. */
  lemma {:induction false} EveryRun(c: Context, st: State, answers: seq<Answer>) returns (states: seq<State>, r: Run)
    ensures Chain(c, states, answers) && states[0] == st
    ensures EndsAs(c, states[|states| - 1], answers[|states| - 1..], r)
    ensures PollFrom(c, st, answers) == Add(r, |states| - 1)
    decreases |answers|
  {
    hide Waits, EndsAs, PollFrom;
    var next := WaitsOrEnds(c, st, answers);
    if next.None? {
      states, r := [st], PollFrom(c, st, answers);
      assert answers[0..] == answers;
    } else {
      var rest, end := EveryRun(c, next.value, answers[1..]);
      states, r := [st] + rest, end;
      forall i | 0 <= i < |states| - 1 ensures Waits(c, states[i], answers[i], states[i + 1]) {
        if i > 0 {
          assert states[i] == rest[i - 1] && states[i + 1] == rest[i] && answers[i] == answers[1..][i - 1];
        }
      }
      assert answers[1..][|rest| - 1..] == answers[|rest|..];
      WaitStep(c, st, answers, next.value);
    }
  }

  /**
   The source's answer is returned: when the run has waited through the first k answers and the next
   one settles the poll with time left, the run ends on its arrival with exactly what it says.
   */
  lemma AnswerIsReturned(c: Context, states: seq<State>, answers: seq<Answer>, at: real)
    requires Chain(c, states, answers) && |states| <= |answers|
    requires var k := |states| - 1;
      && MayAsk(c, states[k].attempts) && InTimeAt(c, states[k].now, answers[k], at)
      && !AsksAgain(c, LastReply(c, answers[k]))
    ensures PollFrom(c, states[0], answers)
      == Finished(SeenAs(c, LastReply(c, answers[|states| - 1])), at, |states|)
  {
    var k := |states| - 1;
    ChainIsSkipped(c, states, answers);
    var next := WaitsOrEnds(c, states[k], answers[k..]);
    hide PollFrom, LastReply, SeenAs, AsksAgain, DeadlineResult;
  }

  /** When the attempts are used up, the run ends with the last thing it was told. */
  lemma LimitEndsTheRun(c: Context, states: seq<State>, answers: seq<Answer>)
    requires Chain(c, states, answers) && !MayAsk(c, states[|states| - 1].attempts)
    ensures var last := states[|states| - 1];
      PollFrom(c, states[0], answers) == Finished(HttpResult(last.status, last.payload), last.now, |states| - 1)
  {
    var k := |states| - 1;
    ChainIsSkipped(c, states, answers);
    var next := WaitsOrEnds(c, states[k], answers[k..]);
    hide PollFrom, LastReply, SeenAs, AsksAgain, DeadlineResult;
  }

  lemma {:induction false} AttemptsAreCounted(c: Context, states: seq<State>, answers: seq<Answer>, i: nat)
    requires Chain(c, states, answers) && i < |states|
    ensures states[i].attempts == states[0].attempts + i
  {
    if i > 0 {
      AttemptsAreCounted(c, states, answers, i - 1);
      assert Waits(c, states[i - 1], answers[i - 1], states[i]);
    }
  }

  /** Why a run ended before any deadline: the source settled it, or its attempts were used up. */
  ghost predicate SourceDecided(c: Context, states: seq<State>, answers: seq<Answer>, r: Run)
    requires Chain(c, states, answers)
  {
    var k := |states| - 1;
    || (!MayAsk(c, states[k].attempts)
        && r == Finished(HttpResult(states[k].status, states[k].payload), states[k].now, k))
    || (k < |answers| && r.Finished? && r.polls == k + 1
        && InTimeAt(c, states[k].now, answers[k], r.at) && !AsksAgain(c, LastReply(c, answers[k]))
        && r.result == SeenAs(c, LastReply(c, answers[k])))
  }

  /**
   The gateway answers for itself only at the deadline: with a positive fallback interval, a run that
   ends earlier, or without a deadline, ends with what the source said.
   */
  lemma DeadlineOnlyWhenReached(c: Context, st: State, answers: seq<Answer>) returns (states: seq<State>)
    requires c.fallback > 0.0 && forall i :: 0 <= i < |answers| ==> answers[i].lag >= 0.0
    ensures Chain(c, states, answers) && states[0] == st
    ensures var r := PollFrom(c, st, answers);
      r.Finished? && (c.budget.deadlineAt.Some? ==> r.at < c.budget.deadlineAt.value)
      ==> SourceDecided(c, states, answers, r)
  {
    var r;
    states, r := EveryRun(c, st, answers);
    hide PollFrom, LastReply, SeenAs, AsksAgain, DeadlineResult, Waits;
    var k := |states| - 1;
    assert k < |answers| ==> answers[k..][0] == answers[k];
  }

  /** Where a whole run starts: at once, or after a first sleep when it follows an acceptance. */
  lemma RunStarts(c: Context, now: real, firstLag: real, answers: seq<Answer>)
    ensures PollRun(c, now, firstLag, answers) == match c.accepted
      case None =>
        PollFrom(c, State(0, 202, map["detail" := Text("async analytics result still pending")], now), answers)
      case Some(accepted) =>
        if Nap(c, accepted, now) <= 0.0 then Finished(DeadlineResult(c), now, 0)
        else
          var payload :=
            if accepted == map[] then map["detail" := Text("async analytics result still pending")] else accepted;
          PollFrom(c, State(0, 202, payload, now + Nap(c, accepted, now) + firstLag), answers)
  {
    hide PollFrom, DeadlineResult;
  }

  /** The gateway's own answer in full. */
  lemma DeadlineResultIs(c: Context)
    requires c.resultPath != ""
    ensures var base: Payload := map[
        "detail" := Text("analytics result did not complete within the governed Gateway deadline"),
        "error_code" := Text("ASYNC_RESULT_DEADLINE_EXHAUSTED"),
        "state" := Text("degraded"),
        "reason" := Text("async_poll_deadline_exhausted"),
        "result_path" := Text(c.resultPath)];
      DeadlineResult(c) == HttpResult(504,
        match c.accepted
        case Some(accepted) =>
          if "calculation_id" in accepted && accepted["calculation_id"].Text? && accepted["calculation_id"].text != ""
          then base["calculation_id" := accepted["calculation_id"]] else base
        case None => base)
  {}
}
