/**
 The retry engine of src/app/clients/http_json_resilience.py with the policies of
 src/app/clients/http_retry_policy.py, run against an arbitrary list of attempt results.
 */
module RetryEngine {
  import opened Wrappers

  /** The classes of httpx request errors, as far as the policies tell them apart. */
  datatype RequestError =
    | ConnectTimeout | ReadTimeout | WriteTimeout | PoolTimeout
    | ConnectError | ReadError | WriteError | CloseError
    | RemoteProtocolError | LocalProtocolError
    | ProxyError | UnsupportedProtocol | DecodingError | TooManyRedirects
  {
    predicate IsTimeout() {
      ConnectTimeout? || ReadTimeout? || WriteTimeout? || PoolTimeout?
    }

    predicate IsNetwork() {
      ConnectError? || ReadError? || WriteError? || CloseError?
    }

    predicate IsRetryable() {
      IsTimeout() || IsNetwork() || RemoteProtocolError?
    }

    /** After these failures the request may already have reached the producer. */
    predicate IsAmbiguous() {
      if ConnectError? || ConnectTimeout? || PoolTimeout? then false
      else IsNetwork() || IsTimeout() || RemoteProtocolError?
    }
  }

  datatype FailureKind = Transport | Timeout | TerminalRequestError | UnsupportedMethod | RetriesExhausted

  datatype Reply<P> = Response(status: int, payload: P) | Failed(error: RequestError)

  /** One attempt: what the caller sees, and whether the producer received the request. */
  datatype Attempt<P> = Attempt(reply: Reply<P>, reached: bool)

  datatype Outcome<P> = Outcome(status: int, payload: Option<P>, failure: Option<FailureKind>)
  {
    predicate IsTransientTransportFailure() {
      failure == Some(Transport) || failure == Some(Timeout)
    }
  }

  datatype Settings = Settings(
    retryStatusCodes: Option<set<int>>,
    retryTimeouts: bool,
    retryAmbiguous: bool,
    followRedirects: bool,
    maxRetries: int,
    backoff: real)

  function Max0(n: int): nat {
    if n > 0 then n else 0
  }

  /** `retry_attempts` */
  function RetryAttempts(maxRetries: int): nat {
    Max0(maxRetries) + 1
  }

  function Pow2(k: nat): (p: int)
    ensures p >= 1
  {
    if k == 0 then 1 else 2 * Pow2(k - 1)
  }

  /** `retry_delay` */
  function RetryDelay(backoff: real, attempt: nat): (d: real)
    ensures d >= 0.0
  {
    (if backoff > 0.0 then backoff else 0.0) * Pow2(attempt) as real
  }

  function ShouldRetryStatus(s: Settings, status: int, attempt: nat): bool {
    s.retryStatusCodes.Some? && status in s.retryStatusCodes.value && attempt < s.maxRetries
  }

  function ShouldRetryError(s: Settings, error: RequestError, attempt: nat): bool {
    if !error.IsRetryable() then false
    else if error.IsTimeout() && !s.retryTimeouts then false
    else if !s.retryAmbiguous && error.IsAmbiguous() then false
    else attempt < s.maxRetries
  }

  function FailureKindOf(error: RequestError): FailureKind {
    if error.IsTimeout() then Timeout
    else if error.IsRetryable() then Transport
    else TerminalRequestError
  }

  function ShouldRetry<P>(s: Settings, reply: Reply<P>, attempt: nat): bool {
    match reply
    case Response(status, _) => ShouldRetryStatus(s, status, attempt)
    case Failed(error) => ShouldRetryError(s, error, attempt)
  }

  /** What a reply that is not retried is turned into. */
  function Settled<P>(reply: Reply<P>): Outcome<P> {
    match reply
    case Response(status, payload) => Outcome(status, Some(payload), None)
    case Failed(error) => Outcome(503, None, Some(FailureKindOf(error)))
  }

  /** What is sent again while retries are left: each kind of reply, and the settings it takes. */
  ghost predicate Repeats<P>(s: Settings, reply: Reply<P>) {
    match reply
    case Response(status, _) => s.retryStatusCodes.Some? && status in s.retryStatusCodes.value
    case Failed(ConnectTimeout) => s.retryTimeouts
    case Failed(PoolTimeout) => s.retryTimeouts
    case Failed(ReadTimeout) => s.retryTimeouts && s.retryAmbiguous
    case Failed(WriteTimeout) => s.retryTimeouts && s.retryAmbiguous
    case Failed(ConnectError) => true
    case Failed(ReadError) => s.retryAmbiguous
    case Failed(WriteError) => s.retryAmbiguous
    case Failed(CloseError) => s.retryAmbiguous
    case Failed(RemoteProtocolError) => s.retryAmbiguous
    case Failed(_) => false
  }

  lemma RepeatsExactly<P>(s: Settings, reply: Reply<P>, attempt: nat)
    ensures ShouldRetry(s, reply, attempt) <==> attempt < s.maxRetries && Repeats(s, reply)
  {}

  lemma RepeatsAlways<P>(s: Settings, replies: nat -> Attempt<P>)
    ensures forall i: nat :: ShouldRetry(s, replies(i).reply, i) <==> i < s.maxRetries && Repeats(s, replies(i).reply)
  {
    forall i: nat
      ensures ShouldRetry(s, replies(i).reply, i) <==> i < s.maxRetries && Repeats(s, replies(i).reply)
    {
      RepeatsExactly(s, replies(i).reply, i);
    }
  }

  /** How many attempts a run makes: each but the last is repeated, and the last is not or cannot be. */
  ghost predicate Stops<P>(s: Settings, replies: nat -> Attempt<P>, sent: nat) {
    && 1 <= sent
    && !(sent - 1 < s.maxRetries && Repeats(s, replies(sent - 1).reply))
    && forall i: nat :: i < sent - 1 ==> i < s.maxRetries && Repeats(s, replies(i).reply)
  }

  /** The number of attempts a run makes, counted from attempt `i` on. */
  function Sent<P>(s: Settings, replies: nat -> Attempt<P>, i: nat := 0): (sent: nat)
    ensures sent >= 1
    decreases Max0(s.maxRetries) - i
  {
    if ShouldRetry(s, replies(i).reply, i) then Sent(s, replies, i + 1) else i + 1
  }

  lemma {:induction false} SentFrom<P>(s: Settings, replies: nat -> Attempt<P>, sent: nat, i: nat)
    requires Stops(s, replies, sent) && i < sent
    ensures Sent(s, replies, i) == sent
    decreases sent - i
  {
    hide ShouldRetry, Repeats;
    RepeatsAlways(s, replies);
    if i < sent - 1 {
      SentFrom(s, replies, sent, i + 1);
    }
  }

  /** The outcome of a whole run. */
  function RunOutcome<P>(s: Settings, replies: nat -> Attempt<P>): Outcome<P> {
    Settled(replies(Sent(s, replies) - 1).reply)
  }

  /** The retry loop. `replies` says how each attempt would end; `slept` is the total back-off. */
  method ExecuteJsonRequest<P>(s: Settings, replies: nat -> Attempt<P>)
    returns (outcome: Outcome<P>, sent: nat, slept: real)
    ensures Stops(s, replies, sent) && outcome == Settled(replies(sent - 1).reply)
    ensures sent == Sent(s, replies) && outcome == RunOutcome(s, replies)
    ensures sent <= RetryAttempts(s.maxRetries)
    ensures slept == TotalDelay(s.backoff, sent - 1)
  {
    hide ShouldRetry, Repeats;
    RepeatsAlways(s, replies);
    slept := 0.0;
    for attempt := 0 to RetryAttempts(s.maxRetries)
      invariant attempt <= Max0(s.maxRetries)
      invariant forall i: nat :: i < attempt ==> ShouldRetry(s, replies(i).reply, i)
      invariant slept == TotalDelay(s.backoff, attempt)
    {
      var reply := replies(attempt).reply;
      if !ShouldRetry(s, reply, attempt) {
        SentFrom(s, replies, attempt + 1, 0);
        return Settled(reply), attempt + 1, slept;
      }
      slept := slept + RetryDelay(s.backoff, attempt);
    }
    // The last attempt is never retried, so the "exhausted retries" outcome after the loop is not reached.
    assert false;
  }

  /** The back-off of the first `n` attempts together. */
  ghost function TotalDelay(backoff: real, n: nat): real {
    if n == 0 then 0.0 else TotalDelay(backoff, n - 1) + RetryDelay(backoff, n - 1)
  }

  /** The back-off doubles each time, so n delays add up to 2^n - 1 times the first. */
  lemma {:induction false} TotalDelayClosedForm(backoff: real, n: nat)
    ensures TotalDelay(backoff, n) == (if backoff > 0.0 then backoff else 0.0) * (Pow2(n) - 1) as real
  {
    if n > 0 {
      TotalDelayClosedForm(backoff, n - 1);
      var b := if backoff > 0.0 then backoff else 0.0;
      Doubling(b, Pow2(n - 1));
    }
  }

  lemma Doubling(b: real, p: int)
    ensures b * (p - 1) as real + b * p as real == b * (2 * p - 1) as real
  {}

  lemma {:induction false} Pow2Grows(m: nat, n: nat)
    requires m <= n
    ensures Pow2(m) <= Pow2(n)
  {
    if m < n {
      Pow2Grows(m, n - 1);
    }
  }

  /** The retry loop always stops, after at most the allowed number of attempts. */
  lemma StopsInTime<P>(s: Settings, replies: nat -> Attempt<P>, sent: nat)
    requires Stops(s, replies, sent)
    ensures sent <= (if s.maxRetries > 0 then s.maxRetries else 0) + 1
    ensures TotalDelay(s.backoff, sent - 1)
      <= (if s.backoff > 0.0 then s.backoff else 0.0) * (Pow2(Max0(s.maxRetries)) - 1) as real
  {
    hide TotalDelay, RetryDelay, Pow2, Repeats;
    if sent > 1 {
      assert Repeats(s, replies(sent - 2).reply);
    }
    TotalDelayClosedForm(s.backoff, sent - 1);
    Pow2Grows(sent - 1, Max0(s.maxRetries));
    LongerDelay(if s.backoff > 0.0 then s.backoff else 0.0, Pow2(sent - 1) - 1, Pow2(Max0(s.maxRetries)) - 1);
  }

  /** Replies that are always repeated use every retry. */
  lemma EveryRetryIsUsed<P>(s: Settings, replies: nat -> Attempt<P>, sent: nat)
    requires Stops(s, replies, sent) && forall i: nat :: Repeats(s, replies(i).reply)
    ensures sent == (if s.maxRetries > 0 then s.maxRetries else 0) + 1
  {
    hide Repeats;
    assert Repeats(s, replies(sent - 1).reply);
    if sent > 1 {
      assert Repeats(s, replies(sent - 2).reply);
    }
  }

  /** With timeouts not retried, no attempt but the last ends in one. */
  lemma TimeoutEndsTheRun<P>(s: Settings, replies: nat -> Attempt<P>, sent: nat, i: nat)
    requires Stops(s, replies, sent) && !s.retryTimeouts && i < sent
    requires replies(i).reply in {
      Failed(ConnectTimeout), Failed(ReadTimeout), Failed(WriteTimeout), Failed(PoolTimeout)}
    ensures i == sent - 1
  {}

  lemma LongerDelay(b: real, m: int, n: int)
    requires b >= 0.0 && m <= n
    ensures b * m as real <= b * n as real
  {
    var more := n as real - m as real;
    assert b * more >= 0.0;
    assert b * n as real == b * m as real + b * more;
  }

  // ----- delivery -----

  /** `request_with_retry_outcome` follows redirects only for callers that may replay. */
  function RequestSettings(
      retryStatusCodes: Option<set<int>>, retryTimeouts: bool, retryAmbiguous: bool,
      followRedirects: Option<bool>, maxRetries: int, backoff: real): Settings
  {
    Settings(retryStatusCodes, retryTimeouts, retryAmbiguous,
             retryAmbiguous && followRedirects != Some(false), maxRetries, backoff)
  }

  /** `request_with_retry_outcome`: a method other than GET, POST and PUT is refused unsent. */
  method RequestWithRetryOutcome<P>(supported: bool, s: Settings, replies: nat -> Attempt<P>)
    returns (outcome: Outcome<P>, sent: nat, slept: real)
    ensures if supported
      then Stops(s, replies, sent) && outcome == Settled(replies(sent - 1).reply)
        && slept == TotalDelay(s.backoff, sent - 1)
      else sent == 0 && slept == 0.0 && outcome == Outcome(503, None, Some(UnsupportedMethod))
    ensures sent <= RetryAttempts(s.maxRetries)
  {
    if !supported {
      return Outcome(503, None, Some(UnsupportedMethod)), 0, 0.0;
    }
    outcome, sent, slept := ExecuteJsonRequest(s, replies);
  }

  /**
   What the network can do. A response means the producer was reached. A failure to get a
   connection means it was not, unless redirects are followed: then the first hop may have
   been delivered before the second could not be reached.
   */
  ghost predicate Physical<P>(s: Settings, a: Attempt<P>) {
    && (a.reply.Response? ==> a.reached)
    && (a.reply.Failed? && !s.followRedirects
        && (a.reply.error.ConnectError? || a.reply.error.ConnectTimeout? || a.reply.error.PoolTimeout?)
        ==> !a.reached)
  }

  /**
   Without ambiguous replay, an attempt that reached the producer is repeated only when it was
   answered with a status the caller asked to retry.
   */
  lemma RepeatedOnlyWhenAnswered<P>(
      codes: Option<set<int>>, timeouts: bool, follow: Option<bool>, maxRetries: int, backoff: real,
      replies: nat -> Attempt<P>, sent: nat, i: nat)
    requires var s := RequestSettings(codes, timeouts, false, follow, maxRetries, backoff);
      Stops(s, replies, sent) && forall j: nat :: j < sent ==> Physical(s, replies(j))
    requires i < sent - 1 && replies(i).reached
    ensures replies(i).reply.Response? && codes.Some? && replies(i).reply.status in codes.value
  {
    var s := RequestSettings(codes, timeouts, false, follow, maxRetries, backoff);
    assert Repeats(s, replies(i).reply) && Physical(s, replies(i));
  }

  /** In every run the network can play, only the last attempt can have reached the producer. */
  ghost predicate DeliversOnce<P(!new)>(s: Settings) {
    forall replies: nat -> Attempt<P>, sent: nat, i: nat |
      Stops(s, replies, sent) && (forall j: nat :: j < sent ==> Physical(s, replies(j))) && i < sent - 1 ::
      !replies(i).reached
  }

  /** The run whose first attempt ends as told and was delivered, and whose second settles it. */
  function Repeated<P>(first: Reply<P>): nat -> Attempt<P> {
    (i: nat) => Attempt(if i == 0 then first else Failed(DecodingError), i == 0)
  }

  /** A first reply that is retried although the producer was reached delivers the request again. */
  lemma RepeatedIsNotOnce<P(!new)>(s: Settings, first: Reply<P>)
    requires s.maxRetries > 0 && Repeats(s, first)
    requires first.Response? || first == Failed(ReadError)
    ensures !DeliversOnce<P>(s)
  {
    var replies := Repeated(first);
    assert !Repeats(s, replies(1).reply);
    assert Stops(s, replies, 2);
    assert Physical(s, replies(0)) && Physical(s, replies(1));
    assert replies(0).reached;
  }

  lemma SomeMember<T>(s: set<T>) returns (x: T)
    requires s != {}
    ensures x in s
  {
    x :| x in s;
  }

  /**
   At most once: only the last attempt of any run can have reached the producer exactly when nothing
   is retried at all, or neither ambiguous failures nor any status are.
   */
  lemma AtMostOnce<P(!new)>(
      codes: Option<set<int>>, timeouts: bool, ambiguous: bool, follow: Option<bool>, maxRetries: int, backoff: real,
      payload: P)
    ensures DeliversOnce<P>(RequestSettings(codes, timeouts, ambiguous, follow, maxRetries, backoff)) <==>
      maxRetries <= 0 || (!ambiguous && (codes.None? || codes.value == {}))
  {
    var s := RequestSettings(codes, timeouts, ambiguous, follow, maxRetries, backoff);
    if maxRetries > 0 {
      if ambiguous {
        RepeatedIsNotOnce<P>(s, Failed(ReadError));
      } else if codes.Some? && codes.value != {} {
        var c := SomeMember(codes.value);
        RepeatedIsNotOnce(s, Response(c, payload));
      } else {
        forall replies: nat -> Attempt<P>, sent: nat, i: nat |
          Stops(s, replies, sent) && (forall j: nat :: j < sent ==> Physical(s, replies(j))) && i < sent - 1
          ensures !replies(i).reached
        {
          if replies(i).reached {
            RepeatedOnlyWhenAnswered(codes, timeouts, follow, maxRetries, backoff, replies, sent, i);
          }
        }
      }
    }
  }

  /** The answer is lost once, and cannot be decoded the second time. */
  function LostThenGarbled(): nat -> Attempt<()> {
    (i: nat) => Attempt(Failed(if i == 0 then ReadError else DecodingError), true)
  }

  /** With ambiguous replay on and retries left, a run delivers a request twice, whatever the other settings. */
  lemma ReplayDeliversTwice(
      codes: Option<set<int>>, timeouts: bool, follow: Option<bool>, maxRetries: int, backoff: real)
    requires maxRetries > 0
    ensures var s := RequestSettings(codes, timeouts, true, follow, maxRetries, backoff);
      && Stops(s, LostThenGarbled(), 2)
      && Physical(s, LostThenGarbled()(0)) && Physical(s, LostThenGarbled()(1))
      && LostThenGarbled()(0).reached && LostThenGarbled()(1).reached
  {
    var s := RequestSettings(codes, timeouts, true, follow, maxRetries, backoff);
    assert Repeats(s, LostThenGarbled()(0).reply) && !Repeats(s, LostThenGarbled()(1).reply);
  }

  /** What each reply comes to when it settles a run. */
  ghost function FailureTable<P>(reply: Reply<P>): Outcome<P> {
    match reply
    case Response(status, payload) => Outcome(status, Some(payload), None)
    case Failed(ConnectTimeout) => Outcome(503, None, Some(Timeout))
    case Failed(ReadTimeout) => Outcome(503, None, Some(Timeout))
    case Failed(WriteTimeout) => Outcome(503, None, Some(Timeout))
    case Failed(PoolTimeout) => Outcome(503, None, Some(Timeout))
    case Failed(ConnectError) => Outcome(503, None, Some(Transport))
    case Failed(ReadError) => Outcome(503, None, Some(Transport))
    case Failed(WriteError) => Outcome(503, None, Some(Transport))
    case Failed(CloseError) => Outcome(503, None, Some(Transport))
    case Failed(RemoteProtocolError) => Outcome(503, None, Some(Transport))
    case Failed(_) => Outcome(503, None, Some(TerminalRequestError))
  }

  /** The outcome of a run names the failure of its last attempt, and never exhaustion. */
  lemma OutcomeIsOfLastAttempt<P>(s: Settings, replies: nat -> Attempt<P>, sent: nat)
    requires Stops(s, replies, sent)
    ensures var outcome := Settled(replies(sent - 1).reply);
      && outcome == FailureTable(replies(sent - 1).reply)
      && outcome.failure != Some(RetriesExhausted)
      && (outcome.failure == None <==> replies(sent - 1).reply.Response?)
      && (outcome.IsTransientTransportFailure() <==>
            replies(sent - 1).reply.Failed? && replies(sent - 1).reply.error.IsRetryable())
  {}
}
