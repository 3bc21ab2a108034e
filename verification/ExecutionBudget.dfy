/** The elapsed-time budget of src/app/execution_budget.py; `now` stands for the monotonic clock. */
module ExecutionBudget {
  import opened Wrappers

  /** A JSON value in a response payload, as far as the gateway looks at it. */
  datatype Value = Text(text: string) | Number(x: real) | NotFinite | Truth(b: bool) | Other(truthy: bool)

  type Payload = map<string, Value>

  /** How a request under a budget ends, and when. */
  datatype Ran = Delivered(at: real) | Exceeded(at: real)

  datatype Budget = Budget(deadlineAt: Option<real>) {
    function Remaining(now: real): Option<real> {
      match deadlineAt
      case None => None
      case Some(deadline) => Some(deadline - now)
    }

    predicate IsBounded() {
      deadlineAt.Some?
    }

    predicate IsExpired(now: real) {
      Remaining(now).Some? && Remaining(now).value <= 0.0
    }

    function RequestMaxRetries(retries: int): int {
      if IsBounded() then 0 else retries
    }

    /** How long to sleep before the next poll: never past the deadline. */
    function PollInterval(payload: Payload, fallback: real, now: real): real {
      var interval := RecommendedPollInterval(payload, fallback);
      match Remaining(now)
      case None => interval
      case Some(left) =>
        var floor := if left > 0.0 then left else 0.0;
        if interval < floor then interval else floor
    }

    /**
     Runs a request that would answer after `latency`; the timer or the answer wakes the caller
     `lag` after it is due.
     */
    function RunRequest(now: real, latency: real, lag: real): Ran {
      match Remaining(now)
      case None => Delivered(now + latency + lag)
      case Some(left) =>
        if left <= 0.0 then Exceeded(now)
        else if latency <= left then Delivered(now + latency + lag)
        else Exceeded(now + left + lag)
    }
  }

  function FromTimeout(timeout: Option<real>, now: real): Budget {
    match timeout
    case None => Budget(None)
    case Some(seconds) => Budget(Some(now + seconds))
  }

  /** The interval the source recommends, when it is a positive finite number and not a boolean. */
  function RecommendedPollInterval(payload: Payload, fallback: real): real {
    if "recommended_poll_after_seconds" !in payload then fallback
    else match payload["recommended_poll_after_seconds"]
      case Number(x) => if x > 0.0 then x else fallback
      case _ => fallback
  }

  /** A sleep under a bounded budget never plans to end after the deadline. */
  lemma SleepEndsByDeadline(b: Budget, payload: Payload, fallback: real, now: real)
    requires b.IsBounded() && now <= b.deadlineAt.value
    ensures now + b.PollInterval(payload, fallback, now) <= b.deadlineAt.value
    ensures b.PollInterval(payload, fallback, now) <= RecommendedPollInterval(payload, fallback)
    ensures fallback > 0.0 && now < b.deadlineAt.value ==> b.PollInterval(payload, fallback, now) > 0.0
  {}
}
