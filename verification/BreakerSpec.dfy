/** The circuit breaker as a value: what each locked section does to its fields. */
module BreakerSpec {
  datatype State = Closed | Open | HalfOpen

  datatype Counts = Counts(
    requests: nat, totalSuccesses: nat, totalFailures: nat,
    consecutiveSuccesses: nat, consecutiveFailures: nat)

  const NO_COUNTS: Counts := Counts(0, 0, 0, 0, 0)

  datatype Settings = Settings(maxRequests: nat, interval: int, timeout: int, readyToTrip: Counts -> bool)

  /** `notified` lists the state changes reported to the OnStateChange callback. */
  datatype Breaker = Breaker(
    state: State, generation: nat, counts: Counts,
    expiry: int, lastStateChange: int, notified: seq<(State, State)>)

  /** The answer to a request that wants to start; an admitted one carries its generation. */
  datatype Admission = Admitted(generation: nat) | RejectedOpen | RejectedHalfOpen

  function DefaultReadyToTrip(c: Counts): bool {
    c.consecutiveFailures > 5
  }

  function SetState(b: Breaker, s: Settings, state: State, now: int): Breaker {
    if b.state == state then b
    else Breaker(
      state, b.generation + 1,
      b.counts.(requests := 0, consecutiveSuccesses := 0, consecutiveFailures := 0),
      if state == Open then now + s.timeout else b.expiry,
      now, b.notified + [(b.state, state)])
  }

  predicate IntervalElapsed(b: Breaker, s: Settings, now: int) {
    b.state == Closed && s.interval > 0 && now > b.expiry
  }

  function CurrentState(b: Breaker, s: Settings, now: int): Breaker {
    if IntervalElapsed(b, s, now) then b.(counts := NO_COUNTS, expiry := now + s.interval)
    else if b.state == Open && now > b.expiry then SetState(b, s, HalfOpen, now)
    else b
  }

  function Answer(b: Breaker, s: Settings): Admission {
    if b.state == Open then RejectedOpen
    else if b.state == HalfOpen && b.counts.requests >= s.maxRequests then RejectedHalfOpen
    else Admitted(b.generation)
  }

  function BeforeRequest(b: Breaker, s: Settings, now: int): (Breaker, Admission) {
    var c := CurrentState(b, s, now);
    var answer := Answer(c, s);
    (if answer.Admitted? then c.(counts := c.counts.(requests := c.counts.requests + 1)) else c, answer)
  }

  function OnSuccess(b: Breaker, s: Settings, now: int): Breaker {
    var n := b.counts.(
      totalSuccesses := b.counts.totalSuccesses + 1,
      consecutiveSuccesses := b.counts.consecutiveSuccesses + 1,
      consecutiveFailures := 0);
    match b.state
    case Closed => b.(counts := n, expiry := if s.interval > 0 then now + s.interval else b.expiry)
    case HalfOpen =>
      if n.consecutiveSuccesses >= s.maxRequests then SetState(b.(counts := n), s, Closed, now) else b.(counts := n)
    case Open => b
  }

  function OnFailure(b: Breaker, s: Settings, now: int): Breaker {
    var n := b.counts.(
      totalFailures := b.counts.totalFailures + 1,
      consecutiveFailures := b.counts.consecutiveFailures + 1,
      consecutiveSuccesses := 0);
    match b.state
    case Closed => if s.readyToTrip(n) then SetState(b.(counts := n), s, Open, now) else b.(counts := n)
    case HalfOpen => SetState(b.(counts := n), s, Open, now)
    case Open => b
  }

  function AfterRequest(b: Breaker, s: Settings, token: nat, ok: bool, now: int): Breaker {
    var c := CurrentState(b, s, now);
    if token != c.generation then c
    else if ok then OnSuccess(c, s, now)
    else OnFailure(c, s, now)
  }

  function Reset(b: Breaker, s: Settings, now: int): Breaker {
    SetState(b, s, Closed, now).(counts := NO_COUNTS, expiry := now + s.interval)
  }
}
