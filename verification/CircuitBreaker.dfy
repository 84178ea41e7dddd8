/** The circuit breaker object: methods that update its fields under the lock. */
module CircuitBreaker {
  import opened Prelude
  import opened BreakerSpec

  class CircuitBreaker {
    const settings: Settings
    var state: State
    var generation: nat
    var counts: Counts
    var expiry: int
    var lastStateChange: int
    var notified: seq<(State, State)>

    ghost function View(): Breaker
      reads this
    {
      Breaker(state, generation, counts, expiry, lastStateChange, notified)
    }

    /** A breaker without a rule of its own trips on more than five consecutive failures. */
    constructor (maxRequests: nat, interval: int, timeout: int, readyToTrip: Option<Counts -> bool>, now: int)
      ensures View() == Breaker(Closed, 0, Counts(0, 0, 0, 0, 0), 0, now, [])
      ensures settings.maxRequests == maxRequests && settings.interval == interval && settings.timeout == timeout
      ensures settings.readyToTrip == if readyToTrip.Some? then readyToTrip.value else DefaultReadyToTrip
    {
      settings := Settings(maxRequests, interval, timeout,
        if readyToTrip.Some? then readyToTrip.value else DefaultReadyToTrip);
      state, generation, counts, expiry, lastStateChange, notified := Closed, 0, NO_COUNTS, 0, now, [];
    }

    /** One request, from admission to outcome, with no other step in between. */
    method Execute(begin: int, ok: bool, end: int) returns (answer: Admission)
      modifies this
      ensures answer == BreakerSpec.BeforeRequest(old(View()), settings, begin).1
      ensures answer.Admitted? <==>
                || old(state) == Closed
                || (old(state) == HalfOpen && old(counts).requests < settings.maxRequests)
                || (old(state) == Open && begin > old(expiry) && settings.maxRequests >= 1)
      ensures View() == (var b := BreakerSpec.BeforeRequest(old(View()), settings, begin).0;
                         if answer.Admitted? then BreakerSpec.AfterRequest(b, settings, answer.generation, ok, end) else b)
    {
      answer := BeforeRequest(begin);
      if answer.Admitted? {
        AfterRequest(answer.generation, ok, end);
      }
    }

    method BeforeRequest(now: int) returns (answer: Admission)
      modifies this
      ensures (View(), answer) == BreakerSpec.BeforeRequest(old(View()), settings, now)
      ensures answer.Admitted? <==>
                || old(state) == Closed
                || (old(state) == HalfOpen && old(counts).requests < settings.maxRequests)
                || (old(state) == Open && now > old(expiry) && settings.maxRequests >= 1)
      ensures answer.RejectedOpen? <==> old(state) == Open && now <= old(expiry)
      ensures answer.Admitted? ==> answer.generation == generation
      ensures state == if old(state) == Open && now > old(expiry) then HalfOpen else old(state)
      ensures generation == if state == old(state) then old(generation) else old(generation) + 1
      ensures counts.requests ==
                (if answer.Admitted? then 1 else 0) +
                if state != old(state) || (state == Closed && settings.interval > 0 && now > old(expiry)) then 0
                else old(counts).requests
    {
      CurrentState(now);
      if state == Open {
        return RejectedOpen;
      }
      if state == HalfOpen && counts.requests >= settings.maxRequests {
        return RejectedHalfOpen;
      }
      counts := counts.(requests := counts.requests + 1);
      answer := Admitted(generation);
    }

    /** One more failure after these counts trips a closed breaker. */
    ghost predicate Trips(c: Counts) {
      settings.readyToTrip(
        Counts(c.requests, c.totalSuccesses, c.totalFailures + 1, 0, c.consecutiveFailures + 1))
    }

    method AfterRequest(token: nat, success: bool, now: int)
      modifies this
      ensures View() == BreakerSpec.AfterRequest(old(View()), settings, token, success, now)
      ensures var c := BreakerSpec.CurrentState(old(View()), settings, now);
              && (token != c.generation || c.state == Open ==> View() == c)
              && (token == c.generation && c.state != Open ==>
                    && counts.totalSuccesses == c.counts.totalSuccesses + (if success then 1 else 0)
                    && counts.totalFailures == c.counts.totalFailures + (if success then 0 else 1))
      ensures var c := BreakerSpec.CurrentState(old(View()), settings, now);
              token == c.generation && c.state != Open ==>
                state == if success && c.state == HalfOpen && c.counts.consecutiveSuccesses + 1 >= settings.maxRequests then Closed
                         else if !success && (c.state == HalfOpen || Trips(c.counts)) then Open
                         else c.state
    {
      CurrentState(now);
      if token != generation {
        return;
      }
      if success {
        OnSuccess(now);
      } else {
        OnFailure(now);
      }
    }

    method OnSuccess(now: int)
      modifies this
      ensures View() == BreakerSpec.OnSuccess(old(View()), settings, now)
      ensures old(state) == Open ==> View() == old(View())
      ensures old(state) != Open ==>
                && counts.totalSuccesses == old(counts).totalSuccesses + 1 && counts.totalFailures == old(counts).totalFailures
                && counts.consecutiveFailures == 0
      ensures old(state) == Closed ==>
                && state == Closed && generation == old(generation)
                && counts.consecutiveSuccesses == old(counts).consecutiveSuccesses + 1
                && expiry == if settings.interval > 0 then now + settings.interval else old(expiry)
      ensures old(state) == HalfOpen ==>
                && (state == Closed <==> old(counts).consecutiveSuccesses + 1 >= settings.maxRequests)
                && (state != Closed ==> state == HalfOpen && counts.consecutiveSuccesses == old(counts).consecutiveSuccesses + 1)
    {
      if state == Open {
        return;
      }
      counts := counts.(
        totalSuccesses := counts.totalSuccesses + 1,
        consecutiveSuccesses := counts.consecutiveSuccesses + 1,
        consecutiveFailures := 0);
      if state == Closed {
        if settings.interval > 0 {
          expiry := now + settings.interval;
        }
      } else if counts.consecutiveSuccesses >= settings.maxRequests {
        SetState(Closed, now);
      }
    }

    method OnFailure(now: int)
      modifies this
      ensures View() == BreakerSpec.OnFailure(old(View()), settings, now)
      ensures old(state) == Open ==> View() == old(View())
      ensures old(state) != Open ==>
                && counts.totalFailures == old(counts).totalFailures + 1 && counts.totalSuccesses == old(counts).totalSuccesses
                && counts.consecutiveSuccesses == 0
                && (state == Open <==> old(state) == HalfOpen || Trips(old(counts)))
                && (state != Open ==> state == Closed && counts.consecutiveFailures == old(counts).consecutiveFailures + 1)
                && expiry == if state == Open then now + settings.timeout else old(expiry)
    {
      if state == Open {
        return;
      }
      counts := counts.(
        totalFailures := counts.totalFailures + 1,
        consecutiveFailures := counts.consecutiveFailures + 1,
        consecutiveSuccesses := 0);
      if state == HalfOpen || settings.readyToTrip(counts) {
        SetState(Open, now);
      }
    }

    method SetState(next: State, now: int)
      modifies this
      ensures View() == BreakerSpec.SetState(old(View()), settings, next, now)
      ensures old(state) == next ==> View() == old(View())
      ensures old(state) != next ==>
                && state == next && generation == old(generation) + 1 && lastStateChange == now
                && counts == Counts(0, old(counts).totalSuccesses, old(counts).totalFailures, 0, 0)
                && expiry == (if next == Open then now + settings.timeout else old(expiry))
                && notified == old(notified) + [(old(state), next)]
    {
      if state == next {
        return;
      }
      var oldState := state;
      state := next;
      lastStateChange := now;
      counts := counts.(requests := 0, consecutiveSuccesses := 0, consecutiveFailures := 0);
      if next == Open {
        expiry := now + settings.timeout;
      }
      generation := generation + 1;
      notified := notified + [(oldState, next)];
    }

    method CurrentState(now: int)
      modifies this
      ensures View() == BreakerSpec.CurrentState(old(View()), settings, now)
      ensures old(state) == Open && now > old(expiry) ==>
                && state == HalfOpen && generation == old(generation) + 1 && lastStateChange == now && expiry == old(expiry)
                && counts == Counts(0, old(counts).totalSuccesses, old(counts).totalFailures, 0, 0)
                && notified == old(notified) + [(Open, HalfOpen)]
      ensures old(state) == Closed && settings.interval > 0 && now > old(expiry) ==>
                View() == old(View()).(counts := Counts(0, 0, 0, 0, 0), expiry := now + settings.interval)
      ensures !(old(state) == Open && now > old(expiry)) && !(old(state) == Closed && settings.interval > 0 && now > old(expiry)) ==>
                View() == old(View())
    {
      match state
      case Closed =>
        if settings.interval > 0 && now > expiry {
          counts := NO_COUNTS;
          expiry := now + settings.interval;
        }
      case Open =>
        if now > expiry {
          SetState(HalfOpen, now);
        }
      case HalfOpen =>
    }

    /** Asking for the state is a step of its own: it may clear counts or half-open the breaker. */
    method CheckState(now: int) returns (r: State)
      modifies this
      ensures View() == BreakerSpec.CurrentState(old(View()), settings, now) && r == state
      ensures r == if old(state) == Open && now > old(expiry) then HalfOpen else old(state)
    {
      CurrentState(now);
      r := state;
    }

    method Reset(now: int)
      modifies this
      ensures View() == BreakerSpec.Reset(old(View()), settings, now)
      ensures state == Closed && counts == Counts(0, 0, 0, 0, 0) && expiry == now + settings.interval
      ensures if old(state) == Closed
              then generation == old(generation) && lastStateChange == old(lastStateChange) && notified == old(notified)
              else generation == old(generation) + 1 && lastStateChange == now && notified == old(notified) + [(old(state), Closed)]
    {
      if state != Closed {
        SetState(Closed, now);
      }
      counts := NO_COUNTS;
      expiry := now + settings.interval;
    }

    method ForceOpen(now: int)
      modifies this
      ensures View() == BreakerSpec.SetState(old(View()), settings, Open, now)
      ensures state == Open && (old(state) != Open ==> generation == old(generation) + 1 && expiry == now + settings.timeout)
      ensures old(state) == Open ==> View() == old(View())
    {
      if state != Open {
        SetState(Open, now);
      }
    }

    method ForceClose(now: int)
      modifies this
      ensures View() == BreakerSpec.SetState(old(View()), settings, Closed, now)
      ensures state == Closed && expiry == old(expiry) && (old(state) != Closed ==> generation == old(generation) + 1)
      ensures old(state) == Closed ==> View() == old(View())
    {
      if state != Closed {
        SetState(Closed, now);
      }
    }
  }
}
