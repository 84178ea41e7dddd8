/**
 Runs of the circuit breaker with any number of requests in flight: each locked section is one
 step, and completions may arrive in any order, after any delay.
 */
module BreakerRuns {
  import opened BreakerSpec

  datatype Event =
    | Begin(now: int)
    | Complete(token: nat, ok: bool, now: int)
    | Poll(now: int)
    | ResetNow(now: int)
    | ForceOpen(now: int)
    | ForceClose(now: int)

  /**
   The breaker, the tokens of requests in flight, the tokens ever admitted and completed, and the
   outcomes the breaker has counted: since its counts were last cleared in any way, and since they
   were last cleared by Reset or an elapsed interval.
   */
  datatype System = System(
    b: Breaker,
    outstanding: multiset<nat>,
    admitted: multiset<nat>, succeeded: multiset<nat>, failed: multiset<nat>,
    outcomes: seq<bool>, tally: seq<bool>)

  function Initial(start: int): System {
    System(Breaker(Closed, 0, NO_COUNTS, 0, start, []), multiset{}, multiset{}, multiset{}, multiset{}, [], [])
  }

  function Next(b: Breaker, s: Settings, e: Event): Breaker {
    match e
    case Begin(now) => BeforeRequest(b, s, now).0
    case Complete(token, ok, now) => AfterRequest(b, s, token, ok, now)
    case Poll(now) => CurrentState(b, s, now)
    case ResetNow(now) => Reset(b, s, now)
    case ForceOpen(now) => SetState(b, s, Open, now)
    case ForceClose(now) => SetState(b, s, Closed, now)
  }

  predicate Refreshes(e: Event) {
    e.Begin? || e.Complete? || e.Poll?
  }

  /** The completion is older than the generation the breaker is in when it arrives. */
  predicate Stale(b: Breaker, s: Settings, e: Event) {
    e.Complete? && e.token < CurrentState(b, s, e.now).generation
  }

  /** The outcomes a step starts from: an elapsed interval clears them first. */
  function Uncleared(b: Breaker, s: Settings, e: Event, outcomes: seq<bool>): seq<bool> {
    if Refreshes(e) && IntervalElapsed(b, s, e.now) then [] else outcomes
  }

  /** The outcomes since the last clearing once the step's own outcome, if it counts, is added. */
  function Counted(b: Breaker, s: Settings, e: Event, outcomes: seq<bool>): seq<bool> {
    if e.Complete? && e.token == CurrentState(b, s, e.now).generation then Uncleared(b, s, e, outcomes) + [e.ok]
    else Uncleared(b, s, e, outcomes)
  }

  function Advance(sys: System, s: Settings, e: Event): System {
    var b := Next(sys.b, s, e);
    var next := sys.(
      b := b,
      outcomes := if b.generation != sys.b.generation || e.ResetNow? then [] else Counted(sys.b, s, e, sys.outcomes),
      tally := if e.ResetNow? then [] else Counted(sys.b, s, e, sys.tally));
    match e
    case Begin(now) =>
      var answer := BeforeRequest(sys.b, s, now).1;
      var token := if answer.Admitted? then multiset{answer.generation} else multiset{};
      next.(outstanding := sys.outstanding + token, admitted := sys.admitted + token)
    case Complete(token, ok, _) =>
      next.(outstanding := sys.outstanding - multiset{token},
        succeeded := if ok then sys.succeeded + multiset{token} else sys.succeeded,
        failed := if ok then sys.failed else sys.failed + multiset{token})
    case _ => next
  }

  function Run(s: Settings, start: int, trace: seq<Event>): System {
    if trace == [] then Initial(start)
    else Advance(Run(s, start, trace[..|trace| - 1]), s, trace[|trace| - 1])
  }

  function Clock(start: int, trace: seq<Event>): int {
    if trace == [] then start else trace[|trace| - 1].now
  }

  /** Time never goes back, and only requests in flight complete. */
  predicate Legal(s: Settings, start: int, trace: seq<Event>) {
    trace == [] ||
    var init, e := trace[..|trace| - 1], trace[|trace| - 1];
    && Legal(s, start, init)
    && Clock(start, init) <= e.now
    && (e.Complete? ==> e.token in Run(s, start, init).outstanding)
  }

  lemma RunSnoc(s: Settings, start: int, trace: seq<Event>, e: Event)
    ensures Run(s, start, trace + [e]) == Advance(Run(s, start, trace), s, e)
  {
    assert (trace + [e])[..|trace|] == trace;
  }

  // ---------------------------------------------------------------- invariant

  function Trailing(outcomes: seq<bool>, value: bool): nat {
    if outcomes == [] || outcomes[|outcomes| - 1] != value then 0
    else 1 + Trailing(outcomes[..|outcomes| - 1], value)
  }

  lemma TrailingSnoc(outcomes: seq<bool>, last: bool)
    ensures Trailing(outcomes + [last], last) == Trailing(outcomes, last) + 1
    ensures Trailing(outcomes + [last], !last) == 0
  {
    assert (outcomes + [last])[..|outcomes|] == outcomes;
  }

  ghost predicate TokensBalance(sys: System) {
    && (forall g :: g in sys.admitted ==> g <= sys.b.generation)
    && sys.admitted == sys.outstanding + sys.succeeded + sys.failed
  }

  ghost predicate HalfOpenBalance(sys: System, s: Settings) {
    var b, g := sys.b, sys.b.generation;
    && b.counts.requests == sys.admitted[g] == sys.outstanding[g] + b.counts.consecutiveSuccesses
    && b.counts.consecutiveSuccesses == sys.succeeded[g]
    && (s.maxRequests >= 1 ==> b.counts.consecutiveSuccesses < s.maxRequests)
    && b.counts.consecutiveFailures == sys.failed[g] == 0
    && b.counts.requests <= s.maxRequests
  }

  ghost predicate OpenFacts(sys: System, s: Settings) {
    && sys.admitted[sys.b.generation] == 0
    && sys.b.expiry == sys.b.lastStateChange + s.timeout
    && sys.outcomes == []
  }

  ghost predicate TrailingFacts(b: Breaker, outcomes: seq<bool>) {
    && b.counts.consecutiveFailures == Trailing(outcomes, false)
    && b.counts.consecutiveSuccesses == Trailing(outcomes, true)
  }

  ghost predicate Consistent(sys: System, s: Settings) {
    && TokensBalance(sys)
    && (sys.b.state == HalfOpen ==> HalfOpenBalance(sys, s))
    && (sys.b.state == Open ==> OpenFacts(sys, s))
    && TrailingFacts(sys.b, sys.outcomes)
  }

  /** No request of a generation has ever been admitted before the generation begins. */
  lemma FreshGeneration(sys: System, g: nat)
    requires TokensBalance(sys) && sys.b.generation < g
    ensures sys.admitted[g] == sys.outstanding[g] == sys.succeeded[g] == sys.failed[g] == 0
  {
    assert g !in sys.admitted;
    assert sys.admitted[g] == sys.outstanding[g] + sys.succeeded[g] + sys.failed[g];
  }

  lemma {:induction false} BeginKeeps(sys: System, s: Settings, now: int)
    requires Consistent(sys, s)
    ensures Consistent(Advance(sys, s, Begin(now)), s)
  {
    RefreshTrailing(sys, s, Begin(now));
    BeginKeepsBalance(sys, s, now);
  }

  lemma {:induction false} BeginKeepsBalance(sys: System, s: Settings, now: int)
    requires Consistent(sys, s)
    ensures var sys' := Advance(sys, s, Begin(now));
            && TokensBalance(sys')
            && (sys'.b.state == HalfOpen ==> HalfOpenBalance(sys', s))
            && (sys'.b.state == Open ==> sys'.b == sys.b && sys'.admitted == sys.admitted)
  {
    var sys' := Advance(sys, s, Begin(now));
    var refreshed := sys.(b := CurrentState(sys.b, s, now), outcomes := sys'.outcomes, tally := sys'.tally);
    RefreshBalance(sys, refreshed, s, now);
    if Answer(refreshed.b, s).Admitted? {
      AdmitBalance(refreshed, s);
    } else {
      assert sys.outstanding + multiset{} == sys.outstanding && sys.admitted + multiset{} == sys.admitted;
      assert sys' == refreshed;
    }
  }

  lemma RefreshBalance(sys: System, refreshed: System, s: Settings, now: int)
    requires Consistent(sys, s)
    requires refreshed == sys.(b := CurrentState(sys.b, s, now), outcomes := refreshed.outcomes, tally := refreshed.tally)
    ensures TokensBalance(refreshed)
    ensures refreshed.b.state == HalfOpen ==> HalfOpenBalance(refreshed, s)
    ensures refreshed.b.state == Open ==> refreshed.b == sys.b
  {
    FreshGeneration(sys, sys.b.generation + 1);
  }

  lemma AdmitBalance(sys: System, s: Settings)
    requires TokensBalance(sys) && (sys.b.state == HalfOpen ==> HalfOpenBalance(sys, s))
    requires Answer(sys.b, s).Admitted?
    ensures var sys' := sys.(b := sys.b.(counts := sys.b.counts.(requests := sys.b.counts.requests + 1)),
                             outstanding := sys.outstanding + multiset{sys.b.generation},
                             admitted := sys.admitted + multiset{sys.b.generation});
            TokensBalance(sys') && (sys'.b.state == HalfOpen ==> HalfOpenBalance(sys', s))
  {
  }

  lemma CompleteKeepsTokens(sys: System, s: Settings, token: nat, ok: bool, now: int)
    requires TokensBalance(sys) && token in sys.outstanding
    ensures TokensBalance(Advance(sys, s, Complete(token, ok, now)))
    ensures token <= sys.b.generation
  {
    var one := multiset{token};
    assert (sys.outstanding - one) + one == sys.outstanding;
    GenerationGrows(sys.b, s, Complete(token, ok, now));
    CompletionBalances(sys.outstanding - one, sys.succeeded, sys.failed, token);
    assert sys.outstanding[token] <= sys.admitted[token];
  }

  lemma CompletionBalances(inFlight: multiset<nat>, succeeded: multiset<nat>, failed: multiset<nat>, token: nat)
    ensures (inFlight + multiset{token}) + succeeded + failed == inFlight + (succeeded + multiset{token}) + failed
    ensures (inFlight + multiset{token}) + succeeded + failed == inFlight + succeeded + (failed + multiset{token})
  {
  }

  /** Refreshing the state keeps the counts in step with the outcomes since the last clearing. */
  lemma RefreshTrailing(sys: System, s: Settings, e: Event)
    requires Refreshes(e) && TrailingFacts(sys.b, sys.outcomes)
    requires sys.b.state == Open ==> sys.outcomes == []
    ensures TrailingFacts(CurrentState(sys.b, s, e.now), Uncleared(sys.b, s, e, sys.outcomes))
    ensures CurrentState(sys.b, s, e.now).generation != sys.b.generation ==> Uncleared(sys.b, s, e, sys.outcomes) == []
  {
  }

  /** A counted outcome extends the outcomes, unless it changes the state and so clears them. */
  lemma {:induction false} OutcomeTrailing(b: Breaker, s: Settings, ok: bool, now: int, outcomes: seq<bool>)
    requires TrailingFacts(b, outcomes) && b.state != Open
    ensures var b' := if ok then OnSuccess(b, s, now) else OnFailure(b, s, now);
            TrailingFacts(b', if b'.generation == b.generation then outcomes + [ok] else [])
    ensures (if ok then OnSuccess(b, s, now) else OnFailure(b, s, now)).state == Open ==>
              OnFailure(b, s, now).generation != b.generation && !ok
  {
    TrailingSnoc(outcomes, ok);
    var b' := if ok then OnSuccess(b, s, now) else OnFailure(b, s, now);
    if b'.generation == b.generation {
      assert b'.counts.consecutiveFailures == if ok then 0 else b.counts.consecutiveFailures + 1;
      assert b'.counts.consecutiveSuccesses == if ok then b.counts.consecutiveSuccesses + 1 else 0;
    } else {
      assert b'.counts.consecutiveFailures == 0 == b'.counts.consecutiveSuccesses;
    }
  }

  lemma {:induction false} CompleteKeepsTrailing(sys: System, s: Settings, e: Event)
    requires e.Complete? && e.token <= sys.b.generation
    requires TrailingFacts(sys.b, sys.outcomes)
    requires sys.b.state == Open ==> sys.outcomes == [] && e.token < sys.b.generation
    ensures TrailingFacts(Advance(sys, s, e).b, Advance(sys, s, e).outcomes)
    ensures Advance(sys, s, e).b.state == Open && sys.b.state != Open ==> Advance(sys, s, e).outcomes == []
  {
    RefreshTrailing(sys, s, e);
    var c := CurrentState(sys.b, s, e.now);
    if e.token == c.generation {
      OutcomeTrailing(c, s, e.ok, e.now, Uncleared(sys.b, s, e, sys.outcomes));
    }
  }

  /** A completion of the current generation leaves a half-open breaker balanced, closed or open. */
  lemma {:induction false} ProbeCompletes(sys: System, s: Settings, ok: bool, now: int)
    requires TokensBalance(sys) && sys.b.state == HalfOpen && HalfOpenBalance(sys, s)
    requires sys.b.generation in sys.outstanding
    ensures var sys' := Advance(sys, s, Complete(sys.b.generation, ok, now));
            && (sys'.b.state == HalfOpen ==> HalfOpenBalance(sys', s))
            && (sys'.b.state == Open ==> OpenFacts(sys', s))
  {
    FreshGeneration(sys, sys.b.generation + 1);
  }

  lemma {:induction false} CompleteKeeps(sys: System, s: Settings, token: nat, ok: bool, now: int)
    requires Consistent(sys, s)
    requires token in sys.outstanding
    ensures Consistent(Advance(sys, s, Complete(token, ok, now)), s)
  {
    var e := Complete(token, ok, now);
    CompleteKeepsTokens(sys, s, token, ok, now);
    assert sys.outstanding[token] <= sys.admitted[token];
    CompleteKeepsTrailing(sys, s, e);
    if sys.b.state == HalfOpen && token == sys.b.generation {
      ProbeCompletes(sys, s, ok, now);
    } else {
      OtherCompletes(sys, s, e);
    }
  }

  lemma {:induction false} OtherCompletes(sys: System, s: Settings, e: Event)
    requires Consistent(sys, s)
    requires e.Complete? && e.token <= sys.b.generation
    requires sys.b.state == Closed || e.token < sys.b.generation
    ensures var sys' := Advance(sys, s, e);
            && (sys'.b.state == HalfOpen ==> HalfOpenBalance(sys', s))
            && (sys'.b.state == Open ==> OpenFacts(sys', s))
  {
    FreshGeneration(sys, sys.b.generation + 1);
    if sys.b.state != Closed {
      assert Next(sys.b, s, e) == CurrentState(sys.b, s, e.now);
    } else {
      assert Next(sys.b, s, e).state != HalfOpen;
    }
  }

  lemma {:induction false} ControlKeeps(sys: System, s: Settings, e: Event)
    requires Consistent(sys, s)
    requires !e.Begin? && !e.Complete?
    ensures Consistent(Advance(sys, s, e), s)
  {
    FreshGeneration(sys, sys.b.generation + 1);
  }

  lemma {:induction false} RunConsistent(s: Settings, start: int, trace: seq<Event>)
    requires Legal(s, start, trace)
    ensures Consistent(Run(s, start, trace), s)
  {
    if trace != [] {
      var init, e := trace[..|trace| - 1], trace[|trace| - 1];
      RunConsistent(s, start, init);
      var sys := Run(s, start, init);
      match e
      case Begin(now) => BeginKeeps(sys, s, now);
      case Complete(token, ok, now) => CompleteKeeps(sys, s, token, ok, now);
      case _ => ControlKeeps(sys, s, e);
    }
  }

  // ---------------------------------------------------------------- half-open

  /**
   In every reachable half-open state the admitted probes are the ones in flight plus the
   consecutive successes, none has failed, and there is room for at least one more success.
   */
  lemma {:induction false} HalfOpenConservation(s: Settings, start: int, trace: seq<Event>)
    requires Legal(s, start, trace)
    ensures Conserves(Run(s, start, trace), s)
  {
    RunConsistent(s, start, trace);
  }

  ghost predicate Conserves(sys: System, s: Settings) {
    sys.b.state == HalfOpen ==>
      var c, g := sys.b.counts, sys.b.generation;
      && c.requests == sys.outstanding[g] + c.consecutiveSuccesses
      && c.consecutiveFailures == 0
      && (s.maxRequests >= 1 ==> c.consecutiveSuccesses < s.maxRequests)
      && c.requests <= s.maxRequests
      && c.requests == sys.admitted[g]
      && c.consecutiveSuccesses == sys.succeeded[g]
  }

  predicate Probes(b: Breaker, s: Settings, now: int) {
    BeforeRequest(b, s, now).1 == Admitted(b.generation)
  }

  /** If the run leaves the breaker half-open with no probe in flight, a request at this time is admitted. */
  ghost predicate ProbesWhenIdle(s: Settings, start: int, trace: seq<Event>, now: int) {
    var sys := Run(s, start, trace);
    Legal(s, start, trace) && sys.b.state == HalfOpen && sys.outstanding[sys.b.generation] == 0 ==>
      Probes(sys.b, s, now)
  }

  /** A half-open breaker with no probe in flight admits the next request: it can never wedge. */
  lemma {:induction false} NeverWedges(s: Settings, start: int, trace: seq<Event>, now: int)
    requires s.maxRequests >= 1
    ensures ProbesWhenIdle(s, start, trace, now)
  {
    if Legal(s, start, trace) {
      RunConsistent(s, start, trace);
    }
  }

  ghost predicate AlwaysProbes(s: Settings) {
    forall start: int, trace: seq<Event>, now: int :: ProbesWhenIdle(s, start, trace, now)
  }

  /** Forced open and then polled after the timeout, a breaker is half-open and idle. */
  lemma {:induction false} ReachesHalfOpen(s: Settings)
    ensures var t := if s.timeout < 0 then 1 else s.timeout + 1;
            var trace := [ForceOpen(0), Poll(t)]; var sys := Run(s, 0, trace);
            Legal(s, 0, trace) && sys.b.state == HalfOpen && sys.outstanding == multiset{} && sys.b.counts.requests == 0
  {
    var t := if s.timeout < 0 then 1 else s.timeout + 1;
    var first, both := [ForceOpen(0)], [ForceOpen(0), Poll(t)];
    assert both == first + [Poll(t)] && first == [] + [ForceOpen(0)];
    RunSnoc(s, 0, [], ForceOpen(0));
    RunSnoc(s, 0, first, Poll(t));
    assert first[..0] == [] && Legal(s, 0, []);
    assert Legal(s, 0, first);
    assert both[..1] == first;
  }

  /** A breaker never wedges exactly when it was configured with at least one half-open request. */
  lemma {:induction false} NeverWedgesIffConfigured(s: Settings)
    ensures AlwaysProbes(s) <==> s.maxRequests >= 1
  {
    if s.maxRequests >= 1 {
      forall start: int, trace: seq<Event>, now: int
        ensures ProbesWhenIdle(s, start, trace, now)
      {
        NeverWedges(s, start, trace, now);
      }
    } else {
      ReachesHalfOpen(s);
      var t := if s.timeout < 0 then 1 else s.timeout + 1;
      assert !ProbesWhenIdle(s, 0, [ForceOpen(0), Poll(t)], t);
    }
  }

  /** From step n on the breaker is neither reset nor forced into a state. */
  ghost predicate Unforced(trace: seq<Event>, n: nat) {
    forall i :: n <= i < |trace| ==> Refreshes(trace[i])
  }

  lemma StuckStep(sys: System, s: Settings, e: Event)
    requires Consistent(sys, s) && sys.b.state == HalfOpen && s.maxRequests == 0
    requires Refreshes(e) && (e.Complete? ==> e.token in sys.outstanding)
    ensures Dwells(sys, Advance(sys, s, e))
  {
    assert sys.outstanding[sys.b.generation] == 0;
  }

  /**
   Configured with no half-open request, a breaker that is once half-open stays so for ever: no
   request, completion or query changes it or is admitted, whatever the time.
   */
  lemma {:induction false} StuckHalfOpen(s: Settings, start: int, trace: seq<Event>, n: nat)
    requires s.maxRequests == 0 && Legal(s, start, trace) && n <= |trace|
    ensures Run(s, start, trace[..n]).b.state == HalfOpen && Unforced(trace, n) ==>
              Dwells(Run(s, start, trace[..n]), Run(s, start, trace))
  {
    if n == |trace| {
      assert trace[..n] == trace;
    } else if Run(s, start, trace[..n]).b.state == HalfOpen && Unforced(trace, n) {
      var init := trace[..|trace| - 1];
      LegalInit(s, start, trace);
      assert init[..n] == trace[..n];
      assert Unforced(init, n);
      StuckHalfOpen(s, start, init, n);
      RunConsistent(s, start, init);
      StuckStep(Run(s, start, init), s, trace[|trace| - 1]);
    }
  }

  lemma {:induction false} CloseStep(sys: System, s: Settings, e: Event)
    requires Consistent(sys, s) && sys.b.state == HalfOpen
    requires !e.ResetNow? && !e.ForceClose?
    requires e.Complete? ==> e.token in sys.outstanding
    ensures Next(sys.b, s, e).state == Closed <==>
              e.Complete? && e.ok && e.token == sys.b.generation
              && sys.succeeded[sys.b.generation] + 1 == s.maxRequests
    ensures Next(sys.b, s, e).state == Closed ==>
              && sys.admitted[sys.b.generation] == s.maxRequests
              && sys.outstanding[sys.b.generation] == 1
              && sys.failed[sys.b.generation] == 0
  {
  }

  /** The step from one state to the next closes a half-open breaker exactly on full evidence. */
  ghost predicate ClosesRightly(sys: System, s: Settings, e: Event, sys': System) {
    var g := sys.b.generation;
    && (sys'.b.state == Closed <==>
          e.Complete? && e.ok && e.token == g && sys.succeeded[g] + 1 == s.maxRequests)
    && (sys'.b.state == Closed ==>
          && sys'.admitted[g] == s.maxRequests == sys'.succeeded[g]
          && sys'.outstanding[g] == 0 == sys'.failed[g])
  }

  /**
   Apart from Reset and ForceClose, a half-open breaker closes exactly on the success that
   completes the evidence, and then exactly maxRequests probes of its generation were admitted,
   all of them have succeeded and none is in flight.
   */
  lemma {:induction false} ClosesOnFullEvidence(s: Settings, start: int, trace: seq<Event>)
    requires trace != [] && Legal(s, start, trace)
    requires Run(s, start, trace[..|trace| - 1]).b.state == HalfOpen
    requires !trace[|trace| - 1].ResetNow? && !trace[|trace| - 1].ForceClose?
    ensures ClosesRightly(Run(s, start, trace[..|trace| - 1]), s, trace[|trace| - 1], Run(s, start, trace))
  {
    var init := trace[..|trace| - 1];
    LegalInit(s, start, trace);
    RunConsistent(s, start, init);
    CloseStep(Run(s, start, init), s, trace[|trace| - 1]);
  }

  // ---------------------------------------------------------------- admission

  /** The answers a request gets: admitted while closed, while half-open below the limit, and as first probe; else rejected. */
  ghost predicate AdmitsRightly(b: Breaker, s: Settings, now: int) {
    var (b', answer) := BeforeRequest(b, s, now);
    && (answer.Admitted? <==>
          || b.state == Closed
          || (b.state == HalfOpen && b.counts.requests < s.maxRequests)
          || (b.state == Open && now > b.lastStateChange + s.timeout && s.maxRequests >= 1))
    && (answer.RejectedOpen? <==> b.state == Open && now <= b.lastStateChange + s.timeout)
    && (answer.Admitted? ==> answer.generation == b'.generation)
    && (b.state == Closed ==> answer.generation == b.generation && b'.state == Closed && 1 <= b'.counts.requests <= b.counts.requests + 1)
    && (b.state == HalfOpen && answer.Admitted? ==> b' == b.(counts := b.counts.(requests := b.counts.requests + 1)))
    && (b.state == HalfOpen && !answer.Admitted? ==> b' == b)
  }

  /** In every reachable state, exactly which requests are admitted. */
  lemma {:induction false} AdmissionIsExact(s: Settings, start: int, trace: seq<Event>, now: int)
    requires Legal(s, start, trace)
    ensures AdmitsRightly(Run(s, start, trace).b, s, now)
  {
    RunConsistent(s, start, trace);
    AdmissionStep(Run(s, start, trace), s, now);
  }

  lemma AdmissionStep(sys: System, s: Settings, now: int)
    requires sys.b.state == Open ==> OpenFacts(sys, s)
    ensures AdmitsRightly(sys.b, s, now)
  {
  }

  // ---------------------------------------------------------------- stale outcomes

  /** The run with every stale completion replaced by a state poll at the same instant. */
  function Erase(s: Settings, start: int, trace: seq<Event>): (r: seq<Event>)
    ensures |r| == |trace|
  {
    if trace == [] then []
    else
      var init, e := trace[..|trace| - 1], trace[|trace| - 1];
      Erase(s, start, init) + [if Stale(Run(s, start, init).b, s, e) then Poll(e.now) else e]
  }

  lemma {:induction false} ErasePrefix(s: Settings, start: int, trace: seq<Event>, n: nat)
    requires n <= |trace|
    ensures Erase(s, start, trace)[..n] == Erase(s, start, trace[..n])
  {
    if n < |trace| {
      var init := trace[..|trace| - 1];
      ErasePrefix(s, start, init, n);
      assert init[..n] == trace[..n];
      assert Erase(s, start, trace)[..n] == Erase(s, start, init)[..n];
    } else {
      assert trace[..n] == trace;
    }
  }

  /** What the two runs share: everything but the bookkeeping of the erased completions. */
  ghost predicate SameBreaker(sys: System, erased: System) {
    && erased.b == sys.b
    && erased.admitted == sys.admitted
    && erased.outcomes == sys.outcomes && erased.tally == sys.tally
    && sys.outstanding <= erased.outstanding
    && forall g :: g >= sys.b.generation ==>
         erased.succeeded[g] == sys.succeeded[g] && erased.failed[g] == sys.failed[g]
  }

  /**
   Late outcomes of an earlier generation have no effect at all: the run without them is legal and
   has the same breaker state, counts, notifications and admissions.
   */
  lemma {:induction false} StaleOutcomesErased(s: Settings, start: int, trace: seq<Event>)
    requires Legal(s, start, trace)
    ensures Legal(s, start, Erase(s, start, trace))
    ensures SameBreaker(Run(s, start, trace), Run(s, start, Erase(s, start, trace)))
    ensures Clock(start, Erase(s, start, trace)) == Clock(start, trace)
  {
    if trace != [] {
      var init, e := trace[..|trace| - 1], trace[|trace| - 1];
      StaleOutcomesErased(s, start, init);
      RunConsistent(s, start, init);
      var erased := Erase(s, start, trace);
      assert erased[..|trace| - 1] == Erase(s, start, init);
      EraseStep(Run(s, start, init), Run(s, start, Erase(s, start, init)), s, e);
    }
  }

  lemma StaleChangesNothing(b: Breaker, s: Settings, e: Event)
    requires Stale(b, s, e)
    ensures Next(b, s, e) == Next(b, s, Poll(e.now))
  {
  }

  lemma GenerationGrows(b: Breaker, s: Settings, e: Event)
    ensures b.generation <= Next(b, s, e).generation
  {
  }

  lemma {:induction false} EraseStep(sys: System, erased: System, s: Settings, e: Event)
    requires SameBreaker(sys, erased)
    requires e.Complete? ==> e.token in sys.outstanding
    ensures SameBreaker(Advance(sys, s, e), Advance(erased, s, if Stale(sys.b, s, e) then Poll(e.now) else e))
    ensures e.Complete? ==> e.token in erased.outstanding
  {
    GenerationGrows(sys.b, s, e);
    if Stale(sys.b, s, e) {
      EraseStale(sys, erased, s, e);
    } else {
      if e.Complete? {
        assert sys.outstanding[e.token] <= erased.outstanding[e.token];
      }
      KeepFresh(sys, erased, s, e);
    }
  }

  lemma {:induction false} EraseStale(sys: System, erased: System, s: Settings, e: Event)
    requires SameBreaker(sys, erased) && Stale(sys.b, s, e)
    ensures SameBreaker(Advance(sys, s, e), Advance(erased, s, Poll(e.now)))
  {
    GenerationGrows(sys.b, s, e);
    StaleChangesNothing(sys.b, s, e);
    StaleBelowNext(sys, s, e);
    assert Advance(erased, s, Poll(e.now)) ==
           erased.(b := Advance(sys, s, e).b, outcomes := Advance(sys, s, e).outcomes, tally := Advance(sys, s, e).tally);
  }

  lemma {:induction false} KeepFresh(sys: System, erased: System, s: Settings, e: Event)
    requires SameBreaker(sys, erased)
    ensures SameBreaker(Advance(sys, s, e), Advance(erased, s, e))
  {
    GenerationGrows(sys.b, s, e);
    match e
    case Complete(token, ok, now) => KeepCompletion(sys, erased, s, e);
    case _ =>
  }

  lemma {:induction false} KeepCompletion(sys: System, erased: System, s: Settings, e: Event)
    requires SameBreaker(sys, erased) && e.Complete?
    ensures SameBreaker(Advance(sys, s, e), Advance(erased, s, e))
  {
    GenerationGrows(sys.b, s, e);
    var sys', erased' := Advance(sys, s, e), Advance(erased, s, e);
    assert erased'.b == sys'.b && erased'.outcomes == sys'.outcomes && erased'.tally == sys'.tally;
    assert forall g :: sys'.outstanding[g] <= erased'.outstanding[g];
  }

  /** A stale token is below the generation the step leaves behind. */
  lemma {:induction false} StaleBelowNext(sys: System, s: Settings, e: Event)
    requires Stale(sys.b, s, e)
    ensures e.token < Next(sys.b, s, e).generation
    ensures forall outcomes :: Counted(sys.b, s, e, outcomes) == Counted(sys.b, s, Poll(e.now), outcomes)
  {
    StaleChangesNothing(sys.b, s, e);
  }

  lemma {:induction false} LegalPrefix(s: Settings, start: int, trace: seq<Event>, n: nat)
    requires Legal(s, start, trace) && n <= |trace|
    ensures Legal(s, start, trace[..n])
  {
    if n == |trace| {
      assert trace[..n] == trace;
    } else {
      var init := trace[..|trace| - 1];
      LegalPrefix(s, start, init, n);
      assert init[..n] == trace[..n];
    }
  }

  /** The two runs agree after every step, not only at the end. */
  lemma {:induction false} ErasedThroughout(s: Settings, start: int, trace: seq<Event>, n: nat)
    requires Legal(s, start, trace) && n <= |trace|
    ensures SameBreaker(Run(s, start, trace[..n]), Run(s, start, Erase(s, start, trace)[..n]))
  {
    LegalPrefix(s, start, trace, n);
    StaleOutcomesErased(s, start, trace[..n]);
    ErasePrefix(s, start, trace, n);
  }

  /** The erased run holds no stale completion. */
  lemma {:induction false} ErasedHasNoStale(s: Settings, start: int, trace: seq<Event>, n: nat)
    requires Legal(s, start, trace)
    requires n < |trace|
    ensures var erased := Erase(s, start, trace);
            !Stale(Run(s, start, erased[..n]).b, s, erased[n])
    decreases |trace|
  {
    var init, e := trace[..|trace| - 1], trace[|trace| - 1];
    var erased := Erase(s, start, trace);
    assert erased[..|init|] == Erase(s, start, init);
    if n < |init| {
      ErasedHasNoStale(s, start, init, n);
      assert erased[..n] == Erase(s, start, init)[..n];
    } else {
      StaleOutcomesErased(s, start, init);
    }
  }

  // ---------------------------------------------------------------- open dwell

  /** From step n on there is no Reset or ForceClose, and every step comes by the given time. */
  ghost predicate LeftAlone(trace: seq<Event>, n: nat, limit: int) {
    forall i :: n <= i < |trace| ==> !trace[i].ResetNow? && !trace[i].ForceClose? && trace[i].now <= limit
  }

  /** The breaker is as it was and has admitted nothing more. */
  ghost predicate Dwells(before: System, after: System) {
    after.b == before.b && after.admitted == before.admitted
  }

  /** The run opens the breaker by step n and then leaves it alone until its timeout. */
  ghost predicate OpenAndLeftAlone(s: Settings, start: int, trace: seq<Event>, n: nat)
    requires n <= |trace|
  {
    var b := Run(s, start, trace[..n]).b;
    b.state == Open && LeftAlone(trace, n, b.lastStateChange + s.timeout)
  }

  /**
   Once open at time t (its last state change), and without Reset or ForceClose, the breaker stays
   open in the same generation through every step up to t + timeout and admits nothing.
   */
  lemma {:induction false} OpenDwell(s: Settings, start: int, trace: seq<Event>, n: nat)
    requires Legal(s, start, trace) && n <= |trace|
    ensures OpenAndLeftAlone(s, start, trace, n) ==> Dwells(Run(s, start, trace[..n]), Run(s, start, trace))
  {
    if n == |trace| {
      assert trace[..n] == trace;
    } else if OpenAndLeftAlone(s, start, trace, n) {
      var init := trace[..|trace| - 1];
      LegalInit(s, start, trace);
      assert init[..n] == trace[..n];
      assert OpenAndLeftAlone(s, start, init, n);
      OpenDwell(s, start, init, n);
      DwellLast(s, start, trace, Run(s, start, trace[..n]));
    }
  }

  lemma LegalInit(s: Settings, start: int, trace: seq<Event>)
    requires trace != [] && Legal(s, start, trace)
    ensures Legal(s, start, trace[..|trace| - 1])
  {
  }

  lemma {:induction false} DwellLast(s: Settings, start: int, trace: seq<Event>, first: System)
    requires trace != [] && Legal(s, start, trace)
    requires first.b.state == Open && Dwells(first, Run(s, start, trace[..|trace| - 1]))
    requires LeftAlone(trace, |trace| - 1, first.b.lastStateChange + s.timeout)
    ensures Dwells(first, Run(s, start, trace))
  {
    var init, e := trace[..|trace| - 1], trace[|trace| - 1];
    RunConsistent(s, start, init);
    DwellStep(Run(s, start, init), s, e);
  }

  lemma {:induction false} DwellStep(sys: System, s: Settings, e: Event)
    requires Consistent(sys, s) && sys.b.state == Open
    requires !e.ResetNow? && !e.ForceClose? && e.now <= sys.b.lastStateChange + s.timeout
    requires e.Complete? ==> e.token in sys.outstanding
    ensures Advance(sys, s, e).b == sys.b && Advance(sys, s, e).admitted == sys.admitted
  {
    assert sys.outstanding[sys.b.generation] <= sys.admitted[sys.b.generation];
  }

  /** The first request after the timeout of a breaker still open half-opens it and is admitted. */
  lemma {:induction false} FirstProbeAdmitted(s: Settings, start: int, trace: seq<Event>, now: int)
    requires Legal(s, start, trace) && s.maxRequests >= 1
    ensures Run(s, start, trace).b.state == Open ==> ProbeAnswer(Run(s, start, trace).b, s, now)
  {
    RunConsistent(s, start, trace);
    if Run(s, start, trace).b.state == Open {
      OpenProbe(Run(s, start, trace), s, now);
    }
  }

  ghost predicate ProbeAnswer(b: Breaker, s: Settings, now: int) {
    var (b', answer) := BeforeRequest(b, s, now);
    if now <= b.lastStateChange + s.timeout then b' == b && answer == RejectedOpen
    else b'.state == HalfOpen && b'.counts.requests == 1 && answer == Admitted(b.generation + 1)
  }

  lemma OpenProbe(sys: System, s: Settings, now: int)
    requires sys.b.state == Open && OpenFacts(sys, s) && s.maxRequests >= 1
    ensures ProbeAnswer(sys.b, s, now)
  {
  }

  // ---------------------------------------------------------------- trip rule

  /** In every reachable state the consecutive failures are the failures that end the counted outcomes. */
  lemma {:induction false} FailuresAreTrailingRun(s: Settings, start: int, trace: seq<Event>)
    requires Legal(s, start, trace)
    ensures var sys := Run(s, start, trace);
            && sys.b.counts.consecutiveFailures == Trailing(sys.outcomes, false)
            && sys.b.counts.consecutiveSuccesses == Trailing(sys.outcomes, true)
  {
    RunConsistent(s, start, trace);
  }

  ghost predicate DefaultRule(s: Settings) {
    forall c :: s.readyToTrip(c) == DefaultReadyToTrip(c)
  }

  lemma BelowSixStep(b: Breaker, s: Settings, e: Event)
    requires DefaultRule(s)
    requires b.state == Closed ==> b.counts.consecutiveFailures <= 5
    ensures var b' := Next(b, s, e); b'.state == Closed ==> b'.counts.consecutiveFailures <= 5
  {
  }

  lemma {:induction false} ClosedBelowSix(s: Settings, start: int, trace: seq<Event>)
    requires DefaultRule(s)
    ensures var b := Run(s, start, trace).b; b.state == Closed ==> b.counts.consecutiveFailures <= 5
  {
    if trace != [] {
      var init := trace[..|trace| - 1];
      ClosedBelowSix(s, start, init);
      BelowSixStep(Run(s, start, init).b, s, trace[|trace| - 1]);
    }
  }

  lemma TripOutcome(b: Breaker, s: Settings, ok: bool, now: int, outcomes: seq<bool>)
    requires DefaultRule(s) && b.state == Closed
    requires b.counts.consecutiveFailures == Trailing(outcomes, false) <= 5
    ensures (if ok then OnSuccess(b, s, now) else OnFailure(b, s, now)).state == Open <==>
              !ok && Trailing(outcomes + [ok], false) == 6
  {
    TrailingSnoc(outcomes, ok);
  }

  lemma {:induction false} TripStep(sys: System, s: Settings, e: Event)
    requires TrailingFacts(sys.b, sys.outcomes) && sys.b.state == Closed && DefaultRule(s)
    requires sys.b.counts.consecutiveFailures <= 5 && !e.ForceOpen?
    ensures Next(sys.b, s, e).state == Open <==>
              e.Complete? && !e.ok && Trailing(Counted(sys.b, s, e, sys.outcomes), false) == 6
  {
    if e.Complete? {
      RefreshTrailing(sys, s, e);
      var c := CurrentState(sys.b, s, e.now);
      if e.token == c.generation {
        TripOutcome(c, s, e.ok, e.now, Uncleared(sys.b, s, e, sys.outcomes));
      }
    }
  }

  ghost predicate TripsRightly(sys: System, s: Settings, e: Event, sys': System) {
    sys'.b.state == Open <==> e.Complete? && !e.ok && Trailing(Counted(sys.b, s, e, sys.outcomes), false) == 6
  }

  /**
   With the default rule a closed breaker trips on an outcome exactly when that outcome extends the
   trailing failures counted since the last clearing to six.
   */
  lemma {:induction false} TripsExactlyAtSix(s: Settings, start: int, trace: seq<Event>)
    requires trace != [] && Legal(s, start, trace) && DefaultRule(s)
    requires Run(s, start, trace[..|trace| - 1]).b.state == Closed && !trace[|trace| - 1].ForceOpen?
    ensures TripsRightly(Run(s, start, trace[..|trace| - 1]), s, trace[|trace| - 1], Run(s, start, trace))
  {
    var init := trace[..|trace| - 1];
    LegalInit(s, start, trace);
    RunConsistent(s, start, init);
    ClosedBelowSix(s, start, init);
    TripStep(Run(s, start, init), s, trace[|trace| - 1]);
  }

  // ---------------------------------------------------------------- totals and the interval

  function Tally(outcomes: seq<bool>, value: bool): nat {
    if outcomes == [] then 0
    else Tally(outcomes[..|outcomes| - 1], value) + if outcomes[|outcomes| - 1] == value then 1 else 0
  }

  lemma TallySnoc(outcomes: seq<bool>, last: bool)
    ensures Tally(outcomes + [last], last) == Tally(outcomes, last) + 1
    ensures Tally(outcomes + [last], !last) == Tally(outcomes, !last)
  {
    assert (outcomes + [last])[..|outcomes|] == outcomes;
  }

  ghost predicate TotalsTrack(b: Breaker, tally: seq<bool>) {
    b.counts.totalSuccesses == Tally(tally, true) && b.counts.totalFailures == Tally(tally, false)
  }

  lemma OutcomeTotals(b: Breaker, s: Settings, ok: bool, now: int, tally: seq<bool>)
    requires TotalsTrack(b, tally) && b.state != Open
    ensures TotalsTrack(if ok then OnSuccess(b, s, now) else OnFailure(b, s, now), tally + [ok])
  {
    TallySnoc(tally, ok);
  }

  lemma {:induction false} StepTotals(sys: System, s: Settings, e: Event)
    requires TotalsTrack(sys.b, sys.tally)
    requires e.Complete? && sys.b.state == Open ==> e.token < sys.b.generation
    ensures TotalsTrack(Advance(sys, s, e).b, Advance(sys, s, e).tally)
  {
    if e.Complete? {
      var c := CurrentState(sys.b, s, e.now);
      if e.token == c.generation {
        OutcomeTotals(c, s, e.ok, e.now, Uncleared(sys.b, s, e, sys.tally));
      }
    }
  }

  /** The totals survive state changes: they count every outcome taken into account since the last Reset or elapsed interval. */
  lemma {:induction false} TotalsCountOutcomes(s: Settings, start: int, trace: seq<Event>)
    requires Legal(s, start, trace)
    ensures TotalsTrack(Run(s, start, trace).b, Run(s, start, trace).tally)
  {
    if trace != [] {
      var init, e := trace[..|trace| - 1], trace[|trace| - 1];
      TotalsCountOutcomes(s, start, init);
      RunConsistent(s, start, init);
      var sys := Run(s, start, init);
      if e.Complete? && sys.b.state == Open {
        CurrentTokensOnly(sys, s, e.token);
      }
      StepTotals(sys, s, e);
    }
  }

  /** No request in flight carries the generation of an open breaker. */
  lemma CurrentTokensOnly(sys: System, s: Settings, token: nat)
    requires Consistent(sys, s) && sys.b.state == Open && token in sys.outstanding
    ensures token < sys.b.generation
  {
    assert sys.outstanding[token] <= sys.admitted[token];
  }

  /** What last set the breaker's expiry: nothing yet, the start of an interval, or an opening. */
  datatype Renewal = Never | Started(at: int) | Opened(at: int)

  /** The step starts an interval: a counted success while closed, an elapsed interval, or a Reset. */
  predicate StartsInterval(b: Breaker, s: Settings, e: Event) {
    || e.ResetNow?
    || (Refreshes(e) && IntervalElapsed(b, s, e.now))
    || (s.interval > 0 && b.state == Closed && e.Complete? && e.ok && e.token == b.generation)
  }

  function LatestRenewal(s: Settings, start: int, trace: seq<Event>): Renewal {
    if trace == [] then Never
    else
      var init, e := trace[..|trace| - 1], trace[|trace| - 1];
      var b := Run(s, start, init).b;
      if b.state != Open && Next(b, s, e).state == Open then Opened(e.now)
      else if StartsInterval(b, s, e) then Started(e.now)
      else LatestRenewal(s, start, init)
  }

  function Due(r: Renewal, s: Settings): int {
    match r
    case Never => 0
    case Started(at) => at + s.interval
    case Opened(at) => at + s.timeout
  }

  /** The expiry is the latest renewal's; half-open, that is an opening whose timeout has passed. */
  ghost predicate RenewalFacts(b: Breaker, s: Settings, r: Renewal, clock: int) {
    && b.expiry == Due(r, s)
    && (b.state == Open ==> r.Opened?)
    && (b.state == HalfOpen ==> r.Opened? && Due(r, s) < clock)
  }

  lemma RenewalStep(b: Breaker, s: Settings, e: Event, r: Renewal, clock: int)
    requires RenewalFacts(b, s, r, clock) && clock <= e.now
    requires e.Complete? && b.state == Open ==> e.token < b.generation
    ensures var b' := Next(b, s, e);
            RenewalFacts(b', s,
              if b.state != Open && b'.state == Open then Opened(e.now) else if StartsInterval(b, s, e) then Started(e.now) else r,
              e.now)
  {
  }

  lemma {:induction false} RunRenewal(s: Settings, start: int, trace: seq<Event>)
    requires Legal(s, start, trace)
    ensures RenewalFacts(Run(s, start, trace).b, s, LatestRenewal(s, start, trace), Clock(start, trace))
  {
    if trace != [] {
      var init, e := trace[..|trace| - 1], trace[|trace| - 1];
      RunRenewal(s, start, init);
      RunConsistent(s, start, init);
      var sys := Run(s, start, init);
      if e.Complete? && sys.b.state == Open {
        CurrentTokensOnly(sys, s, e.token);
      }
      RenewalStep(sys.b, s, e, LatestRenewal(s, start, init), Clock(start, init));
    }
  }

  /** What a query of a closed breaker finds: the counts it had, or none once the interval is over. */
  ghost predicate ClearsWhenDue(b: Breaker, s: Settings, due: int, now: int) {
    b.state == Closed ==>
      CurrentState(b, s, now) == if s.interval > 0 && now > due then b.(counts := NO_COUNTS, expiry := now + s.interval) else b
  }

  /**
   The counts of a closed breaker are cleared by the first step after its due time, with an interval
   configured and not otherwise. That time is an interval after the latest counted success while
   closed, clearing or Reset, or a timeout after the latest opening when that came later; failures,
   closings and ForceClose do not move it.
   */
  lemma {:induction false} IntervalRestarts(s: Settings, start: int, trace: seq<Event>, now: int)
    requires Legal(s, start, trace)
    ensures ClearsWhenDue(Run(s, start, trace).b, s, Due(LatestRenewal(s, start, trace), s), now)
  {
    RunRenewal(s, start, trace);
  }

  /** So a breaker that has just left half-open for closed forgets its totals on the very next step. */
  lemma {:induction false} ClosingIsWiped(s: Settings, start: int, trace: seq<Event>, now: int)
    requires trace != [] && Legal(s, start, trace) && Clock(start, trace) <= now && s.interval > 0
    requires Run(s, start, trace[..|trace| - 1]).b.state == HalfOpen && Run(s, start, trace).b.state == Closed
    requires !trace[|trace| - 1].ResetNow?
    ensures CurrentState(Run(s, start, trace).b, s, now).counts == NO_COUNTS
    ensures CurrentState(Run(s, start, trace).b, s, now).expiry == now + s.interval
  {
    var init := trace[..|trace| - 1];
    LegalInit(s, start, trace);
    RunRenewal(s, start, init);
    ClosedWiped(Run(s, start, init).b, s, trace[|trace| - 1], now);
  }

  lemma ClosedWiped(b: Breaker, s: Settings, e: Event, now: int)
    requires b.state == HalfOpen && b.expiry < e.now <= now && Next(b, s, e).state == Closed && !e.ResetNow? && s.interval > 0
    ensures CurrentState(Next(b, s, e), s, now).counts == NO_COUNTS
    ensures CurrentState(Next(b, s, e), s, now).expiry == now + s.interval
  {
  }

  // ---------------------------------------------------------------- notifications

  ghost predicate Path(from: State, changes: seq<(State, State)>, to: State)
    decreases |changes|
  {
    if changes == [] then from == to
    else
      var last := changes[|changes| - 1];
      && last.1 == to && last.0 != to
      && Path(from, changes[..|changes| - 1], last.0)
  }

  lemma PathSnoc(from: State, changes: seq<(State, State)>, mid: State, to: State)
    requires Path(from, changes, mid) && mid != to
    ensures Path(from, changes + [(mid, to)], to)
  {
    assert (changes + [(mid, to)])[..|changes|] == changes;
  }

  ghost predicate Reported(b: Breaker) {
    Path(Closed, b.notified, b.state) && |b.notified| == b.generation
  }

  lemma SetStateReports(b: Breaker, s: Settings, state: State, now: int)
    requires Reported(b)
    ensures Reported(SetState(b, s, state, now))
  {
    if b.state != state {
      PathSnoc(Closed, b.notified, b.state, state);
    }
  }

  lemma RefreshReports(b: Breaker, s: Settings, now: int)
    requires Reported(b)
    ensures Reported(CurrentState(b, s, now))
  {
    SetStateReports(b, s, HalfOpen, now);
  }

  lemma OutcomeReports(b: Breaker, s: Settings, ok: bool, now: int)
    requires Reported(b)
    ensures Reported(if ok then OnSuccess(b, s, now) else OnFailure(b, s, now))
  {
    forall c, to
      ensures Reported(SetState(b.(counts := c), s, to, now))
    {
      SetStateReports(b.(counts := c), s, to, now);
    }
  }

  lemma NextReports(b: Breaker, s: Settings, e: Event)
    requires Reported(b)
    ensures Reported(Next(b, s, e))
  {
    RefreshReports(b, s, e.now);
    match e
    case Complete(_, ok, now) => OutcomeReports(CurrentState(b, s, now), s, ok, now);
    case ResetNow(now) => SetStateReports(b, s, Closed, now);
    case ForceOpen(now) => SetStateReports(b, s, Open, now);
    case ForceClose(now) => SetStateReports(b, s, Closed, now);
    case _ =>
  }

  /**
   Each state change is reported once, in order, and takes a generation of its own: the callbacks
   are a path from closed to the present state, and no generation is ever reused.
   */
  lemma {:induction false} NotificationsFollowState(s: Settings, start: int, trace: seq<Event>)
    ensures Reported(Run(s, start, trace).b)
  {
    if trace != [] {
      var init := trace[..|trace| - 1];
      NotificationsFollowState(s, start, init);
      NextReports(Run(s, start, init).b, s, trace[|trace| - 1]);
    }
  }
}
