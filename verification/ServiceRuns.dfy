/**
 Runs of any number of replicas, each with a failure guard of its own, in front of one store, with
 any number of calls in flight: each locked section and each store call is one step, and the steps
 of different calls interleave freely.
 */
module ServiceRuns {
  import opened Prelude
  import opened LimitResults
  import opened SlidingWindow
  import opened Admission
  import opened Storage
  import opened ServiceSpec

  datatype Request = Check(fullKey: string, windowName: string) | Admin

  /** A decision; `at` is the position of the call's script among those run on its key. */
  datatype Answer = Answer(at: nat, limit: int, fields: LimitFields)

  /** Where a call stands; Passing carries the decision of a check, or nothing for an update. */
  datatype Stage =
    | Arrived
    | Admitting
    | AskingLimit
    | Counting(limit: int)
    | Administering
    | Failing
    | Passing(decision: Option<Answer>)
    | Done(outcome: Outcome)

  datatype Outcome =
    | FellBack
    | Whitelisted
    | BadWindow
    | StoreError
    | Administered
    | Counted(answer: Answer)

  datatype Call = Call(replica: nat, request: Request, stage: Stage)

  datatype Event =
    | Arrive(id: nat, replica: nat, request: Request)
    | AskGuard(id: nat, now: int)
    | WhitelistReply(id: nat, reply: Option<bool>)
    | LimitReply(id: nat, custom: Option<int>)
    | CountReply(id: nat, stamp: nat, serverTime: int, delivery: Delivery)
    | AdminReply(id: nat, ok: bool)
    | RecordFailure(id: nat, now: int)
    | RecordSuccess(id: nat)

  /** The guards of the replicas, the calls, and per full key the counter log and the scripts that have run on it. */
  datatype System = System(
    guards: map<nat, Guard>, calls: map<nat, Call>, logs: map<string, Log>, scripts: map<string, seq<Step>>)

  const IDLE: System := System(map[], map[], map[], map[])

  function GuardOf(sys: System, replica: nat): Guard {
    if replica in sys.guards then sys.guards[replica] else NEW_GUARD
  }

  function WithGuard(sys: System, replica: nat, g: Guard): System {
    sys.(guards := sys.guards[replica := g])
  }

  function LogAt(sys: System, key: string): Log {
    if key in sys.logs then sys.logs[key] else EMPTY
  }

  function ScriptsAt(sys: System, key: string): seq<Step> {
    if key in sys.scripts then sys.scripts[key] else []
  }

  function StageOf(sys: System, id: nat): Option<Stage> {
    if id in sys.calls then Some(sys.calls[id].stage) else None
  }

  function Move(sys: System, id: nat, stage: Stage): System {
    if id in sys.calls then sys.(calls := sys.calls[id := sys.calls[id].(stage := stage)]) else sys
  }

  /** The event is the next thing its call does. */
  predicate Enabled(sys: System, cfg: Config, e: Event) {
    match e
    case Arrive(id, _, _) => id !in sys.calls
    case AskGuard(id, _) => StageOf(sys, id) == Some(Arrived)
    case WhitelistReply(id, _) => StageOf(sys, id) == Some(Admitting) && sys.calls[id].request.Check?
    case LimitReply(id, _) =>
      StageOf(sys, id) == Some(AskingLimit) && sys.calls[id].request.Check? && sys.calls[id].request.windowName in cfg.limits
    case CountReply(id, _, _, _) =>
      id in sys.calls && sys.calls[id].stage.Counting? && sys.calls[id].request.Check?
      && sys.calls[id].request.windowName in cfg.limits
    case AdminReply(id, _) => StageOf(sys, id) == Some(Administering)
    case RecordFailure(id, _) => StageOf(sys, id) == Some(Failing)
    case RecordSuccess(id) => id in sys.calls && sys.calls[id].stage.Passing?
  }

  /** The script of the call runs on its key's log. */
  function RunScript(sys: System, key: string, step: Step): System {
    sys.(logs := sys.logs[key := Script(LogAt(sys, key), step, true)],
         scripts := sys.scripts[key := ScriptsAt(sys, key) + [step]])
  }

  function Settled(decision: Option<Answer>): Outcome {
    match decision
    case None => Administered
    case Some(answer) => Counted(answer)
  }

  function Advance(sys: System, cfg: Config, e: Event): System
    requires Enabled(sys, cfg, e)
  {
    match e
    case Arrive(id, replica, request) => sys.(calls := sys.calls[id := Call(replica, request, Arrived)])
    case AskGuard(id, now) =>
      var replica := sys.calls[id].replica;
      var g := Asked(GuardOf(sys, replica), cfg, now);
      Move(WithGuard(sys, replica, g), id,
        if g.open then Done(FellBack) else if sys.calls[id].request.Check? then Admitting else Administering)
    case WhitelistReply(id, reply) =>
      Move(sys, id,
        if reply == None then Failing
        else if reply.value then Done(Whitelisted)
        else if sys.calls[id].request.windowName in cfg.limits then AskingLimit
        else Done(BadWindow))
    case LimitReply(id, custom) =>
      Move(sys, id,
        if custom == None then Failing
        else Counting(LimitInForce(cfg.limits[sys.calls[id].request.windowName], custom.value)))
    case CountReply(id, stamp, serverTime, delivery) =>
      var Check(key, windowName) := sys.calls[id].request;
      var window := cfg.limits[windowName];
      var limit := sys.calls[id].stage.limit;
      if delivery.RequestLost? then Move(sys, id, Failing)
      else
        var ran := RunScript(sys, key, Step(stamp, serverTime, window.window));
        if delivery.ReplyLost? then Move(ran, id, Failing)
        else Move(ran, id, Passing(Some(Answer(
          |ScriptsAt(sys, key)|, limit, Decide(|LogAt(ran, key).stamps|, limit, window, windowName)))))
    case AdminReply(id, ok) => Move(sys, id, if ok then Passing(None) else Failing)
    case RecordFailure(id, now) =>
      var replica := sys.calls[id].replica;
      Move(WithGuard(sys, replica, FailureRecorded(GuardOf(sys, replica), cfg, now)), id, Done(StoreError))
    case RecordSuccess(id) =>
      var replica := sys.calls[id].replica;
      Move(WithGuard(sys, replica, SuccessRecorded(GuardOf(sys, replica))), id, Done(Settled(sys.calls[id].stage.decision)))
  }

  /** The state after a run, or None when some step of it was not possible. */
  function Run(cfg: Config, trace: seq<Event>): Option<System> {
    if trace == [] then Some(IDLE)
    else
      match Run(cfg, trace[..|trace| - 1])
      case None => None
      case Some(sys) =>
        var e := trace[|trace| - 1];
        if Enabled(sys, cfg, e) then Some(Advance(sys, cfg, e)) else None
  }

  predicate Legal(cfg: Config, trace: seq<Event>) {
    Run(cfg, trace).Some?
  }

  lemma RunSnoc(cfg: Config, trace: seq<Event>)
    requires trace != [] && Legal(cfg, trace)
    ensures var init, e := trace[..|trace| - 1], trace[|trace| - 1];
            && Legal(cfg, init) && Enabled(Run(cfg, init).value, cfg, e)
            && Run(cfg, trace).value == Advance(Run(cfg, init).value, cfg, e)
  {
  }

  // ---------------------------------------------------------------- the guards

  /** The step is taken by a call of the replica. */
  predicate ActsOn(sys: System, e: Event, replica: nat) {
    e.id in sys.calls && sys.calls[e.id].replica == replica
  }

  /** A timeout reset: asking the replica's guard closed it. */
  predicate ResetsGuard(sys: System, cfg: Config, e: Event, replica: nat) {
    e.AskGuard? && ActsOn(sys, e, replica) && TimedOut(GuardOf(sys, replica), cfg, e.now)
  }

  /** The replica's failures recorded since its last recorded success or timeout reset. */
  function FailuresSince(cfg: Config, trace: seq<Event>, replica: nat): nat {
    if trace == [] || !Legal(cfg, trace) then 0
    else
      RunSnoc(cfg, trace);
      var init, e := trace[..|trace| - 1], trace[|trace| - 1];
      var sys := Run(cfg, init).value;
      if e.RecordSuccess? && ActsOn(sys, e, replica) then 0
      else if ResetsGuard(sys, cfg, e, replica) then 0
      else FailuresSince(cfg, init, replica) + if e.RecordFailure? && ActsOn(sys, e, replica) then 1 else 0
  }

  /** The time of the replica's latest recorded failure. */
  function LatestFailure(cfg: Config, trace: seq<Event>, replica: nat): Option<int> {
    if trace == [] || !Legal(cfg, trace) then None
    else
      RunSnoc(cfg, trace);
      var init, e := trace[..|trace| - 1], trace[|trace| - 1];
      if e.RecordFailure? && ActsOn(Run(cfg, init).value, e, replica) then Some(e.now)
      else LatestFailure(cfg, init, replica)
  }

  ghost predicate GuardTracks(g: Guard, cfg: Config, failures: nat, latest: Option<int>) {
    && g.failureCount == failures
    && (!g.open ==> g.failureCount < cfg.failureThreshold)
    && (g.open ==> latest == Some(g.lastFailure))
  }

  /** What one step makes of a replica's guard. */
  lemma GuardStep(sys: System, cfg: Config, e: Event, replica: nat)
    requires Enabled(sys, cfg, e)
    ensures var g, g' := GuardOf(sys, replica), GuardOf(Advance(sys, cfg, e), replica);
            g' == if !ActsOn(sys, e, replica) then g
                  else match e
                       case AskGuard(_, now) => Asked(g, cfg, now)
                       case RecordFailure(_, now) => FailureRecorded(g, cfg, now)
                       case RecordSuccess(_) => SuccessRecorded(g)
                       case _ => g
  {
  }

  lemma {:induction false} GuardTracksTrace(cfg: Config, trace: seq<Event>, replica: nat)
    requires Legal(cfg, trace) && cfg.failureThreshold >= 1
    ensures GuardTracks(GuardOf(Run(cfg, trace).value, replica), cfg,
                        FailuresSince(cfg, trace, replica), LatestFailure(cfg, trace, replica))
  {
    if trace != [] {
      RunSnoc(cfg, trace);
      GuardStep(Run(cfg, trace[..|trace| - 1]).value, cfg, trace[|trace| - 1], replica);
      GuardTracksTrace(cfg, trace[..|trace| - 1], replica);
    }
  }

  /** A closed guard has always recorded fewer failures than the threshold since the last reset. */
  lemma {:induction false} ClosedBelowThreshold(cfg: Config, trace: seq<Event>, replica: nat)
    requires Legal(cfg, trace) && cfg.failureThreshold >= 1
    ensures var g := GuardOf(Run(cfg, trace).value, replica);
            !g.open ==> g.failureCount == FailuresSince(cfg, trace, replica) < cfg.failureThreshold
  {
    GuardTracksTrace(cfg, trace, replica);
  }

  /**
   Whatever the interleaving, a closed guard opens exactly on the failure its own replica records
   that brings those since its last recorded success or timeout reset to the threshold.
   */
  lemma {:induction false} TripsAtThreshold(cfg: Config, trace: seq<Event>, replica: nat)
    requires trace != [] && Legal(cfg, trace) && cfg.failureThreshold >= 1
    requires Run(cfg, trace[..|trace| - 1]).Some? ==> !GuardOf(Run(cfg, trace[..|trace| - 1]).value, replica).open
    ensures Legal(cfg, trace[..|trace| - 1])
    ensures GuardOf(Run(cfg, trace).value, replica).open <==>
              && trace[|trace| - 1].RecordFailure?
              && ActsOn(Run(cfg, trace[..|trace| - 1]).value, trace[|trace| - 1], replica)
              && FailuresSince(cfg, trace, replica) == cfg.failureThreshold
  {
    RunSnoc(cfg, trace);
    GuardStep(Run(cfg, trace[..|trace| - 1]).value, cfg, trace[|trace| - 1], replica);
    GuardTracksTrace(cfg, trace[..|trace| - 1], replica);
    GuardTracksTrace(cfg, trace, replica);
  }

  /** An open guard closes exactly when a call of its replica asks more than resetTimeout after the latest failure. */
  lemma {:induction false} ClosesAfterTimeout(cfg: Config, trace: seq<Event>, replica: nat)
    requires trace != [] && Legal(cfg, trace) && cfg.failureThreshold >= 1
    requires Run(cfg, trace[..|trace| - 1]).Some? ==> GuardOf(Run(cfg, trace[..|trace| - 1]).value, replica).open
    ensures Legal(cfg, trace[..|trace| - 1])
    ensures var e := trace[|trace| - 1]; var latest := LatestFailure(cfg, trace[..|trace| - 1], replica);
            && latest.Some?
            && (!GuardOf(Run(cfg, trace).value, replica).open <==>
                  && e.AskGuard? && ActsOn(Run(cfg, trace[..|trace| - 1]).value, e, replica)
                  && e.now - latest.value > cfg.resetTimeout)
  {
    RunSnoc(cfg, trace);
    GuardStep(Run(cfg, trace[..|trace| - 1]).value, cfg, trace[|trace| - 1], replica);
    GuardTracksTrace(cfg, trace[..|trace| - 1], replica);
  }

  // ---------------------------------------------------------------- fallback

  predicate ReachesStore(e: Event, id: nat) {
    (e.WhitelistReply? || e.LimitReply? || e.CountReply? || e.AdminReply?) && e.id == id
  }

  ghost predicate BeforeStore(sys: System, id: nat) {
    id in sys.calls ==>
      match sys.calls[id].stage
      case Arrived => true
      case Admitting => true
      case Administering => true
      case Done(FellBack) => true
      case _ => false
  }

  lemma OtherCallsKept(sys: System, cfg: Config, e: Event, id: nat)
    requires Enabled(sys, cfg, e) && e.id != id
    ensures StageOf(Advance(sys, cfg, e), id) == StageOf(sys, id)
  {
  }

  lemma BeforeStoreStep(sys: System, cfg: Config, e: Event, id: nat)
    requires Enabled(sys, cfg, e)
    requires BeforeStore(Advance(sys, cfg, e), id)
    ensures BeforeStore(sys, id) && !ReachesStore(e, id)
  {
    if e.id != id {
      OtherCallsKept(sys, cfg, e, id);
    }
  }

  /** A call that found the guard open never reached the store, at any step of the run. */
  lemma {:induction false} FallbackTouchesNothing(cfg: Config, trace: seq<Event>, id: nat, i: nat)
    requires Legal(cfg, trace) && BeforeStore(Run(cfg, trace).value, id)
    requires i < |trace|
    ensures !ReachesStore(trace[i], id)
  {
    RunSnoc(cfg, trace);
    var n := |trace| - 1;
    BeforeStoreStep(Run(cfg, trace[..n]).value, cfg, trace[n], id);
    if i < n {
      FallbackTouchesNothing(cfg, trace[..n], id, i);
    }
  }

  // ---------------------------------------------------------------- what the counters decide

  /** The decision a check has reached, once its count has come back. */
  function DecisionOf(call: Call): Option<Answer> {
    match call.stage
    case Passing(decision) => decision
    case Done(Counted(answer)) => Some(answer)
    case _ => None
  }

  ghost predicate CountedRight(sys: System, call: Call) {
    DecisionOf(call).Some? ==>
      var Answer(at, limit, fields) := DecisionOf(call).value;
      && call.request.Check?
      && at < |ScriptsAt(sys, call.request.fullKey)|
      && fields.currentCount == CountAt(ScriptsAt(sys, call.request.fullKey), at, true)
      && fields.limit == limit
      && (fields.limited <==> fields.currentCount > limit)
      && fields.remaining == (if fields.currentCount < limit then limit - fields.currentCount else 0)
  }

  ghost predicate LogsTrack(sys: System) {
    && (forall k :: LogAt(sys, k) == SlidingWindow.Run(ScriptsAt(sys, k), true))
    && (forall id :: id in sys.calls ==> CountedRight(sys, sys.calls[id]))
  }

  lemma CountAtPrefix(steps: seq<Step>, more: Step, k: nat)
    requires k < |steps|
    ensures CountAt(steps + [more], k, true) == CountAt(steps, k, true)
  {
    assert (steps + [more])[..k + 1] == steps[..k + 1];
  }

  lemma ScriptTracks(sys: System, key: string, step: Step)
    requires LogsTrack(sys)
    ensures LogsTrack(RunScript(sys, key, step))
    ensures var ran := RunScript(sys, key, step); var n := |ScriptsAt(sys, key)|;
            ScriptsAt(ran, key) == ScriptsAt(sys, key) + [step] && CountAt(ScriptsAt(ran, key), n, true) == |LogAt(ran, key).stamps|
  {
    var ran, steps := RunScript(sys, key, step), ScriptsAt(sys, key);
    assert (steps + [step])[..|steps|] == steps;
    assert (steps + [step])[..|steps| + 1] == steps + [step];
    assert LogAt(ran, key) == SlidingWindow.Run(steps + [step], true);
    forall k
      ensures LogAt(ran, k) == SlidingWindow.Run(ScriptsAt(ran, k), true)
    {
      assert k != key ==> LogAt(ran, k) == LogAt(sys, k) && ScriptsAt(ran, k) == ScriptsAt(sys, k);
    }
    forall id | id in ran.calls
      ensures CountedRight(ran, ran.calls[id])
    {
      var call := sys.calls[id];
      assert CountedRight(sys, call);
      if DecisionOf(call).Some? && call.request.fullKey == key {
        CountAtPrefix(steps, step, DecisionOf(call).value.at);
      }
    }
  }

  /** The call `id` changed in nothing its decision depends on, and no other call changed. */
  ghost predicate DecisionsKept(sys: System, sys': System, id: nat) {
    && sys'.logs == sys.logs && sys'.scripts == sys.scripts
    && (forall i :: i in sys'.calls && i != id ==> i in sys.calls && sys'.calls[i] == sys.calls[i])
    && (id in sys'.calls && DecisionOf(sys'.calls[id]).Some? ==>
          && id in sys.calls && sys'.calls[id].request == sys.calls[id].request
          && DecisionOf(sys'.calls[id]) == DecisionOf(sys.calls[id]))
  }

  lemma StepKeepsDecisions(sys: System, cfg: Config, e: Event)
    requires Enabled(sys, cfg, e) && !e.CountReply?
    ensures DecisionsKept(sys, Advance(sys, cfg, e), e.id)
  {
  }

  lemma KeptTracks(sys: System, sys': System, id: nat)
    requires LogsTrack(sys) && DecisionsKept(sys, sys', id)
    ensures LogsTrack(sys')
  {
    forall k
      ensures LogAt(sys', k) == SlidingWindow.Run(ScriptsAt(sys', k), true)
    {
      assert LogAt(sys', k) == LogAt(sys, k) && ScriptsAt(sys', k) == ScriptsAt(sys, k);
    }
    forall i | i in sys'.calls
      ensures CountedRight(sys', sys'.calls[i])
    {
      assert i in sys.calls ==> CountedRight(sys, sys.calls[i]);
    }
  }

  lemma DecisionTracks(sys: System, id: nat, answer: Answer)
    requires LogsTrack(sys) && id in sys.calls
    requires CountedRight(sys, sys.calls[id].(stage := Passing(Some(answer))))
    ensures LogsTrack(Move(sys, id, Passing(Some(answer))))
  {
    var moved := Move(sys, id, Passing(Some(answer)));
    forall k
      ensures LogAt(moved, k) == SlidingWindow.Run(ScriptsAt(moved, k), true)
    {
      assert LogAt(moved, k) == LogAt(sys, k) && ScriptsAt(moved, k) == ScriptsAt(sys, k);
    }
    forall i | i in moved.calls
      ensures CountedRight(moved, moved.calls[i])
    {
      assert i in sys.calls && (i != id ==> CountedRight(sys, sys.calls[i]));
    }
  }

  /** A script that reached the store, whether or not its reply got back. */
  lemma {:induction false} DeliveredTracks(sys: System, id: nat, key: string, step: Step, limit: int, fields: LimitFields)
    requires LogsTrack(sys) && id in sys.calls && sys.calls[id].request.Check? && sys.calls[id].request.fullKey == key
    requires var count := |LogAt(RunScript(sys, key, step), key).stamps|;
             && fields.currentCount == count && fields.limit == limit && (fields.limited <==> count > limit)
             && fields.remaining == if count < limit then limit - count else 0
    ensures LogsTrack(Move(RunScript(sys, key, step), id, Failing))
    ensures LogsTrack(Move(RunScript(sys, key, step), id, Passing(Some(Answer(|ScriptsAt(sys, key)|, limit, fields)))))
  {
    var ran := RunScript(sys, key, step);
    ScriptTracks(sys, key, step);
    KeptTracks(ran, Move(ran, id, Failing), id);
    DecisionTracks(ran, id, Answer(|ScriptsAt(sys, key)|, limit, fields));
  }

  lemma {:induction false} CountTracks(sys: System, cfg: Config, e: Event)
    requires LogsTrack(sys) && Enabled(sys, cfg, e) && e.CountReply?
    ensures LogsTrack(Advance(sys, cfg, e))
  {
    var Check(key, windowName) := sys.calls[e.id].request;
    var window, limit := cfg.limits[windowName], sys.calls[e.id].stage.limit;
    if e.delivery.RequestLost? {
      KeptTracks(sys, Move(sys, e.id, Failing), e.id);
    } else {
      var step := Step(e.stamp, e.serverTime, window.window);
      var count := |LogAt(RunScript(sys, key, step), key).stamps|;
      DeliveredTracks(sys, e.id, key, step, limit, Decide(count, limit, window, windowName));
    }
  }

  lemma {:induction false} RunTracks(cfg: Config, trace: seq<Event>)
    requires Legal(cfg, trace)
    ensures LogsTrack(Run(cfg, trace).value)
  {
    if trace != [] {
      RunSnoc(cfg, trace);
      RunTracks(cfg, trace[..|trace| - 1]);
      var sys, e := Run(cfg, trace[..|trace| - 1]).value, trace[|trace| - 1];
      if e.CountReply? {
        CountTracks(sys, cfg, e);
      } else {
        StepKeepsDecisions(sys, cfg, e);
        KeptTracks(sys, Advance(sys, cfg, e), e.id);
      }
    }
  }

  predicate Answered(sys: System, id: nat) {
    id in sys.calls && sys.calls[id].request.Check? && sys.calls[id].stage.Done? && sys.calls[id].stage.outcome.Counted?
  }

  function AnswerOf(sys: System, id: nat): Answer
    requires Answered(sys, id)
  {
    sys.calls[id].stage.outcome.answer
  }

  /** The scripts run on the key of a check. */
  function ScriptsOf(sys: System, id: nat): seq<Step>
    requires Answered(sys, id)
  {
    ScriptsAt(sys, sys.calls[id].request.fullKey)
  }

  /** The call was let through by the counter of the key, under a limit of at most `limit`. */
  predicate LetThrough(sys: System, id: nat, key: string, limit: nat) {
    && Answered(sys, id) && sys.calls[id].request.fullKey == key
    && !AnswerOf(sys, id).fields.limited && AnswerOf(sys, id).limit <= limit
  }

  /** The calls let through on the key whose stamps fall in (a, b]. */
  function LetThroughIn(sys: System, key: string, limit: nat, a: int, b: int): set<nat> {
    set id | id in sys.calls && LetThrough(sys, id, key, limit)
      && AnswerOf(sys, id).at < |ScriptsAt(sys, key)|
      && a < ScriptsAt(sys, key)[AnswerOf(sys, id).at].stamp <= b
  }

  function LetThroughStamps(sys: System, key: string, limit: nat, a: int, b: int): set<nat> {
    set id | id in LetThroughIn(sys, key, limit, a, b) :: ScriptsAt(sys, key)[AnswerOf(sys, id).at].stamp
  }

  /** Every stamp a call was let through with was admitted by the key's log. */
  ghost predicate OnlyAdmitted(sys: System, key: string, limit: nat, a: int, b: int) {
    LetThroughStamps(sys, key, limit, a, b) <= StampsAt(ScriptsAt(sys, key), AdmittedIn(ScriptsAt(sys, key), limit, a, b))
  }

  lemma LetThroughWasAdmitted(sys: System, id: nat, key: string, limit: nat)
    requires LetThrough(sys, id, key, limit) && CountedRight(sys, sys.calls[id])
    ensures AnswerOf(sys, id).at < |ScriptsAt(sys, key)|
    ensures Admitted(ScriptsAt(sys, key), limit, AnswerOf(sys, id).at)
  {
  }

  lemma {:induction false} LetThroughWereAdmitted(sys: System, key: string, limit: nat, a: int, b: int)
    requires forall id :: id in sys.calls ==> CountedRight(sys, sys.calls[id])
    ensures OnlyAdmitted(sys, key, limit, a, b)
  {
    forall id | id in LetThroughIn(sys, key, limit, a, b)
      ensures ScriptsAt(sys, key)[AnswerOf(sys, id).at].stamp in
              StampsAt(ScriptsAt(sys, key), AdmittedIn(ScriptsAt(sys, key), limit, a, b))
    {
      LetThroughWasAdmitted(sys, id, key, limit);
      assert AnswerOf(sys, id).at in AdmittedIn(ScriptsAt(sys, key), limit, a, b);
    }
  }

  lemma {:induction false} LetThroughBound(sys: System, key: string, d: nat, w: nat, limit: nat, a: int)
    requires Fleet(ScriptsAt(sys, key), d, w) && OnlyAdmitted(sys, key, limit, a, a + SafeSpan(d, w))
    ensures |LetThroughStamps(sys, key, limit, a, a + SafeSpan(d, w))| <= limit
  {
    AdmittedSubsetBound(ScriptsAt(sys, key), d, w, limit, a, LetThroughStamps(sys, key, limit, a, a + SafeSpan(d, w)));
  }

  lemma {:induction false} RunOnlyAdmitted(cfg: Config, trace: seq<Event>, key: string, limit: nat, a: int, b: int)
    requires Legal(cfg, trace)
    ensures OnlyAdmitted(Run(cfg, trace).value, key, limit, a, b)
  {
    RunTracks(cfg, trace);
    LetThroughWereAdmitted(Run(cfg, trace).value, key, limit, a, b);
  }

  /**
   The service's promise, for every interleaving of every kind of call, with store failures before
   and after the fact: if replicas stamp within d of the server's clock and every script run on the
   key uses a window of at least w, then in any stretch of SafeSpan(d, w) milliseconds the calls
   the counter let through carry at most `limit` distinct stamps.
   */
  lemma {:induction false} ServiceAdmissionBound(cfg: Config, trace: seq<Event>, key: string, d: nat, w: nat, limit: nat, a: int)
    requires Legal(cfg, trace)
    requires Fleet(ScriptsAt(Run(cfg, trace).value, key), d, w)
    ensures |LetThroughStamps(Run(cfg, trace).value, key, limit, a, a + SafeSpan(d, w))| <= limit
  {
    RunOnlyAdmitted(cfg, trace, key, limit, a, a + SafeSpan(d, w));
    LetThroughBound(Run(cfg, trace).value, key, d, w, limit, a);
  }

  // ---------------------------------------------------------------- one script per decision

  predicate DecidedOn(sys: System, id: nat, key: string) {
    id in sys.calls && sys.calls[id].request.Check? && sys.calls[id].request.fullKey == key && DecisionOf(sys.calls[id]).Some?
  }

  function DecidedAt(sys: System, id: nat, key: string): nat
    requires DecidedOn(sys, id, key)
  {
    DecisionOf(sys.calls[id]).value.at
  }

  /** No two decisions on a key come from the same script. */
  ghost predicate OneScriptEach(sys: System) {
    forall i, j, k :: DecidedOn(sys, i, k) && DecidedOn(sys, j, k) && i != j ==> DecidedAt(sys, i, k) != DecidedAt(sys, j, k)
  }

  lemma KeptOneScriptEach(sys: System, sys': System, id: nat)
    requires OneScriptEach(sys)
    requires forall i, k :: DecidedOn(sys', i, k) ==> DecidedOn(sys, i, k) && DecidedAt(sys', i, k) == DecidedAt(sys, i, k)
    ensures OneScriptEach(sys')
  {
  }

  lemma {:induction false} CountOneScriptEach(sys: System, cfg: Config, e: Event)
    requires LogsTrack(sys) && OneScriptEach(sys) && Enabled(sys, cfg, e) && e.CountReply?
    ensures OneScriptEach(Advance(sys, cfg, e))
  {
    var sys' := Advance(sys, cfg, e);
    var key := sys.calls[e.id].request.fullKey;
    forall i, k | DecidedOn(sys', i, k) && i != e.id
      ensures DecidedOn(sys, i, k) && DecidedAt(sys', i, k) == DecidedAt(sys, i, k) < |ScriptsAt(sys, k)|
    {
      assert CountedRight(sys, sys.calls[i]);
    }
    forall k | DecidedOn(sys', e.id, k)
      ensures k == key && DecidedAt(sys', e.id, k) == |ScriptsAt(sys, key)|
    {
    }
  }

  lemma {:induction false} RunOneScriptEach(cfg: Config, trace: seq<Event>)
    requires Legal(cfg, trace)
    ensures OneScriptEach(Run(cfg, trace).value)
  {
    if trace != [] {
      RunSnoc(cfg, trace);
      var init, e := trace[..|trace| - 1], trace[|trace| - 1];
      RunTracks(cfg, init);
      RunOneScriptEach(cfg, init);
      var sys := Run(cfg, init).value;
      if e.CountReply? {
        CountOneScriptEach(sys, cfg, e);
      } else {
        StepKeepsDecisions(sys, cfg, e);
        KeptOneScriptEach(sys, Advance(sys, cfg, e), e.id);
      }
    }
  }

  /** The calls let through in (a, b] whose stamp is t. */
  function LetThroughAt(sys: System, key: string, limit: nat, a: int, b: int, t: nat): set<nat> {
    set id | id in LetThroughIn(sys, key, limit, a, b) && ScriptsAt(sys, key)[AnswerOf(sys, id).at].stamp == t
  }

  ghost predicate LetThroughPerMillisecond(sys: System, key: string, limit: nat, a: int, b: int, m: nat) {
    forall t: nat :: |LetThroughAt(sys, key, limit, a, b, t)| <= m
  }

  /** Scripts apart in time belong to calls apart in time. */
  lemma {:induction false} ApartScriptsApartCalls(cfg: Config, trace: seq<Event>, key: string, limit: nat, a: int, b: int)
    requires Legal(cfg, trace) && DistinctStamps(ScriptsAt(Run(cfg, trace).value, key))
    ensures LetThroughPerMillisecond(Run(cfg, trace).value, key, limit, a, b, 1)
  {
    RunOneScriptEach(cfg, trace);
    var sys := Run(cfg, trace).value;
    forall t: nat
      ensures |LetThroughAt(sys, key, limit, a, b, t)| <= 1
    {
      var ids := LetThroughAt(sys, key, limit, a, b, t);
      if id :| id in ids {
        forall i | i in ids
          ensures i == id
        {
          assert DecidedOn(sys, i, key) && DecidedOn(sys, id, key);
        }
        SubsetSize(ids, {id});
      }
    }
  }

  lemma {:induction false} CallsPerStamp(sys: System, key: string, limit: nat, a: int, b: int, m: nat)
    requires LetThroughPerMillisecond(sys, key, limit, a, b, m)
    ensures |LetThroughIn(sys, key, limit, a, b)| <= m * |LetThroughStamps(sys, key, limit, a, b)|
  {
    var ids := LetThroughIn(sys, key, limit, a, b);
    var f := map id | id in ids :: ScriptsAt(sys, key)[AnswerOf(sys, id).at].stamp;
    forall t
      ensures |Fiber(f, t)| <= m
    {
      assert Fiber(f, t) == LetThroughAt(sys, key, limit, a, b, t);
    }
    FiberBound(f, m);
    assert f.Keys == ids;
    assert f.Values == LetThroughStamps(sys, key, limit, a, b) by {
      forall id | id in ids
        ensures ScriptsAt(sys, key)[AnswerOf(sys, id).at].stamp in f.Values
      {
        assert f[id] == ScriptsAt(sys, key)[AnswerOf(sys, id).at].stamp;
      }
    }
  }

  /** When no more than m calls let through share a millisecond, at most m * limit of them are in the stretch. */
  lemma {:induction false} ServiceRequestBound(cfg: Config, trace: seq<Event>, key: string, d: nat, w: nat, limit: nat, a: int, m: nat)
    requires Legal(cfg, trace)
    requires Fleet(ScriptsAt(Run(cfg, trace).value, key), d, w)
    requires LetThroughPerMillisecond(Run(cfg, trace).value, key, limit, a, a + SafeSpan(d, w), m)
    ensures |LetThroughIn(Run(cfg, trace).value, key, limit, a, a + SafeSpan(d, w))| <= m * limit
  {
    var sys := Run(cfg, trace).value;
    ServiceAdmissionBound(cfg, trace, key, d, w, limit, a);
    CallsPerStamp(sys, key, limit, a, a + SafeSpan(d, w), m);
    Scale(m, |LetThroughStamps(sys, key, limit, a, a + SafeSpan(d, w))|, limit);
  }

  /**
   No false denial, for every interleaving: a call answered "limited" had more attempts on its key
   than its limit, stamped inside its own window or at most h ahead of it.
   */
  lemma {:induction false} LimitedOnlyOverLimit(cfg: Config, trace: seq<Event>, id: nat, h: nat)
    requires Legal(cfg, trace)
    requires var sys := Run(cfg, trace).value;
             Answered(sys, id) && AnswerOf(sys, id).fields.limited
    requires var steps, k := ScriptsOf(Run(cfg, trace).value, id), AnswerOf(Run(cfg, trace).value, id).at;
             k < |steps| ==> 0 < steps[k].window && forall i :: 0 <= i <= k ==> steps[i].stamp <= steps[k].stamp + h
    ensures var steps, k := ScriptsOf(Run(cfg, trace).value, id), AnswerOf(Run(cfg, trace).value, id).at;
            && k < |steps|
            && |Attempts(steps, k, steps[k].stamp - steps[k].window, steps[k].stamp + h)|
                 > AnswerOf(Run(cfg, trace).value, id).limit
  {
    var sys := Run(cfg, trace).value;
    RunTracks(cfg, trace);
    assert CountedRight(sys, sys.calls[id]);
    CountWithinAttempts(ScriptsOf(sys, id), AnswerOf(sys, id).at, h);
  }

  // ---------------------------------------------------------------- where answers come from

  /** The answer a finished check gave, None for an error. */
  function GivenAnswer(sys: System, id: nat): Option<LimitFields>
    requires id in sys.calls && sys.calls[id].request.Check? && sys.calls[id].stage.Done?
  {
    match sys.calls[id].stage.outcome
    case FellBack => Some(Waved(sys.calls[id].request.windowName))
    case Whitelisted => Some(Waved(sys.calls[id].request.windowName))
    case Counted(answer) => Some(answer.fields)
    case _ => None
  }

  /** The reply gave the call this limit: the custom one if positive, else the window's own. */
  predicate GivesLimit(cfg: Config, e: Event, id: nat, windowName: string, limit: int) {
    && e.LimitReply? && e.id == id && e.custom.Some? && windowName in cfg.limits
    && limit == if e.custom.value > 0 then e.custom.value else cfg.limits[windowName].requests
  }

  ghost predicate LimitGiven(cfg: Config, trace: seq<Event>, id: nat, request: Request, limit: int) {
    request.Check? && exists i :: 0 <= i < |trace| && GivesLimit(cfg, trace[i], id, request.windowName, limit)
  }

  ghost predicate FoundWhitelisted(trace: seq<Event>, id: nat) {
    exists i :: 0 <= i < |trace| && trace[i] == WhitelistReply(id, Some(true))
  }

  /** At step i the call asked its replica's guard, which had opened no more than resetTimeout before. */
  predicate AskedWhileOpen(cfg: Config, trace: seq<Event>, i: nat, id: nat, replica: nat) {
    && i < |trace| && trace[i].AskGuard? && trace[i].id == id && Legal(cfg, trace[..i])
    && var g := GuardOf(Run(cfg, trace[..i]).value, replica); g.open && trace[i].now - g.lastFailure <= cfg.resetTimeout
  }

  ghost predicate FoundOpen(cfg: Config, trace: seq<Event>, id: nat, replica: nat) {
    exists i: nat :: AskedWhileOpen(cfg, trace, i, id, replica)
  }

  ghost predicate Explained(cfg: Config, trace: seq<Event>, id: nat, call: Call) {
    match call.stage
    case Counting(limit) => LimitGiven(cfg, trace, id, call.request, limit)
    case Passing(decision) => decision.Some? ==> LimitGiven(cfg, trace, id, call.request, decision.value.limit)
    case Done(Counted(answer)) => LimitGiven(cfg, trace, id, call.request, answer.limit)
    case Done(Whitelisted) => FoundWhitelisted(trace, id)
    case Done(FellBack) => FoundOpen(cfg, trace, id, call.replica)
    case _ => true
  }

  lemma {:induction false} ExplainedLonger(cfg: Config, trace: seq<Event>, e: Event, id: nat, call: Call)
    requires Explained(cfg, trace, id, call)
    ensures Explained(cfg, trace + [e], id, call)
  {
    var longer := trace + [e];
    assert forall i :: 0 <= i < |trace| ==> longer[i] == trace[i] && longer[..i] == trace[..i];
    if i: nat :| AskedWhileOpen(cfg, trace, i, id, call.replica) {
      assert AskedWhileOpen(cfg, longer, i, id, call.replica);
    }
    if i :| 0 <= i < |trace| && trace[i] == WhitelistReply(id, Some(true)) {
      assert longer[i] == WhitelistReply(id, Some(true));
    }
    forall limit | LimitGiven(cfg, trace, id, call.request, limit)
      ensures LimitGiven(cfg, longer, id, call.request, limit)
    {
      var i :| 0 <= i < |trace| && GivesLimit(cfg, trace[i], id, call.request.windowName, limit);
      assert GivesLimit(cfg, longer[i], id, call.request.windowName, limit);
    }
  }

  /** What the call's own next step explains by itself; the rest its earlier steps explained. */
  ghost predicate OwnStep(sys: System, cfg: Config, e: Event, call: Call, call': Call) {
    && call'.request == call.request && call'.replica == call.replica
    && match call'.stage
       case Counting(limit) => call.request.Check? && GivesLimit(cfg, e, e.id, call.request.windowName, limit)
       case Passing(decision) => decision.Some? ==> call.stage == Counting(decision.value.limit)
       case Done(Counted(answer)) => call.stage == Passing(Some(answer))
       case Done(Whitelisted) => e == WhitelistReply(e.id, Some(true))
       case Done(FellBack) =>
         e.AskGuard? && var g := GuardOf(sys, call.replica); g.open && e.now - g.lastFailure <= cfg.resetTimeout
       case _ => true
  }

  lemma TakesOwnStep(sys: System, cfg: Config, e: Event)
    requires Enabled(sys, cfg, e) && !e.Arrive?
    ensures e.id in sys.calls && e.id in Advance(sys, cfg, e).calls
    ensures OwnStep(sys, cfg, e, sys.calls[e.id], Advance(sys, cfg, e).calls[e.id])
  {
  }

  lemma {:induction false} OwnStepExplained(cfg: Config, trace: seq<Event>, e: Event, call: Call, call': Call)
    requires Legal(cfg, trace) && OwnStep(Run(cfg, trace).value, cfg, e, call, call')
    requires Explained(cfg, trace, e.id, call)
    ensures Explained(cfg, trace + [e], e.id, call')
  {
    var longer := trace + [e];
    assert longer[|trace|] == e && longer[..|trace|] == trace;
    ExplainedLonger(cfg, trace, e, e.id, call);
    if call'.stage == Done(FellBack) {
      assert AskedWhileOpen(cfg, longer, |trace|, e.id, call.replica);
    } else if call'.stage.Counting? {
      assert GivesLimit(cfg, longer[|trace|], e.id, call.request.windowName, call'.stage.limit);
    }
  }

  lemma {:induction false} RunExplained(cfg: Config, trace: seq<Event>, id: nat)
    requires Legal(cfg, trace) && id in Run(cfg, trace).value.calls
    ensures Explained(cfg, trace, id, Run(cfg, trace).value.calls[id])
  {
    RunSnoc(cfg, trace);
    var init, e := trace[..|trace| - 1], trace[|trace| - 1];
    var sys := Run(cfg, init).value;
    assert trace == init + [e];
    if e.id != id {
      OtherCallsKept(sys, cfg, e, id);
      RunExplained(cfg, init, id);
      ExplainedLonger(cfg, init, e, id, sys.calls[id]);
    } else if !e.Arrive? {
      TakesOwnStep(sys, cfg, e);
      RunExplained(cfg, init, id);
      OwnStepExplained(cfg, init, e, sys.calls[id], Run(cfg, trace).value.calls[id]);
    }
  }

  /** What a finished check answered, and why. */
  ghost predicate AnsweredFor(cfg: Config, trace: seq<Event>, id: nat, a: LimitFields)
    requires Legal(cfg, trace) && id in Run(cfg, trace).value.calls && Run(cfg, trace).value.calls[id].request.Check?
  {
    var sys := Run(cfg, trace).value;
    var request := sys.calls[id].request;
    if Answered(sys, id)
    then && AnswerOf(sys, id).at < |ScriptsOf(sys, id)|
         && a.currentCount == CountAt(ScriptsOf(sys, id), AnswerOf(sys, id).at, true)
         && LimitGiven(cfg, trace, id, request, a.limit)
         && (a.limited <==> a.currentCount > a.limit)
         && a.remaining == (if a.currentCount < a.limit then a.limit - a.currentCount else 0)
    else && a == LimitFields(false, 0, 0, 0, 0, request.windowName)
         && (FoundWhitelisted(trace, id) || FoundOpen(cfg, trace, id, sys.calls[id].replica))
  }

  /**
   Every answer of a check, for every interleaving: either it is what the key's count says of the
   custom limit read for the call, if positive, or else of the window's own; or it lets the caller
   through, and then the caller was found whitelisted or the guard open. So only a count ever limits.
   */
  lemma {:induction false} AnswersExplained(cfg: Config, trace: seq<Event>, id: nat)
    requires Legal(cfg, trace) && id in Run(cfg, trace).value.calls
    requires Run(cfg, trace).value.calls[id].request.Check? && Run(cfg, trace).value.calls[id].stage.Done?
    requires GivenAnswer(Run(cfg, trace).value, id).Some?
    ensures AnsweredFor(cfg, trace, id, GivenAnswer(Run(cfg, trace).value, id).value)
    ensures GivenAnswer(Run(cfg, trace).value, id).value.limited ==> Answered(Run(cfg, trace).value, id)
  {
    RunTracks(cfg, trace);
    RunExplained(cfg, trace, id);
    assert CountedRight(Run(cfg, trace).value, Run(cfg, trace).value.calls[id]);
  }

  // ---------------------------------------------------------------- one call on its own

  function Steps(sys: System, cfg: Config, events: seq<Event>): Option<System>
    decreases |events|
  {
    if events == [] then Some(sys)
    else if Enabled(sys, cfg, events[0]) then Steps(Advance(sys, cfg, events[0]), cfg, events[1..])
    else None
  }

  /** Running on from the state a run has reached. */
  lemma {:induction false} RunContinues(cfg: Config, trace: seq<Event>, events: seq<Event>)
    requires Legal(cfg, trace)
    ensures Run(cfg, trace + events) == Steps(Run(cfg, trace).value, cfg, events)
    decreases |events|
  {
    if events == [] {
      assert trace + events == trace;
    } else {
      var e := events[0];
      assert (trace + [e])[..|trace|] == trace;
      assert trace + events == (trace + [e]) + events[1..];
      if Legal(cfg, trace + [e]) {
        RunContinues(cfg, trace + [e], events[1..]);
      } else {
        NeverRecovers(cfg, trace + [e], events[1..]);
      }
    }
  }

  lemma {:induction false} NeverRecovers(cfg: Config, trace: seq<Event>, events: seq<Event>)
    requires !Legal(cfg, trace)
    ensures !Legal(cfg, trace + events)
    decreases |events|
  {
    if events == [] {
      assert trace + events == trace;
    } else {
      var init := events[..|events| - 1];
      assert (trace + events)[..|trace + events| - 1] == trace + init;
      NeverRecovers(cfg, trace, init);
    }
  }

  function FromCounting(id: nat, c: Encounter): seq<Event> {
    [CountReply(id, c.stamp, c.countTime, c.delivery),
     if c.delivery.Answered? then RecordSuccess(id) else RecordFailure(id, c.failedAt)]
  }

  function FromLimit(id: nat, c: Encounter): seq<Event> {
    [LimitReply(id, c.custom)] + if c.custom == None then [RecordFailure(id, c.failedAt)] else FromCounting(id, c)
  }

  function FromWhitelist(cfg: Config, id: nat, c: Encounter): seq<Event> {
    [WhitelistReply(id, c.whitelist)] +
    if c.whitelist == None then [RecordFailure(id, c.failedAt)]
    else if c.whitelist.value || c.windowName !in cfg.limits then []
    else FromLimit(id, c)
  }

  /** The steps of a check from its arrival to its end, with those of no other call between them. */
  function Solo(cfg: Config, guard: Guard, id: nat, replica: nat, key: string, c: Encounter): seq<Event> {
    [Arrive(id, replica, Check(key, c.windowName)), AskGuard(id, c.now)] +
    if Asked(guard, cfg, c.now).open then [] else FromWhitelist(cfg, id, c)
  }

  /** The steps are possible, finish the call and leave exactly this behind. */
  ghost predicate Finishes(sys: System, cfg: Config, events: seq<Event>, id: nat, replica: nat, key: string, checked: Checked) {
    var r := Steps(sys, cfg, events);
    && r.Some?
    && id in r.value.calls && r.value.calls[id].request.Check? && r.value.calls[id].stage.Done?
    && Checked(GuardOf(r.value, replica), LogAt(r.value, key), GivenAnswer(r.value, id)) == checked
    && (forall other :: other != replica ==> GuardOf(r.value, other) == GuardOf(sys, other))
    && (forall other :: other != key ==> LogAt(r.value, other) == LogAt(sys, other))
    && (forall other :: other != id ==> StageOf(r.value, other) == StageOf(sys, other))
  }

  predicate At(sys: System, id: nat, replica: nat, key: string, c: Encounter, stage: Stage) {
    id in sys.calls && sys.calls[id] == Call(replica, Check(key, c.windowName), stage)
  }

  lemma LastStep(sys: System, cfg: Config, e: Event)
    ensures Steps(sys, cfg, [e]) == if Enabled(sys, cfg, e) then Some(Advance(sys, cfg, e)) else None
  {
    assert [e][1..] == [];
  }

  lemma FirstStep(sys: System, cfg: Config, e: Event, rest: seq<Event>)
    requires Enabled(sys, cfg, e)
    ensures Steps(sys, cfg, [e] + rest) == Steps(Advance(sys, cfg, e), cfg, rest)
  {
    assert ([e] + rest)[1..] == rest;
  }

  lemma SoloFailure(sys: System, cfg: Config, id: nat, replica: nat, key: string, c: Encounter)
    requires At(sys, id, replica, key, c, Failing)
    ensures Finishes(sys, cfg, [RecordFailure(id, c.failedAt)], id, replica, key, Failed(GuardOf(sys, replica), cfg, LogAt(sys, key), c))
  {
    LastStep(sys, cfg, RecordFailure(id, c.failedAt));
  }

  lemma SoloCounting(sys: System, cfg: Config, id: nat, replica: nat, key: string, c: Encounter, limit: int)
    requires At(sys, id, replica, key, c, Counting(limit)) && c.windowName in cfg.limits
    ensures Finishes(sys, cfg, FromCounting(id, c), id, replica, key, AfterLimit(cfg, GuardOf(sys, replica), LogAt(sys, key), limit, c))
  {
    var e := CountReply(id, c.stamp, c.countTime, c.delivery);
    var last := if c.delivery.Answered? then RecordSuccess(id) else RecordFailure(id, c.failedAt);
    assert FromCounting(id, c) == [e] + [last];
    FirstStep(sys, cfg, e, [last]);
    LastStep(Advance(sys, cfg, e), cfg, last);
  }

  lemma SoloLimit(sys: System, cfg: Config, id: nat, replica: nat, key: string, c: Encounter)
    requires At(sys, id, replica, key, c, AskingLimit) && c.windowName in cfg.limits
    ensures Finishes(sys, cfg, FromLimit(id, c), id, replica, key,
              if c.custom == None then Failed(GuardOf(sys, replica), cfg, LogAt(sys, key), c)
              else AfterLimit(cfg, GuardOf(sys, replica), LogAt(sys, key), LimitInForce(cfg.limits[c.windowName], c.custom.value), c))
  {
    var e := LimitReply(id, c.custom);
    var sys' := Advance(sys, cfg, e);
    if c.custom == None {
      FirstStep(sys, cfg, e, [RecordFailure(id, c.failedAt)]);
      SoloFailure(sys', cfg, id, replica, key, c);
    } else {
      FirstStep(sys, cfg, e, FromCounting(id, c));
      SoloCounting(sys', cfg, id, replica, key, c, LimitInForce(cfg.limits[c.windowName], c.custom.value));
    }
  }

  lemma SoloWhitelist(sys: System, cfg: Config, id: nat, replica: nat, key: string, c: Encounter)
    requires At(sys, id, replica, key, c, Admitting) && Asked(GuardOf(sys, replica), cfg, c.now) == GuardOf(sys, replica) && !GuardOf(sys, replica).open
    ensures Finishes(sys, cfg, FromWhitelist(cfg, id, c), id, replica, key, Uninterrupted(cfg, GuardOf(sys, replica), LogAt(sys, key), c))
  {
    var e := WhitelistReply(id, c.whitelist);
    var sys' := Advance(sys, cfg, e);
    if c.whitelist == None {
      FirstStep(sys, cfg, e, [RecordFailure(id, c.failedAt)]);
      SoloFailure(sys', cfg, id, replica, key, c);
    } else if c.whitelist.value || c.windowName !in cfg.limits {
      FirstStep(sys, cfg, e, []);
    } else {
      FirstStep(sys, cfg, e, FromLimit(id, c));
      SoloLimit(sys', cfg, id, replica, key, c);
    }
  }

  /**
   From any state the service can reach, with any calls in flight, a check whose steps run without
   interruption leaves the guard, the key's log and its answer exactly as the service object's
   method does.
   */
  lemma {:induction false} UninterruptedCheck(cfg: Config, trace: seq<Event>, id: nat, replica: nat, key: string, c: Encounter)
    requires Legal(cfg, trace) && id !in Run(cfg, trace).value.calls
    ensures var sys := Run(cfg, trace).value;
            && Run(cfg, trace + Solo(cfg, GuardOf(sys, replica), id, replica, key, c)) == Steps(sys, cfg, Solo(cfg, GuardOf(sys, replica), id, replica, key, c))
            && Finishes(sys, cfg, Solo(cfg, GuardOf(sys, replica), id, replica, key, c), id, replica, key,
                        Uninterrupted(cfg, GuardOf(sys, replica), LogAt(sys, key), c))
  {
    var sys := Run(cfg, trace).value;
    RunContinues(cfg, trace, Solo(cfg, GuardOf(sys, replica), id, replica, key, c));
    SoloCheck(sys, cfg, id, replica, key, c);
  }

  lemma SoloCheck(sys: System, cfg: Config, id: nat, replica: nat, key: string, c: Encounter)
    requires id !in sys.calls
    ensures Finishes(sys, cfg, Solo(cfg, GuardOf(sys, replica), id, replica, key, c), id, replica, key, Uninterrupted(cfg, GuardOf(sys, replica), LogAt(sys, key), c))
  {
    var arrive, ask := Arrive(id, replica, Check(key, c.windowName)), AskGuard(id, c.now);
    var rest := if Asked(GuardOf(sys, replica), cfg, c.now).open then [] else FromWhitelist(cfg, id, c);
    assert Solo(cfg, GuardOf(sys, replica), id, replica, key, c) == [arrive] + ([ask] + rest);
    var arrived := Advance(sys, cfg, arrive);
    FirstStep(sys, cfg, arrive, [ask] + rest);
    FirstStep(arrived, cfg, ask, rest);
    if rest != [] {
      SoloWhitelist(Advance(arrived, cfg, ask), cfg, id, replica, key, c);
    }
  }
}
