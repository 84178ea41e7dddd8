/**
 Runs of the two-level cache over a remote level that keeps the same expiry contract, with refills
 that may land after other calls: how stale an answer can be, and whether it is the latest one set.
 */
module TwoLevel {
  import opened Prelude
  import opened LimitResults
  import opened CacheSpec

  datatype Config = Config(maxSize: int, defaultTTL: int, remoteTTL: int, hasLocal: bool, hasRemote: bool)

  /** A remote answer on its way to the local level. */
  datatype Refill = Refill(key: string, value: LimitFields, readAt: int)

  datatype Levels = Levels(local: Entries, remote: Entries, hits: nat, misses: nat, waiting: map<nat, Refill>)

  const EMPTY: Levels := Levels(map[], map[], 0, 0, map[])

  /**
   One call, with the clock readings it takes at each level and whether each level accepted it.
   Fetch and Land are the two halves of a Get that missed locally and hits remotely, with whatever
   other calls do in between; Get is one that runs undivided. Vanish stands for everything that removes entries behind the callers' backs: the janitor and
   asynchronous deletes locally, losses in the remote store.
   */
  datatype Event =
    | Get(key: string, readLocal: int, readRemote: int, fill: int, filled: bool, victim: string)
    | Fetch(id: nat, key: string, readRemote: int)
    | Land(id: nat, fill: int, filled: bool, victim: string)
    | Set(key: string, value: LimitFields, ttl: int, now: int, later: int, localOk: bool, remoteOk: bool, victim: string)
    | Delete(key: string, localOk: bool, remoteOk: bool)
    | Clear(localOk: bool, remoteOk: bool)
    | Vanish(localKeys: set<string>, remoteKeys: set<string>)

  function Effective(ttl: int, default: int): int {
    if ttl <= 0 then default else ttl
  }

  /** The level that answers a Get, if any. */
  predicate LocalHit(l: Levels, cfg: Config, key: string, now: int) {
    cfg.hasLocal && Hit(l.local, key, now)
  }

  predicate RemoteHit(l: Levels, cfg: Config, key: string, now: int) {
    cfg.hasRemote && Hit(l.remote, key, now)
  }

  /** The value a Get answers with and the time at which the answering level judged it fresh. */
  function Served(l: Levels, cfg: Config, e: Event): Option<(LimitFields, int)>
    requires e.Get? || e.Fetch?
  {
    if e.Get? && LocalHit(l, cfg, e.key, e.readLocal) then Some((l.local[e.key].value, e.readLocal))
    else if RemoteHit(l, cfg, e.key, e.readRemote) then Some((l.remote[e.key].value, e.readRemote))
    else None
  }

  /** A remote answer refills the local level for the default lifetime. */
  function AfterLocalMiss(l: Levels, cfg: Config, key: string, readRemote: int, fill: int, filled: bool, victim: string): Levels {
    if !RemoteHit(l, cfg, key, readRemote) then l.(misses := l.misses + 1)
    else if cfg.hasLocal && filled then
      var item := Item(l.remote[key].value, fill + cfg.defaultTTL, fill);
      l.(hits := l.hits + 1, local := Put(l.local, cfg.maxSize, key, item, victim))
    else l.(hits := l.hits + 1)
  }

  /** The refill reaches the local level. */
  predicate Lands(l: Levels, cfg: Config, e: Event)
    requires e.Land?
  {
    e.id in l.waiting && cfg.hasLocal && e.filled
  }

  function Advance(l: Levels, cfg: Config, e: Event): Levels {
    match e
    case Get(key, readLocal, readRemote, fill, filled, victim) =>
      if LocalHit(l, cfg, key, readLocal) then l.(hits := l.hits + 1)
      else AfterLocalMiss(l, cfg, key, readRemote, fill, filled, victim)
    case Fetch(id, key, readRemote) =>
      if RemoteHit(l, cfg, key, readRemote) then l.(waiting := l.waiting[id := Refill(key, l.remote[key].value, readRemote)])
      else l
    case Land(id, fill, filled, victim) =>
      l.(hits := l.hits + 1, waiting := l.waiting - {id},
         local := if Lands(l, cfg, e) then
                    var refill := l.waiting[id];
                    Put(l.local, cfg.maxSize, refill.key, Item(refill.value, fill + cfg.defaultTTL, fill), victim)
                  else l.local)
    case Set(key, value, ttl, now, later, localOk, remoteOk, victim) =>
      var near := Item(value, now + Effective(ttl, cfg.defaultTTL), now);
      var far := Item(value, later + Effective(ttl, cfg.remoteTTL), later);
      l.(local := if cfg.hasLocal && localOk then Put(l.local, cfg.maxSize, key, near, victim) else l.local,
         remote := if cfg.hasRemote && remoteOk then l.remote[key := far] else l.remote)
    case Delete(key, localOk, remoteOk) =>
      l.(local := if cfg.hasLocal && localOk then l.local - {key} else l.local,
         remote := if cfg.hasRemote && remoteOk then l.remote - {key} else l.remote)
    case Clear(localOk, remoteOk) =>
      l.(local := if cfg.hasLocal && localOk then map[] else l.local,
         remote := if cfg.hasRemote && remoteOk then map[] else l.remote)
    case Vanish(localKeys, remoteKeys) =>
      l.(local := l.local - localKeys, remote := l.remote - remoteKeys)
  }

  /** A Get that missed locally and hits remotely is its two halves, run back to back. */
  lemma UndividedGet(l: Levels, cfg: Config, e: Event, id: nat)
    requires e.Get? && !LocalHit(l, cfg, e.key, e.readLocal) && RemoteHit(l, cfg, e.key, e.readRemote) && id !in l.waiting
    ensures Advance(l, cfg, e) ==
            Advance(Advance(l, cfg, Fetch(id, e.key, e.readRemote)), cfg, Land(id, e.fill, e.filled, e.victim))
  {
    assert l.waiting[id := Refill(e.key, l.remote[e.key].value, e.readRemote)] - {id} == l.waiting;
  }

  function Run(cfg: Config, trace: seq<Event>): Levels {
    if trace == [] then EMPTY
    else Advance(Run(cfg, trace[..|trace| - 1]), cfg, trace[|trace| - 1])
  }

  /** The call returned an error: some level it needed did not accept it. */
  predicate Failed(cfg: Config, e: Event) {
    (e.Set? || e.Delete? || e.Clear?) && ((cfg.hasLocal && !e.localOk) || (cfg.hasRemote && !e.remoteOk))
  }

  /** Readings within a call follow each other, and refilling the local level takes at most `lag`. */
  predicate Timely(l: Levels, cfg: Config, e: Event, lag: nat) {
    match e
    case Get(_, readLocal, readRemote, fill, _, _) => readLocal <= readRemote <= fill <= readRemote + lag
    case Fetch(id, key, readRemote) => id !in l.waiting && RemoteHit(l, cfg, key, readRemote)
    case Land(id, fill, _, _) => id in l.waiting && l.waiting[id].readAt <= fill <= l.waiting[id].readAt + lag
    case Set(_, _, _, now, later, _, _, _) => now <= later
    case _ => true
  }

  ghost predicate VictimChosen(l: Levels, cfg: Config, e: Event) {
    && (e.Set? && cfg.hasLocal && NeedsRoom(l.local, cfg.maxSize, e.key) ==> IsVictim(l.local, e.now, e.victim))
    && (e.Land? && Lands(l, cfg, e) && NeedsRoom(l.local, cfg.maxSize, l.waiting[e.id].key) ==> IsVictim(l.local, e.fill, e.victim))
    && (e.Get? && cfg.hasLocal && NeedsRoom(l.local, cfg.maxSize, e.key) ==> IsVictim(l.local, e.fill, e.victim))
  }

  ghost predicate Legal(cfg: Config, trace: seq<Event>, lag: nat) {
    trace == [] ||
    var init, e := trace[..|trace| - 1], trace[|trace| - 1];
    && Legal(cfg, init, lag)
    && Timely(Run(cfg, init), cfg, e, lag) && VictimChosen(Run(cfg, init), cfg, e)
  }

  // ---------------------------------------------------------------- what was set through the cache

  /** A value as set through the cache: when the call ended and for how long it was meant to live. */
  datatype Origin = Origin(value: LimitFields, setAt: int, ttl: int)

  function OriginOf(cfg: Config, e: Event): Origin
    requires e.Set?
  {
    var near, far := Effective(e.ttl, cfg.defaultTTL), Effective(e.ttl, cfg.remoteTTL);
    Origin(e.value, e.later, if near < far then far else near)
  }

  predicate Touches(e: Event, key: string) {
    e.Clear? || ((e.Set? || e.Delete?) && e.key == key)
  }

  function OriginsAfter(cfg: Config, before: map<string, Origin>, e: Event): map<string, Origin> {
    match e
    case Set(key, _, _, _, _, _, _, _) => before[key := OriginOf(cfg, e)]
    case Delete(key, _, _) => before - {key}
    case Clear(_, _) => map[]
    case _ => before
  }

  /** The latest value set and not deleted or cleared since, per key. */
  function Origins(cfg: Config, trace: seq<Event>): map<string, Origin> {
    if trace == [] then map[]
    else OriginsAfter(cfg, Origins(cfg, trace[..|trace| - 1]), trace[|trace| - 1])
  }

  ghost predicate LatestSet(cfg: Config, trace: seq<Event>, i: nat, key: string, origin: Origin) {
    && i < |trace| && trace[i].Set? && trace[i].key == key && OriginOf(cfg, trace[i]) == origin
    && forall j :: i < j < |trace| ==> !Touches(trace[j], key)
  }

  lemma {:induction false} OriginIsLatestSet(cfg: Config, trace: seq<Event>, key: string)
    requires key in Origins(cfg, trace)
    ensures exists i: nat :: LatestSet(cfg, trace, i, key, Origins(cfg, trace)[key])
  {
    var n := |trace| - 1;
    if Touches(trace[n], key) {
      assert LatestSet(cfg, trace, n, key, Origins(cfg, trace)[key]);
    } else {
      OriginIsLatestSet(cfg, trace[..n], key);
      var i: nat :| LatestSet(cfg, trace[..n], i, key, Origins(cfg, trace[..n])[key]);
      assert LatestSet(cfg, trace, i, key, Origins(cfg, trace)[key]);
    }
  }

  // ---------------------------------------------------------------- staleness

  /** How long past its lifetime a value may still be served: one local lifetime, started by a late refill. */
  function Slack(cfg: Config, lag: nat): nat {
    if cfg.hasLocal && cfg.hasRemote && cfg.defaultTTL + lag > 0 then cfg.defaultTTL + lag else 0
  }

  /** The refills of the key fetched since the latest call that touched it. */
  function FetchedSince(trace: seq<Event>, key: string): set<nat> {
    if trace == [] then {}
    else SinceAfter(FetchedSince(trace[..|trace| - 1], key), trace[|trace| - 1], key)
  }

  function SinceAfter(since: set<nat>, e: Event, key: string): set<nat> {
    if Touches(e, key) then {}
    else if e.Fetch? && e.key == key then since + {e.id}
    else since
  }

  /** A refill of the key lands that was fetched before the key was last set, deleted or cleared. */
  predicate LandsLate(l: Levels, cfg: Config, since: set<nat>, e: Event, key: string) {
    e.Land? && Lands(l, cfg, e) && l.waiting[e.id].key == key && e.id !in since
  }

  /** The latest call on the key was accepted by both levels, and no refill has overtaken it. */
  predicate Undisturbed(cfg: Config, trace: seq<Event>, key: string) {
    trace == [] ||
    var init, e := trace[..|trace| - 1], trace[|trace| - 1];
    if Touches(e, key) then !Failed(cfg, e)
    else Undisturbed(cfg, init, key) && !LandsLate(Run(cfg, init), cfg, FetchedSince(init, key), e, key)
  }

  /** The level's item for the key, if any, has the origin's value and outlives it by at most the slack. */
  ghost predicate ItemFollows(level: Entries, origins: map<string, Origin>, slack: nat, key: string) {
    key in level ==>
      && key in origins && level[key].value == origins[key].value
      && level[key].expiry <= origins[key].setAt + origins[key].ttl + slack
  }

  /** The refills fetched since carry the origin's value, read within its lifetime. */
  ghost predicate RefillsFollow(waiting: map<nat, Refill>, origins: map<string, Origin>, since: set<nat>, key: string) {
    forall id :: id in since && id in waiting && waiting[id].key == key ==>
      && key in origins && waiting[id].value == origins[key].value
      && waiting[id].readAt <= origins[key].setAt + origins[key].ttl
  }

  ghost predicate KeyFollows(l: Levels, cfg: Config, origins: map<string, Origin>, since: set<nat>, lag: nat, key: string) {
    && ItemFollows(l.local, origins, Slack(cfg, lag), key)
    && ItemFollows(l.remote, origins, 0, key)
    && RefillsFollow(l.waiting, origins, since, key)
  }

  /** A level that does not exist holds nothing. */
  ghost predicate OnlyExisting(l: Levels, cfg: Config) {
    (!cfg.hasLocal ==> l.local == map[]) && (!cfg.hasRemote ==> l.remote == map[] && l.waiting == map[])
  }

  lemma StepOnlyExisting(l: Levels, cfg: Config, e: Event)
    requires OnlyExisting(l, cfg)
    ensures OnlyExisting(Advance(l, cfg, e), cfg)
  {
  }

  lemma PutFollows(level: Entries, maxSize: int, filled: string, item: Item, victim: string,
                   origins: map<string, Origin>, slack: nat, key: string)
    requires filled == key || ItemFollows(level, origins, slack, key)
    requires filled == key ==>
               && key in origins && item.value == origins[key].value
               && item.expiry <= origins[key].setAt + origins[key].ttl + slack
    ensures ItemFollows(Put(level, maxSize, filled, item, victim), origins, slack, key)
  {
  }

  lemma GetFollows(l: Levels, cfg: Config, origins: map<string, Origin>, since: set<nat>, lag: nat, e: Event, key: string)
    requires e.Get? && KeyFollows(l, cfg, origins, since, lag, key) && Timely(l, cfg, e, lag)
    ensures KeyFollows(Advance(l, cfg, e), cfg, origins, since, lag, key)
  {
    if !LocalHit(l, cfg, e.key, e.readLocal) && RemoteHit(l, cfg, e.key, e.readRemote) && cfg.hasLocal && e.filled {
      var item := Item(l.remote[e.key].value, e.fill + cfg.defaultTTL, e.fill);
      PutFollows(l.local, cfg.maxSize, e.key, item, e.victim, origins, Slack(cfg, lag), key);
    }
  }

  lemma LandFollows(l: Levels, cfg: Config, origins: map<string, Origin>, since: set<nat>, lag: nat, e: Event, key: string)
    requires e.Land? && KeyFollows(l, cfg, origins, since, lag, key) && Timely(l, cfg, e, lag) && OnlyExisting(l, cfg)
    requires !LandsLate(l, cfg, since, e, key)
    ensures KeyFollows(Advance(l, cfg, e), cfg, origins, since, lag, key)
  {
    if Lands(l, cfg, e) {
      var refill := l.waiting[e.id];
      PutFollows(l.local, cfg.maxSize, refill.key, Item(refill.value, e.fill + cfg.defaultTTL, e.fill), e.victim,
                 origins, Slack(cfg, lag), key);
    }
  }

  lemma SetFollows(l: Levels, cfg: Config, origins: map<string, Origin>, since: set<nat>, lag: nat, e: Event, key: string)
    requires e.Set? && Timely(l, cfg, e, lag) && OnlyExisting(l, cfg)
    requires if e.key == key then !Failed(cfg, e) else KeyFollows(l, cfg, origins, since, lag, key)
    ensures KeyFollows(Advance(l, cfg, e), cfg, OriginsAfter(cfg, origins, e), SinceAfter(since, e, key), lag, key)
  {
    var near := Item(e.value, e.now + Effective(e.ttl, cfg.defaultTTL), e.now);
    if cfg.hasLocal && e.localOk {
      PutFollows(l.local, cfg.maxSize, e.key, near, e.victim, OriginsAfter(cfg, origins, e), Slack(cfg, lag), key);
    }
  }

  lemma StepFollows(l: Levels, cfg: Config, origins: map<string, Origin>, since: set<nat>, lag: nat, e: Event, key: string)
    requires Timely(l, cfg, e, lag) && OnlyExisting(l, cfg) && !LandsLate(l, cfg, since, e, key)
    requires if Touches(e, key) then !Failed(cfg, e) else KeyFollows(l, cfg, origins, since, lag, key)
    ensures KeyFollows(Advance(l, cfg, e), cfg, OriginsAfter(cfg, origins, e), SinceAfter(since, e, key), lag, key)
  {
    match e
    case Get(_, _, _, _, _, _) => GetFollows(l, cfg, origins, since, lag, e, key);
    case Fetch(_, _, _) =>
    case Land(_, _, _, _) => LandFollows(l, cfg, origins, since, lag, e, key);
    case Set(_, _, _, _, _, _, _, _) => SetFollows(l, cfg, origins, since, lag, e, key);
    case Delete(_, _, _) =>
    case Clear(_, _) =>
    case Vanish(_, _) =>
  }

  lemma {:induction false} RunOnlyExisting(cfg: Config, trace: seq<Event>)
    ensures OnlyExisting(Run(cfg, trace), cfg)
  {
    if trace != [] {
      RunOnlyExisting(cfg, trace[..|trace| - 1]);
      StepOnlyExisting(Run(cfg, trace[..|trace| - 1]), cfg, trace[|trace| - 1]);
    }
  }

  lemma {:induction false} RunFollows(cfg: Config, trace: seq<Event>, lag: nat, key: string)
    requires Legal(cfg, trace, lag) && Undisturbed(cfg, trace, key)
    ensures KeyFollows(Run(cfg, trace), cfg, Origins(cfg, trace), FetchedSince(trace, key), lag, key)
  {
    if trace != [] {
      var init, e := trace[..|trace| - 1], trace[|trace| - 1];
      RunOnlyExisting(cfg, init);
      if !Touches(e, key) {
        RunFollows(cfg, init, lag, key);
      }
      StepFollows(Run(cfg, init), cfg, Origins(cfg, init), FetchedSince(init, key), lag, e, key);
    }
  }

  /**
   On any run, while the latest call on a key was accepted and no refill overtook it, an answer for
   that key is the latest value set through the cache and not deleted since, and it is served at
   most Slack past its lifetime: defaultTTL plus the time a refill takes when both levels exist,
   nothing otherwise. Calls on other keys may fail at will.
   */
  lemma {:induction false} StalenessBound(cfg: Config, trace: seq<Event>, lag: nat, e: Event)
    requires (e.Get? || e.Fetch?) && Legal(cfg, trace, lag) && Undisturbed(cfg, trace, e.key)
    requires Served(Run(cfg, trace), cfg, e).Some?
    ensures var (value, at) := Served(Run(cfg, trace), cfg, e).value;
            exists i: nat, origin: Origin ::
              && LatestSet(cfg, trace, i, e.key, origin)
              && value == origin.value
              && at <= origin.setAt + origin.ttl + Slack(cfg, lag)
  {
    RunFollows(cfg, trace, lag, e.key);
    OriginIsLatestSet(cfg, trace, e.key);
  }

  /** Every answer for an undisturbed key comes within its own lifetime. */
  ghost predicate LifetimeKept(cfg: Config, trace: seq<Event>, lag: nat, e: Event)
  {
    e.Get? && Legal(cfg, trace, lag) && Undisturbed(cfg, trace, e.key) && Served(Run(cfg, trace), cfg, e).Some? ==>
      && e.key in Origins(cfg, trace)
      && Served(Run(cfg, trace), cfg, e).value.1 <= Origins(cfg, trace)[e.key].setAt + Origins(cfg, trace)[e.key].ttl
  }

  ghost predicate RespectsLifetimes(cfg: Config, lag: nat) {
    forall trace: seq<Event>, e: Event :: LifetimeKept(cfg, trace, lag, e)
  }

  /** The local entry expires a moment before the remote one, which then refills it at the last moment. */
  function LateRefill(lag: nat): seq<Event> {
    [Set("k", ZERO_FIELDS, 1, 0, 1, true, true, ""), Get("k", 2, 2, 2 + lag, true, "")]
  }

  lemma {:induction false} LateRefillRun(cfg: Config, lag: nat)
    requires cfg.hasLocal && cfg.hasRemote
    ensures Legal(cfg, LateRefill(lag), lag) && Undisturbed(cfg, LateRefill(lag), "k")
    ensures var l := Run(cfg, LateRefill(lag));
            "k" in l.local && l.local["k"] == Item(ZERO_FIELDS, 2 + lag + cfg.defaultTTL, 2 + lag)
    ensures var o := Origins(cfg, LateRefill(lag)); "k" in o && o["k"].setAt == 1 && o["k"].ttl == 1
  {
    var t := LateRefill(lag);
    var t0, t1 := t[..0], t[..1];
    assert t1[..0] == t0;
    assert Run(cfg, t0) == EMPTY && Legal(cfg, t0, lag);
    assert Run(cfg, t1) == Levels(map["k" := Item(ZERO_FIELDS, 1, 0)], map["k" := Item(ZERO_FIELDS, 2, 1)], 0, 0, map[]);
    assert Legal(cfg, t1, lag) && Undisturbed(cfg, t1, "k");
    assert Origins(cfg, t0) == map[] && "k" in Origins(cfg, t1);
  }

  /** Lifetimes are kept exactly when there is no slack; otherwise some answer is Slack late. */
  lemma {:induction false} LifetimesKeptIffNoSlack(cfg: Config, lag: nat)
    ensures RespectsLifetimes(cfg, lag) <==> Slack(cfg, lag) == 0
  {
    if Slack(cfg, lag) == 0 {
      forall trace: seq<Event>, e: Event
        ensures LifetimeKept(cfg, trace, lag, e)
      {
        if e.Get? && Legal(cfg, trace, lag) && Undisturbed(cfg, trace, e.key) {
          RunFollows(cfg, trace, lag, e.key);
        }
      }
    } else {
      LateRefillRun(cfg, lag);
      var at := 2 + lag + cfg.defaultTTL;
      assert !LifetimeKept(cfg, LateRefill(lag), lag, Get("k", at, at, at, true, ""));
    }
  }

  /**
   After a Set that reported an error an older value can come back: the remote level refused the
   new value, and once that has expired locally the old one is served again.
   */
  lemma {:induction false} FailedSetResurfaces(cfg: Config, old_: LimitFields, new_: LimitFields, lag: nat)
    requires cfg.hasLocal && cfg.hasRemote && old_ != new_
    ensures var trace := [Set("k", old_, 9, 0, 0, true, true, ""), Set("k", new_, 1, 1, 1, true, false, "")];
            && Legal(cfg, trace, lag) && !Undisturbed(cfg, trace, "k")
            && "k" in Origins(cfg, trace) && Origins(cfg, trace)["k"].value == new_
            && Served(Run(cfg, trace), cfg, Get("k", 3, 3, 3, true, "")) == Some((old_, 3))
  {
    var t := [Set("k", old_, 9, 0, 0, true, true, ""), Set("k", new_, 1, 1, 1, true, false, "")];
    var t0, t1 := t[..0], t[..1];
    assert t1[..0] == t0;
    assert Run(cfg, t0) == EMPTY && Legal(cfg, t0, lag);
    assert Run(cfg, t1) == Levels(map["k" := Item(old_, 9, 0)], map["k" := Item(old_, 9, 0)], 0, 0, map[]) && Legal(cfg, t1, lag);
    assert "k" in Run(cfg, t).local && Run(cfg, t).local["k"].expiry == 2 && Run(cfg, t).remote == Run(cfg, t1).remote;
  }

  /** A value fetched, replaced by a newer Set, and only then stored locally hides the newer one. */
  function Overtaken(old_: LimitFields, new_: LimitFields): seq<Event> {
    [Set("k", old_, 1, 0, 1, true, true, ""), Fetch(0, "k", 2), Set("k", new_, 9, 3, 3, true, true, ""), Land(0, 4, true, "")]
  }

  lemma {:induction false} OvertakenRun(cfg: Config, old_: LimitFields, new_: LimitFields)
    requires cfg.hasLocal && cfg.hasRemote
    ensures var t := Overtaken(old_, new_); var near, far := Item(old_, 1, 0), Item(old_, 2, 1); var newer := Item(new_, 12, 3);
            && Run(cfg, t[..1]) == Levels(map["k" := near], map["k" := far], 0, 0, map[])
            && Run(cfg, t[..2]) == Levels(map["k" := near], map["k" := far], 0, 0, map[0 := Refill("k", old_, 2)])
            && Run(cfg, t[..3]) == Levels(map["k" := newer], map["k" := newer], 0, 0, map[0 := Refill("k", old_, 2)])
  {
    var t := Overtaken(old_, new_);
    assert t[..1][..0] == [] && t[..2][..1] == t[..1] && t[..3][..2] == t[..2];
    assert Run(cfg, []) == EMPTY;
  }

  lemma {:induction false} OvertakenLegal(cfg: Config, old_: LimitFields, new_: LimitFields, lag: nat)
    requires cfg.hasLocal && cfg.hasRemote && lag >= 2
    ensures Legal(cfg, Overtaken(old_, new_), lag)
  {
    var t := Overtaken(old_, new_);
    OvertakenRun(cfg, old_, new_);
    assert t[..1][..0] == [] && t[..2][..1] == t[..1] && t[..3][..2] == t[..2] && t[..4] == t;
    assert Legal(cfg, [], lag) && Run(cfg, []) == EMPTY;
    assert Legal(cfg, t[..1], lag);
    assert Legal(cfg, t[..2], lag);
    assert Legal(cfg, t[..3], lag);
  }

  lemma {:induction false} LateLandingResurfaces(cfg: Config, old_: LimitFields, new_: LimitFields, lag: nat)
    requires cfg.hasLocal && cfg.hasRemote && old_ != new_ && cfg.defaultTTL >= 0 && lag >= 2
    ensures var trace := Overtaken(old_, new_);
            && Legal(cfg, trace, lag) && !Undisturbed(cfg, trace, "k")
            && "k" in Origins(cfg, trace) && Origins(cfg, trace)["k"].value == new_
            && Served(Run(cfg, trace), cfg, Get("k", 4, 4, 4, true, "")) == Some((old_, 4))
  {
    var t := Overtaken(old_, new_);
    OvertakenLegal(cfg, old_, new_, lag);
    OvertakenRun(cfg, old_, new_);
    assert FetchedSince(t[..3], "k") == {} && "k" in Origins(cfg, t[..3]);
    assert "k" in Run(cfg, t).local && Run(cfg, t).local["k"] == Item(old_, 4 + cfg.defaultTTL, 4);
  }

  /** The Gets that have ended. */
  function Gets(trace: seq<Event>): nat {
    if trace == [] then 0
    else Gets(trace[..|trace| - 1]) + if trace[|trace| - 1].Get? || trace[|trace| - 1].Land? then 1 else 0
  }

  /** The two counters together count the Gets, and each Get is counted as a hit exactly when it was served. */
  lemma {:induction false} CountersCountGets(cfg: Config, trace: seq<Event>)
    ensures Run(cfg, trace).hits + Run(cfg, trace).misses == Gets(trace)
    ensures trace != [] && trace[|trace| - 1].Get? ==>
              var before := Run(cfg, trace[..|trace| - 1]);
              Run(cfg, trace).hits == before.hits + if Served(before, cfg, trace[|trace| - 1]).Some? then 1 else 0
  {
    if trace != [] {
      CountersCountGets(cfg, trace[..|trace| - 1]);
    }
  }
}
