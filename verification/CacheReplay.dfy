/**
 The local cache object under any sequence of calls, asynchronous deletes and janitor rounds: it goes
 through a run of the cache as a value, so what is proved of those runs is true of the object.
 */
module CacheReplay {
  import opened Prelude
  import opened LimitResults
  import opened CacheSpec
  import opened LocalCache
  import CacheHistory

  /** AsyncDelete runs a delete started by an earlier Get, Sweep the second phase of an earlier Scan. */
  datatype Call =
    | Set(key: string, value: LimitFields, ttl: int, t1: int, t2: int, t3: int)
    | Get(key: string, now: int, reuse: bool)
    | Delete(key: string)
    | AsyncDelete(key: string)
    | Clear
    | Scan(now: int)
    | Sweep(now: int, keys: seq<string>)

  /** The scans whose second phase is due: their times and the keys they listed. */
  type Scans = multiset<(int, set<string>)>

  /** The object holds what the value does. */
  ghost predicate Matches(cache: LocalCache, c: CacheHistory.Cache, scans: Scans)
    reads cache, cache.Results()
  {
    cache.Valid() && c.entries == cache.contents && c.pending == cache.pending && c.scans == scans
  }

  /** The event records the call: the same operation on the same key, an item with the call's value and times. */
  ghost predicate Records(e: CacheHistory.Event, call: Call, defaultTTL: int) {
    match call
    case Set(key, value, ttl, t1, t2, t3) =>
      e.Set? && e.key == key && e.now == t3 && e.item == Item(value, t1 + (if ttl <= 0 then defaultTTL else ttl), t2)
    case Get(key, now, _) => e == CacheHistory.Get(key, now)
    case Delete(key) => e == CacheHistory.Delete(key)
    case AsyncDelete(key) => e == CacheHistory.AsyncDelete(key)
    case Clear => e == CacheHistory.Clear
    case Scan(now) => e == CacheHistory.Scan(now)
    case Sweep(now, keys) => e == CacheHistory.SweepKeys(now, Listed(keys))
  }

  /** An asynchronous delete nobody started, or a sweep no scan asks for. */
  predicate Idle(call: Call, pending: multiset<string>, scans: Scans) {
    (call.AsyncDelete? && call.key !in pending) || (call.Sweep? && (call.now, Listed(call.keys)) !in scans)
  }

  method ActSet(cache: LocalCache, call: Call, ghost c: CacheHistory.Cache, ghost scans: Scans) returns (ghost e: CacheHistory.Event)
    requires Matches(cache, c, scans) && call.Set?
    modifies cache
    ensures CacheHistory.Enabled(c, cache.maxSize, e) && Records(e, call, cache.defaultTTL)
    ensures Matches(cache, CacheHistory.Advance(c, cache.maxSize, e), scans)
    ensures forall o :: o in cache.held ==> o in old(cache.held) || fresh(o)
  {
    var result := new LimitResult(call.value);
    var _, victim := cache.Set(call.key, result, call.ttl, call.t1, call.t2, call.t3, false);
    e := CacheHistory.Set(
      call.key, Item(call.value, call.t1 + (if call.ttl <= 0 then cache.defaultTTL else call.ttl), call.t2), call.t3, victim);
  }

  method ActDelete(cache: LocalCache, call: Call, ghost c: CacheHistory.Cache, ghost scans: Scans) returns (ghost e: CacheHistory.Event)
    requires Matches(cache, c, scans) && (call.Delete? || call.AsyncDelete? || call.Clear?) && !Idle(call, c.pending, scans)
    modifies cache
    ensures CacheHistory.Enabled(c, cache.maxSize, e) && Records(e, call, cache.defaultTTL)
    ensures Matches(cache, CacheHistory.Advance(c, cache.maxSize, e), scans) && cache.held == old(cache.held)
  {
    match call
    case Delete(key) =>
      var _ := cache.Delete(key, false);
      e := CacheHistory.Delete(key);
    case AsyncDelete(key) =>
      cache.RunAsyncDelete(key);
      e := CacheHistory.AsyncDelete(key);
    case Clear =>
      var _ := cache.Clear(false);
      e := CacheHistory.Clear;
  }

  method ActJanitor(cache: LocalCache, call: Call, ghost c: CacheHistory.Cache, scans: Scans)
    returns (scans': Scans, ghost e: CacheHistory.Event)
    requires Matches(cache, c, scans) && (call.Scan? || call.Sweep?) && !Idle(call, c.pending, scans)
    modifies cache
    ensures CacheHistory.Enabled(c, cache.maxSize, e) && Records(e, call, cache.defaultTTL)
    ensures Matches(cache, CacheHistory.Advance(c, cache.maxSize, e), scans') && cache.held == old(cache.held)
  {
    match call
    case Scan(now) =>
      var keys := cache.ScanExpired(now);
      assert Listed(keys) == Expired(cache.contents, now);
      scans' := scans + multiset{(now, Listed(keys))};
      e := CacheHistory.Scan(now);
    case Sweep(now, keys) =>
      cache.SweepExpired(now, keys);
      scans' := scans - multiset{(now, Listed(keys))};
      e := CacheHistory.SweepKeys(now, Listed(keys));
  }

  /** One call on the object is one enabled step of the value. */
  method Act(cache: LocalCache, call: Call, ghost c: CacheHistory.Cache, scans: Scans)
    returns (scans': Scans, ghost e: CacheHistory.Event)
    requires Matches(cache, c, scans) && !Idle(call, c.pending, scans)
    modifies cache, cache.held
    ensures CacheHistory.Enabled(c, cache.maxSize, e) && Records(e, call, cache.defaultTTL)
    ensures Matches(cache, CacheHistory.Advance(c, cache.maxSize, e), scans')
    ensures forall o :: o in cache.held ==> o in old(cache.held) || fresh(o)
  {
    scans' := scans;
    if call.Set? {
      e := ActSet(cache, call, c, scans);
    } else if call.Get? {
      var _ := cache.Get(call.key, call.now, false, call.reuse);
      e := CacheHistory.Get(call.key, call.now);
    } else if call.Scan? || call.Sweep? {
      scans', e := ActJanitor(cache, call, c, scans);
    } else {
      e := ActDelete(cache, call, c, scans);
    }
  }

  /** The events that were recorded. */
  ghost function Somes(steps: seq<Option<CacheHistory.Event>>): seq<CacheHistory.Event> {
    if steps == [] then []
    else
      var n := |steps| - 1;
      Somes(steps[..n]) + if steps[n].Some? then [steps[n].value] else []
  }

  /** Every call is recorded, save asynchronous deletes and sweeps that were idle. */
  ghost predicate RecordsAll(steps: seq<Option<CacheHistory.Event>>, calls: seq<Call>, defaultTTL: int) {
    && |steps| == |calls|
    && forall i :: 0 <= i < |steps| ==>
         if steps[i].Some? then Records(steps[i].value, calls[i], defaultTTL) else calls[i].AsyncDelete? || calls[i].Sweep?
  }

  lemma RecordsSnoc(steps: seq<Option<CacheHistory.Event>>, calls: seq<Call>, i: nat, step: Option<CacheHistory.Event>, defaultTTL: int)
    requires i < |calls| && RecordsAll(steps, calls[..i], defaultTTL)
    requires if step.Some? then Records(step.value, calls[i], defaultTTL) else calls[i].AsyncDelete? || calls[i].Sweep?
    ensures RecordsAll(steps + [step], calls[..i + 1], defaultTTL)
  {
  }

  /** A legal run that ends with this value. */
  ghost predicate Reaches(maxSize: int, steps: seq<Option<CacheHistory.Event>>, c: CacheHistory.Cache) {
    CacheHistory.Legal(maxSize, Somes(steps)) && CacheHistory.Run(maxSize, Somes(steps)) == c
  }

  lemma ReachesNext(maxSize: int, steps: seq<Option<CacheHistory.Event>>, c: CacheHistory.Cache, e: CacheHistory.Event)
    requires Reaches(maxSize, steps, c) && CacheHistory.Enabled(c, maxSize, e)
    ensures Reaches(maxSize, steps + [Some(e)], CacheHistory.Advance(c, maxSize, e))
  {
    assert (steps + [Some(e)])[..|steps|] == steps;
    assert (Somes(steps) + [e])[..|Somes(steps)|] == Somes(steps);
  }

  lemma ReachesIdle(maxSize: int, steps: seq<Option<CacheHistory.Event>>, c: CacheHistory.Cache)
    requires Reaches(maxSize, steps, c)
    ensures Reaches(maxSize, steps + [None], c)
  {
    assert (steps + [None])[..|steps|] == steps;
    assert Somes(steps) + [] == Somes(steps);
  }

  /** One call, recorded unless idle. */
  method ActOrIdle(cache: LocalCache, call: Call, ghost c: CacheHistory.Cache, scans: Scans, ghost steps: seq<Option<CacheHistory.Event>>)
    returns (scans': Scans, ghost c': CacheHistory.Cache, ghost step: Option<CacheHistory.Event>)
    requires Matches(cache, c, scans) && Reaches(cache.maxSize, steps, c)
    modifies cache, cache.held
    ensures Matches(cache, c', scans') && Reaches(cache.maxSize, steps + [step], c')
    ensures if step.Some? then Records(step.value, call, cache.defaultTTL) else call.AsyncDelete? || call.Sweep?
    ensures forall o :: o in cache.held ==> o in old(cache.held) || fresh(o)
  {
    if Idle(call, cache.pending, scans) {
      scans', c', step := scans, c, None;
      ReachesIdle(cache.maxSize, steps, c);
    } else {
      ghost var e;
      scans', e := Act(cache, call, c, scans);
      c', step := CacheHistory.Advance(c, cache.maxSize, e), Some(e);
      ReachesNext(cache.maxSize, steps, c, e);
    }
  }

  /** Any calls on a new cache: a legal run of the value that ends with what the object holds. */
  method Replay(maxSize: int, defaultTTL: int, calls: seq<Call>)
    returns (cache: LocalCache, scans: Scans, ghost c: CacheHistory.Cache, ghost steps: seq<Option<CacheHistory.Event>>)
    ensures fresh(cache) && cache.maxSize == maxSize && cache.defaultTTL == defaultTTL
    ensures forall o :: o in cache.held ==> fresh(o)
    ensures RecordsAll(steps, calls, defaultTTL) && Reaches(maxSize, steps, c) && Matches(cache, c, scans)
  {
    cache := new LocalCache(maxSize, defaultTTL);
    scans, c, steps := multiset{}, CacheHistory.START, [];
    for i := 0 to |calls|
      invariant fresh(cache) && cache.maxSize == maxSize && cache.defaultTTL == defaultTTL
      invariant forall o :: o in cache.held ==> fresh(o)
      invariant RecordsAll(steps, calls[..i], defaultTTL) && Reaches(maxSize, steps, c) && Matches(cache, c, scans)
    {
      ghost var step;
      scans, c, step := ActOrIdle(cache, calls[i], c, scans, steps);
      RecordsSnoc(steps, calls, i, step, defaultTTL);
      steps := steps + [step];
    }
    assert calls[..|calls|] == calls;
  }

  /**
   Whatever came before, a Get answers with the value of the latest Set on its key, unexpired, and
   misses one that is still good only if that was evicted or deleted late.
   */
  method GetAfter(maxSize: int, defaultTTL: int, calls: seq<Call>, key: string, now: int, reuse: bool)
    returns (result: LimitResult?, ghost steps: seq<Option<CacheHistory.Event>>)
    ensures RecordsAll(steps, calls, defaultTTL) && CacheHistory.Legal(maxSize, Somes(steps))
    ensures result != null ==> exists i: nat, item: Item ::
              CacheHistory.LatestSet(Somes(steps), i, key, item) && result.fields == item.value && now <= item.expiry
    ensures result == null && CacheHistory.ClockAtMost(Somes(steps), now) ==>
              forall i: nat, item: Item :: CacheHistory.LatestSet(Somes(steps), i, key, item) && now <= item.expiry ==>
                CacheHistory.DroppedSince(Somes(steps), CacheHistory.DropLog(maxSize, Somes(steps)), key)
  {
    var cache, scans;
    ghost var c;
    cache, scans, c, steps := Replay(maxSize, defaultTTL, calls);
    result := cache.Get(key, now, false, reuse);
    ghost var trace := Somes(steps);
    if result != null {
      CacheHistory.HitIsLatestSet(maxSize, trace, key, now);
    } else if CacheHistory.ClockAtMost(trace, now) {
      forall i: nat, item: Item | CacheHistory.LatestSet(trace, i, key, item) && now <= item.expiry
        ensures CacheHistory.DroppedSince(trace, CacheHistory.DropLog(maxSize, trace), key)
      {
        CacheHistory.HistoryIsLatestSet(trace, key, item);
        CacheHistory.MissesExplained(maxSize, trace, key, now);
      }
    }
  }
}
