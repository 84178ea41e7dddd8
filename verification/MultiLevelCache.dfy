/** The two-level cache object: a local cache in front of a remote one. */
module MultiLevelCache {
  import opened LimitResults
  import opened CacheSpec
  import opened LocalCache
  import opened CacheOwnership
  import TwoLevel

  /** A remote level that keeps the local level's expiry contract and builds a new object for each answer. */
  class RemoteCache {
    var items: Entries
    const ttlByDefault: int

    constructor (ttlByDefault: int)
      ensures items == map[] && this.ttlByDefault == ttlByDefault
    {
      items, this.ttlByDefault := map[], ttlByDefault;
    }

    method Get(key: string, now: int) returns (result: LimitResult?)
      ensures result != null <==> Hit(items, key, now)
      ensures result != null ==> fresh(result) && result.fields == items[key].value
    {
      result := null;
      if key in items && now <= items[key].expiry {
        result := new LimitResult(items[key].value);
      }
    }

    method Set(key: string, result: LimitResult, ttl: int, now: int, accepted: bool) returns (ok: bool)
      modifies this
      ensures ok == accepted
      ensures items == if accepted
                then old(items)[key := Item(result.fields, now + TwoLevel.Effective(ttl, ttlByDefault), now)] else old(items)
    {
      if accepted {
        items := items[key := Item(result.fields, now + TwoLevel.Effective(ttl, ttlByDefault), now)];
      }
      ok := accepted;
    }

    method Delete(key: string, accepted: bool) returns (ok: bool)
      modifies this
      ensures ok == accepted && items == if accepted then old(items) - {key} else old(items)
    {
      if accepted {
        items := items - {key};
      }
      ok := accepted;
    }

    method Clear(accepted: bool) returns (ok: bool)
      modifies this
      ensures ok == accepted && items == if accepted then map[] else old(items)
    {
      if accepted {
        items := map[];
      }
      ok := accepted;
    }
  }

  /** A remote hit, component by component. */
  lemma Refilled(l: TwoLevel.Levels, l': TwoLevel.Levels, cfg: TwoLevel.Config, key: string, value: LimitFields, readRemote: int,
                 fill: int, filled: bool, victim: string)
    requires TwoLevel.RemoteHit(l, cfg, key, readRemote) && l.remote[key].value == value
    requires l'.remote == l.remote && l'.hits == l.hits + 1 && l'.misses == l.misses && l'.waiting == l.waiting
    requires l'.local == if cfg.hasLocal && filled
                         then Put(l.local, cfg.maxSize, key, Item(value, fill + cfg.defaultTTL, fill), victim)
                         else l.local
    ensures l' == TwoLevel.AfterLocalMiss(l, cfg, key, readRemote, fill, filled, victim)
  {
  }

  /** A Set, component by component. */
  lemma BothSet(l: TwoLevel.Levels, l': TwoLevel.Levels, cfg: TwoLevel.Config, e: TwoLevel.Event)
    requires e.Set? && l'.hits == l.hits && l'.misses == l.misses && l'.waiting == l.waiting
    requires l'.local == if cfg.hasLocal && e.localOk
                         then Put(l.local, cfg.maxSize, e.key,
                                  Item(e.value, e.now + TwoLevel.Effective(e.ttl, cfg.defaultTTL), e.now), e.victim)
                         else l.local
    requires l'.remote == if cfg.hasRemote && e.remoteOk
                          then l.remote[e.key := Item(e.value, e.later + TwoLevel.Effective(e.ttl, cfg.remoteTTL), e.later)]
                          else l.remote
    ensures l' == TwoLevel.Advance(l, cfg, e)
  {
  }

  class MultiLevelCache {
    const local: LocalCache?
    const remote: RemoteCache?
    var hitCounter: nat
    var missCounter: nat

    ghost predicate Valid()
      reads local, if local != null then local.Results() else {}
    {
      local != null ==> local.Valid()
    }

    ghost function Config(): TwoLevel.Config {
      TwoLevel.Config(
        if local != null then local.maxSize else 0, if local != null then local.defaultTTL else 0,
        if remote != null then remote.ttlByDefault else 0, local != null, remote != null)
    }

    ghost function View(): TwoLevel.Levels
      reads this, local, remote
    {
      TwoLevel.Levels(
        if local != null then local.contents else map[], if remote != null then remote.items else map[],
        hitCounter, missCounter, map[])
    }

    constructor (local: LocalCache?, remote: RemoteCache?)
      requires local != null ==> local.Valid() && local.entries == map[]
      requires remote != null ==> remote.items == map[]
      ensures Valid() && Held() == old(if local != null then local.held else {})
      ensures View() == TwoLevel.EMPTY && this.local == local && this.remote == remote
    {
      this.local, this.remote, hitCounter, missCounter := local, remote, 0, 0;
    }

    /** What the local level may give out or write to. */
    ghost function Held(): set<LimitResult>
      reads local
    {
      if local != null then local.held else {}
    }

    /**
     A remote answer that refills the local level is the very object the caller receives, and that
     is the only way for an answer to be anyone's but the caller's.
     */
    method Get(key: string, readLocal: int, readRemote: int, fill: int, filled: bool, reuse: bool)
      returns (result: LimitResult?, ghost victim: string)
      requires Valid()
      modifies this, local, if local != null then (set o | o in local.pool) else {}
      ensures Valid()
      ensures var e := TwoLevel.Get(key, readLocal, readRemote, fill, filled, victim);
              && View() == TwoLevel.Advance(old(View()), Config(), e)
              && (result != null <==> TwoLevel.Served(old(View()), Config(), e).Some?)
              && (result != null ==> result.fields == TwoLevel.Served(old(View()), Config(), e).value.0)
      ensures forall o :: o in Held() ==> o in old(Held()) || fresh(o)
      ensures result != null && local != null ==>
                && result !in local.pool
                && (result in local.Results() <==> filled && !TwoLevel.LocalHit(old(View()), Config(), key, readLocal))
      ensures result in Held() ==> local != null && key in local.entries && local.entries[key].result == result
      ensures result != null ==>
                (result in Held() <==> local != null && filled && !TwoLevel.LocalHit(old(View()), Config(), key, readLocal))
    {
      victim := "";
      result := AskLocal(key, readLocal, reuse);
      if result != null {
        CountHit();
        assert result !in Held();
      } else {
        result, victim := GetRemote(key, readRemote, fill, filled);
        assert result != null && local != null && filled ==> result in local.Results();
      }
    }

    method CountHit()
      requires Valid()
      modifies this`hitCounter
      ensures Valid() && View() == old(View()).(hits := old(View()).hits + 1)
    {
      hitCounter := hitCounter + 1;
    }

    method CountMiss()
      requires Valid()
      modifies this`missCounter
      ensures Valid() && View() == old(View()).(misses := old(View()).misses + 1)
    {
      missCounter := missCounter + 1;
    }

    method AskLocal(key: string, now: int, reuse: bool) returns (result: LimitResult?)
      requires Valid()
      modifies local, if local != null then (set o | o in local.pool) else {}
      ensures Valid() && View() == old(View())
      ensures result != null <==> TwoLevel.LocalHit(old(View()), Config(), key, now)
      ensures result != null ==> result.fields == old(View()).local[key].value
      ensures Held() <= old(Held())
      ensures result != null ==> result !in Held()
    {
      result := null;
      if local != null {
        result := local.Get(key, now, false, reuse);
      }
    }

    method AskRemote(key: string, now: int) returns (result: LimitResult?)
      requires Valid()
      ensures Valid() && View() == old(View())
      ensures result != null <==> TwoLevel.RemoteHit(View(), Config(), key, now)
      ensures result != null ==> result.fields == View().remote[key].value
      ensures result != null ==> fresh(result)
      ensures result != null && local != null ==> result !in local.pool && result !in local.Results()
    {
      result := null;
      if remote != null {
        result := remote.Get(key, now);
      }
    }

    /** What Get does once the local level has missed. */
    method GetRemote(key: string, readRemote: int, fill: int, filled: bool)
      returns (result: LimitResult?, ghost victim: string)
      requires Valid()
      modifies this, local
      ensures Valid()
      ensures var l, cfg := old(View()), Config();
              && (result != null <==> TwoLevel.RemoteHit(l, cfg, key, readRemote))
              && (result != null ==> result.fields == l.remote[key].value)
              && View() == TwoLevel.AfterLocalMiss(l, Config(), key, readRemote, fill, filled, victim)
      ensures result != null && filled && local != null ==> key in local.entries && local.entries[key].result == result
      ensures result != null ==> fresh(result)
      ensures Held() == if result != null && local != null && filled then old(Held()) + {result} else old(Held())
    {
      victim := "";
      result := AskRemote(key, readRemote);
      if result == null {
        CountMiss();
      } else {
        victim := Refill(key, result, readRemote, fill, filled);
      }
    }

    /** A remote hit: the answer is also stored locally, for the default lifetime. */
    method Refill(key: string, result: LimitResult, ghost readRemote: int, fill: int, filled: bool) returns (ghost victim: string)
      requires Valid() && TwoLevel.RemoteHit(View(), Config(), key, readRemote) && result.fields == View().remote[key].value
      requires local != null ==> result !in local.pool && result !in local.Results()
      modifies this`hitCounter, local
      ensures Valid()
      ensures View() == TwoLevel.AfterLocalMiss(old(View()), Config(), key, readRemote, fill, filled, victim)
      ensures local != null && filled ==> key in local.entries && local.entries[key].result == result
      ensures Held() == if local != null && filled then old(Held()) + {result} else old(Held())
    {
      victim := "";
      ghost var l := View();
      if local != null {
        victim := FillLocal(key, result, 0, fill, filled);
      }
      CountHit();
      Refilled(l, View(), Config(), key, result.fields, readRemote, fill, filled, victim);
    }

    /** Setting an entry of the local level changes nothing else. */
    method FillLocal(key: string, result: LimitResult, ttl: int, now: int, accepted: bool) returns (ghost victim: string)
      requires Valid() && local != null && result !in local.pool && result !in local.Results()
      modifies local`entries, local`handed, local`held, local`contents
      ensures Valid()
      ensures View() == if accepted
                then old(View()).(local := Put(old(View()).local, local.maxSize, key,
                       Item(result.fields, now + TwoLevel.Effective(ttl, local.defaultTTL), now), victim))
                else old(View())
      ensures accepted ==> key in local.entries && local.entries[key].result == result
      ensures Held() == if accepted then old(Held()) + {result} else old(Held())
    {
      var _, v := local.Set(key, result, ttl, now, now, now, !accepted);
      victim := v;
    }

    method Set(key: string, result: LimitResult, ttl: int, now: int, later: int, localOk: bool, remoteOk: bool)
      returns (ok: bool, ghost victim: string)
      requires Valid()
      requires local != null ==> result !in local.pool && result !in local.Results()
      modifies this, local, remote
      ensures Valid() && Held() == if local != null && localOk then old(Held()) + {result} else old(Held())
      ensures var e := TwoLevel.Set(key, result.fields, ttl, now, later, localOk, remoteOk, victim);
              View() == TwoLevel.Advance(old(View()), Config(), e) && ok == !TwoLevel.Failed(Config(), e)
      ensures ok <==> (local == null || localOk) && (remote == null || remoteOk)
    {
      ghost var l := View();
      victim := SetLocal(key, result, ttl, now, localOk);
      SetRemote(key, result, ttl, later, remoteOk);
      BothSet(l, View(), Config(), TwoLevel.Set(key, result.fields, ttl, now, later, localOk, remoteOk, victim));
      ok := (local == null || localOk) && (remote == null || remoteOk);
    }

    method SetLocal(key: string, result: LimitResult, ttl: int, now: int, accepted: bool) returns (ghost victim: string)
      requires Valid()
      requires local != null ==> result !in local.pool && result !in local.Results()
      modifies local
      ensures Valid() && Held() == if local != null && accepted then old(Held()) + {result} else old(Held())
      ensures View().hits == old(View()).hits && View().misses == old(View()).misses && View().remote == old(View()).remote
      ensures View().local ==
                if local != null && accepted
                then Put(old(View()).local, local.maxSize, key,
                         Item(result.fields, now + TwoLevel.Effective(ttl, local.defaultTTL), now), victim)
                else old(View()).local
    {
      victim := "";
      if local != null {
        victim := FillLocal(key, result, ttl, now, accepted);
      }
    }

    method SetRemote(key: string, result: LimitResult, ttl: int, now: int, accepted: bool)
      requires Valid()
      modifies remote
      ensures Valid()
      ensures View().hits == old(View()).hits && View().misses == old(View()).misses && View().local == old(View()).local
      ensures View().remote ==
                if remote != null && accepted
                then old(View()).remote[key := Item(result.fields, now + TwoLevel.Effective(ttl, remote.ttlByDefault), now)]
                else old(View()).remote
    {
      if remote != null {
        var _ := remote.Set(key, result, ttl, now, accepted);
      }
    }

    method Delete(key: string, localOk: bool, remoteOk: bool) returns (ok: bool)
      requires Valid()
      modifies this, local, remote
      ensures Valid() && Held() == old(Held())
      ensures var e := TwoLevel.Delete(key, localOk, remoteOk);
              View() == TwoLevel.Advance(old(View()), Config(), e) && ok == !TwoLevel.Failed(Config(), e)
      ensures ok <==> (local == null || localOk) && (remote == null || remoteOk)
    {
      ok := true;
      if local != null {
        ok := local.Delete(key, !localOk);
      }
      if remote != null {
        var deleted := remote.Delete(key, remoteOk);
        ok := ok && deleted;
      }
    }

    method Clear(localOk: bool, remoteOk: bool) returns (ok: bool)
      requires Valid()
      modifies this, local, remote
      ensures Valid() && Held() == old(Held())
      ensures var e := TwoLevel.Clear(localOk, remoteOk);
              View() == TwoLevel.Advance(old(View()), Config(), e) && ok == !TwoLevel.Failed(Config(), e)
      ensures ok <==> (local == null || localOk) && (remote == null || remoteOk)
    {
      ok := true;
      if local != null {
        ok := local.Clear(!localOk);
      }
      if remote != null {
        var cleared := remote.Clear(remoteOk);
        ok := ok && cleared;
      }
    }
  }

  /** The Get reaches the remote level and stores its answer locally. */
  predicate Refills(l: TwoLevel.Levels, cfg: TwoLevel.Config, key: string, readLocal: int, readRemote: int, filled: bool) {
    && cfg.hasLocal && !TwoLevel.LocalHit(l, cfg, key, readLocal)
    && TwoLevel.RemoteHit(l, cfg, key, readRemote) && filled
  }

  /**
   An answer that was no refill is the caller's own: whatever steps of whatever calls follow, it
   keeps its value, the local level never holds it and no later answer is given in it.
   */
  method AnswerIsOwnUnlessRefill(cache: MultiLevelCache, key: string, readLocal: int, readRemote: int, fill: int,
                                 filled: bool, reuse: bool, looked: seq<Entry>, sections: seq<Section>)
    returns (answer: LimitResult?, copies: seq<Copied>)
    requires cache.Valid()
    modifies cache, cache.local, cache.Held()
    ensures cache.Valid()
    ensures var served := TwoLevel.Served(old(cache.View()), cache.Config(),
                                          TwoLevel.Get(key, readLocal, readRemote, fill, filled, ""));
            && (answer != null <==> served.Some?)
            && (answer != null && !Refills(old(cache.View()), cache.Config(), key, readLocal, readRemote, filled) ==>
                  && answer.fields == served.value.0
                  && answer !in cache.Held()
                  && !Answered(copies, answer))
  {
    copies := [];
    var result, _ := cache.Get(key, readLocal, readRemote, fill, filled, reuse);
    answer := result;
    if cache.local != null {
      copies := Play(cache.local, looked, sections);
    }
  }

  /** A refill's answer is not: later calls can leave any value whatever in it. */
  method RefilledAnswerOverwritten(cache: MultiLevelCache, key: string, readLocal: int, readRemote: int, fill: int,
                                   reuse: bool, value: LimitFields)
    returns (answer: LimitResult)
    requires cache.Valid()
    requires Refills(cache.View(), cache.Config(), key, readLocal, readRemote, true)
    modifies cache, cache.local, cache.Held()
    ensures answer.fields == value
  {
    var result, _ := cache.Get(key, readLocal, readRemote, fill, true, reuse);
    answer := result;
    Overwrite(cache.local, key, value, fill);
  }

  /** Such a refill comes up: the local entry of a short-lived value expires before the remote one. */
  method RefillComesUp(maxSize: int, defaultTTL: int, remoteTTL: int, set_: LimitFields, value: LimitFields)
    returns (answer: LimitResult)
    ensures answer.fields == value
  {
    var local := new LocalCache(maxSize, defaultTTL);
    var remote := new RemoteCache(remoteTTL);
    var cache := new MultiLevelCache(local, remote);
    var result := new LimitResult(set_);
    var _, _ := cache.Set("k", result, 1, 0, 1, true, true);
    answer := RefilledAnswerOverwritten(cache, "k", 2, 2, 2, true, value);
  }
}
