/**
 The local cache object, with its pool of recycled result objects. The contracts state both what
 the cache holds, as a value, and who owns each result object.
 */
module LocalCache {
  import opened Prelude
  import opened LimitResults
  import opened CacheSpec

  datatype Entry = Entry(result: LimitResult, expiry: int, lastUpdated: int)

  function Listed(keys: seq<string>): set<string> {
    set k | k in keys
  }

  ghost function ResultsOf(entries: map<string, Entry>, keys: set<string>): set<LimitResult> {
    set k | k in keys && k in entries :: entries[k].result
  }

  ghost predicate AllDifferent(entries: map<string, Entry>) {
    forall k1, k2 :: k1 in entries && k2 in entries && k1 != k2 ==> entries[k1].result != entries[k2].result
  }

  lemma OneMoreResult(entries: map<string, Entry>, keys: set<string>, k: string)
    requires AllDifferent(entries) && k in entries && k !in keys
    ensures multiset(ResultsOf(entries, keys + {k})) == multiset(ResultsOf(entries, keys)) + multiset{entries[k].result}
  {
    assert ResultsOf(entries, keys + {k}) == ResultsOf(entries, keys) + {entries[k].result};
  }

  /** Storing an object no entry has keeps the entries' objects different. */
  lemma StoredResults(entries: map<string, Entry>, key: string, entry: Entry)
    requires AllDifferent(entries) && entry.result !in ResultsOf(entries, entries.Keys)
    ensures AllDifferent(entries[key := entry])
  {
    assert forall k :: k in entries ==> entries[k].result in ResultsOf(entries, entries.Keys);
  }

  /** Without the key, its object is gone from the entries and the others stay different. */
  lemma RemovedResults(entries: map<string, Entry>, key: string)
    requires AllDifferent(entries)
    ensures var rest := entries - {key};
            && AllDifferent(rest)
            && ResultsOf(rest, rest.Keys) ==
               ResultsOf(entries, entries.Keys) - if key in entries then {entries[key].result} else {}
  {
    var rest := entries - {key};
    assert forall k :: k in rest ==> k in entries && k != key && rest[k] == entries[k];
    assert forall k :: k in entries && k != key ==> k in rest;
  }

  class LocalCache {
    var entries: map<string, Entry>
    const maxSize: int
    const defaultTTL: int
    /** Result objects waiting to be reused. */
    var pool: multiset<LimitResult>
    /** Keys of the asynchronous deletes started by Get and not yet run. */
    var pending: multiset<string>
    /** Result objects Get has given to callers, who may still be reading them. */
    ghost var handed: set<LimitResult>
    /** Every object the cache may still give out or write to: pooled ones, those in entries, those evicted. */
    ghost var held: set<LimitResult>
    /** The entries as a value. */
    ghost var contents: Entries

    /** The objects in entries, which the cache alone may use. */
    ghost function Results(): set<LimitResult>
      reads this
    {
      ResultsOf(entries, entries.Keys)
    }

    /** Pooled objects and objects in entries are all different, and none is in a caller's hands. */
    ghost predicate Owned()
      reads this
    {
      && (forall o :: o in pool ==> pool[o] == 1 && o in held)
      && (forall k :: k in entries ==> entries[k].result in held && entries[k].result !in pool)
      && AllDifferent(entries)
      && held !! handed
    }

    ghost predicate Valid()
      reads this, Results()
    {
      && Owned()
      && contents.Keys == entries.Keys
      && forall k :: k in entries ==>
           contents[k] == Item(entries[k].result.fields, entries[k].expiry, entries[k].lastUpdated)
    }

    constructor (maxSize: int, defaultTTL: int)
      ensures Valid() && contents == map[] && handed == {} && held == {} && pool == multiset{} && pending == multiset{}
      ensures this.maxSize == maxSize && this.defaultTTL == defaultTTL
    {
      this.maxSize, this.defaultTTL := maxSize, defaultTTL;
      entries, pool, pending, handed, held, contents := map[], multiset{}, multiset{}, {}, {}, map[];
    }

    /** The pool gives back some object put into it, or a new one; which of the two is up to the runtime. */
    method TakeFromPool(reuse: bool) returns (o: LimitResult)
      requires Valid()
      modifies this`pool, this`held
      ensures Valid()
      ensures o !in handed && held == old(held) - {o}
      ensures if reuse && old(pool) != multiset{} then o in old(pool) else fresh(o)
      ensures pool == old(pool) - multiset{o}
    {
      if reuse && pool != multiset{} {
        o :| o in pool;
        pool := pool - multiset{o};
        held := held - {o};
      } else {
        o := new LimitResult(ZERO_FIELDS);
      }
    }

    /**
     A hit answers with a copy in an object of the caller's own: no entry, and no answer given
     earlier, changes when the pool recycles an object for it.
     */
    method Get(key: string, now: int, cancelled: bool, reuse: bool) returns (result: LimitResult?)
      requires Valid()
      modifies this`pool, this`pending, this`handed, this`held, set o | o in pool
      ensures Valid()
      ensures result != null <==> !cancelled && Hit(contents, key, now)
      ensures result != null ==> result.fields == contents[key].value
      ensures result != null ==> result !in old(handed) && held == old(held) - {result}
      ensures result == null ==> held == old(held)
      ensures handed == if result != null then old(handed) + {result} else old(handed)
      ensures forall o :: o in old(handed) ==> o.fields == old(o.fields)
      ensures forall o :: o in old(pool) && o != result ==> o.fields == old(o.fields)
      ensures pending == old(pending) +
                if !cancelled && key in contents && now > contents[key].expiry then multiset{key} else multiset{}
      ensures pool == if result != null then old(pool) - multiset{result} else old(pool)
      ensures result != null && reuse && old(pool) != multiset{} ==> result in old(pool)
    {
      result := null;
      var found := Lookup(key, now, cancelled);
      if found.Some? {
        assert found.value == entries[key] && contents[key].value == entries[key].result.fields;
        result := CopyOut(found.value, reuse);
      }
    }

    /** The first half of Get, under the read lock: the entry found, if it has not expired. */
    method Lookup(key: string, now: int, cancelled: bool) returns (found: Option<Entry>)
      requires Valid()
      modifies this`pending
      ensures Valid()
      ensures found.Some? <==> !cancelled && key in contents && now <= contents[key].expiry
      ensures found.Some? ==> key in entries && found.value == entries[key]
      ensures pending == old(pending) +
                if !cancelled && key in contents && now > contents[key].expiry then multiset{key} else multiset{}
    {
      found := None;
      if cancelled || key !in entries {
        return;
      }
      var entry := entries[key];
      if now > entry.expiry {
        pending := pending + multiset{key};
        return;
      }
      found := Some(entry);
    }

    /**
     The second half, with no lock held: whatever the entry's object holds by now is copied, be the
     entry still in the cache or not.
     */
    method CopyOut(entry: Entry, reuse: bool) returns (result: LimitResult)
      requires Valid()
      modifies this`pool, this`handed, this`held, set o | o in pool
      ensures Valid()
      ensures result.fields == old(entry.result.fields)
      ensures result !in old(handed) && handed == old(handed) + {result} && held == old(held) - {result}
      ensures if reuse && old(pool) != multiset{} then result in old(pool) else fresh(result)
      ensures pool == old(pool) - multiset{result}
      ensures forall o :: o in old(pool) && o != result ==> o.fields == old(o.fields)
    {
      result := TakeFromPool(reuse);
      HandOut(result, entry.result.fields);
    }

    method HandOut(copy: LimitResult, value: LimitFields)
      requires Valid() && copy !in held
      modifies copy, this`handed
      ensures Valid() && copy.fields == value && handed == old(handed) + {copy}
    {
      copy.fields := value;
      handed := handed + {copy};
    }

    /** The key the eviction loop settles on: an oldest one, or "" when it finds none. */
    method FindOldest(now: int) returns (oldestKey: string)
      requires Valid()
      ensures IsVictim(contents, now, oldestKey)
      ensures if exists k :: k in contents && contents[k].updated < now
              then && oldestKey in contents && contents[oldestKey].updated < now
                   && forall k :: k in contents ==> contents[oldestKey].updated <= contents[k].updated
              else oldestKey == ""
    {
      oldestKey := "";
      var oldestTime := now;
      var rest := entries.Keys;
      while rest != {}
        invariant rest <= entries.Keys
        invariant forall k :: k in entries && k !in rest ==> oldestTime <= entries[k].lastUpdated
        invariant oldestTime <= now
        invariant oldestTime == now ==> oldestKey == ""
        invariant oldestTime < now ==> oldestKey in entries && entries[oldestKey].lastUpdated == oldestTime
        decreases |rest|
      {
        var k :| k in rest;
        rest := rest - {k};
        if entries[k].lastUpdated < oldestTime {
          oldestKey, oldestTime := k, entries[k].lastUpdated;
        }
      }
    }

    /**
     The cache takes the object over: it must not be pooled or in an entry already, and a caller
     who got it from the cache gives it up. The three readings are those of the expiry, of the
     update time and of the eviction loop.
     */
    method Set(key: string, result: LimitResult, ttl: int, t1: int, t2: int, t3: int, cancelled: bool)
      returns (ok: bool, ghost victim: string)
      requires Valid() && result !in pool && result !in Results()
      modifies this`entries, this`handed, this`held, this`contents
      ensures Valid()
      ensures ok == !cancelled
      ensures cancelled ==> contents == old(contents) && handed == old(handed) && held == old(held) && entries == old(entries)
      ensures !cancelled ==> handed == old(handed) - {result} && held == old(held) + {result}
      ensures !cancelled && NeedsRoom(old(contents), maxSize, key) ==> IsVictim(old(contents), t3, victim)
      ensures !cancelled ==>
                contents == Put(old(contents), maxSize, key,
                                Item(result.fields, t1 + (if ttl <= 0 then defaultTTL else ttl), t2), victim)
      ensures !cancelled ==> key in entries && entries[key].result == result
    {
      victim := "";
      ok := !cancelled;
      if !cancelled {
        var expiry := t1 + (if ttl <= 0 then defaultTTL else ttl);
        victim := Insert(key, Entry(result, expiry, t2), t3);
      }
    }

    /** The section under the lock. */
    method Insert(key: string, entry: Entry, now: int) returns (ghost victim: string)
      requires Valid() && entry.result !in pool && entry.result !in Results()
      modifies this`entries, this`handed, this`held, this`contents
      ensures Valid() && handed == old(handed) - {entry.result} && held == old(held) + {entry.result}
      ensures NeedsRoom(old(contents), maxSize, key) ==> IsVictim(old(contents), now, victim)
      ensures contents == Put(old(contents), maxSize, key, Item(entry.result.fields, entry.expiry, entry.lastUpdated), victim)
      ensures Stored(old(contents), contents, maxSize, key, Item(entry.result.fields, entry.expiry, entry.lastUpdated), now, victim)
      ensures key in entries && entries[key].result == entry.result
    {
      ghost var was, item := contents, Item(entry.result.fields, entry.expiry, entry.lastUpdated);
      victim := MakeRoom(key, now);
      ghost var room := contents;
      Store(key, entry);
      assert contents == room[key := item];
      PutStores(was, maxSize, key, item, now, victim);
    }

    /** A full cache that does not hold the key drops its oldest entry; the object is not pooled. */
    method MakeRoom(key: string, now: int) returns (ghost victim: string)
      requires Valid()
      modifies this`entries, this`contents
      ensures Valid() && Results() <= old(Results())
      ensures NeedsRoom(old(contents), maxSize, key) ==> IsVictim(old(contents), now, victim)
      ensures contents == if Evicts(old(contents), maxSize, key, victim) then old(contents) - {victim} else old(contents)
    {
      victim := "";
      assert |contents.Keys| == |contents| && |entries.Keys| == |entries|;
      if |entries| >= maxSize && key !in entries {
        var oldestKey := FindOldest(now);
        victim := oldestKey;
        if oldestKey != "" {
          Drop(oldestKey);
        }
      }
    }

    method Drop(key: string)
      requires Valid()
      modifies this`entries, this`contents
      ensures Valid() && Results() <= old(Results())
      ensures contents == old(contents) - {key} && entries == old(entries) - {key}
    {
      RemovedResults(entries, key);
      entries := entries - {key};
      contents := contents - {key};
    }

    method Store(key: string, entry: Entry)
      requires Valid() && entry.result !in pool && entry.result !in Results()
      modifies this`entries, this`handed, this`held, this`contents
      ensures Valid() && handed == old(handed) - {entry.result} && held == old(held) + {entry.result}
      ensures contents == old(contents)[key := Item(entry.result.fields, entry.expiry, entry.lastUpdated)]
      ensures entries == old(entries)[key := entry]
    {
      TakeOver(entry.result);
      StoredResults(entries, key, entry);
      entries := entries[key := entry];
      contents := contents[key := Item(entry.result.fields, entry.expiry, entry.lastUpdated)];
    }

    /** The object is the cache's from now on. */
    ghost method TakeOver(o: LimitResult)
      requires Valid()
      modifies this`handed, this`held
      ensures Valid() && handed == old(handed) - {o} && held == old(held) + {o}
    {
      handed, held := handed - {o}, held + {o};
    }

    /** The removed entry's object goes to the pool. */
    method Remove(key: string)
      requires Valid() && key in entries
      modifies this`entries, this`pool, this`contents
      ensures Valid() && contents == old(contents) - {key}
      ensures pool == old(pool) + multiset{old(entries)[key].result}
      ensures entries == old(entries) - {key}
    {
      RemovedResults(entries, key);
      pool := pool + multiset{entries[key].result};
      entries := entries - {key};
      contents := contents - {key};
    }

    method Delete(key: string, cancelled: bool) returns (ok: bool)
      requires Valid()
      modifies this`entries, this`pool, this`contents
      ensures Valid() && ok == !cancelled
      ensures contents == if cancelled then old(contents) else old(contents) - {key}
      ensures pool == old(pool) + if !cancelled && key in old(entries) then multiset{old(entries)[key].result} else multiset{}
    {
      if cancelled {
        return false;
      }
      if key in entries {
        Remove(key);
      }
      ok := true;
    }

    /** A delete started by an earlier Get runs, whatever has happened to the key since. */
    method RunAsyncDelete(key: string)
      requires Valid() && key in pending
      modifies this`entries, this`pool, this`pending, this`contents
      ensures Valid()
      ensures contents == old(contents) - {key} && pending == old(pending) - multiset{key}
      ensures pool == old(pool) + if key in old(entries) then multiset{old(entries)[key].result} else multiset{}
    {
      var _ := Delete(key, false);
      pending := pending - multiset{key};
    }

    method Clear(cancelled: bool) returns (ok: bool)
      requires Valid()
      modifies this`entries, this`pool, this`contents
      ensures Valid() && ok == !cancelled
      ensures contents == if cancelled then old(contents) else map[]
      ensures !cancelled ==> forall o :: o in pool <==> o in old(pool) || o in old(Results())
    {
      if cancelled {
        return false;
      }
      PoolAll();
      entries := map[];
      contents := map[];
      ok := true;
    }

    /** Every object in an entry goes to the pool, once. */
    method PoolAll()
      requires Valid()
      modifies this`pool
      ensures pool == old(pool) + multiset(Results())
    {
      var rest := entries.Keys;
      ghost var all := entries;
      while rest != {}
        invariant rest <= all.Keys && all == entries
        invariant pool == old(pool) + multiset(ResultsOf(all, all.Keys - rest))
        decreases rest
      {
        var k :| k in rest;
        ghost var done := all.Keys - rest;
        pool := pool + multiset{entries[k].result};
        rest := rest - {k};
        assert all.Keys - rest == done + {k};
        OneMoreResult(all, done, k);
      }
      assert all.Keys - rest == all.Keys;
    }

    /** First phase of the janitor: list the keys expired at `now`. */
    method ScanExpired(now: int) returns (keysToDelete: seq<string>)
      requires Valid()
      ensures forall k :: k in keysToDelete <==> k in contents && now > contents[k].expiry
    {
      keysToDelete := [];
      var rest := entries.Keys;
      while rest != {}
        invariant rest <= entries.Keys
        invariant forall k :: k in keysToDelete <==> k in entries && k !in rest && now > entries[k].expiry
        decreases |rest|
      {
        var k :| k in rest;
        rest := rest - {k};
        if now > entries[k].expiry {
          keysToDelete := keysToDelete + [k];
        }
      }
    }

    /** Second phase: drop the listed entries that are still there and were expired at `now`; their objects are pooled. */
    method SweepExpired(now: int, keysToDelete: seq<string>)
      requires Valid()
      modifies this`entries, this`pool, this`contents
      ensures Valid()
      ensures contents == Sweep(old(contents), now, Listed(keysToDelete))
      ensures forall k :: k in contents <==> k in old(contents) && !(k in keysToDelete && now > old(contents)[k].expiry)
      ensures forall k :: k in contents ==> contents[k] == old(contents)[k]
      ensures pool == old(pool) + multiset(ResultsOf(old(entries), Stale(old(entries), now, keysToDelete)))
    {
      ghost var was, had := contents, entries;
      var i := 0;
      while i < |keysToDelete|
        invariant 0 <= i <= |keysToDelete|
        invariant Valid()
        invariant contents == Sweep(was, now, Listed(keysToDelete[..i]))
        invariant entries == had - Stale(had, now, keysToDelete[..i])
        invariant pool == old(pool) + multiset(ResultsOf(had, Stale(had, now, keysToDelete[..i])))
      {
        SweepOne(now, keysToDelete[i]);
        SweepSnoc(was, now, keysToDelete, i);
        StaleSnoc(had, now, keysToDelete, i);
        i := i + 1;
      }
      assert keysToDelete[..i] == keysToDelete;
    }

    method SweepOne(now: int, k: string)
      requires Valid()
      modifies this`entries, this`pool, this`contents
      ensures Valid()
      ensures contents == Sweep(old(contents), now, {k})
      ensures entries == old(entries) - Stale(old(entries), now, [k])
      ensures pool == old(pool) +
                if k in old(entries) && now > old(entries)[k].expiry then multiset{old(entries)[k].result} else multiset{}
    {
      if k in entries && now > entries[k].expiry {
        Remove(k);
      }
    }
  }

  /** The listed keys whose entries are expired. */
  function Stale(entries: map<string, Entry>, now: int, keys: seq<string>): set<string> {
    set k | k in entries && k in keys && now > entries[k].expiry
  }

  /** The next listed key is stale and not yet gone, or changes nothing. */
  lemma StaleSnoc(entries: map<string, Entry>, now: int, keys: seq<string>, i: nat)
    requires i < |keys| && AllDifferent(entries)
    ensures var done, k := Stale(entries, now, keys[..i]), keys[i];
            var stale := k in entries - done && now > entries[k].expiry;
            && Stale(entries, now, keys[..i + 1]) == done + Stale(entries - done, now, [k])
            && (entries - done) - Stale(entries - done, now, [k]) == entries - Stale(entries, now, keys[..i + 1])
            && multiset(ResultsOf(entries, Stale(entries, now, keys[..i + 1])))
               == multiset(ResultsOf(entries, done)) + if stale then multiset{entries[k].result} else multiset{}
  {
    var done, k := Stale(entries, now, keys[..i]), keys[i];
    assert keys[..i + 1] == keys[..i] + [k];
    if k in entries - done && now > entries[k].expiry {
      assert Stale(entries, now, keys[..i + 1]) == done + {k};
      OneMoreResult(entries, done, k);
    } else {
      assert Stale(entries, now, keys[..i + 1]) == done;
    }
  }

  /** Sweeping one listed key after another is one sweep of the list. */
  lemma SweepSnoc(entries: Entries, now: int, keys: seq<string>, i: nat)
    requires i < |keys|
    ensures Sweep(Sweep(entries, now, Listed(keys[..i])), now, {keys[i]}) == Sweep(entries, now, Listed(keys[..i + 1]))
  {
    assert keys[..i + 1] == keys[..i] + [keys[i]];
  }
}
