/**
 Where the answers of the two-level cache come from, on any run: which call put the item there that
 each level holds, whatever calls failed on either level, and which level answers a Get.
 */
module TwoLevelSources {
  import opened Prelude
  import opened LimitResults
  import opened CacheSpec
  import opened TwoLevel

  // ---------------------------------------------------------------- the remote level

  /** The item an accepted Set puts into the remote level. */
  function RemoteWrite(cfg: Config, e: Event, key: string): Option<Item> {
    if e.Set? && e.key == key && cfg.hasRemote && e.remoteOk
    then Some(Item(e.value, e.later + (if e.ttl <= 0 then cfg.remoteTTL else e.ttl), e.later))
    else None
  }

  /** An accepted Delete or Clear, or a loss, takes the key from the remote level. */
  predicate RemoteDrop(cfg: Config, e: Event, key: string) {
    match e
    case Delete(k, _, remoteOk) => cfg.hasRemote && remoteOk && k == key
    case Clear(_, remoteOk) => cfg.hasRemote && remoteOk
    case Vanish(_, remoteKeys) => key in remoteKeys
    case _ => false
  }

  /** Step i put this item under the key, and no later step wrote or dropped the key. */
  ghost predicate RemoteSource(cfg: Config, trace: seq<Event>, i: nat, key: string, item: Item) {
    && i < |trace| && RemoteWrite(cfg, trace[i], key) == Some(item)
    && forall j :: i < j < |trace| ==> RemoteWrite(cfg, trace[j], key) == None && !RemoteDrop(cfg, trace[j], key)
  }

  predicate Holds(level: Entries, key: string, item: Item) {
    key in level && level[key] == item
  }

  lemma RemoteStep(l: Levels, cfg: Config, e: Event, key: string, item: Item)
    ensures Holds(Advance(l, cfg, e).remote, key, item) <==>
              if RemoteWrite(cfg, e, key).Some? then RemoteWrite(cfg, e, key) == Some(item)
              else Holds(l.remote, key, item) && !RemoteDrop(cfg, e, key)
  {
  }

  /** The remote level holds an item exactly when the latest accepted Set of the key put it there and nothing removed it since. */
  lemma {:induction false} RemoteHoldsLatest(cfg: Config, trace: seq<Event>, key: string, item: Item)
    ensures Holds(Run(cfg, trace).remote, key, item) <==> exists i: nat :: RemoteSource(cfg, trace, i, key, item)
  {
    if trace != [] {
      var n := |trace| - 1;
      var init, e := trace[..n], trace[n];
      RemoteHoldsLatest(cfg, init, key, item);
      RemoteStep(Run(cfg, init), cfg, e, key, item);
      RemoteSourceSnoc(cfg, trace, key, item);
    }
  }

  lemma {:induction false} RemoteSourceSnoc(cfg: Config, trace: seq<Event>, key: string, item: Item)
    requires trace != []
    ensures var init, e := trace[..|trace| - 1], trace[|trace| - 1];
            (exists i: nat :: RemoteSource(cfg, trace, i, key, item)) <==>
              if RemoteWrite(cfg, e, key).Some? then RemoteWrite(cfg, e, key) == Some(item)
              else (exists i: nat :: RemoteSource(cfg, init, i, key, item)) && !RemoteDrop(cfg, e, key)
  {
    var n := |trace| - 1;
    var init, e := trace[..n], trace[n];
    if RemoteWrite(cfg, e, key) == Some(item) {
      assert RemoteSource(cfg, trace, n, key, item);
    }
    if i: nat :| RemoteSource(cfg, trace, i, key, item) && i < n {
      assert forall j :: i < j < n ==> init[j] == trace[j];
      assert RemoteSource(cfg, init, i, key, item);
    }
    if i: nat :| RemoteSource(cfg, init, i, key, item) && RemoteWrite(cfg, e, key) == None && !RemoteDrop(cfg, e, key) {
      assert forall j :: i < j < n ==> init[j] == trace[j];
      assert RemoteSource(cfg, trace, i, key, item);
    }
  }

  // ---------------------------------------------------------------- the local level

  /** The key and item a step puts into the local level: an accepted Set, or a remote answer stored by a Get. */
  function LocalWrite(l: Levels, cfg: Config, e: Event): Option<(string, Item)> {
    if !cfg.hasLocal then None
    else match e
      case Set(key, value, ttl, now, _, localOk, _, _) =>
        if localOk then Some((key, Item(value, now + (if ttl <= 0 then cfg.defaultTTL else ttl), now))) else None
      case Get(key, readLocal, readRemote, fill, filled, _) =>
        if filled && !(key in l.local && readLocal <= l.local[key].expiry)
           && cfg.hasRemote && key in l.remote && readRemote <= l.remote[key].expiry
        then Some((key, Item(l.remote[key].value, fill + cfg.defaultTTL, fill))) else None
      case Land(id, fill, filled, _) =>
        if filled && id in l.waiting
        then Some((l.waiting[id].key, Item(l.waiting[id].value, fill + cfg.defaultTTL, fill))) else None
      case _ => None
  }

  /** The step takes the key from the local level: an accepted Delete or Clear, a late or janitor's delete, or an eviction. */
  predicate LocalDrop(l: Levels, cfg: Config, e: Event, key: string) {
    match e
    case Delete(k, localOk, _) => cfg.hasLocal && localOk && k == key
    case Clear(localOk, _) => cfg.hasLocal && localOk
    case Vanish(localKeys, _) => key in localKeys
    case Fetch(_, _, _) => false
    case _ =>
      && LocalWrite(l, cfg, e).Some? && key != "" && e.victim == key
      && |l.local| >= cfg.maxSize && LocalWrite(l, cfg, e).value.0 !in l.local
  }

  /** Step i put this item under the key, and no later step wrote or dropped the key. */
  ghost predicate LocalSource(cfg: Config, trace: seq<Event>, i: nat, key: string, item: Item) {
    i < |trace| && PutAt(cfg, trace, i, key, item) && forall j :: i < j < |trace| ==> KeptAt(cfg, trace, j, key)
  }

  predicate PutAt(cfg: Config, trace: seq<Event>, i: nat, key: string, item: Item)
    requires i < |trace|
  {
    LocalWrite(Run(cfg, trace[..i]), cfg, trace[i]) == Some((key, item))
  }

  predicate KeptAt(cfg: Config, trace: seq<Event>, j: nat, key: string)
    requires j < |trace|
  {
    KeepsLocal(Run(cfg, trace[..j]), cfg, trace[j], key)
  }

  lemma SameInPrefix(cfg: Config, trace: seq<Event>, n: nat, j: nat, key: string, item: Item)
    requires j < n <= |trace|
    ensures KeptAt(cfg, trace[..n], j, key) <==> KeptAt(cfg, trace, j, key)
    ensures PutAt(cfg, trace[..n], j, key, item) <==> PutAt(cfg, trace, j, key, item)
  {
    assert trace[..n][..j] == trace[..j];
  }

  predicate KeepsLocal(l: Levels, cfg: Config, e: Event, key: string) {
    !WritesLocal(l, cfg, e, key) && !LocalDrop(l, cfg, e, key)
  }

  predicate WritesLocal(l: Levels, cfg: Config, e: Event, key: string) {
    LocalWrite(l, cfg, e).Some? && LocalWrite(l, cfg, e).value.0 == key
  }

  lemma LocalStep(l: Levels, cfg: Config, e: Event, key: string, item: Item)
    ensures Holds(Advance(l, cfg, e).local, key, item) <==>
              if WritesLocal(l, cfg, e, key) then LocalWrite(l, cfg, e) == Some((key, item))
              else Holds(l.local, key, item) && !LocalDrop(l, cfg, e, key)
  {
    var write := LocalWrite(l, cfg, e);
    if write.Some? {
      WriteIsPut(l, cfg, e);
      PutHolds(l.local, cfg.maxSize, write.value.0, write.value.1, e.victim, key, item);
    } else {
      NoWriteStep(l, cfg, e, key, item);
    }
  }

  lemma WriteIsPut(l: Levels, cfg: Config, e: Event)
    requires LocalWrite(l, cfg, e).Some?
    ensures e.Set? || e.Get? || e.Land?
    ensures Advance(l, cfg, e).local == Put(l.local, cfg.maxSize, LocalWrite(l, cfg, e).value.0, LocalWrite(l, cfg, e).value.1, e.victim)
  {
  }

  lemma NoWriteStep(l: Levels, cfg: Config, e: Event, key: string, item: Item)
    requires LocalWrite(l, cfg, e) == None
    ensures Holds(Advance(l, cfg, e).local, key, item) <==> Holds(l.local, key, item) && !LocalDrop(l, cfg, e, key)
  {
  }

  lemma PutHolds(level: Entries, maxSize: int, put: string, new_: Item, victim: string, key: string, item: Item)
    ensures Holds(Put(level, maxSize, put, new_, victim), key, item) <==>
              if put == key then item == new_
              else Holds(level, key, item) && !(key != "" && victim == key && |level| >= maxSize && put !in level)
  {
  }

  /**
   The local level holds an item exactly when the latest accepted Set or stored remote answer of the
   key put it there and no accepted Delete or Clear, late delete, sweep or eviction took it since.
   */
  lemma {:induction false} LocalHoldsLatest(cfg: Config, trace: seq<Event>, key: string, item: Item)
    ensures Holds(Run(cfg, trace).local, key, item) <==> exists i: nat :: LocalSource(cfg, trace, i, key, item)
  {
    if trace != [] {
      var n := |trace| - 1;
      var init, e := trace[..n], trace[n];
      LocalHoldsLatest(cfg, init, key, item);
      LocalStep(Run(cfg, init), cfg, e, key, item);
      LocalSourceSnoc(cfg, trace, key, item);
    }
  }

  lemma {:induction false} LocalSourceSnoc(cfg: Config, trace: seq<Event>, key: string, item: Item)
    requires trace != []
    ensures var init, e := trace[..|trace| - 1], trace[|trace| - 1]; var l := Run(cfg, init);
            (exists i: nat :: LocalSource(cfg, trace, i, key, item)) <==>
              if WritesLocal(l, cfg, e, key) then LocalWrite(l, cfg, e) == Some((key, item))
              else (exists i: nat :: LocalSource(cfg, init, i, key, item)) && !LocalDrop(l, cfg, e, key)
  {
    var n := |trace| - 1;
    var init, e := trace[..n], trace[n];
    var l := Run(cfg, init);
    if WritesLocal(l, cfg, e, key) {
      if LocalWrite(l, cfg, e) == Some((key, item)) {
        assert LocalSource(cfg, trace, n, key, item);
      }
      forall i: nat
        ensures LocalSource(cfg, trace, i, key, item) ==> i == n
      {
        assert !KeptAt(cfg, trace, n, key);
      }
    } else {
      forall i: nat
        ensures LocalSource(cfg, trace, i, key, item) <==> LocalSource(cfg, init, i, key, item) && !LocalDrop(l, cfg, e, key)
      {
        LocalSourceKept(cfg, trace, i, key, item);
      }
    }
  }

  lemma {:induction false} LocalSourceKept(cfg: Config, trace: seq<Event>, i: nat, key: string, item: Item)
    requires trace != [] && !WritesLocal(Run(cfg, trace[..|trace| - 1]), cfg, trace[|trace| - 1], key)
    ensures LocalSource(cfg, trace, i, key, item) <==>
              && LocalSource(cfg, trace[..|trace| - 1], i, key, item)
              && !LocalDrop(Run(cfg, trace[..|trace| - 1]), cfg, trace[|trace| - 1], key)
  {
    var n := |trace| - 1;
    var init := trace[..n];
    if i < n {
      forall j: nat | j < n
        ensures KeptAt(cfg, init, j, key) <==> KeptAt(cfg, trace, j, key)
        ensures PutAt(cfg, init, j, key, item) <==> PutAt(cfg, trace, j, key, item)
      {
        SameInPrefix(cfg, trace, n, j, key, item);
      }
      assert KeptAt(cfg, trace, n, key) <==> !LocalDrop(Run(cfg, init), cfg, trace[n], key);
    }
  }

  // ---------------------------------------------------------------- answers

  /** The local level has an item for the key that is fresh at the local reading, put there by some step. */
  ghost predicate LocalAnswers(cfg: Config, trace: seq<Event>, e: Event, item: Item)
    requires e.Get?
  {
    cfg.hasLocal && e.readLocal <= item.expiry && exists i: nat :: LocalSource(cfg, trace, i, e.key, item)
  }

  ghost predicate RemoteAnswers(cfg: Config, trace: seq<Event>, e: Event, item: Item)
    requires e.Get?
  {
    cfg.hasRemote && e.readRemote <= item.expiry && exists i: nat :: RemoteSource(cfg, trace, i, e.key, item)
  }

  /**
   Every answer of a Get explained, on any run: the value of the local level's source if that is
   still fresh, else of the remote level's if that is, else none.
   */
  lemma {:induction false} AnswerExplained(cfg: Config, trace: seq<Event>, e: Event)
    requires e.Get?
    ensures forall item :: LocalAnswers(cfg, trace, e, item) ==> Served(Run(cfg, trace), cfg, e) == Some((item.value, e.readLocal))
    ensures (forall item :: !LocalAnswers(cfg, trace, e, item)) ==>
              && (forall item :: RemoteAnswers(cfg, trace, e, item) ==>
                    Served(Run(cfg, trace), cfg, e) == Some((item.value, e.readRemote)))
              && ((forall item :: !RemoteAnswers(cfg, trace, e, item)) ==> Served(Run(cfg, trace), cfg, e) == None)
  {
    var l := Run(cfg, trace);
    forall item
      ensures LocalAnswers(cfg, trace, e, item) <==> cfg.hasLocal && e.readLocal <= item.expiry && Holds(l.local, e.key, item)
      ensures RemoteAnswers(cfg, trace, e, item) <==> cfg.hasRemote && e.readRemote <= item.expiry && Holds(l.remote, e.key, item)
    {
      LocalHoldsLatest(cfg, trace, e.key, item);
      RemoteHoldsLatest(cfg, trace, e.key, item);
    }
    if e.key in l.local && cfg.hasLocal && e.readLocal <= l.local[e.key].expiry {
      assert LocalAnswers(cfg, trace, e, l.local[e.key]);
    } else if e.key in l.remote && cfg.hasRemote && e.readRemote <= l.remote[e.key].expiry {
      assert RemoteAnswers(cfg, trace, e, l.remote[e.key]);
    }
  }

  /** Without a local level every answer is the remote level's. */
  lemma {:induction false} RemoteAnswersAlone(cfg: Config, trace: seq<Event>, e: Event, item: Item)
    requires e.Get? && !cfg.hasLocal && cfg.hasRemote
    requires exists i: nat :: RemoteSource(cfg, trace, i, e.key, item)
    ensures Served(Run(cfg, trace), cfg, e) == if e.readRemote <= item.expiry then Some((item.value, e.readRemote)) else None
  {
    AnswerExplained(cfg, trace, e);
    RemoteHoldsLatest(cfg, trace, e.key, item);
    if e.readRemote <= item.expiry {
      assert RemoteAnswers(cfg, trace, e, item);
    } else {
      forall other
        ensures !RemoteAnswers(cfg, trace, e, other)
      {
        RemoteHoldsLatest(cfg, trace, e.key, other);
      }
    }
  }

  /** A Delete the remote level refused still empties the local one: the next Get is answered by the remote level, if at all. */
  lemma {:induction false} RefusedDelete(cfg: Config, trace: seq<Event>, e: Event)
    requires e.Get? && cfg.hasRemote
    ensures var after := Run(cfg, trace + [Delete(e.key, true, false)]); var before := Run(cfg, trace);
            && (cfg.hasLocal ==> e.key !in after.local)
            && forall item: Item :: Holds(before.remote, e.key, item) ==>
                 Served(after, cfg, e) == if e.readRemote <= item.expiry then Some((item.value, e.readRemote)) else None
  {
    var longer := trace + [Delete(e.key, true, false)];
    assert longer[..|longer| - 1] == trace;
  }

  /** A Delete only the local level refused leaves its item answering for as long as it is fresh. */
  lemma {:induction false} UnheededDelete(cfg: Config, trace: seq<Event>, e: Event)
    requires e.Get? && cfg.hasLocal
    ensures var after := Run(cfg, trace + [Delete(e.key, false, true)]); var before := Run(cfg, trace);
            && (cfg.hasRemote ==> e.key !in after.remote)
            && forall item: Item :: Holds(before.local, e.key, item) && e.readLocal <= item.expiry ==>
                 Served(after, cfg, e) == Some((item.value, e.readLocal))
  {
    var longer := trace + [Delete(e.key, false, true)];
    assert longer[..|longer| - 1] == trace;
  }
}
