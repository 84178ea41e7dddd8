/** What eviction keeps: the size bound, the order of eviction, and which keys survive. */
module CacheEviction {
  import opened Prelude
  import opened CacheSpec
  import opened CacheHistory

  function Bound(maxSize: int): nat {
    if maxSize < 1 then 1 else maxSize
  }

  /** Sets do not overlap: each takes its readings after all earlier ones, and no key is empty. */
  ghost predicate AtomicSets(trace: seq<Event>) {
    && (forall i :: 0 <= i < |trace| && trace[i].Set? ==> trace[i].key != "" && trace[i].item.updated <= trace[i].now)
    && (forall i, j :: 0 <= i < j < |trace| && trace[i].Set? && trace[j].Set? ==>
          trace[i].item.updated < trace[j].item.updated)
  }

  /** Every entry was put there by a Set of the run. */
  lemma {:induction false} EntriesComeFromSets(maxSize: int, trace: seq<Event>, key: string)
    requires key in Run(maxSize, trace).entries
    ensures exists i :: 0 <= i < |trace| && trace[i].Set? && trace[i].key == key
              && trace[i].item == Run(maxSize, trace).entries[key]
  {
    EntriesAgreeWithHistory(maxSize, trace);
    HistoryIsLatestSet(trace, key, Run(maxSize, trace).entries[key]);
    var i: nat :| LatestSet(trace, i, key, Run(maxSize, trace).entries[key]);
  }

  /** With atomic Sets, everything in the cache is older than the Set about to happen. */
  lemma {:induction false} EntriesAreOlder(maxSize: int, trace: seq<Event>, e: Event)
    requires AtomicSets(trace + [e]) && e.Set?
    ensures forall k :: k in Run(maxSize, trace).entries ==>
              k != "" && Run(maxSize, trace).entries[k].updated < e.item.updated
  {
    var whole := trace + [e];
    assert whole[|trace|] == e;
    forall k | k in Run(maxSize, trace).entries
      ensures k != "" && Run(maxSize, trace).entries[k].updated < e.item.updated
    {
      EntriesComeFromSets(maxSize, trace, k);
      var i :| 0 <= i < |trace| && trace[i].Set? && trace[i].key == k && trace[i].item == Run(maxSize, trace).entries[k];
      assert whole[i] == trace[i];
    }
  }

  lemma AtomicPrefix(trace: seq<Event>, n: nat)
    requires AtomicSets(trace) && n <= |trace|
    ensures AtomicSets(trace[..n])
  {
  }

  /** A full cache makes room for a new key exactly when the loop finds a non-empty oldest key. */
  lemma RoomIsMadeIffVictimNamed(entries: Entries, maxSize: int, key: string, item: Item, now: int, victim: string)
    requires NeedsRoom(entries, maxSize, key) && IsVictim(entries, now, victim)
    ensures |Put(entries, maxSize, key, item, victim)| == (if victim == "" then |entries| + 1 else |entries|)
  {
    if victim != "" {
      assert (entries - {victim}).Keys == entries.Keys - {victim};
      assert Put(entries, maxSize, key, item, victim).Keys == (entries.Keys - {victim}) + {key};
      assert |entries.Keys| == |entries|;
    } else {
      assert Put(entries, maxSize, key, item, victim).Keys == entries.Keys + {key};
    }
  }

  /** The eviction loop may come back empty-handed: the empty key is oldest, or no entry is older than the reading. */
  ghost predicate Unevictable(entries: Entries, now: int) {
    Oldest(entries, "", now) || forall k :: k in entries ==> now <= entries[k].updated
  }

  /** A full cache can fail to make room for a new key exactly when it is unevictable. */
  lemma GrowsIffUnevictable(entries: Entries, maxSize: int, key: string, item: Item, now: int)
    requires NeedsRoom(entries, maxSize, key)
    ensures (exists v :: IsVictim(entries, now, v) && |Put(entries, maxSize, key, item, v)| > |entries|) <==>
              Unevictable(entries, now)
  {
    if v :| IsVictim(entries, now, v) && |Put(entries, maxSize, key, item, v)| > |entries| {
      RoomIsMadeIffVictimNamed(entries, maxSize, key, item, now, v);
    }
    if Unevictable(entries, now) {
      RoomIsMadeIffVictimNamed(entries, maxSize, key, item, now, "");
    }
  }

  lemma PutSize(entries: Entries, maxSize: int, key: string, item: Item, now: int, victim: string)
    requires |entries| <= Bound(maxSize)
    requires NeedsRoom(entries, maxSize, key) ==> IsVictim(entries, now, victim)
    requires NeedsRoom(entries, maxSize, key) && victim == "" ==> entries == map[]
    ensures |Put(entries, maxSize, key, item, victim)| <= Bound(maxSize)
  {
    if NeedsRoom(entries, maxSize, key) {
      RoomIsMadeIffVictimNamed(entries, maxSize, key, item, now, victim);
    } else {
      assert Put(entries, maxSize, key, item, victim) == entries[key := item];
      assert entries[key := item].Keys == entries.Keys + {key};
      if key in entries {
        assert entries.Keys + {key} == entries.Keys;
      }
    }
  }

  lemma SmallerMap(small: Entries, large: Entries)
    requires small.Keys <= large.Keys
    ensures |small| <= |large|
  {
    SubsetSize(small.Keys, large.Keys);
  }

  /** Whatever else happens, the cache never outgrows its bound. */
  lemma {:induction false} SizeStaysBounded(maxSize: int, trace: seq<Event>)
    requires Legal(maxSize, trace) && AtomicSets(trace)
    ensures |Run(maxSize, trace).entries| <= Bound(maxSize)
  {
    if trace != [] {
      var init, e := trace[..|trace| - 1], trace[|trace| - 1];
      var c := Run(maxSize, init);
      assert trace == init + [e];
      SizeStaysBounded(maxSize, init);
      if e.Set? {
        EntriesAreOlder(maxSize, init, e);
        assert NeedsRoom(c.entries, maxSize, e.key) && e.victim == "" ==> c.entries == map[] by {
          assert trace[|init|] == e;
          VictimNamed(c.entries, e.now, e.victim, e.item.updated, NeedsRoom(c.entries, maxSize, e.key));
        }
        PutSize(c.entries, maxSize, e.key, e.item, e.now, e.victim);
      } else {
        SmallerMap(Advance(c, maxSize, e).entries, c.entries);
      }
    }
  }

  // ---------------------------------------------------------------- when the bound holds

  /** The cache is at its bound, and this Set may leave it one entry over. */
  ghost predicate Blocked(entries: Entries, maxSize: int, key: string, now: int) {
    |entries| >= Bound(maxSize) && key !in entries && Unevictable(entries, now)
  }

  /** The same step, up to the choice of the eviction loop. */
  ghost predicate SameCall(e: Event, call: Event) {
    e == call || (e.Set? && call.Set? && e == call.(victim := e.victim))
  }

  /** A legal run of the first of these calls. */
  ghost predicate RunsThrough(maxSize: int, trace: seq<Event>, calls: seq<Event>) {
    && Legal(maxSize, trace) && |trace| <= |calls|
    && forall i :: 0 <= i < |trace| ==> SameCall(trace[i], calls[i])
  }

  ghost predicate StaysBounded(maxSize: int, trace: seq<Event>, calls: seq<Event>) {
    RunsThrough(maxSize, trace, calls) ==> |Run(maxSize, trace).entries| <= Bound(maxSize)
  }

  /** The run is not about to meet a blocked Set. */
  ghost predicate NextNotBlocked(maxSize: int, trace: seq<Event>, calls: seq<Event>) {
    RunsThrough(maxSize, trace, calls) && |trace| < |calls| && calls[|trace|].Set? ==>
      !Blocked(Run(maxSize, trace).entries, maxSize, calls[|trace|].key, calls[|trace|].now)
  }

  /** One call keeps the bound unless it is a blocked Set. */
  lemma StepBounded(c: Cache, maxSize: int, e: Event)
    requires |c.entries| <= Bound(maxSize) && Enabled(c, maxSize, e)
    requires e.Set? ==> !Blocked(c.entries, maxSize, e.key, e.now)
    ensures |Advance(c, maxSize, e).entries| <= Bound(maxSize)
  {
    if e.Set? {
      if c.entries == map[] || !NeedsRoom(c.entries, maxSize, e.key) || |c.entries| >= Bound(maxSize) {
        PutSize(c.entries, maxSize, e.key, e.item, e.now, e.victim);
      }
    } else {
      SmallerMap(Advance(c, maxSize, e).entries, c.entries);
    }
  }

  lemma {:induction false} BoundedUnlessBlocked(maxSize: int, trace: seq<Event>, calls: seq<Event>)
    requires RunsThrough(maxSize, trace, calls)
    requires forall t: seq<Event> :: NextNotBlocked(maxSize, t, calls)
    ensures |Run(maxSize, trace).entries| <= Bound(maxSize)
  {
    if trace != [] {
      var n := |trace| - 1;
      BoundedUnlessBlocked(maxSize, trace[..n], calls);
      assert SameCall(trace[n], calls[n]);
      assert NextNotBlocked(maxSize, trace[..n], calls);
      StepBounded(Run(maxSize, trace[..n]), maxSize, trace[n]);
    }
  }

  /** A blocked Set can be run with nothing evicted, and then the cache outgrows its bound. */
  lemma {:induction false} BlockedOutgrows(maxSize: int, trace: seq<Event>, calls: seq<Event>) returns (longer: seq<Event>)
    requires RunsThrough(maxSize, trace, calls) && |trace| < |calls| && calls[|trace|].Set?
    requires Blocked(Run(maxSize, trace).entries, maxSize, calls[|trace|].key, calls[|trace|].now)
    ensures !StaysBounded(maxSize, longer, calls)
  {
    var e := calls[|trace|].(victim := "");
    longer := trace + [e];
    assert longer[..|longer| - 1] == trace;
    var entries := Run(maxSize, trace).entries;
    assert IsVictim(entries, e.now, "");
    assert Legal(maxSize, longer);
    assert Put(entries, maxSize, e.key, e.item, "").Keys == entries.Keys + {e.key};
    assert |Run(maxSize, longer).entries| == |entries| + 1;
    forall i | 0 <= i < |longer|
      ensures SameCall(longer[i], calls[i])
    {
    }
  }

  /**
   Exactly when the size bound holds. For any sequence of calls: every run of them, whatever the
   eviction loop picks among ties, stays within the bound if and only if no run of them comes to a
   Set of a new key on a full cache whose oldest entry has the empty key or has no entry older than
   the Set's reading.
   */
  lemma {:induction false} BoundedIffNeverBlocked(maxSize: int, calls: seq<Event>)
    ensures (forall trace: seq<Event> :: StaysBounded(maxSize, trace, calls)) <==>
            (forall trace: seq<Event> :: NextNotBlocked(maxSize, trace, calls))
  {
    if forall trace: seq<Event> :: NextNotBlocked(maxSize, trace, calls) {
      forall trace: seq<Event>
        ensures StaysBounded(maxSize, trace, calls)
      {
        if RunsThrough(maxSize, trace, calls) {
          BoundedUnlessBlocked(maxSize, trace, calls);
        }
      }
    } else {
      var trace: seq<Event> :| !NextNotBlocked(maxSize, trace, calls);
      var longer := BlockedOutgrows(maxSize, trace, calls);
    }
  }

  lemma VictimNamed(entries: Entries, now: int, victim: string, updated: int, needed: bool)
    requires needed ==> IsVictim(entries, now, victim)
    requires updated <= now
    requires forall k :: k in entries ==> k != "" && entries[k].updated < updated
    ensures needed ==> (victim == "" <==> entries == map[])
  {
    if needed && victim == "" {
      assert entries.Keys == {};
    }
  }

  /** The key is gone, and everything that is there now was updated after it. */
  ghost predicate EvictedAsOldest(before: Entries, after: Entries, victim: string) {
    && victim in before && victim !in after
    && forall k :: k in after ==> before[victim].updated < after[k].updated
  }

  /** An evicted key was last updated before every key that stays, and before the new one. */
  lemma {:induction false} EvictsTheOldest(maxSize: int, trace: seq<Event>)
    requires trace != [] && Legal(maxSize, trace) && AtomicSets(trace)
    requires var e := trace[|trace| - 1];
             e.Set? && Evicts(Run(maxSize, trace[..|trace| - 1]).entries, maxSize, e.key, e.victim)
    ensures EvictedAsOldest(Run(maxSize, trace[..|trace| - 1]).entries, Run(maxSize, trace).entries, trace[|trace| - 1].victim)
  {
    var init, e := trace[..|trace| - 1], trace[|trace| - 1];
    var before, after := Run(maxSize, init).entries, Run(maxSize, trace).entries;
    assert trace == init + [e];
    EntriesAreOlder(maxSize, init, e);
    AtomicPrefix(trace, |trace| - 1);
    assert after == Put(before, maxSize, e.key, e.item, e.victim);
    forall k | k in after
      ensures before[e.victim].updated < after[k].updated
    {
      if k != e.key {
        DistinctUpdates(maxSize, init, k, e.victim);
      }
    }
  }

  /** No two entries were updated at the same time. */
  lemma {:induction false} DistinctUpdates(maxSize: int, trace: seq<Event>, k1: string, k2: string)
    requires AtomicSets(trace) && k1 != k2
    ensures var entries := Run(maxSize, trace).entries;
            k1 in entries && k2 in entries ==> entries[k1].updated != entries[k2].updated
  {
    var entries := Run(maxSize, trace).entries;
    if k1 in entries && k2 in entries {
      EntriesComeFromSets(maxSize, trace, k1);
      var i :| 0 <= i < |trace| && trace[i].Set? && trace[i].key == k1 && trace[i].item == entries[k1];
      EntriesComeFromSets(maxSize, trace, k2);
      var j :| 0 <= j < |trace| && trace[j].Set? && trace[j].key == k2 && trace[j].item == entries[k2];
      assert i != j;
    }
  }

  /** An entry under the empty key, once oldest, is taken for "nothing found" and the cache outgrows its bound. */
  lemma EmptyKeyDefeatsEviction(item: Item, later: Item)
    requires item.updated < later.updated
    ensures var trace := [Set("", item, item.updated, ""), Set("a", later, later.updated, "")];
            && Legal(1, trace)
            && |Run(1, trace).entries| == 2 > Bound(1)
  {
    var first := [Set("", item, item.updated, "")];
    var trace := [Set("", item, item.updated, ""), Set("a", later, later.updated, "")];
    assert first[..0] == [] && trace[..1] == first;
    assert Legal(1, []) && Run(1, []) == START;
    assert Run(1, first).entries == map["" := item];
    assert Oldest(Run(1, first).entries, "", later.updated);
    assert Legal(1, first);
    assert Run(1, trace).entries == map["" := item, "a" := later];
  }

  /** Two Sets within one clock reading: no entry is older than the second, and nothing is evicted. */
  lemma TieDefeatsEviction(item: Item)
    ensures var trace := [Set("a", item, item.updated, ""), Set("b", item, item.updated, "")];
            && Legal(1, trace)
            && |Run(1, trace).entries| == 2 > Bound(1)
  {
    var first := [Set("a", item, item.updated, "")];
    var trace := [Set("a", item, item.updated, ""), Set("b", item, item.updated, "")];
    assert first[..0] == [] && trace[..1] == first;
    assert Legal(1, []) && Run(1, []) == START;
    assert Run(1, first).entries == map["a" := item];
    assert Legal(1, first);
    assert Run(1, trace).entries == map["a" := item, "b" := item];
  }

  // ---------------------------------------------------------------- the survivors

  /** Nothing but Sets and Gets. */
  ghost predicate OnlySetsAndGets(trace: seq<Event>) {
    forall i :: 0 <= i < |trace| ==> trace[i].Set? || trace[i].Get?
  }

  /** The position of the key's latest Set, or -1. */
  function LastSet(trace: seq<Event>, key: string): int {
    if trace == [] then -1
    else
      var n := |trace| - 1;
      if trace[n].Set? && trace[n].key == key then n else LastSet(trace[..n], key)
  }

  function SetKeys(trace: seq<Event>): set<string> {
    set i | 0 <= i < |trace| && trace[i].Set? :: trace[i].key
  }

  /** The other keys set since the key's own latest Set. */
  function NewerKeys(trace: seq<Event>, key: string): set<string> {
    set k | k in SetKeys(trace) && LastSet(trace, k) > LastSet(trace, key)
  }

  function Without(keys: seq<string>, key: string): seq<string> {
    if keys == [] then []
    else if keys[0] == key then Without(keys[1..], key)
    else [keys[0]] + Without(keys[1..], key)
  }

  /** The keys set so far, most recently set first. */
  function Recency(trace: seq<Event>): seq<string> {
    if trace == [] then []
    else
      var before := Recency(trace[..|trace| - 1]);
      var e := trace[|trace| - 1];
      if e.Set? then [e.key] + Without(before, e.key) else before
  }

  ghost predicate Unique(keys: seq<string>) {
    forall i, j :: 0 <= i < j < |keys| ==> keys[i] != keys[j]
  }

  function Elements(keys: seq<string>): set<string> {
    set i | 0 <= i < |keys| :: keys[i]
  }

  function Take(keys: seq<string>, n: nat): seq<string> {
    if |keys| <= n then keys else keys[..n]
  }

  lemma {:induction false} WithoutAbsent(keys: seq<string>, key: string)
    requires key !in keys
    ensures Without(keys, key) == keys
  {
    if keys != [] {
      WithoutAbsent(keys[1..], key);
    }
  }

  lemma {:induction false} WithoutPresent(keys: seq<string>, p: nat)
    requires Unique(keys) && p < |keys|
    ensures Without(keys, keys[p]) == keys[..p] + keys[p + 1..]
  {
    if p == 0 {
      WithoutAbsent(keys[1..], keys[0]);
    } else {
      WithoutPresent(keys[1..], p - 1);
      assert Without(keys, keys[p]) == [keys[0]] + Without(keys[1..], keys[p]);
      assert keys[1..][..p - 1] == keys[1..p] && keys[1..][p..] == keys[p + 1..];
      assert [keys[0]] + keys[1..p] == keys[..p];
    }
  }

  /** Moving a key to the front keeps the list free of repetitions and adds at most that key. */
  lemma {:induction false} MoveToFront(keys: seq<string>, key: string)
    requires Unique(keys)
    ensures var moved := [key] + Without(keys, key);
            Unique(moved) && Elements(moved) == Elements(keys) + {key}
  {
    var moved := [key] + Without(keys, key);
    if p :| 0 <= p < |keys| && keys[p] == key {
      WithoutPresent(keys, p);
      forall k
        ensures k in Elements(moved) <==> k in Elements(keys)
      {
        if i :| 0 <= i < |keys| && keys[i] == k {
          assert moved[if i == p then 0 else if i < p then i + 1 else i] == k;
        }
      }
    } else {
      WithoutAbsent(keys, key);
      forall k
        ensures k in Elements(moved) <==> k in Elements(keys) + {key}
      {
        if k in Elements(keys) {
          var i :| 0 <= i < |keys| && keys[i] == k;
          assert moved[i + 1] == k;
        } else if k == key {
          assert moved[0] == k;
        }
      }
    }
  }

  lemma {:induction false} RecencyUnique(trace: seq<Event>)
    ensures Unique(Recency(trace))
  {
    if trace != [] {
      RecencyUnique(trace[..|trace| - 1]);
      var e := trace[|trace| - 1];
      if e.Set? {
        MoveToFront(Recency(trace[..|trace| - 1]), e.key);
      }
    }
  }

  /** The front of the list after a move: the new key, and the old front without it or without its last key. */
  lemma {:induction false} FrontAfterMove(keys: seq<string>, key: string, n: nat)
    requires Unique(keys) && n > 0
    ensures var front, front' := Take(keys, n), Take([key] + Without(keys, key), n);
            Elements(front') ==
              if key in Elements(front) || |keys| < n then Elements(front) + {key}
              else (Elements(front) - {keys[n - 1]}) + {key}
  {
    var front, moved := Take(keys, n), [key] + Without(keys, key);
    if p :| 0 <= p < |keys| && keys[p] == key {
      WithoutPresent(keys, p);
      if p < n {
        assert front[p] == key;
        MoveToFront(front, key);
        WithoutPresent(front, p);
        assert Take(moved, n) == [key] + Without(front, key);
      } else {
        assert Take(moved, n) == [key] + keys[..n - 1];
        FrontDropsLast(keys, n, key);
      }
    } else {
      WithoutAbsent(keys, key);
      if |keys| < n {
        MoveToFront(keys, key);
      } else {
        assert Take(moved, n) == [key] + keys[..n - 1];
        FrontDropsLast(keys, n, key);
      }
    }
  }

  lemma FrontDropsLast(keys: seq<string>, n: nat, key: string)
    requires Unique(keys) && 0 < n <= |keys| && key !in keys[..n]
    ensures key !in Elements(Take(keys, n))
    ensures Elements([key] + keys[..n - 1]) == (Elements(Take(keys, n)) - {keys[n - 1]}) + {key}
  {
    var moved := [key] + keys[..n - 1];
    forall k
      ensures k in Elements(moved) <==> k in (Elements(Take(keys, n)) - {keys[n - 1]}) + {key}
    {
      if i :| 0 <= i < n - 1 && keys[i] == k {
        assert moved[i + 1] == k && Take(keys, n)[i] == k;
      }
      if k == key {
        assert moved[0] == k;
      }
      if k in Elements(Take(keys, n)) && k != keys[n - 1] {
        var i :| 0 <= i < n && Take(keys, n)[i] == k;
        assert i < n - 1 && moved[i + 1] == k;
      }
    }
  }

  // ---------------------------------------------------------------- recency is the order of latest Sets

  lemma {:induction false} LastSetInRange(trace: seq<Event>, key: string)
    ensures -1 <= LastSet(trace, key) < |trace|
    ensures LastSet(trace, key) >= 0 ==>
              trace[LastSet(trace, key)].Set? && trace[LastSet(trace, key)].key == key
    ensures LastSet(trace, key) >= 0 <==> key in SetKeys(trace)
    ensures forall i :: LastSet(trace, key) < i < |trace| && trace[i].Set? ==> trace[i].key != key
  {
    if trace != [] {
      var n := |trace| - 1;
      LastSetInRange(trace[..n], key);
      forall i | LastSet(trace, key) < i < |trace| && trace[i].Set?
        ensures trace[i].key != key
      {
        if i < n {
          assert trace[..n][i] == trace[i];
        }
      }
      if key in SetKeys(trace) && LastSet(trace, key) != n {
        var i :| 0 <= i < |trace| && trace[i].Set? && trace[i].key == key;
        assert trace[..n][i] == trace[i];
      }
    }
  }

  predicate SetLater(trace: seq<Event>, k1: string, k2: string) {
    LastSet(trace, k1) > LastSet(trace, k2)
  }

  ghost predicate LatestFirst(trace: seq<Event>, keys: seq<string>) {
    forall i, j :: 0 <= i < j < |keys| ==> SetLater(trace, keys[i], keys[j])
  }

  /** The list holds exactly the keys set, ordered by their latest Sets. */
  ghost predicate InOrder(trace: seq<Event>, keys: seq<string>) {
    && (forall k :: k in keys <==> k in SetKeys(trace))
    && LatestFirst(trace, keys)
  }

  lemma {:induction false} RecencyInOrder(trace: seq<Event>)
    ensures InOrder(trace, Recency(trace))
  {
    if trace != [] {
      var n := |trace| - 1;
      var init, e := trace[..n], trace[n];
      RecencyInOrder(init);
      assert init + [e] == trace;
      if e.Set? {
        OrderAfterSet(init, e, Recency(init));
      } else {
        SetKeysSnoc(init, e);
        assert forall k1, k2 :: SetLater(trace, k1, k2) == SetLater(init, k1, k2);
      }
    }
  }

  lemma LastSetSnoc(trace: seq<Event>, e: Event, key: string)
    requires e.Set?
    ensures LastSet(trace + [e], key) == if e.key == key then |trace| else LastSet(trace, key)
  {
    assert (trace + [e])[..|trace|] == trace;
  }

  lemma {:induction false} WithoutContents(keys: seq<string>, key: string)
    ensures forall k :: k in Without(keys, key) <==> k in keys && k != key
  {
    if keys != [] {
      WithoutContents(keys[1..], key);
      assert keys == [keys[0]] + keys[1..];
    }
  }

  lemma {:induction false} WithoutOrder(trace: seq<Event>, keys: seq<string>, key: string)
    requires LatestFirst(trace, keys)
    ensures LatestFirst(trace, Without(keys, key))
  {
    if keys != [] {
      WithoutOrder(trace, keys[1..], key);
      WithoutContents(keys[1..], key);
      if keys[0] != key {
        Prepend(trace, keys[0], Without(keys[1..], key));
      }
    }
  }

  lemma Prepend(trace: seq<Event>, first: string, rest: seq<string>)
    requires LatestFirst(trace, rest)
    requires forall k :: k in rest ==> SetLater(trace, first, k)
    ensures LatestFirst(trace, [first] + rest)
  {
    var whole := [first] + rest;
    forall i, j | 0 <= i < j < |whole|
      ensures SetLater(trace, whole[i], whole[j])
    {
      assert whole[j] == rest[j - 1];
      if i > 0 {
        assert whole[i] == rest[i - 1];
      }
    }
  }

  lemma {:induction false} OrderAfterSet(trace: seq<Event>, e: Event, keys: seq<string>)
    requires e.Set? && InOrder(trace, keys)
    ensures InOrder(trace + [e], [e.key] + Without(keys, e.key))
  {
    var trace', rest := trace + [e], Without(keys, e.key);
    WithoutContents(keys, e.key);
    WithoutOrder(trace, keys, e.key);
    SetKeysSnoc(trace, e);
    forall i, j | 0 <= i < j < |rest|
      ensures SetLater(trace', rest[i], rest[j])
    {
      assert rest[i] in rest && rest[j] in rest;
      LastSetSnoc(trace, e, rest[i]);
      LastSetSnoc(trace, e, rest[j]);
      assert SetLater(trace, rest[i], rest[j]);
    }
    forall k | k in rest
      ensures SetLater(trace', e.key, k)
    {
      LastSetSnoc(trace, e, k);
      LastSetSnoc(trace, e, e.key);
      LastSetInRange(trace, k);
    }
    Prepend(trace', e.key, rest);
  }

  lemma SetKeysSnoc(trace: seq<Event>, e: Event)
    ensures SetKeys(trace + [e]) == if e.Set? then SetKeys(trace) + {e.key} else SetKeys(trace)
  {
    var trace' := trace + [e];
    forall k
      ensures k in SetKeys(trace') <==> k in SetKeys(trace) || (e.Set? && k == e.key)
    {
      if k in SetKeys(trace) {
        var i :| 0 <= i < |trace| && trace[i].Set? && trace[i].key == k;
        assert trace'[i] == trace[i];
      }
      if e.Set? && k == e.key {
        assert trace'[|trace|] == e;
      }
    }
  }

  /** An entry carries the update time of its key's latest Set. */
  lemma {:induction false} UpdatedByLastSet(maxSize: int, trace: seq<Event>, key: string)
    requires key in Run(maxSize, trace).entries
    ensures var i := LastSet(trace, key);
            0 <= i < |trace| && trace[i].Set? && Run(maxSize, trace).entries[key] == trace[i].item
  {
    EntriesAgreeWithHistory(maxSize, trace);
    HistoryIsLatestSet(trace, key, Run(maxSize, trace).entries[key]);
    var i: nat :| LatestSet(trace, i, key, Run(maxSize, trace).entries[key]);
    LastSetInRange(trace, key);
    assert Touches(trace[LastSet(trace, key)], key);
  }

  /** A full cache whose keys are the front of the list evicts the last of that front. */
  lemma {:induction false} VictimEndsFront(maxSize: int, trace: seq<Event>, victim: string, now: int)
    requires AtomicSets(trace)
    requires Oldest(Run(maxSize, trace).entries, victim, now)
    requires var n := Bound(maxSize);
             n <= |Recency(trace)| && Run(maxSize, trace).entries.Keys == Elements(Recency(trace)[..n])
    ensures victim == Recency(trace)[Bound(maxSize) - 1]
  {
    var n, keys := Bound(maxSize), Recency(trace);
    var entries := Run(maxSize, trace).entries;
    RecencyInOrder(trace);
    var last := keys[n - 1];
    assert keys[..n][n - 1] == last;
    assert last in entries.Keys;
    var p :| 0 <= p < n && keys[..n][p] == victim;
    UpdatedByLastSet(maxSize, trace, last);
    UpdatedByLastSet(maxSize, trace, victim);
    LastSetInRange(trace, last);
    LastSetInRange(trace, victim);
    assert p < n - 1 ==> SetLater(trace, keys[p], keys[n - 1]);
    assert entries[victim].updated <= entries[last].updated;
  }

  lemma {:induction false} FrontSize(keys: seq<string>)
    requires Unique(keys)
    ensures |Elements(keys)| == |keys|
  {
    if keys == [] {
      assert Elements(keys) == {};
    } else {
      var n := |keys| - 1;
      FrontSize(keys[..n]);
      assert Elements(keys) == Elements(keys[..n]) + {keys[n]};
    }
  }

  /** Without deletes or expiry, the cached keys are the front of the list of keys by recency. */
  lemma {:induction false} SurvivorsAreFront(maxSize: int, trace: seq<Event>)
    requires Legal(maxSize, trace) && AtomicSets(trace) && OnlySetsAndGets(trace)
    ensures Run(maxSize, trace).entries.Keys == Elements(Take(Recency(trace), Bound(maxSize)))
  {
    if trace != [] {
      var init, e := trace[..|trace| - 1], trace[|trace| - 1];
      assert trace == init + [e];
      SurvivorsAreFront(maxSize, init);
      if e.Set? {
        SetKeepsFront(maxSize, init, e);
      }
    }
  }

  lemma PutKeys(entries: Entries, maxSize: int, key: string, item: Item, victim: string)
    ensures Put(entries, maxSize, key, item, victim).Keys ==
            if Evicts(entries, maxSize, key, victim) then (entries.Keys - {victim}) + {key} else entries.Keys + {key}
    ensures |entries| == |entries.Keys|
  {
  }

  /** Putting a key into a cache that holds the front of the list leaves it holding the new front. */
  lemma {:induction false} PutOnFront(entries: Entries, maxSize: int, keys: seq<string>, key: string, item: Item, victim: string)
    requires Unique(keys) && entries.Keys == Elements(Take(keys, Bound(maxSize)))
    requires NeedsRoom(entries, maxSize, key) ==> (victim == "" <==> entries == map[])
    requires Evicts(entries, maxSize, key, victim) && Bound(maxSize) <= |keys| ==> victim == keys[Bound(maxSize) - 1]
    ensures Put(entries, maxSize, key, item, victim).Keys == Elements(Take([key] + Without(keys, key), Bound(maxSize)))
  {
    var n := Bound(maxSize);
    FrontSize(Take(keys, n));
    PutKeys(entries, maxSize, key, item, victim);
    FrontAfterMove(keys, key, n);
  }

  lemma {:induction false} NextVictimNamed(maxSize: int, init: seq<Event>, e: Event)
    requires Enabled(Run(maxSize, init), maxSize, e) && AtomicSets(init + [e]) && e.Set?
    ensures var entries := Run(maxSize, init).entries;
            NeedsRoom(entries, maxSize, e.key) ==> (e.victim == "" <==> entries == map[])
  {
    var entries := Run(maxSize, init).entries;
    assert (init + [e])[|init|] == e;
    EntriesAreOlder(maxSize, init, e);
    VictimNamed(entries, e.now, e.victim, e.item.updated, NeedsRoom(entries, maxSize, e.key));
  }

  lemma {:induction false} NextVictimEndsFront(maxSize: int, init: seq<Event>, victim: string, now: int)
    requires AtomicSets(init) && victim != "" && IsVictim(Run(maxSize, init).entries, now, victim)
    requires Run(maxSize, init).entries.Keys == Elements(Take(Recency(init), Bound(maxSize)))
    requires Bound(maxSize) <= |Recency(init)|
    ensures victim == Recency(init)[Bound(maxSize) - 1]
  {
    assert Take(Recency(init), Bound(maxSize)) == Recency(init)[..Bound(maxSize)];
    VictimEndsFront(maxSize, init, victim, now);
  }

  lemma {:induction false} SetKeepsFront(maxSize: int, init: seq<Event>, e: Event)
    requires Enabled(Run(maxSize, init), maxSize, e) && AtomicSets(init + [e]) && e.Set?
    requires Run(maxSize, init).entries.Keys == Elements(Take(Recency(init), Bound(maxSize)))
    ensures Advance(Run(maxSize, init), maxSize, e).entries.Keys
         == Elements(Take([e.key] + Without(Recency(init), e.key), Bound(maxSize)))
  {
    NextVictimNamed(maxSize, init, e);
    RecencyUnique(init);
    if Evicts(Run(maxSize, init).entries, maxSize, e.key, e.victim) && Bound(maxSize) <= |Recency(init)| {
      assert (init + [e])[..|init|] == init;
      AtomicPrefix(init + [e], |init|);
      NextVictimEndsFront(maxSize, init, e.victim, e.now);
    }
    PutOnFront(Run(maxSize, init).entries, maxSize, Recency(init), e.key, e.item, e.victim);
  }

  /**
   In a run of Sets and Gets a key is cached exactly when it was set and fewer distinct other keys
   than the bound have been set since its own latest Set.
   */
  lemma {:induction false} SurvivorsAreNewest(maxSize: int, trace: seq<Event>, key: string)
    requires Legal(maxSize, trace) && AtomicSets(trace) && OnlySetsAndGets(trace)
    ensures key in Run(maxSize, trace).entries <==>
              key in SetKeys(trace) && |NewerKeys(trace, key)| < Bound(maxSize)
  {
    SurvivorsAreFront(maxSize, trace);
    RecencyUnique(trace);
    RecencyInOrder(trace);
    LastSetInRange(trace, key);
    var keys := Recency(trace);
    if p :| 0 <= p < |keys| && keys[p] == key {
      NewerIsFront(trace, p);
      FrontSize(keys[..p]);
      if p < Bound(maxSize) {
        assert Take(keys, Bound(maxSize))[p] == key;
      }
    }
  }

  lemma {:induction false} NewerIsFront(trace: seq<Event>, p: nat)
    requires InOrder(trace, Recency(trace)) && p < |Recency(trace)|
    ensures NewerKeys(trace, Recency(trace)[p]) == Elements(Recency(trace)[..p])
  {
    var keys := Recency(trace);
    forall k
      ensures k in NewerKeys(trace, keys[p]) <==> k in Elements(keys[..p])
    {
      LastSetInRange(trace, k);
      if k in NewerKeys(trace, keys[p]) {
        var i :| 0 <= i < |keys| && keys[i] == k;
        assert i > p ==> SetLater(trace, keys[p], keys[i]);
        assert i < p;
        assert keys[..p][i] == k;
      }
    }
  }
}
