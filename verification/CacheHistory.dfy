/**
 Runs of the local cache: any interleaving of its locked sections, with asynchronous deletes
 landing late and Sets between the two phases of the janitor, against a plain history of Sets.
 */
module CacheHistory {
  import opened LimitResults
  import opened CacheSpec

  datatype Event =
    | Set(key: string, item: Item, now: int, victim: string)
    | Get(key: string, now: int)
    | Delete(key: string)
    | AsyncDelete(key: string)
    | Clear
    | Scan(now: int)
    | SweepKeys(scanned: int, keys: set<string>)

  /** The entries, the asynchronous deletes not yet landed, and the scans whose second phase is due. */
  datatype Cache = Cache(entries: Entries, pending: multiset<string>, scans: multiset<(int, set<string>)>)

  const START: Cache := Cache(map[], multiset{}, multiset{})

  function Advance(c: Cache, maxSize: int, e: Event): Cache {
    match e
    case Set(key, item, _, victim) => c.(entries := Put(c.entries, maxSize, key, item, victim))
    case Get(key, now) =>
      if key in c.entries && now > c.entries[key].expiry then c.(pending := c.pending + multiset{key}) else c
    case Delete(key) => c.(entries := c.entries - {key})
    case AsyncDelete(key) => c.(entries := c.entries - {key}, pending := c.pending - multiset{key})
    case Clear => c.(entries := map[])
    case Scan(now) => c.(scans := c.scans + multiset{(now, Expired(c.entries, now))})
    case SweepKeys(scanned, keys) =>
      c.(entries := Sweep(c.entries, scanned, keys), scans := c.scans - multiset{(scanned, keys)})
  }

  function Run(maxSize: int, trace: seq<Event>): Cache {
    if trace == [] then START
    else Advance(Run(maxSize, trace[..|trace| - 1]), maxSize, trace[|trace| - 1])
  }

  /** Victims come from the eviction loop, and deletes and sweeps were started earlier. */
  ghost predicate Enabled(c: Cache, maxSize: int, e: Event) {
    match e
    case Set(key, _, now, victim) => NeedsRoom(c.entries, maxSize, key) ==> IsVictim(c.entries, now, victim)
    case AsyncDelete(key) => key in c.pending
    case SweepKeys(scanned, keys) => (scanned, keys) in c.scans
    case _ => true
  }

  ghost predicate Legal(maxSize: int, trace: seq<Event>) {
    trace == [] ||
    var init := trace[..|trace| - 1];
    Legal(maxSize, init) && Enabled(Run(maxSize, init), maxSize, trace[|trace| - 1])
  }

  /** Every clock reading in the run is at most `now`. */
  ghost predicate ClockAtMost(trace: seq<Event>, now: int) {
    forall i :: 0 <= i < |trace| && (trace[i].Set? || trace[i].Get? || trace[i].Scan?) ==> trace[i].now <= now
  }

  // ---------------------------------------------------------------- the plain history

  /** What a map that only ever forgets on Delete and Clear would hold. */
  function History(trace: seq<Event>): Entries {
    if trace == [] then map[]
    else
      var before := History(trace[..|trace| - 1]);
      match trace[|trace| - 1]
      case Set(key, item, _, _) => before[key := item]
      case Delete(key) => before - {key}
      case Clear => map[]
      case _ => before
  }

  /** The event decides what the history holds for the key. */
  predicate Touches(e: Event, key: string) {
    e.Clear? || ((e.Set? || e.Delete?) && e.key == key)
  }

  /** Step i set the key to this item and no later step set, deleted or cleared it. */
  ghost predicate LatestSet(trace: seq<Event>, i: nat, key: string, item: Item) {
    && i < |trace| && trace[i].Set? && trace[i].key == key && trace[i].item == item
    && forall j :: i < j < |trace| ==> !Touches(trace[j], key)
  }

  lemma {:induction false} HistoryIsLatestSet(trace: seq<Event>, key: string, item: Item)
    ensures key in History(trace) && History(trace)[key] == item <==> exists i: nat :: LatestSet(trace, i, key, item)
  {
    if trace != [] {
      var n := |trace| - 1;
      var init, e := trace[..n], trace[n];
      HistoryIsLatestSet(init, key, item);
      forall i: nat | i < n
        ensures LatestSet(trace, i, key, item) <==> LatestSet(init, i, key, item) && !Touches(e, key)
      {
        if LatestSet(trace, i, key, item) {
          assert !Touches(trace[n], key);
          assert forall j :: i < j < n ==> !Touches(trace[j], key) && init[j] == trace[j];
        }
      }
      if e.Set? && e.key == key && e.item == item {
        assert LatestSet(trace, n, key, item);
      }
      if key in History(trace) && History(trace)[key] == item && !Touches(e, key) {
        var i: nat :| LatestSet(init, i, key, item);
        assert LatestSet(trace, i, key, item);
      }
    }
  }

  // ---------------------------------------------------------------- soundness

  ghost predicate Agrees(entries: Entries, history: Entries) {
    forall k :: k in entries ==> k in history && entries[k] == history[k]
  }

  /** Whatever is evicted, deleted late or swept, every entry is the history's entry. */
  lemma {:induction false} EntriesAgreeWithHistory(maxSize: int, trace: seq<Event>)
    ensures Agrees(Run(maxSize, trace).entries, History(trace))
  {
    if trace != [] {
      EntriesAgreeWithHistory(maxSize, trace[..|trace| - 1]);
    }
  }

  /** A hit returns the value of the latest Set on its key, unexpired, with no Delete or Clear since. */
  lemma {:induction false} HitIsLatestSet(maxSize: int, trace: seq<Event>, key: string, now: int)
    requires Hit(Run(maxSize, trace).entries, key, now)
    ensures exists i: nat :: LatestSet(trace, i, key, Run(maxSize, trace).entries[key])
    ensures now <= Run(maxSize, trace).entries[key].expiry
  {
    EntriesAgreeWithHistory(maxSize, trace);
    HistoryIsLatestSet(trace, key, Run(maxSize, trace).entries[key]);
  }

  // ---------------------------------------------------------------- misses

  /** The keys the event evicts or deletes asynchronously. */
  function StepDrops(entries: Entries, maxSize: int, e: Event): set<string> {
    match e
    case AsyncDelete(key) => {key}
    case Set(key, _, _, victim) => if Evicts(entries, maxSize, key, victim) then {victim} else {}
    case _ => {}
  }

  /** What each step of the run dropped. */
  function DropLog(maxSize: int, trace: seq<Event>): (r: seq<set<string>>)
    ensures |r| == |trace|
  {
    if trace == [] then []
    else
      var init := trace[..|trace| - 1];
      DropLog(maxSize, init) + [StepDrops(Run(maxSize, init).entries, maxSize, trace[|trace| - 1])]
  }

  /** A step that leaves the history's entry alone keeps an unexpired entry unless it drops it. */
  lemma StepKeepsUnlessDropped(c: Cache, maxSize: int, e: Event, key: string, now: int)
    requires !Touches(e, key) && Enabled(c, maxSize, e)
    requires key in c.entries ==> now <= c.entries[key].expiry
    requires forall scan :: scan in c.scans ==> scan.0 <= now
    ensures key in Advance(c, maxSize, e).entries <==> key in c.entries && key !in StepDrops(c.entries, maxSize, e)
  {
  }

  lemma SetKeepsItsKey(c: Cache, maxSize: int, e: Event, key: string)
    requires e.Set? && e.key == key && Enabled(c, maxSize, e)
    ensures key in Advance(c, maxSize, e).entries && key !in StepDrops(c.entries, maxSize, e)
  {
  }

  ghost predicate DroppedAt(trace: seq<Event>, drops: seq<set<string>>, j: nat, key: string)
    requires |drops| == |trace|
  {
    && j < |trace| && key in drops[j]
    && forall i :: j < i < |trace| ==> !Touches(trace[i], key)
  }

  /** Some step dropped the key, and no later one set, deleted or cleared it. */
  ghost predicate DroppedSince(trace: seq<Event>, drops: seq<set<string>>, key: string)
    requires |drops| == |trace|
  {
    exists j: nat :: DroppedAt(trace, drops, j, key)
  }

  lemma {:induction false} DroppedSnoc(trace: seq<Event>, drops: seq<set<string>>, e: Event, last: set<string>, key: string)
    requires |drops| == |trace|
    ensures DroppedSince(trace + [e], drops + [last], key) <==>
              key in last || (DroppedSince(trace, drops, key) && !Touches(e, key))
  {
    var trace', drops' := trace + [e], drops + [last];
    if key in last {
      assert DroppedAt(trace', drops', |trace|, key);
    } else if DroppedSince(trace, drops, key) && !Touches(e, key) {
      var j: nat :| DroppedAt(trace, drops, j, key);
      assert DroppedAt(trace', drops', j, key);
    }
    if j: nat :| DroppedAt(trace', drops', j, key) && j < |trace| {
      assert trace'[|trace|] == e;
      assert forall i :: j < i < |trace| ==> trace[i] == trace'[i];
      assert DroppedAt(trace, drops, j, key);
    }
  }

  /** A scan's time was read from the clock, so a due sweep can only remove what has expired. */
  lemma {:induction false} ScansInThePast(maxSize: int, trace: seq<Event>, now: int)
    requires ClockAtMost(trace, now)
    ensures forall scan :: scan in Run(maxSize, trace).scans ==> scan.0 <= now
  {
    if trace != [] {
      var init, e := trace[..|trace| - 1], trace[|trace| - 1];
      ScansInThePast(maxSize, init, now);
      ScanStep(Run(maxSize, init), maxSize, e, now);
    }
  }

  lemma ScanStep(c: Cache, maxSize: int, e: Event, now: int)
    requires forall scan :: scan in c.scans ==> scan.0 <= now
    requires e.Scan? ==> e.now <= now
    ensures forall scan :: scan in Advance(c, maxSize, e).scans ==> scan.0 <= now
  {
  }

  /**
   An entry the history would still serve is in the cache exactly when it was neither evicted nor
   deleted asynchronously since its Set: the janitor never takes an entry that could still be a hit.
   */
  lemma {:induction false} MissesExplained(maxSize: int, trace: seq<Event>, key: string, now: int)
    requires Legal(maxSize, trace) && ClockAtMost(trace, now)
    requires Hit(History(trace), key, now)
    ensures Hit(Run(maxSize, trace).entries, key, now) <==> !DroppedSince(trace, DropLog(maxSize, trace), key)
  {
    EntriesAgreeWithHistory(maxSize, trace);
    PresentUnlessDropped(maxSize, trace, key, now);
  }

  lemma {:induction false} PresentUnlessDropped(maxSize: int, trace: seq<Event>, key: string, now: int)
    requires Legal(maxSize, trace) && ClockAtMost(trace, now)
    requires Hit(History(trace), key, now)
    ensures key in Run(maxSize, trace).entries <==> !DroppedSince(trace, DropLog(maxSize, trace), key)
  {
    var n := |trace| - 1;
    var init, e := trace[..n], trace[n];
    assert trace == init + [e];
    DroppedSnoc(init, DropLog(maxSize, init), e, StepDrops(Run(maxSize, init).entries, maxSize, e), key);
    ScansInThePast(maxSize, init, now);
    EntriesAgreeWithHistory(maxSize, init);
    var c := Run(maxSize, init);
    if Touches(e, key) {
      SetKeepsItsKey(c, maxSize, e, key);
    } else {
      PresentUnlessDropped(maxSize, init, key, now);
      StepKeepsUnlessDropped(c, maxSize, e, key, now);
    }
  }

  // ---------------------------------------------------------------- the janitor

  /** Between steps m and n nothing set the key. */
  ghost predicate NotSetBetween(trace: seq<Event>, m: nat, n: nat, key: string) {
    forall i :: m <= i < n && i < |trace| ==> !(trace[i].Set? && trace[i].key == key)
  }

  lemma RunStep(maxSize: int, trace: seq<Event>, n: nat)
    requires n < |trace|
    ensures Run(maxSize, trace[..n + 1]) == Advance(Run(maxSize, trace[..n]), maxSize, trace[n])
  {
    assert trace[..n + 1][..n] == trace[..n];
  }

  /** An entry that is there without a Set since was there before, the same. */
  lemma {:induction false} EntryWasThere(maxSize: int, trace: seq<Event>, m: nat, n: nat, key: string)
    requires m <= n <= |trace| && NotSetBetween(trace, m, n, key)
    ensures var before, after := Run(maxSize, trace[..m]).entries, Run(maxSize, trace[..n]).entries;
            key in after ==> key in before && after[key] == before[key]
  {
    if m < n {
      RunStep(maxSize, trace, n - 1);
      EntryWasThere(maxSize, trace, m, n - 1, key);
      AdvanceKeeps(Run(maxSize, trace[..n - 1]), maxSize, trace[n - 1], key);
    }
  }

  lemma AdvanceKeeps(c: Cache, maxSize: int, e: Event, key: string)
    requires !(e.Set? && e.key == key)
    ensures key in Advance(c, maxSize, e).entries ==> key in c.entries && Advance(c, maxSize, e).entries[key] == c.entries[key]
  {
  }

  predicate Outdated(entries: Entries, key: string, now: int) {
    key in entries && now > entries[key].expiry
  }

  lemma {:induction false} OutdatedBefore(maxSize: int, trace: seq<Event>, m: nat, n: nat, key: string, now: int)
    requires m <= n <= |trace| && NotSetBetween(trace, m, n, key)
    requires Outdated(Run(maxSize, trace[..n]).entries, key, now)
    ensures Outdated(Run(maxSize, trace[..m]).entries, key, now)
  {
    EntryWasThere(maxSize, trace, m, n, key);
  }

  lemma SweepTakes(c: Cache, maxSize: int, now: int, keys: set<string>, key: string)
    requires Outdated(Advance(c, maxSize, SweepKeys(now, keys)).entries, key, now)
    ensures Outdated(c.entries, key, now) && key !in keys
  {
  }

  /**
   A janitor's round is thorough: once the keys it found expired at `now` have been swept, an entry
   that expired before `now` is only there if its key was set after the scan.
   */
  lemma {:induction false} SweptClean(maxSize: int, trace: seq<Event>, i: nat, j: nat, n: nat, now: int, keys: set<string>, key: string)
    requires i < j < n <= |trace| && trace[i] == Scan(now) && trace[j] == SweepKeys(now, keys)
    requires forall k :: Outdated(Run(maxSize, trace[..i]).entries, k, now) ==> k in keys
    requires Outdated(Run(maxSize, trace[..n]).entries, key, now)
    ensures exists m :: i < m < n && trace[m].Set? && trace[m].key == key
  {
    if NotSetBetween(trace, i, n, key) {
      OutdatedBefore(maxSize, trace, j + 1, n, key, now);
      assert Outdated(Run(maxSize, trace[..j]).entries, key, now) && key !in keys by {
        RunStep(maxSize, trace, j);
        SweepTakes(Run(maxSize, trace[..j]), maxSize, now, keys, key);
      }
      OutdatedBefore(maxSize, trace, i, j, key, now);
    }
  }
}
