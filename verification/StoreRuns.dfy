/**
 Any sequence of calls on one store, with replies lost before or after the fact: what the counters,
 the whitelist and the limits read afterwards, in terms of the calls alone.
 */
module StoreRuns {
  import opened Prelude
  import opened SlidingWindow
  import opened KeyEncoding
  import opened Storage

  datatype Command =
    | Count(fullKey: string, stamp: nat, window: nat, at: int, delivery: Delivery)
    | Batch(keys: seq<string>, batchStamp: nat, batchWindow: nat, times: seq<int>, executed: nat)
    | Whitelist(fullKey: string, whitelisted: bool, at: int, delivery: Delivery)
    | Limit(fullKey: string, windowName: string, limit: int, at: int, delivery: Delivery)

  predicate WellFormed(c: Command) {
    c.Batch? ==> |c.times| == |c.keys| && c.executed <= |c.keys|
  }

  predicate AllWellFormed(commands: seq<Command>) {
    forall i :: 0 <= i < |commands| ==> WellFormed(commands[i])
  }

  /** The latest limit that reached the store under the same text as this full key and window, and when. */
  function LatestLimit(commands: seq<Command>, fullKey: string, window: string): Option<(int, int)> {
    if commands == [] then None
    else
      var init, c := commands[..|commands| - 1], commands[|commands| - 1];
      if c.Limit? && !c.delivery.RequestLost? && c.fullKey + ":" + c.windowName == fullKey + ":" + window
      then Some((c.limit, c.at))
      else LatestLimit(init, fullKey, window)
  }

  /** The time of the latest addition to the whitelist that reached the store, unless a removal did later. */
  function LatestAddition(commands: seq<Command>, fullKey: string): Option<int> {
    if commands == [] then None
    else
      var init, c := commands[..|commands| - 1], commands[|commands| - 1];
      if c.Whitelist? && !c.delivery.RequestLost? && c.fullKey == fullKey then if c.whitelisted then Some(c.at) else None
      else LatestAddition(init, fullKey)
  }

  /** The executions of the script on the key's counter. */
  function StepsOf(commands: seq<Command>, fullKey: string): seq<Step>
    requires AllWellFormed(commands)
  {
    if commands == [] then []
    else
      var init, c := commands[..|commands| - 1], commands[|commands| - 1];
      StepsOf(init, fullKey) +
      match c
      case Count(key, stamp, window, at, delivery) =>
        if key == fullKey && !delivery.RequestLost? then [Step(stamp, at, window)] else []
      case Batch(keys, stamp, window, times, executed) => BatchSteps(keys, fullKey, stamp, window, times, executed)
      case _ => []
  }

  /** One execution for each of the first n commands of a pipeline that names the key. */
  function BatchSteps(keys: seq<string>, fullKey: string, stamp: nat, window: nat, times: seq<int>, n: nat): seq<Step>
    requires n <= |keys| == |times|
  {
    if n == 0 then []
    else
      BatchSteps(keys, fullKey, stamp, window, times, n - 1) +
      if keys[n - 1] == fullKey then [Step(stamp, times[n - 1], window)] else []
  }

  lemma RunMore(steps: seq<Step>, more: Step)
    ensures Run(steps + [more], true) == Script(Run(steps, true), more, true)
  {
    assert (steps + [more])[..|steps|] == steps;
  }

  /** A pipeline continues the run of the script on each of its keys. */
  lemma {:induction false} PipelineContinues(steps: seq<Step>, keys: seq<string>, k: string, stamp: nat, window: nat, times: seq<int>, n: nat)
    requires n <= |keys| == |times|
    ensures AfterPipeline(Run(steps, true), keys, k, stamp, window, times, n)
         == Run(steps + BatchSteps(keys, k, stamp, window, times, n), true)
  {
    if n == 0 {
      assert steps + [] == steps;
    } else {
      PipelineContinues(steps, keys, k, stamp, window, times, n - 1);
      var before := BatchSteps(keys, k, stamp, window, times, n - 1);
      if keys[n - 1] == k {
        RunMore(steps + before, Step(stamp, times[n - 1], window));
        assert steps + (before + [Step(stamp, times[n - 1], window)]) == (steps + before) + [Step(stamp, times[n - 1], window)];
      } else {
        assert before + [] == before;
      }
    }
  }

  ghost predicate CountersRead(db: Database, commands: seq<Command>)
    requires AllWellFormed(commands)
  {
    forall f :: LogOf(db, CounterKey(f)) == Run(StepsOf(commands, f), true)
  }

  ghost predicate LimitsRead(db: Database, commands: seq<Command>) {
    forall f, w, now :: LimitAt(db, f, w, now) == LimitRead(LatestLimit(commands, f, w), now)
  }

  /** A limit reads back for one day, 0 when there is none. */
  function LimitRead(latest: Option<(int, int)>, now: int): int {
    match latest
    case None => 0
    case Some((limit, at)) => if now <= at + 86_400_000 then limit else 0
  }

  ghost predicate WhitelistReads(db: Database, commands: seq<Command>) {
    forall f, now :: WhitelistedAt(db, f, now) <==> match LatestAddition(commands, f) case None => false case Some(at) => now <= at + 86_400_000
  }

  ghost predicate Reads(db: Database, commands: seq<Command>)
    requires AllWellFormed(commands)
  {
    CountersRead(db, commands) && LimitsRead(db, commands) && WhitelistReads(db, commands)
  }

  /** A command that only counts. */
  lemma CountReads(db: Database, db': Database, commands: seq<Command>, c: Command)
    requires AllWellFormed(commands)
    requires Reads(db, commands) && c.Count?
    requires SameLimits(db, db') && SameWhitelist(db, db')
    requires forall f :: LogOf(db', CounterKey(f)) ==
               if f == c.fullKey && !c.delivery.RequestLost? then Script(LogOf(db, CounterKey(f)), Step(c.stamp, c.at, c.window), true)
               else LogOf(db, CounterKey(f))
    ensures Reads(db', commands + [c])
  {
    LastCommand(commands, c);
    forall f
      ensures LogOf(db', CounterKey(f)) == Run(StepsOf(commands + [c], f), true)
    {
      if f == c.fullKey && !c.delivery.RequestLost? {
        RunMore(StepsOf(commands, f), Step(c.stamp, c.at, c.window));
      } else {
        assert StepsOf(commands, f) + [] == StepsOf(commands, f);
      }
    }
  }

  lemma BatchReads(db: Database, db': Database, commands: seq<Command>, c: Command)
    requires AllWellFormed(commands)
    requires Reads(db, commands) && c.Batch? && WellFormed(c)
    requires SameLimits(db, db') && SameWhitelist(db, db')
    requires Pipelined(db, db', c.keys, c.batchStamp, c.batchWindow, c.times, c.executed)
    ensures Reads(db', commands + [c])
  {
    LastCommand(commands, c);
    forall f
      ensures LogOf(db', CounterKey(f)) == Run(StepsOf(commands + [c], f), true)
    {
      PipelineContinues(StepsOf(commands, f), c.keys, f, c.batchStamp, c.batchWindow, c.times, c.executed);
    }
  }

  lemma WhitelistingReads(db: Database, db': Database, commands: seq<Command>, c: Command)
    requires AllWellFormed(commands) && Reads(db, commands) && c.Whitelist?
    requires SameLimits(db, db') && SameLogs(db, db')
    requires forall f, now :: WhitelistedAt(db', f, now) <==>
               if f == c.fullKey && !c.delivery.RequestLost? then c.whitelisted && now <= c.at + 86_400_000 else WhitelistedAt(db, f, now)
    ensures Reads(db', commands + [c])
  {
    LastCommand(commands, c);
  }

  lemma LimitingReads(db: Database, db': Database, commands: seq<Command>, c: Command)
    requires AllWellFormed(commands) && Reads(db, commands) && c.Limit?
    requires SameWhitelist(db, db') && SameLogs(db, db')
    requires forall f, w, now :: LimitAt(db', f, w, now) ==
               if SameLimitKey(f, w, c.fullKey, c.windowName) && !c.delivery.RequestLost?
               then if now <= c.at + 86_400_000 then c.limit else 0
               else LimitAt(db, f, w, now)
    ensures Reads(db', commands + [c])
  {
    LastCommand(commands, c);
  }

  /** What the functions of a sequence of commands make of one more. */
  lemma LastCommand(commands: seq<Command>, c: Command)
    requires AllWellFormed(commands)
    requires WellFormed(c)
    ensures AllWellFormed(commands + [c])
    ensures forall f, w ::
              LatestLimit(commands + [c], f, w) ==
              if c.Limit? && !c.delivery.RequestLost? && SameLimitKey(f, w, c.fullKey, c.windowName) then Some((c.limit, c.at))
              else LatestLimit(commands, f, w)
    ensures forall f ::
              LatestAddition(commands + [c], f) ==
              if c.Whitelist? && !c.delivery.RequestLost? && f == c.fullKey then if c.whitelisted then Some(c.at) else None
              else LatestAddition(commands, f)
    ensures c.Count? ==> forall f ::
              StepsOf(commands + [c], f) ==
              StepsOf(commands, f) + if f == c.fullKey && !c.delivery.RequestLost? then [Step(c.stamp, c.at, c.window)] else []
    ensures c.Batch? ==> forall f ::
              StepsOf(commands + [c], f) ==
              StepsOf(commands, f) + BatchSteps(c.keys, f, c.batchStamp, c.batchWindow, c.times, c.executed)
    ensures c.Whitelist? || c.Limit? ==> forall f :: StepsOf(commands + [c], f) == StepsOf(commands, f)
  {
    assert (commands + [c])[..|commands|] == commands;
  }

  method Perform(store: RedisStorage, c: Command, ghost done: seq<Command>)
    requires Typed(store.db) && WellFormed(c) && AllWellFormed(done)
    requires Reads(store.db, done)
    modifies store
    ensures Typed(store.db)
    ensures AllWellFormed(done + [c])
    ensures Reads(store.db, done + [c])
  {
    ghost var was := store.db;
    match c
    case Count(fullKey, stamp, window, at, delivery) =>
      var _ := store.IncrementAndCount(fullKey, window, stamp, at, delivery);
      if !delivery.RequestLost? {
        CounterChangeIsLocal(was, store.db, fullKey);
      }
      CountReads(was, store.db, done, c);
    case Batch(keys, stamp, window, times, executed) =>
      var _ := store.BatchIncrementAndCount(keys, window, stamp, times, executed);
      BatchReads(was, store.db, done, c);
    case Whitelist(fullKey, whitelisted, at, delivery) =>
      var _ := store.UpdateWhitelist(fullKey, whitelisted, at, delivery);
      WhitelistingReads(was, store.db, done, c);
    case Limit(fullKey, windowName, limit, at, delivery) =>
      var _ := store.SetLimit(fullKey, windowName, limit, at, delivery);
      LimitingReads(was, store.db, done, c);
  }

  /** Any commands, from an empty store. */
  method Replay(commands: seq<Command>) returns (store: RedisStorage)
    requires AllWellFormed(commands)
    ensures fresh(store) && Typed(store.db)
    ensures Reads(store.db, commands)
  {
    store := new RedisStorage();
    for i := 0 to |commands|
      invariant Typed(store.db) && fresh(store)
      invariant AllWellFormed(commands[..i])
      invariant Reads(store.db, commands[..i])
    {
      Perform(store, commands[i], commands[..i]);
      assert commands[..i + 1] == commands[..i] + [commands[i]];
    }
    assert commands[..|commands|] == commands;
  }

  /**
   After any commands GetLimit answers the latest limit that reached the store for the full key and
   window, for one day after it was set, and 0 otherwise.
   */
  method LimitAfter(commands: seq<Command>, fullKey: string, window: string, now: int) returns (r: Result<int>)
    requires AllWellFormed(commands)
    ensures r == Ok(match LatestLimit(commands, fullKey, window)
                    case None => 0
                    case Some((limit, at)) => if now <= at + 86_400_000 then limit else 0)
  {
    var store := Replay(commands);
    r := store.GetLimit(fullKey, window, now, Answered);
  }

  /** After any commands a full key is whitelisted exactly for one day after the latest addition, unless removed since. */
  method WhitelistedAfter(commands: seq<Command>, fullKey: string, now: int) returns (r: Result<bool>)
    requires AllWellFormed(commands)
    ensures r == Ok(match LatestAddition(commands, fullKey) case None => false case Some(at) => now <= at + 86_400_000)
  {
    var store := Replay(commands);
    r := store.IsWhitelisted(fullKey, now, Answered);
  }

  /** After any commands one more count on a key is what the script returns on the run of the key's own executions. */
  method CountAfter(commands: seq<Command>, fullKey: string, step: Step) returns (r: Result<nat>)
    requires AllWellFormed(commands)
    ensures var steps := StepsOf(commands, fullKey) + [step]; r == Ok(CountAt(steps, |steps| - 1, true))
  {
    var store := Replay(commands);
    r := store.IncrementAndCount(fullKey, step.window, step.stamp, step.serverTime, Answered);
    ghost var steps := StepsOf(commands, fullKey) + [step];
    RunMore(StepsOf(commands, fullKey), step);
    assert steps[..|steps|] == steps;
  }
}
