/** The Redis-backed store: one keyspace, the commands the store issues, and the batch pipeline. */
module Storage {
  import opened Prelude
  import opened SlidingWindow
  import opened KeyEncoding

  /** A stored value. A sorted set may live without a deadline between ZADD and PEXPIRE. */
  datatype Object =
    | ZSet(members: set<nat>, deadline: Option<int>)
    | Number(n: int, until: int)

  type Database = map<string, Object>

  /** What became of one command: executed and answered, lost on the way there, or lost on the way back. */
  datatype Delivery = Answered | RequestLost | ReplyLost

  const DAY: int := 86_400_000

  /** Counter keys hold complete sorted sets and every other key holds a number. */
  ghost predicate Typed(db: Database) {
    forall k :: k in db ==>
      && (db[k].ZSet? <==> PREFIX_COUNTER <= k)
      && (db[k].ZSet? ==> db[k].deadline.Some?)
  }

  function LogOf(db: Database, redisKey: string): Log {
    if redisKey in db && db[redisKey].ZSet? && db[redisKey].deadline.Some?
    then Log(db[redisKey].members, db[redisKey].deadline.value)
    else EMPTY
  }

  predicate WhitelistedAt(db: Database, fullKey: string, serverTime: int) {
    var k := WhitelistKey(fullKey);
    k in db && db[k].Number? && serverTime <= db[k].until
  }

  /** The custom limit in force, or 0 when there is none. */
  function LimitAt(db: Database, fullKey: string, window: string, serverTime: int): int {
    var k := LimitKey(fullKey, window);
    if k in db && db[k].Number? && serverTime <= db[k].until then db[k].n else 0
  }

  ghost predicate SameLogs(db: Database, db': Database) {
    forall f :: LogOf(db', CounterKey(f)) == LogOf(db, CounterKey(f))
  }

  ghost predicate SameWhitelist(db: Database, db': Database) {
    forall f, r :: WhitelistedAt(db', f, r) == WhitelistedAt(db, f, r)
  }

  ghost predicate SameLimits(db: Database, db': Database) {
    forall f, w, r :: LimitAt(db', f, w, r) == LimitAt(db, f, w, r)
  }

  /**
   What counting an operation makes of a log: its stamp and the earlier ones inside the window, if
   the key was still there, kept until a second after the window.
   */
  ghost predicate Counts(was: Log, log: Log, stamp: nat, window: nat, serverTime: int) {
    StampedWithin(was, log.stamps, stamp, window, serverTime) && log.deadline == serverTime + window + 1000
  }

  ghost predicate StampedWithin(was: Log, stamps: set<nat>, stamp: nat, window: nat, serverTime: int) {
    forall t :: t in stamps <==> t == stamp || (t in was.stamps && serverTime <= was.deadline && stamp - window < t)
  }

  lemma ScriptCounts(log: Log, stamp: nat, window: nat, serverTime: int)
    ensures Counts(log, Script(log, Step(stamp, serverTime, window), true), stamp, window, serverTime)
  {
  }

  /** Nothing but the given Redis key differs. */
  ghost predicate OnlyKeyChanged(db: Database, db': Database, redisKey: string) {
    forall k :: k != redisKey ==> (k in db' <==> k in db) && (k in db' ==> db'[k] == db[k])
  }

  /** A change to one counter key is invisible to limits, the whitelist and other counters. */
  lemma CounterChangeIsLocal(db: Database, db': Database, fullKey: string)
    requires OnlyKeyChanged(db, db', CounterKey(fullKey))
    ensures SameWhitelist(db, db') && SameLimits(db, db')
    ensures forall f :: f != fullKey ==> LogOf(db', CounterKey(f)) == LogOf(db, CounterKey(f))
  {
    forall f, r
      ensures WhitelistedAt(db', f, r) == WhitelistedAt(db, f, r)
    {
      NamespacesDisjoint(fullKey, f, f, "");
    }
    forall f, w, r
      ensures LimitAt(db', f, w, r) == LimitAt(db, f, w, r)
    {
      NamespacesDisjoint(fullKey, f, f, w);
    }
    forall f | f != fullKey
      ensures LogOf(db', CounterKey(f)) == LogOf(db, CounterKey(f))
    {
      PlainKeysInjective(f, fullKey);
    }
  }

  lemma WhitelistChangeIsLocal(db: Database, db': Database, fullKey: string)
    requires OnlyKeyChanged(db, db', WhitelistKey(fullKey))
    ensures SameLogs(db, db') && SameLimits(db, db')
    ensures forall f, r :: f != fullKey ==> WhitelistedAt(db', f, r) == WhitelistedAt(db, f, r)
  {
    forall f
      ensures LogOf(db', CounterKey(f)) == LogOf(db, CounterKey(f))
    {
      NamespacesDisjoint(f, fullKey, f, "");
    }
    forall f, w, r
      ensures LimitAt(db', f, w, r) == LimitAt(db, f, w, r)
    {
      NamespacesDisjoint(f, fullKey, f, w);
    }
    forall f, r | f != fullKey
      ensures WhitelistedAt(db', f, r) == WhitelistedAt(db, f, r)
    {
      PlainKeysInjective(f, fullKey);
    }
  }

  /** With colon-free windows, a change to one limit key is seen by that full key and window alone. */
  lemma LimitChangeIsLocal(db: Database, db': Database, fullKey: string, window: string)
    requires OnlyKeyChanged(db, db', LimitKey(fullKey, window))
    ensures SameLogs(db, db') && SameWhitelist(db, db')
    ensures forall f, w, r :: !SameLimitKey(f, w, fullKey, window) ==> LimitAt(db', f, w, r) == LimitAt(db, f, w, r)
    ensures ColonFree(window) ==>
              forall f, w, r :: ColonFree(w) && (f, w) != (fullKey, window) ==> LimitAt(db', f, w, r) == LimitAt(db, f, w, r)
  {
    forall f, w, r | !SameLimitKey(f, w, fullKey, window)
      ensures LimitAt(db', f, w, r) == LimitAt(db, f, w, r)
    {
      LimitKeysEqual(f, w, fullKey, window);
    }
    forall f
      ensures LogOf(db', CounterKey(f)) == LogOf(db, CounterKey(f))
    {
      NamespacesDisjoint(f, f, fullKey, window);
    }
    forall f, r
      ensures WhitelistedAt(db', f, r) == WhitelistedAt(db, f, r)
    {
      NamespacesDisjoint(f, f, fullKey, window);
    }
    if ColonFree(window) {
      forall f, w, r | ColonFree(w) && (f, w) != (fullKey, window)
        ensures LimitAt(db', f, w, r) == LimitAt(db, f, w, r)
      {
        LimitKeyInjective(f, w, fullKey, window);
      }
    }
  }

  // ---------------------------------------------------------------- the batch pipeline

  /** What the first n commands of a pipeline leave under the counter of key k. */
  function AfterPipeline(log: Log, keys: seq<string>, k: string, stamp: nat, window: nat, times: seq<int>, n: nat): Log
    requires n <= |keys| <= |times|
  {
    if n == 0 then log
    else
      var before := AfterPipeline(log, keys, k, stamp, window, times, n - 1);
      if keys[n - 1] == k then Script(before, Step(stamp, times[n - 1], window), true) else before
  }

  /** Every counter holds what the first n commands of the pipeline made of it. */
  ghost predicate Pipelined(db: Database, db': Database, keys: seq<string>, stamp: nat, window: nat, times: seq<int>, n: nat)
    requires n <= |keys| <= |times|
  {
    forall k :: LogOf(db', CounterKey(k)) == AfterPipeline(LogOf(db, CounterKey(k)), keys, k, stamp, window, times, n)
  }

  /** Reply i is the size of its key's log just after command i. */
  ghost predicate Replied(db: Database, keys: seq<string>, stamp: nat, window: nat, times: seq<int>, replies: seq<nat>, n: nat)
    requires n <= |keys| <= |times|
  {
    && |replies| == n
    && forall i :: 0 <= i < n ==>
         replies[i] == |AfterPipeline(LogOf(db, CounterKey(keys[i])), keys, keys[i], stamp, window, times, i + 1).stamps|
  }

  lemma {:induction false} PipelineStep(db: Database, mid: Database, db': Database, keys: seq<string>, stamp: nat, window: nat, times: seq<int>, n: nat)
    requires n < |keys| <= |times|
    requires Pipelined(db, mid, keys, stamp, window, times, n)
    requires OnlyKeyChanged(mid, db', CounterKey(keys[n]))
    requires LogOf(db', CounterKey(keys[n])) ==
             Script(LogOf(mid, CounterKey(keys[n])), Step(stamp, times[n], window), true)
    ensures Pipelined(db, db', keys, stamp, window, times, n + 1)
  {
    CounterChangeIsLocal(mid, db', keys[n]);
  }

  /** The server's clock advances over the pipeline but no deadline of this key falls inside it. */
  ghost predicate NoExpiryDuring(log: Log, times: seq<int>, window: nat) {
    && (forall i, j :: 0 <= i <= j < |times| ==> times[i] <= times[j])
    && forall i :: 0 <= i < |times| ==>
         && (log.deadline < times[i] <==> log.deadline < times[0])
         && times[i] <= times[0] + window + GRACE
  }

  /** Running the script again at the same stamp, before the deadline, changes only the deadline. */
  lemma ScriptIdempotent(log: Log, stamp: nat, window: nat, r1: int, r2: int)
    requires r2 <= r1 + window + GRACE
    ensures Script(Script(log, Step(stamp, r1, window), true), Step(stamp, r2, window), true)
         == Script(log, Step(stamp, r1, window), true).(deadline := r2 + window + GRACE)
  {
    var once := Script(log, Step(stamp, r1, window), true);
    assert Prune(once.stamps, stamp - window) + {stamp} == once.stamps;
  }

  /** Command `last` is the last of the first n for this key. */
  ghost predicate LastFor(keys: seq<string>, k: string, n: nat, last: nat)
    requires n <= |keys|
  {
    last < n && keys[last] == k && k !in keys[last + 1..n]
  }

  /**
   The batch refines single calls: whatever the order and the repetitions in the key list, each
   listed key ends with the members, and so the count, of one call at the batch's stamp and the
   deadline of its last command, and every other key keeps its log.
   */
  lemma {:induction false} BatchIsOneCallPerKey(log: Log, keys: seq<string>, k: string, stamp: nat, window: nat, times: seq<int>, n: nat)
    requires n <= |keys| == |times|
    requires NoExpiryDuring(log, times, window)
    ensures k !in keys[..n] ==> AfterPipeline(log, keys, k, stamp, window, times, n) == log
    ensures k in keys[..n] ==>
              && AfterPipeline(log, keys, k, stamp, window, times, n).stamps
                 == Script(log, Step(stamp, times[0], window), true).stamps
              && exists last: nat :: LastFor(keys, k, n, last)
                   && AfterPipeline(log, keys, k, stamp, window, times, n).deadline == times[last] + window + GRACE
  {
    if n > 0 {
      BatchIsOneCallPerKey(log, keys, k, stamp, window, times, n - 1);
      assert keys[..n] == keys[..n - 1] + [keys[n - 1]];
      var before := AfterPipeline(log, keys, k, stamp, window, times, n - 1);
      if keys[n - 1] == k {
        assert LastFor(keys, k, n, n - 1);
        if k in keys[..n - 1] {
          var last: nat :| LastFor(keys, k, n - 1, last) && before.deadline == times[last] + window + GRACE;
          var once := Script(log, Step(stamp, times[last], window), true);
          assert before == once;
          ScriptIdempotent(log, stamp, window, times[last], times[n - 1]);
        }
      } else if k in keys[..n] {
        var last: nat :| LastFor(keys, k, n - 1, last) && before.deadline == times[last] + window + GRACE;
        assert keys[last + 1..n] == keys[last + 1..n - 1] + [keys[n - 1]];
        assert LastFor(keys, k, n, last);
      }
    }
  }

  /** What one call on its own would return. */
  function SingleCount(log: Log, stamp: nat, window: nat, serverTime: int): nat {
    |Script(log, Step(stamp, serverTime, window), true).stamps|
  }

  lemma BatchCountIsSingleCount(log: Log, keys: seq<string>, k: string, stamp: nat, window: nat, times: seq<int>)
    requires |keys| == |times| && k in keys && NoExpiryDuring(log, times, window)
    ensures |AfterPipeline(log, keys, k, stamp, window, times, |keys|).stamps| == SingleCount(log, stamp, window, times[0])
    ensures StampedWithin(log, AfterPipeline(log, keys, k, stamp, window, times, |keys|).stamps, stamp, window, times[0])
  {
    assert keys[..|keys|] == keys;
    BatchIsOneCallPerKey(log, keys, k, stamp, window, times, |keys|);
  }

  /** Permuting or repeating the keys of a batch changes no key's members and no count. */
  lemma BatchOrderIrrelevant(log: Log, keys: seq<string>, keys': seq<string>, k: string, stamp: nat, window: nat,
                             times: seq<int>, times': seq<int>)
    requires |keys| == |times| && |keys'| == |times'|
    requires forall x :: x in keys <==> x in keys'
    requires NoExpiryDuring(log, times, window) && NoExpiryDuring(log, times', window)
    requires keys != [] && keys' != [] ==> (log.deadline < times[0] <==> log.deadline < times'[0])
    ensures AfterPipeline(log, keys, k, stamp, window, times, |keys|).stamps
         == AfterPipeline(log, keys', k, stamp, window, times', |keys'|).stamps
  {
    assert keys[..|keys|] == keys && keys'[..|keys'|] == keys';
    BatchIsOneCallPerKey(log, keys, k, stamp, window, times, |keys|);
    BatchIsOneCallPerKey(log, keys', k, stamp, window, times', |keys'|);
  }

  // ---------------------------------------------------------------- the store

  class RedisStorage {
    var db: Database

    constructor ()
      ensures db == map[]
      ensures Typed(db)
    {
      db := map[];
    }

    method DropIfExpired(redisKey: string, serverTime: int)
      modifies this
      ensures OnlyKeyChanged(old(db), db, redisKey)
      ensures redisKey in db ==> redisKey in old(db) && db[redisKey] == old(db)[redisKey]
      ensures redisKey in old(db) && old(db)[redisKey].ZSet? && old(db)[redisKey].deadline.Some? ==>
                (redisKey in db <==> serverTime <= old(db)[redisKey].deadline.value)
      ensures redisKey in old(db) && old(db)[redisKey].Number? ==>
                (redisKey in db <==> serverTime <= old(db)[redisKey].until)
    {
      if redisKey in db {
        var gone := match db[redisKey]
          case ZSet(_, deadline) => deadline.Some? && deadline.value < serverTime
          case Number(_, until) => until < serverTime;
        if gone {
          db := db - {redisKey};
        }
      }
    }

    /** Removing the last member removes the key, and with it the deadline. */
    method ZRemRangeByScore(redisKey: string, lo: int, hi: int)
      requires redisKey in db ==> db[redisKey].ZSet?
      modifies this
      ensures OnlyKeyChanged(old(db), db, redisKey)
      ensures redisKey in db ==> redisKey in old(db) && db[redisKey].ZSet?
      ensures redisKey in old(db) ==>
                var left := set t | t in old(db)[redisKey].members && !(lo <= t <= hi);
                if left == {} then redisKey !in db else redisKey in db && db[redisKey].members == left
    {
      if redisKey in db {
        var left := set t | t in db[redisKey].members && !(lo <= t <= hi);
        db := if left == {} then db - {redisKey} else db[redisKey := db[redisKey].(members := left)];
      }
    }

    method ZAdd(redisKey: string, score: nat)
      requires redisKey in db ==> db[redisKey].ZSet?
      modifies this
      ensures OnlyKeyChanged(old(db), db, redisKey)
      ensures redisKey in db && db[redisKey].ZSet?
      ensures db[redisKey].members == (if redisKey in old(db) then old(db)[redisKey].members else {}) + {score}
    {
      db := if redisKey in db
        then db[redisKey := db[redisKey].(members := db[redisKey].members + {score})]
        else db[redisKey := ZSet({score}, None)];
    }

    method PExpire(redisKey: string, ttl: int, serverTime: int)
      requires redisKey in db && db[redisKey].ZSet? && 0 < ttl
      modifies this
      ensures OnlyKeyChanged(old(db), db, redisKey)
      ensures redisKey in db && db[redisKey] == ZSet(old(db)[redisKey].members, Some(serverTime + ttl))
    {
      db := db[redisKey := db[redisKey].(deadline := Some(serverTime + ttl))];
    }

    method ZCard(redisKey: string) returns (n: nat)
      requires redisKey in db ==> db[redisKey].ZSet?
      ensures n == if redisKey in db then |db[redisKey].members| else 0
    {
      n := if redisKey in db then |db[redisKey].members| else 0;
    }

    /** The sliding-window script, executed atomically at one server time. */
    method RunScript(fullKey: string, stamp: nat, window: nat, serverTime: int) returns (count: nat)
      requires Typed(db)
      modifies this
      ensures Typed(db) && OnlyKeyChanged(old(db), db, CounterKey(fullKey))
      ensures LogOf(db, CounterKey(fullKey)) == Script(LogOf(old(db), CounterKey(fullKey)), Step(stamp, serverTime, window), true)
      ensures count == |LogOf(db, CounterKey(fullKey)).stamps|
      ensures Counts(LogOf(old(db), CounterKey(fullKey)), LogOf(db, CounterKey(fullKey)), stamp, window, serverTime)
    {
      var key := CounterKey(fullKey);
      var cutoff := stamp - window;
      ghost var was := LogOf(db, key);
      DropIfExpired(key, serverTime);
      ghost var live := if key in db then db[key].members else {};
      assert live == if was.deadline < serverTime then {} else was.stamps;
      ZRemRangeByScore(key, 0, cutoff);
      ghost var kept := if key in db then db[key].members else {};
      assert kept == Prune(live, cutoff);
      ZAdd(key, stamp);
      PExpire(key, window + GRACE, serverTime);
      count := ZCard(key);
      assert LogOf(db, key) == Log(kept + {stamp}, serverTime + window + GRACE);
      ScriptCounts(was, stamp, window, serverTime);
    }

    method IncrementAndCount(fullKey: string, window: nat, stamp: nat, serverTime: int, delivery: Delivery)
      returns (r: Result<nat>)
      requires Typed(db)
      modifies this
      ensures Typed(db) && OnlyKeyChanged(old(db), db, CounterKey(fullKey))
      ensures SameWhitelist(old(db), db) && SameLimits(old(db), db)
      ensures delivery.RequestLost? ==> db == old(db)
      ensures !delivery.RequestLost? ==>
                LogOf(db, CounterKey(fullKey)) == Script(LogOf(old(db), CounterKey(fullKey)), Step(stamp, serverTime, window), true)
      ensures r.Ok? <==> delivery.Answered?
      ensures r.Ok? ==> r.value == |LogOf(db, CounterKey(fullKey)).stamps|
      ensures !delivery.RequestLost? ==>
                Counts(LogOf(old(db), "ratelimit:counter:" + fullKey), LogOf(db, "ratelimit:counter:" + fullKey), stamp, window, serverTime)
    {
      if delivery.RequestLost? {
        return Err("failed to execute Redis script");
      }
      var count := RunScript(fullKey, stamp, window, serverTime);
      CounterChangeIsLocal(old(db), db, fullKey);
      r := if delivery.Answered? then Ok(count) else Err("failed to execute Redis script");
    }

    method IsWhitelisted(fullKey: string, serverTime: int, delivery: Delivery) returns (r: Result<bool>)
      requires Typed(db)
      ensures r.Ok? <==> delivery.Answered?
      ensures r.Ok? ==> r.value == WhitelistedAt(db, fullKey, serverTime)
      ensures r.Ok? ==> var k := "ratelimit:whitelist:" + fullKey;
                r.value == (k in db && db[k].Number? && serverTime <= db[k].until)
    {
      if !delivery.Answered? {
        return Err("failed to check whitelist");
      }
      var key := WhitelistKey(fullKey);
      assert key[10] == 'w';
      r := Ok(key in db && (if db[key].Number? then serverTime <= db[key].until else false));
    }

    method UpdateWhitelist(fullKey: string, whitelisted: bool, serverTime: int, delivery: Delivery) returns (r: Result<()>)
      requires Typed(db)
      modifies this
      ensures Typed(db) && SameLogs(old(db), db) && SameLimits(old(db), db)
      ensures r.Ok? <==> delivery.Answered?
      ensures delivery.RequestLost? ==> db == old(db)
      ensures !delivery.RequestLost? ==>
                forall now :: WhitelistedAt(db, fullKey, now) <==> whitelisted && now <= serverTime + 86_400_000
      ensures !delivery.RequestLost? ==> var k := "ratelimit:whitelist:" + fullKey;
                db == if whitelisted then old(db)[k := Number(1, serverTime + 86_400_000)] else old(db) - {k}
      ensures forall f, now :: f != fullKey ==> WhitelistedAt(db, f, now) == WhitelistedAt(old(db), f, now)
    {
      if delivery.RequestLost? {
        return Err("failed to update whitelist");
      }
      var key := WhitelistKey(fullKey);
      assert key[10] == 'w';
      if whitelisted {
        db := db[key := Number(1, serverTime + DAY)];
      } else {
        db := db - {key};
      }
      WhitelistChangeIsLocal(old(db), db, fullKey);
      r := if delivery.Answered? then Ok(()) else Err("failed to update whitelist");
    }

    method SetLimit(fullKey: string, window: string, limit: int, serverTime: int, delivery: Delivery) returns (r: Result<()>)
      requires Typed(db)
      modifies this
      ensures Typed(db) && SameLogs(old(db), db) && SameWhitelist(old(db), db)
      ensures r.Ok? <==> delivery.Answered?
      ensures delivery.RequestLost? ==> db == old(db)
      ensures !delivery.RequestLost? ==>
                forall now :: LimitAt(db, fullKey, window, now) == if now <= serverTime + 86_400_000 then limit else 0
      ensures !delivery.RequestLost? ==>
                db == old(db)["ratelimit:limit:" + fullKey + ":" + window := Number(limit, serverTime + 86_400_000)]
      ensures !delivery.RequestLost? ==>
                forall f, w, now :: LimitAt(db, f, w, now) ==
                  if SameLimitKey(f, w, fullKey, window) then if now <= serverTime + 86_400_000 then limit else 0
                  else LimitAt(old(db), f, w, now)
      ensures ColonFree(window) ==>
                forall f, w, now :: ColonFree(w) && (f, w) != (fullKey, window) ==> LimitAt(db, f, w, now) == LimitAt(old(db), f, w, now)
    {
      if delivery.RequestLost? {
        return Err("failed to set limit");
      }
      var key := LimitKey(fullKey, window);
      assert key[10] == 'l';
      db := db[key := Number(limit, serverTime + DAY)];
      LimitChangeIsLocal(old(db), db, fullKey, window);
      forall f, w, now | SameLimitKey(f, w, fullKey, window)
        ensures LimitAt(db, f, w, now) == if now <= serverTime + 86_400_000 then limit else 0
      {
        LimitKeysEqual(f, w, fullKey, window);
      }
      r := if delivery.Answered? then Ok(()) else Err("failed to set limit");
    }

    method GetLimit(fullKey: string, window: string, serverTime: int, delivery: Delivery) returns (r: Result<int>)
      requires Typed(db)
      ensures r.Ok? <==> delivery.Answered?
      ensures r.Ok? ==> r.value == LimitAt(db, fullKey, window, serverTime)
      ensures r.Ok? ==> var k := "ratelimit:limit:" + fullKey + ":" + window;
                r.value == if k in db && db[k].Number? && serverTime <= db[k].until then db[k].n else 0
    {
      if !delivery.Answered? {
        return Err("failed to get limit");
      }
      var key := LimitKey(fullKey, window);
      assert key[10] == 'l';
      if key !in db {
        return Ok(0);
      }
      r := Ok(if db[key].Number? && serverTime <= db[key].until then db[key].n else 0);
    }

    /**
     One pipelined script per listed key. `executed` of the commands ran; the call succeeds when all did.
     */
    method BatchIncrementAndCount(keys: seq<string>, window: nat, stamp: nat, times: seq<int>, executed: nat)
      returns (r: Result<map<string, nat>>)
      requires Typed(db) && |times| == |keys| && executed <= |keys|
      modifies this
      ensures Typed(db) && SameWhitelist(old(db), db) && SameLimits(old(db), db)
      ensures Pipelined(old(db), db, keys, stamp, window, times, executed)
      ensures r.Ok? <==> executed == |keys|
      ensures r.Ok? ==> forall k :: k in r.value <==> k in keys
      ensures r.Ok? ==> forall k :: k in r.value ==> r.value[k] == |LogOf(db, CounterKey(k)).stamps|
      ensures r.Ok? ==> forall k :: k in r.value && NoExpiryDuring(LogOf(old(db), CounterKey(k)), times, window) ==>
                && r.value[k] == SingleCount(LogOf(old(db), CounterKey(k)), stamp, window, times[0])
                && StampedWithin(LogOf(old(db), CounterKey(k)), LogOf(db, CounterKey(k)).stamps, stamp, window, times[0])
    {
      var pipe: seq<string> := [];
      var cmdMap: map<string, nat> := map[];
      for i := 0 to |keys|
        invariant pipe == keys[..i]
        invariant forall k :: k in cmdMap <==> k in keys[..i]
        invariant forall k :: k in cmdMap ==> cmdMap[k] < i && keys[cmdMap[k]] == k && k !in keys[cmdMap[k] + 1..i]
      {
        cmdMap := cmdMap[keys[i] := |pipe|];
        pipe := pipe + [keys[i]];
      }

      assert pipe == keys;
      var replies := ExecPipeline(pipe, window, stamp, times, executed);
      if executed < |keys| {
        return Err("failed to execute Redis pipeline");
      }

      ghost var was := old(db);
      forall k | k in cmdMap
        ensures replies[cmdMap[k]] == |LogOf(db, CounterKey(k)).stamps|
      {
        UntouchedSince(LogOf(was, CounterKey(k)), keys, k, stamp, window, times, cmdMap[k] + 1, |keys|);
      }
      var results := CollectReplies(cmdMap, replies);
      forall k | k in results && NoExpiryDuring(LogOf(was, CounterKey(k)), times, window)
        ensures results[k] == SingleCount(LogOf(was, CounterKey(k)), stamp, window, times[0])
        ensures StampedWithin(LogOf(was, CounterKey(k)), LogOf(db, CounterKey(k)).stamps, stamp, window, times[0])
      {
        BatchCountIsSingleCount(LogOf(was, CounterKey(k)), keys, k, stamp, window, times);
      }
      r := Ok(results);
    }

    /** Each key's result is the reply to the last command queued for it. */
    method CollectReplies(cmdMap: map<string, nat>, replies: seq<nat>) returns (results: map<string, nat>)
      requires forall k :: k in cmdMap ==> cmdMap[k] < |replies|
      ensures results.Keys == cmdMap.Keys
      ensures forall k :: k in results ==> results[k] == replies[cmdMap[k]]
    {
      results := map[];
      var todo := cmdMap.Keys;
      while todo != {}
        invariant todo <= cmdMap.Keys
        invariant results.Keys == cmdMap.Keys - todo
        invariant forall k :: k in results ==> results[k] == replies[cmdMap[k]]
        decreases todo
      {
        var key :| key in todo;
        todo := todo - {key};
        results := results[key := replies[cmdMap[key]]];
      }
    }

    method ExecPipeline(pipe: seq<string>, window: nat, stamp: nat, times: seq<int>, executed: nat) returns (replies: seq<nat>)
      requires Typed(db) && |times| == |pipe| && executed <= |pipe|
      modifies this
      ensures Typed(db) && SameWhitelist(old(db), db) && SameLimits(old(db), db)
      ensures Pipelined(old(db), db, pipe, stamp, window, times, executed)
      ensures Replied(old(db), pipe, stamp, window, times, replies, executed)
    {
      replies := [];
      for i := 0 to executed
        invariant Typed(db) && SameWhitelist(old(db), db) && SameLimits(old(db), db)
        invariant Pipelined(old(db), db, pipe, stamp, window, times, i)
        invariant Replied(old(db), pipe, stamp, window, times, replies, i)
      {
        ghost var was := db;
        var count := RunScript(pipe[i], stamp, window, times[i]);
        CounterChangeIsLocal(was, db, pipe[i]);
        PipelineStep(old(db), was, db, pipe, stamp, window, times, i);
        replies := replies + [count];
      }
    }
  }

  /** Commands for other keys leave a key's log alone. */
  lemma {:induction false} UntouchedSince(log: Log, keys: seq<string>, k: string, stamp: nat, window: nat, times: seq<int>, m: nat, n: nat)
    requires m <= n <= |keys| <= |times|
    requires k !in keys[m..n]
    ensures AfterPipeline(log, keys, k, stamp, window, times, n) == AfterPipeline(log, keys, k, stamp, window, times, m)
  {
    if m < n {
      assert keys[m..n] == keys[m..n - 1] + [keys[n - 1]];
      UntouchedSince(log, keys, k, stamp, window, times, m, n - 1);
    }
  }
}
