/** The rate-limiter service object in front of the store. */
module RateLimiterService {
  import opened Prelude
  import opened LimitResults
  import opened SlidingWindow
  import opened KeyEncoding
  import opened Storage
  import opened ServiceSpec

  /** The clock readings and network fortunes of one check, in the order it meets them. */
  datatype Fortune = Fortune(
    now: int, failedAt: int,
    whitelist: Delivery, whitelistTime: int,
    limit: Delivery, limitTime: int,
    count: Delivery, stamp: nat, countTime: int)

  class RateLimiterService {
    const store: RedisStorage
    const config: Config
    var circuitBreaker: bool
    var failureCount: nat
    var lastFailure: int

    ghost function View(): Guard
      reads this
    {
      Guard(circuitBreaker, failureCount, lastFailure)
    }

    /** Five failures open the guard; it is asked again after ten seconds. */
    constructor (store: RedisStorage, limits: map<string, Limit>)
      ensures View() == NEW_GUARD && this.store == store
      ensures config == Config(limits, 5, 10_000)
    {
      this.store := store;
      config := Config(limits, 5, 10_000);
      circuitBreaker, failureCount, lastFailure := false, 0, NEVER;
    }

    method IsCircuitBreakerOpen(now: int) returns (open: bool)
      modifies this
      ensures View() == Asked(old(View()), config, now) && open == circuitBreaker
      ensures open <==> old(circuitBreaker) && now - old(lastFailure) <= config.resetTimeout
      ensures lastFailure == old(lastFailure) && failureCount == if old(circuitBreaker) && !open then 0 else old(failureCount)
    {
      if circuitBreaker && now - lastFailure > config.resetTimeout {
        circuitBreaker := false;
        failureCount := 0;
      }
      open := circuitBreaker;
    }

    method IncrementFailure(now: int)
      modifies this
      ensures View() == FailureRecorded(old(View()), config, now)
      ensures failureCount == old(failureCount) + 1 && lastFailure == now
      ensures circuitBreaker <==> old(circuitBreaker) || failureCount >= config.failureThreshold
    {
      failureCount := failureCount + 1;
      lastFailure := now;
      if failureCount >= config.failureThreshold {
        circuitBreaker := true;
      }
    }

    method ResetFailure()
      modifies this
      ensures View() == SuccessRecorded(old(View()))
      ensures failureCount == 0 && circuitBreaker == old(circuitBreaker)
      ensures lastFailure == if circuitBreaker then old(lastFailure) else 0
    {
      failureCount := 0;
      if !circuitBreaker {
        lastFailure := NEVER;
      }
    }

    /** What the store's contents make of a check's fortunes. */
    ghost function Meets(fullKey: string, windowName: string, f: Fortune): Encounter
      reads store
    {
      Encounter(windowName, f.now, f.failedAt,
        if f.whitelist.Answered? then Some(WhitelistedAt(store.db, fullKey, f.whitelistTime)) else None,
        if f.limit.Answered? then Some(LimitAt(store.db, fullKey, windowName, f.limitTime)) else None,
        f.stamp, f.countTime, f.count)
    }

    /**
     The answer, case by case: let through while the guard is open or when whitelisted, an error when a
     call to the store fails or the window is unknown, and otherwise what the key's count says of the
     custom limit, if positive, or else of the window's own.
     */
    ghost predicate AnsweredRightly(open: bool, met: Encounter, log: Log, r: Result<LimitFields>) {
      var waved := Ok(LimitFields(false, 0, 0, 0, 0, met.windowName));
      if open then r == waved
      else if met.whitelist == None then r.Err?
      else if met.whitelist.value then r == waved
      else if met.windowName !in config.limits then r.Err?
      else if met.custom == None || !met.delivery.Answered? then r.Err?
      else
        var default := config.limits[met.windowName];
        var limit := if met.custom.value > 0 then met.custom.value else default.requests;
        var count := |log.stamps|;
        r == Ok(LimitFields(count > limit, count, limit, if count < limit then limit - count else 0, default.window, met.windowName))
    }

    /**
     A check with no other call in between: guard, counter and answer are those of an uninterrupted
     check, nothing else in the store changes, and a call that finds the guard open changes nothing.
     */
    method CheckRateLimit(key: string, identifier: string, windowName: string, f: Fortune) returns (r: Result<LimitFields>)
      requires Typed(store.db)
      modifies this, store
      ensures Typed(store.db)
      ensures var full := FullKey(key, identifier);
              Checked(View(), LogOf(store.db, CounterKey(full)), if r.Ok? then Some(r.value) else None) ==
              Uninterrupted(config, old(View()), LogOf(old(store.db), CounterKey(full)), old(Meets(full, windowName, f)))
      ensures OnlyKeyChanged(old(store.db), store.db, CounterKey(FullKey(key, identifier)))
      ensures Asked(old(View()), config, f.now).open ==> View() == old(View()) && store.db == old(store.db)
      ensures AnsweredRightly(old(circuitBreaker && f.now - lastFailure <= config.resetTimeout),
                              old(Meets(key + ":" + identifier, windowName, f)),
                              LogOf(store.db, "ratelimit:counter:" + (key + ":" + identifier)), r)
    {
      var fullKey := FullKey(key, identifier);
      var open := IsCircuitBreakerOpen(f.now);
      if open {
        return Ok(Waved(windowName));
      }

      var whitelisted := store.IsWhitelisted(fullKey, f.whitelistTime, f.whitelist);
      if whitelisted.Err? {
        IncrementFailure(f.failedAt);
        return Err("failed to check whitelist");
      }
      if whitelisted.value {
        return Ok(Waved(windowName));
      }

      if windowName !in config.limits {
        return Err("invalid window name");
      }
      var default := config.limits[windowName];
      var limit := default.requests;

      var custom := store.GetLimit(fullKey, windowName, f.limitTime, f.limit);
      if custom.Err? {
        IncrementFailure(f.failedAt);
        return Err("failed to get custom limit");
      }
      if custom.value > 0 {
        limit := custom.value;
      }

      r := CountAgainst(fullKey, windowName, default, limit, f);
    }

    /** The end of a check: one operation is counted and judged by the limit. */
    method CountAgainst(fullKey: string, windowName: string, default: Limit, limit: int, f: Fortune) returns (r: Result<LimitFields>)
      requires Typed(store.db)
      modifies this, store
      ensures Typed(store.db) && OnlyKeyChanged(old(store.db), store.db, CounterKey(fullKey))
      ensures LogOf(store.db, CounterKey(fullKey)) ==
              if f.count.RequestLost? then LogOf(old(store.db), CounterKey(fullKey))
              else Script(LogOf(old(store.db), CounterKey(fullKey)), Step(f.stamp, f.countTime, default.window), true)
      ensures View() == if f.count.Answered? then SuccessRecorded(old(View())) else FailureRecorded(old(View()), config, f.failedAt)
      ensures if f.count.Answered?
              then var count := |LogOf(store.db, CounterKey(fullKey)).stamps|;
                   r == Ok(LimitFields(count > limit, count, limit, if count < limit then limit - count else 0, default.window, windowName))
              else r.Err?
    {
      var count := store.IncrementAndCount(fullKey, default.window, f.stamp, f.countTime, f.count);
      if count.Err? {
        IncrementFailure(f.failedAt);
        return Err("failed to increment counter");
      }

      ResetFailure();
      var remaining := limit - count.value;
      if remaining < 0 {
        remaining := 0;
      }
      r := Ok(LimitFields(count.value > limit, count.value, limit, remaining, default.window, windowName));
    }

    method UpdateWhitelist(key: string, identifier: string, whitelisted: bool, now: int, failedAt: int, serverTime: int, delivery: Delivery)
      returns (r: Result<()>)
      requires Typed(store.db)
      modifies this, store
      ensures Typed(store.db) && SameLogs(old(store.db), store.db)
      ensures var g := Asked(old(View()), config, now);
              && (g.open ==> View() == g && store.db == old(store.db))
              && (!g.open ==> View() == if delivery.Answered? then SuccessRecorded(g) else FailureRecorded(g, config, failedAt))
              && (r.Ok? <==> !g.open && delivery.Answered?)
      ensures (if (old(circuitBreaker) && now - old(lastFailure) <= config.resetTimeout) || delivery.RequestLost?
               then store.db == old(store.db)
               else forall t :: WhitelistedAt(store.db, key + ":" + identifier, t) <==> whitelisted && t <= serverTime + 86_400_000)
      ensures forall f, t :: f != key + ":" + identifier ==> WhitelistedAt(store.db, f, t) == WhitelistedAt(old(store.db), f, t)
      ensures SameLimits(old(store.db), store.db)
    {
      var open := IsCircuitBreakerOpen(now);
      if open {
        return Err("service unavailable: circuit breaker open");
      }
      r := store.UpdateWhitelist(FullKey(key, identifier), whitelisted, serverTime, delivery);
      if r.Err? {
        IncrementFailure(failedAt);
      } else {
        ResetFailure();
      }
    }

    method SetLimit(key: string, identifier: string, windowName: string, limit: int, now: int, failedAt: int, serverTime: int, delivery: Delivery)
      returns (r: Result<()>)
      requires Typed(store.db)
      modifies this, store
      ensures Typed(store.db) && SameLogs(old(store.db), store.db)
      ensures var g := Asked(old(View()), config, now);
              && (g.open ==> View() == g && store.db == old(store.db))
              && (!g.open ==> View() == if delivery.Answered? then SuccessRecorded(g) else FailureRecorded(g, config, failedAt))
              && (r.Ok? <==> !g.open && delivery.Answered?)
      ensures SameWhitelist(old(store.db), store.db)
      ensures (if (old(circuitBreaker) && now - old(lastFailure) <= config.resetTimeout) || delivery.RequestLost?
               then store.db == old(store.db)
               else forall f, w, t :: LimitAt(store.db, f, w, t) ==
                      if SameLimitKey(f, w, key + ":" + identifier, windowName) then if t <= serverTime + 86_400_000 then limit else 0
                      else LimitAt(old(store.db), f, w, t))
    {
      var open := IsCircuitBreakerOpen(now);
      if open {
        return Err("service unavailable: circuit breaker open");
      }
      r := store.SetLimit(FullKey(key, identifier), windowName, limit, serverTime, delivery);
      if r.Err? {
        IncrementFailure(failedAt);
      } else {
        ResetFailure();
      }
    }
  }
}
