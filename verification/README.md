# Verification model of the distributed rate limiter

This project models the stateful core of the rate limiter and proves what it promises.

- **Sliding window** (`SlidingWindow`, `Admission`, `AdmissionExact`): the Redis script that prunes, stamps, re-expires and counts a
  sorted set, run by several replicas with clocks of their own.
- **Store** (`Storage`, `StoreRuns`, `KeyEncoding`): one Redis keyspace, the commands of the store on it and any sequence
  of them, key construction, and the batch pipeline.
- **Circuit breaker** (`BreakerSpec`, `BreakerRuns`, `CircuitBreaker`): the closed/open/half-open machine with
  generations and any number of requests in flight.
- **Caches** (`LimitResults`, `CacheSpec`, `CacheHistory`, `CacheEviction`, `LocalCache`, `CacheReplay`, `CacheOwnership`,
  `TwoLevel`, `TwoLevelSources`, `MultiLevelCache`): expiry, eviction, asynchronous deletes, the two-phase janitor, the pool of recycled result objects,
  and the two-level cache.
- **Service** (`ServiceSpec`, `RateLimiterService`, `ServiceRuns`): the service's own failure guard and its decision,
  as an object and as a small-step interleaving of the calls of any number of replicas.

Each object is a class whose methods are proved against functions on values; the theorems are about all runs of
those functions. Times are integers: milliseconds in the store and the service, any unit elsewhere. Clock readings and
the fate of each network message are parameters. Counters are unbounded.

Where the code does less than one might expect, the project states exactly when it does meet the expectation:

- The limit holds over a full window only if all clocks agree. `SafeSpanIsExact` gives the longest stretch over which it
  holds for replicas d apart: w - 2d + 1 ms while 2d < w; beyond that two milliseconds, or a single one once 2d reaches
  w + 1000 or when w is at most 1.
- Checks in the same millisecond count once, because the member is the stamp: `FinalCountIsOperationsIffDistinct`. The
  bound on requests is therefore the limit times the checks to a millisecond: `RequestBound`, `RequestBoundAttained`.
- Expiry of a counter key is unobservable iff clocks are within half a second: `ExpiryNeverShowsIffClocksClose`.
- A breaker configured with `MaxRequests` 0 stays half-open for ever: `NeverWedgesIffConfigured`, `StuckHalfOpen`.
- A breaker that closes after half-open keeps its old expiry, so with an interval the next step clears its totals:
  `IntervalRestarts`, `ClosingIsWiped`.
- The local cache keeps its size bound iff it is never asked to store a new key while full with the empty key as oldest
  entry, or with no entry older than the clock reading: `BoundedIffNeverBlocked`, `EmptyKeyDefeatsEviction`,
  `TieDefeatsEviction`.
- The local cache copies an answer after releasing its lock, so the answer is what the looked-up object last received: the
  looked-up value, unless another answer was given in that recycled object in between: `InterruptedGet`, `StaleLookup`.
- A refill from the remote level restarts the lifetime at `defaultTTL`: `LifetimesKeptIffNoSlack`. A refused Set or a
  refill overtaken by a Set brings an older value back: `StalenessBound`, `FailedSetResurfaces`, `LateLandingResurfaces`.
- An answer of the two-level cache is the caller's own iff it was no refill: a refill stores the very object it returns.
  `AnswerIsOwnUnlessRefill`, `RefilledAnswerOverwritten`, `RefillComesUp`.
- Two pairs of key and identifier can share a full key when an identifier contains a colon: `FullKeyCollision`.

Redis semantics assumed: a key is gone once the server's clock has passed its deadline, a sorted set whose last member is removed is removed with
its deadline, and a script runs atomically at one server time.

## Model

| member | source | states |
|---|---|---|
| `SlidingWindow.ExactContents` | rate-limiter/internal/storage/redis.go:70-82 | after any run of the script, with arbitrary stamps, server clocks and windows, a stamp is stored iff some step stamped it and every later step neither pruned it (cutoff included) nor found the key expired; with expiry switched off the expiry clause vanishes |
| `SlidingWindow.ExpiryInvisible` | rate-limiter/internal/storage/redis.go:78-79 | with clocks the one-second grace covers and windows that do not grow, the expiring store holds the same stamps as one that never expires, after every run |
| `SlidingWindow.LateStepShowsExpiry` | rate-limiter/internal/storage/redis.go:78-79 | a legal two-step run, for any skew and window the grace does not cover, on which the expiry does show |
| `SlidingWindow.ExpiryNeverShowsIffClocksClose` | rate-limiter/internal/storage/redis.go:72-79 | the expiry is invisible on every one-window run exactly when twice the skew is at most 1000 ms (or is 1002 ms and the window a single millisecond) |
| `Admission.AdmissionBound` | rate-limiter/internal/storage/redis.go:66-83 | replicas within d of the server clock, all windows at least w: at most `limit` distinct stamps are admitted in any stretch of SafeSpan(d, w) ms, which is w itself when the clocks agree |
| `AdmissionExact.SafeSpanIsExact` | rate-limiter/internal/storage/redis.go:66-83 | that span is exact, for every skew and window: a span keeps the limit on every run iff it is at most SafeSpan(d, w), given in milliseconds: w when the clocks agree, w - 2d + 1 while 2d < w, then 2 while 2d < w + 1000 and w is at least 2, then 1 |
| `AdmissionExact.FastThenSlowAdmitted` | rate-limiter/internal/storage/redis.go:117-124 | the run that breaks any longer span when 2d < w: a fast replica prunes two slow stamps before a slow replica checks |
| `AdmissionExact.FastAmongSlowAdmitted` | rate-limiter/internal/storage/redis.go:117-124 | with skew of half a window or more, the run that breaks a span of three milliseconds |
| `AdmissionExact.NeighboursAdmitted` | rate-limiter/internal/storage/redis.go:70-79 | with a one-millisecond window, or skew that outruns the expiry, the run that breaks a span of two |
| `AdmissionExact.OneWindowApartAdmitted` | rate-limiter/internal/storage/redis.go:70-73 | with agreeing clocks the inclusive prune admits a check exactly one window after the first |
| `Admission.RequestBound` | rate-limiter/internal/storage/redis.go:75-76 | when no more than m admitted checks of the stretch share a millisecond, at most m times the limit are admitted in it |
| `AdmissionExact.RequestBoundAttained` | rate-limiter/internal/storage/redis.go:75-82 | a run with agreeing clocks and m checks to a millisecond of which m times the limit are admitted within one window |
| `Admission.CountWithinAttempts` | rate-limiter/internal/storage/redis.go:70-82 | if no earlier stamp is more than h ahead, a count is at most the attempts, denied ones included, stamped in the check's own window or at most h ahead |
| `Admission.NeverFalselyLimited` | rate-limiter/internal/service/ratelimiter.go:108-127 | on runs whose stamps never go back, with any mix of windows, a caller within the limit of every window is never limited |
| `Admission.NeverFalselyLimitedSkewed` | rate-limiter/internal/service/ratelimiter.go:108-127 | the same for replicas with skew d, allowing for attempts up to 2d ahead |
| `Admission.FinalCountIsOperationsIffDistinct` | rate-limiter/test/integration/redis_test.go:295-298 | after any run the final count equals the number of operations iff no two of them shared a millisecond and none fell out of a later one's window or deadline |
| `KeyEncoding.SplitLast` | rate-limiter/internal/storage/redis.go:194-195 | splitting at the last colon fails iff there is none, and otherwise gives the text around it with a colon-free tail |
| `KeyEncoding.LimitKeyRoundTrip` | rate-limiter/internal/storage/redis.go:194-195 | the limit key, whose text is given, decodes to its key, identifier and window iff identifier and window have no colon |
| `KeyEncoding.PlainKeyRoundTrip` | rate-limiter/internal/storage/redis.go:120-121 | stripped of their prefixes counter and whitelist keys are the full key, which decodes to key and identifier iff the identifier has no colon |
| `KeyEncoding.LimitKeyInjective` | rate-limiter/internal/storage/redis.go:216-217 | for colon-free windows limit keys are equal iff full key and window are |
| `KeyEncoding.PlainKeysInjective` | rate-limiter/internal/storage/redis.go:142-143 | counter keys, and whitelist keys, are equal iff the full keys are |
| `KeyEncoding.NamespacesDisjoint` | rate-limiter/internal/storage/redis.go:17-19 | no key of one of the three kinds is ever a key of another kind |
| `KeyEncoding.FullKeyCollision` | rate-limiter/internal/service/ratelimiter.go:54 | for arbitrary identifiers, exactly when two (key, identifier) pairs share a full key |
| `KeyEncoding.FullKeyInjective` | rate-limiter/internal/handler/validation.go:25-45 | for identifiers without a colon, as all those the validator accepts are, full keys are equal iff both parts are |
| `Storage.CounterChangeIsLocal` | rate-limiter/internal/storage/redis.go:120-124 | changing one counter key changes no limit, no whitelisting and no other counter |
| `Storage.WhitelistChangeIsLocal` | rate-limiter/internal/storage/redis.go:164-179 | changing one whitelist key changes no counter, no limit and nobody else's whitelisting |
| `Storage.LimitChangeIsLocal` | rate-limiter/internal/storage/redis.go:194-198 | changing one limit key changes no counter and no whitelisting, and only those limits whose joined full key and window are the same text; with colon-free windows no other limit |
| `Storage.ScriptIdempotent` | rate-limiter/internal/storage/redis.go:66-83 | running the script again at the same stamp before the deadline changes only the deadline |
| `Storage.BatchIsOneCallPerKey` | rate-limiter/internal/storage/redis.go:248-279 | with no expiry during the pipeline, each listed key ends with the members of one call at the batch's stamp and the deadline of its last command in the list, and every other key keeps its log |
| `Storage.BatchCountIsSingleCount` | rate-limiter/internal/storage/redis.go:248-279 | so each count is the one a single call on the old log would have returned |
| `Storage.BatchOrderIrrelevant` | rate-limiter/internal/storage/redis.go:257-261 | permuting or repeating the listed keys changes no members and no count |
| `Storage.UntouchedSince` | rate-limiter/internal/storage/redis.go:258-261 | commands for other keys leave a key's log alone |
| `Storage.RedisStorage.RunScript` | rate-limiter/internal/storage/redis.go:66-83 | the four commands, with lazy expiry and the removal of emptied keys: the log then holds the stamp and the earlier ones newer than stamp - window if the key was still there, until window + 1000 ms later, and the size is returned; no other key changes |
| `Storage.RedisStorage.IncrementAndCount` | rate-limiter/internal/storage/redis.go:108-130 | one such execution on the key's counter unless the request was lost; the count is returned iff the reply arrives; limits and whitelist untouched |
| `Storage.RedisStorage.IsWhitelisted` | rate-limiter/internal/storage/redis.go:133-152 | answers whether the entry under the whitelist prefix and full key is present and unexpired, or an error |
| `Storage.RedisStorage.UpdateWhitelist` | rate-limiter/internal/storage/redis.go:155-182 | whitelisted from then on exactly for 86400000 ms, or not at all; nothing else in the store changes |
| `Storage.RedisStorage.SetLimit` | rate-limiter/internal/storage/redis.go:185-204 | the limit reads back exactly for 86400000 ms; every limit under another Redis key, all counters and the whitelist are unchanged |
| `Storage.RedisStorage.GetLimit` | rate-limiter/internal/storage/redis.go:207-236 | returns the unexpired number under the limit prefix, full key and window, 0 when there is none |
| `Storage.RedisStorage.BatchIncrementAndCount` | rate-limiter/internal/storage/redis.go:239-280 | each counter holds what the executed commands made of it; on success there is one result per distinct key, the size of that key's log, and without expiry meanwhile the count of a single call on the log before |
| `Storage.RedisStorage.ExecPipeline` | rate-limiter/internal/storage/redis.go:263-267 | commands execute in order, and a broken pipeline leaves a prefix executed |
| `Storage.RedisStorage.CollectReplies` | rate-limiter/internal/storage/redis.go:269-277 | each key's result is the reply to the last command queued for it |
| `StoreRuns.Replay` | rate-limiter/internal/storage/redis.go:108-280 | after any commands, answered, lost or with their replies lost: each counter is the script run on its own key's executions, and limits and whitelist read as the latest command that reached the store left them |
| `StoreRuns.LimitAfter` | rate-limiter/internal/storage/redis.go:185-236 | after any commands GetLimit answers the latest limit that reached the store for that key and window if it is at most 86400000 ms old, and 0 otherwise |
| `StoreRuns.WhitelistedAfter` | rate-limiter/internal/storage/redis.go:133-182 | after any commands a key is whitelisted iff it was added at most 86400000 ms ago and not removed since |
| `StoreRuns.CountAfter` | rate-limiter/internal/storage/redis.go:108-130 | after any commands, batches included, a count on a key is the script's on the run of that key's executions |
| `StoreRuns.PipelineContinues` | rate-limiter/internal/storage/redis.go:257-267 | a pipeline continues, on each of its keys, the run of single executions |
| `BreakerRuns.AdmissionIsExact` | rate-limiter/internal/circuitbreaker/circuitbreaker.go:155-172 | in every reachable state a request is admitted iff the breaker is closed, half-open with fewer requests than maxRequests, or open past t + timeout with maxRequests at least 1; it is told the breaker is open iff it is open up to then |
| `BreakerRuns.HalfOpenConservation` | rate-limiter/internal/circuitbreaker/circuitbreaker.go:155-274 | in every reachable half-open state, requests = probes in flight + consecutive successes, no failure, fewer successes than maxRequests and no more requests than that |
| `BreakerRuns.NeverWedges` | rate-limiter/internal/circuitbreaker/circuitbreaker.go:166-171 | a half-open breaker with no probe in flight admits the next request |
| `BreakerRuns.NeverWedgesIffConfigured` | rate-limiter/internal/circuitbreaker/circuitbreaker.go:87-107 | that holds on every run iff maxRequests is at least 1, a value the constructor does not supply by default |
| `BreakerRuns.StuckHalfOpen` | rate-limiter/internal/circuitbreaker/circuitbreaker.go:155-192 | with maxRequests 0, a breaker once half-open is left unchanged and admits nothing for as long as it is not reset or forced |
| `BreakerRuns.ClosesOnFullEvidence` | rate-limiter/internal/circuitbreaker/circuitbreaker.go:207-215 | without Reset or ForceClose, half-open closes iff the step is the last missing success, and then exactly maxRequests probes were admitted, all succeeded and none is in flight |
| `BreakerRuns.StaleOutcomesErased` | rate-limiter/internal/circuitbreaker/circuitbreaker.go:175-192 | replacing every completion of an older generation by a poll gives a legal run with the same breaker, counts, notifications and admissions |
| `BreakerRuns.ErasedThroughout` | rate-limiter/internal/circuitbreaker/circuitbreaker.go:175-192 | and the two runs agree after every step |
| `BreakerRuns.ErasedHasNoStale` | rate-limiter/internal/circuitbreaker/circuitbreaker.go:182-185 | the erased run has no stale completion left |
| `BreakerRuns.OpenDwell` | rate-limiter/internal/circuitbreaker/circuitbreaker.go:264-290 | open since t, without Reset or ForceClose: no step up to t + timeout changes the breaker or admits anything |
| `BreakerRuns.FirstProbeAdmitted` | rate-limiter/internal/circuitbreaker/circuitbreaker.go:158-171 | of a reachable open breaker, a request is rejected up to t + timeout and the first one after it half-opens the breaker and is admitted |
| `BreakerRuns.FailuresAreTrailingRun` | rate-limiter/internal/circuitbreaker/circuitbreaker.go:195-240 | consecutive failures and successes are the lengths of the runs that end the outcomes counted since the last clearing |
| `BreakerRuns.ClosedBelowSix` | rate-limiter/internal/circuitbreaker/circuitbreaker.go:63-65 | with the default rule every reachable closed state has at most five consecutive failures |
| `BreakerRuns.TripsExactlyAtSix` | rate-limiter/internal/circuitbreaker/circuitbreaker.go:219-230 | with the default rule a closed breaker trips iff a counted failure extends the trailing failures to six |
| `BreakerRuns.TotalsCountOutcomes` | rate-limiter/internal/circuitbreaker/circuitbreaker.go:258-262 | the totals survive state changes and count the outcomes taken into account since the last Reset or elapsed interval |
| `BreakerRuns.IntervalRestarts` | rate-limiter/internal/circuitbreaker/circuitbreaker.go:195-316 | in every reachable closed state the next step clears the counts iff an interval is configured and has passed since the latest counted success while closed, clearing or Reset, or the timeout has since an opening that came later |
| `BreakerRuns.ClosingIsWiped` | rate-limiter/internal/circuitbreaker/circuitbreaker.go:207-284 | so with an interval configured a breaker that has just left half-open for closed, other than by Reset, loses its totals on the very next step |
| `BreakerRuns.NotificationsFollowState` | rate-limiter/internal/circuitbreaker/circuitbreaker.go:242-274 | the reported changes form a path from closed to the present state, one per generation |
| `CircuitBreaker.CircuitBreaker.constructor` | rate-limiter/internal/circuitbreaker/circuitbreaker.go:88-115 | starts closed in generation 0, with the default trip rule when none is given |
| `CircuitBreaker.CircuitBreaker.Execute` | rate-limiter/internal/circuitbreaker/circuitbreaker.go:118-129 | runs the request iff the breaker is closed, half-open below maxRequests, or open past its expiry with maxRequests at least 1, and reports the outcome under the admission's generation |
| `CircuitBreaker.CircuitBreaker.BeforeRequest` | rate-limiter/internal/circuitbreaker/circuitbreaker.go:155-172 | admits iff closed, half-open below maxRequests, or open past the expiry with maxRequests at least 1; new state, generation and request count are stated outright, and it is the step the run theorems are about |
| `CircuitBreaker.CircuitBreaker.AfterRequest` | rate-limiter/internal/circuitbreaker/circuitbreaker.go:175-192 | refreshes the state, ignores an outcome of another generation, and lets one of the present generation count and close or open the breaker |
| `CircuitBreaker.CircuitBreaker.OnSuccess` | rate-limiter/internal/circuitbreaker/circuitbreaker.go:195-217 | counts the success, renews the interval when closed, closes a half-open breaker at maxRequests consecutive successes |
| `CircuitBreaker.CircuitBreaker.OnFailure` | rate-limiter/internal/circuitbreaker/circuitbreaker.go:220-240 | counts the failure and opens when half-open or when the trip rule says so |
| `CircuitBreaker.CircuitBreaker.SetState` | rate-limiter/internal/circuitbreaker/circuitbreaker.go:243-274 | nothing for the same state; otherwise clears the run counts, starts the timeout when opening, takes a new generation and reports the change |
| `CircuitBreaker.CircuitBreaker.CurrentState` | rate-limiter/internal/circuitbreaker/circuitbreaker.go:277-294 | clears all counts when the interval has elapsed, half-opens when the timeout has |
| `CircuitBreaker.CircuitBreaker.CheckState` | rate-limiter/internal/circuitbreaker/circuitbreaker.go:137-144 | asking for the state is itself such a step |
| `CircuitBreaker.CircuitBreaker.Reset` | rate-limiter/internal/circuitbreaker/circuitbreaker.go:305-316 | closed, with no counts and a full interval ahead |
| `CircuitBreaker.CircuitBreaker.ForceOpen` | rate-limiter/internal/circuitbreaker/circuitbreaker.go:319-326 | the state change to open, if it is one |
| `CircuitBreaker.CircuitBreaker.ForceClose` | rate-limiter/internal/circuitbreaker/circuitbreaker.go:329-336 | the state change to closed, if it is one |
| `CacheHistory.HistoryIsLatestSet` | rate-limiter/internal/cache/cache.go:94-139 | the plain history holds an item iff some Set put it there and no later Set, Delete or Clear touched the key |
| `CacheHistory.EntriesAgreeWithHistory` | rate-limiter/internal/cache/cache.go:63-232 | under any interleaving of evictions, late asynchronous deletes and two-phase sweeps, every entry is the history's entry |
| `CacheHistory.HitIsLatestSet` | rate-limiter/internal/cache/cache.go:63-84 | an entry a lookup finds unexpired is that of the latest Set on its key, with no Delete or Clear since |
| `CacheHistory.ScansInThePast` | rate-limiter/internal/cache/cache.go:207-218 | a sweep still due judges expiry at a time the clock has already passed |
| `CacheHistory.MissesExplained` | rate-limiter/internal/cache/cache.go:207-232 | an entry the history would still serve is a hit iff it was neither evicted nor asynchronously deleted since its Set: the janitor never takes a servable entry |
| `CacheHistory.SweptClean` | rate-limiter/internal/cache/cache.go:207-231 | after a scan and its sweep, at any later time, an entry that had expired when the scan was taken is only there if its key was set since |
| `CacheReplay.Replay` | rate-limiter/internal/cache/cache.go:63-232 | any calls on a new cache object, with asynchronous deletes and janitor phases anywhere among them, take it through a legal run of the cache as a value, recording every call |
| `CacheReplay.GetAfter` | rate-limiter/internal/cache/cache.go:63-91 | so after any calls the object's Get answers with the value of the latest Set on its key, unexpired, and misses a good one only if that was evicted or deleted late |
| `CacheEviction.GrowsIffUnevictable` | rate-limiter/internal/cache/cache.go:120-137 | a full cache can grow on a new key iff the empty key is an oldest entry older than the reading, or no entry is older than the reading |
| `CacheEviction.BoundedIffNeverBlocked` | rate-limiter/internal/cache/cache.go:119-137 | for any calls, every run of them stays within max(maxSize, 1) iff no run of them meets a Set of a new key on a full cache in such a state |
| `CacheEviction.SizeStaysBounded` | rate-limiter/internal/cache/cache.go:119-137 | with atomic Sets of non-empty keys, and anything else interleaved, the size never exceeds max(maxSize, 1) |
| `CacheEviction.EvictsTheOldest` | rate-limiter/internal/cache/cache.go:120-135 | an evicted key was last updated strictly before every surviving entry |
| `CacheEviction.EmptyKeyDefeatsEviction` | rate-limiter/internal/cache/cache.go:122-134 | an entry under the empty key blocks eviction and the bound fails |
| `CacheEviction.TieDefeatsEviction` | rate-limiter/internal/cache/cache.go:122-134 | two Sets within one clock reading do so too |
| `CacheEviction.SurvivorsAreFront` | rate-limiter/internal/cache/cache.go:108-138 | without deletes or expiry the cached keys are the first max(maxSize, 1) of the keys by recency |
| `CacheEviction.SurvivorsAreNewest` | rate-limiter/internal/cache/cache.go:108-138 | the same without a list: a key is cached iff fewer distinct other keys than the bound were set since its own latest Set |
| `LocalCache.LocalCache.TakeFromPool` | rate-limiter/internal/cache/cache.go:50-52 | the pool gives a fresh object or one that was pooled, in either case one nobody else holds, and gives it up |
| `LocalCache.LocalCache.Get` | rate-limiter/internal/cache/cache.go:63-91 | undivided, hits exactly on unexpired entries with the entry's value, in an object held by nobody else; no entry and no earlier answer changes; an expired entry starts one asynchronous delete |
| `LocalCache.LocalCache.Lookup` | rate-limiter/internal/cache/cache.go:64-85 | the half under the lock: finds exactly an unexpired entry, and starts a delete of an expired one |
| `LocalCache.LocalCache.CopyOut` | rate-limiter/internal/cache/cache.go:87-90 | the half without it: what the object of the entry holds by then is copied into a recycled or fresh object that no one else holds |
| `CacheOwnership.Play` | rate-limiter/internal/cache/cache.go:63-232 | over any interleaving of lookups, copies, Sets, deletes, clears and sweeps, an object changes only by being given out as an answer, its value is the last one so written, and only objects the cache held or made are given out |
| `CacheOwnership.InterruptedGet` | rate-limiter/internal/cache/cache.go:72-90 | with any such steps between lookup and copy, the answer is the looked-up value unless another answer was given in that very object meanwhile, and then it is the last such value; without a delete, clear or sweep it is always the looked-up value |
| `CacheOwnership.StaleLookup` | rate-limiter/internal/cache/cache.go:86-89 | from any state with a hit, an interrupted Get can answer with any value set by somebody else |
| `CacheOwnership.Overwrite` | rate-limiter/internal/cache/cache.go:154-157 | deleting a key and answering from the pool can leave any value in the object its entry had |
| `LocalCache.LocalCache.Set` | rate-limiter/internal/cache/cache.go:94-139 | the contents become those of the put step, with a victim the eviction loop may choose; the object passes from the caller to the cache |
| `LocalCache.LocalCache.FindOldest` | rate-limiter/internal/cache/cache.go:122-130 | the loop over the map settles on an entry older than now that no other entry precedes, or on the empty string when there is none |
| `CacheSpec.PutStores` | rate-limiter/internal/cache/cache.go:119-138 | the item is stored; when the cache was full and the key new exactly the entry chosen by the loop has left, an oldest one older than the reading, or nothing if that has the empty key or does not exist; no other entry changes |
| `LocalCache.LocalCache.Insert` | rate-limiter/internal/cache/cache.go:116-138 | the section under the lock does exactly that, and the object passes to the cache |
| `LocalCache.LocalCache.MakeRoom` | rate-limiter/internal/cache/cache.go:119-135 | evicts exactly when the cache is full, the key is new and a non-empty victim was found |
| `LocalCache.LocalCache.Remove` | rate-limiter/internal/cache/cache.go:154-158 | the entry goes and its object is pooled, once |
| `LocalCache.LocalCache.Delete` | rate-limiter/internal/cache/cache.go:142-161 | the key is gone, unless the context was cancelled; its object is pooled |
| `LocalCache.LocalCache.RunAsyncDelete` | rate-limiter/internal/cache/cache.go:81-84 | a delete started by Get runs whatever happened to the key since |
| `LocalCache.LocalCache.Clear` | rate-limiter/internal/cache/cache.go:164-183 | nothing is left, and every object that was in an entry is pooled once |
| `LocalCache.LocalCache.PoolAll` | rate-limiter/internal/cache/cache.go:176-179 | the loop adds each entry's object to the pool exactly once |
| `LocalCache.LocalCache.ScanExpired` | rate-limiter/internal/cache/cache.go:207-218 | lists exactly the keys present whose expiry the captured time has passed |
| `LocalCache.LocalCache.SweepExpired` | rate-limiter/internal/cache/cache.go:220-231 | a key stays iff it was there and was not both listed and expired at the captured time; the entries that stay are unchanged and the objects of the others are pooled, once each |
| `TwoLevel.OriginIsLatestSet` | rate-limiter/internal/cache/cache.go:284-329 | the origin of a key is its latest Set not deleted or cleared since |
| `TwoLevel.StalenessBound` | rate-limiter/internal/cache/cache.go:252-328 | on any run, with refills landing at any later time: unless the latest call on the key reported an error or a refill fetched before it landed after it, an answer for the key is the latest value set and not deleted, served at most defaultTTL plus the refill time past its lifetime, or not past it when a level is missing |
| `TwoLevel.UndividedGet` | rate-limiter/internal/cache/cache.go:252-274 | a Get that misses locally and hits remotely is its fetch and its refill run back to back |
| `TwoLevel.LateRefillRun` | rate-limiter/internal/cache/cache.go:263-274 | the run that attains that bound: the local entry expires just before the remote one, which refills it |
| `TwoLevel.LifetimesKeptIffNoSlack` | rate-limiter/internal/cache/cache.go:104-106 | lifetimes are kept on every run iff that slack is zero |
| `TwoLevel.FailedSetResurfaces` | rate-limiter/internal/cache/cache.go:284-305 | after a Set the remote level refused, the older value is served again once the newer one has expired locally |
| `TwoLevel.LateLandingResurfaces` | rate-limiter/internal/cache/cache.go:265-269 | a refill that lands after a newer Set hides the newer value |
| `TwoLevel.CountersCountGets` | rate-limiter/internal/cache/cache.go:251-281 | hits and misses add up to the Gets, and a Get counts as a hit iff it was served |
| `TwoLevelSources.RemoteHoldsLatest` | rate-limiter/internal/cache/cache.go:284-353 | on any run, whatever failed, the remote level holds an item iff the latest Set it accepted for the key put it there and no Delete, Clear or loss took it since |
| `TwoLevelSources.LocalHoldsLatest` | rate-limiter/internal/cache/cache.go:252-353 | the local level holds an item iff the latest Set it accepted or remote answer it stored for the key put it there and no accepted Delete or Clear, late delete, sweep or eviction took it since |
| `TwoLevelSources.AnswerExplained` | rate-limiter/internal/cache/cache.go:252-281 | every answer of a Get: the local level's item if still fresh at the local reading, else the remote level's if fresh at the remote one, else none |
| `TwoLevelSources.RemoteAnswersAlone` | rate-limiter/internal/cache/cache.go:254-275 | without a local level the remote level's latest accepted Set answers, while fresh |
| `TwoLevelSources.RefusedDelete` | rate-limiter/internal/cache/cache.go:308-329 | a Delete the remote level refuses still empties the local one, so the remote level answers next |
| `TwoLevelSources.UnheededDelete` | rate-limiter/internal/cache/cache.go:308-329 | a Delete only the local level refuses leaves its item answering while fresh |
| `MultiLevelCache.MultiLevelCache.Get` | rate-limiter/internal/cache/cache.go:252-281 | both levels, the counters and the answer are those of the two-level step; the answer is never pooled, and it is an entry's object iff the Get missed locally and stored a remote answer |
| `MultiLevelCache.MultiLevelCache.Set` | rate-limiter/internal/cache/cache.go:284-305 | both levels as in the two-level step, with an error iff a level refused |
| `MultiLevelCache.MultiLevelCache.Delete` | rate-limiter/internal/cache/cache.go:308-329 | the key leaves every level that accepted the call, with an error iff one refused |
| `MultiLevelCache.MultiLevelCache.Clear` | rate-limiter/internal/cache/cache.go:332-353 | every level that accepted the call is empty, with an error iff one refused |
| `MultiLevelCache.AnswerIsOwnUnlessRefill` | rate-limiter/internal/cache/cache.go:252-281 | unless the Get refilled the local level, its answer keeps its value and is never held or given out again, whatever steps of whatever calls follow |
| `MultiLevelCache.RefilledAnswerOverwritten` | rate-limiter/internal/cache/cache.go:263-274 | whenever it did refill, from any state, later calls can leave any value in the answer the caller still holds |
| `MultiLevelCache.RefillComesUp` | rate-limiter/internal/cache/cache.go:252-329 | and such a refill is reached from an empty cache by one Set and one Get |
| `ServiceSpec.Decide` | rate-limiter/internal/service/ratelimiter.go:118-132 | limited iff the count exceeds the limit; remaining is the larger of 0 and limit - count; count, limit, window length and name are passed on |
| `ServiceSpec.Waved` | rate-limiter/internal/service/ratelimiter.go:57-86 | the answer without a counter never limits and carries zeros |
| `RateLimiterService.RateLimiterService.constructor` | rate-limiter/internal/service/ratelimiter.go:38-49 | closed guard, threshold five, ten seconds |
| `RateLimiterService.RateLimiterService.IsCircuitBreakerOpen` | rate-limiter/internal/service/ratelimiter.go:176-196 | open iff it was and no more than the timeout has passed since the last failure; closing clears the count |
| `RateLimiterService.RateLimiterService.IncrementFailure` | rate-limiter/internal/service/ratelimiter.go:199-209 | counts and dates the failure, and opens the guard from the threshold on |
| `RateLimiterService.RateLimiterService.ResetFailure` | rate-limiter/internal/service/ratelimiter.go:212-222 | clears the count, leaves an open guard open with its date, and clears the date of a closed one |
| `RateLimiterService.RateLimiterService.CheckRateLimit` | rate-limiter/internal/service/ratelimiter.go:52-133 | lets the caller through while the guard is open or when whitelisted, errs when a store call fails or the window is unknown, and otherwise answers count, limit (the custom one if positive, else the default), remaining max(0, limit - count) and limited iff count > limit; the guard and the key's log step as in an uninterrupted check, nothing else in the store changes, and nothing at all when the guard is open |
| `RateLimiterService.RateLimiterService.UpdateWhitelist` | rate-limiter/internal/service/ratelimiter.go:136-152 | nothing while the guard is open or when the request is lost; otherwise whitelisted exactly for 86400000 ms or not at all, nobody else affected; the guard records the outcome |
| `RateLimiterService.RateLimiterService.SetLimit` | rate-limiter/internal/service/ratelimiter.go:155-171 | nothing while the guard is open or when the request is lost; otherwise the limit reads back for 86400000 ms and no limit under another Redis key changes; the guard records the outcome |
| `ServiceRuns.ClosedBelowThreshold` | rate-limiter/internal/service/ratelimiter.go:199-222 | under any interleaving of any replicas a closed guard's count is the failures its replica recorded since its last recorded success or timeout reset, and below the threshold |
| `ServiceRuns.TripsAtThreshold` | rate-limiter/internal/service/ratelimiter.go:199-209 | a closed guard opens iff the step records the failure of its own replica that brings those to the threshold; whitelist hits and bad windows are neutral |
| `ServiceRuns.ClosesAfterTimeout` | rate-limiter/internal/service/ratelimiter.go:176-196 | an open guard closes iff a call of its replica asks more than resetTimeout after that replica's latest recorded failure |
| `ServiceRuns.FallbackTouchesNothing` | rate-limiter/internal/service/ratelimiter.go:56-68 | a call that found the guard open never reached the store at any step |
| `ServiceRuns.AnswersExplained` | rate-limiter/internal/service/ratelimiter.go:52-133 | for every interleaving, an answer is either what the key's count says of the custom limit read for the call, if positive, or else of the window's own, or it lets the caller through with zeros, and then the call found the whitelist entry or an open guard: only a count ever limits |
| `ServiceRuns.ServiceAdmissionBound` | rate-limiter/internal/service/ratelimiter.go:52-133 | for every interleaving of the calls of all replicas, with replies lost before or after the fact, the calls a key's counter let through carry at most `limit` distinct stamps in any stretch of SafeSpan(d, w) |
| `ServiceRuns.ServiceRequestBound` | rate-limiter/internal/service/ratelimiter.go:52-133 | and are at most m times `limit` calls when no more than m of them share a millisecond |
| `ServiceRuns.ApartScriptsApartCalls` | rate-limiter/internal/service/ratelimiter.go:108-113 | no two decisions come from one script, so when the scripts on a key are all apart m is 1 |
| `ServiceRuns.UninterruptedCheck` | rate-limiter/internal/service/ratelimiter.go:52-133 | from any reachable state, with any calls in flight, a check whose steps are not interrupted finishes with its replica's guard, the log and the answer of the object's method, and changes no other guard, log or call |
| `ServiceRuns.LimitedOnlyOverLimit` | rate-limiter/internal/service/ratelimiter.go:108-127 | for every interleaving, a call answered "limited" had more attempts than its limit in its own window, or at most h ahead of it |

## Left out

- Lock mechanics, including the read-to-write hand-off in `isCircuitBreakerOpen` and `State` updating fields under a read
  lock: each locked section is one atomic step.
- Panics inside a request passed to `Execute`: a request that never completes is simply never completed.
- Errors of single script commands inside a successful pipeline, script caching and client retries: a command is answered, lost on the way
  there, or lost on the way back.
- Cancelled contexts in the store, the service and the two-level `Get`; the local cache's calls do model them.
- RateLimiterService.RateLimiterService.IsCircuitBreakerOpen: does not model the lock hand-off, whose deferred RUnlock
  meets a mutex already unlocked; the contract takes the read, the re-check and the reset as one step.
- CacheHistory.HitIsLatestSet: speaks of the lookup; what the copy made later answers is the subject of `CacheOwnership`.
- MultiLevelCache.MultiLevelCache.Get: takes the local lookup and its copy, and the fetch and the refill, as one step each;
  `CacheOwnership.InterruptedGet` and the split Get of `TwoLevel` treat what comes in between.
- The two levels of one two-level Set, Delete or Clear change in one step of `TwoLevel`.
- A copy that reads an object while another copy writes it: each copy of a result is one step.
- Negative windows, stamps before the epoch and stamps too large for a double.
- The remote cache's own implementation is not part of the repository: `RemoteCache` is a stand-in that keeps the same expiry contract.
- Starting and stopping the janitor, hit rates as floating-point numbers, metrics, logging, tracing and health reporting.
- HTTP and gRPC handlers, authentication, configuration and the fallback decorators.
- The parsing of stored limits: a limit is stored and read back as an integer.
- The wrap-around of 64-bit counters and generations.
