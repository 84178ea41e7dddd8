/** The service's own failure guard and its decision, as values. */
module ServiceSpec {
  import opened Prelude
  import opened LimitResults
  import opened SlidingWindow
  import opened Storage

  /** The default limit of a window: how many requests, over how many milliseconds. */
  datatype Limit = Limit(requests: int, window: nat)

  datatype Config = Config(limits: map<string, Limit>, failureThreshold: nat, resetTimeout: int)

  datatype Guard = Guard(open: bool, failureCount: nat, lastFailure: int)

  /** The zero time the guard returns to when a success finds it closed. */
  const NEVER: int := 0

  const NEW_GUARD: Guard := Guard(false, 0, NEVER)

  predicate TimedOut(g: Guard, cfg: Config, now: int) {
    g.open && now - g.lastFailure > cfg.resetTimeout
  }

  /** What asking whether the guard is open makes of it. */
  function Asked(g: Guard, cfg: Config, now: int): Guard {
    if TimedOut(g, cfg, now) then g.(open := false, failureCount := 0) else g
  }

  function FailureRecorded(g: Guard, cfg: Config, now: int): Guard {
    Guard(g.open || g.failureCount + 1 >= cfg.failureThreshold, g.failureCount + 1, now)
  }

  function SuccessRecorded(g: Guard): Guard {
    Guard(g.open, 0, if g.open then g.lastFailure else NEVER)
  }

  function LimitInForce(default: Limit, custom: int): int {
    if custom > 0 then custom else default.requests
  }

  function Decide(count: nat, limit: int, window: Limit, windowName: string): (r: LimitFields)
    ensures r.limited <==> count > limit
    ensures r.remaining >= 0 && r.remaining >= limit - count
    ensures r.remaining > 0 ==> r.remaining + r.currentCount == r.limit
    ensures r.currentCount == count && r.limit == limit && r.resetAfter == window.window && r.window == windowName
  {
    LimitFields(count > limit, count, limit, if limit - count < 0 then 0 else limit - count, window.window, windowName)
  }

  /** The answer given without consulting any counter lets the caller through. */
  function Waved(windowName: string): (r: LimitFields)
    ensures !r.limited && r.window == windowName
    ensures r.currentCount == 0 && r.limit == 0 && r.remaining == 0 && r.resetAfter == 0
  {
    LimitFields(false, 0, 0, 0, 0, windowName)
  }

  /** What one check meets on its way: clock readings, the store's replies (None for an error) and the fate of its script. */
  datatype Encounter = Encounter(
    windowName: string, now: int, failedAt: int,
    whitelist: Option<bool>, custom: Option<int>,
    stamp: nat, countTime: int, delivery: Delivery)

  /** What a check leaves behind: the guard, the key's log, and its answer, None for an error. */
  datatype Checked = Checked(guard: Guard, log: Log, answer: Option<LimitFields>)

  function Failed(g: Guard, cfg: Config, log: Log, c: Encounter): Checked {
    Checked(FailureRecorded(g, cfg, c.failedAt), log, None)
  }

  /** What a check that has its limit leaves behind. */
  function AfterLimit(cfg: Config, g: Guard, log: Log, limit: int, c: Encounter): Checked
    requires c.windowName in cfg.limits
  {
    if c.delivery.RequestLost? then Failed(g, cfg, log, c)
    else
      var default := cfg.limits[c.windowName];
      var log' := Script(log, Step(c.stamp, c.countTime, default.window), true);
      if c.delivery.ReplyLost? then Failed(g, cfg, log', c)
      else Checked(SuccessRecorded(g), log', Some(Decide(|log'.stamps|, limit, default, c.windowName)))
  }

  /** A check no other call interferes with. */
  function Uninterrupted(cfg: Config, guard: Guard, log: Log, c: Encounter): Checked {
    var g := Asked(guard, cfg, c.now);
    if g.open then Checked(g, log, Some(Waved(c.windowName)))
    else if c.whitelist == None then Failed(g, cfg, log, c)
    else if c.whitelist.value then Checked(g, log, Some(Waved(c.windowName)))
    else if c.windowName !in cfg.limits then Checked(g, log, None)
    else if c.custom == None then Failed(g, cfg, log, c)
    else AfterLimit(cfg, g, log, LimitInForce(cfg.limits[c.windowName], c.custom.value), c)
  }
}
