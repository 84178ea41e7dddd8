/**
 The sliding-window script on one counter key: what one run of it does to the stored
 sorted set, and what any sequence of runs leaves there.
 */
module SlidingWindow {

  /** One execution of the script: the caller's stamp, the server's own clock and the window, in ms. */
  datatype Step = Step(stamp: nat, serverTime: int, window: nat)

  /** A counter key: the stamps stored as members, and the last server time at which the key is still there. */
  datatype Log = Log(stamps: set<nat>, deadline: int)

  /** Milliseconds the script adds to the window when it refreshes the key's expiry. */
  const GRACE: int := 1000

  const EMPTY: Log := Log({}, 0)

  function Deadline(s: Step): int {
    s.serverTime + s.window + GRACE
  }

  /** ZREMRANGEBYSCORE key 0 cutoff: both ends are inclusive. */
  function Prune(stamps: set<nat>, cutoff: int): set<nat> {
    set t | t in stamps && !(0 <= t <= cutoff)
  }

  /** The script. `expiring` says whether the server honours the key's deadline. */
  function Script(log: Log, s: Step, expiring: bool): Log {
    var live := if expiring && log.deadline < s.serverTime then {} else log.stamps;
    Log(Prune(live, s.stamp - s.window) + {s.stamp}, Deadline(s))
  }

  function Run(steps: seq<Step>, expiring: bool): Log {
    if steps == [] then EMPTY
    else Script(Run(steps[..|steps| - 1], expiring), steps[|steps| - 1], expiring)
  }

  /** What step k of the run returned. */
  function CountAt(steps: seq<Step>, k: nat, expiring: bool): nat
    requires k < |steps|
  {
    |Run(steps[..k + 1], expiring).stamps|
  }

  // ---------------------------------------------------------------- exact contents

  /** Step j neither prunes t nor finds the key expired. */
  ghost predicate Retains(steps: seq<Step>, j: nat, t: nat, expiring: bool)
    requires 0 < j < |steps|
  {
    && steps[j].stamp - steps[j].window < t
    && (expiring ==> steps[j].serverTime <= Deadline(steps[j - 1]))
  }

  /** Step k stamped t and every later step retained it. */
  ghost predicate LoggedAt(steps: seq<Step>, k: nat, t: nat, expiring: bool) {
    && k < |steps|
    && steps[k].stamp == t
    && forall j :: k < j < |steps| ==> Retains(steps, j, t, expiring)
  }

  lemma LastDeadline(steps: seq<Step>, expiring: bool)
    requires steps != []
    ensures Run(steps, expiring).deadline == Deadline(steps[|steps| - 1])
  {
  }

  /** Dropping the last step does not change what the earlier ones do. */
  lemma LoggedInPrefix(steps: seq<Step>, k: nat, t: nat, expiring: bool)
    requires k + 1 < |steps|
    ensures LoggedAt(steps, k, t, expiring) <==>
            LoggedAt(steps[..|steps| - 1], k, t, expiring) && Retains(steps, |steps| - 1, t, expiring)
  {
    var init := steps[..|steps| - 1];
    assert forall j :: 0 < j < |init| ==> Retains(init, j, t, expiring) == Retains(steps, j, t, expiring);
  }

  /**
   Exact contents after any run, with arbitrary stamps, clocks and windows, and whether or not
   keys expire: t is stored iff some step stamped it and every later step retained it.
   */
  lemma {:induction false} ExactContents(steps: seq<Step>, t: nat, expiring: bool)
    ensures t in Run(steps, expiring).stamps <==> exists k: nat :: LoggedAt(steps, k, t, expiring)
  {
    if steps != [] {
      var n := |steps| - 1;
      var init := steps[..n];
      ExactContents(init, t, expiring);
      if init != [] {
        LastDeadline(init, expiring);
      }
      if t == steps[n].stamp {
        assert LoggedAt(steps, n, t, expiring);
      } else {
        forall k | 0 <= k < n
          ensures LoggedAt(steps, k, t, expiring) <==>
                  LoggedAt(init, k, t, expiring) && Retains(steps, n, t, expiring)
        {
          LoggedInPrefix(steps, k, t, expiring);
        }
        if t in Run(steps, expiring).stamps {
          var k: nat :| LoggedAt(init, k, t, expiring);
          assert LoggedAt(steps, k, t, expiring);
        }
      }
    }
  }

  // ---------------------------------------------------------------- clocks

  /** Server times never go back and every stamp is within d of the server's clock. */
  ghost predicate Skewed(steps: seq<Step>, d: nat) {
    && (forall i, j :: 0 <= i <= j < |steps| ==> steps[i].serverTime <= steps[j].serverTime)
    && (forall i :: 0 <= i < |steps| ==> steps[i].serverTime - d <= steps[i].stamp <= steps[i].serverTime + d)
  }

  ghost predicate OneWindow(steps: seq<Step>, w: nat) {
    forall i :: 0 <= i < |steps| ==> steps[i].window == w
  }

  ghost predicate WindowsShrink(steps: seq<Step>) {
    forall i, j :: 0 <= i <= j < |steps| ==> steps[j].window <= steps[i].window
  }

  // ---------------------------------------------------------------- expiry is invisible

  lemma {:induction false} StampsBelowClock(steps: seq<Step>, d: nat, expiring: bool, t: nat)
    requires Skewed(steps, d)
    requires t in Run(steps, expiring).stamps
    ensures steps != [] && t <= steps[|steps| - 1].serverTime + d
  {
    ExactContents(steps, t, expiring);
    var k: nat :| LoggedAt(steps, k, t, expiring);
    assert steps[k].serverTime <= steps[|steps| - 1].serverTime;
  }

  /**
   Skew that the grace period covers. With a window of one millisecond a skew just past it still
   does no harm: the only stamp that could be missed is the one being added.
   */
  predicate GraceCovers(d: nat, w: nat) {
    2 * d <= GRACE || (w == 1 && 2 * d == GRACE + 2)
  }

  /** With clocks that close, everything lost to expiry was about to be pruned or added anyway. */
  lemma {:induction false} ExpiryInvisible(steps: seq<Step>, d: nat)
    requires Skewed(steps, d) && WindowsShrink(steps)
    requires forall i :: 0 <= i < |steps| ==> GraceCovers(d, steps[i].window)
    ensures Run(steps, true).stamps == Run(steps, false).stamps
  {
    if steps != [] {
      var n := |steps| - 1;
      var init, s := steps[..n], steps[n];
      ExpiryInvisible(init, d);
      if init != [] {
        LastDeadline(init, true);
        if Deadline(steps[n - 1]) < s.serverTime {
          forall t | t in Run(init, false).stamps
            ensures t <= s.stamp - s.window || t == s.stamp
          {
            StampsBelowClock(init, d, false, t);
            assert s.window <= steps[n - 1].window && GraceCovers(d, s.window);
          }
          assert Prune(Run(init, false).stamps, s.stamp - s.window) <= {s.stamp};
        }
      }
    }
  }

  /** Expiring and never-expiring stores agree on every run with one window and skew at most d. */
  ghost predicate ExpiryNeverShows(d: nat, w: nat) {
    forall steps: seq<Step> :: Skewed(steps, d) && OneWindow(steps, w) ==> SameContents(steps)
  }

  ghost predicate SameContents(steps: seq<Step>) {
    Run(steps, true).stamps == Run(steps, false).stamps
  }

  /** The run that shows an expiry whenever the clocks may differ by more than the grace period covers. */
  function LateStep(d: nat, w: nat): seq<Step>
    requires !GraceCovers(d, w)
  {
    var late := if w + GRACE + 1 == 2 * d then w + GRACE + 2 else w + GRACE + 1;
    [Step(2 * d, d, w), Step(late, d + late, w)]
  }

  lemma {:induction false} RunOfTwo(a: Step, b: Step, expiring: bool)
    ensures Run([a, b], expiring) == Script(Script(EMPTY, a, expiring), b, expiring)
  {
    assert [a, b][..1] == [a] && [a][..0] == [];
    assert Run([a], expiring) == Script(Run([], expiring), a, expiring);
  }

  lemma {:induction false} LateStepShowsExpiry(d: nat, w: nat)
    requires !GraceCovers(d, w)
    ensures Skewed(LateStep(d, w), d) && OneWindow(LateStep(d, w), w)
    ensures Run(LateStep(d, w), true).stamps != Run(LateStep(d, w), false).stamps
  {
    var steps := LateStep(d, w);
    RunOfTwo(steps[0], steps[1], true);
    RunOfTwo(steps[0], steps[1], false);
    assert 2 * d in Run(steps, false).stamps;
  }

  /** Expiry is invisible on every one-window run exactly when the grace period covers the skew. */
  lemma {:induction false} ExpiryNeverShowsIffClocksClose(d: nat, w: nat)
    ensures ExpiryNeverShows(d, w) <==> 2 * d <= 1000 || (w == 1 && 2 * d == 1002)
  {
    if GraceCovers(d, w) {
      forall steps: seq<Step> | Skewed(steps, d) && OneWindow(steps, w)
        ensures SameContents(steps)
      {
        ExpiryInvisible(steps, d);
      }
    } else {
      LateStepShowsExpiry(d, w);
      assert !SameContents(LateStep(d, w));
    }
  }
}
