/**
 What the sliding-window log promises its callers: an upper bound on what several replicas
 with different clocks may admit, no false denials, and exact totals.
 */
module Admission {
  import opened Prelude
  import opened SlidingWindow

  /** A check is limited when its count exceeds the limit. */
  predicate Admitted(steps: seq<Step>, limit: nat, k: nat)
    requires k < |steps|
  {
    CountAt(steps, k, true) <= limit
  }

  /** The admitted checks whose stamps fall in (a, b]. */
  function AdmittedIn(steps: seq<Step>, limit: nat, a: int, b: int): set<nat> {
    set k: nat | k < |steps| && Admitted(steps, limit, k) && a < steps[k].stamp <= b
  }

  function StampsAt(steps: seq<Step>, positions: set<nat>): set<nat>
    requires forall i :: i in positions ==> i < |steps|
  {
    set i | i in positions :: steps[i].stamp
  }

  /** There are at most as many stamps as steps, and as many when no two steps share one. */
  lemma {:induction false} StampsAtSize(steps: seq<Step>, positions: set<nat>)
    requires forall i :: i in positions ==> i < |steps|
    ensures |StampsAt(steps, positions)| <= |positions|
    ensures DistinctStamps(steps) ==> |StampsAt(steps, positions)| == |positions|
  {
    if positions == {} {
      assert StampsAt(steps, positions) == {};
    } else {
      var p :| p in positions;
      var rest := positions - {p};
      StampsAtSize(steps, rest);
      assert StampsAt(steps, positions) == StampsAt(steps, rest) + {steps[p].stamp};
    }
  }

  ghost predicate DistinctStamps(steps: seq<Step>) {
    forall i, j :: 0 <= i < j < |steps| ==> steps[i].stamp != steps[j].stamp
  }

  /** The span while clocks differ by less than half a window. */
  function WideSpan(d: nat, w: nat): int {
    if d == 0 then w else w - 2 * d + 1
  }

  /**
   Longest stretch of stamps, in ms, over which the limit holds for replicas d apart. Once clocks
   may differ by half a window, only two milliseconds are left, and one when even a key's expiry can
   be outrun or the window is a single millisecond.
   */
  function SafeSpan(d: nat, w: nat): int {
    if 2 * d < w then WideSpan(d, w)
    else if w >= 2 && 2 * d < w + GRACE then 2
    else 1
  }

  // ---------------------------------------------------------------- upper bound

  /** Replicas at most d from the server's clock, every check over at least w. */
  ghost predicate Fleet(steps: seq<Step>, d: nat, w: nat) {
    && Skewed(steps, d)
    && forall j :: 0 <= j < |steps| ==> w <= steps[j].window
  }

  predicate Prunes(s: Step, t: nat) {
    t <= s.stamp - s.window
  }

  /** A stamp that every step up to k retained is logged when k counts. */
  lemma {:induction false} LoggedIfRetained(steps: seq<Step>, i: nat, k: nat)
    requires i <= k < |steps|
    requires forall j :: i < j <= k ==> Retains(steps, j, steps[i].stamp, true)
    ensures steps[i].stamp in Run(steps[..k + 1], true).stamps
  {
    var prefix := steps[..k + 1];
    forall j | i < j < |prefix|
      ensures Retains(prefix, j, steps[i].stamp, true)
    {
      assert prefix[j] == steps[j] && prefix[j - 1] == steps[j - 1];
      assert Retains(steps, j, steps[i].stamp, true);
    }
    assert LoggedAt(prefix, i, steps[i].stamp, true);
    ExactContents(prefix, steps[i].stamp, true);
  }

  /** Between two steps whose stamps are close no key can expire. */
  lemma {:induction false} LoggedUnlessPruned(steps: seq<Step>, d: nat, w: nat, i: nat, k: nat)
    requires Fleet(steps, d, w) && i <= k < |steps|
    requires steps[k].stamp - steps[i].stamp + 2 * d <= w + GRACE
    requires forall j :: i < j <= k ==> !Prunes(steps[j], steps[i].stamp)
    ensures steps[i].stamp in Run(steps[..k + 1], true).stamps
  {
    forall j | i < j <= k
      ensures Retains(steps, j, steps[i].stamp, true)
    {
      assert !Prunes(steps[j], steps[i].stamp);
      assert steps[j].serverTime <= steps[k].serverTime && steps[i].serverTime <= steps[j - 1].serverTime;
      assert w <= steps[j - 1].window;
    }
    LoggedIfRetained(steps, i, k);
  }

  /** A stamp of the stretch that no step pruned before k is still logged when k counts. */
  lemma {:induction false} StillLogged(steps: seq<Step>, d: nat, w: nat, a: int, i: nat, k: nat)
    requires Fleet(steps, d, w) && i <= k < |steps|
    requires a < steps[i].stamp && a < steps[k].stamp <= a + WideSpan(d, w)
    requires forall j :: i < j <= k ==> !Prunes(steps[j], steps[i].stamp)
    ensures steps[i].stamp in Run(steps[..k + 1], true).stamps
  {
    LoggedUnlessPruned(steps, d, w, i, k);
  }

  /** Only the stretch's first millisecond can be pruned before k ran, and by a stamp past the stretch's end. */
  lemma PrunerIsAhead(steps: seq<Step>, d: nat, w: nat, a: int, t: nat, j: nat, k: nat)
    requires Fleet(steps, d, w) && j <= k < |steps|
    requires a < t && a < steps[k].stamp <= a + WideSpan(d, w)
    requires Prunes(steps[j], t)
    ensures t == a + 1 && steps[j].stamp == a + w + 1
  {
    assert steps[j].serverTime <= steps[k].serverTime;
    assert w <= steps[j].window;
  }

  lemma {:induction false} LaterStampsLogged(steps: seq<Step>, d: nat, w: nat, a: int, i: nat, k: nat)
    requires Fleet(steps, d, w) && i <= k < |steps|
    requires a + 1 < steps[i].stamp && a < steps[k].stamp <= a + WideSpan(d, w)
    ensures steps[i].stamp in Run(steps[..k + 1], true).stamps
  {
    forall j | i < j <= k
      ensures !Prunes(steps[j], steps[i].stamp)
    {
      if Prunes(steps[j], steps[i].stamp) {
        PrunerIsAhead(steps, d, w, a, steps[i].stamp, j, k);
      }
    }
    StillLogged(steps, d, w, a, i, k);
  }

  /** If the first millisecond is gone, the stamp just past the stretch that pruned it is logged. */
  lemma {:induction false} FirstIsReplaced(steps: seq<Step>, d: nat, w: nat, a: int, i: nat, k: nat)
    requires Fleet(steps, d, w) && i <= k < |steps|
    requires a + 1 == steps[i].stamp && a < steps[k].stamp <= a + WideSpan(d, w)
    requires a + 1 !in Run(steps[..k + 1], true).stamps
    ensures a + w + 1 in Run(steps[..k + 1], true).stamps
  {
    if forall j :: i < j <= k ==> !Prunes(steps[j], steps[i].stamp) {
      StillLogged(steps, d, w, a, i, k);
    } else {
      var j :| i < j <= k && Prunes(steps[j], steps[i].stamp);
      PrunerIsAhead(steps, d, w, a, steps[i].stamp, j, k);
      LaterStampsLogged(steps, d, w, a, j, k);
    }
  }

  ghost predicate Stretch(steps: seq<Step>, positions: set<nat>, k: nat, a: int, b: int) {
    && k < |steps| && k in positions
    && forall i :: i in positions ==> i <= k && a < steps[i].stamp <= b
  }

  lemma {:induction false} AllButFirstLogged(steps: seq<Step>, d: nat, w: nat, a: int, k: nat, stretch: set<nat>)
    requires Fleet(steps, d, w) && Stretch(steps, stretch, k, a, a + WideSpan(d, w))
    ensures forall t :: t in StampsAt(steps, stretch) && t != a + 1 ==> t in Run(steps[..k + 1], true).stamps
    ensures forall t :: t in StampsAt(steps, stretch) ==> t <= a + w
    ensures a + 1 in StampsAt(steps, stretch) && a + 1 !in Run(steps[..k + 1], true).stamps ==>
              a + w + 1 in Run(steps[..k + 1], true).stamps
  {
    forall i | i in stretch
      ensures steps[i].stamp != a + 1 ==> steps[i].stamp in Run(steps[..k + 1], true).stamps
      ensures steps[i].stamp == a + 1 && a + 1 !in Run(steps[..k + 1], true).stamps ==>
                a + w + 1 in Run(steps[..k + 1], true).stamps
    {
      if steps[i].stamp != a + 1 {
        LaterStampsLogged(steps, d, w, a, i, k);
      } else if a + 1 !in Run(steps[..k + 1], true).stamps {
        FirstIsReplaced(steps, d, w, a, i, k);
      }
    }
  }

  /** Swapping one element of a set for another one outside it keeps it within bounds. */
  lemma SwappedSize(small: set<nat>, large: set<nat>, first: int, ahead: int)
    requires forall t :: t in small && t != first ==> t in large
    requires first in small && first !in large ==> ahead in large && ahead !in small
    ensures |small| <= |large|
  {
    if first in small && first !in large {
      SubsetSize(small - {first}, large - {ahead});
    } else {
      SubsetSize(small, large);
    }
  }

  /** A wide stretch, up to its last step k, has no more stamps than k counted. */
  lemma {:induction false} WideStretchWithinLog(steps: seq<Step>, d: nat, w: nat, a: int, k: nat, stretch: set<nat>)
    requires Fleet(steps, d, w) && Stretch(steps, stretch, k, a, a + WideSpan(d, w))
    ensures |StampsAt(steps, stretch)| <= CountAt(steps, k, true)
  {
    AllButFirstLogged(steps, d, w, a, k, stretch);
    SwappedSize(StampsAt(steps, stretch), Run(steps[..k + 1], true).stamps, a + 1, a + w + 1);
  }

  lemma {:induction false} FastestStep(steps: seq<Step>, i: nat, k: nat) returns (m: nat)
    requires i < k < |steps|
    ensures i < m <= k && forall j :: i < j <= k ==> steps[j].stamp <= steps[m].stamp
  {
    if i + 1 == k {
      m := k;
    } else {
      m := FastestStep(steps, i, k - 1);
      if steps[m].stamp < steps[k].stamp {
        m := k;
      }
    }
  }

  lemma {:induction false} BothCounted(steps: seq<Step>, d: nat, w: nat, i: nat, k: nat)
    requires Fleet(steps, d, w) && 2 * d < w + GRACE && i < k < |steps|
    requires 0 <= steps[i].stamp - steps[k].stamp || steps[k].stamp - steps[i].stamp <= 1
    requires steps[i].stamp != steps[k].stamp
    requires forall j :: i < j <= k ==> !Prunes(steps[j], steps[i].stamp)
    ensures CountAt(steps, k, true) >= 2
  {
    LoggedUnlessPruned(steps, d, w, i, k);
    LoggedIfRetained(steps, k, k);
    SubsetSize({steps[i].stamp, steps[k].stamp}, Run(steps[..k + 1], true).stamps);
  }

  /** Of two neighbouring stamps the later check always counts the earlier one, or the fast stamp that pruned it. */
  lemma {:induction false} NeighbourCounted(steps: seq<Step>, d: nat, w: nat, i: nat, k: nat)
    requires Fleet(steps, d, w) && w >= 2 && 2 * d < w + GRACE
    requires i < k < |steps| && steps[i].stamp != steps[k].stamp
    requires -1 <= steps[k].stamp - steps[i].stamp <= 1
    ensures CountAt(steps, k, true) >= 2
  {
    if forall j :: i < j <= k ==> !Prunes(steps[j], steps[i].stamp) {
      BothCounted(steps, d, w, i, k);
    } else {
      var j :| i < j <= k && Prunes(steps[j], steps[i].stamp);
      var m := FastestStep(steps, i, k);
      assert steps[j].stamp <= steps[m].stamp && w <= steps[j].window;
      forall x | m < x <= k
        ensures !Prunes(steps[x], steps[m].stamp)
      {
        assert w <= steps[x].window && steps[x].stamp <= steps[m].stamp;
      }
      BothCounted(steps, d, w, m, k);
    }
  }

  lemma {:induction false} OwnStampCounted(steps: seq<Step>, k: nat)
    requires k < |steps|
    ensures CountAt(steps, k, true) >= 1
  {
    LoggedIfRetained(steps, k, k);
    SubsetSize({steps[k].stamp}, Run(steps[..k + 1], true).stamps);
  }

  /** A stretch of one or two milliseconds has no more stamps than its last step counted. */
  lemma {:induction false} NarrowStretchWithinLog(steps: seq<Step>, d: nat, w: nat, a: int, span: int, k: nat, stretch: set<nat>)
    requires Fleet(steps, d, w) && Stretch(steps, stretch, k, a, a + span)
    requires span == 1 || (span == 2 && w >= 2 && 2 * d < w + GRACE)
    ensures |StampsAt(steps, stretch)| <= CountAt(steps, k, true)
  {
    var stamps, own := StampsAt(steps, stretch), steps[k].stamp;
    OwnStampCounted(steps, k);
    if t :| t in stamps && t != own {
      var i :| i in stretch && steps[i].stamp == t;
      NeighbourCounted(steps, d, w, i, k);
      SubsetSize(stamps, {own, t});
    } else {
      SubsetSize(stamps, {own});
    }
  }

  /** The stretch, up to its last step k, has no more stamps than k counted. */
  lemma {:induction false} StretchWithinLog(steps: seq<Step>, d: nat, w: nat, a: int, k: nat, stretch: set<nat>)
    requires Fleet(steps, d, w) && Stretch(steps, stretch, k, a, a + SafeSpan(d, w))
    ensures |StampsAt(steps, stretch)| <= CountAt(steps, k, true)
  {
    if 2 * d < w {
      WideStretchWithinLog(steps, d, w, a, k, stretch);
    } else {
      NarrowStretchWithinLog(steps, d, w, a, SafeSpan(d, w), k, stretch);
    }
  }

  /**
   Distributed admission bound. Replicas stamp within d of the server's clock and every check of
   the key uses a window of at least w: at most `limit` distinct stamps are admitted in any
   stretch of SafeSpan(d, w) milliseconds. With d == 0 this is the exact sliding window.
   */
  lemma {:induction false} AdmissionBound(steps: seq<Step>, d: nat, w: nat, limit: nat, a: int)
    requires Fleet(steps, d, w)
    ensures |StampsAt(steps, AdmittedIn(steps, limit, a, a + SafeSpan(d, w)))| <= limit
  {
    var admitted := AdmittedIn(steps, limit, a, a + SafeSpan(d, w));
    if admitted == {} {
      assert StampsAt(steps, admitted) == {};
    } else {
      var k := LastAdmitted(steps, limit, a, a + SafeSpan(d, w));
      StretchWithinLog(steps, d, w, a, k, admitted);
    }
  }

  /** The bound for any collection of the admitted stamps. */
  lemma {:induction false} AdmittedSubsetBound(steps: seq<Step>, d: nat, w: nat, limit: nat, a: int, stamps: set<nat>)
    requires Fleet(steps, d, w)
    requires stamps <= StampsAt(steps, AdmittedIn(steps, limit, a, a + SafeSpan(d, w)))
    ensures |stamps| <= limit
  {
    AdmissionBound(steps, d, w, limit, a);
    SubsetSize(stamps, StampsAt(steps, AdmittedIn(steps, limit, a, a + SafeSpan(d, w))));
  }

  lemma {:induction false} LastAdmitted(steps: seq<Step>, limit: nat, a: int, b: int) returns (k: nat)
    requires AdmittedIn(steps, limit, a, b) != {}
    ensures Stretch(steps, AdmittedIn(steps, limit, a, b), k, a, b)
    ensures CountAt(steps, k, true) <= limit
  {
    k := Greatest(AdmittedIn(steps, limit, a, b));
    assert Admitted(steps, limit, k);
  }

  // ---------------------------------------------------------------- requests

  /** The checks among these that carry the stamp. */
  function Sharing(steps: seq<Step>, positions: set<nat>, stamp: nat): set<nat>
    requires forall i :: i in positions ==> i < |steps|
  {
    set i | i in positions && steps[i].stamp == stamp
  }

  ghost predicate AtMostPerMillisecond(steps: seq<Step>, positions: set<nat>, m: nat)
    requires forall i :: i in positions ==> i < |steps|
  {
    forall t: nat :: |Sharing(steps, positions, t)| <= m
  }

  /** At most m checks to a millisecond make at most m times as many checks as stamps. */
  lemma {:induction false} ChecksPerStamp(steps: seq<Step>, positions: set<nat>, m: nat)
    requires forall i :: i in positions ==> i < |steps|
    requires AtMostPerMillisecond(steps, positions, m)
    ensures |positions| <= m * |StampsAt(steps, positions)|
  {
    var f := map i | i in positions :: steps[i].stamp;
    forall t
      ensures |Fiber(f, t)| <= m
    {
      assert Fiber(f, t) == Sharing(steps, positions, t);
    }
    FiberBound(f, m);
    assert f.Keys == positions;
    assert f.Values == StampsAt(steps, positions) by {
      forall i | i in positions
        ensures steps[i].stamp in f.Values
      {
        assert f[i] == steps[i].stamp;
      }
    }
  }

  /**
   The bound on requests: when no more than m admitted checks of the stretch share a millisecond,
   at most m * limit are admitted; with all of them apart, at most the limit.
   */
  lemma {:induction false} RequestBound(steps: seq<Step>, d: nat, w: nat, limit: nat, a: int, m: nat)
    requires Fleet(steps, d, w)
    requires AtMostPerMillisecond(steps, AdmittedIn(steps, limit, a, a + SafeSpan(d, w)), m)
    ensures |AdmittedIn(steps, limit, a, a + SafeSpan(d, w))| <= m * limit
  {
    AdmissionBound(steps, d, w, limit, a);
    var admitted := AdmittedIn(steps, limit, a, a + SafeSpan(d, w));
    ChecksPerStamp(steps, admitted, m);
    Scale(m, |StampsAt(steps, admitted)|, limit);
  }

  lemma Scale(m: nat, x: nat, y: nat)
    requires x <= y
    ensures m * x <= m * y
  {
  }

  // ---------------------------------------------------------------- no false denial

  /** The checks up to and including k, admitted or denied, stamped in (lo, hi]. */
  function Attempts(steps: seq<Step>, k: nat, lo: int, hi: int): set<nat>
    requires k < |steps|
  {
    set i: nat | i <= k && lo < steps[i].stamp <= hi
  }

  /** If no earlier stamp is more than h ahead, a count is at most the attempts in its own window. */
  lemma {:induction false} CountWithinAttempts(steps: seq<Step>, k: nat, h: nat)
    requires k < |steps| && 0 < steps[k].window
    requires forall i :: 0 <= i <= k ==> steps[i].stamp <= steps[k].stamp + h
    ensures CountAt(steps, k, true) <=
            |Attempts(steps, k, steps[k].stamp - steps[k].window, steps[k].stamp + h)|
  {
    var prefix := steps[..k + 1];
    var attempts := Attempts(steps, k, steps[k].stamp - steps[k].window, steps[k].stamp + h);
    var stamped := StampsAt(steps, attempts);
    forall t | t in Run(prefix, true).stamps
      ensures t in stamped
    {
      ExactContents(prefix, t, true);
      var i: nat :| LoggedAt(prefix, i, t, true);
      if i < k {
        assert Retains(prefix, k, t, true);
      }
      assert i in attempts && steps[i].stamp == t;
    }
    SubsetSize(Run(prefix, true).stamps, stamped);
    StampsAtSize(steps, attempts);
  }

  /** No check's own window has held more attempts than its limit. */
  ghost predicate CallerKeepsLimits(steps: seq<Step>, limits: seq<nat>)
    requires |limits| == |steps|
  {
    forall i: nat :: i < |steps| ==>
      |Attempts(steps, i, steps[i].stamp - steps[i].window, steps[i].stamp)| <= limits[i]
  }

  /**
   On a run whose stamps never go back, with any mix of windows, a caller who stays within the
   limit of every check's own window is never limited.
   */
  lemma {:induction false} NeverFalselyLimited(steps: seq<Step>, limits: seq<nat>, k: nat)
    requires |limits| == |steps| && k < |steps| && 0 < steps[k].window
    requires forall i :: 0 <= i <= k ==> steps[i].stamp <= steps[k].stamp
    requires CallerKeepsLimits(steps, limits)
    ensures Admitted(steps, limits[k], k)
  {
    CountWithinAttempts(steps, k, 0);
    assert |Attempts(steps, k, steps[k].stamp - steps[k].window, steps[k].stamp + 0)| <= limits[k];
  }

  /** The same across replicas: attempts up to 2 * d ahead of the caller's clock must be allowed for. */
  lemma {:induction false} NeverFalselyLimitedSkewed(steps: seq<Step>, d: nat, limit: nat, k: nat)
    requires Skewed(steps, d) && k < |steps| && 0 < steps[k].window
    requires |Attempts(steps, k, steps[k].stamp - steps[k].window, steps[k].stamp + 2 * d)| <= limit
    ensures Admitted(steps, limit, k)
  {
    forall i | 0 <= i <= k
      ensures steps[i].stamp <= steps[k].stamp + 2 * d
    {
      assert steps[i].serverTime <= steps[k].serverTime;
    }
    CountWithinAttempts(steps, k, 2 * d);
  }

  // ---------------------------------------------------------------- totals

  /** Every step falls inside the window, and the deadline, of those before it. */
  ghost predicate WithinOneWindow(steps: seq<Step>) {
    forall i, j :: 0 <= i < j < |steps| ==> Retains(steps, j, steps[i].stamp, true)
  }

  lemma {:induction false} NothingLost(steps: seq<Step>)
    requires WithinOneWindow(steps)
    ensures Run(steps, true).stamps == StampsAt(steps, Indices(|steps|))
  {
    forall t: nat
      ensures t in Run(steps, true).stamps <==> t in StampsAt(steps, Indices(|steps|))
    {
      ExactContents(steps, t, true);
      if i: nat :| i in Indices(|steps|) && steps[i].stamp == t {
        assert LoggedAt(steps, i, t, true);
      }
    }
  }

  lemma {:induction false} RepeatedStampShrinks(steps: seq<Step>, i: nat, j: nat)
    requires i < j < |steps| && steps[i].stamp == steps[j].stamp
    ensures |StampsAt(steps, Indices(|steps|))| < |steps|
  {
    var all := Indices(|steps|);
    StampsAtSize(steps, all - {j});
    assert StampsAt(steps, all) == StampsAt(steps, all - {j});
  }

  lemma {:induction false} LoggedWereStamped(steps: seq<Step>)
    ensures Run(steps, true).stamps <= StampsAt(steps, Indices(|steps|))
  {
    forall t | t in Run(steps, true).stamps
      ensures t in StampsAt(steps, Indices(|steps|))
    {
      ExactContents(steps, t, true);
      var i: nat :| LoggedAt(steps, i, t, true);
      assert i in Indices(|steps|) && steps[i].stamp == t;
    }
  }

  lemma EqualBySize(small: set<nat>, large: set<nat>)
    requires small <= large && |small| >= |large|
    ensures small == large
  {
    assert large == small + (large - small);
  }

  /** In a run that counts every operation the log holds the stamp of every one of them. */
  lemma {:induction false} EveryStampLogged(steps: seq<Step>)
    requires |Run(steps, true).stamps| == |steps|
    ensures DistinctStamps(steps)
    ensures Run(steps, true).stamps == StampsAt(steps, Indices(|steps|))
  {
    LoggedWereStamped(steps);
    StampsAtSize(steps, Indices(|steps|));
    EqualBySize(Run(steps, true).stamps, StampsAt(steps, Indices(|steps|)));
    if i, j :| 0 <= i < j < |steps| && steps[i].stamp == steps[j].stamp {
      RepeatedStampShrinks(steps, i, j);
    }
  }

  /**
   The final count equals the number of operations exactly when no two shared a millisecond, the
   member being the stamp itself, and none fell out of a later one's window or deadline.
   */
  lemma {:induction false} FinalCountIsOperationsIffDistinct(steps: seq<Step>)
    requires steps != []
    ensures CountAt(steps, |steps| - 1, true) == |steps| <==> DistinctStamps(steps) && WithinOneWindow(steps)
  {
    assert steps[..|steps| - 1 + 1] == steps;
    assert CountAt(steps, |steps| - 1, true) == |Run(steps, true).stamps|;
    if WithinOneWindow(steps) && DistinctStamps(steps) {
      NothingLost(steps);
      StampsAtSize(steps, Indices(|steps|));
    }
    if |Run(steps, true).stamps| == |steps| {
      EveryStampLogged(steps);
      forall i, j | 0 <= i < j < |steps|
        ensures Retains(steps, j, steps[i].stamp, true)
      {
        StampRetained(steps, i, j);
      }
    }
  }

  lemma {:induction false} StampRetained(steps: seq<Step>, i: nat, j: nat)
    requires DistinctStamps(steps) && i < j < |steps|
    requires Run(steps, true).stamps == StampsAt(steps, Indices(|steps|))
    ensures Retains(steps, j, steps[i].stamp, true)
  {
    assert i in Indices(|steps|);
    assert steps[i].stamp in StampsAt(steps, Indices(|steps|));
    ExactContents(steps, steps[i].stamp, true);
    var x: nat :| LoggedAt(steps, x, steps[i].stamp, true);
    assert x == i;
  }
}
