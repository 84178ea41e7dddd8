/**
 How much the admission bound can say: runs that break any longer stretch, the exact span for every
 skew and window, and a run that attains the bound on requests.
 */
module AdmissionExact {
  import opened Prelude
  import opened SlidingWindow
  import opened Admission

  /** In any stretch of `span` ms, every run with skew d and window w admits at most the limit. */
  ghost predicate LimitHolds(d: nat, w: nat, span: int) {
    forall steps: seq<Step>, limit: nat, a: int ::
      Skewed(steps, d) && OneWindow(steps, w) ==> WithinLimit(steps, limit, a, span)
  }

  ghost predicate WithinLimit(steps: seq<Step>, limit: nat, a: int, span: int) {
    |StampsAt(steps, AdmittedIn(steps, limit, a, a + span))| <= limit
  }

  lemma {:induction false} ShorterStretch(steps: seq<Step>, limit: nat, a: int, span: int, longer: int)
    requires span <= longer && WithinLimit(steps, limit, a, longer)
    ensures WithinLimit(steps, limit, a, span)
  {
    SubsetSize(StampsAt(steps, AdmittedIn(steps, limit, a, a + span)),
               StampsAt(steps, AdmittedIn(steps, limit, a, a + longer)));
  }

  /** Two admitted checks with different stamps break a limit of one. */
  lemma {:induction false} TwoBreakOne(steps: seq<Step>, a: int, span: int, i: nat, j: nat)
    requires i < |steps| && j < |steps| && steps[i].stamp != steps[j].stamp
    requires Admitted(steps, 1, i) && a < steps[i].stamp <= a + span
    requires Admitted(steps, 1, j) && a < steps[j].stamp <= a + span
    ensures !WithinLimit(steps, 1, a, span)
  {
    var admitted := AdmittedIn(steps, 1, a, a + span);
    assert i in admitted && j in admitted;
    SubsetSize({steps[i].stamp, steps[j].stamp}, StampsAt(steps, admitted));
  }

  /** Three admitted checks with different stamps break a limit of two. */
  lemma {:induction false} ThreeBreakTwo(steps: seq<Step>, a: int, span: int, i: nat, j: nat, k: nat)
    requires i < |steps| && j < |steps| && k < |steps|
    requires steps[i].stamp != steps[j].stamp && steps[j].stamp != steps[k].stamp && steps[i].stamp != steps[k].stamp
    requires Admitted(steps, 2, i) && a < steps[i].stamp <= a + span
    requires Admitted(steps, 2, j) && a < steps[j].stamp <= a + span
    requires Admitted(steps, 2, k) && a < steps[k].stamp <= a + span
    ensures !WithinLimit(steps, 2, a, span)
  {
    var admitted := AdmittedIn(steps, 2, a, a + span);
    assert i in admitted && j in admitted && k in admitted;
    var three := {steps[i].stamp, steps[j].stamp, steps[k].stamp};
    assert three <= StampsAt(steps, admitted);
    assert |three| == 3 by { ThreeValues(steps[i].stamp, steps[j].stamp, steps[k].stamp); }
    SubsetSize(three, StampsAt(steps, admitted));
  }

  lemma ThreeValues(x: nat, y: nat, z: nat)
    requires x != y && y != z && x != z
    ensures |{x, y, z}| == 3
  {
    assert {x, y, z} - {x} == {y, z};
  }

  /** Synchronised clocks: the check one window after the first is admitted beside it. */
  function OneWindowApart(w: nat): seq<Step> {
    [Step(0, 0, w), Step(w, w, w)]
  }

  /** A fast replica prunes two slow stamps, then a slow replica is admitted under a limit of two. */
  function FastThenSlow(d: nat, w: nat): seq<Step>
    requires 2 * d < w
  {
    [Step(0, d, w), Step(1, d + 1, w), Step(w + 1, w + 1 - d, w), Step(w + 1 - 2 * d, w + 1 - d, w)]
  }

  lemma {:induction false} OneWindowApartAdmitted(w: nat)
    requires 0 < w
    ensures !WithinLimit(OneWindowApart(w), 1, -1, w + 1)
  {
    var steps := OneWindowApart(w);
    assert steps[..1] == [steps[0]] && steps[..2] == steps && [steps[0]][..0] == [];
    assert Run(steps[..1], true).stamps == {0};
    assert Run(steps[..2], true).stamps == {w};
    TwoBreakOne(steps, -1, w + 1, 0, 1);
  }

  lemma {:induction false} FastThenSlowCounts(d: nat, w: nat)
    requires 0 < d && 2 * d < w
    ensures var s := FastThenSlow(d, w);
            && Run(s[..1], true).stamps == {0} && Run(s[..2], true).stamps == {0, 1}
            && Run(s[..3], true).stamps == {w + 1} && Run(s[..4], true).stamps == {w + 1, w + 1 - 2 * d}
  {
    var s := FastThenSlow(d, w);
    assert Run(s[..1], true) == Script(EMPTY, s[0], true) by { assert s[..1][..0] == []; }
    assert Run(s[..2], true) == Script(Run(s[..1], true), s[1], true) by { assert s[..2][..1] == s[..1]; }
    assert Run(s[..3], true) == Script(Run(s[..2], true), s[2], true) by { assert s[..3][..2] == s[..2]; }
    assert Run(s[..4], true) == Script(Run(s[..3], true), s[3], true) by { assert s[..4][..3] == s[..3]; }
  }

  lemma {:induction false} FastThenSlowAdmitted(d: nat, w: nat)
    requires 0 < d && 2 * d < w
    ensures !WithinLimit(FastThenSlow(d, w), 2, -1, w - 2 * d + 2)
  {
    var s := FastThenSlow(d, w);
    FastThenSlowCounts(d, w);
    ThreeBreakTwo(s, -1, w - 2 * d + 2, 0, 1, 3);
  }

  lemma FastThenSlowIsRun(d: nat, w: nat)
    requires 0 < d && 2 * d < w
    ensures Skewed(FastThenSlow(d, w), d) && OneWindow(FastThenSlow(d, w), w)
  {
  }

  lemma {:induction false} WithinSafeSpan(d: nat, w: nat, span: int)
    requires span <= SafeSpan(d, w)
    ensures LimitHolds(d, w, span)
  {
    forall steps: seq<Step>, limit: nat, a: int | Skewed(steps, d) && OneWindow(steps, w)
      ensures WithinLimit(steps, limit, a, span)
    {
      AdmissionBound(steps, d, w, limit, a);
      assert WithinLimit(steps, limit, a, SafeSpan(d, w));
      ShorterStretch(steps, limit, a, span, SafeSpan(d, w));
    }
  }

  /** Half a window of skew: a fast stamp prunes two slow ones at once, and a third slow check is admitted. */
  function FastAmongSlow(d: nat, w: nat): seq<Step> {
    [Step(0, d, w), Step(1, d + 1, w), Step(w + 1, d + 2, w), Step(2, d + 2, w)]
  }

  lemma {:induction false} FastAmongSlowCounts(d: nat, w: nat)
    requires 2 <= w <= 2 * d
    ensures var s := FastAmongSlow(d, w);
            && Run(s[..1], true).stamps == {0} && Run(s[..2], true).stamps == {0, 1}
            && Run(s[..3], true).stamps == {w + 1} && Run(s[..4], true).stamps == {w + 1, 2}
  {
    var s := FastAmongSlow(d, w);
    assert Run(s[..1], true) == Script(EMPTY, s[0], true) by { assert s[..1][..0] == []; }
    assert Run(s[..2], true) == Script(Run(s[..1], true), s[1], true) by { assert s[..2][..1] == s[..1]; }
    assert Run(s[..3], true) == Script(Run(s[..2], true), s[2], true) by { assert s[..3][..2] == s[..2]; }
    assert Run(s[..4], true) == Script(Run(s[..3], true), s[3], true) by { assert s[..4][..3] == s[..3]; }
  }

  lemma {:induction false} FastAmongSlowAdmitted(d: nat, w: nat)
    requires 2 <= w <= 2 * d
    ensures !WithinLimit(FastAmongSlow(d, w), 2, -1, 3)
  {
    var s := FastAmongSlow(d, w);
    FastAmongSlowCounts(d, w);
    ThreeBreakTwo(s, -1, 3, 0, 1, 3);
  }

  lemma FastAmongSlowIsRun(d: nat, w: nat)
    requires 2 <= w <= 2 * d
    ensures Skewed(FastAmongSlow(d, w), d) && OneWindow(FastAmongSlow(d, w), w)
  {
  }

  /** Two neighbouring stamps with the first one gone: pruned by a one-millisecond window, or expired. */
  function Neighbours(d: nat, w: nat): seq<Step> {
    if w <= 1 then [Step(0, 0, w), Step(1, 1, w)]
    else [Step(d, 0, w), Step(d + 1, w + GRACE + 1, w)]
  }

  lemma {:induction false} NeighboursAdmitted(d: nat, w: nat)
    requires w <= 1 || w + GRACE <= 2 * d
    ensures !WithinLimit(Neighbours(d, w), 1, Neighbours(d, w)[0].stamp as int - 1, 2)
  {
    var s := Neighbours(d, w);
    RunOfTwo(s[0], s[1], true);
    assert s[..1] == [s[0]] && s[..2] == s && [s[0]][..0] == [];
    assert Run(s[..1], true).stamps == {s[0].stamp};
    assert Run(s[..2], true).stamps == {s[1].stamp};
    TwoBreakOne(s, s[0].stamp as int - 1, 2, 0, 1);
  }

  lemma NeighboursIsRun(d: nat, w: nat)
    requires w <= 1 || w + GRACE <= 2 * d
    ensures Skewed(Neighbours(d, w), d) && OneWindow(Neighbours(d, w), w)
  {
  }

  /** A run that admits too much in a stretch does so in any longer one. */
  lemma {:induction false} BreaksLimit(d: nat, w: nat, span: int, steps: seq<Step>, limit: nat, a: int, broken: int)
    requires Skewed(steps, d) && OneWindow(steps, w)
    requires !WithinLimit(steps, limit, a, broken) && broken <= span
    ensures !LimitHolds(d, w, span)
  {
    if WithinLimit(steps, limit, a, span) {
      ShorterStretch(steps, limit, a, broken, span);
    }
  }

  lemma {:induction false} BeyondWideSpan(d: nat, w: nat, span: int)
    requires 2 * d < w && WideSpan(d, w) < span
    ensures !LimitHolds(d, w, span)
  {
    if d == 0 {
      OneWindowApartAdmitted(w);
      assert Skewed(OneWindowApart(w), d) && OneWindow(OneWindowApart(w), w);
      BreaksLimit(d, w, span, OneWindowApart(w), 1, -1, w + 1);
    } else {
      FastThenSlowIsRun(d, w);
      FastThenSlowAdmitted(d, w);
      BreaksLimit(d, w, span, FastThenSlow(d, w), 2, -1, w - 2 * d + 2);
    }
  }

  lemma {:induction false} BeyondTwo(d: nat, w: nat, span: int)
    requires 2 <= w <= 2 * d && 2 < span
    ensures !LimitHolds(d, w, span)
  {
    FastAmongSlowIsRun(d, w);
    FastAmongSlowAdmitted(d, w);
    BreaksLimit(d, w, span, FastAmongSlow(d, w), 2, -1, 3);
  }

  lemma {:induction false} BeyondOne(d: nat, w: nat, span: int)
    requires w <= 1 || w + GRACE <= 2 * d
    requires 1 < span
    ensures !LimitHolds(d, w, span)
  {
    NeighboursIsRun(d, w);
    NeighboursAdmitted(d, w);
    BreaksLimit(d, w, span, Neighbours(d, w), 1, Neighbours(d, w)[0].stamp as int - 1, 2);
  }

  lemma {:induction false} BeyondSafeSpan(d: nat, w: nat, span: int)
    requires SafeSpan(d, w) < span
    ensures !LimitHolds(d, w, span)
  {
    if 2 * d < w {
      BeyondWideSpan(d, w, span);
    } else if w >= 2 && 2 * d < w + GRACE {
      BeyondTwo(d, w, span);
    } else {
      BeyondOne(d, w, span);
    }
  }

  /** For every skew and window the safe span is exact: any longer stretch is broken by some run, no shorter one ever is. */
  lemma {:induction false} SafeSpanIsExact(d: nat, w: nat, span: int)
    ensures LimitHolds(d, w, span) <==> span <= SafeSpan(d, w)
    ensures SafeSpan(d, w) == if d == 0 && w > 0 then w
                              else if 2 * d < w then w - 2 * d + 1
                              else if 2 <= w && 2 * d < w + 1000 then 2
                              else 1
  {
    if span <= SafeSpan(d, w) {
      WithinSafeSpan(d, w, span);
    } else {
      BeyondSafeSpan(d, w, span);
    }
  }

  // ---------------------------------------------------------------- the request bound is attained

  function Repeat(s: Step, m: nat): seq<Step> {
    if m == 0 then [] else Repeat(s, m - 1) + [s]
  }

  /** In each of the first n milliseconds, m checks at once. */
  function Burst(n: nat, m: nat, w: nat): seq<Step> {
    if n == 0 then [] else Burst(n - 1, m, w) + Repeat(Step(n - 1, n - 1, w), m)
  }

  lemma {:induction false} RepeatContents(s: Step, m: nat)
    ensures |Repeat(s, m)| == m && forall i :: 0 <= i < m ==> Repeat(s, m)[i] == s
  {
    if m > 0 {
      RepeatContents(s, m - 1);
    }
  }

  ghost predicate StampsBelow(steps: seq<Step>, n: nat) {
    forall i :: 0 <= i < |steps| ==> steps[i].stamp < n
  }

  lemma {:induction false} BurstLength(n: nat, m: nat, w: nat)
    ensures |Burst(n, m, w)| == m * n
  {
    if n > 0 {
      BurstLength(n - 1, m, w);
      RepeatContents(Step(n - 1, n - 1, w), m);
      assert m * n == m * (n - 1) + m;
    }
  }

  lemma {:induction false} BurstContents(n: nat, m: nat, w: nat)
    ensures StampsBelow(Burst(n, m, w), n)
    ensures forall i :: 0 <= i < |Burst(n, m, w)| ==>
              var s := Burst(n, m, w)[i]; s.stamp == s.serverTime && s.window == w
    ensures forall i, j :: 0 <= i <= j < |Burst(n, m, w)| ==> Burst(n, m, w)[i].stamp <= Burst(n, m, w)[j].stamp
  {
    if n > 0 {
      BurstContents(n - 1, m, w);
      RepeatContents(Step(n - 1, n - 1, w), m);
    }
  }

  /** The positions of the run that carry the stamp. */
  function Carrying(steps: seq<Step>, t: nat): (r: set<nat>)
    ensures r == Sharing(steps, Indices(|steps|), t)
  {
    set i: nat | i < |steps| && steps[i].stamp == t
  }

  /** The checks of one millisecond of the burst are one repetition. */
  lemma {:induction false} BurstCarrying(n: nat, m: nat, w: nat, t: nat)
    ensures |Carrying(Burst(n, m, w), t)| <= m
  {
    if n == 0 {
      assert Carrying(Burst(n, m, w), t) == {};
    } else {
      var before, added := Burst(n - 1, m, w), Repeat(Step(n - 1, n - 1, w), m);
      BurstCarrying(n - 1, m, w, t);
      assert StampsBelow(before, n - 1) by { BurstContents(n - 1, m, w); }
      RepeatContents(Step(n - 1, n - 1, w), m);
      CarryingAppended(before, added, n - 1, t);
    }
  }

  /** Appending checks that all carry one stamp, new to the run. */
  lemma CarryingAppended(before: seq<Step>, added: seq<Step>, stamp: nat, t: nat)
    requires StampsBelow(before, stamp)
    requires forall i :: 0 <= i < |added| ==> added[i].stamp == stamp
    ensures |Carrying(before + added, t)| <= if t == stamp then |added| else |Carrying(before, t)|
  {
    var all := before + added;
    if t == stamp {
      var later := Indices(|all|) - Indices(|before|);
      assert Indices(|before|) <= Indices(|all|) && |later| == |added|;
      SubsetSize(Carrying(all, t), later);
    } else {
      SubsetSize(Carrying(all, t), Carrying(before, t));
    }
  }

  /** No count of the burst exceeds the number of its milliseconds. */
  lemma {:induction false} BurstAdmitted(n: nat, m: nat, w: nat, k: nat)
    requires k < |Burst(n, m, w)|
    ensures Admitted(Burst(n, m, w), n, k)
  {
    var burst := Burst(n, m, w);
    BurstContents(n, m, w);
    forall t | t in Run(burst[..k + 1], true).stamps
      ensures t in Indices(n)
    {
      ExactContents(burst[..k + 1], t, true);
      var i: nat :| LoggedAt(burst[..k + 1], i, t, true);
      assert burst[i].stamp == t;
    }
    SubsetSize(Run(burst[..k + 1], true).stamps, Indices(n));
  }

  lemma {:induction false} BurstIsFleet(limit: nat, m: nat, w: nat)
    ensures Fleet(Burst(limit, m, w), 0, w)
  {
    BurstContents(limit, m, w);
  }

  lemma {:induction false} BurstIsSparse(limit: nat, m: nat, w: nat)
    ensures AtMostPerMillisecond(Burst(limit, m, w), Indices(|Burst(limit, m, w)|), m)
  {
    forall t: nat
      ensures |Sharing(Burst(limit, m, w), Indices(|Burst(limit, m, w)|), t)| <= m
    {
      BurstCarrying(limit, m, w, t);
    }
  }

  lemma {:induction false} BurstAllAdmitted(limit: nat, m: nat, w: nat)
    requires limit <= w
    ensures AdmittedIn(Burst(limit, m, w), limit, -1, -1 + SafeSpan(0, w)) == Indices(|Burst(limit, m, w)|)
  {
    var burst := Burst(limit, m, w);
    BurstContents(limit, m, w);
    forall k: nat | k < |burst|
      ensures Admitted(burst, limit, k)
    {
      BurstAdmitted(limit, m, w, k);
    }
  }

  /** Clocks agree, no millisecond holds more than m checks, and m * limit of them are admitted within one window. */
  lemma {:induction false} RequestBoundAttained(limit: nat, m: nat, w: nat)
    requires limit <= w
    ensures var burst := Burst(limit, m, w); var admitted := AdmittedIn(burst, limit, -1, -1 + SafeSpan(0, w));
            && Fleet(burst, 0, w)
            && AtMostPerMillisecond(burst, admitted, m)
            && |admitted| == m * limit
  {
    BurstIsFleet(limit, m, w);
    BurstIsSparse(limit, m, w);
    BurstAllAdmitted(limit, m, w);
    BurstLength(limit, m, w);
  }
}
