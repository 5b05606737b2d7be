/** Step 6 of the DQS-enable search: from the middle of the working window to a phase and a delay. */
module DqsEnable {
  import opened CArith

  /** One phase tap is `opa` picoseconds, one delay tap `dtap`. */
  datatype Chains = Chains(phaseMax: nat, delayMax: nat, opa: nat, dtap: nat) {

    /** A whole cycle and one more tap fit a word, in which the code adds up its delays. */
    ghost predicate Valid() {
      0 < phaseMax && 0 < opa && 0 < dtap && Period() + Max(opa, dtap) < TWO32
    }

    /** The delay of a whole VFIFO cycle. */
    function Period(): nat {
      (phaseMax + 1) * opa
    }
  }

  /** The representative of `workMid` in `1..period`. */
  function Reduced(workMid: nat, period: nat): (m: nat)
    requires 0 < workMid && 0 < period
    ensures 0 < m <= period && m <= workMid
    ensures exists k: nat :: workMid - m == k * period
    decreases workMid
  {
    if workMid <= period then
      assert workMid - workMid == 0 * period;
      workMid
    else
      var m := Reduced(workMid - period, period);
      assert exists k: nat :: workMid - m == k * period by {
        var k: nat :| workMid - period - m == k * period;
        assert workMid - m == (k + 1) * period;
      }
      m
  }

  /** Adds up the delays of one VFIFO cycle. */
  method CycleDelay(c: Chains) returns (tmpDelay: int)
    requires c.Valid()
    ensures tmpDelay == c.Period()
  {
    tmpDelay := 0;
    assert 0 * c.opa == 0;
    for p := 0 to c.phaseMax + 1
      invariant tmpDelay == p * c.opa
    {
      MulKeepsOrder(0, p + 1, c.opa);
      MulKeepsOrder(p + 1, c.phaseMax + 1, c.opa);
      OneMoreTap(p, c.opa);
      tmpDelay := U32(tmpDelay + c.opa);
    }
  }

  /** Takes whole cycles away while more than one is left. */
  method ReduceToCycle(workMid0: nat, tmpDelay: nat) returns (workMid: nat)
    requires 0 < tmpDelay
    ensures workMid == if workMid0 == 0 then 0 else Reduced(workMid0, tmpDelay)
  {
    workMid := workMid0;
    while workMid > tmpDelay
      invariant 0 < workMid0 ==> 0 < workMid && Reduced(workMid, tmpDelay) == Reduced(workMid0, tmpDelay)
      invariant workMid0 == 0 ==> workMid == 0
    {
      workMid := workMid - tmpDelay;
    }
  }

  lemma OneMoreTap(n: nat, step: nat)
    ensures (n + 1) * step == n * step + step
  {
  }

  /** `n` taps reach `target` from `from`, and one tap less does not. */
  ghost predicate FirstToReach(n: nat, step: nat, from: int, target: int) {
    0 < n && from + (n - 1) * step < target && target <= from + n * step
  }

  /** So many taps were counted: the first number that reaches the target, or one more than the chain has. */
  ghost predicate Counted(n: nat, max: nat, step: nat, from: int, target: int) {
    0 < n <= max + 1 && from + (n - 1) * step < target && (n <= max ==> target <= from + n * step)
  }

  /** The first `n` with `n` taps at or above the target, or `max + 1`: the shape of both searching loops. */
  method CountTaps(max: nat, step: nat, from: int, target: int) returns (n: nat, reached: int)
    requires 0 < step && 0 <= from && 0 <= target && target + step <= TWO32
    ensures if from < target then Counted(n, max, step, from, target) else n == 0
    ensures reached == from + n * step
  {
    n, reached := 0, from;
    assert 0 * step == 0;
    while n <= max && reached < target
      invariant 0 <= n <= max + 1 && reached == from + n * step && 0 <= reached
      invariant n == 0 ==> reached == from
      invariant n > 0 ==> from < target && reached - step < target
    {
      OneMoreTap(n, step);
      n, reached := n + 1, U32(reached + step);
    }
    if n > 0 {
      OneMoreTap(n - 1, step);
    }
  }

  /** The delay loop reaches its target within the chain exactly when the gap fits the chain. */
  lemma LandsIffGapFits(gap: int, d: nat, delayMax: nat, dtap: nat)
    requires 0 < dtap && 1 <= d <= delayMax + 1
    requires (d - 1) * dtap < gap && (d <= delayMax ==> d * dtap >= gap)
    ensures gap <= delayMax * dtap <==> d <= delayMax
  {
    if d <= delayMax {
      MulKeepsOrder(d, delayMax, dtap);
    }
  }

  /** `p, d` point just above `m`: less than a phase tap, and less than a delay tap, too far. */
  ghost predicate PointsAt(c: Chains, p: nat, d: nat, m: nat) {
    && 1 <= p <= c.phaseMax + 1 && FirstToReach(p, c.opa, 0, m)
    && Counted(d, c.delayMax, c.dtap, (p - 1) * c.opa, m)
  }

  /** The phase loop: the first phase whose delay reaches the middle, and the delay of the one before. */
  method FindPhase(c: Chains, workMid: nat) returns (p: nat, tmpDelay: int)
    requires c.Valid() && workMid <= c.Period()
    ensures 0 < workMid ==> 1 <= p <= c.phaseMax + 1 && FirstToReach(p, c.opa, 0, workMid)
    ensures 0 < workMid ==> 0 <= tmpDelay == (p - 1) * c.opa < workMid
    ensures workMid == 0 ==> p == 0 && tmpDelay == TWO32 - c.opa
  {
    OneTapFits(c, workMid);
    p, tmpDelay := CountTaps(c.phaseMax, c.opa, 0, workMid);
    if 0 < workMid {
      OneMoreTap(p - 1, c.opa);
      MulKeepsOrder(0, p - 1, c.opa);
    }
    tmpDelay := U32(tmpDelay - c.opa);
  }

  /** The sums of the searching loops stay inside a word. */
  lemma OneTapFits(c: Chains, m: nat)
    requires c.Valid() && m <= c.Period()
    ensures m + c.opa < TWO32 && m + c.dtap < TWO32
  {
  }

  /** The middle of the window as the code computes it: the sum of its ends is a word. */
  function Middle(workBgn: nat, workEnd: nat): nat {
    U32(workBgn + workEnd) / 2
  }

  /** It lies in the window, equally far from both ends up to a picosecond, unless the sum of the ends
      wraps: then it is half a word too small. */
  lemma MiddleIsMiddle(workBgn: nat, workEnd: nat)
    requires workBgn <= workEnd < TWO32
    ensures workBgn + workEnd < TWO32 ==>
              && workBgn <= Middle(workBgn, workEnd) <= workEnd
              && 0 <= (workEnd - Middle(workBgn, workEnd)) - (Middle(workBgn, workEnd) - workBgn) <= 1
    ensures workBgn + workEnd >= TWO32 ==>
              0 <= workEnd + workBgn - 2 * (Middle(workBgn, workEnd) + 0x8000_0000) <= 1
  {
  }

  /** Whole cycles apart, the delay `x` lies in the middle of the window, or up to `slack` too far: the
      distances to the two ends, both from below, differ by at most one picosecond and twice the slack. */
  ghost predicate LandsInMiddle(x: int, slack: int, workBgn: nat, workEnd: nat, cycle: int) {
    exists n: nat :: IsLanding(x, n, slack, workBgn, workEnd, cycle)
  }

  ghost predicate IsLanding(x: int, n: nat, slack: int, workBgn: nat, workEnd: nat, cycle: int) {
    -1 <= (x + n * cycle - workBgn) - (workEnd - (x + n * cycle)) <= 2 * slack
  }

  /** What the pair of phase and delay comes to, against the window itself.  Short of phase 0, where the
      override costs up to a phase tap, it lands in the middle up to a delay tap if the chain spans a phase
      tap. */
  lemma CentreLandsInMiddle(c: Chains, p: nat, d: nat, workBgn: nat, workEnd: nat)
    requires c.Valid() && workBgn <= workEnd && workBgn + workEnd < TWO32 && 0 < Middle(workBgn, workEnd)
    requires PointsAt(c, p, d, Reduced(Middle(workBgn, workEnd), (c.phaseMax + 1) * c.opa))
    ensures p != 1 && c.opa <= c.delayMax * c.dtap ==>
              d <= c.delayMax && (d - 1) * c.dtap < c.opa &&
              LandsInMiddle((p - 1) * c.opa + d * c.dtap, c.dtap - 1, workBgn, workEnd, (c.phaseMax + 1) * c.opa)
    ensures p == 1 ==> LandsInMiddle(c.opa, c.opa - 1, workBgn, workEnd, (c.phaseMax + 1) * c.opa)
  {
    var middle, cycle := Middle(workBgn, workEnd), (c.phaseMax + 1) * c.opa;
    var m := Reduced(middle, cycle);
    var n: nat :| middle - m == n * cycle;
    MiddleIsMiddle(workBgn, workEnd);
    if p == 1 {
      OverrideLandsWithinOnePhase(c, p, d, m);
      assert IsLanding(c.opa, n, c.opa - 1, workBgn, workEnd, cycle);
    } else if c.opa <= c.delayMax * c.dtap {
      CentringLandsWithinOneTap(c, p, d, m);
      GapIsShort(c, p, m);
      assert IsLanding((p - 1) * c.opa + d * c.dtap, n, c.dtap - 1, workBgn, workEnd, cycle);
    }
  }

  lemma GapIsShort(c: Chains, p: nat, m: nat)
    requires FirstToReach(p, c.opa, 0, m)
    ensures m - (p - 1) * c.opa <= c.opa
  {
    OneMoreTap(p - 1, c.opa);
  }

  /** If the chain spans a phase tap, the committed phase and delay are inside their chains, the delay does not
      exceed a phase tap by a whole tap, and together they land in the middle of the window. */
  ghost predicate CommitsMiddle(c: Chains, p: nat, phase: nat, delay: nat, workBgn: nat, workEnd: nat) {
    c.opa <= c.delayMax * c.dtap ==>
      && 1 <= phase <= c.phaseMax && delay <= c.delayMax && (delay - 1) * c.dtap < c.opa
      && LandsInMiddle(phase * c.opa + delay * c.dtap, (if p == 1 then c.opa else c.dtap) - 1, workBgn, workEnd,
                       (c.phaseMax + 1) * c.opa)
  }

  lemma PairCommitsMiddle(c: Chains, p: nat, d: nat, phase: nat, delay: nat, workBgn: nat, workEnd: nat)
    requires c.Valid() && workBgn <= workEnd && 1 < workBgn + workEnd < TWO32
    requires PointsAt(c, p, d, Reduced(Middle(workBgn, workEnd), (c.phaseMax + 1) * c.opa))
    requires (phase, delay) == if p == 1 then (1, 0) else (p - 1, d)
    ensures CommitsMiddle(c, p, phase, delay, workBgn, workEnd)
  {
    if c.opa <= c.delayMax * c.dtap {
      CentreLandsInMiddle(c, p, d, workBgn, workEnd);
      if p == 1 {
        OverrideCommits(c, workBgn, workEnd);
      }
    }
  }

  lemma OverrideCommits(c: Chains, workBgn: nat, workEnd: nat)
    requires c.Valid() && LandsInMiddle(c.opa, c.opa - 1, workBgn, workEnd, (c.phaseMax + 1) * c.opa)
    ensures CommitsMiddle(c, 1, 1, 0, workBgn, workEnd)
  {
    PhaseAlone(1, 0, c.opa, c.dtap);
  }

  lemma PhaseAlone(phase: int, delay: int, opa: int, dtap: int)
    requires phase == 1 && delay == 0
    ensures phase * opa + delay * dtap == opa && (delay - 1) * dtap == -dtap
  {
  }

  /** The phase-and-delay pair before (`p - 1`, `d`) and after the override of phase 0.  A middle of 0 makes
      the step back to the phase before underflow: the phase that is committed is the largest word. */
  method CentreEnable(c: Chains, workBgn: nat, workEnd: nat)
    returns (p: nat, d: nat, phase: nat, delay: nat)
    requires c.Valid()
    ensures 0 < Middle(workBgn, workEnd) ==>
              && PointsAt(c, p, d, Reduced(Middle(workBgn, workEnd), c.Period()))
              && (phase, delay) == if p == 1 then (1, 0) else (p - 1, d)
    ensures Middle(workBgn, workEnd) == 0 ==> (p, d) == (0, 0) && (phase, delay) == (TWO32 - 1, 0)
    ensures phase <= c.phaseMax <==> 0 < Middle(workBgn, workEnd)
    ensures 1 < workBgn + workEnd < TWO32 && workBgn <= workEnd ==> CommitsMiddle(c, p, phase, delay, workBgn, workEnd)
  {
    var cycle := CycleDelay(c);
    var workMid := ReduceToCycle(U32(workBgn + workEnd) / 2, cycle);
    OneTapFits(c, workMid);
    PhasesFit(c);
    var tmpDelay, reached;
    p, tmpDelay := FindPhase(c, workMid);
    d, reached := CountTaps(c.delayMax, c.dtap, tmpDelay, workMid);
    phase, delay := U32(p - 1), d;
    if p == 1 {
      phase, delay := 1, 0;
    }
    if 1 < workBgn + workEnd < TWO32 && workBgn <= workEnd {
      PairCommitsMiddle(c, p, d, phase, delay, workBgn, workEnd);
    }
  }

  lemma PhasesFit(c: Chains)
    requires c.Valid()
    ensures c.phaseMax + 1 < TWO32
  {
    MulKeepsOrder(1, c.opa, c.phaseMax + 1);
  }

  /** Before the override, the pair lands less than one delay tap above the reduced middle of the window,
      with the delay inside its chain, exactly when the chain spans the rest of the phase tap.  A chain
      that spans a whole phase tap therefore always does. */
  lemma CentringLandsWithinOneTap(c: Chains, p: nat, d: nat, m: nat)
    requires c.Valid() && PointsAt(c, p, d, m)
    ensures m - (p - 1) * c.opa <= c.delayMax * c.dtap <==>
            d <= c.delayMax && 0 <= (p - 1) * c.opa + d * c.dtap - m < c.dtap
    ensures c.opa <= c.delayMax * c.dtap ==> d <= c.delayMax
  {
    LandsIffGapFits(m - (p - 1) * c.opa, d, c.delayMax, c.dtap);
    assert (d - 1) * c.dtap == d * c.dtap - c.dtap;
    assert (p - 1) * c.opa == p * c.opa - c.opa;
  }

  /** The override trades accuracy for a usable phase: it lands less than one phase tap too far. */
  lemma OverrideLandsWithinOnePhase(c: Chains, p: nat, d: nat, m: nat)
    requires c.Valid() && PointsAt(c, p, d, m) && p == 1
    ensures 0 <= 1 * c.opa + 0 * c.dtap - m < c.opa
  {
  }
}
