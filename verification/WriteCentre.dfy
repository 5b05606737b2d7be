/** Write-side centring of one strobe group: deskew of the data bits, then of the data mask. */
module WriteCentre {
  import opened CArith
  import opened EdgeSweep
  import opened Deskew
  import opened ReadCentre

  // ----- the longest passing run on an axis -----

  /** Every position in `a..b` passes. */
  ghost predicate Run(at: int -> bool, a: int, b: int) {
    forall p :: a <= p <= b ==> at(p)
  }

  /** The window variables of the mask search; `none` is the illegal value. */
  datatype Search = Search(bgnCurr: int, endCurr: int, bgnBest: int, endBest: int, winBest: int) {

    /** A pass at `p`: extend the current window, and keep it if it is now the biggest. */
    function Pass(p: int, none: int): Search {
      var bgn := if bgnCurr == none then p else bgnCurr;
      if p - bgn + 1 > winBest then Search(bgn, p, bgn, p, p - bgn + 1)
      else this.(bgnCurr := bgn, endCurr := p)
    }

    function Fail(none: int): Search {
      this.(bgnCurr := none, endCurr := none)
    }

    /** The current window is the passing run that ends just before `next`. */
    ghost predicate CurrentIsLastRun(at: int -> bool, from: int, next: int, none: int) {
      if from < next && at(next - 1)
      then from <= bgnCurr <= endCurr == next - 1 && Run(at, bgnCurr, endCurr) && (bgnCurr == from || !at(bgnCurr - 1))
      else bgnCurr == none && endCurr == none
    }

    /** The best window is the leftmost of the longest passing runs among the positions `from..next-1`. */
    ghost predicate BestIsLongestRun(at: int -> bool, from: int, next: int, none: int) {
      if winBest == 0
      then bgnBest == none && endBest == none && forall p :: from <= p < next ==> !at(p)
      else
        && from <= bgnBest <= endBest < next && winBest == endBest - bgnBest + 1
        && Run(at, bgnBest, endBest)
        && forall a, b :: from <= a <= b < next && Run(at, a, b) ==>
             b - a + 1 < winBest || (b - a + 1 == winBest && bgnBest <= a)
    }
  }

  /** Both at once: the state of the search once the positions `from..next-1` have been tested. */
  ghost predicate Searched(s: Search, at: int -> bool, from: int, next: int, none: int) {
    s.CurrentIsLastRun(at, from, next, none) && s.BestIsLongestRun(at, from, next, none)
  }

  lemma PassKeeps(s: Search, at: int -> bool, from: int, p: int, none: int)
    requires from <= p < none && at(p)
    requires Searched(s, at, from, p, none)
    ensures Searched(s.Pass(p, none), at, from, p + 1, none)
  {
    var t := s.Pass(p, none);
    forall a, b | from <= a <= b < p + 1 && Run(at, a, b)
      ensures b - a + 1 < t.winBest || (b - a + 1 == t.winBest && t.bgnBest <= a)
    {
      if b == p {
        var beforeCurrent := at(t.bgnCurr - 1);
        assert a >= t.bgnCurr;
      } else {
        var first := at(a);
      }
    }
  }

  lemma FailKeeps(s: Search, at: int -> bool, from: int, p: int, none: int)
    requires from <= p && !at(p) && s.BestIsLongestRun(at, from, p, none)
    ensures Searched(s.Fail(none), at, from, p + 1, none)
  {
    var t := s.Fail(none);
    if t.winBest != 0 {
      forall a, b | from <= a <= b < p + 1 && Run(at, a, b)
        ensures b - a + 1 < t.winBest || (b - a + 1 == t.winBest && t.bgnBest <= a)
      {
        var there := at(p);
        assert b < p;
      }
    }
  }

  /** The early exit: after a failure with fewer positions left than the best window has, no position
      that was skipped could have changed the best window. */
  lemma EarlyExitLosesNothing(s: Search, at: int -> bool, from: int, p: int, last: int, none: int)
    requires from <= p <= last && !at(p) && s.BestIsLongestRun(at, from, p + 1, none)
    requires s.winBest - 1 > last - p
    ensures s.BestIsLongestRun(at, from, last + 1, none)
  {
    forall a, b | from <= a <= b <= last && Run(at, a, b)
      ensures b - a + 1 < s.winBest || (b - a + 1 == s.winBest && s.bgnBest <= a)
    {
      var there := at(p);
    }
  }

  // ----- the mask search over the two glued sweeps -----

  /** The mask test along the axis around strobe tap `base`: the mask delay `d` is position `-d`, the
      strobe shift `d` is position `d`. */
  ghost function MaskAxis(lane: Lane, base: int): int -> bool {
    p => lane.maskPasses(base + p)
  }

  method TestMask(lane: Lane, ghost base: int, ghost p: int) returns (pass: bool)
    requires lane.dqs - lane.dm == base + p
    ensures pass == MaskAxis(lane, base)(p)
  {
    pass := lane.maskPasses(lane.dqs - lane.dm);
  }

  /** The part of the search that shifts the mask, from its longest delay down to none. */
  method MaskShiftSweep(lane: Lane, none: int) returns (s: Search)
    requires lane.Valid() && none == lane.dqMax + 1
    modifies lane`dm
    ensures lane.dm == 0
    ensures Searched(s, MaskAxis(lane, lane.dqs), -lane.dqMax, 1, none)
  {
    ghost var at := MaskAxis(lane, lane.dqs);
    s := Search(none, none, none, none, 0);
    var d := lane.dqMax;
    while d >= 0
      invariant -1 <= d <= lane.dqMax
      invariant Searched(s, at, -lane.dqMax, -d, none)
    {
      lane.dm := d;
      var pass := TestMask(lane, lane.dqs, -d);
      if pass {
        PassKeeps(s, at, -lane.dqMax, -d, none);
        s := s.Pass(-d, none);
      } else {
        FailKeeps(s, at, -lane.dqMax, -d, none);
        s := s.Fail(none);
      }
      d := d - 1;
    }
    lane.dm := 0;
  }

  /** One probe of the strobe-shift sweep.  Position 0 is tested a second time, which changes nothing. */
  lemma StrobeProbeKeeps(s: Search, at: int -> bool, from: int, d: int, none: int)
    requires from <= 0 <= d < none
    requires Searched(s, at, from, Max(d, 1), none)
    ensures var t := if at(d) then s.Pass(d, none) else s.Fail(none);
            Searched(t, at, from, d + 1, none)
  {
    if d == 0 {
      if at(0) {
        assert Run(at, s.bgnCurr, 0);
        assert s.Pass(0, none) == s;
      }
    } else if at(d) {
      PassKeeps(s, at, from, d, none);
    } else {
      FailKeeps(s, at, from, d, none);
    }
  }

  /** One strobe shift of the search, and the decision whether to leave early. */
  method StrobeProbe(lane: Lane, newDqs: nat, d: nat, last: int, s0: Search, none: int) returns (s: Search, done: bool)
    requires lane.Valid() && newDqs + d <= newDqs + last <= lane.dqsMax && lane.dm == 0 && none == lane.dqMax + 1
    requires Searched(s0, MaskAxis(lane, newDqs), -lane.dqMax, Max(d, 1), none)
    modifies lane`dqs
    ensures lane.Valid()
    ensures Searched(s, MaskAxis(lane, newDqs), -lane.dqMax, d + 1, none)
    ensures done ==> s.BestIsLongestRun(MaskAxis(lane, newDqs), -lane.dqMax, last + 1, none)
  {
    ghost var at := MaskAxis(lane, newDqs);
    lane.dqs := d + newDqs;
    var pass := TestMask(lane, newDqs, d);
    StrobeProbeKeeps(s0, at, -lane.dqMax, d, none);
    s := if pass then s0.Pass(d, none) else s0.Fail(none);
    done := !pass && s.winBest - 1 > last - d;
    if done {
      EarlyExitLosesNothing(s, at, -lane.dqMax, d, last, none);
    }
  }

  /** The part of the search that shifts the strobe. */
  method StrobeShiftSweep(lane: Lane, newDqs: nat, s0: Search, none: int) returns (s: Search)
    requires lane.Valid() && newDqs <= lane.dqsMax && lane.dm == 0 && none == lane.dqMax + 1
    requires Searched(s0, MaskAxis(lane, newDqs), -lane.dqMax, 1, none)
    modifies lane`dqs
    ensures s.BestIsLongestRun(MaskAxis(lane, newDqs), -lane.dqMax, lane.dqsMax - newDqs + 1, none)
  {
    var last := lane.dqsMax - newDqs;
    s := s0;
    var d := 0;
    while d <= last
      invariant 0 <= d <= last + 1 && lane.Valid()
      invariant Searched(s, MaskAxis(lane, newDqs), -lane.dqMax, Max(d, 1), none)
    {
      var done;
      s, done := StrobeProbe(lane, newDqs, d, last, s, none);
      if done {
        return;
      }
      d := d + 1;
    }
  }

  /** The committed mask delay and margin, in terms of the best run. */
  ghost predicate MaskCommitted(s: Search, dm: int, dmMargin: int) {
    if s.winBest == 0
    then dm == 0 && dmMargin == -1
    else
      && dm == (if s.bgnBest + s.endBest < 0 then (-(s.bgnBest + s.endBest)) / 2 else 0)
      && dmMargin == -dm - s.bgnBest
  }

  /** The mask part of `rw_mgr_mem_calibrate_writes_center`. */
  method CentreMask(lane: Lane) returns (dmMargin: int, s: Search)
    requires lane.Valid()
    modifies lane`dqs, lane`dm
    ensures lane.Valid() && lane.dqs == old(lane.dqs)
    ensures s.BestIsLongestRun(MaskAxis(lane, lane.dqs), -lane.dqMax, lane.dqsMax - lane.dqs + 1, lane.dqMax + 1)
    ensures MaskCommitted(s, lane.dm, dmMargin)
  {
    var newDqs := lane.dqs;
    var none := lane.dqMax + 1;
    s := MaskShiftSweep(lane, none);
    if s.endCurr != 0 {
      s := s.Fail(none);
    }
    s := StrobeShiftSweep(lane, newDqs, s, none);
    var left, right := -1 * s.bgnBest, s.endBest;
    lane.dqs := newDqs;
    var mid := TruncDiv(left - right, 2);
    if mid < 0 {
      mid := 0;
    }
    dmMargin := if s.winBest == 0 then -1 else left - mid;
    lane.dm := mid;
  }

  // ----- what the committed mask delay is good for -----

  /** The mask part succeeds exactly when there is a passing run and the best one begins at or below the
      unmoved strobe; then the committed delay is inside that run and the mask passes there. */
  lemma MaskSucceedsIffBestStartsLow(s: Search, at: int -> bool, dqMax: int, last: int, dm: int, dmMargin: int)
    requires 0 <= dqMax && 0 <= last
    requires s.BestIsLongestRun(at, -dqMax, last + 1, dqMax + 1) && MaskCommitted(s, dm, dmMargin)
    ensures 0 <= dm <= dqMax
    ensures dmMargin >= 0 <==> s.winBest > 0 && s.bgnBest <= 0
    ensures dmMargin >= 0 ==> s.bgnBest <= -dm <= s.endBest && at(-dm)
  {
  }

  /** The best run lies wholly above the strobe, so that the midpoint is clipped to tap 0, which passes as
      well: the negative margin is then wrong about the committed tap. */
  ghost predicate ClippedOntoAPass(s: Search, at: int -> bool) {
    s.winBest > 0 && s.bgnBest > 0 && at(0)
  }

  /** The sign of the margin says whether the mask passes at its committed delay, exactly off that case. */
  lemma MarginTellsMaskIff(s: Search, at: int -> bool, dqMax: int, last: int, dm: int, dmMargin: int)
    requires 0 <= dqMax && 0 <= last
    requires s.BestIsLongestRun(at, -dqMax, last + 1, dqMax + 1) && MaskCommitted(s, dm, dmMargin)
    ensures (dmMargin >= 0 <==> at(-dm)) <==> !ClippedOntoAPass(s, at)
    ensures ClippedOntoAPass(s, at) ==> dm == 0 && dmMargin < 0
  {
    var here := at(-dm);
  }

  /** The mask part finds a delay whenever there is one, exactly unless the best run lies above the strobe
      although a shorter run reaches down to it or lies below it. */
  lemma MaskSearchIsCompleteIff(s: Search, at: int -> bool, dqMax: int, last: int, dm: int, dmMargin: int)
    requires 0 <= dqMax && 0 <= last
    requires s.BestIsLongestRun(at, -dqMax, last + 1, dqMax + 1) && MaskCommitted(s, dm, dmMargin)
    ensures var somePasses := exists p :: -dqMax <= p <= 0 && at(p);
            (dmMargin >= 0 <==> somePasses) <==> !(s.winBest > 0 && s.bgnBest > 0 && somePasses)
  {
    MaskSucceedsIffBestStartsLow(s, at, dqMax, last, dm, dmMargin);
    assert s.winBest > 0 && s.bgnBest <= 0 ==> at(s.bgnBest);
  }

  /** With a best run, the committed delay is the one nearest to its middle, the smaller of two, whether or
      not the midpoint is clipped, and the margin is its distance from the start of the run. */
  lemma MaskIsNearest(s: Search, at: int -> bool, dqMax: int, last: int, dm: int, dmMargin: int, d: int)
    requires 0 <= dqMax && 0 <= last && s.winBest > 0 && 0 <= d <= dqMax
    requires s.BestIsLongestRun(at, -dqMax, last + 1, dqMax + 1) && MaskCommitted(s, dm, dmMargin)
    ensures 0 <= dm <= dqMax && dmMargin == -dm - s.bgnBest
    ensures Abs(2 * dm + s.bgnBest + s.endBest) <= Abs(2 * d + s.bgnBest + s.endBest)
    ensures Abs(2 * dm + s.bgnBest + s.endBest) == Abs(2 * d + s.bgnBest + s.endBest) ==> dm <= d
  {
  }

  /** The same of the skews the mask can reach; without a passing position the mask goes to 0 and fails. */
  lemma MaskSkewIsNearest(s: Search, at: int -> bool, dqMax: int, last: int, dm: int, dmMargin: int)
    requires 0 <= dqMax && 0 <= last
    requires s.BestIsLongestRun(at, -dqMax, last + 1, dqMax + 1) && MaskCommitted(s, dm, dmMargin)
    ensures s.winBest > 0 ==> IsNearest(-dm, s.bgnBest, s.endBest, -dqMax, 0) && dmMargin == -dm - s.bgnBest
    ensures s.winBest == 0 ==> dm == 0 && dmMargin < 0
  {
    if s.winBest > 0 {
      MaskIsNearest(s, at, dqMax, last, dm, dmMargin, 0);
      forall y | -dqMax <= y <= 0
        ensures FromCentre(-dm, s.bgnBest, s.endBest) <= FromCentre(y, s.bgnBest, s.endBest)
      {
        MaskIsNearest(s, at, dqMax, last, dm, dmMargin, -y);
      }
    }
  }

  /** The best run passes throughout, and no passing run of the axis is longer, or as long and further left. */
  lemma BestRunBeatsAll(s: Search, lane: Lane, a: int, b: int)
    requires lane.Valid()
    requires s.BestIsLongestRun(MaskAxis(lane, lane.dqs), -lane.dqMax, lane.dqsMax - lane.dqs + 1, lane.dqMax + 1)
    requires -lane.dqMax <= a <= b <= lane.dqsMax - lane.dqs
    requires forall q :: lane.dqs + a <= q <= lane.dqs + b ==> lane.maskPasses(q)
    ensures 0 < s.winBest == s.endBest - s.bgnBest + 1
    ensures -lane.dqMax <= s.bgnBest <= s.endBest <= lane.dqsMax - lane.dqs
    ensures forall q :: lane.dqs + s.bgnBest <= q <= lane.dqs + s.endBest ==> lane.maskPasses(q)
    ensures b - a <= s.endBest - s.bgnBest && (b - a == s.endBest - s.bgnBest ==> s.bgnBest <= a)
  {
    var at := MaskAxis(lane, lane.dqs);
    forall p | a <= p <= b
      ensures at(p)
    {
      assert lane.maskPasses(lane.dqs + p);
    }
    assert at(a) && Run(at, a, b);
    forall q | lane.dqs + s.bgnBest <= q <= lane.dqs + s.endBest
      ensures lane.maskPasses(q)
    {
      assert at(q - lane.dqs);
    }
  }

  /** Unless the midpoint had to be clipped at zero, the mask is centred to within one tap. */
  lemma MaskIsCentred(s: Search, at: int -> bool, dqMax: int, last: int, dm: int, dmMargin: int)
    requires 0 <= dqMax && 0 <= last
    requires s.BestIsLongestRun(at, -dqMax, last + 1, dqMax + 1) && MaskCommitted(s, dm, dmMargin)
    requires s.winBest > 0 && s.bgnBest + s.endBest <= 0
    ensures dmMargin >= 0 && Abs((-dm - s.bgnBest) - (s.endBest - -dm)) <= 1
  {
  }

  /** The best run is unique: any two searches of the same axis agree. */
  lemma BestRunIsUnique(s: Search, t: Search, at: int -> bool, from: int, next: int, none: int)
    requires s.winBest >= 0 && t.winBest >= 0
    requires s.BestIsLongestRun(at, from, next, none) && t.BestIsLongestRun(at, from, next, none)
    ensures s.winBest == t.winBest && s.bgnBest == t.bgnBest && s.endBest == t.endBest
  {
    if s.winBest > 0 {
      assert at(s.bgnBest);
      assert Run(at, s.bgnBest, s.endBest);
    }
    if t.winBest > 0 {
      assert at(t.bgnBest);
      assert Run(at, t.bgnBest, t.endBest);
    }
  }

  /** The rule is not complete: a longer run beyond the strobe hides a delay at which the mask passes. */
  lemma MaskSearchCanMissAWorkingDelay(s: Search, dm: int, dmMargin: int)
    requires s.winBest >= 0
    requires s.BestIsLongestRun(p => p == -5 || 3 <= p <= 6, -31, 32, 32) && MaskCommitted(s, dm, dmMargin)
    ensures dmMargin < 0 && ((p: int) => p == -5 || 3 <= p <= 6)(-5)
  {
    var at := p => p == -5 || 3 <= p <= 6;
    assert at(3) && Run(at, 3, 6);
    assert s.winBest >= 4;
    assert at(s.bgnBest) && at(s.bgnBest + 1);
  }

  /** A failure where the committed delay passes: the midpoint of the run above the strobe is clipped to
      tap 0, the mask passes there, and the margin is still negative. */
  lemma MaskFailsWhereItPasses(s: Search, dm: int, dmMargin: int)
    requires s.winBest >= 0
    requires s.BestIsLongestRun(p => p == 0 || 3 <= p <= 6, -31, 32, 32) && MaskCommitted(s, dm, dmMargin)
    ensures dm == 0 && dmMargin == -3 && ((p: int) => p == 0 || 3 <= p <= 6)(-dm)
  {
    var at := p => p == 0 || 3 <= p <= 6;
    assert at(3) && Run(at, 3, 6);
    assert s.winBest >= 4;
    assert at(s.bgnBest) && at(s.bgnBest + 1) && at(s.endBest);
  }

  // ----- the whole write side -----

  /** The sweeps of the write side and the check that every bit has a window. */
  method FindWriteWindows(lane: Lane) returns (left: array<int>, right: array<int>, all: bool)
    requires lane.Valid()
    modifies lane`dqs, lane.dq
    ensures lane.Valid()
    ensures fresh(left) && fresh(right) && left.Length == right.Length == lane.bits
    ensures forall i :: 0 <= i < lane.bits ==> lane.dq[i] == 0
    ensures all <==> LaneHasAllWindows(lane, old(lane.dqs))
    ensures all ==> Holds(CutWindows(lane, old(lane.dqs)), left[..], right[..])
    ensures !all ==> lane.dqs == lane.dqsMax
  {
    ghost var start := lane.dqs;
    left, right := NoEdges(lane);
    LeftSweep(lane, left, right);
    var sticky := ResetEdges(false, lane.dqMax + 1, left, right,
                             Offsets(lane.skewLo, start), Offsets(lane.skewHi, start));
    RightSweep(false, lane, left, right, sticky);
    all := EveryBitHasWindow(left, right, lane.dqMax + 1, lane, start);
  }

  /** The data part of the write side: the strobe stays where it is, the bits move. */
  method WriteCommit(lane: Lane, start: nat, left: array<int>, right: array<int>, ghost w: Windows)
    returns (dqMargin: int, dqsMargin: int, ghost k: nat)
    requires lane.Valid() && start <= lane.dqsMax && w == CutWindows(lane, start) && w.Valid()
    requires left.Length == right.Length == lane.bits && left != lane.dq && right != lane.dq
    requires Holds(w, left[..], right[..])
    requires forall i :: 0 <= i < lane.bits ==> lane.dq[i] == 0
    modifies lane`dqs, lane.dq
    ensures lane.Valid()
    ensures w.WriteCommitted(k, lane.dqs, lane.dq[..])
    ensures AreMargins(dqMargin, dqsMargin, w, lane.dqs, lane.dq[..])
  {
    var midMin, minIndex := FindMidMin(left, right, w);
    k := minIndex;
    if midMin > 0 {
      midMin := midMin + 1;
    }
    midMin := TruncDiv(midMin, 2);
    var origMidMin := midMin;
    var newDqs := start;
    midMin := 0;
    dqMargin, dqsMargin := ShiftBits(lane, left, right, minIndex, origMidMin, midMin, w, newDqs);
    ghost var dq := lane.dq[..];
    lane.dqs := newDqs;
    assert lane.dq[..] == dq;
  }

  /** The data part followed by the mask part and the verdict. */
  method WriteAndMaskCommit(lane: Lane, gbl: Figures, start: nat, left: array<int>, right: array<int>, ghost w: Windows)
    returns (ok: bool, dqMargin: int, dqsMargin: int, dmMargin: int, s: Search, ghost k: nat)
    requires lane.Valid() && start <= lane.dqsMax && w == CutWindows(lane, start) && w.Valid()
    requires left.Length == right.Length == lane.bits && left != lane.dq && right != lane.dq
    requires Holds(w, left[..], right[..])
    requires forall i :: 0 <= i < lane.bits ==> lane.dq[i] == 0
    modifies lane`dqs, lane`dm, lane.dq, gbl`fomOut
    ensures lane.Valid()
    ensures WriteOutcome(lane, w, k, s, dmMargin, ok)
    ensures AreMargins(dqMargin, dqsMargin, w, lane.dqs, lane.dq[..])
    ensures gbl.fomOut == old(gbl.fomOut) + dqMargin + dqsMargin
  {
    dqMargin, dqsMargin, k := WriteCommit(lane, start, left, right, w);
    ghost var dq := lane.dq[..];
    dmMargin, s := CentreMask(lane);
    assert lane.dq[..] == dq;
    gbl.fomOut := gbl.fomOut + (dqMargin + dqsMargin);
    ok := dqMargin >= 0 && dqsMargin >= 0 && dmMargin >= 0;
    WriteVerdict(lane, w, start, k, s, dqMargin, dqsMargin, dmMargin);
  }

  /** What the three margins say at the committed taps. */
  lemma WriteVerdict(lane: Lane, w: Windows, start: int, k: nat, s: Search, dqMargin: int, dqsMargin: int,
                     dmMargin: int)
    requires lane.Valid() && w == CutWindows(lane, start) && w.Valid()
    requires w.WriteCommitted(k, lane.dqs, lane.dq[..])
    requires AreMargins(dqMargin, dqsMargin, w, lane.dqs, lane.dq[..])
    requires s.BestIsLongestRun(MaskAxis(lane, lane.dqs), -lane.dqMax, lane.dqsMax - lane.dqs + 1, lane.dqMax + 1)
    requires MaskCommitted(s, lane.dm, dmMargin)
    ensures Verdict(lane, w, s, dmMargin, dqMargin >= 0 && dqsMargin >= 0 && dmMargin >= 0)
  {
    VerdictIsTruthful(lane, w, start, k, dqMargin, dqsMargin);
    WriteSucceedsIffReachable(w, k, lane.dqs, lane.dq[..]);
    MaskVerdict(lane, s, dmMargin);
  }

  lemma MaskVerdict(lane: Lane, s: Search, dmMargin: int)
    requires lane.Valid()
    requires s.BestIsLongestRun(MaskAxis(lane, lane.dqs), -lane.dqMax, lane.dqsMax - lane.dqs + 1, lane.dqMax + 1)
    requires MaskCommitted(s, lane.dm, dmMargin)
    ensures dmMargin >= 0 <==> s.winBest > 0 && s.bgnBest <= 0
    ensures (dmMargin >= 0 <==> lane.maskPasses(lane.dqs - lane.dm)) <==> !ClippedOntoAPass(s, MaskAxis(lane, lane.dqs))
    ensures dmMargin >= 0 ==> lane.maskPasses(lane.dqs - lane.dm)
  {
    var at := MaskAxis(lane, lane.dqs);
    MarginTellsMaskIff(s, at, lane.dqMax, lane.dqsMax - lane.dqs, lane.dm, dmMargin);
    assert at(-lane.dm) == lane.maskPasses(lane.dqs - lane.dm);
    MaskSucceedsIffBestStartsLow(s, MaskAxis(lane, lane.dqs), lane.dqMax, lane.dqsMax - lane.dqs, lane.dm, dmMargin);
  }

  /** Everything the write side has decided once every bit has a window. */
  ghost predicate WriteOutcome(lane: Lane, w: Windows, k: nat, s: Search, dmMargin: int, ok: bool)
    reads lane, lane.dq
    requires lane.Valid() && |w.lo| == |w.hi| == lane.bits
  {
    && w.WriteCommitted(k, lane.dqs, lane.dq[..])
    && s.BestIsLongestRun(MaskAxis(lane, lane.dqs), -lane.dqMax, lane.dqsMax - lane.dqs + 1, lane.dqMax + 1)
    && MaskCommitted(s, lane.dm, dmMargin)
    && Verdict(lane, w, s, dmMargin, ok)
  }

  /** The return value is 1 only when all the bits and the mask pass at the committed taps; when they do it
      is 1, except in the one case in which the mask's margin is wrong. */
  ghost predicate Verdict(lane: Lane, w: Windows, s: Search, dmMargin: int, ok: bool)
    reads lane, lane.dq
    requires lane.Valid()
  {
    && (ok <==> lane.AllPass() && dmMargin >= 0)
    && (ok <==> w.WriteReachable() && s.winBest > 0 && s.bgnBest <= 0)
    && (ok ==> lane.maskPasses(lane.dqs - lane.dm))
    && ((ok <==> lane.AllPass() && lane.maskPasses(lane.dqs - lane.dm)) <==>
          !(w.WriteReachable() && ClippedOntoAPass(s, MaskAxis(lane, lane.dqs))))
  }

  /** With the strobe at `dqs`, some delays pass the test on every bit, and some delay passes it on the mask. */
  ghost predicate WritableAt(lane: Lane, dqs: int)
    requires |lane.skewLo| == |lane.skewHi|
  {
    && (exists dq: seq<int> :: BitsWorkAt(lane, dqs, dq))
    && (exists p :: -lane.dqMax <= p <= 0 && MaskAxis(lane, dqs)(p))
  }

  ghost predicate BitsWorkAt(lane: Lane, dqs: int, dq: seq<int>)
    requires |lane.skewLo| == |lane.skewHi|
  {
    && |dq| == |lane.skewLo|
    && forall i :: 0 <= i < |dq| ==> 0 <= dq[i] <= lane.dqMax && lane.skewLo[i] <= dqs - dq[i] <= lane.skewHi[i]
  }

  /** Data taps that work at the unmoved strobe show that every window is found and reaches down to it. */
  lemma WorkingBitsAreReachable(lane: Lane, start: int, dq: seq<int>)
    requires |lane.skewLo| == |lane.skewHi| && 0 <= start <= lane.dqsMax <= lane.dqMax && BitsWorkAt(lane, start, dq)
    ensures LaneHasAllWindows(lane, start) && CutWindows(lane, start).WriteReachable()
  {
    forall i | 0 <= i < |lane.skewLo|
      ensures HasWindow(lane.skewLo[i], lane.skewHi[i], start, lane.dqMax, lane.dqsMax)
      ensures CutWindows(lane, start).lo[i] <= 0
    {
      assert 0 <= dq[i] <= lane.dqMax;
    }
  }

  /** As far as the unmoved strobe allows any setting, the write side misses one exactly when the best mask
      run lies above the strobe. */
  lemma WriteMissesIff(lane: Lane, start: int, k: nat, s: Search, dmMargin: int, ok: bool)
    requires lane.Valid() && 0 <= start <= lane.dqsMax
    requires if LaneHasAllWindows(lane, start)
             then CutWindows(lane, start).Valid() && WriteOutcome(lane, CutWindows(lane, start), k, s, dmMargin, ok)
             else !ok
    ensures ok ==> WritableAt(lane, start)
    ensures !ok && WritableAt(lane, start) <==> WritableAt(lane, start) && s.winBest > 0 && s.bgnBest > 0
  {
    var at := MaskAxis(lane, start);
    if ok {
      forall i | 0 <= i < lane.bits
        ensures lane.skewLo[i] <= start - lane.dq[..][i] <= lane.skewHi[i]
      {
        assert lane.Passes(i);
      }
      assert BitsWorkAt(lane, start, lane.dq[..]) && at(-lane.dm);
    }
    if WritableAt(lane, start) {
      var dq :| BitsWorkAt(lane, start, dq);
      WorkingBitsAreReachable(lane, start, dq);
      var p :| -lane.dqMax <= p <= 0 && at(p);
    }
  }

  /** How good the committed taps are, and what the three margins measure. */
  lemma WriteIsNearest(lane: Lane, w: Windows, k: nat, s: Search, dqMargin: int, dqsMargin: int, dmMargin: int,
                       ok: bool)
    requires lane.Valid() && w.Valid() && |w.lo| == lane.bits && WriteOutcome(lane, w, k, s, dmMargin, ok)
    requires AreMargins(dqMargin, dqsMargin, w, lane.dqs, lane.dq[..])
    ensures lane.dqs == w.start
    ensures BitsAreNearest(w, lane.dqs, lane.dq[..])
    ensures LeastMargins(dqMargin, dqsMargin, w, lane.dqs, lane.dq[..])
    ensures s.winBest > 0 ==>
              IsNearest(-lane.dm, s.bgnBest, s.endBest, -lane.dqMax, 0) && dmMargin == -lane.dm - s.bgnBest
    ensures s.winBest == 0 ==> lane.dm == 0 && dmMargin < 0
  {
    SteeredIsNearest(w, k, lane.dqs, lane.dq[..]);
    MarginsAreAttained(w, k, lane.dqs, lane.dq[..], dqMargin, dqsMargin);
    MaskSkewIsNearest(s, MaskAxis(lane, lane.dqs), lane.dqMax, lane.dqsMax - lane.dqs, lane.dm, dmMargin);
  }

  /** Some setting of all the taps, the strobe's included, passes the test on every bit and on the mask. */
  ghost predicate LaneIsWritable(lane: Lane)
    requires |lane.skewLo| == |lane.skewHi|
  {
    exists dqs: int, dq: seq<int>, dm: int :: WritesAt(lane, dqs, dq, dm)
  }

  ghost predicate WritesAt(lane: Lane, dqs: int, dq: seq<int>, dm: int)
    requires |lane.skewLo| == |lane.skewHi|
  {
    && Works(lane.skewLo, lane.skewHi, lane.dqMax, lane.dqsMax, dqs, dq)
    && 0 <= dm <= lane.dqMax && lane.maskPasses(dqs - dm)
  }

  /** The mask passes at this skew, which no window begins more than one chain above, or ends more than one
      chain below. */
  ghost predicate MaskSkewServes(lane: Lane, p: int)
    requires |lane.skewLo| == |lane.skewHi|
  {
    && -lane.dqMax <= p <= lane.dqsMax && lane.maskPasses(p)
    && forall i :: 0 <= i < |lane.skewLo| ==> lane.skewLo[i] - lane.dqMax <= p <= lane.skewHi[i] + lane.dqMax
  }

  ghost predicate MaskWithinReach(lane: Lane)
    requires |lane.skewLo| == |lane.skewHi|
  {
    exists p :: MaskSkewServes(lane, p)
  }

  /** A working setting of all the taps exists exactly when the windows lie within one chain of each other
      and the mask passes within one chain of all of them. */
  lemma LaneIsWritableIff(lane: Lane)
    requires lane.Valid()
    ensures LaneIsWritable(lane) <==>
            WithinOneChain(lane.skewLo, lane.skewHi, lane.dqMax, lane.dqsMax) && MaskWithinReach(lane)
  {
    if WithinOneChain(lane.skewLo, lane.skewHi, lane.dqMax, lane.dqsMax) && MaskWithinReach(lane) {
      var p :| MaskSkewServes(lane, p);
      CommonTap(lane, p);
    }
    if LaneIsWritable(lane) {
      var dqs: int, dq: seq<int>, dm: int :| WritesAt(lane, dqs, dq, dm);
      WorkableIff(lane.skewLo, lane.skewHi, lane.dqMax, lane.dqsMax);
      forall i | 0 <= i < |lane.skewLo|
        ensures lane.skewLo[i] - lane.dqMax <= dqs - dm <= lane.skewHi[i] + lane.dqMax
      {
        assert 0 <= dq[i] <= lane.dqMax;
      }
      assert MaskSkewServes(lane, dqs - dm);
    }
  }

  /** The strobe tap that serves all bits and a given mask skew: the last start, the skew itself, or 0. */
  lemma CommonTap(lane: Lane, p: int)
    requires lane.Valid() && MaskSkewServes(lane, p)
    requires WithinOneChain(lane.skewLo, lane.skewHi, lane.dqMax, lane.dqsMax)
    ensures LaneIsWritable(lane)
  {
    var k := LastStart(lane.skewLo);
    var dqs := Max(Max(0, p), lane.skewLo[k]);
    var dq := seq(|lane.skewLo|, i requires 0 <= i < |lane.skewHi| => Max(0, dqs - lane.skewHi[i]));
    forall i | 0 <= i < |dq|
      ensures 0 <= dq[i] <= lane.dqMax && lane.skewLo[i] <= dqs - dq[i] <= lane.skewHi[i]
    {
      assert lane.skewLo[k] <= lane.skewHi[i] + lane.dqMax;
    }
    assert lane.maskPasses(dqs - (dqs - p));
    assert WritesAt(lane, dqs, dq, dqs - p);
  }

  /** When the write side misses a working setting of all the taps: one exists, but from `start` the sweeps
      do not find all windows, or one does not reach down to the strobe, or the best mask run is missing or
      lies above it. */
  lemma WriteMissesElsewhereIff(lane: Lane, start: int, k: nat, s: Search, dmMargin: int, ok: bool)
    requires lane.Valid() && 0 <= start <= lane.dqsMax
    requires if LaneHasAllWindows(lane, start)
             then CutWindows(lane, start).Valid() && WriteOutcome(lane, CutWindows(lane, start), k, s, dmMargin, ok)
             else !ok
    ensures ok ==> LaneIsWritable(lane)
    ensures !ok && LaneIsWritable(lane) <==>
              && WithinOneChain(lane.skewLo, lane.skewHi, lane.dqMax, lane.dqsMax) && MaskWithinReach(lane)
              && !(LaneHasAllWindows(lane, start) && CutWindows(lane, start).WriteReachable()
                   && s.winBest > 0 && s.bgnBest <= 0)
  {
    LaneIsWritableIff(lane);
    if ok {
      forall i | 0 <= i < lane.bits
        ensures lane.skewLo[i] <= lane.dqs - lane.dq[..][i] <= lane.skewHi[i]
      {
        assert lane.Passes(i);
      }
      assert WritesAt(lane, lane.dqs, lane.dq[..], lane.dm);
    }
  }

  /** `rw_mgr_mem_calibrate_writes_center` in the built configuration. */
  method WritesCenter(lane: Lane, gbl: Figures)
    returns (ok: bool, dqMargin: int, dqsMargin: int, dmMargin: int, s: Search, ghost k: nat)
    requires lane.Valid()
    modifies lane`dqs, lane`dm, lane.dq, gbl`fomOut
    ensures lane.Valid()
    ensures !LaneHasAllWindows(lane, old(lane.dqs)) ==>
              && !ok && lane.dqs == lane.dqsMax && lane.dm == old(lane.dm) && gbl.fomOut == old(gbl.fomOut)
              && forall i :: 0 <= i < lane.bits ==> lane.dq[i] == 0
    ensures LaneHasAllWindows(lane, old(lane.dqs)) ==>
              var w := CutWindows(lane, old(lane.dqs));
              && w.Valid()
              && WriteOutcome(lane, w, k, s, dmMargin, ok)
              && lane.dqs == old(lane.dqs)
              && BitsAreNearest(w, lane.dqs, lane.dq[..])
              && LeastMargins(dqMargin, dqsMargin, w, lane.dqs, lane.dq[..])
              && (s.winBest > 0 ==> IsNearest(-lane.dm, s.bgnBest, s.endBest, -lane.dqMax, 0)
                                    && dmMargin == -lane.dm - s.bgnBest)
              && (s.winBest == 0 ==> lane.dm == 0 && dmMargin < 0)
              && gbl.fomOut == old(gbl.fomOut) + dqMargin + dqsMargin
    ensures !ok && WritableAt(lane, old(lane.dqs)) <==>
              WritableAt(lane, old(lane.dqs)) && s.winBest > 0 && s.bgnBest > 0
    ensures !ok && LaneIsWritable(lane) <==>
              && WithinOneChain(lane.skewLo, lane.skewHi, lane.dqMax, lane.dqsMax) && MaskWithinReach(lane)
              && !(LaneHasAllWindows(lane, old(lane.dqs)) && CutWindows(lane, old(lane.dqs)).WriteReachable()
                   && s.winBest > 0 && s.bgnBest <= 0)
  {
    ok, dqMargin, dqsMargin, dmMargin, k := false, 0, 0, 0, 0;
    s := Search(0, 0, 0, 0, 0);
    var start := lane.dqs;
    var left, right, all := FindWriteWindows(lane);
    if all {
      CutWindowsValid(lane, start);
      ok, dqMargin, dqsMargin, dmMargin, s, k :=
        WriteAndMaskCommit(lane, gbl, start, left, right, CutWindows(lane, start));
      WriteIsNearest(lane, CutWindows(lane, start), k, s, dqMargin, dqsMargin, dmMargin, ok);
    }
    WriteMissesIff(lane, start, k, s, dmMargin, ok);
    WriteMissesElsewhereIff(lane, start, k, s, dmMargin, ok);
  }
}
