/** Read-side centring of one strobe group: sweep, deskew, commit. */
module ReadCentre {
  import opened CArith
  import opened EdgeSweep
  import opened Deskew

  /** The figures of merit, the part of the global record these functions update. */
  class Figures {
    var fomIn: int
    var fomOut: int

    constructor ()
      ensures fomIn == fomOut == 0
    {
      fomIn, fomOut := 0, 0;
    }
  }

  /** The windows of a lane, cut to what the taps reach from strobe tap `start`. */
  ghost function CutWindows(lane: Lane, start: int): (w: Windows)
    requires |lane.skewLo| == |lane.skewHi|
    ensures |w.lo| == |w.hi| == |lane.skewLo|
    ensures w.start == start && w.dqMax == lane.dqMax && w.dqsMax == lane.dqsMax
    ensures forall i :: 0 <= i < |w.lo| ==>
              && w.lo[i] == CutLo(lane.skewLo[i], start, lane.dqMax)
              && w.hi[i] == CutHi(lane.skewHi[i], start, lane.dqsMax)
  {
    Windows(seq(|lane.skewLo|, i requires 0 <= i < |lane.skewLo| => CutLo(lane.skewLo[i], start, lane.dqMax)),
            seq(|lane.skewHi|, i requires 0 <= i < |lane.skewHi| => CutHi(lane.skewHi[i], start, lane.dqsMax)),
            start, lane.dqMax, lane.dqsMax)
  }

  ghost predicate LaneHasAllWindows(lane: Lane, start: int)
    requires |lane.skewLo| == |lane.skewHi|
  {
    AllWindows(lane.skewLo, lane.skewHi, start, lane.dqMax, lane.dqsMax)
  }

  /** The windows hold exactly the offsets the sweeps reach at which the bit passes, and all bits have one
      exactly when each passes at some skew within reach. */
  lemma WindowsAreReachedSkews(lane: Lane, start: int, i: nat, x: int)
    requires i < |lane.skewLo| == |lane.skewHi| && 0 <= start <= lane.dqsMax <= lane.dqMax
    ensures CutWindows(lane, start).lo[i] <= x <= CutWindows(lane, start).hi[i] <==>
              -lane.dqMax <= x <= lane.dqsMax - start && lane.skewLo[i] <= start + x <= lane.skewHi[i]
    ensures LaneHasAllWindows(lane, start) <==>
              forall j :: 0 <= j < |lane.skewLo| ==>
                && lane.skewLo[j] <= lane.skewHi[j]
                && lane.skewLo[j] <= lane.dqsMax && start - lane.dqMax <= lane.skewHi[j]
  {
    forall j | 0 <= j < |lane.skewLo|
      ensures HasWindow(lane.skewLo[j], lane.skewHi[j], start, lane.dqMax, lane.dqsMax) <==>
                && lane.skewLo[j] <= lane.skewHi[j]
                && lane.skewLo[j] <= lane.dqsMax && start - lane.dqMax <= lane.skewHi[j]
    {
    }
  }

  /** Fresh edge arrays, set to the illegal value. */
  method NoEdges(lane: Lane) returns (left: array<int>, right: array<int>)
    requires lane.Valid()
    ensures fresh(left) && fresh(right) && left != right
    ensures left.Length == right.Length == lane.bits
    ensures forall i :: 0 <= i < lane.bits ==> left[i] == right[i] == lane.dqMax + 1
  {
    left := new int[lane.bits](_ => lane.dqMax + 1);
    right := new int[lane.bits](_ => lane.dqMax + 1);
  }

  /** Checks that every bit has a window. */
  method EveryBitHasWindow(left: array<int>, right: array<int>, none: int, ghost lane: Lane, ghost start: int)
    returns (all: bool)
    requires |lane.skewLo| == |lane.skewHi| && 0 <= start <= lane.dqsMax <= lane.dqMax && none == lane.dqMax + 1
    requires AllExact(lane.skewLo, lane.skewHi, start, lane.dqMax, lane.dqsMax, left[..], right[..])
    ensures all <==> LaneHasAllWindows(lane, start)
    ensures all ==> Holds(CutWindows(lane, start), left[..], right[..])
  {
    for i := 0 to left.Length
      invariant forall k :: 0 <= k < i ==>
                  HasWindow(lane.skewLo[k], lane.skewHi[k], start, lane.dqMax, lane.dqsMax)
    {
      assert Exact(lane.skewLo[i], lane.skewHi[i], start, lane.dqMax, lane.dqsMax, left[..][i], right[..][i]);
      if left[i] == none || right[i] == none {
        assert !HasWindow(lane.skewLo[i], lane.skewHi[i], start, lane.dqMax, lane.dqsMax);
        return false;
      }
    }
    all := true;
    assert forall i :: 0 <= i < left.Length ==>
        Exact(lane.skewLo[i], lane.skewHi[i], start, lane.dqMax, lane.dqsMax, left[..][i], right[..][i]);
  }

  lemma CutWindowsValid(lane: Lane, start: int)
    requires 0 < |lane.skewLo| == |lane.skewHi| && 0 <= start <= lane.dqsMax <= lane.dqMax
    requires LaneHasAllWindows(lane, start)
    ensures CutWindows(lane, start).Valid()
  {
    forall i | 0 <= i < |lane.skewLo|
      ensures HasWindow(lane.skewLo[i], lane.skewHi[i], start, lane.dqMax, lane.dqsMax)
    {
    }
  }

  /** At taps no bit is steered outside the reach of the sweep by, passing and being inside coincide. */
  lemma PassingIsInside(lane: Lane, w: Windows, start: int, dqs: int, dq: seq<int>, i: nat)
    requires |lane.skewLo| == |lane.skewHi| == |dq| && i < |dq|
    requires w == CutWindows(lane, start) && w.Valid()
    requires -w.dqMax <= dqs - start - dq[i] <= w.dqsMax - start
    ensures w.Inside(i, dqs, dq) <==> lane.skewLo[i] <= dqs - dq[i] <= lane.skewHi[i]
  {
  }

  lemma ReadOffsetsWithinReach(w: Windows, k: nat, dqs: int, dq: seq<int>, i: nat)
    requires w.Valid() && i < |dq| == |w.lo| && w.ReadCommitted(k, dqs, dq)
    ensures -w.dqMax <= dqs - w.start - dq[i] <= w.dqsMax - w.start
  {
    ReadTapsInRange(w, k, dqs, dq);
    BalancePointIsCentral(w, i, k);
  }

  lemma WriteOffsetsWithinReach(w: Windows, k: nat, dqs: int, dq: seq<int>, i: nat)
    requires w.Valid() && i < |dq| == |w.lo| && w.WriteCommitted(k, dqs, dq)
    ensures -w.dqMax <= dqs - w.start - dq[i] <= w.dqsMax - w.start
  {
    BalancePointIsCentral(w, i, k);
  }

  /** Passing the test at the committed taps and being inside every window are the same thing. */
  lemma AllPassIsAllInside(lane: Lane, w: Windows, start: int)
    requires lane.Valid() && w == CutWindows(lane, start) && w.Valid()
    requires forall i :: 0 <= i < lane.bits ==> -w.dqMax <= lane.dqs - start - lane.dq[..][i] <= w.dqsMax - start
    ensures lane.AllPass() <==> w.AllInside(lane.dqs, lane.dq[..])
  {
    var dq := lane.dq[..];
    forall i | 0 <= i < lane.bits
      ensures lane.Passes(i) <==> w.Inside(i, lane.dqs, dq)
    {
      assert -w.dqMax <= lane.dqs - start - dq[i] <= w.dqsMax - start;
      PassingIsInside(lane, w, start, lane.dqs, dq, i);
    }
    if lane.AllPass() {
      forall i | 0 <= i < |dq| ensures w.Inside(i, lane.dqs, dq) {
        assert lane.Passes(i);
      }
    }
    if w.AllInside(lane.dqs, dq) {
      forall i | 0 <= i < lane.bits ensures lane.Passes(i) {
        assert w.Inside(i, lane.dqs, dq);
      }
    }
  }

  /** Everything the read side has decided once every bit has a window. */
  ghost predicate ReadOutcome(lane: Lane, w: Windows, k: nat, ok: bool)
    reads lane, lane.dq
    requires lane.Valid() && |w.lo| == |w.hi| == lane.bits
  {
    && w.ReadCommitted(k, lane.dqs, lane.dq[..])
    && (ok <==> lane.AllPass())
    && (ok <==> w.ReadReachable(k))
  }

  /** The verdict on the margins is the verdict of the test at the committed taps. */
  lemma VerdictIsTruthful(lane: Lane, w: Windows, start: int, k: nat, dqMargin: int, dqsMargin: int)
    requires lane.Valid() && w == CutWindows(lane, start) && w.Valid()
    requires w.ReadCommitted(k, lane.dqs, lane.dq[..]) || w.WriteCommitted(k, lane.dqs, lane.dq[..])
    requires AreMargins(dqMargin, dqsMargin, w, lane.dqs, lane.dq[..])
    ensures lane.AllPass() <==> dqMargin >= 0 && dqsMargin >= 0
    ensures lane.AllPass() <==> w.AllInside(lane.dqs, lane.dq[..])
  {
    var dq := lane.dq[..];
    MarginsTellInside(w, lane.dqs, dq, dqMargin, dqsMargin);
    forall i | 0 <= i < lane.bits
      ensures -w.dqMax <= lane.dqs - start - dq[i] <= w.dqsMax - start
    {
      if w.ReadCommitted(k, lane.dqs, dq) {
        ReadOffsetsWithinReach(w, k, lane.dqs, dq, i);
      } else {
        WriteOffsetsWithinReach(w, k, lane.dqs, dq, i);
      }
    }
    AllPassIsAllInside(lane, w, start);
  }

  /** Some setting of the taps passes the test on every bit. */
  ghost predicate LaneIsWorkable(lane: Lane)
    requires |lane.skewLo| == |lane.skewHi|
  {
    Workable(lane.skewLo, lane.skewHi, lane.dqMax, lane.dqsMax)
  }

  /** When the read side misses a working setting: the windows lie within one chain of each other, but the
      sweeps from `start` do not reach all of them, or one ends more than a chain below the chosen strobe. */
  lemma ReadMissesIff(lane: Lane, start: int, k: nat, ok: bool)
    requires lane.Valid()
    requires var found := LaneHasAllWindows(lane, start);
             if found then CutWindows(lane, start).Valid() && ReadOutcome(lane, CutWindows(lane, start), k, ok) else !ok
    ensures !ok && LaneIsWorkable(lane) <==>
            && WithinOneChain(lane.skewLo, lane.skewHi, lane.dqMax, lane.dqsMax)
            && (LaneHasAllWindows(lane, start) ==> !CutWindows(lane, start).ReadReachable(k))
    ensures ok ==> LaneIsWorkable(lane)
  {
    WorkableIff(lane.skewLo, lane.skewHi, lane.dqMax, lane.dqsMax);
    if ok {
      assert lane.AllPass();
      forall i | 0 <= i < lane.bits
        ensures lane.skewLo[i] <= lane.dqs - lane.dq[..][i] <= lane.skewHi[i]
      {
        assert lane.Passes(i);
      }
      assert Works(lane.skewLo, lane.skewHi, lane.dqMax, lane.dqsMax, lane.dqs, lane.dq[..]);
    }
  }

  /** How good the committed taps are, and what the two margins measure. */
  lemma ReadIsNearest(lane: Lane, w: Windows, k: nat, ok: bool, dqMargin: int, dqsMargin: int)
    requires lane.Valid() && w.Valid() && |w.lo| == lane.bits && ReadOutcome(lane, w, k, ok)
    requires AreMargins(dqMargin, dqsMargin, w, lane.dqs, lane.dq[..])
    ensures IsNearest(lane.dqs - w.start, w.lo[k], w.hi[k], -w.start, w.dqsMax - w.start)
    ensures BitsAreNearest(w, lane.dqs, lane.dq[..])
    ensures LeastMargins(dqMargin, dqsMargin, w, lane.dqs, lane.dq[..])
  {
    var dq := lane.dq[..];
    ReadStrobeIsNearest(w, k, lane.dqs, dq);
    SteeredIsNearest(w, k, lane.dqs, dq);
    MarginsAreAttained(w, k, lane.dqs, dq, dqMargin, dqsMargin);
  }

  /** The strobe half of the deskew: from the smallest `left - right` to the new strobe tap. */
  method CentreStrobe(start: nat, dqsMax: nat, midMin0: int, ghost w: Windows, ghost k: nat)
    returns (newDqs: int, midMin: int, origMidMin: int)
    requires w.Valid() && w.IsRightmost(k) && w.start == start && w.dqsMax == dqsMax
    requires midMin0 == -w.Centre2(k)
    ensures origMidMin == -(w.Centre2(k) / 2)
    ensures newDqs == start - midMin == Max(0, start + w.Centre2(k) / 2)
    ensures 0 <= newDqs <= dqsMax
  {
    midMin := midMin0;
    if midMin > 0 {
      midMin := midMin + 1;
    }
    midMin := TruncDiv(midMin, 2);
    origMidMin := midMin;
    newDqs := start - midMin;
    if newDqs > dqsMax {
      newDqs := dqsMax;
    } else if newDqs < 0 {
      newDqs := 0;
    }
    midMin := start - newDqs;
    newDqs := start - midMin;
  }

  /** The sweeps of the read side and the check that every bit has a window. */
  method FindReadWindows(lane: Lane) returns (left: array<int>, right: array<int>, all: bool)
    requires lane.Valid()
    modifies lane`dqs, lane.dq
    ensures lane.Valid()
    ensures fresh(left) && fresh(right) && left.Length == right.Length == lane.bits
    ensures forall i :: 0 <= i < lane.bits ==> lane.dq[i] == 0
    ensures all <==> LaneHasAllWindows(lane, old(lane.dqs))
    ensures all ==> Holds(CutWindows(lane, old(lane.dqs)), left[..], right[..])
  {
    ghost var start := lane.dqs;
    left, right := NoEdges(lane);
    LeftSweep(lane, left, right);
    var sticky := ResetEdges(true, lane.dqMax + 1, left, right,
                             Offsets(lane.skewLo, start), Offsets(lane.skewHi, start));
    RightSweep(true, lane, left, right, sticky);
    all := EveryBitHasWindow(left, right, lane.dqMax + 1, lane, start);
  }

  /** `rw_mgr_mem_calibrate_vfifo_center` in the built configuration. */
  method VfifoCenter(lane: Lane, gbl: Figures, updateFom: bool)
    returns (ok: bool, dqMargin: int, dqsMargin: int, ghost k: nat, ghost w: Windows)
    requires lane.Valid()
    modifies lane`dqs, lane.dq, gbl`fomIn
    ensures lane.Valid() && w == CutWindows(lane, old(lane.dqs))
    ensures !LaneHasAllWindows(lane, old(lane.dqs)) ==>
              && !ok && lane.dqs == old(lane.dqs) && gbl.fomIn == old(gbl.fomIn)
              && forall i :: 0 <= i < lane.bits ==> lane.dq[i] == 0
    ensures LaneHasAllWindows(lane, old(lane.dqs)) ==>
              && w.Valid()
              && ReadOutcome(lane, w, k, ok)
              && IsNearest(lane.dqs - w.start, w.lo[k], w.hi[k], -w.start, w.dqsMax - w.start)
              && BitsAreNearest(w, lane.dqs, lane.dq[..])
              && LeastMargins(dqMargin, dqsMargin, w, lane.dqs, lane.dq[..])
              && gbl.fomIn == old(gbl.fomIn) + if updateFom then dqMargin + dqsMargin else 0
    ensures !ok && LaneIsWorkable(lane) <==>
              && WithinOneChain(lane.skewLo, lane.skewHi, lane.dqMax, lane.dqsMax)
              && (LaneHasAllWindows(lane, old(lane.dqs)) ==> !w.ReadReachable(k))
  {
    k, dqMargin, dqsMargin := 0, 0, 0;
    var start := lane.dqs;
    w := CutWindows(lane, start);
    var left, right, all := FindReadWindows(lane);
    if !all {
      lane.dqs := start;
      ReadMissesIff(lane, start, k, false);
      return false, dqMargin, dqsMargin, k, w;
    }
    CutWindowsValid(lane, start);
    ok, dqMargin, dqsMargin, k := ReadCommit(lane, gbl, updateFom, start, left, right, w);
    ReadMissesIff(lane, start, k, ok);
  }

  /** The second half of `rw_mgr_mem_calibrate_vfifo_center`: choose, commit and judge the taps. */
  method ReadCommit(lane: Lane, gbl: Figures, updateFom: bool, start: nat, left: array<int>, right: array<int>,
                    ghost w: Windows)
    returns (ok: bool, dqMargin: int, dqsMargin: int, ghost k: nat)
    requires lane.Valid() && w == CutWindows(lane, start) && w.Valid()
    requires left.Length == right.Length == lane.bits && left != lane.dq && right != lane.dq
    requires Holds(w, left[..], right[..])
    requires forall i :: 0 <= i < lane.bits ==> lane.dq[i] == 0
    modifies lane`dqs, lane.dq, gbl`fomIn
    ensures lane.Valid()
    ensures ReadOutcome(lane, w, k, ok)
    ensures IsNearest(lane.dqs - w.start, w.lo[k], w.hi[k], -w.start, w.dqsMax - w.start)
    ensures BitsAreNearest(w, lane.dqs, lane.dq[..])
    ensures LeastMargins(dqMargin, dqsMargin, w, lane.dqs, lane.dq[..])
    ensures gbl.fomIn == old(gbl.fomIn) + if updateFom then dqMargin + dqsMargin else 0
  {
    var midMin0, minIndex := FindMidMin(left, right, w);
    k := minIndex;
    var newDqs, midMin, origMidMin := CentreStrobe(start, lane.dqsMax, midMin0, w, k);
    dqMargin, dqsMargin := ShiftBits(lane, left, right, minIndex, origMidMin, midMin, w, newDqs);
    ghost var dq := lane.dq[..];
    lane.dqs := newDqs;
    assert lane.dq[..] == dq;
    if updateFom {
      gbl.fomIn := gbl.fomIn + (dqMargin + dqsMargin);
    }
    ok := dqMargin >= 0 && dqsMargin >= 0;
    VerdictIsTruthful(lane, w, start, k, dqMargin, dqsMargin);
    ReadSucceedsIffReachable(w, k, lane.dqs, lane.dq[..]);
    ReadIsNearest(lane, w, k, ok, dqMargin, dqsMargin);
  }
}
