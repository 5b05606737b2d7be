/**
  Delay-window discovery for one strobe group (read side and write side).

  A group has one strobe (DQS) tap, one tap per data bit (DQ) and one data-mask (DM) tap.  A test
  reads the interface through the current taps.  Bit `i` passes exactly when the skew between the
  strobe tap and its own tap lies in that bit's physical window `skewLo[i]..skewHi[i]`, which may be
  empty.  The mask passes on an arbitrary set of skews.
*/
module EdgeSweep {
  import opened CArith

  class Lane {
    const bits: nat
    const dqMax: int
    const dqsMax: int
    const skewLo: seq<int>
    const skewHi: seq<int>
    const maskPasses: int -> bool
    const dq: array<int>
    var dqs: int
    var dm: int

    constructor (dqMax: nat, dqsMax: nat, skewLo: seq<int>, skewHi: seq<int>,
                 maskPasses: int -> bool, dqs: nat)
      requires 0 < |skewLo| == |skewHi|
      requires dqs <= dqsMax <= dqMax
      ensures Valid() && fresh(dq)
      ensures this.dqMax == dqMax && this.dqsMax == dqsMax && this.dqs == dqs
      ensures this.skewLo == skewLo && this.skewHi == skewHi && this.maskPasses == maskPasses
    {
      this.bits := |skewLo|;
      this.dqMax, this.dqsMax := dqMax, dqsMax;
      this.skewLo, this.skewHi := skewLo, skewHi;
      this.maskPasses := maskPasses;
      this.dq := new int[|skewLo|](_ => 0);
      this.dqs, this.dm := dqs, 0;
    }

    /** Every tap is inside its delay chain. */
    ghost predicate Valid()
      reads this, dq
    {
      && 0 < bits == |skewLo| == |skewHi| == dq.Length
      && 0 <= dqsMax <= dqMax
      && 0 <= dqs <= dqsMax
      && 0 <= dm <= dqMax
      && forall i :: 0 <= i < bits ==> 0 <= dq[i] <= dqMax
    }

    predicate Passes(i: nat)
      reads this, dq
      requires i < |skewLo| && i < |skewHi| && i < dq.Length
    {
      skewLo[i] <= dqs - dq[i] <= skewHi[i]
    }

    ghost predicate AllPass()
      reads this, dq
      requires Valid()
    {
      forall i :: 0 <= i < bits ==> Passes(i)
    }

    /** The register-driven test, in its "at least one bit" form: the mask of the bits that passed. */
    method Test() returns (bitChk: seq<bool>, some: bool)
      requires Valid()
      ensures |bitChk| == bits
      ensures forall i :: 0 <= i < bits ==> bitChk[i] == Passes(i)
      ensures some <==> exists i :: 0 <= i < bits && bitChk[i]
    {
      bitChk := [];
      some := false;
      for i := 0 to bits
        invariant |bitChk| == i
        invariant forall k :: 0 <= k < i ==> bitChk[k] == Passes(k)
        invariant some <==> exists k :: 0 <= k < i && bitChk[k]
      {
        bitChk := bitChk + [Passes(i)];
        some := some || bitChk[i];
      }
    }

    /** Loads the same delay on every data bit. */
    method ApplyGroupDq(delay: nat)
      requires Valid() && delay <= dqMax
      modifies dq
      ensures Valid()
      ensures forall i :: 0 <= i < bits ==> dq[i] == delay
    {
      for i := 0 to bits
        invariant forall k :: 0 <= k < i ==> dq[k] == delay
        invariant forall k :: 0 <= k < bits ==> 0 <= dq[k] <= dqMax
      {
        dq[i] := delay;
      }
    }
  }

  // ----- the windows the sweeps can see -----

  /** The part of a window the two half-sweeps reach: `-dqMax..dqsMax - start` around the start point. */
  function CutLo(lo: int, start: int, dqMax: int): int {
    Max(lo - start, -dqMax)
  }

  function CutHi(hi: int, start: int, dqsMax: int): int {
    Min(hi - start, dqsMax - start)
  }

  ghost predicate HasWindow(lo: int, hi: int, start: int, dqMax: int, dqsMax: int) {
    CutLo(lo, start, dqMax) <= CutHi(hi, start, dqsMax)
  }

  // ----- what each bit's pair of edges means while a sweep is under way -----

  /** The edges after the delays `0..d-1` of the DQ sweep; `none` is the illegal value. */
  ghost predicate LeftSoFar(lo: int, hi: int, none: int, d: int, left: int, right: int) {
    var first := Max(0, -hi);
    var last := Min(d - 1, -lo);
    if first <= last
    then left == last && right == (if first == 0 then none else -first)
    else left == none && right == (if d == 0 then none else -d)
  }

  /** The edges after the whole DQ sweep; the right edge of a bit that never passed is bogus. */
  ghost predicate LeftSwept(lo: int, hi: int, none: int, left: int, right: int) {
    var first := Max(0, -hi);
    var last := Min(none - 1, -lo);
    if first <= last
    then left == last && right == (if first == 0 then none else -first)
    else left == none
  }

  /** The edges after the shifts `0..d-1` of the DQS sweep. */
  ghost predicate RightSoFar(lo: int, hi: int, none: int, d: int, left: int, right: int) {
    if Max(0, -hi) <= Min(none - 1, -lo)
    then // seen by the DQ sweep
      && left == Min(none - 1, -lo)
      && right == (if hi < 0 then hi else if d == 0 then none else Min(d - 1, hi))
    else if Max(0, lo) <= Min(d - 1, hi)
    then // first seen by the DQS sweep
      left == -Max(0, lo) && right == Min(d - 1, hi)
    else
      left == (if d == 0 then none else -d) && right == none
  }

  /** The bit saw a pass in the DQ sweep. */
  ghost predicate SeenLeft(lo: int, hi: int, none: int) {
    Max(0, -hi) <= Min(none - 1, -lo)
  }

  /** The bit is sticky when the DQS sweep begins. */
  ghost predicate KnownBefore(readSide: bool, lo: int, hi: int, none: int) {
    SeenLeft(lo, hi, none) && (readSide ==> hi < 0)
  }

  /** The bit saw a pass among the shifts `0..d-1` of the DQS sweep. */
  ghost predicate SeenRight(lo: int, hi: int, d: int) {
    Max(0, lo) <= Min(d - 1, hi)
  }

  ghost predicate Exact(lo: int, hi: int, start: int, dqMax: int, dqsMax: int, left: int, right: int) {
    if HasWindow(lo, hi, start, dqMax, dqsMax)
    then left == -CutLo(lo, start, dqMax) && right == CutHi(hi, start, dqsMax)
    else right == dqMax + 1
  }

  // ----- recording one test result in the edge arrays -----

  datatype Edges = Edges(left: int, right: int)

  /** What one test of the DQ sweep at delay `d` does to a bit's edges. */
  function StepLeft(e: Edges, d: int, pass: bool, none: int): Edges {
    if pass then e.(left := d)
    else if e.left == none then e.(right := -(d + 1))
    else e
  }

  /** What one test of the DQS sweep at shift `d` does to a bit's edges. */
  function StepRight(e: Edges, d: int, pass: bool, none: int): Edges {
    if pass then e.(right := d)
    else if d != 0 then
      if e.right == none then e.(left := -(d + 1)) else e
    else if e.right == none && e.left != none then e.(right := -1)
    else if e.right == none then e.(left := -(d + 1))
    else e
  }

  lemma StepLeftKeeps(lo: int, hi: int, none: int, d: int, e: Edges)
    requires 0 <= d < none
    requires LeftSoFar(lo, hi, none, d, e.left, e.right)
    ensures var e' := StepLeft(e, d, lo <= -d <= hi, none);
            LeftSoFar(lo, hi, none, d + 1, e'.left, e'.right)
  {
  }

  lemma StepRightKeeps(lo: int, hi: int, none: int, d: int, e: Edges)
    requires 0 <= d < none
    requires RightSoFar(lo, hi, none, d, e.left, e.right)
    ensures var e' := StepRight(e, d, lo <= d <= hi, none);
            RightSoFar(lo, hi, none, d + 1, e'.left, e'.right)
  {
  }

  /** Every bit's edges have been updated by one test of the DQ sweep. */
  ghost predicate SteppedLeft(left: seq<int>, right: seq<int>, left': seq<int>, right': seq<int>,
                              d: int, bitChk: seq<bool>, none: int)
  {
    && |left| == |right| == |left'| == |right'| == |bitChk|
    && forall i :: 0 <= i < |left| ==>
         Edges(left'[i], right'[i]) == StepLeft(Edges(left[i], right[i]), d, bitChk[i], none)
  }

  ghost predicate SteppedRight(left: seq<int>, right: seq<int>, left': seq<int>, right': seq<int>,
                               d: int, bitChk: seq<bool>, none: int)
  {
    && |left| == |right| == |left'| == |right'| == |bitChk|
    && forall i :: 0 <= i < |left| ==>
         Edges(left'[i], right'[i]) == StepRight(Edges(left[i], right[i]), d, bitChk[i], none)
  }

  /** The inner loop of the DQ sweep. */
  method RecordLeft(bitChk: seq<bool>, d: int, none: int, left: array<int>, right: array<int>)
    requires left != right && |bitChk| == left.Length == right.Length
    modifies left, right
    ensures SteppedLeft(old(left[..]), old(right[..]), left[..], right[..], d, bitChk, none)
  {
    for i := 0 to left.Length
      invariant forall k :: 0 <= k < i ==>
                  Edges(left[k], right[k]) == StepLeft(Edges(old(left[k]), old(right[k])), d, bitChk[k], none)
      invariant forall k :: i <= k < left.Length ==> left[k] == old(left[k]) && right[k] == old(right[k])
    {
      if bitChk[i] {
        left[i] := d;
      } else if left[i] == none {
        right[i] := -(d + 1);
      }
    }
  }

  /** The inner loop of the DQS sweep. */
  method RecordRight(bitChk: seq<bool>, d: int, none: int, left: array<int>, right: array<int>)
    requires left != right && |bitChk| == left.Length == right.Length
    modifies left, right
    ensures SteppedRight(old(left[..]), old(right[..]), left[..], right[..], d, bitChk, none)
  {
    for i := 0 to left.Length
      invariant forall k :: 0 <= k < i ==>
                  Edges(left[k], right[k]) == StepRight(Edges(old(left[k]), old(right[k])), d, bitChk[k], none)
      invariant forall k :: i <= k < left.Length ==> left[k] == old(left[k]) && right[k] == old(right[k])
    {
      if bitChk[i] {
        right[i] := d;
      } else if d != 0 {
        if right[i] == none {
          left[i] := -(d + 1);
        }
      } else if right[i] == none && left[i] != none {
        right[i] := -1;
      } else if right[i] == none {
        left[i] := -(d + 1);
      }
    }
  }

  /** A right edge that a stop at shift 0 would mark as marginal. */
  ghost predicate Marked(left: seq<int>, right: seq<int>, right': seq<int>, none: int) {
    && |left| == |right| == |right'|
    && forall i :: 0 <= i < |left| ==>
         right'[i] == if right[i] == none && left[i] != none then -1 else right[i]
  }

  /** The write side's extra loop for a stop at shift 0. */
  method MarkMarginal(none: int, left: array<int>, right: array<int>)
    requires left != right && left.Length == right.Length
    modifies right
    ensures Marked(left[..], old(right[..]), right[..], none)
  {
    for i := 0 to left.Length
      invariant forall k :: 0 <= k < i ==>
                  right[k] == if old(right[k]) == none && left[k] != none then -1 else old(right[k])
      invariant forall k :: i <= k < left.Length ==> right[k] == old(right[k])
    {
      if right[i] == none && left[i] != none {
        right[i] := -1;
      }
    }
  }

  ghost predicate AllTrue(bits: seq<bool>) {
    forall i :: 0 <= i < |bits| ==> bits[i]
  }

  ghost predicate NoneTrue(bits: seq<bool>) {
    forall i :: 0 <= i < |bits| ==> !bits[i]
  }

  ghost predicate IsOr(r: seq<bool>, a: seq<bool>, b: seq<bool>) {
    |r| == |a| == |b| && forall i :: 0 <= i < |r| ==> r[i] == (a[i] || b[i])
  }

  /** Bitwise `or` of two test masks, and the comparison with the mask of all bits. */
  method Accumulate(sticky: seq<bool>, bitChk: seq<bool>) returns (r: seq<bool>, all: bool)
    requires |sticky| == |bitChk|
    ensures IsOr(r, sticky, bitChk)
    ensures all <==> AllTrue(r)
  {
    r, all := [], true;
    for i := 0 to |sticky|
      invariant |r| == i && forall k :: 0 <= k < i ==> r[k] == (sticky[k] || bitChk[k])
      invariant all <==> AllTrue(r)
    {
      r := r + [sticky[i] || bitChk[i]];
      all := all && r[i];
    }
  }

  // ----- the state of a whole sweep, as sequences -----

  /** All windows as offsets from the strobe tap `start`. */
  ghost function Offsets(skew: seq<int>, start: int): (o: seq<int>)
    ensures |o| == |skew| && forall i :: 0 <= i < |o| ==> o[i] == skew[i] - start
  {
    seq(|skew|, i requires 0 <= i < |skew| => skew[i] - start)
  }

  /** The test mask at offset `at`: the bits whose window contains it. */
  ghost predicate MaskAt(bitChk: seq<bool>, lo: seq<int>, hi: seq<int>, at: int) {
    |bitChk| == |lo| == |hi| && forall i :: 0 <= i < |lo| ==> bitChk[i] == (lo[i] <= at <= hi[i])
  }

  ghost predicate LeftState(lo: seq<int>, hi: seq<int>, none: int, d: int,
                            left: seq<int>, right: seq<int>, sticky: seq<bool>)
  {
    && |lo| == |hi| == |left| == |right| == |sticky|
    && (forall i :: 0 <= i < |lo| ==> LeftSoFar(lo[i], hi[i], none, d, left[i], right[i]))
    && (forall i :: 0 <= i < |lo| ==> sticky[i] == (Max(0, -hi[i]) <= Min(d - 1, -lo[i])))
  }

  lemma LeftStateStep(lo: seq<int>, hi: seq<int>, none: int, d: int,
                      left: seq<int>, right: seq<int>, sticky: seq<bool>,
                      bitChk: seq<bool>, left': seq<int>, right': seq<int>, sticky': seq<bool>)
    requires 0 <= d < none && LeftState(lo, hi, none, d, left, right, sticky)
    requires MaskAt(bitChk, lo, hi, -d) && IsOr(sticky', sticky, bitChk)
    requires SteppedLeft(left, right, left', right', d, bitChk, none)
    ensures LeftState(lo, hi, none, d + 1, left', right', sticky')
  {
    forall i | 0 <= i < |lo|
      ensures LeftSoFar(lo[i], hi[i], none, d + 1, left'[i], right'[i])
      ensures sticky'[i] == (Max(0, -hi[i]) <= Min(d, -lo[i]))
    {
      StepLeftKeeps(lo[i], hi[i], none, d, Edges(left[i], right[i]));
    }
  }

  ghost predicate AllLeftSwept(lo: seq<int>, hi: seq<int>, none: int, left: seq<int>, right: seq<int>) {
    && |lo| == |hi| == |left| == |right|
    && forall i :: 0 <= i < |lo| ==> LeftSwept(lo[i], hi[i], none, left[i], right[i])
  }

  /** Stopping the DQ sweep early loses nothing: every bit has passed and none passes any more. */
  lemma LeftStateStop(lo: seq<int>, hi: seq<int>, none: int, d: int,
                      left: seq<int>, right: seq<int>, sticky: seq<bool>, bitChk: seq<bool>, sticky': seq<bool>)
    requires 0 <= d < none && LeftState(lo, hi, none, d, left, right, sticky)
    requires MaskAt(bitChk, lo, hi, -d) && IsOr(sticky', sticky, bitChk)
    requires NoneTrue(bitChk) && AllTrue(sticky')
    ensures AllLeftSwept(lo, hi, none, left, right)
  {
    forall i | 0 <= i < |lo|
      ensures LeftSwept(lo[i], hi[i], none, left[i], right[i])
    {
      assert sticky'[i] && !bitChk[i];
    }
  }

  ghost predicate RightState(readSide: bool, lo: seq<int>, hi: seq<int>, none: int, d: int,
                             left: seq<int>, right: seq<int>, sticky: seq<bool>)
  {
    && |lo| == |hi| == |left| == |right| == |sticky|
    && (forall i :: 0 <= i < |lo| ==> RightSoFar(lo[i], hi[i], none, d, left[i], right[i]))
    && (forall i :: 0 <= i < |lo| ==>
          (sticky[i] <==> KnownBefore(readSide, lo[i], hi[i], none) || SeenRight(lo[i], hi[i], d)))
  }

  lemma RightStateStep(readSide: bool, lo: seq<int>, hi: seq<int>, none: int, d: int,
                       left: seq<int>, right: seq<int>, sticky: seq<bool>,
                       bitChk: seq<bool>, left': seq<int>, right': seq<int>, sticky': seq<bool>)
    requires 0 <= d < none && RightState(readSide, lo, hi, none, d, left, right, sticky)
    requires MaskAt(bitChk, lo, hi, d) && IsOr(sticky', sticky, bitChk)
    requires SteppedRight(left, right, left', right', d, bitChk, none)
    ensures RightState(readSide, lo, hi, none, d + 1, left', right', sticky')
  {
    forall i | 0 <= i < |lo|
      ensures RightSoFar(lo[i], hi[i], none, d + 1, left'[i], right'[i])
      ensures SeenRight(lo[i], hi[i], d + 1) <==> SeenRight(lo[i], hi[i], d) || bitChk[i]
    {
      StepRightKeeps(lo[i], hi[i], none, d, Edges(left[i], right[i]));
    }
  }

  /** The edges are exactly the windows cut to what the taps can reach. */
  ghost predicate AllExact(skewLo: seq<int>, skewHi: seq<int>, start: int, dqMax: int, dqsMax: int,
                           left: seq<int>, right: seq<int>)
  {
    && |skewLo| == |skewHi| == |left| == |right|
    && forall i :: 0 <= i < |skewLo| ==> Exact(skewLo[i], skewHi[i], start, dqMax, dqsMax, left[i], right[i])
  }

  ghost predicate AllWindows(skewLo: seq<int>, skewHi: seq<int>, start: int, dqMax: int, dqsMax: int)
    requires |skewLo| == |skewHi|
  {
    forall i :: 0 <= i < |skewLo| ==> HasWindow(skewLo[i], skewHi[i], start, dqMax, dqsMax)
  }

  /** Stopping the DQS sweep early loses nothing either, and the write side's marking changes nothing. */
  lemma RightStateStop(readSide: bool, skewLo: seq<int>, skewHi: seq<int>, start: int, dqMax: int, dqsMax: int,
                       d: int, left: seq<int>, right: seq<int>, sticky: seq<bool>,
                       bitChk: seq<bool>, sticky': seq<bool>, right': seq<int>)
    requires |skewLo| == |skewHi| && 0 <= start <= dqsMax <= dqMax && 0 <= d <= dqsMax - start
    requires RightState(readSide, Offsets(skewLo, start), Offsets(skewHi, start), dqMax + 1, d, left, right, sticky)
    requires MaskAt(bitChk, Offsets(skewLo, start), Offsets(skewHi, start), d) && IsOr(sticky', sticky, bitChk)
    requires NoneTrue(bitChk) && AllTrue(sticky')
    requires if d == 0 && !readSide then Marked(left, right, right', dqMax + 1) else right' == right
    ensures AllWindows(skewLo, skewHi, start, dqMax, dqsMax)
    ensures AllExact(skewLo, skewHi, start, dqMax, dqsMax, left, right')
  {
    forall i | 0 <= i < |skewLo|
      ensures HasWindow(skewLo[i], skewHi[i], start, dqMax, dqsMax)
      ensures Exact(skewLo[i], skewHi[i], start, dqMax, dqsMax, left[i], right'[i])
    {
      assert sticky'[i] && !bitChk[i];
      StopIsExact(readSide, skewLo[i], skewHi[i], start, dqMax, dqsMax, d, left[i], right[i]);
    }
  }

  lemma RightStateEnd(readSide: bool, skewLo: seq<int>, skewHi: seq<int>, start: int, dqMax: int, dqsMax: int,
                      d: int, left: seq<int>, right: seq<int>, sticky: seq<bool>)
    requires |skewLo| == |skewHi| && 0 <= start <= dqsMax <= dqMax
    requires d == dqsMax - start + 1
    requires RightState(readSide, Offsets(skewLo, start), Offsets(skewHi, start), dqMax + 1, d, left, right, sticky)
    ensures AllExact(skewLo, skewHi, start, dqMax, dqsMax, left, right)
  {
    forall i | 0 <= i < |skewLo|
      ensures Exact(skewLo[i], skewHi[i], start, dqMax, dqsMax, left[i], right[i])
    {
      SweepEndIsExact(skewLo[i], skewHi[i], start, dqMax, dqsMax, left[i], right[i]);
    }
  }

  /** At a stop every bit is known and fails, so no later shift would change any edge. */
  lemma StopIsExact(readSide: bool, lo: int, hi: int, start: int, dqMax: int, dqsMax: int, d: int,
                    left: int, right: int)
    requires 0 <= start <= dqsMax <= dqMax && 0 <= d <= dqsMax - start
    requires RightSoFar(lo - start, hi - start, dqMax + 1, d, left, right)
    requires KnownBefore(readSide, lo - start, hi - start, dqMax + 1) || SeenRight(lo - start, hi - start, d)
    requires !(lo - start <= d <= hi - start)
    ensures HasWindow(lo, hi, start, dqMax, dqsMax)
    ensures Exact(lo, hi, start, dqMax, dqsMax, left, right)
    ensures d == 0 ==> !(right == dqMax + 1 && left != dqMax + 1)
  {
  }

  lemma SweepEndIsExact(lo: int, hi: int, start: int, dqMax: int, dqsMax: int, left: int, right: int)
    requires 0 <= start <= dqsMax <= dqMax
    requires RightSoFar(lo - start, hi - start, dqMax + 1, dqsMax - start + 1, left, right)
    ensures Exact(lo, hi, start, dqMax, dqsMax, left, right)
  {
  }

  // ----- the sweeps -----

  /** Load one delay on all the DQ chains, test, update the sticky mask, decide whether to stop. */
  method ProbeDelay(lane: Lane, d: nat, sticky0: seq<bool>)
    returns (bitChk: seq<bool>, sticky: seq<bool>, stop: bool)
    requires lane.Valid() && d <= lane.dqMax && |sticky0| == lane.bits
    modifies lane.dq
    ensures lane.Valid()
    ensures MaskAt(bitChk, Offsets(lane.skewLo, lane.dqs), Offsets(lane.skewHi, lane.dqs), 0 - d)
    ensures IsOr(sticky, sticky0, bitChk)
    ensures stop <==> NoneTrue(bitChk) && AllTrue(sticky)
  {
    lane.ApplyGroupDq(d);
    var some, all;
    bitChk, some := lane.Test();
    sticky, all := Accumulate(sticky0, bitChk);
    stop := !some && all;
  }

  /** The same for one shift of the strobe. */
  method ProbeShift(lane: Lane, start: nat, d: nat, sticky0: seq<bool>)
    returns (bitChk: seq<bool>, sticky: seq<bool>, stop: bool)
    requires lane.Valid() && start + d <= lane.dqsMax && |sticky0| == lane.bits
    requires forall i :: 0 <= i < lane.bits ==> lane.dq[i] == 0
    modifies lane`dqs
    ensures lane.dqs == start + d
    ensures MaskAt(bitChk, Offsets(lane.skewLo, start), Offsets(lane.skewHi, start), d)
    ensures IsOr(sticky, sticky0, bitChk)
    ensures stop <==> NoneTrue(bitChk) && AllTrue(sticky)
  {
    lane.dqs := d + start;
    var some, all;
    bitChk, some := lane.Test();
    sticky, all := Accumulate(sticky0, bitChk);
    stop := !some && all;
  }

  /** The DQ sweep: search for the left edge of every window, then put the DQ chains back to 0. */
  method LeftSweep(lane: Lane, left: array<int>, right: array<int>)
    requires lane.Valid()
    requires left != right && left.Length == right.Length == lane.bits
    requires left != lane.dq && right != lane.dq
    requires forall i :: 0 <= i < lane.bits ==> left[i] == right[i] == lane.dqMax + 1
    modifies lane.dq, left, right
    ensures lane.Valid()
    ensures forall i :: 0 <= i < lane.bits ==> lane.dq[i] == 0
    ensures AllLeftSwept(Offsets(lane.skewLo, lane.dqs), Offsets(lane.skewHi, lane.dqs), lane.dqMax + 1,
                         left[..], right[..])
  {
    ghost var lo := Offsets(lane.skewLo, lane.dqs);
    ghost var hi := Offsets(lane.skewHi, lane.dqs);
    var none := lane.dqMax + 1;
    var sticky := seq(lane.bits, _ => false);
    var d := 0;
    while d <= lane.dqMax
      invariant 0 <= d <= none
      invariant lane.Valid()
      invariant LeftState(lo, hi, none, d, left[..], right[..], sticky)
      invariant d == none ==> AllLeftSwept(lo, hi, none, left[..], right[..])
    {
      var bitChk, sticky', stop := ProbeDelay(lane, d, sticky);
      if stop {
        LeftStateStop(lo, hi, none, d, left[..], right[..], sticky, bitChk, sticky');
        break;
      }
      ghost var l, r := left[..], right[..];
      RecordLeft(bitChk, d, none, left, right);
      LeftStateStep(lo, hi, none, d, l, r, sticky, bitChk, left[..], right[..], sticky');
      sticky := sticky';
      d := d + 1;
    }
    lane.ApplyGroupDq(0);
  }

  /** Between the sweeps: reset the bogus right edges and rebuild the sticky mask.  The read side keeps
      a bit sticky when both its edges are known, the write side as soon as its left edge is. */
  method ResetEdges(readSide: bool, none: int, left: array<int>, right: array<int>,
                    ghost lo: seq<int>, ghost hi: seq<int>)
    returns (sticky: seq<bool>)
    requires left != right && 0 < none
    requires AllLeftSwept(lo, hi, none, left[..], right[..])
    modifies right
    ensures RightState(readSide, lo, hi, none, 0, left[..], right[..], sticky)
  {
    sticky := seq(left.Length, _ => false);
    var i := left.Length;
    while i > 0
      invariant 0 <= i <= left.Length == |sticky|
      invariant forall k :: 0 <= k < i ==> LeftSwept(lo[k], hi[k], none, left[k], right[k])
      invariant forall k :: i <= k < |lo| ==> RightSoFar(lo[k], hi[k], none, 0, left[k], right[k])
      invariant forall k :: i <= k < |lo| ==> sticky[k] == KnownBefore(readSide, lo[k], hi[k], none)
    {
      i := i - 1;
      if left[i] == none && right[i] != none {
        right[i] := none;
      }
      sticky := sticky[i := left[i] != none && (readSide ==> right[i] != none)];
    }
  }

  /** What both DQS sweeps rely on when they begin. */
  ghost predicate ReadyForRight(readSide: bool, lane: Lane, left: array<int>, right: array<int>, sticky: seq<bool>)
    reads lane, lane.dq, left, right
  {
    && lane.Valid()
    && left != right && left != lane.dq && right != lane.dq
    && left.Length == right.Length == lane.bits
    && (forall i :: 0 <= i < lane.bits ==> lane.dq[i] == 0)
    && RightState(readSide, Offsets(lane.skewLo, lane.dqs), Offsets(lane.skewHi, lane.dqs), lane.dqMax + 1, 0,
                  left[..], right[..], sticky)
  }

  /** One shift of the DQS sweep, up to and including the update of the edges or the stop.  A stop at the
      very first shift makes the write side mark marginal bits. */
  method RightShift(readSide: bool, lane: Lane, start: nat, d: nat, left: array<int>, right: array<int>,
                    sticky0: seq<bool>, ghost lo: seq<int>, ghost hi: seq<int>)
    returns (sticky: seq<bool>, stop: bool)
    requires lane.Valid() && start + d <= lane.dqsMax && |sticky0| == lane.bits
    requires left != right && left != lane.dq && right != lane.dq
    requires forall i :: 0 <= i < lane.bits ==> lane.dq[i] == 0
    requires lo == Offsets(lane.skewLo, start) && hi == Offsets(lane.skewHi, start)
    requires RightState(readSide, lo, hi, lane.dqMax + 1, d, left[..], right[..], sticky0)
    modifies lane`dqs, left, right
    ensures lane.dqs == start + d
    ensures !stop ==> RightState(readSide, lo, hi, lane.dqMax + 1, d + 1, left[..], right[..], sticky)
    ensures stop ==> AllWindows(lane.skewLo, lane.skewHi, start, lane.dqMax, lane.dqsMax)
    ensures stop ==> AllExact(lane.skewLo, lane.skewHi, start, lane.dqMax, lane.dqsMax, left[..], right[..])
  {
    var none := lane.dqMax + 1;
    ghost var l, r := left[..], right[..];
    var bitChk;
    bitChk, sticky, stop := ProbeShift(lane, start, d, sticky0);
    if stop {
      if d == 0 && !readSide {
        MarkMarginal(none, left, right);
      }
      RightStateStop(readSide, lane.skewLo, lane.skewHi, start, lane.dqMax, lane.dqsMax, d,
                     l, r, sticky0, bitChk, sticky, right[..]);
    } else {
      RecordRight(bitChk, d, none, left, right);
      RightStateStep(readSide, lo, hi, none, d, l, r, sticky0, bitChk, left[..], right[..], sticky);
    }
  }

  /** The DQS sweep: search for the right edge of every window. */
  method RightSweep(readSide: bool, lane: Lane, left: array<int>, right: array<int>, sticky0: seq<bool>)
    requires ReadyForRight(readSide, lane, left, right, sticky0)
    modifies lane`dqs, left, right
    ensures 0 <= lane.dqs <= lane.dqsMax
    ensures AllExact(lane.skewLo, lane.skewHi, old(lane.dqs), lane.dqMax, lane.dqsMax, left[..], right[..])
    ensures !AllWindows(lane.skewLo, lane.skewHi, old(lane.dqs), lane.dqMax, lane.dqsMax) ==> lane.dqs == lane.dqsMax
  {
    var start := lane.dqs;
    ghost var lo := Offsets(lane.skewLo, start);
    ghost var hi := Offsets(lane.skewHi, start);
    var sticky := sticky0;
    var d := 0;
    while d <= lane.dqsMax - start
      invariant 0 <= d <= lane.dqsMax - start + 1
      invariant lane.dqs == if d == 0 then start else start + d - 1
      invariant RightState(readSide, lo, hi, lane.dqMax + 1, d, left[..], right[..], sticky)
    {
      var stop;
      sticky, stop := RightShift(readSide, lane, start, d, left, right, sticky, lo, hi);
      if stop {
        return;
      }
      d := d + 1;
    }
    RightStateEnd(readSide, lane.skewLo, lane.skewHi, start, lane.dqMax, lane.dqsMax, d, left[..], right[..], sticky);
  }
}
