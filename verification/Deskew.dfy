/**
  Per-bit deskew: from the windows of all bits to one strobe tap and one tap per bit.

  Offsets are strobe-minus-data skews measured from the strobe tap `start` the sweep began at, so bit
  `i` ends up at the offset `dqs - start - dq[i]`.
*/
module Deskew {
  import opened CArith
  import opened EdgeSweep

  // ----- the committed taps, said in terms of the windows -----

  /** The windows of a group, already cut to what the taps reach. */
  datatype Windows = Windows(lo: seq<int>, hi: seq<int>, start: int, dqMax: int, dqsMax: int) {

    ghost predicate Valid() {
      && 0 < |lo| == |hi|
      && 0 <= start <= dqsMax <= dqMax
      && forall i :: 0 <= i < |lo| ==> -dqMax <= lo[i] <= hi[i] <= dqsMax - start
    }

    /** Twice the centre of window `i`. */
    function Centre2(i: nat): int
      requires i < |lo| == |hi|
    {
      lo[i] + hi[i]
    }

    ghost predicate IsRightmost(k: nat)
      requires |lo| == |hi|
    {
      k < |lo| && forall i :: 0 <= i < |lo| ==> Centre2(i) <= Centre2(k)
    }

    /** The offset bit `i` is steered to when `k` has the rightmost window: the rounded-down centre of
        the rightmost window, less the rounded-down distance between the two centres. */
    function BalancePoint(i: nat, k: nat): int
      requires i < |lo| == |hi| && k < |lo|
    {
      Centre2(k) / 2 - (Centre2(k) - Centre2(i)) / 2
    }

    /** Every bit is brought to its balance point, as far as its own delay chain allows. */
    ghost predicate Steered(k: nat, dqs: int, dq: seq<int>)
      requires |lo| == |hi| == |dq| && k < |lo|
    {
      forall i :: 0 <= i < |dq| ==> dq[i] == Clamp(dqs - start - BalancePoint(i, k), 0, dqMax)
    }

    /** The offset of bit `i` at the committed taps is inside its window. */
    ghost predicate Inside(i: nat, dqs: int, dq: seq<int>)
      requires i < |lo| == |hi| == |dq|
    {
      lo[i] <= dqs - start - dq[i] <= hi[i]
    }

    ghost predicate AllInside(dqs: int, dq: seq<int>)
      requires |lo| == |hi| == |dq|
    {
      forall i :: 0 <= i < |dq| ==> Inside(i, dqs, dq)
    }

    /** The read side moves the strobe to the rightmost centre, or to tap 0 if that lies below it. */
    ghost predicate ReadCommitted(k: nat, dqs: int, dq: seq<int>)
      requires |lo| == |hi| == |dq|
    {
      IsRightmost(k) && dqs == Max(0, start + Centre2(k) / 2) && Steered(k, dqs, dq)
    }

    /** No window ends more than one DQ chain below the strobe tap the read side chooses. */
    ghost predicate ReadReachable(k: nat)
      requires k < |lo| == |hi|
    {
      forall i :: 0 <= i < |hi| ==> Max(0, start + Centre2(k) / 2) - start - dqMax <= hi[i]
    }

    /** Every window reaches down to the unmoved strobe. */
    ghost predicate WriteReachable() {
      forall i :: 0 <= i < |lo| ==> lo[i] <= 0
    }

    /** The write side leaves the strobe where it was. */
    ghost predicate WriteCommitted(k: nat, dqs: int, dq: seq<int>)
      requires |lo| == |hi| == |dq|
    {
      IsRightmost(k) && dqs == start && Steered(k, dqs, dq)
    }
  }

  // ----- what the committed taps are good for -----

  lemma BalancePointIsCentral(w: Windows, i: nat, k: nat)
    requires w.Valid() && i < |w.lo| && w.IsRightmost(k)
    ensures -1 <= 2 * w.BalancePoint(i, k) - w.Centre2(i) <= 1
    ensures w.lo[i] <= w.BalancePoint(i, k) <= w.hi[i]
    ensures w.BalancePoint(i, k) <= w.Centre2(k) / 2
  {
  }

  /** An even centre is met exactly; an odd one is rounded up if the rightmost centre is even, else down. */
  lemma BalancePointRounds(w: Windows, i: nat, k: nat)
    requires i < |w.lo| == |w.hi| && k < |w.lo|
    ensures var twice := 2 * w.BalancePoint(i, k) - (w.lo[i] + w.hi[i]);
            twice == if (w.lo[i] + w.hi[i]) % 2 == 0 then 0 else if (w.lo[k] + w.hi[k]) % 2 == 0 then 1 else -1
  {
  }

  /** Twice the distance of an offset from the centre of a window. */
  function FromCentre(x: int, lo: int, hi: int): nat {
    Abs(2 * x - lo - hi)
  }

  /** Among the offsets `from..to` none is nearer to the centre of the window `lo..hi` than `x`. */
  ghost predicate IsNearest(x: int, lo: int, hi: int, from: int, to: int) {
    from <= x <= to && forall y :: from <= y <= to ==> FromCentre(x, lo, hi) <= FromCentre(y, lo, hi)
  }

  /** The read side's strobe tap is the one nearest to the centre of the rightmost window, the lower of two. */
  lemma StrobeIsNearest(w: Windows, k: nat, dqs: int, dq: seq<int>, tap: int)
    requires w.Valid() && |dq| == |w.lo| && w.ReadCommitted(k, dqs, dq) && 0 <= tap <= w.dqsMax
    ensures Abs(2 * (dqs - w.start) - w.lo[k] - w.hi[k]) <= Abs(2 * (tap - w.start) - w.lo[k] - w.hi[k])
    ensures Abs(2 * (dqs - w.start) - w.lo[k] - w.hi[k]) == Abs(2 * (tap - w.start) - w.lo[k] - w.hi[k]) ==> dqs <= tap
  {
  }

  /** On either side, every data tap is one that puts its bit nearest to the centre of its window. */
  lemma BitIsNearest(w: Windows, k: nat, dqs: int, dq: seq<int>, i: nat, tap: int)
    requires w.Valid() && i < |dq| == |w.lo| && w.IsRightmost(k) && w.Steered(k, dqs, dq) && 0 <= tap <= w.dqMax
    ensures 0 <= dq[i] <= w.dqMax
    ensures Abs(2 * (dqs - w.start - dq[i]) - w.lo[i] - w.hi[i]) <= Abs(2 * (dqs - w.start - tap) - w.lo[i] - w.hi[i])
  {
    BalancePointIsCentral(w, i, k);
  }

  /** The strobe and every bit are as near to the centres of their windows as the chains allow. */
  ghost predicate BitsAreNearest(w: Windows, dqs: int, dq: seq<int>)
    requires |w.lo| == |w.hi| == |dq|
  {
    forall i :: 0 <= i < |dq| ==>
      IsNearest(dqs - w.start - dq[i], w.lo[i], w.hi[i], dqs - w.start - w.dqMax, dqs - w.start)
  }

  lemma SteeredIsNearest(w: Windows, k: nat, dqs: int, dq: seq<int>)
    requires w.Valid() && |dq| == |w.lo| && w.IsRightmost(k) && w.Steered(k, dqs, dq)
    ensures BitsAreNearest(w, dqs, dq)
  {
    forall i | 0 <= i < |dq|
      ensures IsNearest(dqs - w.start - dq[i], w.lo[i], w.hi[i], dqs - w.start - w.dqMax, dqs - w.start)
    {
      BitIsNearest(w, k, dqs, dq, i, 0);
      forall y | dqs - w.start - w.dqMax <= y <= dqs - w.start
        ensures FromCentre(dqs - w.start - dq[i], w.lo[i], w.hi[i]) <= FromCentre(y, w.lo[i], w.hi[i])
      {
        BitIsNearest(w, k, dqs, dq, i, dqs - w.start - y);
      }
    }
  }

  lemma ReadStrobeIsNearest(w: Windows, k: nat, dqs: int, dq: seq<int>)
    requires w.Valid() && |dq| == |w.lo| && w.ReadCommitted(k, dqs, dq)
    ensures IsNearest(dqs - w.start, w.lo[k], w.hi[k], -w.start, w.dqsMax - w.start)
  {
    forall y | -w.start <= y <= w.dqsMax - w.start
      ensures FromCentre(dqs - w.start, w.lo[k], w.hi[k]) <= FromCentre(y, w.lo[k], w.hi[k])
    {
      StrobeIsNearest(w, k, dqs, dq, w.start + y);
    }
  }

  /** The clamp of the strobe at the top of its chain, and the clamp of a bit at the bottom, never act. */
  lemma ReadTapsInRange(w: Windows, k: nat, dqs: int, dq: seq<int>)
    requires w.Valid() && |dq| == |w.lo| && w.ReadCommitted(k, dqs, dq)
    ensures 0 <= dqs <= w.dqsMax
    ensures forall i :: 0 <= i < |dq| ==>
              0 <= dqs - w.start - w.BalancePoint(i, k) && dq[i] == Min(w.dqMax, dqs - w.start - w.BalancePoint(i, k))
  {
    forall i | 0 <= i < |dq|
      ensures 0 <= dqs - w.start - w.BalancePoint(i, k)
    {
      BalancePointIsCentral(w, i, k);
    }
  }

  /** A bit whose own chain was long enough ends with margins that differ by at most one tap, whether
      or not the strobe was clamped. */
  lemma UnclampedBitIsCentred(w: Windows, k: nat, dqs: int, dq: seq<int>, i: nat)
    requires w.Valid() && i < |dq| == |w.lo| && w.IsRightmost(k) && w.Steered(k, dqs, dq)
    requires 0 < dq[i] < w.dqMax || 0 <= dqs - w.start - w.BalancePoint(i, k) <= w.dqMax
    ensures var at := dqs - w.start - dq[i];
            Abs((at - w.lo[i]) - (w.hi[i] - at)) <= 1 && w.Inside(i, dqs, dq)
  {
    BalancePointIsCentral(w, i, k);
  }

  /** Read deskew succeeds exactly when no window ends more than one DQ chain below the chosen strobe. */
  lemma ReadSucceedsIffReachable(w: Windows, k: nat, dqs: int, dq: seq<int>)
    requires w.Valid() && |dq| == |w.lo| && w.ReadCommitted(k, dqs, dq)
    ensures w.AllInside(dqs, dq) <==> w.ReadReachable(k)
  {
    ReadTapsInRange(w, k, dqs, dq);
    forall i | 0 <= i < |dq|
      ensures w.Inside(i, dqs, dq) <==> dqs - w.start - w.dqMax <= w.hi[i]
    {
      BalancePointIsCentral(w, i, k);
      if dqs - w.start - w.BalancePoint(i, k) <= w.dqMax {
        UnclampedBitIsCentred(w, k, dqs, dq, i);
      }
    }
    if w.ReadReachable(k) {
      assert w.AllInside(dqs, dq);
    } else {
      var i :| 0 <= i < |w.hi| && !(dqs - w.start - w.dqMax <= w.hi[i]);
      assert !w.Inside(i, dqs, dq);
    }
  }

  /** Write deskew succeeds exactly when every window reaches down to the unmoved strobe. */
  lemma WriteSucceedsIffReachable(w: Windows, k: nat, dqs: int, dq: seq<int>)
    requires w.Valid() && |dq| == |w.lo| && w.WriteCommitted(k, dqs, dq)
    ensures forall i :: 0 <= i < |dq| ==> dq[i] == Max(0, -w.BalancePoint(i, k))
    ensures w.AllInside(dqs, dq) <==> w.WriteReachable()
  {
    forall i | 0 <= i < |dq|
      ensures dq[i] == Max(0, -w.BalancePoint(i, k))
      ensures w.Inside(i, dqs, dq) <==> w.lo[i] <= 0
    {
      BalancePointIsCentral(w, i, k);
    }
    if w.WriteReachable() {
      assert w.AllInside(dqs, dq);
    } else {
      var i :| 0 <= i < |w.lo| && !(w.lo[i] <= 0);
      assert !w.Inside(i, dqs, dq);
    }
  }

  /** The rule is not complete: here it misses although other taps would serve both bits. */
  lemma ReadDeskewCanMissAWorkingPoint(dqs: int, dq: seq<int>, k: nat)
    requires |dq| == 2
    requires Windows([-29, -31], [31, -31], 0, 31, 31).ReadCommitted(k, dqs, dq)
    ensures var w := Windows([-29, -31], [31, -31], 0, 31, 31);
            w.Valid() && !w.AllInside(dqs, dq) && w.AllInside(0, [0, 31])
  {
    var w := Windows([-29, -31], [31, -31], 0, 31, 31);
    assert w.Centre2(0) == 2 && w.Centre2(1) == -62;
    assert k == 0 by {
      assert w.Centre2(0) <= w.Centre2(k);
    }
    assert dqs == 1;
    assert !w.Inside(1, dqs, dq) by {
      assert 0 <= dq[1] <= 31;
    }
    assert w.Inside(0, 0, [0, 31]) && w.Inside(1, 0, [0, 31]);
  }

  // ----- when there is a working setting at all -----

  /** Some setting of the taps, each inside its chain, brings the skew of every bit into `lo[i]..hi[i]`. */
  ghost predicate Workable(lo: seq<int>, hi: seq<int>, dqMax: int, dqsMax: int)
    requires |lo| == |hi|
  {
    exists dqs: int, dq: seq<int> :: Works(lo, hi, dqMax, dqsMax, dqs, dq)
  }

  ghost predicate Works(lo: seq<int>, hi: seq<int>, dqMax: int, dqsMax: int, dqs: int, dq: seq<int>)
    requires |lo| == |hi|
  {
    && 0 <= dqs <= dqsMax && |dq| == |lo|
    && forall i :: 0 <= i < |dq| ==> 0 <= dq[i] <= dqMax && lo[i] <= dqs - dq[i] <= hi[i]
  }

  /** Every window meets the range of the skew, and none begins more than one DQ chain above the end of another. */
  ghost predicate WithinOneChain(lo: seq<int>, hi: seq<int>, dqMax: int, dqsMax: int)
    requires |lo| == |hi|
  {
    && (forall i :: 0 <= i < |lo| ==> lo[i] <= hi[i] && lo[i] <= dqsMax && -dqMax <= hi[i])
    && (forall i, j :: 0 <= i < |lo| && 0 <= j < |lo| ==> lo[i] <= hi[j] + dqMax)
  }

  /** The window that begins last. */
  lemma {:induction false} LastStart(lo: seq<int>) returns (k: nat)
    requires 0 < |lo|
    ensures k < |lo| && forall i :: 0 <= i < |lo| ==> lo[i] <= lo[k]
  {
    var n := |lo| - 1;
    k := n;
    if n > 0 {
      var j := LastStart(lo[..n]);
      assert forall i :: 0 <= i < n ==> lo[i] == lo[..n][i];
      k := if lo[j] > lo[n] then j else n;
    }
  }

  /** A working setting exists exactly when the windows lie that close together: the strobe can then go to
      the last start, or to tap 0 if that lies below it. */
  lemma WorkableIff(lo: seq<int>, hi: seq<int>, dqMax: int, dqsMax: int)
    requires 0 < |lo| == |hi| && 0 <= dqMax && 0 <= dqsMax
    ensures Workable(lo, hi, dqMax, dqsMax) <==> WithinOneChain(lo, hi, dqMax, dqsMax)
  {
    if WithinOneChain(lo, hi, dqMax, dqsMax) {
      var k := LastStart(lo);
      var dqs := Max(0, lo[k]);
      var dq := seq(|lo|, i requires 0 <= i < |lo| => Max(0, dqs - hi[i]));
      forall i | 0 <= i < |dq|
        ensures 0 <= dq[i] <= dqMax && lo[i] <= dqs - dq[i] <= hi[i]
      {
        assert lo[k] <= hi[i] + dqMax;
      }
      assert Works(lo, hi, dqMax, dqsMax, dqs, dq);
    }
    if Workable(lo, hi, dqMax, dqsMax) {
      var dqs: int, dq: seq<int> :| Works(lo, hi, dqMax, dqsMax, dqs, dq);
      forall i, j | 0 <= i < |lo| && 0 <= j < |lo|
        ensures lo[i] <= hi[j] + dqMax
      {
        assert lo[i] <= dqs - dq[i] && dqs - dq[j] <= hi[j];
      }
    }
  }

  // ----- margins -----

  /** `m` is the least element of `xs`, or `cap` if none is smaller. */
  ghost predicate IsLeast(m: int, cap: int, xs: seq<int>) {
    && m <= cap
    && (forall i :: 0 <= i < |xs| ==> m <= xs[i])
    && (m == cap || exists i :: 0 <= i < |xs| && xs[i] == m)
  }

  /** One more element joins a running minimum over a prefix. */
  lemma LeastOfLongerPrefix(m: int, cap: int, xs: seq<int>, xs': seq<int>, n: nat)
    requires n < |xs| == |xs'| && (forall i :: 0 <= i < n ==> xs'[i] == xs[i])
    requires IsLeast(m, cap, xs[..n])
    ensures IsLeast(Min(m, xs'[n]), cap, xs'[..n + 1])
  {
    var p, p' := xs[..n], xs'[..n + 1];
    assert forall i :: 0 <= i < n ==> p'[i] == p[i];
    assert p'[n] == xs'[n];
    if xs'[n] > m && m != cap {
      var i :| 0 <= i < |p| && p[i] == m;
      assert p'[i] == m;
    }
  }

  /** The left and right margins of every bit at the committed taps. */
  ghost function LeftMargins(w: Windows, dqs: int, dq: seq<int>): (m: seq<int>)
    requires |dq| == |w.lo|
    ensures |m| == |dq| && forall i :: 0 <= i < |dq| ==> m[i] == dqs - w.start - dq[i] - w.lo[i]
  {
    seq(|dq|, i requires 0 <= i < |dq| => dqs - w.start - dq[i] - w.lo[i])
  }

  ghost function RightMargins(w: Windows, dqs: int, dq: seq<int>): (m: seq<int>)
    requires |dq| == |w.hi|
    ensures |m| == |dq| && forall i :: 0 <= i < |dq| ==> m[i] == w.hi[i] - (dqs - w.start - dq[i])
  {
    seq(|dq|, i requires 0 <= i < |dq| => w.hi[i] - (dqs - w.start - dq[i]))
  }

  /** The smallest margin on each side, over all bits, at the committed taps. */
  ghost predicate AreMargins(dqMargin: int, dqsMargin: int, w: Windows, dqs: int, dq: seq<int>)
    requires |w.lo| == |w.hi| == |dq|
  {
    && IsLeast(dqMargin, w.dqMax + 1, LeftMargins(w, dqs, dq))
    && IsLeast(dqsMargin, w.dqMax + 1, RightMargins(w, dqs, dq))
  }

  /** The two exported margins are both nonnegative exactly when every bit is inside its window. */
  lemma MarginsTellInside(w: Windows, dqs: int, dq: seq<int>, dqMargin: int, dqsMargin: int)
    requires w.Valid() && |dq| == |w.lo| && AreMargins(dqMargin, dqsMargin, w, dqs, dq)
    ensures dqMargin >= 0 && dqsMargin >= 0 <==> w.AllInside(dqs, dq)
  {
    var l, r := LeftMargins(w, dqs, dq), RightMargins(w, dqs, dq);
    if w.AllInside(dqs, dq) {
      forall i | 0 <= i < |dq| ensures l[i] >= 0 && r[i] >= 0 {
        assert w.Inside(i, dqs, dq);
      }
    } else {
      var i :| 0 <= i < |dq| && !w.Inside(i, dqs, dq);
      assert l[i] < 0 || r[i] < 0;
    }
  }

  /** The two figures are the least distances of the bits from the ends of their windows, each attained. */
  ghost predicate LeastMargins(dqMargin: int, dqsMargin: int, w: Windows, dqs: int, dq: seq<int>)
    requires |w.lo| == |w.hi| == |dq|
  {
    && (forall i :: 0 <= i < |dq| ==> dqMargin <= dqs - w.start - dq[i] - w.lo[i])
    && (forall i :: 0 <= i < |dq| ==> dqsMargin <= w.hi[i] - (dqs - w.start - dq[i]))
    && (exists i :: 0 <= i < |dq| && dqMargin == dqs - w.start - dq[i] - w.lo[i])
    && (exists i :: 0 <= i < |dq| && dqsMargin == w.hi[i] - (dqs - w.start - dq[i]))
  }

  /** Whether or not the deskew succeeded, no margin reaches the cap the running minimum starts from. */
  lemma MarginsAreAttained(w: Windows, k: nat, dqs: int, dq: seq<int>, dqMargin: int, dqsMargin: int)
    requires w.Valid() && |dq| == |w.lo| && AreMargins(dqMargin, dqsMargin, w, dqs, dq)
    requires w.ReadCommitted(k, dqs, dq) || w.WriteCommitted(k, dqs, dq)
    ensures LeastMargins(dqMargin, dqsMargin, w, dqs, dq)
  {
    var l, r := LeftMargins(w, dqs, dq), RightMargins(w, dqs, dq);
    BalancePointIsCentral(w, 0, k);
    assert l[0] <= w.dqMax && r[0] <= w.dqMax by {
      MarginBelowCap(w, k, dqs, dq, 0);
    }
    assert dqMargin <= l[0] && dqsMargin <= r[0];
    var i :| 0 <= i < |l| && l[i] == dqMargin;
    var j :| 0 <= j < |r| && r[j] == dqsMargin;
    assert dqMargin == dqs - w.start - dq[i] - w.lo[i];
    assert dqsMargin == w.hi[j] - (dqs - w.start - dq[j]);
    forall n | 0 <= n < |dq|
      ensures dqMargin <= dqs - w.start - dq[n] - w.lo[n] && dqsMargin <= w.hi[n] - (dqs - w.start - dq[n])
    {
      assert dqMargin <= l[n] && dqsMargin <= r[n];
    }
  }

  lemma MarginBelowCap(w: Windows, k: nat, dqs: int, dq: seq<int>, i: nat)
    requires w.Valid() && i < |dq| == |w.lo|
    requires w.ReadCommitted(k, dqs, dq) || w.WriteCommitted(k, dqs, dq)
    ensures dqs - w.start - dq[i] - w.lo[i] <= w.dqMax && w.hi[i] - (dqs - w.start - dq[i]) <= w.dqMax
  {
    BalancePointIsCentral(w, i, k);
  }

  // ----- the loops shared by both sides -----

  /** The edge arrays hold exactly these windows. */
  ghost predicate Holds(w: Windows, left: seq<int>, right: seq<int>) {
    && |left| == |right| == |w.lo| == |w.hi|
    && forall i :: 0 <= i < |left| ==> left[i] == -w.lo[i] && right[i] == w.hi[i]
  }

  /** Finds the bit with the smallest `left - right`, that is, the rightmost window. */
  method FindMidMin(left: array<int>, right: array<int>, ghost w: Windows) returns (midMin: int, minIndex: nat)
    requires w.Valid() && Holds(w, left[..], right[..])
    ensures w.IsRightmost(minIndex)
    ensures midMin == -w.Centre2(minIndex)
  {
    midMin, minIndex := left[0] - right[0], 0;
    for i := 1 to left.Length
      invariant minIndex < left.Length && midMin == -w.Centre2(minIndex)
      invariant forall j :: 0 <= j < i ==> w.Centre2(j) <= w.Centre2(minIndex)
    {
      var mid := left[i] - right[i];
      if mid < midMin {
        midMin, minIndex := mid, i;
      }
    }
  }

  /** One bit's share: the shift from the edges, before any halving, clamped to the bit's chain. */
  method ShiftBit(lane: Lane, left: array<int>, right: array<int>, i: nat, minIndex: nat,
                  origMidMin: int, midMin: int, ghost w: Windows)
    returns (shiftDq: int)
    requires lane.Valid() && w.Valid() && w.dqMax == lane.dqMax
    requires left.Length == right.Length == lane.bits && left != lane.dq && right != lane.dq
    requires Holds(w, left[..], right[..])
    requires w.IsRightmost(minIndex) && origMidMin == -(w.Centre2(minIndex) / 2)
    requires i < lane.bits && lane.dq[i] == 0
    modifies lane.dq
    ensures lane.Valid()
    ensures shiftDq == Clamp(-midMin - w.BalancePoint(i, minIndex), 0, w.dqMax)
    ensures lane.dq[..] == old(lane.dq[..])[i := shiftDq]
    ensures left[i] == -w.lo[i] && right[i] == w.hi[i]
  {
    ShiftIsDistance(w, i, minIndex, left[..], right[..], origMidMin, midMin);
    shiftDq := TruncDiv(left[i] - right[i] - (left[minIndex] - right[minIndex]), 2) + (origMidMin - midMin);
    if shiftDq + lane.dq[i] > lane.dqMax {
      shiftDq := lane.dqMax - lane.dq[i];
    } else if shiftDq + lane.dq[i] < 0 {
      shiftDq := -lane.dq[i];
    }
    lane.dq[i] := lane.dq[i] + shiftDq;
  }

  /** The shift of one bit, in C arithmetic on the edges, is its distance from the balance point. */
  lemma ShiftIsDistance(w: Windows, i: nat, k: nat, left: seq<int>, right: seq<int>, orig: int, midMin: int)
    requires w.Valid() && w.IsRightmost(k) && i < |w.lo| && Holds(w, left, right)
    requires orig == -(w.Centre2(k) / 2)
    ensures TruncDiv(left[i] - right[i] - (left[k] - right[k]), 2) + (orig - midMin) == -midMin - w.BalancePoint(i, k)
  {
    assert w.Centre2(i) <= w.Centre2(k);
  }

  /** The first `n` bits have been shifted and measured. */
  ghost predicate ShiftedSoFar(w: Windows, k: nat, dqs: int, n: nat, dq: seq<int>, dqMargin: int, dqsMargin: int)
    requires k < |w.lo| == |w.hi| == |dq|
  {
    && n <= |dq|
    && (forall i :: 0 <= i < n ==> dq[i] == Clamp(dqs - w.start - w.BalancePoint(i, k), 0, w.dqMax))
    && (forall i :: n <= i < |dq| ==> dq[i] == 0)
    && IsLeast(dqMargin, w.dqMax + 1, LeftMargins(w, dqs, dq)[..n])
    && IsLeast(dqsMargin, w.dqMax + 1, RightMargins(w, dqs, dq)[..n])
  }

  lemma ShiftedOneMore(w: Windows, k: nat, dqs: int, i: nat, dq: seq<int>, dqMargin: int, dqsMargin: int,
                       shift: int, dq': seq<int>)
    requires k < |w.lo| == |w.hi| == |dq| && i < |dq| && ShiftedSoFar(w, k, dqs, i, dq, dqMargin, dqsMargin)
    requires shift == Clamp(dqs - w.start - w.BalancePoint(i, k), 0, w.dqMax) && dq' == dq[i := shift]
    ensures ShiftedSoFar(w, k, dqs, i + 1, dq', Min(dqMargin, dqs - w.start - shift - w.lo[i]),
                         Min(dqsMargin, w.hi[i] - (dqs - w.start - shift)))
  {
    var l, l' := LeftMargins(w, dqs, dq), LeftMargins(w, dqs, dq');
    var r, r' := RightMargins(w, dqs, dq), RightMargins(w, dqs, dq');
    LeastOfLongerPrefix(dqMargin, w.dqMax + 1, l, l', i);
    LeastOfLongerPrefix(dqsMargin, w.dqMax + 1, r, r', i);
  }

  lemma ShiftedAll(w: Windows, k: nat, dqs: int, dq: seq<int>, dqMargin: int, dqsMargin: int)
    requires k < |w.lo| == |w.hi| == |dq| && ShiftedSoFar(w, k, dqs, |dq|, dq, dqMargin, dqsMargin)
    ensures w.Steered(k, dqs, dq)
    ensures AreMargins(dqMargin, dqsMargin, w, dqs, dq)
  {
    assert LeftMargins(w, dqs, dq)[..|dq|] == LeftMargins(w, dqs, dq);
    assert RightMargins(w, dqs, dq)[..|dq|] == RightMargins(w, dqs, dq);
  }

  /** Adds the delay that brings all windows to the same level, and measures the margins that remain. */
  method ShiftBits(lane: Lane, left: array<int>, right: array<int>, minIndex: nat, origMidMin: int, midMin: int,
                   ghost w: Windows, ghost dqs: int)
    returns (dqMargin: int, dqsMargin: int)
    requires lane.Valid() && w.Valid() && w.dqMax == lane.dqMax && dqs == w.start - midMin
    requires left.Length == right.Length == lane.bits && left != lane.dq && right != lane.dq
    requires Holds(w, left[..], right[..])
    requires w.IsRightmost(minIndex) && origMidMin == -(w.Centre2(minIndex) / 2)
    requires forall i :: 0 <= i < lane.bits ==> lane.dq[i] == 0
    modifies lane.dq
    ensures lane.Valid()
    ensures w.Steered(minIndex, dqs, lane.dq[..])
    ensures AreMargins(dqMargin, dqsMargin, w, dqs, lane.dq[..])
  {
    dqMargin, dqsMargin := lane.dqMax + 1, lane.dqMax + 1;
    for i := 0 to lane.bits
      invariant lane.Valid()
      invariant ShiftedSoFar(w, minIndex, dqs, i, lane.dq[..], dqMargin, dqsMargin)
    {
      ghost var dq0 := lane.dq[..];
      var shiftDq := ShiftBit(lane, left, right, i, minIndex, origMidMin, midMin, w);
      ShiftedOneMore(w, minIndex, dqs, i, dq0, dqMargin, dqsMargin, shiftDq, lane.dq[..]);
      if left[i] - shiftDq + (-midMin) < dqMargin {
        dqMargin := left[i] - shiftDq + (-midMin);
      }
      if right[i] + shiftDq - (-midMin) < dqsMargin {
        dqsMargin := right[i] + shiftDq - (-midMin);
      }
    }
    ShiftedAll(w, minIndex, dqs, lane.dq[..], dqMargin, dqsMargin);
  }
}
