/** The nine-point Laplacian on a flat image, extended at the borders. */
module Filter {
  import opened CArith

  /** The weight of tap `k`, in quarters: 1 2 1 / 2 -12 2 / 1 2 1. */
  function Weight(k: nat): int
    requires k < 9
  {
    [1, 2, 1, 2, -12, 2, 1, 2, 1][k]
  }

  /** The row and the column tap `k` reads for output `idx`, clamped to the image. */
  function Row(k: nat, idx: nat, w: nat, h: nat): int
    requires 0 < w
  {
    Clamp(idx / w + (k / 3 - 1), 0, h - 1)
  }

  function Column(k: nat, idx: nat, w: nat): int
    requires 0 < w
  {
    Clamp(idx % w + (k % 3 - 1), 0, w - 1)
  }

  /** The pixel tap `k` of the convolution reads for output `idx`. */
  function Source(k: nat, idx: nat, w: nat, h: nat): int
    requires 0 < w
  {
    Row(k, idx, w, h) * w + Column(k, idx, w)
  }

  lemma RowBelowHeight(idx: nat, w: nat, h: nat)
    requires 0 < w && idx < w * h
    ensures 0 < h && idx / w < h && idx == idx / w * w + idx % w
  {
    if idx / w >= h {
      MulKeepsOrder(h, idx / w, w);
    }
  }

  /** Flat positions of the same width, row by row. */
  lemma FlatOrder(r: int, c: int, r': int, c': int, w: nat)
    requires 0 <= c < w && 0 <= c' < w && r <= r'
    ensures r < r' ==> r * w + c < r' * w + c'
    ensures r == r' ==> (r * w + c <= r' * w + c' <==> c <= c')
    ensures r * w + c <= r' * w + w - 1
  {
    if r < r' {
      MulKeepsOrder(r + 1, r', w);
      assert (r + 1) * w == r * w + w;
    }
  }

  lemma FlatBounds(r: int, c: int, y: int, x: int, w: nat, h: nat)
    requires 0 <= r <= h - 1 && r <= y + 1 && 0 <= c <= w - 1 && c <= x + 1
    ensures 0 <= r * w + c < w * h && r * w + c <= y * w + x + w + 1
  {
    MulKeepsOrder(0, r, w);
    MulKeepsOrder(r, h - 1, w);
    assert (h - 1) * w == w * h - w;
    MulKeepsOrder(r, y + 1, w);
    assert (y + 1) * w == y * w + w;
  }

  lemma RowAndColumnRange(k: nat, idx: nat, w: nat, h: nat)
    requires k < 9 && 0 < w && 0 < h
    ensures 0 <= Row(k, idx, w, h) <= h - 1 && Row(k, idx, w, h) <= idx / w + 1
    ensures 0 <= Column(k, idx, w) <= w - 1 && Column(k, idx, w) <= idx % w + 1
  {
    assert 0 <= k / 3 <= 2 && 0 <= k % 3 <= 2;
    assert 0 <= idx / w;
  }

  /** Every read is inside the image, and none lies further ahead than one row and one pixel. */
  lemma SourceInBounds(k: nat, idx: nat, w: nat, h: nat)
    requires k < 9 && 0 < w && idx < w * h
    ensures 0 <= Source(k, idx, w, h) < w * h
    ensures Source(k, idx, w, h) < idx + w + 2
  {
    RowBelowHeight(idx, w, h);
    RowAndColumnRange(k, idx, w, h);
    FlatBounds(Row(k, idx, w, h), Column(k, idx, w), idx / w, idx % w, w, h);
  }

  /** The weighted sum of the first `n` taps, in quarters. */
  function Sum(px: seq<int>, n: nat): int
    requires n <= 9 == |px|
  {
    if n == 0 then 0 else Sum(px, n - 1) + px[n - 1] * Weight(n - 1)
  }

  /** The neighbourhood of `idx`, in the order of the taps. */
  function Neighbourhood(image: seq<int>, idx: nat, w: nat, h: nat): (px: seq<int>)
    requires 0 < w && |image| == w * h && idx < |image|
    ensures |px| == 9
    ensures forall k :: 0 <= k < 9 ==>
              0 <= Source(k, idx, w, h) < |image| && px[k] == image[Source(k, idx, w, h)]
  {
    SourcesInBounds(idx, w, h);
    seq(9, k requires 0 <= k < 9 && 0 <= Source(k, idx, w, h) < |image| => image[Source(k, idx, w, h)])
  }

  lemma SourcesInBounds(idx: nat, w: nat, h: nat)
    requires 0 < w && idx < w * h
    ensures forall k :: 0 <= k < 9 ==> 0 <= Source(k, idx, w, h) < w * h
  {
    forall k | 0 <= k < 9 ensures 0 <= Source(k, idx, w, h) < w * h {
      SourceInBounds(k, idx, w, h);
    }
  }

  /** The border-extended convolution at `idx`, in quarters. */
  function Convolution(image: seq<int>, idx: nat, w: nat, h: nat): int
    requires 0 < w && |image| == w * h && idx < |image|
  {
    Sum(Neighbourhood(image, idx, w, h), 9)
  }

  predicate AreBytes(image: seq<int>) {
    forall i :: 0 <= i < |image| ==> 0 <= image[i] <= 255
  }

  lemma SumUnfolded(px: seq<int>)
    requires |px| == 9
    ensures Sum(px, 9) == px[0] + 2 * px[1] + px[2] + 2 * px[3] - 12 * px[4] + 2 * px[5] + px[6] + 2 * px[7] + px[8]
  {
    assert Sum(px, 1) == px[0];
    assert Sum(px, 2) == px[0] + 2 * px[1];
    assert Sum(px, 3) == Sum(px, 2) + px[2];
    assert Sum(px, 4) == Sum(px, 3) + 2 * px[3];
    assert Sum(px, 5) == Sum(px, 4) - 12 * px[4];
    assert Sum(px, 6) == Sum(px, 5) + 2 * px[5];
    assert Sum(px, 7) == Sum(px, 6) + px[6];
    assert Sum(px, 8) == Sum(px, 7) + 2 * px[7];
  }

  /** The sum of a byte image lies in -765..765, and vanishes where the image is flat. */
  lemma ConvolutionRange(image: seq<int>, idx: nat, w: nat, h: nat)
    requires 0 < w && |image| == w * h && idx < |image| && AreBytes(image)
    ensures -4 * 765 <= Convolution(image, idx, w, h) <= 4 * 765
  {
    var px := Neighbourhood(image, idx, w, h);
    assert forall k :: 0 <= k < 9 ==> 0 <= px[k] <= 255;
    SumUnfolded(px);
  }

  lemma ConvolutionOfFlatPatch(image: seq<int>, idx: nat, w: nat, h: nat)
    requires 0 < w && |image| == w * h && idx < |image|
    requires forall k :: 0 <= k < 9 ==> Neighbourhood(image, idx, w, h)[k] == image[idx]
    ensures Convolution(image, idx, w, h) == 0
  {
    SumUnfolded(Neighbourhood(image, idx, w, h));
  }

  // ----- the conversion to a byte -----

  /** C's `round` of a sum of quarters: to the nearest whole number, halves away from zero. */
  function Rounded(q: int): (r: int)
    ensures -2 <= 4 * r - q <= 2
    ensures 4 * r - q == 2 ==> 0 < q
    ensures 4 * r - q == -2 ==> q < 0
  {
    if q >= 0 then (q + 2) / 4 else -((2 - q) / 4)
  }

  /** The pixel made of a sum of quarters.  C does not define the conversion of a number that is no byte:
      there `cast` stands for whatever the compiler makes of it. */
  function Pixel(q: int, cast: int -> int): int {
    var r := Rounded(q);
    if 0 <= r <= 255 then r else cast(r)
  }

  /** The conversion is defined exactly for the sums above -1/2 and below 255 1/2; only there is the output
      the same under every compiler. */
  lemma PixelIsDefinedIff(q: int)
    ensures (forall f: int -> int, g: int -> int :: Pixel(q, f) == Pixel(q, g)) <==> -2 < q < 1022
  {
    if !(-2 < q < 1022) {
      var f, g := (r: int) => 0, (r: int) => 1;
      assert Pixel(q, f) == 0 && Pixel(q, g) == 1;
    }
  }

  /** The byte `p` is the one nearest to a sum of `q` quarters, the upper of two; nothing is said of sums
      that are no byte. */
  ghost predicate IsNearestByte(p: int, q: int) {
    -2 < q < 1022 ==> 0 <= p <= 255 && -2 < 4 * p - q <= 2
  }

  lemma PixelIsNearestByte(q: int, cast: int -> int)
    ensures IsNearestByte(Pixel(q, cast), q)
  {
  }

  /** The weighted sum of nine pixels in quarters, row by row. */
  function NineTermSum(n: seq<int>): int
    requires |n| == 9
  {
    n[0] + 2 * n[1] + n[2] + 2 * n[3] - 12 * n[4] + 2 * n[5] + n[6] + 2 * n[7] + n[8]
  }

  /** What the code makes of the nine pixels around `idx`: the byte nearest to their weighted sum. */
  lemma OutputIsNearestByte(image: seq<int>, idx: nat, w: nat, h: nat, cast: int -> int)
    requires 0 < w && |image| == w * h && idx < |image|
    ensures IsNearestByte(Pixel(Convolution(image, idx, w, h), cast), NineTermSum(Neighbourhood(image, idx, w, h)))
  {
    SumUnfolded(Neighbourhood(image, idx, w, h));
    PixelIsNearestByte(Convolution(image, idx, w, h), cast);
  }

  /** A pixel amid its likes becomes 0, whatever the compiler. */
  lemma FlatPatchBecomesZero(image: seq<int>, idx: nat, w: nat, h: nat, cast: int -> int)
    requires 0 < w && |image| == w * h && idx < |image|
    requires forall k :: 0 <= k < 9 ==> Neighbourhood(image, idx, w, h)[k] == image[idx]
    ensures Pixel(Convolution(image, idx, w, h), cast) == 0
  {
    ConvolutionOfFlatPatch(image, idx, w, h);
  }

  /** Of the indices below `n` none is nearer to `target` than `r`. */
  ghost predicate IsNearestIndex(r: int, target: int, n: int) {
    0 <= r < n && forall y :: 0 <= y < n ==> Apart(r, target) <= Apart(y, target)
  }

  function Apart(a: int, b: int): nat {
    Abs(a - b)
  }

  /** The pixel a tap reads: in the row and the column nearest to its own, each inside the image; the
      nine pixels of the neighbourhood in the order of the taps. */
  lemma TapReadsNearest(image: seq<int>, k: nat, idx: nat, w: nat, h: nat) returns (r: int, c: int)
    requires k < 9 && 0 < w && |image| == w * h && idx < |image|
    ensures IsNearestIndex(r, idx / w + k / 3 - 1, h) && IsNearestIndex(c, idx % w + k % 3 - 1, w)
    ensures 0 <= r * w + c < |image| && Neighbourhood(image, idx, w, h)[k] == image[r * w + c]
  {
    r, c := Row(k, idx, w, h), Column(k, idx, w);
    RowBelowHeight(idx, w, h);
    RowAndColumnRange(k, idx, w, h);
    SourceInBounds(k, idx, w, h);
  }

  // ----- locality -----

  /** The furthest pixel the convolution at `idx` reads. */
  function Furthest(idx: nat, w: nat, h: nat): int
    requires 0 < w && idx < w * h
  {
    Source(8, idx, w, h)
  }

  lemma FurthestIsFurthest(k: nat, idx: nat, w: nat, h: nat)
    requires k < 9 && 0 < w && idx < w * h
    ensures Source(k, idx, w, h) <= Furthest(idx, w, h) < w * h
    ensures Furthest(idx, w, h) < idx + w + 2
  {
    RowBelowHeight(idx, w, h);
    SourceInBounds(8, idx, w, h);
    FlatOrder(Row(k, idx, w, h), Column(k, idx, w), Row(8, idx, w, h), Column(8, idx, w), w);
  }

  /** Every output but the last pixel's reads ahead of itself. */
  lemma FurthestIsAhead(idx: nat, w: nat, h: nat)
    requires 0 < w && idx + 1 < w * h
    ensures Furthest(idx, w, h) > idx
  {
    RowBelowHeight(idx, w, h);
    var y, x := idx / w, idx % w;
    RowAndColumnRange(8, idx, w, h);
    assert (h - 1) * w == w * h - w;
    assert y < h - 1 || x < w - 1;
    FlatOrder(y, x, Row(8, idx, w, h), Column(8, idx, w), w);
  }

  /** Images that agree on the pixels before `frontier` have the same output wherever no read lies beyond it. */
  lemma OutputSettledBehindFrontier(a: seq<int>, b: seq<int>, idx: nat, w: nat, h: nat, frontier: int)
    requires 0 < w && |a| == |b| == w * h && idx < |a|
    requires forall i :: 0 <= i < |a| && i < frontier ==> a[i] == b[i]
    requires Min(idx + w + 2, w * h) <= frontier || Furthest(idx, w, h) < frontier
    ensures Convolution(a, idx, w, h) == Convolution(b, idx, w, h)
  {
    forall k | 0 <= k < 9
      ensures Neighbourhood(a, idx, w, h)[k] == Neighbourhood(b, idx, w, h)[k]
    {
      FurthestIsFurthest(k, idx, w, h);
    }
    assert Neighbourhood(a, idx, w, h) == Neighbourhood(b, idx, w, h);
  }

  /** Outside the one-pixel image, an output is settled only when its furthest read is behind the
      frontier: otherwise changing that pixel alone, within its byte, changes the output. */
  lemma OutputUnsettledAtFrontier(a: seq<int>, idx: nat, w: nat, h: nat, frontier: nat) returns (b: seq<int>)
    requires 0 < w && |a| == w * h && 1 < |a| && idx < |a| && Furthest(idx, w, h) >= frontier
    ensures |b| == |a| && (AreBytes(a) ==> AreBytes(b))
    ensures forall i :: 0 <= i < |a| && i < frontier ==> b[i] == a[i]
    ensures Convolution(b, idx, w, h) != Convolution(a, idx, w, h)
  {
    FurthestIsFurthest(8, idx, w, h);
    SourceInBounds(8, idx, w, h);
    var f := Furthest(idx, w, h);
    b := a[f := 255 - a[f]];
    var p, q := Neighbourhood(a, idx, w, h), Neighbourhood(b, idx, w, h);
    var hit := seq(9, k requires 0 <= k < 9 => if Source(k, idx, w, h) == f then 1 else 0);
    FurthestHasWeight(idx, w, h, hit);
    SumShifted(p, q, hit, 255 - 2 * a[f], 9);
    NonzeroProduct(255 - 2 * a[f], Sum(hit, 9));
  }

  // ----- batches -----

  /** The furthest pixel that any output of a batch reads.  A batch that enters the last row from above has
      passed the end of the row before, which reads the very last pixel. */
  function LastRead(from: nat, stop: nat, w: nat, h: nat): int
    requires 0 < w && from < stop <= w * h
  {
    if (stop - 1) / w == h - 1 && from / w < h - 1 then w * h - 1 else Furthest(stop - 1, w, h)
  }

  lemma RowsGrow(i: nat, j: nat, w: nat)
    requires 0 < w && i <= j
    ensures i / w <= j / w && (i / w == j / w ==> i % w <= j % w)
  {
    assert i == i / w * w + i % w && j == j / w * w + j % w;
    if i / w > j / w {
      FlatOrder(j / w, j % w, i / w, i % w, w);
    }
  }

  /** Above the last row, and inside it, later outputs read no less far. */
  lemma FurthestGrows(i: nat, j: nat, w: nat, h: nat)
    requires 0 < w && i <= j < w * h && (j / w < h - 1 || i / w == h - 1)
    ensures Furthest(i, w, h) <= Furthest(j, w, h)
  {
    RowsGrow(i, j, w);
    RowBelowHeight(i, w, h);
    RowBelowHeight(j, w, h);
    RowAndColumnRange(8, i, w, h);
    RowAndColumnRange(8, j, w, h);
    FlatOrder(Row(8, i, w, h), Column(8, i, w), Row(8, j, w, h), Column(8, j, w), w);
  }

  /** The last pixel of the row before the last reads the very last pixel. */
  lemma EndOfRowReadsLast(w: nat, h: nat)
    requires 0 < w && 1 < h
    ensures 0 <= (h - 1) * w - 1 < w * h && Furthest((h - 1) * w - 1, w, h) == w * h - 1
  {
    var i := (h - 1) * w - 1;
    assert i == (h - 2) * w + (w - 1) by {
      assert (h - 1) * w == (h - 2) * w + w;
    }
    assert (h - 1) * w == w * h - w;
    MulKeepsOrder(0, h - 2, w);
    FlatQuotient(h - 2, w - 1, w);
  }

  lemma FlatQuotient(r: nat, c: nat, w: nat)
    requires c < w
    ensures (r * w + c) / w == r && (r * w + c) % w == c
  {
    var i := r * w + c;
    assert i == i / w * w + i % w;
    assert (i / w - r) * w == i / w * w - r * w;
    if i / w > r {
      MulKeepsOrder(1, i / w - r, w);
    } else if i / w < r {
      MulKeepsOrder(i / w - r, -1, w);
    }
  }

  lemma LastReadIsLast(from: nat, stop: nat, i: nat, w: nat, h: nat)
    requires 0 < w && from <= i < stop <= w * h
    ensures Furthest(i, w, h) <= LastRead(from, stop, w, h)
  {
    FurthestIsFurthest(8, i, w, h);
    RowsGrow(from, i, w);
    RowsGrow(i, stop - 1, w);
    RowBelowHeight(stop - 1, w, h);
    RowBelowHeight(from, w, h);
    if !((stop - 1) / w == h - 1 && from / w < h - 1) {
      FurthestGrows(i, stop - 1, w, h);
    }
  }

  /** The pixel of a batch that reads that far. */
  lemma LastReader(from: nat, stop: nat, w: nat, h: nat) returns (i: nat)
    requires 0 < w && from < stop <= w * h
    ensures from <= i < stop && Furthest(i, w, h) == LastRead(from, stop, w, h)
  {
    i := stop - 1;
    if (stop - 1) / w == h - 1 && from / w < h - 1 {
      EndOfRowReadsLast(w, h);
      LastRowIsEntered(from, stop - 1, w, h);
      i := (h - 1) * w - 1;
    }
  }

  lemma LastRowIsEntered(from: nat, last: nat, w: nat, h: nat)
    requires 0 < w && last / w == h - 1 && from / w < h - 1
    ensures from <= (h - 1) * w - 1 < last
  {
    var y, x := from / w, from % w;
    assert from == y * w + x && last == last / w * w + last % w;
    MulKeepsOrder(y + 1, h - 1, w);
    assert (y + 1) * w == y * w + w;
  }

  /** Whatever lies at or beyond the frontier, the outputs of the batch are the same. */
  ghost predicate BatchIsSettled(a: seq<int>, from: nat, stop: nat, frontier: nat, w: nat, h: nat)
    requires 0 < w && |a| == w * h && stop <= |a|
  {
    forall b: seq<int>, i: nat | AgreeBefore(a, b, frontier) && from <= i < stop ::
      Convolution(b, i, w, h) == Convolution(a, i, w, h)
  }

  ghost predicate AgreeBefore(a: seq<int>, b: seq<int>, frontier: nat) {
    |a| == |b| && forall i :: 0 <= i < |a| && i < frontier ==> b[i] == a[i]
  }

  /** Outside the one-pixel image, a batch is settled against a producer that works in place exactly when
      the furthest pixel it reads is behind the frontier. */
  lemma BatchIsSettledIff(a: seq<int>, from: nat, stop: nat, frontier: nat, w: nat, h: nat)
    requires 0 < w && |a| == w * h && 1 < |a| && from < stop <= |a|
    ensures BatchIsSettled(a, from, stop, frontier, w, h) <==> LastRead(from, stop, w, h) < frontier
  {
    if LastRead(from, stop, w, h) < frontier {
      forall b: seq<int>, i: nat | AgreeBefore(a, b, frontier) && from <= i < stop
        ensures Convolution(b, i, w, h) == Convolution(a, i, w, h)
      {
        LastReadIsLast(from, stop, i, w, h);
        OutputSettledBehindFrontier(a, b, i, w, h, frontier);
      }
    } else {
      var i := LastReader(from, stop, w, h);
      var b := OutputUnsettledAtFrontier(a, i, w, h, frontier);
      assert AgreeBefore(a, b, frontier);
    }
  }

  lemma NonzeroProduct(a: int, b: int)
    requires a != 0 && b != 0
    ensures a * b != 0
  {
  }

  lemma {:induction false} SumShifted(p: seq<int>, q: seq<int>, hit: seq<int>, delta: int, n: nat)
    requires |p| == |q| == |hit| == 9 && n <= 9
    requires forall k :: 0 <= k < 9 ==> (hit[k] == 0 && q[k] == p[k]) || (hit[k] == 1 && q[k] == p[k] + delta)
    ensures Sum(q, n) == Sum(p, n) + delta * Sum(hit, n)
  {
    if n > 0 {
      SumShifted(p, q, hit, delta, n - 1);
      ShiftedStep(p[n - 1], q[n - 1], hit[n - 1], delta, Weight(n - 1), Sum(hit, n - 1));
    }
  }

  lemma ShiftedStep(p: int, q: int, hit: int, delta: int, u: int, s: int)
    requires (hit == 0 && q == p) || (hit == 1 && q == p + delta)
    ensures q * u + delta * s == p * u + delta * (s + hit * u)
  {
    if hit == 1 {
      assert (p + delta) * u == p * u + delta * u;
      assert delta * (s + u) == delta * s + delta * u;
    }
  }

  /** The weights of the taps that read the furthest pixel do not cancel. */
  lemma FurthestHasWeight(idx: nat, w: nat, h: nat, hit: seq<int>)
    requires 0 < w && idx < w * h && 1 < w * h && |hit| == 9
    requires forall k :: 0 <= k < 9 ==> hit[k] == if Source(k, idx, w, h) == Furthest(idx, w, h) then 1 else 0
    ensures Sum(hit, 9) != 0
  {
    RowBelowHeight(idx, w, h);
    var y, x := idx / w, idx % w;
    SumUnfolded(hit);
    assert 1 < w || 1 < h;
    forall k | 0 <= k < 9
      ensures hit[k] == 1 <==>
              (k / 3 == 2 || (y == h - 1 && (k / 3 == 1 || h == 1)))
              && (k % 3 == 2 || (x == w - 1 && (k % 3 == 1 || w == 1)))
    {
      SourceSplits(k, idx, w, h);
    }
  }

  /** A tap reads the furthest pixel exactly when it reads both the lowest row and the rightmost column. */
  lemma SourceSplits(k: nat, idx: nat, w: nat, h: nat)
    requires k < 9 && 0 < w && idx < w * h
    ensures Source(k, idx, w, h) == Furthest(idx, w, h) <==>
            (k / 3 == 2 || (idx / w == h - 1 && (k / 3 == 1 || h == 1)))
            && (k % 3 == 2 || (idx % w == w - 1 && (k % 3 == 1 || w == 1)))
  {
    RowBelowHeight(idx, w, h);
    RowAndColumnRange(k, idx, w, h);
    RowAndColumnRange(8, idx, w, h);
    RowAgrees(k, idx / w, h);
    ColumnAgrees(k, idx % w, w);
    FlatOrder(Row(k, idx, w, h), Column(k, idx, w), Row(8, idx, w, h), Column(8, idx, w), w);
  }

  lemma RowAgrees(k: nat, y: int, h: int)
    requires k < 9 && 0 <= y < h
    ensures Clamp(y + (k / 3 - 1), 0, h - 1) <= Clamp(y + 1, 0, h - 1)
    ensures Clamp(y + (k / 3 - 1), 0, h - 1) == Clamp(y + 1, 0, h - 1) <==>
            k / 3 == 2 || (y == h - 1 && (k / 3 == 1 || h == 1))
  {
  }

  lemma ColumnAgrees(k: nat, x: int, w: int)
    requires k < 9 && 0 <= x < w
    ensures Clamp(x + (k % 3 - 1), 0, w - 1) <= Clamp(x + 1, 0, w - 1)
    ensures Clamp(x + (k % 3 - 1), 0, w - 1) == Clamp(x + 1, 0, w - 1) <==>
            k % 3 == 2 || (x == w - 1 && (k % 3 == 1 || w == 1))
  {
  }

  // ----- the code -----

  /** The pixel of column `idx % w` that the taps of a row read, as the code computes it: no step is
      taken across the top or the bottom border. */
  function RowPixel(row: nat, idx: nat, w: nat, h: nat): int
    requires 0 < w
  {
    if row == 0 && idx / w != 0 then idx - w else if row == 2 && idx / w != h - 1 then idx + w else idx
  }

  lemma RowStart(row: nat, idx: nat, w: nat, h: nat)
    requires row < 3 && 0 < w && idx < w * h
    ensures Clamp(idx / w + (row - 1), 0, h - 1) * w == RowPixel(row, idx, w, h) - idx % w
    ensures 0 <= RowPixel(row, idx, w, h) - idx % w <= w * h - w
  {
    RowBelowHeight(idx, w, h);
    NeighbouringRow(idx / w, row - 1, w, h);
  }

  /** Stepping one row up, down or not at all moves by a whole row unless the border stops it. */
  lemma NeighbouringRow(y: int, step: int, w: nat, h: nat)
    requires 0 <= y < h && -1 <= step <= 1
    ensures Clamp(y + step, 0, h - 1) * w ==
            if step == -1 && y != 0 then y * w - w else if step == 1 && y != h - 1 then y * w + w else y * w
    ensures 0 <= Clamp(y + step, 0, h - 1) * w <= w * h - w
  {
    var r := Clamp(y + step, 0, h - 1);
    if r == y + 1 {
      assert (y + 1) * w == y * w + w;
    } else if r == y - 1 {
      assert (y - 1) * w == y * w - w;
    } else {
      assert r == y;
    }
    MulKeepsOrder(0, r, w);
    MulKeepsOrder(r, h - 1, w);
    assert (h - 1) * w == w * h - w;
  }

  /** Where a tap lands, as the code computes it: no step is taken across the left or the right border. */
  lemma TapPixel(row: nat, column: nat, idx: nat, w: nat, h: nat)
    requires row < 3 && column < 3 && 0 < w && idx < w * h
    ensures Source(3 * row + column, idx, w, h) ==
            RowPixel(row, idx, w, h)
              + (if column == 0 && idx % w != 0 then -1 else if column == 2 && idx % w != w - 1 then 1 else 0)
  {
    RowStart(row, idx, w, h);
    assert (3 * row + column) / 3 == row && (3 * row + column) % 3 == column;
  }

  /** The taps of one row of the neighbourhood; `at` is the pixel below, at or above `idx` that is read. */
  method FillRow(image: array<int>, pixels: array<int>, first: nat, at: int, left: bool, right: bool)
    requires image != pixels && pixels.Length == 9 && first + 3 <= 9
    requires 0 <= at < image.Length && (!left ==> 0 < at) && (!right ==> at + 1 < image.Length)
    modifies pixels
    ensures pixels[first] == image[if left then at else at - 1]
    ensures pixels[first + 1] == image[at]
    ensures pixels[first + 2] == image[if right then at else at + 1]
    ensures forall k :: 0 <= k < 9 && !(first <= k < first + 3) ==> pixels[k] == old(pixels[k])
  {
    if left {
      pixels[first] := image[at];
    } else {
      pixels[first] := image[at - 1];
    }
    pixels[first + 1] := image[at];
    if right {
      pixels[first + 2] := image[at];
    } else {
      pixels[first + 2] := image[at + 1];
    }
  }

  /** One row of the scratch array holds what the three taps of that row read. */
  ghost predicate HasRow(px: seq<int>, image: seq<int>, row: nat, idx: nat, w: nat, h: nat)
    requires row < 3 && 0 < w && |px| == 9
  {
    var at := RowPixel(row, idx, w, h);
    && 0 <= at < |image| && (idx % w != 0 ==> 0 < at) && (idx % w != w - 1 ==> at + 1 < |image|)
    && px[3 * row] == image[if idx % w == 0 then at else at - 1]
    && px[3 * row + 1] == image[at]
    && px[3 * row + 2] == image[if idx % w == w - 1 then at else at + 1]
  }

  lemma RowIsRead(px: seq<int>, image: seq<int>, row: nat, column: nat, idx: nat, w: nat, h: nat)
    requires row < 3 && column < 3 && 0 < w && |image| == w * h && idx < |image| && |px| == 9
    requires HasRow(px, image, row, idx, w, h)
    ensures px[3 * row + column] == Neighbourhood(image, idx, w, h)[3 * row + column]
  {
    TapPixel(row, column, idx, w, h);
  }

  lemma RowsMakeNeighbourhood(px: seq<int>, image: seq<int>, idx: nat, w: nat, h: nat)
    requires 0 < w && |image| == w * h && idx < |image| && |px| == 9
    requires HasRow(px, image, 0, idx, w, h) && HasRow(px, image, 1, idx, w, h) && HasRow(px, image, 2, idx, w, h)
    ensures px == Neighbourhood(image, idx, w, h)
  {
    forall k | 0 <= k < 9 ensures px[k] == Neighbourhood(image, idx, w, h)[k] {
      RowIsRead(px, image, k / 3, k % 3, idx, w, h);
    }
  }

  lemma RowPixelInBounds(row: nat, idx: nat, w: nat, h: nat)
    requires row < 3 && 0 < w && idx < w * h
    ensures var at := RowPixel(row, idx, w, h);
            0 <= at < w * h && (idx % w != 0 ==> 0 < at) && (idx % w != w - 1 ==> at + 1 < w * h)
  {
    RowStart(row, idx, w, h);
  }

  /** Fills the scratch array with the border-extended neighbourhood of `idx`. */
  method Gather(image: array<int>, idx: nat, w: nat, h: nat, pixels: array<int>)
    requires 0 < w && image.Length == w * h && idx < image.Length
    requires pixels != image && pixels.Length == 9
    modifies pixels
    ensures pixels[..] == Neighbourhood(image[..], idx, w, h)
  {
    var y := idx / w;
    var x := idx - y * w;
    RowBelowHeight(idx, w, h);
    RowPixelInBounds(0, idx, w, h);
    RowPixelInBounds(2, idx, w, h);
    var left, right, top, bottom := x == 0, x == w - 1, y == 0, y == h - 1;
    FillRow(image, pixels, 0, if top then idx else idx - w, left, right);
    FillRow(image, pixels, 3, idx, left, right);
    FillRow(image, pixels, 6, if bottom then idx else idx + w, left, right);
    RowsMakeNeighbourhood(pixels[..], image[..], idx, w, h);
  }

  /** `filter_pixel`; the sum is exact in quarters, as it is in the code's floating point. */
  method FilterPixel(image: array<int>, idx: nat, w: nat, h: nat, pixels: array<int>, cast: int -> int)
    returns (pixel: int)
    requires 0 < w && image.Length == w * h && idx < image.Length
    requires pixels != image && pixels.Length == 9
    modifies pixels
    ensures pixel == Pixel(Convolution(image[..], idx, w, h), cast)
    ensures IsNearestByte(pixel, NineTermSum(Neighbourhood(image[..], idx, w, h)))
  {
    Gather(image, idx, w, h, pixels);
    var result := 0;
    for i := 0 to 9
      invariant result == Sum(pixels[..], i)
    {
      result := result + pixels[i] * Weight(i);
    }
    pixel := Pixel(result, cast);
    OutputIsNearestByte(image[..], idx, w, h, cast);
  }

  /** The filter of the whole image. */
  function FilterImage(image: seq<int>, w: nat, h: nat, cast: int -> int): (out: seq<int>)
    requires 0 < w && |image| == w * h
    ensures |out| == |image|
    ensures forall i :: 0 <= i < |out| ==> out[i] == Pixel(Convolution(image, i, w, h), cast)
  {
    seq(|image|, i requires 0 <= i < |image| => Pixel(Convolution(image, i, w, h), cast))
  }

  /** `out` with the pixels `start..start + num - 1` taken from `full`. */
  function Written(out: seq<int>, full: seq<int>, start: nat, num: nat): seq<int>
    requires |out| == |full| && start + num <= |out|
  {
    out[..start] + full[start..start + num] + out[start + num..]
  }

  /** One turn of the loop of `apply_filter`. */
  method ApplyOne(image: array<int>, outBuf: array<int>, i: nat, w: nat, h: nat, pixels: array<int>, cast: int -> int,
                  ghost full: seq<int>)
    requires 0 < w && image.Length == outBuf.Length == w * h && i < image.Length
    requires pixels.Length == 9 && pixels != image && pixels != outBuf && image != outBuf
    modifies outBuf, pixels
    requires full == FilterImage(image[..], w, h, cast)
    ensures outBuf[..] == old(outBuf[..])[i := full[i]]
  {
    var pixel := FilterPixel(image, i, w, h, pixels, cast);
    outBuf[i] := pixel;
  }

  /** `apply_filter`: writes the pixels `start..start + num - 1` and no others. */
  method ApplyFilter(image: array<int>, outBuf: array<int>, start: nat, num: nat, w: nat, h: nat,
                     pixels: array<int>, cast: int -> int)
    requires 0 < w && image.Length == outBuf.Length == w * h && start + num <= image.Length
    requires pixels.Length == 9 && pixels != image && pixels != outBuf && image != outBuf
    modifies outBuf, pixels
    ensures outBuf[..] == Written(old(outBuf[..]), FilterImage(image[..], w, h, cast), start, num)
  {
    ghost var full, was := FilterImage(image[..], w, h, cast), outBuf[..];
    ghost var n: nat := 0;
    NothingWritten(was, full, start);
    for i := start to start + num
      invariant i == start + n && outBuf[..] == Written(was, full, start, n)
      invariant full == FilterImage(image[..], w, h, cast)
    {
      ApplyOne(image, outBuf, i, w, h, pixels, cast, full);
      WrittenOneMore(was, full, start, n, i);
      n := n + 1;
    }
  }

  /** Exactly the pixels of the range change. */
  lemma WrittenAt(out: seq<int>, full: seq<int>, start: nat, num: nat, i: nat)
    requires |out| == |full| && start + num <= |out| && i < |out|
    ensures |Written(out, full, start, num)| == |out|
    ensures Written(out, full, start, num)[i] == if start <= i < start + num then full[i] else out[i]
  {
  }

  lemma NothingWritten(out: seq<int>, full: seq<int>, start: nat)
    requires |out| == |full| && start <= |out|
    ensures Written(out, full, start, 0) == out
  {
  }

  lemma WrittenOneMore(out: seq<int>, full: seq<int>, start: nat, num: nat, i: nat)
    requires |out| == |full| && i == start + num < |out|
    ensures Written(out, full, start, num)[i := full[i]] == Written(out, full, start, num + 1)
  {
  }

  /** The output of a list of consecutive calls, the first starting at `start`. */
  function WrittenInParts(out: seq<int>, full: seq<int>, start: nat, parts: seq<nat>): seq<int>
    requires |out| == |full| && start + Total(parts) <= |out|
    decreases |parts|
  {
    if parts == [] then out
    else WrittenInParts(Written(out, full, start, parts[0]), full, start + parts[0], parts[1..])
  }

  function Total(parts: seq<nat>): nat {
    if parts == [] then 0 else parts[0] + Total(parts[1..])
  }

  /** However a range is cut into consecutive calls, the output is that of a single call. */
  lemma {:induction false} AnySplitIsOneCall(out: seq<int>, full: seq<int>, start: nat, parts: seq<nat>)
    requires |out| == |full| && start + Total(parts) <= |out|
    ensures WrittenInParts(out, full, start, parts) == Written(out, full, start, Total(parts))
    decreases |parts|
  {
    if parts != [] {
      AnySplitIsOneCall(Written(out, full, start, parts[0]), full, start + parts[0], parts[1..]);
    }
  }

  /** Consecutive calls of `apply_filter`, the first starting at `start`, do what one call would. */
  method ApplyInParts(image: array<int>, outBuf: array<int>, start: nat, parts: seq<nat>, w: nat, h: nat,
                      pixels: array<int>, cast: int -> int)
    requires 0 < w && image.Length == outBuf.Length == w * h && start + Total(parts) <= image.Length
    requires pixels.Length == 9 && pixels != image && pixels != outBuf && image != outBuf
    modifies outBuf, pixels
    ensures outBuf[..] == Written(old(outBuf[..]), FilterImage(image[..], w, h, cast), start, Total(parts))
  {
    ghost var full := FilterImage(image[..], w, h, cast);
    var at: nat, left := start, parts;
    while left != []
      invariant at + Total(left) == start + Total(parts) && image[..] == old(image[..])
      invariant WrittenInParts(outBuf[..], full, at, left) == WrittenInParts(old(outBuf[..]), full, start, parts)
      decreases |left|
    {
      ApplyFilter(image, outBuf, at, left[0], w, h, pixels, cast);
      at, left := at + left[0], left[1..];
    }
    AnySplitIsOneCall(old(outBuf[..]), full, start, parts);
  }
}
