/** The pieces of C integer arithmetic that differ from Dafny's. */
module CArith {

  const TWO32: int := 0x1_0000_0000

  /** C's `/`: the quotient is truncated toward zero. */
  function TruncDiv(a: int, b: int): (q: int)
    requires b > 0
    ensures b * q <= a < b * q + b || (a < 0 && b * q - b < a <= b * q)
    ensures a >= 0 ==> q == a / b
    ensures a <= 0 ==> q == -((-a) / b)
  {
    if a >= 0 then a / b else -((-a) / b)
  }

  function Max(a: int, b: int): int {
    if a >= b then a else b
  }

  function Min(a: int, b: int): int {
    if a <= b then a else b
  }

  /** The value of `v` forced into `lo..hi`. */
  function Clamp(v: int, lo: int, hi: int): int {
    if v < lo then lo else if v > hi then hi else v
  }

  function Abs(v: int): nat {
    if v < 0 then -v else v
  }

  /** A value stored in an unsigned 32-bit word. */
  function U32(v: int): (w: int)
    ensures 0 <= w < TWO32
  {
    v % TWO32
  }

  /** A value stored in a signed 32-bit word. */
  function S32(v: int): (w: int)
    ensures -0x8000_0000 <= w < 0x8000_0000
  {
    var u := U32(v);
    if u < 0x8000_0000 then u else u - TWO32
  }

  lemma MulKeepsOrder(a: int, b: int, w: int)
    requires a <= b && 0 <= w
    ensures a * w <= b * w
  {
    assert b * w - a * w == (b - a) * w;
  }
}
