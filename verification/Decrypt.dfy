/** Modular exponentiation on 32-bit words, and the in-place decryption of an image with it. */
module Decrypt {
  import opened CArith
  import opened NumberTheory

  ghost predicate IsWord(v: int) {
    0 <= v < TWO32
  }

  /** The moduli for which no wrapped product spoils a remainder: the product of two remainders fits a
      word, or the word size is itself a multiple of the modulus. */
  predicate GoodModulus(m: int)
    requires 0 < m
  {
    2 <= m && (m <= 0x1_0000 || TWO32 % m == 0)
  }

  /** The loop of `mod_exp` from any of its states, in wrapping arithmetic. */
  function ModExpFrom(base: int, exponent: nat, result: int, modulus: int): int
    requires 0 < modulus
    decreases exponent
  {
    if exponent == 0 then result
    else
      ModExpFrom(U32(base * base) % modulus, exponent / 2,
                 if exponent % 2 == 1 then U32(result * base) % modulus else result, modulus)
  }

  /** `mod_exp` */
  method ModExp(base0: int, exponent0: int, modulus: int) returns (result: int)
    requires IsWord(base0) && IsWord(exponent0) && IsWord(modulus) && 0 < modulus
    ensures result == ModExpFrom(base0 % modulus, exponent0, 1, modulus)
    ensures GoodModulus(modulus) ==> result == Pow(base0, exponent0) % modulus
  {
    result := 1;
    var base, exponent := base0 % modulus, exponent0;
    while exponent > 0
      invariant 0 <= exponent
      invariant ModExpFrom(base, exponent, result, modulus) == ModExpFrom(base0 % modulus, exponent0, 1, modulus)
    {
      if exponent % 2 == 1 {
        result := U32(result * base) % modulus;
      }
      base := U32(base * base) % modulus;
      exponent := exponent / 2;
    }
    if GoodModulus(modulus) {
      ModExpComputesPower(base0, exponent0, modulus);
    }
  }

  lemma SmallProduct(a: int, b: int, m: int)
    requires 0 <= a < m && 0 <= b < m && m <= 0x1_0000
    ensures 0 <= a * b < TWO32
  {
    ProductIsNonnegative(a, b);
    ProductIsNonnegative(a, 0xFFFF - b);
    assert a * (0xFFFF - b) == a * 0xFFFF - a * b;
  }

  /** With a good modulus, wrapping a product of remainders to a word does not change its remainder. */
  lemma WrappingIsHarmless(a: int, b: int, m: int)
    requires 0 < m && GoodModulus(m) && 0 <= a < m && 0 <= b < m
    ensures U32(a * b) % m == (a * b) % m
  {
    var z := a * b;
    if m <= 0x1_0000 {
      SmallProduct(a, b, m);
    } else {
      var j, k := TWO32 / m, z / TWO32;
      assert TWO32 == m * j;
      assert z - U32(z) == TWO32 * k;
      assert (m * j) * k == m * (j * k);
      assert z - U32(z) == Times(m, j * k);
      SameRemainderIff(z, U32(z), m);
    }
  }

  lemma HalvedPower(base: int, exponent: nat)
    requires 0 < exponent
    ensures Pow(base, exponent) == Pow(base * base, exponent / 2) * (if exponent % 2 == 1 then base else 1)
  {
    PowOfSquare(base, exponent / 2);
    assert exponent == 2 * (exponent / 2) + exponent % 2;
  }

  /** Square-and-multiply computes the power. */
  lemma {:induction false} ModExpIsPower(base: int, exponent: nat, result: int, m: int)
    requires 0 < m && GoodModulus(m) && 0 <= base < m && 0 <= result < m
    ensures ModExpFrom(base, exponent, result, m) == (result * Pow(base, exponent)) % m
    decreases exponent
  {
    if exponent == 0 {
      QuotientIsUnique(result, m, 0, result);
    } else {
      WrappingIsHarmless(base, base, m);
      WrappingIsHarmless(result, base, m);
      var square := (base * base) % m;
      var odd := exponent % 2 == 1;
      var next := if odd then (result * base) % m else result;
      ModExpIsPower(square, exponent / 2, next, m);
      HalvedPower(base, exponent);
      var full := if odd then result * base else result;
      RemainderOfRemainder(base * base, m);
      RemainderOfRemainder(result * base, m);
      ModOfPower(square, base * base, exponent / 2, m);
      ModOfProduct(next, Pow(square, exponent / 2), full, Pow(base * base, exponent / 2), m);
      MultiplyThrough(result, base, Pow(base * base, exponent / 2), odd);
    }
  }

  lemma MultiplyThrough(result: int, base: int, p: int, odd: bool)
    ensures (if odd then result * base else result) * p == result * (p * (if odd then base else 1))
  {
    assert (result * base) * p == result * (p * base);
  }

  lemma ModExpComputesPower(base: int, exponent: nat, m: int)
    requires 0 < m && GoodModulus(m)
    ensures ModExpFrom(base % m, exponent, 1, m) == Pow(base, exponent) % m
  {
    ModExpIsPower(base % m, exponent, 1, m);
    RemainderOfRemainder(base, m);
    ModOfPower(base % m, base, exponent, m);
    assert 1 * Pow(base % m, exponent) == Pow(base % m, exponent);
  }

  /** `mod_exp` is right on all words exactly for the good moduli. */
  lemma ModExpIsExactIff(m: int)
    requires IsWord(m) && 0 < m
    ensures GoodModulus(m) <==>
            forall b: int, e: nat :: IsWord(b) && IsWord(e) ==> ModExpFrom(b % m, e, 1, m) == Pow(b, e) % m
  {
    if GoodModulus(m) {
      forall b: int, e: nat | IsWord(b) && IsWord(e)
        ensures ModExpFrom(b % m, e, 1, m) == Pow(b, e) % m
      {
        ModExpComputesPower(b, e, m);
      }
    } else if m == 1 {
      assert ModExpFrom(0 % m, 0, 1, m) == 1 && Pow(0, 0) % m == 0;
      assert IsWord(0);
    } else {
      OverflowSpoilsSquare(m);
      assert IsWord(0x1_0000) && IsWord(2);
    }
  }

  /** For any other modulus, squaring 65536 wraps to zero. */
  lemma OverflowSpoilsSquare(m: int)
    requires 0x1_0000 < m < TWO32 && TWO32 % m != 0
    ensures ModExpFrom(0x1_0000 % m, 2, 1, m) != Pow(0x1_0000, 2) % m
  {
    var b := 0x1_0000;
    QuotientIsUnique(b, m, 0, b);
    assert b * b == TWO32 && U32(b * b) == 0;
    QuotientIsUnique(0, m, 0, 0);
    assert ModExpFrom(b, 2, 1, m) == ModExpFrom(0, 1, 1, m);
    assert ModExpFrom(0, 1, 1, m) == ModExpFrom(U32(0 * 0) % m, 0, U32(1 * 0) % m, m) == 0;
    assert Pow(b, 2) == b * Pow(b, 1) && Pow(b, 1) == b * Pow(b, 0);
  }

  // ----- the image -----

  /** One pixel, decrypted as the code does it. */
  function DecryptedPixel(v: int, d: int, n: int): int
    requires 0 < n && 0 <= d
  {
    ModExpFrom(v % n, d, 1, n)
  }

  class Decryptor {
    const image: array<int>
    const d: int
    const n: int
    const width: int
    const height: int
    var count: nat

    ghost predicate Valid()
      reads this, image
    {
      && IsWord(d) && IsWord(n) && 0 < n
      && 0 <= width * height <= image.Length && count <= width * height
      && forall i :: 0 <= i < image.Length ==> IsWord(image[i])
    }

    constructor (image: array<int>, d: int, n: int, width: int, height: int)
      requires IsWord(d) && IsWord(n) && 0 < n && 0 <= width * height <= image.Length
      requires forall i :: 0 <= i < image.Length ==> IsWord(image[i])
      ensures Valid() && this.image == image && count == 0
      ensures this.d == d && this.n == n && this.width == width && this.height == height
    {
      this.image, this.d, this.n, this.width, this.height := image, d, n, width, height;
      count := 0;
    }

    /** `decrypt_px` */
    method DecryptPx()
      requires Valid() && count < width * height
      modifies `count, image
      ensures Valid() && count == old(count) + 1
      ensures image[..] == old(image[..])[old(count) := DecryptedPixel(old(image[count]), d, n)]
    {
      var pixel := image[count];
      ModExpIsWord(pixel % n, d, 1, n);
      pixel := ModExp(pixel, d, n);
      image[count] := pixel;
      count := count + 1;
    }

    /** `timer1_100us_isr` */
    method TimerIsr(copyDone: bool, automatic: bool)
      requires Valid()
      modifies `count, image
      ensures Valid()
      ensures count == if copyDone && automatic && old(count) < width * height then old(count) + 1 else old(count)
      ensures image[..] == if count > old(count)
                           then old(image[..])[old(count) := DecryptedPixel(old(image[..])[old(count)], d, n)]
                           else old(image[..])
    {
      if count != width * height && copyDone {
        if automatic {
          DecryptPx();
        }
      }
    }

    /** A run of timer interrupts, each with what it reads from the flag and the mode switch. */
    method RunTimer(inputs: seq<(bool, bool)>)
      requires Valid()
      modifies `count, image
      ensures Valid()
      ensures count == Min(width * height, old(count) + Active(inputs))
      ensures forall i :: 0 <= i < image.Length ==>
                image[i] == if old(count) <= i < count then DecryptedPixel(old(image[i]), d, n) else old(image[i])
    {
      ghost var before := image[..];
      for j := 0 to |inputs|
        invariant Valid() && count == Min(width * height, old(count) + Active(inputs[..j]))
        invariant forall i :: 0 <= i < image.Length ==>
                    image[i] == if old(count) <= i < count then DecryptedPixel(before[i], d, n) else before[i]
      {
        ActiveOfLonger(inputs, j);
        TimerIsr(inputs[j].0, inputs[j].1);
      }
      assert inputs[..|inputs|] == inputs;
    }
  }

  lemma {:induction false} ModExpIsWord(base: int, exponent: nat, result: int, m: int)
    requires 0 < m < TWO32 && IsWord(result)
    ensures IsWord(ModExpFrom(base, exponent, result, m))
    decreases exponent
  {
    if exponent > 0 {
      ModExpIsWord(U32(base * base) % m, exponent / 2,
                   if exponent % 2 == 1 then U32(result * base) % m else result, m);
    }
  }

  /** The interrupts that find the image copied and the switch in automatic mode. */
  function Active(inputs: seq<(bool, bool)>): nat {
    if inputs == [] then 0
    else Active(inputs[..|inputs| - 1]) + if inputs[|inputs| - 1].0 && inputs[|inputs| - 1].1 then 1 else 0
  }

  lemma ActiveOfLonger(inputs: seq<(bool, bool)>, j: nat)
    requires j < |inputs|
    ensures Active(inputs[..j + 1]) == Active(inputs[..j]) + if inputs[j].0 && inputs[j].1 then 1 else 0
  {
    assert inputs[..j + 1][..j] == inputs[..j];
  }

  /** A pixel that was encrypted with the other half of a key comes back, when the modulus is small
      enough for the arithmetic. */
  lemma PixelRoundTrip(x: nat, n: int, e: nat, d: nat, p: nat, q: nat)
    requires RsaKey(n, e, d, p, q) && n <= 0x1_0000 && x < n
    ensures DecryptedPixel(Pow(x, e) % n, d, n) == x
  {
    assert n >= 2;
    ModExpComputesPower(Pow(x, e) % n, d, n);
    RsaRoundTrip(n, e, d, p, q, x);
  }

  /** A whole image, encrypted pixel by pixel and decrypted in place by at least as many active timer
      interrupts as it has pixels, is the image it was. */
  method DecryptWholeImage(plain: seq<int>, image: array<int>, e: nat, d: int, n: int, p: nat, q: nat,
                           width: int, height: int, inputs: seq<(bool, bool)>)
    requires IsWord(d) && RsaKey(n, e, d, p, q) && n <= 0x1_0000
    requires width * height == image.Length == |plain| && Active(inputs) >= image.Length
    requires forall i :: 0 <= i < |plain| ==> 0 <= plain[i] < n && image[i] == Pow(plain[i], e) % n
    modifies image
    ensures image[..] == plain
  {
    var decryptor := new Decryptor(image, d, n, width, height);
    decryptor.RunTimer(inputs);
    forall i | 0 <= i < |plain|
      ensures image[i] == plain[i]
    {
      PixelRoundTrip(plain[i], n, e, d, p, q);
    }
  }
}
