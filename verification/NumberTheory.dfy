/** Powers modulo a number, Fermat's little theorem, and the exponents that undo each other. */
module NumberTheory {

  function Pow(b: int, e: nat): int {
    if e == 0 then 1 else b * Pow(b, e - 1)
  }

  /** `d` divides `n`. */
  ghost predicate Divides(d: int, n: int) {
    exists k :: n == Times(d, k)
  }

  function Times(a: int, b: int): int {
    a * b
  }

  ghost predicate Prime(p: int) {
    1 < p && forall a, b :: 1 < a < p && 1 < b < p ==> Times(a, b) != p
  }

  // ----- division with remainder -----

  lemma ProductIsNonnegative(a: int, b: int)
    requires 0 <= a && 0 <= b
    ensures 0 <= a * b
  {
  }

  lemma MulCommutes(a: int, b: int)
    ensures a * b == b * a
  {
  }

  lemma MulAssociates(a: int, b: int, c: int)
    ensures a * (b * c) == (a * b) * c
  {
  }

  lemma SmallMultipleIsZero(m: int, k: int)
    requires 0 < m && -m < m * k < m
    ensures k == 0
  {
    var j := if k > 0 then k - 1 else -k - 1;
    assert k > 0 ==> m * k == m * j + m;
    assert k < 0 ==> m * k == -(m * j) - m;
    if k != 0 {
      ProductIsNonnegative(m, j);
    }
  }

  lemma QuotientIsUnique(n: int, m: int, q: int, r: int)
    requires 0 < m && n == m * q + r && 0 <= r < m
    ensures q == n / m && r == n % m
  {
    var q', r' := n / m, n % m;
    assert n == m * q' + r';
    assert m * (q - q') == m * q - m * q';
    SmallMultipleIsZero(m, q - q');
  }

  /** Numbers with the same remainder differ by a multiple. */
  lemma SameRemainderIff(a: int, b: int, m: int)
    requires 0 < m
    ensures a % m == b % m <==> Divides(m, a - b)
  {
    if a % m == b % m {
      assert a - b == m * (a / m - b / m);
      assert a - b == Times(m, a / m - b / m);
    }
    if Divides(m, a - b) {
      var k :| a - b == Times(m, k);
      assert m * (b / m + k) == m * (b / m) + m * k;
      QuotientIsUnique(a, m, b / m + k, b % m);
    }
  }

  lemma DividesSum(d: int, a: int, b: int)
    requires Divides(d, a) && Divides(d, b)
    ensures Divides(d, a + b) && Divides(d, a - b)
  {
    var j :| a == Times(d, j);
    var k :| b == Times(d, k);
    assert a + b == Times(d, j + k) && a - b == Times(d, j - k);
  }

  lemma DividesMultiple(d: int, a: int, c: int)
    requires Divides(d, a)
    ensures Divides(d, a * c) && Divides(d, c * a)
  {
    var j :| a == Times(d, j);
    assert d * j * c == d * (j * c);
    assert a * c == Times(d, j * c);
  }

  /** The remainder of a product depends only on the remainders of its factors. */
  lemma ModOfProduct(a: int, b: int, a': int, b': int, m: int)
    requires 0 < m && a % m == a' % m && b % m == b' % m
    ensures (a * b) % m == (a' * b') % m
  {
    SameRemainderIff(a, a', m);
    SameRemainderIff(b, b', m);
    DividesMultiple(m, a - a', b);
    DividesMultiple(m, b - b', a');
    DividesSum(m, (a - a') * b, a' * (b - b'));
    assert (a - a') * b + a' * (b - b') == a * b - a' * b';
    SameRemainderIff(a * b, a' * b', m);
  }

  lemma {:induction false} ModOfPower(a: int, b: int, e: nat, m: int)
    requires 0 < m && a % m == b % m
    ensures Pow(a, e) % m == Pow(b, e) % m
  {
    if e > 0 {
      ModOfPower(a, b, e - 1, m);
      ModOfProduct(a, Pow(a, e - 1), b, Pow(b, e - 1), m);
    }
  }

  // ----- powers -----

  lemma {:induction false} PowOfSum(b: int, e: nat, f: nat)
    ensures Pow(b, e + f) == Pow(b, e) * Pow(b, f)
  {
    if e > 0 {
      PowOfSum(b, e - 1, f);
      MulAssociates(b, Pow(b, e - 1), Pow(b, f));
    }
  }

  lemma {:induction false} PowOfSquare(b: int, e: nat)
    ensures Pow(b * b, e) == Pow(b, 2 * e)
  {
    if e > 0 {
      PowOfSquare(b, e - 1);
      assert Pow(b, 2 * e) == b * (b * Pow(b, 2 * e - 2));
      assert (b * b) * Pow(b, 2 * e - 2) == b * (b * Pow(b, 2 * e - 2));
    }
  }

  lemma {:induction false} PowOfProduct(b: int, e: nat, f: nat)
    ensures e * f >= 0 && Pow(b, e * f) == Pow(Pow(b, e), f)
  {
    if f > 0 {
      PowOfProduct(b, e, f - 1);
      assert e * f == e * (f - 1) + e;
      PowOfSum(b, e * (f - 1), e);
    } else {
      assert e * f == 0;
    }
  }

  // ----- binomial coefficients -----

  function Choose(n: nat, k: nat): nat {
    if k == 0 then 1
    else if n == 0 then 0
    else Choose(n - 1, k - 1) + Choose(n - 1, k)
  }

  lemma {:induction false} ChooseBeyond(n: nat, k: nat)
    requires k > n
    ensures Choose(n, k) == 0
  {
    if n > 0 {
      ChooseBeyond(n - 1, k - 1);
      ChooseBeyond(n - 1, k);
    }
  }

  lemma {:induction false} ChooseAll(n: nat)
    ensures Choose(n, n) == 1
  {
    if n > 0 {
      ChooseAll(n - 1);
      ChooseBeyond(n - 1, n);
    }
  }

  lemma AbsorptionStep(n: int, k: int, a: int, b: int, c: int, d: int)
    requires a == c + d && (k - 1) * a == (n - 1) * c && k * b == (n - 1) * d
    ensures k * (a + b) == n * a
  {
    assert k * (a + b) == (k - 1) * a + a + k * b;
    assert (n - 1) * (c + d) == (n - 1) * c + (n - 1) * d;
    assert n * a == (n - 1) * a + a;
  }

  lemma {:induction false} Absorption(n: nat, k: nat)
    requires 0 < n && 0 < k
    ensures k * Choose(n, k) == n * Choose(n - 1, k - 1)
  {
    if n == 1 {
      if k > 1 {
        ChooseBeyond(1, k);
        ChooseBeyond(0, k - 1);
      }
    } else if k > 1 {
      Absorption(n - 1, k - 1);
      Absorption(n - 1, k);
      AbsorptionStep(n, k, Choose(n - 1, k - 1), Choose(n - 1, k), Choose(n - 2, k - 2), Choose(n - 2, k - 1));
    } else {
      Absorption(n - 1, 1);
    }
  }

  /** The first terms, up to `a^j`, of the expansion of `(a + 1)^n`. */
  function Expansion(n: nat, a: int, j: nat): int {
    (if j == 0 then 0 else Expansion(n, a, j - 1)) + Choose(n, j) * Pow(a, j)
  }

  lemma {:induction false} ExpansionStep(n: nat, a: int, j: nat)
    requires 0 < j
    ensures Expansion(n + 1, a, j) == Expansion(n, a, j) + a * Expansion(n, a, j - 1)
  {
    var c, d, x := Choose(n, j - 1), Choose(n, j), Pow(a, j - 1);
    assert Pow(a, j) == a * x && Choose(n + 1, j) == c + d;
    var u, w := if j == 1 then 0 else Expansion(n, a, j - 2), Expansion(n + 1, a, j - 1);
    assert Expansion(n, a, j - 1) == u + c * x;
    if j > 1 {
      ExpansionStep(n, a, j - 1);
    } else {
      assert Expansion(n + 1, a, 0) == 1 == Expansion(n, a, 0);
    }
    assert w == Expansion(n, a, j - 1) + a * u;
    PascalStep(a, c, d, x, u);
  }

  lemma PascalStep(a: int, c: int, d: int, x: int, u: int)
    ensures a * u + (c + d) * (a * x) == d * (a * x) + a * (u + c * x)
  {
    assert (c + d) * (a * x) == c * (a * x) + d * (a * x);
    assert c * (a * x) == a * (c * x);
    assert a * (u + c * x) == a * u + a * (c * x);
  }

  /** There is no term beyond `a^n`. */
  lemma LastTermVanishes(n: nat, a: int)
    ensures Expansion(n, a, n + 1) == Expansion(n, a, n)
  {
    ChooseBeyond(n, n + 1);
    assert Choose(n, n + 1) * Pow(a, n + 1) == 0;
  }

  lemma ExpansionGrows(n: nat, a: int)
    ensures Expansion(n + 1, a, n + 1) == (a + 1) * Expansion(n, a, n)
  {
    ExpansionStep(n, a, n + 1);
    LastTermVanishes(n, a);
    OneMoreTimes(a, Expansion(n, a, n));
  }

  lemma OneMoreTimes(a: int, e: int)
    ensures (a + 1) * e == e + a * e
  {
  }

  lemma {:induction false} BinomialTheorem(n: nat, a: int)
    ensures Pow(a + 1, n) == Expansion(n, a, n)
  {
    if n > 0 {
      BinomialTheorem(n - 1, a);
      ExpansionGrows(n - 1, a);
    }
  }

  // ----- primes -----

  lemma PrimeHasNoFactor(p: int, a: int, q: int)
    requires Prime(p) && 1 < a < p
    ensures a * q != p
  {
    if q <= 0 {
      assert a * q <= 0;
    } else if q < p {
      var product := Times(a, q);
    } else {
      assert a * q == q + (a - 1) * q;
    }
  }

  /** A prime that divides a product divides a factor. */
  lemma {:induction false} PrimeDividesProduct(p: int, a: int, b: int)
    requires Prime(p) && 0 < a < p && Divides(p, a * b)
    ensures Divides(p, b)
    decreases a
  {
    if a > 1 {
      var q, r := p / a, p % a;
      assert p == a * q + r;
      PrimeHasNoFactor(p, a, q);
      assert p == Times(p, 1);
      DividesMultiple(p, p, b);
      DividesMultiple(p, a * b, q);
      assert q * (a * b) == (a * q) * b;
      assert (p - a * q) * b == p * b - (a * q) * b;
      DividesSum(p, p * b, q * (a * b));
      PrimeDividesProduct(p, r, b);
    }
  }

  lemma PrimeDividesChoose(p: nat, k: nat)
    requires Prime(p) && 0 < k < p
    ensures Divides(p, Choose(p, k))
  {
    Absorption(p, k);
    assert k * Choose(p, k) == Times(p, Choose(p - 1, k - 1));
    PrimeDividesProduct(p, k, Choose(p, k));
  }

  lemma {:induction false} ExpansionModPrime(p: nat, a: int, j: nat)
    requires Prime(p) && j < p
    ensures Divides(p, Expansion(p, a, j) - 1)
  {
    if j == 0 {
      assert Expansion(p, a, 0) - 1 == Times(p, 0);
    } else {
      ExpansionModPrime(p, a, j - 1);
      PrimeDividesChoose(p, j);
      DividesMultiple(p, Choose(p, j), Pow(a, j));
      DividesSum(p, Expansion(p, a, j - 1) - 1, Choose(p, j) * Pow(a, j));
    }
  }

  /** Fermat's little theorem: a prime divides `a^p - a`. */
  lemma {:induction false} Fermat(p: nat, a: nat)
    requires Prime(p)
    ensures Divides(p, Pow(a, p) - a)
    decreases a
  {
    if a == 0 {
      assert Pow(0, p) - 0 == Times(p, 0);
    } else {
      Fermat(p, a - 1);
      BinomialTheorem(p, a - 1);
      ExpansionModPrime(p, a - 1, p - 1);
      ChooseAll(p);
      assert Expansion(p, a - 1, p) == Expansion(p, a - 1, p - 1) + Pow(a - 1, p);
      DividesSum(p, Expansion(p, a - 1, p - 1) - 1, Pow(a - 1, p) - (a - 1));
    }
  }

  /** Adding a multiple of `p - 1` to an exponent changes nothing modulo the prime `p`. */
  lemma {:induction false} FermatExponent(p: nat, x: nat, k: nat)
    requires Prime(p)
    ensures k * (p - 1) >= 0 && Divides(p, Pow(x, 1 + k * (p - 1)) - x)
  {
    if k == 0 {
      assert 0 * (p - 1) == 0;
      assert Pow(x, 1) == x * Pow(x, 0) == x;
      assert Pow(x, 1) - x == Times(p, 0);
    } else {
      FermatExponent(p, x, k - 1);
      var e, y := 1 + (k - 1) * (p - 1), Pow(x, p - 1);
      assert 1 + k * (p - 1) == e + (p - 1) by {
        assert k * (p - 1) == (k - 1) * (p - 1) + (p - 1);
      }
      PowOfSum(x, e, p - 1);
      DividesMultiple(p, Pow(x, e) - x, y);
      assert (Pow(x, e) - x) * y == Pow(x, e) * y - x * y;
      assert Pow(x, p) == x * y;
      Fermat(p, x);
      DividesSum(p, (Pow(x, e) - x) * y, Pow(x, p) - x);
    }
  }

  /** Two different primes that divide a number divide it together. */
  lemma TimesAssociates(p: int, q: int, v: int)
    ensures Times(p, Times(q, v)) == Times(p * q, v)
  {
    MulAssociates(p, q, v);
  }

  lemma PrimesDivideTogether(p: nat, q: nat, z: int)
    requires Prime(p) && Prime(q) && p < q && Divides(p, z) && Divides(q, z)
    ensures Divides(p * q, z)
  {
    var u :| z == Times(p, u);
    PrimeDividesProduct(q, p, u);
    var v :| u == Times(q, v);
    TimesAssociates(p, q, v);
  }

  /** `z` leaves remainder 1 modulo `m`. */
  ghost predicate OneModulo(z: int, m: int) {
    exists k: nat :: z == 1 + Times(k, m)
  }

  /** An RSA key: `n` is the product of two different primes, and `e d` leaves remainder 1 modulo each
      prime less one (section 3 of RFC 8017). */
  ghost predicate RsaKey(n: int, e: nat, d: nat, p: nat, q: nat) {
    && Prime(p) && Prime(q) && p < q && n == p * q
    && OneModulo(e * d, p - 1) && OneModulo(e * d, q - 1)
  }

  /** There are such keys. */
  lemma SomeKey()
    ensures RsaKey(33, 3, 7, 3, 11)
  {
    forall a, b | 1 < a < 11 && 1 < b < 11
      ensures Times(a, b) != 11
    {
      if a <= 5 {
        assert a == 2 || a == 3 || a == 4 || a == 5;
      } else {
        assert a * b >= 6 * 2 by { ProductIsNonnegative(a - 6, b); }
      }
    }
    assert Prime(11);
    assert 3 * 7 == 1 + Times(10, 3 - 1) == 1 + Times(2, 11 - 1);
  }

  lemma FermatForKey(p: nat, x: nat, z: nat)
    requires Prime(p) && OneModulo(z, p - 1)
    ensures Divides(p, Pow(x, z) - x)
  {
    var k: nat :| z == 1 + Times(k, p - 1);
    FermatExponent(p, x, k);
  }

  /** Decrypting what was encrypted gives the message back, for every message below the modulus. */
  lemma RsaRoundTrip(n: int, e: nat, d: nat, p: nat, q: nat, x: nat)
    requires RsaKey(n, e, d, p, q) && x < n
    ensures Pow(Pow(x, e) % n, d) % n == x
  {
    PowOfProduct(x, e, d);
    FermatForKey(p, x, e * d);
    FermatForKey(q, x, e * d);
    PrimesDivideTogether(p, q, Pow(x, e * d) - x);
    DecryptionUndoes(n, e, d, x);
  }

  lemma DecryptionUndoes(n: int, e: nat, d: nat, x: nat)
    requires x < n && Divides(n, Pow(Pow(x, e), d) - x)
    ensures Pow(Pow(x, e) % n, d) % n == x
  {
    SameRemainderIff(Pow(Pow(x, e), d), x, n);
    QuotientIsUnique(x, n, 0, x);
    RemainderOfRemainder(Pow(x, e), n);
    ModOfPower(Pow(x, e) % n, Pow(x, e), d, n);
  }

  lemma RemainderOfRemainder(a: int, n: int)
    requires 0 < n
    ensures a % n % n == a % n
  {
    QuotientIsUnique(a % n, n, 0, a % n);
  }
}
