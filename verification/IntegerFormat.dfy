/** The integer conversions of the logging printf. */
module IntegerFormat {
  import opened CArith
  import opened NumberTheory
  import opened Options

  /** The settings a conversion has collected: `width` is -1 when none was given. */
  datatype Format = Format(leadingZero: bool, signed: bool, base: int, upper: bool, width: int) {
    ghost predicate Valid() {
      base == 8 || base == 10 || base == 16
    }
  }

  // ----- what the text ought to be -----

  function DigitChar(d: int, upper: bool): char
    requires 0 <= d < 16
  {
    if d < 10 then ('0' as int + d) as char else ((if upper then 'A' else 'a') as int + (d - 10)) as char
  }

  /** The `n` lowest digits of `v`, the highest first. */
  function Digits(v: int, base: int, n: nat, upper: bool): (s: string)
    requires 2 <= base <= 16 && 0 <= v < Pow(base, n)
    ensures |s| == n
    decreases n
  {
    if n == 0 then ""
    else
      LeadingDigit(v, base, n);
      [DigitChar(v / Pow(base, n - 1), upper)] + Digits(v % Pow(base, n - 1), base, n - 1, upper)
  }

  /** The number of digits of `v`: one, or one more than those of `v / base`. */
  function DigitCount(v: int, base: int): (n: nat)
    requires 2 <= base && 0 <= v
    ensures 1 <= n
    decreases v
  {
    if v < base then 1
    else
      QuotientShrinks(v, base);
      1 + DigitCount(v / base, base)
  }

  /** The value a word stands for, and its sign and magnitude as the code separates them. */
  function Meaning(f: Format, word: int): int {
    if f.signed && word >= 0x8000_0000 then word - TWO32 else word
  }

  function Repeat(c: char, n: int): (s: string)
    ensures |s| == Max(0, n) && forall i :: 0 <= i < |s| ==> s[i] == c
  {
    seq(Max(0, n), _ => c)
  }

  /** A reader of signed numbers: blanks, an optional minus sign, then digits. */
  function Parse(s: string, base: int): Option<int>
    decreases |s|
  {
    if s == "" then None
    else if s[0] == ' ' then Parse(s[1..], base)
    else if s[0] == '-' then
      match Horner(0, s[1..], base)
      case None => None
      case Some(v) => Some(-v)
    else Horner(0, s, base)
  }

  function DigitValue(c: char): int {
    if '0' <= c <= '9' then c as int - '0' as int
    else if 'a' <= c <= 'f' then c as int - 'a' as int + 10
    else if 'A' <= c <= 'F' then c as int - 'A' as int + 10
    else 16
  }

  function Horner(acc: int, s: string, base: int): Option<int>
    decreases |s|
  {
    if s == "" then Some(acc)
    else if DigitValue(s[0]) < base then Horner(acc * base + DigitValue(s[0]), s[1..], base)
    else None
  }

  // ----- arithmetic -----

  lemma {:induction false} PowPositive(base: int, n: nat)
    requires 1 <= base
    ensures 1 <= Pow(base, n)
  {
    if n > 0 {
      PowPositive(base, n - 1);
      ProductIsNonnegative(base - 1, Pow(base, n - 1));
      assert base * Pow(base, n - 1) == (base - 1) * Pow(base, n - 1) + Pow(base, n - 1);
    }
  }

  lemma LeadingDigit(v: int, base: int, n: nat)
    requires 2 <= base && 0 < n && 0 <= v < Pow(base, n)
    ensures 0 < Pow(base, n - 1)
    ensures 0 <= v / Pow(base, n - 1) < base && 0 <= v % Pow(base, n - 1) < Pow(base, n - 1)
    ensures v == v / Pow(base, n - 1) * Pow(base, n - 1) + v % Pow(base, n - 1)
  {
    PowPositive(base, n - 1);
    QuotientBelow(v, base, Pow(base, n - 1));
  }

  lemma QuotientBelow(v: int, base: int, p: int)
    requires 0 < p && 0 <= v < base * p
    ensures 0 <= v / p < base
  {
    var q := v / p;
    assert v == p * q + v % p;
    assert p * (q - base) == p * q - base * p;
    if q >= base {
      ProductIsNonnegative(p, q - base);
    }
  }

  /** Multiplying a bracket of `v / base` by the base brackets `v`. */
  lemma ScaledBracket(v: int, base: int, p: int, q: int)
    requires 2 <= base && q <= v / base < p
    ensures base * q <= v < base * p
  {
    var u := v / base;
    assert v == base * u + v % base;
    ProductIsNonnegative(base, p - u - 1);
    assert base * (p - u - 1) == base * p - base * u - base;
    ProductIsNonnegative(base, u - q);
    assert base * (u - q) == base * u - base * q;
  }

  /** The digit count is the least number of digits that suffice. */
  lemma {:induction false} DigitCountIsExact(v: int, base: int)
    requires 2 <= base && 0 <= v
    ensures v < Pow(base, DigitCount(v, base))
    ensures v > 0 ==> Pow(base, DigitCount(v, base) - 1) <= v
    decreases v
  {
    if v < base {
      assert Pow(base, 1) == base * Pow(base, 0) && Pow(base, 0) == 1;
    } else {
      QuotientShrinks(v, base);
      var u := v / base;
      DigitCountIsExact(u, base);
      var n := DigitCount(u, base);
      ScaledBracket(v, base, Pow(base, n), Pow(base, n - 1));
      PowStep(base, n + 1, Pow(base, n));
      PowStep(base, n, Pow(base, n - 1));
      assert DigitCount(v, base) == n + 1;
    }
  }

  // ----- the round trip -----

  lemma DigitRoundTrip(d: int, upper: bool)
    requires 0 <= d < 16
    ensures DigitValue(DigitChar(d, upper)) == d
    ensures DigitChar(d, upper) != ' ' && DigitChar(d, upper) != '-'
  {
  }

  lemma HornerStep(acc: int, c: char, s: string, base: int)
    requires DigitValue(c) < base
    ensures Horner(acc, [c] + s, base) == Horner(acc * base + DigitValue(c), s, base)
  {
    assert ([c] + s)[1..] == s;
  }

  lemma HornerSum(acc: int, base: int, d: int, p: int, r: int)
    ensures (acc * base + d) * p + r == acc * (base * p) + (d * p + r)
  {
    assert (acc * base + d) * p == (acc * base) * p + d * p;
    assert (acc * base) * p == acc * (base * p);
  }

  lemma {:induction false} HornerOfDigits(acc: int, v: int, base: int, n: nat, upper: bool)
    requires 2 <= base <= 16 && 0 <= v < Pow(base, n)
    ensures Horner(acc, Digits(v, base, n, upper), base) == Some(acc * Pow(base, n) + v)
    decreases n
  {
    if n > 0 {
      LeadingDigit(v, base, n);
      var p := Pow(base, n - 1);
      var d, r := v / p, v % p;
      DigitRoundTrip(d, upper);
      HornerOfDigits(acc * base + d, r, base, n - 1, upper);
      HornerStep(acc, DigitChar(d, upper), Digits(r, base, n - 1, upper), base);
      HornerSum(acc, base, d, p, r);
    } else {
      assert Pow(base, 0) == 1;
    }
  }

  lemma {:induction false} HornerOfZeros(n: int, s: string, base: int)
    requires 2 <= base
    ensures Horner(0, Repeat('0', n) + s, base) == Horner(0, s, base)
    decreases n
  {
    if n <= 0 {
      assert Repeat('0', n) + s == s;
    } else {
      HornerOfZeros(n - 1, s, base);
      assert (Repeat('0', n) + s)[1..] == Repeat('0', n - 1) + s;
      assert 0 * base + DigitValue('0') == 0;
    }
  }

  lemma {:induction false} ParseOfBlanks(n: int, s: string, base: int)
    ensures Parse(Repeat(' ', n) + s, base) == Parse(s, base)
    decreases n
  {
    if n <= 0 {
      assert Repeat(' ', n) + s == s;
    } else {
      ParseOfBlanks(n - 1, s, base);
      assert (Repeat(' ', n) + s)[1..] == Repeat(' ', n - 1) + s;
    }
  }

  /** The magnitude the code prints. */
  function Magnitude(f: Format, word: int): int {
    if f.signed && word >= 0x8000_0000 then TWO32 - word else word
  }

  /** The sign, and the digits of a magnitude. */
  function Sign(f: Format, word: int): string {
    if Meaning(f, word) < 0 then "-" else ""
  }

  function MagnitudeDigits(f: Format, word: int): (s: string)
    requires 2 <= f.base <= 16 && 0 <= word < TWO32
    ensures |s| == DigitCount(Magnitude(f, word), f.base)
  {
    DigitCountIsExact(Magnitude(f, word), f.base);
    Digits(Magnitude(f, word), f.base, DigitCount(Magnitude(f, word), f.base), f.upper)
  }

  /** The padding and the sign, for digits of a given number. */
  function Prefix(f: Format, sign: string, digits: nat): string {
    var pad := f.width - digits - |sign|;
    if f.leadingZero then sign + Repeat('0', pad) else Repeat(' ', pad) + sign
  }

  /** The text of a conversion. */
  function Text(f: Format, word: int): string
    requires 2 <= f.base <= 16 && 0 <= word < TWO32
  {
    var digits := MagnitudeDigits(f, word);
    Prefix(f, Sign(f, word), |digits|) + digits
  }

  /** The value printed is the word itself, read as signed or unsigned. */
  lemma MeaningIsWord(f: Format, word: int)
    requires 0 <= word < TWO32
    ensures Meaning(f, word) % TWO32 == word
    ensures if f.signed then -0x8000_0000 <= Meaning(f, word) < 0x8000_0000 else 0 <= Meaning(f, word)
    ensures Magnitude(f, word) == Abs(Meaning(f, word))
  {
  }

  /** The digits in the case asked for. */
  function Alphabet(upper: bool): (s: string)
    ensures |s| == 16
  {
    if upper then "0123456789ABCDEF" else "0123456789abcdef"
  }

  lemma DigitCharIs(d: int, upper: bool)
    requires 0 <= d < 16
    ensures DigitChar(d, upper) == Alphabet(upper)[d]
  {
  }

  /** Every printed digit is one of the first `base` of its alphabet. */
  lemma {:induction false} DigitsAreFromAlphabet(v: int, base: int, n: nat, upper: bool, j: nat)
    requires 2 <= base <= 16 && 0 <= v < Pow(base, n) && j < n
    ensures Digits(v, base, n, upper)[j] in Alphabet(upper)[..base]
    decreases n
  {
    LeadingDigit(v, base, n);
    var p := Pow(base, n - 1);
    if j == 0 {
      DigitCharIs(v / p, upper);
      assert Digits(v, base, n, upper)[0] == Alphabet(upper)[..base][v / p];
    } else {
      DigitsAreFromAlphabet(v % p, base, n - 1, upper, j - 1);
    }
  }

  /** The text, character by character: without leading zeros, blanks, then the sign, then the digits; with
      them, the sign, then zeros, then the digits. */
  lemma TextCharacters(f: Format, word: int, i: nat)
    requires f.Valid() && 0 <= word < TWO32 && i < |Text(f, word)|
    ensures var sign := if Meaning(f, word) < 0 then 1 else 0;
            var pad := Max(0, f.width - sign - DigitCount(Abs(Meaning(f, word)), f.base));
            && |Text(f, word)| == pad + sign + DigitCount(Abs(Meaning(f, word)), f.base)
            && (i >= pad + sign ==> Text(f, word)[i] in Alphabet(f.upper)[..f.base])
            && (i < pad + sign && !f.leadingZero ==> Text(f, word)[i] == if i < pad then ' ' else '-')
            && (i < pad + sign && f.leadingZero ==> Text(f, word)[i] == if i < sign then '-' else '0')
  {
    var v := Magnitude(f, word);
    var n := DigitCount(v, f.base);
    MeaningIsWord(f, word);
    TextInParts(f, word);
    var prefix, digits := Prefix(f, Sign(f, word), n), Digits(v, f.base, n, f.upper);
    PrefixCharacters(f, Sign(f, word), n);
    if i >= |prefix| {
      DigitsAreFromAlphabet(v, f.base, n, f.upper, i - |prefix|);
      assert (prefix + digits)[i] == digits[i - |prefix|];
    } else {
      assert (prefix + digits)[i] == prefix[i];
    }
  }

  lemma PrefixCharacters(f: Format, sign: string, digits: nat)
    requires sign == "" || sign == "-"
    ensures var pad := Max(0, f.width - digits - |sign|);
            var s := Prefix(f, sign, digits);
            && |s| == pad + |sign|
            && (!f.leadingZero ==> forall i :: 0 <= i < |s| ==> s[i] == if i < pad then ' ' else '-')
            && (f.leadingZero ==> forall i :: 0 <= i < |s| ==> s[i] == if i < |sign| then '-' else '0')
  {
  }

  /** The text fills the width, or is just as long as its sign and digits. */
  lemma TextLength(f: Format, word: int)
    requires f.Valid() && 0 <= word < TWO32
    ensures |Text(f, word)| ==
            Max(f.width, DigitCount(Magnitude(f, word), f.base) + if Meaning(f, word) < 0 then 1 else 0)
  {
    var sign, digits := Sign(f, word), MagnitudeDigits(f, word);
    assert |sign| == if Meaning(f, word) < 0 then 1 else 0;
  }

  /** The digits are not mistaken for padding or a sign, and are worth the magnitude. */
  lemma MagnitudeDigitsParse(f: Format, word: int)
    requires f.Valid() && 0 <= word < TWO32
    ensures var s := MagnitudeDigits(f, word);
            s[0] != ' ' && s[0] != '-' && Horner(0, s, f.base) == Some(Magnitude(f, word))
  {
    var m := Magnitude(f, word);
    var n := DigitCount(m, f.base);
    DigitCountIsExact(m, f.base);
    HornerOfDigits(0, m, f.base, n, f.upper);
    LeadingDigit(m, f.base, n);
    DigitRoundTrip(m / Pow(f.base, n - 1), f.upper);
    assert 0 * Pow(f.base, n) + m == m;
  }

  /** The text parses back to the value. */
  lemma TextRoundTrip(f: Format, word: int)
    requires f.Valid() && 0 <= word < TWO32
    ensures Parse(Text(f, word), f.base) == Some(Meaning(f, word))
  {
    var sign, digits := Sign(f, word), MagnitudeDigits(f, word);
    var pad := f.width - |digits| - |sign|;
    MagnitudeDigitsParse(f, word);
    if f.leadingZero {
      HornerOfZeros(pad, digits, f.base);
      SignedParse(sign, Repeat('0', pad) + digits, f.base);
      AppendTwo(sign, Repeat('0', pad), digits);
    } else {
      ParseOfBlanks(pad, sign + digits, f.base);
      SignedParse(sign, digits, f.base);
      AppendTwo(Repeat(' ', pad), sign, digits);
    }
  }

  lemma AppendTwo(a: string, b: string, c: string)
    ensures (a + b) + c == a + (b + c)
  {
  }

  lemma SignedParse(sign: string, s: string, base: int)
    requires s != "" && s[0] != ' ' && s[0] != '-' && (sign == "" || sign == "-")
    ensures Parse(sign + s, base) ==
            match Horner(0, s, base) case None => None case Some(v) => Some(if sign == "-" then -v else v)
  {
    if sign == "-" {
      assert (sign + s)[1..] == s;
    } else {
      assert sign + s == s;
    }
  }

  /** There are no leading zeros beyond the padding that was asked for. */
  lemma NoLeadingZero(v: int, base: int, upper: bool)
    requires 2 <= base <= 16 && 0 < v && v < Pow(base, DigitCount(v, base))
    ensures Digits(v, base, DigitCount(v, base), upper)[0] != '0'
  {
    var n := DigitCount(v, base);
    DigitCountIsExact(v, base);
    LeadingDigit(v, base, n);
    var p := Pow(base, n - 1);
    var d := v / p;
    assert d == 0 ==> d * p == 0;
    DigitRoundTrip(d, upper);
    assert DigitValue('0') == 0;
  }

  // ----- the code -----

  /** `alt_log_repchar`, onto the end of a text. */
  method RepChar(out0: string, c: char, r0: int) returns (out: string)
    ensures out == out0 + Repeat(c, r0)
  {
    out := out0;
    var r := r0;
    while r > 0
      invariant r <= Max(0, r0) && (r0 > 0 ==> 0 <= r) && (r0 <= 0 ==> r == r0)
      invariant out == out0 + Repeat(c, if r0 <= 0 then 0 else r0 - r)
    {
      out := out + [c];
      r := r - 1;
    }
  }

  /** The state of the counting loop: `digits` places counted, the highest worth `p`, `rest` above it. */
  ghost predicate Counting(v: int, base: int, rest: int, digits: int, p: int)
    requires 2 <= base && 0 <= v
  {
    && 0 <= rest && 1 <= digits && p == Pow(base, digits - 1) && 1 <= p <= Max(1, v)
    && rest * (base * p) <= v
    && DigitCount(v, base) == if rest == 0 then digits else digits + DigitCount(rest, base)
  }

  lemma CountingBegins(v: int, base: int)
    requires 2 <= base && 0 <= v
    ensures Counting(v, base, v / base, 1, 1)
  {
    assert v == base * (v / base) + v % base;
    assert Pow(base, 0) == 1 && base * 1 == base;
    assert v / base == 0 <==> v < base;
  }

  lemma DigitCountStep(rest: int, base: int)
    requires 2 <= base && 0 < rest
    ensures DigitCount(rest, base) == if rest / base == 0 then 1 else 1 + DigitCount(rest / base, base)
  {
    assert rest == base * (rest / base) + rest % base;
  }

  lemma CountingStep(v: int, base: int, rest: int, digits: int, p: int, rest': int, p': int)
    requires 2 <= base && 0 <= v < TWO32 && 0 < rest && Counting(v, base, rest, digits, p)
    requires rest' == rest / base && p' == U32(p * base)
    ensures Counting(v, base, rest', digits + 1, p') && rest' < rest
  {
    PlaceFits(rest, base, p, v, p * base, rest');
    WordIsItself(p * base, v);
    DigitCountStep(rest, base);
    PowStep(base, digits, p);
  }

  /** Counts the digits and finds the largest place value, which never leaves a word. */
  method CountDigits(v: int, base: int) returns (digitCount: int, p: int)
    requires 2 <= base <= 16 && 0 <= v < TWO32
    ensures 1 <= digitCount == DigitCount(v, base) && p == Pow(base, digitCount - 1)
  {
    var vShrink := v / base;
    p, digitCount := 1, 1;
    CountingBegins(v, base);
    while vShrink > 0
      invariant Counting(v, base, vShrink, digitCount, p)
      decreases vShrink
    {
      var p', vShrink' := U32(p * base), vShrink / base;
      CountingStep(v, base, vShrink, digitCount, p, vShrink', p');
      digitCount, p, vShrink := digitCount + 1, p', vShrink';
    }
  }

  lemma QuotientShrinks(v: int, base: int)
    requires 2 <= base <= v
    ensures 0 < v / base < v
  {
    var q := v / base;
    assert v == base * q + v % base;
    ProductIsNonnegative(base - 2, q);
    assert (base - 2) * q == base * q - 2 * q;
  }

  lemma WordIsItself(p: int, v: int)
    requires 0 <= p <= v < TWO32
    ensures U32(p) == p
  {
  }

  lemma PowStep(base: int, n: nat, p: int)
    requires 1 <= n && p == Pow(base, n - 1)
    ensures p * base == base * p == Pow(base, n)
  {
  }

  lemma PlaceFits(rest: int, base: int, p: int, v: int, p': int, rest': int)
    requires 2 <= base && 1 <= p && 1 <= rest && rest * (base * p) <= v
    requires p' == p * base && rest' == rest / base
    ensures 1 <= p' <= v && 0 <= rest' < rest && rest' * (base * p') <= v
  {
    QuotientTimesBase(rest, base);
    MulKeepsOrder(1, p, base);
    MulKeepsOrder(1, rest, p');
    MulKeepsOrder(rest' * base, rest, p');
    MulAssociates(rest', base, p');
    MulCommutes(base, p);
  }

  lemma QuotientTimesBase(rest: int, base: int)
    requires 2 <= base && 1 <= rest
    ensures 0 <= rest / base < rest && rest / base * base <= rest
  {
    var q := rest / base;
    assert rest == base * q + rest % base;
    MulCommutes(base, q);
    MulKeepsOrder(2, base, q);
  }

  /** Prints the digits, the highest first. */
  method PrintDigits(out0: string, v0: int, p0: int, base: int, upper: bool, ghost n: nat) returns (out: string)
    requires 2 <= base <= 16 && 0 < n && p0 == Pow(base, n - 1) && 0 <= v0 < Pow(base, n)
    ensures out == out0 + Digits(v0, base, n, upper)
  {
    out := out0;
    var v, p := v0, p0;
    ghost var k := n;
    while p > 0
      invariant 0 <= k <= n && p == (if k == 0 then 0 else Pow(base, k - 1))
      invariant 0 <= v < Pow(base, k)
      invariant out + Digits(v, base, k, upper) == out0 + Digits(v0, base, n, upper)
      decreases k
    {
      PrintOne(out, v, base, k, upper);
      out := out + [DigitChar(v / p, upper)];
      v := v % p;
      p := p / base;
      k := k - 1;
    }
    PlacePositive(base, k);
  }

  /** One turn of the printing loop. */
  lemma PrintOne(out: string, v: int, base: int, k: nat, upper: bool)
    requires 2 <= base <= 16 && 0 < k && 0 <= v < Pow(base, k)
    ensures var p := Pow(base, k - 1);
            && 0 < p && 0 <= v / p < 16 && 0 <= v % p < p
            && p / base == (if k == 1 then 0 else Pow(base, k - 2))
            && (out + [DigitChar(v / p, upper)]) + Digits(v % p, base, k - 1, upper) == out + Digits(v, base, k, upper)
  {
    LeadingDigit(v, base, k);
    NextPlace(base, k);
    var p := Pow(base, k - 1);
    AppendOne(out, DigitChar(v / p, upper), Digits(v % p, base, k - 1, upper));
  }

  lemma AppendOne(out: string, c: char, rest: string)
    ensures (out + [c]) + rest == out + ([c] + rest)
  {
  }

  /** The place value reaches zero only after the last digit. */
  lemma PlacePositive(base: int, k: nat)
    requires 2 <= base
    ensures k > 0 ==> Pow(base, k - 1) > 0
  {
    if k > 0 {
      PowPositive(base, k - 1);
    }
  }

  lemma NextPlace(base: int, k: nat)
    requires 2 <= base && 0 < k
    ensures Pow(base, k - 1) / base == if k == 1 then 0 else Pow(base, k - 2)
  {
    if k == 1 {
      assert Pow(base, 0) == 1;
      QuotientIsUnique(1, base, 0, 1);
    } else {
      assert Pow(base, k - 1) == base * Pow(base, k - 2);
      QuotientIsUnique(Pow(base, k - 1), base, Pow(base, k - 2), 0);
    }
  }

  /** Prints the padding and the sign. */
  method PrintPrefix(f: Format, sign: bool, digitCount: nat) returns (out: string)
    ensures out == Prefix(f, if sign then "-" else "", digitCount)
  {
    var width := f.width - digitCount;
    out := "";
    if f.leadingZero {
      if sign {
        out := out + "-";
        width := width - 1;
      }
      out := RepChar(out, '0', width);
    } else {
      if sign {
        width := width - 1;
      }
      out := RepChar(out, ' ', width);
      if sign {
        out := out + "-";
      }
    }
  }

  /** The integer conversions: strip the sign, count, pad, print. */
  method PrintInteger(f: Format, word: int) returns (out: string)
    requires f.Valid() && 0 <= word < TWO32
    ensures out == Text(f, word)
  {
    var v, sign := StripSign(f, word);
    DigitCountIsExact(v, f.base);
    var digitCount, p := CountDigits(v, f.base);
    TextInParts(f, word);
    out := PrintPrefix(f, sign, digitCount);
    out := PrintDigits(out, v, p, f.base, f.upper, digitCount);
  }

  /** The magnitude of a word, and whether a minus sign is due. */
  method StripSign(f: Format, word: int) returns (v: int, sign: bool)
    requires 0 <= word < TWO32
    ensures 0 <= v == Magnitude(f, word) < TWO32
    ensures (if sign then "-" else "") == Sign(f, word)
  {
    v, sign := word, false;
    if f.signed && word >= 0x8000_0000 {
      v := U32((TWO32 - 1 - word) + 1);
      sign := true;
    }
  }

  lemma TextInParts(f: Format, word: int)
    requires f.Valid() && 0 <= word < TWO32
    ensures var v := Magnitude(f, word);
            var n := DigitCount(v, f.base);
            v < Pow(f.base, n) && Text(f, word) == Prefix(f, Sign(f, word), n) + Digits(v, f.base, n, f.upper)
  {
    DigitCountIsExact(Magnitude(f, word), f.base);
  }
}
