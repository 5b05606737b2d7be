/** The settable wall clock on top of the 32-bit tick counter. */
module WallClock {
  import opened CArith
  import opened NumberTheory

  const US: int := 1000000

  datatype Timeval = Timeval(sec: int, usec: int) {
    predicate Normal() {
      0 <= sec && 0 <= usec < US
    }

    /** The whole time in microseconds. */
    function Micros(): int {
      sec * US + usec
    }
  }

  /** Microseconds a tick; the fraction is dropped. */
  function TickMicros(rate: nat): int
    requires 0 < rate
  {
    US / rate
  }

  /** What `settimeofday` stores at counter value `count`: its product of ticks and microseconds is a word. */
  function ResetTime(t: Timeval, count: int, rate: nat): Timeval
    requires 0 < rate
  {
    Timeval(S32(t.sec - count / rate), S32(t.usec - U32(count * TickMicros(rate)) % US))
  }

  /** The unnormalised sum `gettimeofday` starts from: here the product is a double word. */
  function RawTime(reset: Timeval, count: int, rate: nat): Timeval
    requires 0 < rate
  {
    Timeval(S32(reset.sec + count / rate), S32(reset.usec + (count * TickMicros(rate)) % US))
  }

  datatype Errno = NoError | ENOSYS | ENOTSUP

  class Clock {
    var nticks: int
    const tickRate: nat
    var resetTime: Timeval
    var zone: (int, int)

    /** The tick counter and the tick rate are words. */
    ghost predicate Valid()
      reads this
    {
      0 <= nticks < TWO32 && tickRate < TWO32
    }

    constructor (tickRate: nat)
      requires tickRate < TWO32
      ensures Valid() && nticks == 0 && resetTime == Timeval(0, 0) && zone == (0, 0) && this.tickRate == tickRate
    {
      this.tickRate := tickRate;
      nticks, resetTime, zone := 0, Timeval(0, 0), (0, 0);
    }

    /** One tick of the counter, which wraps. */
    method Tick()
      requires Valid()
      modifies `nticks
      ensures Valid() && nticks == U32(old(nticks) + 1)
    {
      nticks := U32(nticks + 1);
    }

    method Ticks(k: nat)
      requires Valid()
      modifies `nticks
      ensures Valid() && nticks == U32(old(nticks) + k)
    {
      ghost var start := nticks;
      for i := 0 to k
        invariant Valid() && nticks == U32(start + i)
      {
        Tick();
        WordOfNext(start + i);
      }
    }

    /** `settimeofday` */
    method SetTimeOfDay(t: Timeval, tz: (int, int)) returns (err: Errno)
      requires Valid()
      modifies `resetTime, `zone
      ensures Valid()
      ensures err == if tickRate == 0 then ENOSYS else NoError
      ensures err != NoError ==> resetTime == old(resetTime) && zone == old(zone)
      ensures err == NoError ==> resetTime == ResetTime(t, nticks, tickRate) && zone == tz
    {
      if tickRate != 0 {
        resetTime := Timeval(S32(t.sec - nticks / tickRate), resetTime.usec);
        resetTime := resetTime.(usec := S32(t.usec - U32(nticks * (US / tickRate)) % US));
        zone := tz;
        return NoError;
      }
      err := ENOSYS;
    }

    /** `gettimeofday`; an error leaves the caller's structures as they are. */
    method GetTimeOfDay() returns (err: Errno, t: Timeval, tz: (int, int))
      requires Valid()
      ensures err == if tickRate == 0 then ENOTSUP else NoError
      ensures err == NoError ==> t == Normalised(RawTime(resetTime, nticks, tickRate)) && tz == zone
    {
      t, tz := Timeval(0, 0), (0, 0);
      if tickRate != 0 {
        var sec := S32(resetTime.sec + nticks / tickRate);
        var usec := S32(resetTime.usec + (nticks * (US / tickRate)) % US);
        t := Normalise(sec, usec);
        return NoError, t, zone;
      }
      err := ENOTSUP;
    }

    /** The clock is set, ticks `k` times and is read: this is the reading the lemmas below are about. */
    method SetAndReadLater(t: Timeval, tz: (int, int), k: nat) returns (r: Timeval)
      requires Valid() && 0 < tickRate
      modifies this
      ensures Valid() && nticks == U32(old(nticks) + k)
      ensures r == Reading(t, old(nticks), k, tickRate)
    {
      var err := SetTimeOfDay(t, tz);
      Ticks(k);
      var zone';
      err, r, zone' := GetTimeOfDay();
    }
  }

  lemma WordOfNext(a: int)
    ensures U32(U32(a) + 1) == U32(a + 1)
  {
  }

  /** The meaning of the two loops: carry whole seconds, except that a time before zero becomes zero. */
  function Normalised(t: Timeval): Timeval {
    if t.usec < 0 && t.sec + t.usec / US < 0 then Timeval(0, 0)
    else Timeval(t.sec + t.usec / US, t.usec % US)
  }

  /** The two normalisation loops. */
  method Normalise(sec0: int, usec0: int) returns (t: Timeval)
    ensures t == Normalised(Timeval(sec0, usec0))
  {
    var sec, usec := sec0, usec0;
    while usec < 0
      invariant usec < US || usec == usec0
      invariant sec * US + usec == sec0 * US + usec0
      invariant usec0 >= 0 ==> usec == usec0
      invariant usec0 < 0 ==> usec < US && (sec < sec0 ==> 0 <= sec)
      decreases -usec
    {
      if sec <= 0 {
        return Timeval(0, 0);
      } else {
        sec := sec - 1;
        usec := usec + US;
      }
    }
    while usec >= US
      invariant sec * US + usec == sec0 * US + usec0 && 0 <= usec
    {
      sec := sec + 1;
      usec := usec - US;
    }
    t := Timeval(sec, usec);
  }

  /** The word product at set time is exact when it has wrapped a multiple of 15625 times: only then does
      what it lost come to whole seconds. */
  predicate SetIsExact(count: int, rate: nat)
    requires 0 < rate
  {
    (count * TickMicros(rate)) / TWO32 % 15625 == 0
  }

  /** What wrapping loses is a whole number of seconds exactly for multiples of 15625; 12659 is the inverse
      of 2^26 modulo 15625. */
  lemma LostWholeSecondsIff(j: int)
    ensures Divides(US, TWO32 * j) <==> j % 15625 == 0
  {
    assert TWO32 == 64 * 0x400_0000 && US == 64 * 15625;
    if Divides(US, TWO32 * j) {
      var k :| TWO32 * j == Times(US, k);
      assert 0x400_0000 * j == 15625 * k;
      assert 0x400_0000 * 12659 == 15625 * 54369991 + 1;
      assert j == 12659 * (0x400_0000 * j) - 15625 * 54369991 * j;
      assert j == 15625 * (12659 * k - 54369991 * j);
    }
    if j % 15625 == 0 {
      var k := j / 15625;
      assert TWO32 * j == Times(US, 0x400_0000 * k);
    }
  }

  lemma WordRemainderIff(v: int)
    requires 0 <= v
    ensures U32(v) % US == v % US <==> v / TWO32 % 15625 == 0
  {
    SameRemainderIff(v, U32(v), US);
    assert v - U32(v) == TWO32 * (v / TWO32);
    LostWholeSecondsIff(v / TWO32);
  }

  /** When the rate divides a second, a count is its whole seconds and its remaining ticks. */
  lemma CountInMicros(x: int, rate: nat)
    requires 0 < rate && US % rate == 0 && 0 <= x
    ensures x * TickMicros(rate) == x / rate * US + (x * TickMicros(rate)) % US
    ensures 0 <= (x * TickMicros(rate)) % US < US
  {
    var c, q, r := TickMicros(rate), x / rate, x % rate;
    assert US == rate * c && 0 < c;
    assert x == rate * q + r;
    assert (rate * q + r) * c == (rate * c) * q + r * c;
    RemainderBelow(r, rate, c);
    QuotientIsUnique(x * c, US, q, r * c);
  }

  lemma RemainderBelow(r: int, rate: int, c: int)
    requires 0 <= r < rate && 0 < c
    ensures 0 <= r * c < rate * c
  {
    ProductIsNonnegative(r, c);
    ProductIsNonnegative(rate - r - 1, c);
    assert (rate - r - 1) * c == rate * c - r * c - c;
  }

  lemma QuotientsGrow(a: int, k: int, rate: nat)
    requires 0 < rate && 0 <= a && 0 <= k
    ensures 0 <= (a + k) / rate - a / rate <= k / rate + 1
  {
    var qa, qk, ra, rk := a / rate, k / rate, a % rate, k % rate;
    assert a + k == rate * (qa + qk) + (ra + rk);
    if ra + rk < rate {
      QuotientIsUnique(a + k, rate, qa + qk, ra + rk);
    } else {
      assert rate * (qa + qk + 1) == rate * (qa + qk) + rate;
      QuotientIsUnique(a + k, rate, qa + qk + 1, ra + rk - rate);
    }
    assert 0 <= qk;
  }

  /** What a signed word loses is a multiple of 2^32. */
  lemma S32Loses(a: int) returns (m: int)
    ensures S32(a) == a - TWO32 * m
  {
    m := if U32(a) < 0x8000_0000 then a / TWO32 else a / TWO32 + 1;
  }

  lemma S32OfSum(a: int, b: int)
    ensures S32(S32(a) + b) == S32(a + b)
    ensures -0x8000_0000 <= a + b < 0x8000_0000 ==> S32(a + b) == a + b
  {
    var m := S32Loses(a);
    var q, r := (a + b) / TWO32, U32(a + b);
    QuotientIsUnique(S32(a) + b, TWO32, q - m, r);
  }

  /** What the word product lost at set time; it is added to every later reading. */
  function Drift(count: int, rate: nat): (d: int)
    requires 0 < rate
    ensures -US < d < US
  {
    (count * TickMicros(rate)) % US - U32(count * TickMicros(rate)) % US
  }

  lemma NoDriftIff(count: int, rate: nat)
    requires 0 < rate && 0 <= count
    ensures Drift(count, rate) == 0 <==> SetIsExact(count, rate)
  {
    var c := TickMicros(rate);
    ProductIsNonnegative(count, c);
    WordRemainderIff(count * c);
  }

  /** What a clock shows that was set to `t` at counter value `count` and is read `k` ticks later; the
      counter wraps. */
  function Reading(t: Timeval, count: int, k: int, rate: nat): Timeval
    requires 0 < rate
  {
    Normalised(RawTime(ResetTime(t, count, rate), U32(count + k), rate))
  }

  /** The whole microseconds in `k` ticks. */
  function Elapsed(k: int, rate: nat): int
    requires 0 < rate
  {
    k * US / rate
  }

  /** The reading is exactly `t` and `k` tick periods. */
  predicate IsExact(t: Timeval, count: int, k: int, rate: nat)
    requires 0 < rate
  {
    var r := Reading(t, count, k, rate);
    r.Normal() && r.Micros() == t.Micros() + Elapsed(k, rate)
  }

  /** How often the counter has wrapped. */
  function Laps(count: int, k: int): int {
    (count + k) / TWO32
  }

  /** The seconds, before and after normalising, fit a signed word. */
  predicate InRange(t: Timeval, count: int, k: int, rate: nat)
    requires 0 < rate
  {
    && t.Normal() && 0 <= count < TWO32 && 0 <= k
    && t.sec + ((count + k) / rate - count / rate) < 0x8000_0000
    && t.Micros() + Elapsed(k, rate) < 0x8000_0000 * US
  }

  /** The sum a later reading starts from; its seconds may have lost a multiple of 2^32. */
  lemma RawTimeIs(t: Timeval, count: int, later: int, rate: nat) returns (m: int)
    requires 0 < rate && t.Normal()
    ensures var c := TickMicros(rate);
            RawTime(ResetTime(t, count, rate), later, rate) ==
            Timeval(t.sec + (later / rate - count / rate) - TWO32 * m,
                    t.usec - U32(count * c) % US + (later * c) % US)
  {
    var c := TickMicros(rate);
    S32OfSum(t.sec - count / rate, later / rate);
    m := S32Loses(t.sec - count / rate + later / rate);
    S32OfSum(t.usec - U32(count * c) % US, (later * c) % US);
  }

  /** The same when the seconds fit a word. */
  lemma RawTimeFits(t: Timeval, count: int, later: int, rate: nat)
    requires 0 < rate && t.Normal()
    requires -0x8000_0000 <= t.sec + (later / rate - count / rate) < 0x8000_0000
    ensures var c := TickMicros(rate);
            RawTime(ResetTime(t, count, rate), later, rate) ==
            Timeval(t.sec + (later / rate - count / rate), t.usec - U32(count * c) % US + (later * c) % US)
  {
    var m := RawTimeIs(t, count, later, rate);
    SmallShift(t.sec + (later / rate - count / rate), m, RawTime(ResetTime(t, count, rate), later, rate).sec);
  }

  lemma SmallShift(a: int, m: int, b: int)
    requires b == a - TWO32 * m && -0x8000_0000 <= a < 0x8000_0000 && -0x8000_0000 <= b < 0x8000_0000
    ensures a == b
  {
  }

  /** When the rate divides a second, a tick period is whole microseconds. */
  lemma ElapsedIs(k: int, rate: nat)
    requires 0 < rate && US % rate == 0 && 0 <= k
    ensures US == rate * TickMicros(rate) && 0 < TickMicros(rate) && Elapsed(k, rate) == k * TickMicros(rate)
  {
    var c := TickMicros(rate);
    assert US == rate * c;
    assert k * US == rate * (k * c) by {
      assert k * (rate * c) == rate * (k * c);
    }
    QuotientIsUnique(k * US, rate, k * c, 0);
  }

  lemma TimePasses(k: int, rate: nat)
    requires 0 < rate && US % rate == 0 && 0 <= k
    ensures 0 <= Elapsed(k, rate) && (Elapsed(k, rate) == 0 <==> k == 0)
  {
    ElapsedIs(k, rate);
    if k > 0 {
      MulKeepsOrder(1, k, TickMicros(rate));
    }
  }

  /** The microseconds of that sum: the time, the elapsed periods and the drift, less what the laps of the
      counter and of the seconds took away. */
  lemma RawMicrosAre(t: Timeval, count: int, k: int, rate: nat) returns (m: int, lost: int)
    requires 0 < rate && US % rate == 0 && t.Normal() && 0 <= count && 0 <= k
    ensures var c, later := TickMicros(rate), U32(count + k);
            var raw := RawTime(ResetTime(t, count, rate), later, rate);
            && raw.sec == t.sec + (later / rate - count / rate) - TWO32 * m
            && raw.Micros() == t.Micros() + Elapsed(k, rate) + Drift(count, rate) - TWO32 * (c * lost)
            && lost == Laps(count, k) + rate * m
  {
    var c, later, laps := TickMicros(rate), U32(count + k), Laps(count, k);
    m := RawTimeIs(t, count, later, rate);
    lost := laps + rate * m;
    CountInMicros(count, rate);
    CountInMicros(later, rate);
    ElapsedIs(k, rate);
    assert later == count + k - TWO32 * laps;
    LostMicros(count, k, laps, later, c, rate, m);
  }

  lemma LostMicros(count: int, k: int, laps: int, later: int, c: int, rate: int, m: int)
    requires later == count + k - TWO32 * laps && US == rate * c
    ensures later * c - count * c - TWO32 * m * US == k * c - TWO32 * (c * (laps + rate * m))
  {
    assert later * c == count * c + k * c - TWO32 * (laps * c);
    assert m * (rate * c) == c * (rate * m);
    assert c * (laps + rate * m) == c * laps + c * (rate * m);
  }

  /** When the rate divides the laps, the seconds have lost as many laps as the counter gained. */
  lemma WholeLapsAreHarmless(t: Timeval, count: int, k: int, rate: nat, m: int)
    requires 0 < rate && InRange(t, count, k, rate) && Laps(count, k) % rate == 0
    requires -0x8000_0000 <= t.sec + (U32(count + k) / rate - count / rate) - TWO32 * m < 0x8000_0000
    ensures Laps(count, k) + rate * m == 0
    ensures t.sec + (U32(count + k) / rate - count / rate) - TWO32 * m == t.sec + ((count + k) / rate - count / rate)
  {
    var j, q, r := Laps(count, k) / rate, (count + k) / rate, (count + k) % rate;
    assert Laps(count, k) == rate * j;
    assert count + k == rate * q + r;
    assert U32(count + k) == count + k - TWO32 * (rate * j);
    assert TWO32 * (rate * j) == rate * (TWO32 * j);
    assert rate * (q - TWO32 * j) == rate * q - rate * (TWO32 * j);
    QuotientIsUnique(U32(count + k), rate, q - TWO32 * j, r);
    QuotientsGrow(count, k, rate);
    assert j + m == 0;
    assert rate * (j + m) == rate * j + rate * m;
  }

  /** Normalising carries the microseconds into the seconds and so keeps the time, unless microseconds below
      zero would take it before zero: then it is zero. */
  lemma NormalisedIsComplete(t: Timeval)
    ensures if t.usec < 0 && t.Micros() < 0
            then Normalised(t) == Timeval(0, 0)
            else 0 <= Normalised(t).usec < US && Normalised(t).Micros() == t.Micros()
  {
  }

  /** Normalising keeps the time, and turns one before zero into zero. */
  lemma NormalisedKeepsMicros(t: Timeval)
    ensures 0 <= t.Micros() ==> Normalised(t).Normal() && Normalised(t).Micros() == t.Micros()
    ensures t.Micros() < 0 && 0 <= t.sec ==> Normalised(t) == Timeval(0, 0)
    ensures Normalised(t) == Timeval(0, 0) || Normalised(t).Micros() == t.Micros()
  {
  }

  lemma RawWithoutLoss(t: Timeval, count: int, k: int, rate: nat)
    requires 0 < rate && US % rate == 0 && InRange(t, count, k, rate) && Laps(count, k) % rate == 0
    ensures var raw := RawTime(ResetTime(t, count, rate), U32(count + k), rate);
            0 <= raw.sec && raw.Micros() == t.Micros() + Elapsed(k, rate) + Drift(count, rate)
  {
    var m, lost := RawMicrosAre(t, count, k, rate);
    WholeLapsAreHarmless(t, count, k, rate, m);
    QuotientsGrow(count, k, rate);
    assert TickMicros(rate) * 0 == 0;
  }

  /** A clock set to `t` and read `k` ticks later, when the counter has wrapped a multiple of the rate,
      shows `t`, `k` tick periods and the drift, or zero if that lies before zero. */
  lemma ReadingDrifts(t: Timeval, count: int, k: int, rate: nat)
    requires 0 < rate && US % rate == 0 && InRange(t, count, k, rate) && Laps(count, k) % rate == 0
    ensures var r := Reading(t, count, k, rate);
            r.Normal() && r.Micros() == Max(0, t.Micros() + Elapsed(k, rate) + Drift(count, rate))
  {
    RawWithoutLoss(t, count, k, rate);
    NormalisedKeepsMicros(RawTime(ResetTime(t, count, rate), U32(count + k), rate));
  }

  /** When the rate does not divide the laps, the reading is wrong, exact setting or not. */
  lemma LapsAreLost(t: Timeval, count: int, k: int, rate: nat)
    requires 0 < rate && US % rate == 0 && InRange(t, count, k, rate) && Laps(count, k) % rate != 0
    ensures !IsExact(t, count, k, rate)
  {
    var c, laps := TickMicros(rate), Laps(count, k);
    var m, lost := RawMicrosAre(t, count, k, rate);
    ElapsedIs(k, rate);
    NotAMultiple(laps, rate, m);
    LostLapIsLong(c, rate, lost);
    LapTakesTime(count, k, rate);
    TimePasses(k, rate);
    NormalisedKeepsMicros(RawTime(ResetTime(t, count, rate), U32(count + k), rate));
  }

  lemma NotAMultiple(a: int, rate: nat, m: int)
    requires 0 < rate && a % rate != 0
    ensures a + rate * m != 0
  {
    if a + rate * m == 0 {
      assert a == rate * (-m);
      QuotientIsUnique(a, rate, -m, 0);
    }
  }

  /** A lap, or several, cannot be confused with a drift of less than a second. */
  lemma LostLapIsLong(c: int, rate: int, n: int)
    requires 0 < c && 0 < rate && US == rate * c && n != 0
    ensures TWO32 * (c * n) >= US || TWO32 * (c * n) <= -US
  {
    if n > 0 {
      MulKeepsOrder(1, n, c);
    } else {
      MulKeepsOrder(n, -1, c);
    }
    assert c * n == n * c;
    assert rate <= US by {
      MulKeepsOrder(1, c, rate);
    }
    MulKeepsOrder(rate, TWO32, c);
  }

  lemma LapTakesTime(count: int, k: int, rate: nat)
    requires 0 < rate && 0 <= count < TWO32 && Laps(count, k) % rate != 0
    ensures k != 0
  {
  }

  lemma WholeLapsIff(t: Timeval, count: int, k: int, rate: nat)
    requires 0 < rate && US % rate == 0 && InRange(t, count, k, rate) && Laps(count, k) % rate == 0
    ensures IsExact(t, count, k, rate) <==>
            SetIsExact(count, rate) || (t == Timeval(0, 0) && k == 0 && Drift(count, rate) < 0)
  {
    ReadingDrifts(t, count, k, rate);
    NoDriftIff(count, rate);
    TimePasses(k, rate);
    NoDriftOrZeroIff(t.sec, t.usec, Elapsed(k, rate), Drift(count, rate));
  }

  lemma NoDriftOrZeroIff(sec: int, usec: int, elapsed: int, drift: int)
    requires 0 <= sec && 0 <= usec && 0 <= elapsed
    ensures var micros := sec * US + usec + elapsed;
            Max(0, micros + drift) == micros <==> drift == 0 || (sec == 0 && usec == 0 && elapsed == 0 && drift < 0)
  {
  }

  /** The clock is affine: set to `t` and read `k` ticks later, however often the counter has wrapped, it
      shows exactly `t` and `k` tick periods if and only if setting it was exact and the rate divides the
      laps of the counter, or it reads zero at once because the drift went below zero. */
  lemma ClockIsAffineIff(t: Timeval, count: int, k: int, rate: nat)
    requires 0 < rate && US % rate == 0 && InRange(t, count, k, rate)
    ensures IsExact(t, count, k, rate) <==>
            (SetIsExact(count, rate) && Laps(count, k) % rate == 0)
            || (t == Timeval(0, 0) && k == 0 && Drift(count, rate) < 0)
  {
    if Laps(count, k) % rate != 0 {
      LapsAreLost(t, count, k, rate);
      LapTakesTime(count, k, rate);
    } else {
      WholeLapsIff(t, count, k, rate);
    }
  }

  /** An immediate reading returns what was set, at any rate, on the same condition. */
  lemma SettingIsExactIff(t: Timeval, count: int, rate: nat)
    requires 0 < rate && t.Normal() && t.sec < 0x8000_0000
    requires 0 <= count < TWO32
    ensures Reading(t, count, 0, rate) == t <==>
            SetIsExact(count, rate) || (t == Timeval(0, 0) && Drift(count, rate) < 0)
  {
    RawAtOnce(t, count, rate);
    NoDriftIff(count, rate);
  }

  lemma RawAtOnce(t: Timeval, count: int, rate: nat)
    requires 0 < rate && t.Normal() && t.sec < 0x8000_0000 && 0 <= count < TWO32
    ensures RawTime(ResetTime(t, count, rate), U32(count + 0), rate) == Timeval(t.sec, t.usec + Drift(count, rate))
  {
    RawTimeFits(t, count, count, rate);
    NoTimePasses(count, rate);
  }

  lemma NoTimePasses(count: int, rate: nat)
    requires 0 < rate && 0 <= count < TWO32
    ensures U32(count + 0) == count && count / rate - count / rate == 0
  {
  }

  // ----- rates that do not divide a second -----

  /** Set to zero at counter value 0 and read after a second's worth of ticks, the clock of such a rate is
      wrong; where a tick is shorter than a microsecond it is wrong from the first whole microsecond on. */
  lemma UnevenRateIsWrong(rate: nat) returns (k: int)
    requires 0 < rate < TWO32 && US % rate != 0
    ensures 0 < k <= rate && InRange(Timeval(0, 0), 0, k, rate) && !IsExact(Timeval(0, 0), 0, k, rate)
  {
    assert 0 / rate == 0;
    if rate < US {
      k := rate;
      EvenTicks(rate);
    } else {
      k := FirstMicrosecond(rate);
    }
    RawFromZero(k, rate);
  }

  lemma RawFromZero(k: int, rate: nat)
    requires 0 < rate && 0 <= k < TWO32 && k / rate <= 1
    ensures RawTime(ResetTime(Timeval(0, 0), 0, rate), U32(0 + k), rate) ==
            Timeval(k / rate, (k * TickMicros(rate)) % US)
  {
    assert 0 / rate == 0 && 0 * TickMicros(rate) == 0;
    RawTimeFits(Timeval(0, 0), 0, k, rate);
  }

  /** Ticks of no whole microsecond are not counted at all. */
  lemma FirstMicrosecond(rate: nat) returns (k: int)
    requires US < rate
    ensures 0 < k < rate && k / rate == 0 && (k * TickMicros(rate)) % US == 0 && 1 <= Elapsed(k, rate) <= US
  {
    k := rate / US + 1;
    QuotientIsUnique(US, rate, 0, US);
    assert k * TickMicros(rate) == 0;
    QuotientIsUnique(k, rate, 0, k);
    ElapsedAtLeastOne(k, rate);
  }

  /** `rate` ticks last a second, and are counted as more. */
  lemma EvenTicks(rate: nat)
    requires 0 < rate < US && US % rate != 0
    ensures Elapsed(rate, rate) == US && rate / rate == 1 && 0 < (rate * TickMicros(rate)) % US < US
  {
    var c := TickMicros(rate);
    assert US == rate * c + US % rate;
    assert 0 < rate * c < US by {
      MulKeepsOrder(1, c, rate);
    }
    QuotientIsUnique(rate * US, rate, US, 0);
    QuotientIsUnique(rate, rate, 1, 0);
  }

  lemma ElapsedAtLeastOne(k: int, rate: nat)
    requires 0 < rate < k * US && k <= rate
    ensures 1 <= Elapsed(k, rate) <= US
  {
    var q, r := k * US / rate, k * US % rate;
    assert k * US == rate * q + r;
    if q <= 0 {
      MulKeepsOrder(q, 0, rate);
    }
    if q >= US + 1 {
      MulKeepsOrder(US + 1, q, rate);
    }
  }

  /** The clock is exact for all times and readings in range, whenever setting it was and the rate divides
      the laps, if and only if the rate divides a second. */
  lemma RateIsExactIff(rate: nat)
    requires 0 < rate < TWO32
    ensures (forall t: Timeval, count: int, k: int |
               InRange(t, count, k, rate) && SetIsExact(count, rate) && Laps(count, k) % rate == 0 ::
               IsExact(t, count, k, rate)) <==> US % rate == 0
  {
    if US % rate == 0 {
      forall t: Timeval, count: int, k: int |
        InRange(t, count, k, rate) && SetIsExact(count, rate) && Laps(count, k) % rate == 0
        ensures IsExact(t, count, k, rate)
      {
        ClockIsAffineIff(t, count, k, rate);
      }
    } else {
      var k := UnevenRateIsWrong(rate);
      NothingSetNothingLost(rate);
      assert Laps(0, k) == 0;
    }
  }

  lemma NothingSetNothingLost(rate: nat)
    requires 0 < rate
    ensures SetIsExact(0, rate)
  {
    assert 0 * TickMicros(rate) == 0;
  }

  // ----- concrete readings -----

  /** The condition can fail: at 1000 ticks a second the product wraps after 72 minutes, and a clock set to
      one second reads 0.967296 seconds at once; set to zero it reads zero. */
  lemma WrappedSettingIsWrong()
    ensures !SetIsExact(4295000, 1000)
    ensures Reading(Timeval(1, 0), 4295000, 0, 1000) == Timeval(0, 967296)
    ensures Reading(Timeval(0, 0), 4295000, 0, 1000) == Timeval(0, 0)
  {
    DriftAfter72Minutes();
    NoDriftIff(4295000, 1000);
    ReadingDrifts(Timeval(1, 0), 4295000, 0, 1000);
    ReadingDrifts(Timeval(0, 0), 4295000, 0, 1000);
  }

  /** At 1000 ticks a second a lap of the counter, 49.7 days, is lost. */
  lemma LapIsForgotten()
    ensures InRange(Timeval(5000000, 0), 0, TWO32, 1000)
    ensures Reading(Timeval(5000000, 0), 0, TWO32, 1000) == Timeval(5000000, 0)
  {
    var t := Timeval(5000000, 0);
    assert TickMicros(1000) == 1000;
    RawTimeFits(t, 0, 0, 1000);
  }

  /** At one tick a second it is not: the seconds lose the same lap. */
  lemma LapIsHarmless()
    ensures Laps(0xFC00_0000, 0x400_0000) == 1
    ensures Reading(Timeval(7, 0), 0xFC00_0000, 0x400_0000, 1) == Timeval(7 + 0x400_0000, 0)
  {
    var t := Timeval(7, 0);
    assert TickMicros(1) == US;
    assert 0xFC00_0000 * TickMicros(1) == 0xFC00_0000 * US;
    assert SetIsExact(0xFC00_0000, 1);
    ClockIsAffineIff(t, 0xFC00_0000, 0x400_0000, 1);
  }

  /** At 3 ticks a second the clock runs ahead and then goes back. */
  lemma UnevenClockGoesBack()
    ensures Reading(Timeval(0, 0), 0, 3, 3) == Timeval(1, 999999)
    ensures Reading(Timeval(0, 0), 0, 4, 3) == Timeval(1, 333332)
  {
    assert TickMicros(3) == 333333;
    RawFromZero(3, 3);
    RawFromZero(4, 3);
  }

  lemma DriftAfter72Minutes()
    ensures TickMicros(1000) == 1000 && Drift(4295000, 1000) == -32704
  {
    var v := 4295000 * TickMicros(1000);
    assert v == 4295000000 == TWO32 + 32704;
    assert v % US == 0 && U32(v) == 32704;
  }
}
