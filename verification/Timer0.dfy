/** Timekeeping with the 8-bit timer 0, at 8 or 16 MHz: millis() from the overflow interrupt, and
    micros() from the overflow count and a live counter. */
module Timer0 {
  import opened Arith

  const TWO32 := 0x1_0000_0000

  predicate Clock(mhz: nat) {
    mhz == 8 || mhz == 16
  }

  /** MICROSECONDS_PER_TIMER0_OVERFLOW */
  function Period(mhz: nat): nat
    requires Clock(mhz)
  {
    64 * 256 / mhz
  }

  function MillisInc(mhz: nat): nat
    requires Clock(mhz)
  {
    Period(mhz) / 1000
  }

  function FractInc(mhz: nat): nat
    requires Clock(mhz)
  {
    Period(mhz) % 1000 / 8
  }

  const FRACT_MAX := 125   // 1000 >> 3

  /** timer0_millis and timer0_fract after `k` overflows: no time is lost or gained. */
  ghost predicate Exact(mhz: nat, k: nat, millis: nat, fract: nat)
    requires Clock(mhz)
  {
    millis == k * Period(mhz) / 1000 % TWO32 && fract * 8 == k * Period(mhz) % 1000 && fract < FRACT_MAX
  }

  /** One more period, as whole milliseconds and eighths of the rest. */
  lemma PeriodStep(mhz: nat, x: nat, f: nat)
    requires Clock(mhz) && f * 8 == x % 1000 && f < FRACT_MAX
    ensures var carry := if f + FractInc(mhz) >= FRACT_MAX then 1 else 0;
            && (x + Period(mhz)) / 1000 == x / 1000 + MillisInc(mhz) + carry
            && (f + FractInc(mhz) - carry * FRACT_MAX) * 8 == (x + Period(mhz)) % 1000
  {
  }

  class Clock0 {
    const mhz: nat
    var millis: nat          // timer0_millis, 32 bits
    var fract: nat           // timer0_fract, 8 bits
    var overflowCount: nat   // timer0_overflow_count, 32 bits
    ghost var k: nat         // overflows served since the start

    ghost predicate Valid()
      reads this
    {
      Clock(mhz) && Exact(mhz, k, millis, fract) && overflowCount == k % TWO32
    }

    constructor (mhz: nat)
      requires Clock(mhz)
      ensures Valid() && this.mhz == mhz && k == 0
    {
      this.mhz := mhz;
      millis, fract, overflowCount, k := 0, 0, 0, 0;
    }

    /** The overflow interrupt. */
    method Overflow()
      requires Valid()
      modifies this
      ensures Valid() && k == old(k) + 1
      ensures millis == (old(k) + 1) * Period(mhz) / 1000 % 0x1_0000_0000
    {
      hide Period, MillisInc, FractInc, Exact;
      SmallFract(mhz);
      ExactParts(mhz, k, millis, fract);
      var m, f := millis, fract;
      OverflowStep(mhz, k, m, f);
      Congruent(overflowCount + 1, k + 1, -(k / TWO32));
      m := m + MillisInc(mhz);
      f := (f + FractInc(mhz)) % 256;
      if f >= FRACT_MAX {
        f := f - FRACT_MAX;
        m := m + 1;
      }
      fract := f;
      millis := m % TWO32;
      overflowCount := (overflowCount + 1) % TWO32;
      k := k + 1;
      ExactParts(mhz, k, millis, fract);
    }

    /** micros(), given the counter read and the overflow flag read after it. */
    method Micros(t: nat, tov: bool) returns (us: nat)
      requires Valid() && t < 256
      ensures us == MicrosFrom(mhz, k, t, tov)
    {
      var m := overflowCount;
      if tov && t < 255 { m := (m + 1) % TWO32; }
      us := (m * 256 + t) % TWO32 * (64 / mhz) % TWO32;
      MicrosMod(mhz, k, overflowCount, t, tov);
    }
  }

  lemma SmallFract(mhz: nat)
    requires Clock(mhz)
    ensures FractInc(mhz) < FRACT_MAX
  {
  }

  lemma Congruent(x: int, y: int, j: int)
    requires x == y + j * TWO32
    ensures x % TWO32 == y % TWO32
  {
    DivModUnique(x, TWO32, y / TWO32 + j, y % TWO32);
  }

  lemma ExactParts(mhz: nat, k: nat, millis: nat, fract: nat)
    requires Clock(mhz) && Exact(mhz, k, millis, fract)
    ensures fract < FRACT_MAX && millis == k * Period(mhz) / 1000 % TWO32
  {
  }

  lemma OverflowStep(mhz: nat, k: nat, millis: nat, fract: nat)
    requires Clock(mhz) && Exact(mhz, k, millis, fract)
    ensures var carry := if fract + FractInc(mhz) >= FRACT_MAX then 1 else 0;
            fract + FractInc(mhz) - carry * FRACT_MAX >= 0 &&
            Exact(mhz, k + 1, (millis + MillisInc(mhz) + carry) % TWO32, fract + FractInc(mhz) - carry * FRACT_MAX)
  {
    hide Period, MillisInc, FractInc;
    var x, p := k * Period(mhz), Period(mhz);
    SmallFract(mhz);
    PeriodStep(mhz, x, fract);
    assert (k + 1) * p == x + p;
    var carry := if fract + FractInc(mhz) >= FRACT_MAX then 1 else 0;
    Congruent(millis + MillisInc(mhz) + carry, x / 1000 + MillisInc(mhz) + carry, -(x / 1000 / TWO32));
  }

  /** micros() without the intermediate 32-bit reductions. */
  function MicrosFrom(mhz: nat, served: nat, t: nat, tov: bool): nat
    requires Clock(mhz)
  {
    ((served + if tov && t < 255 then 1 else 0) * 256 + t) * (64 / mhz) % TWO32
  }

  lemma MicrosMod(mhz: nat, k: nat, count: nat, t: nat, tov: bool)
    requires Clock(mhz) && count == k % TWO32
    ensures var m := if tov && t < 255 then (count + 1) % TWO32 else count;
            (m * 256 + t) % TWO32 * (64 / mhz) % TWO32 == MicrosFrom(mhz, k, t, tov)
  {
    var c := if tov && t < 255 then 1 else 0;
    var m := (count + c) % TWO32;
    var j := k / TWO32 + (count + c) / TWO32;
    assert m == k + c - j * TWO32;
    WrapBoth(m * 256 + t, (k + c) * 256 + t, 256 * j, 64 / mhz);
  }

  lemma WrapBoth(y: int, x: int, j: int, scale: int)
    requires y == x - j * TWO32
    ensures y % TWO32 * scale % TWO32 == x * scale % TWO32
  {
    var i := y / TWO32;
    Rescale(y, i, scale);
    Rescale(x, j, scale);
  }

  lemma Rescale(x: int, i: int, scale: int)
    ensures (x - i * TWO32) * scale % TWO32 == x * scale % TWO32
  {
    Congruent((x - i * TWO32) * scale, x * scale, -i * scale);
  }

  /** `tick` is the true tick count when the counter is read and `later` when the flag is; `served`
      overflows have been counted.  The flag is set when an overflow has not. */
  ghost predicate Observed(tick: nat, later: nat, served: nat, t: nat, tov: bool) {
    && tick <= later <= tick + 1
    && t == tick % 256
    && (served == tick / 256 || served + 1 == tick / 256)
    && (tov <==> served < later / 256)
  }

  /** micros() is the true time, modulo 2^32, exactly when no overflow has been pending for 255 ticks. */
  lemma MicrosExactIff(mhz: nat, tick: nat, later: nat, served: nat, t: nat, tov: bool)
    requires Clock(mhz) && Observed(tick, later, served, t, tov)
    ensures MicrosFrom(mhz, served, t, tov) == tick * (64 / mhz) % 0x1_0000_0000 <==> !(served < tick / 256 && t == 255)
  {
  }

  /** Both clocks tick alike: a period is 256 ticks of 64/mhz microseconds, and right after the k-th
      overflow interrupt micros() is k periods. */
  lemma PeriodIs(mhz: nat, k: nat)
    requires Clock(mhz)
    ensures Period(mhz) == 256 * (64 / mhz) && (mhz == 8 || mhz == 16)
    ensures MicrosFrom(mhz, k, 0, false) == k * Period(mhz) % TWO32
  {
    assert (k * 256 + 0) * (64 / mhz) == k * (256 * (64 / mhz));
  }
}
