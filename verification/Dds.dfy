/**
The direct digital synthesis oscillator of libteletone_generate.h: a 32-bit
phase accumulator whose nine top bits select a sample of a sine wave stored as
one quarter wave.
*/
module Dds {
  import opened CInt
  import opened Powers

  const MAX_PHASE_TONES: nat := 4
  const SINE_TABLE_MAX: nat := 128
  const SINE_TABLE_LEN: nat := 127
  const P23: nat := 0x80_0000
  const P30: nat := 0x4000_0000

  predicate SineTable(sines: seq<int>) {
    |sines| == SINE_TABLE_MAX && forall i :: 0 <= i < SINE_TABLE_MAX ==> 0 <= sines[i] <= 32767
  }

  // ---- What the oscillator is for ----

  /* The full wave, laid out from the quarter wave in the table: up, down, and
     the same two quarters below zero. */
  function Wave(sines: seq<int>, phase: Uint32): (s: int)
    requires SineTable(sines)
    ensures -32767 <= s <= 32767
  {
    var quarter := phase / P30;
    var i := phase % P30 / P23;
    if quarter == 0 then sines[i]
    else if quarter == 1 then sines[SINE_TABLE_LEN - i]
    else if quarter == 2 then -sines[i]
    else -sines[SINE_TABLE_LEN - i]
  }

  /* A sample of the wave at an amplitude of scale / 32768, rounded down and
     stored as int16_t. */
  function Sample(sines: seq<int>, scale: Uint32, phase: Uint32): int
    requires SineTable(sines)
  {
    ToInt16(Wave(sines, phase) * scale / P15)
  }

  class DdsState {
    var phaseRate: array<Uint32>
    var scaleFactor: Uint32
    var phaseAccumulator: Uint32

    ghost predicate Valid()
      reads this
    {
      phaseRate.Length == MAX_PHASE_TONES
    }

    constructor ()
      ensures Valid() && fresh(phaseRate)
      ensures scaleFactor == phaseAccumulator == 0
      ensures forall i :: 0 <= i < phaseRate.Length ==> phaseRate[i] == 0
    {
      phaseRate := new Uint32[MAX_PHASE_TONES](i => 0);
      scaleFactor, phaseAccumulator := 0, 0;
    }

    /* teletone_dds_state_modulate_sample.  The sign of the accumulator goes
       through an arithmetic shift; the scaling is done on uint32_t. */
    method ModulateSample(sines: seq<int>, pindex: Uint32) returns (r: int)
      requires Valid() && SineTable(sines)
      modifies `phaseAccumulator
      ensures r == Sample(sines, scaleFactor, old(phaseAccumulator))
      ensures scaleFactor == 0x8000 ==> r == Unfolded(sines)[old(phaseAccumulator) / 0x80_0000]
      ensures phaseAccumulator == Next(old(phaseAccumulator), phaseRate[if pindex < MAX_PHASE_TONES then pindex else 0])
    {
      var bitmask := ToInt32(phaseAccumulator) / P23;
      var sineIndex := bitmask % SINE_TABLE_MAX;
      ShiftedPhase(phaseAccumulator);
      var p := if pindex >= MAX_PHASE_TONES then 0 else pindex;
      if bitmask / SINE_TABLE_MAX % 2 == 1 {
        sineIndex := SINE_TABLE_LEN - sineIndex;
      }
      var sample := sines[sineIndex];
      if bitmask / (SINE_TABLE_MAX * 2) % 2 == 1 {
        sample := ToInt16(sample * -1);
      }
      assert sample == Wave(sines, phaseAccumulator);
      UnsignedScaling(sample, scaleFactor);
      WaveUnfolds(sines, phaseAccumulator);
      FullScale(sample);
      r := ToInt16(ToUint32(ToUint32(sample) * scaleFactor) / P15);
      phaseAccumulator := ToUint32(phaseAccumulator + phaseRate[p]);
    }

    method ResetAccum()
      modifies `phaseAccumulator
      ensures phaseAccumulator == 0
    {
      phaseAccumulator := 0;
    }
  }

  lemma Unwrapped(n: Uint32)
    ensures ToUint32(n) == n
  {
  }

  lemma FullTurn(n: Uint32)
    ensures ToUint32(ToUint32(n + P31) + P31) == n
  {
  }

  lemma WrapTurns(m: nat, t: nat)
    ensures ToUint32(m + t * P32) == ToUint32(m)
  {
  }

  function Next(phase: Uint32, rate: Uint32): Uint32 {
    ToUint32(phase + rate)
  }

  /* The nine bits of the shifted accumulator: seven of index, then the two
     that number the quarter. */
  lemma ShiftedPhase(phase: Uint32)
    ensures var b := ToInt32(phase) / P23;
            && b % SINE_TABLE_MAX == phase % P30 / P23
            && b / SINE_TABLE_MAX % 2 == phase / P30 % 2
            && b / (SINE_TABLE_MAX * 2) % 2 == phase / P31
            && phase / P30 == 2 * (phase / P31) + phase / P30 % 2
  {
    var h, q, i := phase / P31, phase / P30 % 2, phase % P30 / P23;
    var r := phase % P23;
    assert phase / P30 == 2 * h + q;
    assert phase == h * P31 + q * P30 + i * P23 + r;
    assert ToInt32(phase) == (128 * q + i - 256 * h) * P23 + r;
  }

  /* Scaling on uint32_t and cutting to int16_t is signed floor division, cut
     to int16_t, for every scale. */
  lemma UnsignedScaling(s: int, k: Uint32)
    ensures ToInt16(ToUint32(ToUint32(s) * k) / P15) == ToInt16(s * k / P15)
  {
    var q := s / P32;
    assert s == q * P32 + s % P32;
    var n := s % P32 * k;
    assert s * k == n + q * k * P32 by {
      assert (q * P32 + s % P32) * k == q * P32 * k + s % P32 * k;
      assert q * P32 * k == q * k * P32;
    }
    ScalingStep(n, q * k);
    ScalingStep(n % P32, n / P32);
  }

  lemma ScalingStep(n: int, m: int)
    ensures ToInt16((n + m * P32) / P15) == ToInt16(n / P15)
  {
    assert (n + m * P32) / P15 == n / P15 + m * 0x2_0000;
    assert (n / P15 + m * 0x2_0000) % P16 == n / P15 % P16;
  }

  /* No sample of any table is cut by int16_t exactly when the scale is at most
     32769. */
  lemma ScalingExact(k: Uint32)
    ensures (forall s :: -32767 <= s <= 32767 ==> ToInt16(s * k / P15) == s * k / P15) <==> k <= 32769
  {
    if k <= 32769 {
      forall s | -32767 <= s <= 32767
        ensures ToInt16(s * k / P15) == s * k / P15
      {
        assert -32767 * 32769 <= s * k <= 32767 * 32769 by { MulBounds(s, k, 32767, 32769); }
      }
    } else {
      var s := 32767;
      assert s * k >= 32767 * 32770;
      assert ToInt16(s * k / P15) != s * k / P15;
    }
  }

  /* The 512 steps of one turn, written out: the table, the table backwards, and
     the same below zero. */
  function Unfolded(sines: seq<int>): (w: seq<int>)
    requires SineTable(sines)
    ensures |w| == 512
  {
    sines + seq(128, i requires 0 <= i < 128 => sines[127 - i]) +
    seq(128, i requires 0 <= i < 128 => -sines[i]) + seq(128, i requires 0 <= i < 128 => -sines[127 - i])
  }

  /* The wave goes through them in order, 2^23 phases to a step. */
  lemma WaveUnfolds(sines: seq<int>, phase: Uint32)
    requires SineTable(sines)
    ensures Wave(sines, phase) == Unfolded(sines)[phase / 0x80_0000]
  {
    var quarter, i := phase / P30, phase % P30 / P23;
    assert phase / 0x80_0000 == 128 * quarter + i;
  }

  /* In particular it starts with the first entry of the table, rises as the table
     rises through the first quarter of the turn, and is not negative through the
     first half. */
  lemma WaveRises(sines: seq<int>, p: Uint32, q: Uint32)
    requires SineTable(sines) && forall i, j :: 0 <= i < j < 128 ==> sines[i] <= sines[j]
    ensures Wave(sines, 0) == sines[0]
    ensures p <= q < 0x4000_0000 ==> Wave(sines, p) <= Wave(sines, q)
    ensures 0x4000_0000 <= p <= q < 0x8000_0000 ==> Wave(sines, p) >= Wave(sines, q)
    ensures p < 0x8000_0000 ==> Wave(sines, p) >= 0
  {
    hide Wave;
    WaveUnfolds(sines, 0);
    WaveUnfolds(sines, p);
    WaveUnfolds(sines, q);
    if p <= q {
      StepsInOrder(p, q);
    }
  }

  lemma StepsInOrder(p: nat, q: nat)
    requires p <= q
    ensures p / 0x80_0000 <= q / 0x80_0000
  {
  }

  /* At a scale factor of 2^15 nothing is scaled. */
  lemma FullScale(s: int)
    requires -32767 <= s <= 32767
    ensures ToInt16(s * 0x8000 / P15) == s
  {
  }

  lemma MulBounds(s: int, k: nat, a: int, b: int)
    requires -a <= s <= a && k <= b
    ensures -(a * b) <= s * k <= a * b
  {
    assert a * k <= a * b;
    assert -(a * k) <= s * k <= a * k;
  }

  // ---- Symmetry of the wave ----

  /* Half a turn later the wave has the opposite sign. */
  lemma HalfTurn(sines: seq<int>, phase: Uint32)
    requires SineTable(sines)
    ensures Wave(sines, ToUint32(phase + P31)) == -Wave(sines, phase)
  {
    if phase < P31 {
      assert (phase + P31) / P30 == phase / P30 + 2 && (phase + P31) % P30 == phase % P30;
    } else {
      assert ToUint32(phase + P31) == phase - P31;
      assert (phase - P31) / P30 == phase / P30 - 2 && (phase - P31) % P30 == phase % P30;
    }
  }

  /* Within a half turn the wave reads the same in both directions. */
  lemma MirrorTurn(sines: seq<int>, phase: Uint32)
    requires SineTable(sines) && phase < P31
    ensures Wave(sines, P31 - 1 - phase) == Wave(sines, phase)
  {
    var i := phase % P30 / P23;
    var mirrored := P31 - 1 - phase;
    assert mirrored % P30 == P30 - 1 - phase % P30;
    assert mirrored % P30 / P23 == SINE_TABLE_LEN - i;
  }

  /* Two samples half a turn apart cancel, up to the rounding, unless the
     unrounded product is an odd multiple of 2^30: then both are cut to -32768. */
  lemma SamplePair(sines: seq<int>, k: Uint32, phase: Uint32)
    requires SineTable(sines)
    ensures -1 <= Sample(sines, k, phase) + Sample(sines, k, ToUint32(phase + P31)) <= 0
            <==> Wave(sines, phase) * k % P31 != P30
  {
    hide Wave, ToUint32, ToInt16;
    HalfTurn(sines, phase);
    CutPair(Wave(sines, phase) * k);
    assert -Wave(sines, phase) * k == -(Wave(sines, phase) * k);
  }

  lemma CutPair(n: int)
    ensures -1 <= ToInt16(n / P15) + ToInt16(-n / P15) <= 0 <==> n % P31 != P30
  {
    hide ToInt16;
    var f := n / P15;
    var r := n - f * P15;
    var g, h := f / P16, f % P16;
    assert n == g * P31 + (h * P15 + r);
    assert n % P31 == h * P15 + r;
    if r == 0 {
      assert -n == -f * P15;
      CutNegation(f);
    } else {
      assert -n == (-f - 1) * P15 + (P15 - r);
      CutComplement(f);
    }
  }

  lemma CutNegation(f: int)
    ensures ToInt16(f) + ToInt16(-f) == if f % P16 == P15 then -0x1_0000 else 0
  {
  }

  lemma CutComplement(f: int)
    ensures ToInt16(f) + ToInt16(-f - 1) == -1
  {
  }

  /* The scales at which that happens to no sample of any table: those that
     2^16 does not divide, and the two multiples of 2^31. */
  predicate DcSafe(k: Uint32) {
    k % P16 != 0 || k % P31 == 0
  }

  lemma SafeScale(k: Uint32, s: int)
    requires DcSafe(k) && -32767 <= s <= 32767
    ensures s * k % P31 != P30
  {
    if k % P31 == 0 {
      assert k == 0 || k == P31;
    } else if s * k % P31 == P30 {
      var n, t := if s < 0 then -s else s, s * k / P31;
      assert s * k == t * P31 + P30;
      var t' := if s < 0 then -(2 * t + 1) else 2 * t + 1;
      assert n * k == t' * P30 by { assert n == s || (n == -s && -s * k == -(s * k)); }
      OddProduct(n, k, t');
    }
  }

  lemma OddProduct(n: nat, k: nat, t: int)
    requires n <= 32767 && k % P16 != 0 && n * k == t * P30
    ensures n == 0
  {
    hide Pow2;
    assert t >= 0;
    Powers32();
    EvenCancels(n, k, 30, 16, t);
    ModSmall(n, Pow2(15));
  }

  lemma UnsafeScale(k: Uint32) returns (s: nat)
    requires !DcSafe(k)
    ensures s <= 32767 && s * k % P31 == P30
  {
    hide Pow2;
    Powers32();
    var k' := k / P16;
    var r, q := k' % P15, k' / P15;
    s := HalfPeriod(r, 14);
    var t := HalfPeriodTurns(r, 14);
    HalfPeriodAtMost(r, 14);
    hide HalfPeriod;
    ProductParts(s, q, r);
    assert s * k == s * q * P31 + (t * P15 + 0x4000) * P16;
    Remainder(s * q, t);
  }

  lemma Remainder(u: nat, t: nat)
    ensures (u * P31 + (t * P15 + 0x4000) * P16) % P31 == P30
  {
    assert u * P31 + (t * P15 + 0x4000) * P16 == (u + t) * P31 + P30;
  }

  lemma ProductParts(s: nat, q: nat, r: nat)
    ensures s * (q * P31 + r * P16) == s * q * P31 + s * r * P16
  {
  }

  // ---- Runs ----

  /* The phase after n samples, and the sum of those samples. */
  function PhaseAt(start: Uint32, rate: Uint32, n: nat): Uint32 {
    if n == 0 then start else Next(PhaseAt(start, rate, n - 1), rate)
  }

  function SumOf(sines: seq<int>, k: Uint32, start: Uint32, rate: Uint32, n: nat): int
    requires SineTable(sines)
  {
    if n == 0 then 0
    else SumOf(sines, k, start, rate, n - 1) + Sample(sines, k, PhaseAt(start, rate, n - 1))
  }

  lemma {:induction false} PhaseClosed(start: Uint32, rate: Uint32, n: nat)
    ensures PhaseAt(start, rate, n) == ToUint32(start + n * rate)
  {
    hide ToUint32;
    if n == 0 {
      Unwrapped(start);
    } else {
      PhaseClosed(start, rate, n - 1);
      WrapAdd(start + (n - 1) * rate, rate);
      assert n * rate == (n - 1) * rate + rate;
    }
  }

  lemma {:induction false} PhaseSplit(start: Uint32, rate: Uint32, m: nat, n: nat)
    ensures PhaseAt(start, rate, m + n) == PhaseAt(PhaseAt(start, rate, m), rate, n)
  {
    if n > 0 {
      PhaseSplit(start, rate, m, n - 1);
    }
  }

  lemma {:induction false} SumSplit(sines: seq<int>, k: Uint32, start: Uint32, rate: Uint32, m: nat, n: nat)
    requires SineTable(sines)
    ensures SumOf(sines, k, start, rate, m + n) ==
            SumOf(sines, k, start, rate, m) + SumOf(sines, k, PhaseAt(start, rate, m), rate, n)
  {
    hide Sample;
    if n > 0 {
      SumSplit(sines, k, start, rate, m, n - 1);
      PhaseSplit(start, rate, m, n - 1);
    }
  }

  /* Two runs half a turn apart cancel, up to one unit a sample. */
  lemma {:induction false} RunPair(sines: seq<int>, k: Uint32, start: Uint32, rate: Uint32, n: nat)
    requires SineTable(sines) && DcSafe(k)
    ensures 0 - n <= SumOf(sines, k, start, rate, n) + SumOf(sines, k, ToUint32(start + P31), rate, n) <= 0
  {
    hide Sample, PhaseAt, Wave, DcSafe;
    if n > 0 {
      RunPair(sines, k, start, rate, n - 1);
      PhaseOffset(start, rate, n - 1);
      SamplePair(sines, k, PhaseAt(start, rate, n - 1));
      SafeScale(k, Wave(sines, PhaseAt(start, rate, n - 1)));
    }
  }

  lemma {:induction false} PhaseOffset(start: Uint32, rate: Uint32, n: nat)
    ensures PhaseAt(ToUint32(start + P31), rate, n) == ToUint32(PhaseAt(start, rate, n) + P31)
  {
    hide ToUint32;
    if n > 0 {
      PhaseOffset(start, rate, n - 1);
      var p := PhaseAt(start, rate, n - 1);
      WrapAdd(p + P31, rate);
      WrapAdd(p + rate, P31);
    }
  }

  // ---- The period ----

  /* How many steps of `rate` make half a turn of a circle of 2^(m + 1). */
  function HalfPeriod(rate: nat, m: nat): nat
    requires 0 < rate < Pow2(m + 1)
  {
    if rate % 2 == 1 then Pow2(m) else HalfPeriod(rate / 2, m - 1)
  }

  lemma {:induction false} HalfPeriodTurns(rate: nat, m: nat) returns (t: nat)
    requires 0 < rate < Pow2(m + 1)
    ensures HalfPeriod(rate, m) >= 1
    ensures HalfPeriod(rate, m) * rate == t * Pow2(m + 1) + Pow2(m)
  {
    var h := HalfPeriod(rate, m);
    if rate % 2 == 1 {
      t := rate / 2;
      OddTurns(Pow2(m), t);
    } else {
      t := HalfPeriodTurns(rate / 2, m - 1);
      EvenTurns(h, rate / 2, t, Pow2(m - 1));
    }
  }

  lemma OddTurns(p: nat, t: nat)
    ensures p * (2 * t + 1) == t * (2 * p) + p
  {
  }

  lemma EvenTurns(h: nat, r: nat, t: nat, p: nat)
    requires h * r == t * (2 * p) + p
    ensures h * (2 * r) == t * (4 * p) + 2 * p
  {
    assert h * (2 * r) == 2 * (h * r);
    assert 2 * (t * (2 * p)) == t * (4 * p);
  }

  /* No shorter run comes back to where it started. */
  lemma {:induction false} HalfPeriodLeast(rate: nat, m: nat, n: nat, t: nat)
    requires 0 < rate < Pow2(m + 1) && n * rate == t * Pow2(m + 1)
    ensures n == 0 || n >= 2 * HalfPeriod(rate, m)
  {
    if rate % 2 == 1 {
      OddCancels(n, rate, m + 1, t);
      ModSmall(n, Pow2(m + 1));
    } else {
      var p := Pow2(m);
      assert n * rate == 2 * (n * (rate / 2)) by { assert n * (2 * (rate / 2)) == 2 * (n * (rate / 2)); }
      assert t * (2 * p) == 2 * (t * p);
      HalfPeriodLeast(rate / 2, m - 1, n, t);
    }
  }

  lemma ModSmall(n: nat, p: nat)
    requires p >= 1 && n % p == 0
    ensures n == 0 || n >= p
  {
  }

  lemma {:induction false} HalfPeriodAtMost(rate: nat, m: nat)
    requires 0 < rate < Pow2(m + 1)
    ensures HalfPeriod(rate, m) <= Pow2(m)
  {
    if rate % 2 == 0 {
      HalfPeriodAtMost(rate / 2, m - 1);
    }
  }

  lemma {:induction false} HalfPeriodOfHalf(m: nat)
    ensures HalfPeriod(Pow2(m), m) == 1
  {
    if m > 0 {
      HalfPeriodOfHalf(m - 1);
    }
  }

  lemma Powers32()
    ensures Pow2(14) == 0x4000 && Pow2(15) == P15 && Pow2(16) == P16
    ensures Pow2(30) == P30 && Pow2(31) == P31 && Pow2(32) == P32
  {
    SmallPowers();
    Pow2Add(7, 7);
    Pow2Add(7, 8);
    Pow2Add(15, 15);
  }

  /* The length of one period of phases at this rate. */
  function Period(rate: Uint32): nat
    requires rate > 0
  {
    Powers32();
    2 * HalfPeriod(rate, 31)
  }

  /* It is the least positive number of samples after which the phase is back
     where it started, whatever the start. */
  lemma PeriodIsLeast(start: Uint32, rate: Uint32)
    requires rate > 0
    ensures Period(rate) > 0 && PhaseAt(start, rate, Period(rate)) == start
    ensures forall n :: 0 < n < Period(rate) ==> PhaseAt(start, rate, n) != start
  {
    hide HalfPeriod, Pow2, PhaseAt, ToUint32;
    Powers32();
    HalfTurnReached(start, rate);
    var h := HalfPeriod(rate, 31);
    PhaseSplit(start, rate, h, h);
    HalfTurnReached(PhaseAt(start, rate, h), rate);
    FullTurn(start);
    forall n | 0 < n < Period(rate)
      ensures PhaseAt(start, rate, n) != start
    {
      PhaseClosed(start, rate, n);
      if ToUint32(start + n * rate) == start {
        var t := TurnsBack(start, n * rate);
        HalfPeriodLeast(rate, 31, n, t);
      }
    }
  }

  lemma TurnsBack(start: Uint32, n: nat) returns (t: nat)
    requires ToUint32(start + n) == start
    ensures n == t * P32
  {
    t := (start + n) / P32;
  }

  lemma HalfTurnReached(start: Uint32, rate: Uint32)
    requires 0 < rate < Pow2(32)
    ensures HalfPeriod(rate, 31) >= 1
    ensures PhaseAt(start, rate, HalfPeriod(rate, 31)) == ToUint32(start + P31)
  {
    hide HalfPeriod, Pow2, PhaseAt, ToUint32;
    Powers32();
    var t := HalfPeriodTurns(rate, 31);
    PhaseClosed(start, rate, HalfPeriod(rate, 31));
    WrapTurns(start + P31, t);
  }

  /* Over one period of N samples they sum to between -N/2 and 0. */
  predicate DcBounded(sines: seq<int>, k: Uint32, start: Uint32, rate: Uint32)
    requires SineTable(sines) && rate > 0
  {
    0 - Period(rate) / 2 <= SumOf(sines, k, start, rate, Period(rate)) <= 0
  }

  lemma BoundedDc(sines: seq<int>, k: Uint32, start: Uint32, rate: Uint32)
    requires SineTable(sines) && DcSafe(k) && rate > 0
    ensures DcBounded(sines, k, start, rate)
  {
    hide HalfPeriod, Pow2, PhaseAt, ToUint32, SumOf, DcSafe;
    Powers32();
    var h := HalfPeriod(rate, 31);
    SumSplit(sines, k, start, rate, h, h);
    HalfTurnReached(start, rate);
    RunPair(sines, k, start, rate, h);
  }

  /* At any other scale some table, started at phase 0 and stepped by half a
     turn, sums to -65536 over its period of two samples. */
  lemma UnboundedDc(k: Uint32) returns (sines: seq<int>)
    requires !DcSafe(k)
    ensures SineTable(sines) && !DcBounded(sines, k, 0, P31)
  {
    hide HalfPeriod, Pow2, DcSafe, ToInt16;
    var s := UnsafeScale(k);
    sines := seq(SINE_TABLE_MAX, i => s);
    Powers32();
    HalfPeriodOfHalf(31);
    SamplePair(sines, k, 0);
    assert PhaseAt(0, P31, 0) == 0 && PhaseAt(0, P31, 1) == P31;
    assert SumOf(sines, k, 0, P31, 0) == 0;
    assert SumOf(sines, k, 0, P31, 1) == Sample(sines, k, 0);
    assert SumOf(sines, k, 0, P31, 2) == Sample(sines, k, 0) + Sample(sines, k, P31);
  }

  /* The DC component is bounded for every table, start and nonzero rate
     exactly at the safe scales. */
  lemma BoundedDcExactly(k: Uint32)
    ensures (forall sines: seq<int>, start: Uint32, rate: Uint32 ::
               SineTable(sines) && rate > 0 ==> DcBounded(sines, k, start, rate)) <==> DcSafe(k)
  {
    hide SineTable, DcBounded, DcSafe;
    if DcSafe(k) {
      forall sines: seq<int>, start: Uint32, rate: Uint32 | SineTable(sines) && rate > 0
        ensures DcBounded(sines, k, start, rate)
      {
        BoundedDc(sines, k, start, rate);
      }
    } else {
      var sines := UnboundedDc(k);
    }
  }
}
