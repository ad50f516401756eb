/**
Whole runs of the oscillator of libteletone_generate.h: a period of samples taken
from the state itself, and the length of a period.
*/
module DdsRuns {
  import opened CInt
  import opened Dds
  import opened Powers

  // ---- The length of a period ----

  ghost predicate Divides(c: nat, n: nat) {
    exists q: nat :: n == q * c
  }

  ghost predicate IsGcd(d: nat, a: nat, b: nat) {
    && Divides(d, a) && Divides(d, b)
    && (forall c: nat :: Divides(c, a) && Divides(c, b) ==> c <= d)
  }

  /* The power of two in the rate. */
  lemma {:induction false} TwoPart(rate: nat, m: nat) returns (d: nat, q: nat)
    requires 0 < rate < Pow2(m + 1)
    ensures d > 0 && 2 * HalfPeriod(rate, m) * d == Pow2(m + 1) && rate == q * d
  {
    if rate % 2 == 1 {
      d, q := 1, rate;
    } else {
      d, q := TwoPart(rate / 2, m - 1);
      Doubled(2 * HalfPeriod(rate / 2, m - 1), q, d);
      d := 2 * d;
    }
  }

  lemma Doubled(p: nat, q: nat, d: nat)
    ensures p * (2 * d) == 2 * (p * d) && q * (2 * d) == 2 * (q * d)
  {
  }

  /* The period is 2^32 / gcd(rate, 2^32). */
  lemma PeriodGcd(rate: Uint32) returns (d: nat)
    requires rate > 0
    ensures IsGcd(d, rate, P32) && Period(rate) * d == P32
  {
    hide HalfPeriod, Pow2;
    Powers32();
    var q;
    d, q := TwoPart(rate, 31);
    assert rate == q * d && P32 == Period(rate) * d;
    assert Divides(d, rate) && Divides(d, P32);
    forall c: nat | Divides(c, rate) && Divides(c, P32)
      ensures c <= d
    {
      var a: nat :| rate == a * c;
      var b: nat :| P32 == b * c;
      Exchanged(a, b, c);
      HalfPeriodLeast(rate, 31, b, a);
      Smaller(b, c, Period(rate), d);
    }
  }

  lemma Exchanged(a: nat, b: nat, c: nat)
    ensures b * (a * c) == a * (b * c)
  {
  }

  lemma Smaller(b: nat, c: nat, p: nat, d: nat)
    requires b * c == p * d > 0 && (b == 0 || b >= p)
    ensures c <= d
  {
    assert (b - p) * c >= 0;
    AtMost(p, c, d);
  }

  lemma AtMost(p: nat, c: nat, d: nat)
    requires p > 0 && p * c <= p * d
    ensures c <= d
  {
  }

  // ---- Runs on the state ----

  function Total(samples: seq<int>): int {
    if samples == [] then 0 else Total(samples[..|samples| - 1]) + samples[|samples| - 1]
  }

  /* n calls yield the samples along the phases, and leave the phase that follows. */
  method Modulate(dds: DdsState, sines: seq<int>, pindex: Uint32, n: nat) returns (samples: seq<int>)
    requires dds.Valid() && SineTable(sines)
    modifies dds`phaseAccumulator
    ensures var k, start := dds.scaleFactor, old(dds.phaseAccumulator);
            var rate := dds.phaseRate[if pindex < MAX_PHASE_TONES then pindex else 0];
            && |samples| == n && Total(samples) == SumOf(sines, k, start, rate, n)
            && (forall i :: 0 <= i < n ==> samples[i] == Sample(sines, k, PhaseAt(start, rate, i)))
            && dds.phaseAccumulator == PhaseAt(start, rate, n)
  {
    hide Sample, Next;
    samples := [];
    ghost var k, start := dds.scaleFactor, dds.phaseAccumulator;
    ghost var rate := dds.phaseRate[if pindex < MAX_PHASE_TONES then pindex else 0];
    for i := 0 to n
      invariant |samples| == i && Total(samples) == SumOf(sines, k, start, rate, i)
      invariant forall j :: 0 <= j < i ==> samples[j] == Sample(sines, k, PhaseAt(start, rate, j))
      invariant dds.phaseAccumulator == PhaseAt(start, rate, i)
    {
      var r := dds.ModulateSample(sines, pindex);
      assert (samples + [r])[..i] == samples;
      samples := samples + [r];
    }
  }

  /* A period of samples brings the phase back, and at a safe scale its sum is
     between -N/2 and 0. */
  method OnePeriod(dds: DdsState, sines: seq<int>, pindex: Uint32) returns (samples: seq<int>)
    requires dds.Valid() && SineTable(sines)
    requires dds.phaseRate[if pindex < MAX_PHASE_TONES then pindex else 0] > 0
    modifies dds`phaseAccumulator
    ensures dds.phaseAccumulator == old(dds.phaseAccumulator)
    ensures |samples| == Period(dds.phaseRate[if pindex < MAX_PHASE_TONES then pindex else 0])
    ensures DcSafe(dds.scaleFactor) ==> 0 - |samples| / 2 <= Total(samples) <= 0
  {
    hide Sample, DcSafe, Period, SumOf, PhaseAt, Total;
    var rate := dds.phaseRate[if pindex < MAX_PHASE_TONES then pindex else 0];
    PeriodIsLeast(dds.phaseAccumulator, rate);
    if DcSafe(dds.scaleFactor) {
      BoundedDc(sines, dds.scaleFactor, dds.phaseAccumulator, rate);
    }
    samples := Modulate(dds, sines, pindex, Period(rate));
  }
}
