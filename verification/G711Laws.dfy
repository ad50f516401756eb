/**
What G.711 companding keeps of a sample, for every sample the encoders take.
*/
module G711Laws {
  import opened BitOps
  import opened G711

  function Ulaw(x: int): int
    requires UlawDomain(x)
  {
    UlawToLinear(LinearToUlaw(x))
  }

  function Alaw(x: int): int
    requires AlawDomain(x)
  {
    AlawToLinear(LinearToAlaw(x))
  }

  function Abs(x: int): nat {
    if x < 0 then -x else x
  }

  // ---- Both laws are monotone projections ----

  lemma BiasedLevel(n: nat)
    requires n >= ULAW_BIAS
    ensures ULAW_BIAS <= Quantize(n, 8) <= 0x7E00 && Quantize(ULAW_BIAS, 8) == ULAW_BIAS
  {
    QuantizeMonotone(ULAW_BIAS, n, 8);
    LastLevel(n, 8);
  }

  lemma UlawProjects(x: int)
    requires UlawDomain(x)
    ensures UlawDomain(Ulaw(x)) && Ulaw(Ulaw(x)) == Ulaw(x)
  {
    hide Quantize, LinearToUlaw, UlawToLinear;
    var n := if x < 0 then ULAW_BIAS - x else ULAW_BIAS + x;
    UlawIsReference(x);
    BiasedLevel(n);
    QuantizeTwice(n, 8);
    UlawIsReference(Ulaw(x));
  }

  lemma UlawMonotone(x: int, y: int)
    requires UlawDomain(x) && UlawDomain(y) && x <= y
    ensures Ulaw(x) <= Ulaw(y)
  {
    hide Quantize, LinearToUlaw, UlawToLinear;
    UlawIsReference(x);
    UlawIsReference(y);
    if y < 0 {
      QuantizeMonotone(ULAW_BIAS - y, ULAW_BIAS - x, 8);
    } else if x >= 0 {
      QuantizeMonotone(ULAW_BIAS + x, ULAW_BIAS + y, 8);
    } else {
      BiasedLevel(ULAW_BIAS - x);
      BiasedLevel(ULAW_BIAS + y);
    }
  }

  lemma UlawOdd(x: int)
    requires UlawDomain(x)
    ensures Ulaw(-x) == -Ulaw(x)
  {
    hide Quantize, LinearToUlaw, UlawToLinear;
    UlawIsReference(x);
    UlawIsReference(-x);
    BiasedLevel(ULAW_BIAS);
  }

  lemma LowestLevel()
    ensures Quantize(0, 16) == 8
  {
  }

  lemma AlawProjects(x: int)
    requires AlawDomain(x)
    ensures AlawDomain(Alaw(x)) && Alaw(Alaw(x)) == Alaw(x)
  {
    hide Quantize, LinearToAlaw, AlawToLinear;
    AlawIsReference(x);
    var n := if x >= 0 then x else if x > -8 then 0 else -x - 8;
    LastLevel(n, 16);
    QuantizeTwice(n, 16);
    LowestLevel();
    AlawIsReference(Alaw(x));
  }

  lemma AlawMonotone(x: int, y: int)
    requires AlawDomain(x) && AlawDomain(y) && x <= y
    ensures Alaw(x) <= Alaw(y)
  {
    hide Quantize, LinearToAlaw, AlawToLinear;
    AlawIsReference(x);
    AlawIsReference(y);
    LowestLevel();
    var m := if x >= 0 then x else if x > -8 then 0 else -x - 8;
    var n := if y >= 0 then y else if y > -8 then 0 else -y - 8;
    if y < 0 {
      QuantizeMonotone(n, m, 16);
    } else if x >= 0 {
      QuantizeMonotone(m, n, 16);
    } else {
      QuantizeMonotone(0, m, 16);
    }
  }

  // ---- How far a sample moves ----

  /* Mu-law: the relative error, taken of the biased magnitude, is at most 1/32
     exactly up to 33164. */
  lemma UlawError(x: int)
    requires UlawDomain(x)
    ensures 32 * Abs(x - Ulaw(x)) <= Abs(x) + ULAW_BIAS <==> Abs(x) <= 33164
  {
    hide LinearToUlaw, UlawToLinear;
    UlawIsReference(x);
    var n := if x < 0 then ULAW_BIAS - x else ULAW_BIAS + x;
    if n < 0x8000 {
      hide Quantize;
      QuantizeError(n, 8);
    }
  }

  /* A-law, from 256 on: the relative error is at most 1/32 exactly up to
     33296.  Below 256 the error is at most 8. */
  lemma AlawError(x: int)
    requires 0 <= x <= 0x7FFF_FFFF
    ensures x >= 256 ==> (32 * Abs(x - Alaw(x)) <= x <==> x <= 33296)
    ensures x < 256 ==> Abs(x - Alaw(x)) <= 8
  {
    hide LinearToAlaw, AlawToLinear;
    AlawIsReference(x);
    if x < 256 {
      QuantizeCell(x, x, 16);
    } else if x < 0x8000 {
      hide Quantize;
      QuantizeError(x, 16);
    }
  }

  /* Below zero A-law shifts the sample by 8 first, which may add 7 to half the
     width of the cell it then falls into. */
  lemma AlawErrorBelowZero(x: int)
    requires -0x8000 - 8 < x < 0
    ensures Abs(x - Alaw(x)) <= (if x > -8 then 0 else Step(-x - 8, 16) / 2) + 7
  {
    hide LinearToAlaw, AlawToLinear;
    AlawIsReference(x);
    if x <= -8 {
      hide Quantize, Step;
      QuantizeCell(-x - 8, 0, 16);
      StepPositive(-x - 8, 16);
    }
  }

  // ---- Codes ----

  /* Every A-law code is what its own level encodes to. */
  lemma AlawCodeRoundTrip(c: Law)
    ensures AlawDomain(AlawToLinear(c)) && LinearToAlaw(AlawToLinear(c)) == c
  {
    hide Xor, AlawToLinear, AlawLevel, AlawCell;
    var v := AlawCellOf(c);
    AlawCodes(v);
    AlawLevelCell(v);
    LevelBounds(v);
  }

  lemma AlawCellOf(c: Law) returns (v: nat)
    ensures v < 128 && c == Xor(v, 0x55) + if c >= 128 then 128 else 0
  {
    hide Xor;
    var low := c % 128;
    v := Xor(low, 0x55);
    SevenBits(low);
    XorTwice(low, 0x55);
  }

  lemma SevenBits(low: nat)
    requires low < 128
    ensures Xor(low, 0x55) < 128
  {
    hide Xor;
    PowerTable();
    XorBelow(low, 0x55, 7);
  }

  /* Every mu-law code is, but for the negative zero, which comes back as the
     positive one. */
  lemma UlawCodeRoundTrip(c: Law)
    ensures UlawDomain(UlawToLinear(c))
    ensures LinearToUlaw(UlawToLinear(c)) == if c == 0x7F then 0xFF else c
  {
    hide Xor, UlawToLinear, UlawLevel, UlawCell;
    var v := if c >= 128 then 255 - c else 127 - c;
    UlawCodes(v);
    UlawLevelCell(v);
    LevelBounds(v);
    ZeroLevel(v);
  }

  lemma ZeroLevel(v: nat)
    requires v < 128
    ensures UlawLevel(v) == ULAW_BIAS <==> v == 0
  {
    hide UlawLevel, UlawCell;
    PowerTable();
    EdgeLevels();
    UlawLevelCell(v);
    UlawLevelCell(0);
  }

  /* So encoding again what was decoded changes no A-law code, and a mu-law code
     exactly for the samples -3, -2 and -1. */
  lemma AlawEncodesAgain(x: int)
    requires AlawDomain(x)
    ensures AlawDomain(Alaw(x)) && LinearToAlaw(Alaw(x)) == LinearToAlaw(x)
  {
    AlawCodeRoundTrip(LinearToAlaw(x));
  }

  lemma UlawEncodesAgain(x: int)
    requires UlawDomain(x)
    ensures UlawDomain(Ulaw(x))
    ensures LinearToUlaw(Ulaw(x)) == LinearToUlaw(x) <==> !(-4 < x < 0)
  {
    hide LinearToUlaw, UlawToLinear;
    UlawCodeRoundTrip(LinearToUlaw(x));
    NegativeZero(x);
  }

  /* The codes of the samples at the ends and in the middle of the 16-bit range. */
  lemma KnownCodes()
    ensures LinearToUlaw(0) == 0xFF && LinearToUlaw(-1) == 0x7F
    ensures LinearToUlaw(32767) == 0x80 && LinearToUlaw(-32768) == 0x00
    ensures LinearToAlaw(0) == 0xD5 && LinearToAlaw(-1) == 0x55
    ensures LinearToAlaw(32767) == 0xAA && LinearToAlaw(-32768) == 0x2A
  {
    hide UlawCell, AlawCell, Xor;
    KnownCells();
    KnownFlips();
  }

  lemma KnownCells()
    ensures UlawCell(132) == UlawCell(133) == 0 && UlawCell(32899) == UlawCell(32900) == 127
    ensures AlawCell(0) == AlawCell(-7) == 0 && AlawCell(32767) == AlawCell(32760) == 127
  {
    hide Segment;
    SegmentTable(132);
    SegmentTable(133);
    SegmentTable(32899);
    SegmentTable(32900);
    SegmentTable(0);
    SegmentTable(-7);
    SegmentTable(32767);
    SegmentTable(32760);
    PowerTable();
  }

  lemma KnownFlips()
    ensures Xor(0, 0xFF) == 0xFF && Xor(0, 0x7F) == 0x7F && Xor(127, 0xFF) == 0x80 && Xor(127, 0x7F) == 0
    ensures Xor(0, 0xD5) == 0xD5 && Xor(0, 0x55) == 0x55 && Xor(127, 0xD5) == 0xAA && Xor(127, 0x55) == 0x2A
  {
    hide Xor, AlawToLinear, UlawToLinear;
    UlawCodes(0);
    UlawCodes(127);
    AlawCodes(0);
    AlawCodes(127);
    ZeroXor(0x55);
    XorCommutes(127, 0x55);
    PowerTable();
    XorOnes(0x55, 7);
  }

  lemma NegativeZero(x: int)
    requires UlawDomain(x)
    ensures LinearToUlaw(x) == 0x7F <==> -4 < x < 0
  {
    hide Xor, UlawCell, UlawLevel;
    var n := if x < 0 then ULAW_BIAS - x else ULAW_BIAS + x;
    UlawCodes(UlawCell(n));
    UlawCellLevel(n);
    ZeroLevel(UlawCell(n));
    if n >= 136 {
      QuantizeMonotone(136, n, 8);
    }
  }
}
