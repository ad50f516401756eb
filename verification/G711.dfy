/**
G.711 companding as in g711.h: the portable top_bit, and the mu-law and A-law
encoders and decoders built on it.
*/
module G711 {
  import opened BitOps
  import opened CInt
  import opened Powers

  type Law = n: nat | n < 256   // a uint8_t code word

  const ULAW_BIAS: nat := 0x84

  // ---- The highest set bit ----

  /* The index of the highest set bit, -1 for zero. */
  function TopBitOf(n: nat): int {
    if n == 0 then -1 else 1 + TopBitOf(n / 2)
  }

  lemma {:induction false} TopBitIsLog(n: nat)
    requires n > 0
    ensures TopBitOf(n) >= 0 && Pow2(TopBitOf(n)) <= n < Pow2(TopBitOf(n) + 1)
  {
    if n > 1 {
      TopBitIsLog(n / 2);
    } else {
      assert TopBitOf(0) == -1 && Pow2(1) == 2;
    }
  }

  lemma {:induction false} TopBitUnique(n: nat, t: nat)
    requires Pow2(t) <= n < Pow2(t + 1)
    ensures TopBitOf(n) == t
  {
    if t == 0 {
      assert n == 1 && TopBitOf(0) == -1;
    } else {
      TopBitUnique(n / 2, t - 1);
    }
  }

  lemma {:induction false} TopBitAtLeast(n: nat, t: nat)
    requires Pow2(t) <= n
    ensures TopBitOf(n) >= t
  {
    if t > 0 {
      TopBitAtLeast(n / 2, t - 1);
    } else {
      TopBitIsLog(n);
    }
  }

  lemma {:induction false} TopBitShifted(h: nat, r: nat, k: nat)
    requires h > 0 && r < Pow2(k)
    ensures ShiftLeft(h, k) + r > 0
    ensures TopBitOf(ShiftLeft(h, k) + r) == TopBitOf(h) + k
  {
    if k > 0 {
      TopBitShifted(h, r / 2, k - 1);
      LowBit(h, r, k);
    }
  }

  /* The set bits of `bits` lie in block j of k bits, which starts at i; they
     are g, and their highest one is that of `word`. */
  ghost predicate Narrowed(word: nat, bits: nat, i: int, k: nat, c: nat, g: nat, j: nat) {
    && 0 < g < Pow2(k) && j < c && i == k * j
    && bits == ShiftLeft(g, k * j)
    && TopBitOf(word) == TopBitOf(g) + i
  }

  /* top_bit, by five halvings of the word. */
  method TopBit(word: Uint32) returns (i: int)
    ensures i == TopBitOf(word)
    ensures word > 0 ==> i >= 0 && Pow2(i) <= word < Pow2(i + 1)
  {
    hide Pow2, And, TopBitOf, Mask, Narrowed;
    var bits := word;
    if bits == 0 {
      NoTopBit();
      return -1;
    }
    i := 0;
    MaskValues();
    ghost var g, j := word, 0;
    WholeWord(word);
    g, j := Halve(word, bits, i, 16, 1, g, j);
    if And(bits, 0xFFFF0000) != 0 {
      bits := And(bits, 0xFFFF0000);
      i := i + 16;
    }
    g, j := Halve(word, bits, i, 8, 2, g, j);
    if And(bits, 0xFF00FF00) != 0 {
      bits := And(bits, 0xFF00FF00);
      i := i + 8;
    }
    g, j := Halve(word, bits, i, 4, 4, g, j);
    if And(bits, 0xF0F0F0F0) != 0 {
      bits := And(bits, 0xF0F0F0F0);
      i := i + 4;
    }
    g, j := Halve(word, bits, i, 2, 8, g, j);
    if And(bits, 0xCCCCCCCC) != 0 {
      bits := And(bits, 0xCCCCCCCC);
      i := i + 2;
    }
    g, j := Halve(word, bits, i, 1, 16, g, j);
    if And(bits, 0xAAAAAAAA) != 0 {
      bits := And(bits, 0xAAAAAAAA);
      i := i + 1;
    }
    OneBitLeft(word, bits, i, g, j);
    TopBitIsLog(word);
  }

  lemma NoTopBit()
    ensures TopBitOf(0) == -1
  {
  }

  lemma WholeWord(word: Uint32)
    requires word > 0 && Pow2(32) == P32
    ensures Narrowed(word, word, 0, 32, 1, word, 0)
  {
  }

  lemma OneBitLeft(word: nat, bits: nat, i: int, g: nat, j: nat)
    requires Narrowed(word, bits, i, 1, 32, g, j)
    ensures i == TopBitOf(word)
  {
    assert Pow2(1) == 2;
    TopBitUnique(1, 0);
  }

  /* One halving, which keeps the upper half of the block if it is not empty. */
  lemma Halve(word: nat, bits: nat, i: int, k: nat, c: nat, g: nat, j: nat) returns (g': nat, j': nat)
    requires Narrowed(word, bits, i, 2 * k, c, g, j)
    ensures var high := And(bits, Mask(k, c));
            Narrowed(word, if high != 0 then high else bits, if high != 0 then i + k else i, k, 2 * c, g', j')
  {
    hide Pow2, And, ShiftLeft, TopBitOf, Mask;
    var h, r := MaskBlock(k, c, j, g);
    ShiftLeftTwice(h, k, 2 * k * j);
    BlockOffset(k, j);
    ZeroShift(k);
    ZeroShift(k + 2 * k * j);
    if h > 0 {
      TopBitShifted(h, r, k);
      NotZero(h, k + 2 * k * j);
      g', j' := h, 2 * j + 1;
    } else {
      g', j' := r, 2 * j;
    }
  }

  lemma {:induction false} NotZero(h: nat, k: nat)
    requires h > 0
    ensures ShiftLeft(h, k) > 0
  {
    if k > 0 {
      NotZero(h, k - 1);
    }
  }

  lemma BlockOffset(k: nat, j: nat)
    ensures k * (2 * j) == 2 * k * j && k * (2 * j + 1) == k + 2 * k * j
  {
  }

  lemma {:induction false} ZeroShift(k: nat)
    ensures ShiftLeft(0, k) == 0
  {
    if k > 0 {
      ZeroShift(k - 1);
    }
  }

  /* The masks in the code are these. */
  lemma MaskValues()
    ensures Mask(16, 1) == 0xFFFF0000 && Mask(8, 2) == 0xFF00FF00 && Mask(4, 4) == 0xF0F0F0F0
    ensures Mask(2, 8) == 0xCCCCCCCC && Mask(1, 16) == 0xAAAAAAAA
    ensures Pow2(32) == P32
  {
    hide Mask, Pow2;
    PowerTable();
    MaskSum(16, 1);
    MaskSum(8, 2);
    MaskSum(4, 4);
    MaskSum(2, 8);
    MaskSum(1, 16);
  }

  lemma PowerTable()
    ensures Pow2(0) == 1 && Pow2(1) == 2 && Pow2(2) == 4 && Pow2(3) == 8 && Pow2(4) == 16
    ensures Pow2(5) == 32 && Pow2(6) == 64 && Pow2(7) == 128 && Pow2(8) == 0x100 && Pow2(9) == 0x200
    ensures Pow2(10) == 0x400 && Pow2(11) == 0x800 && Pow2(12) == 0x1000 && Pow2(13) == 0x2000
    ensures Pow2(14) == 0x4000 && Pow2(15) == P15 && Pow2(16) == P16 && Pow2(31) == P31 && Pow2(32) == P32
  {
    hide Pow2;
    SmallPowers();
    Pow2Add(4, 4);
    Pow2Add(5, 4);
    Pow2Add(5, 5);
    Pow2Add(6, 5);
    Pow2Add(6, 6);
    Pow2Add(7, 6);
    Pow2Add(7, 7);
    Pow2Add(8, 7);
    Pow2Add(8, 8);
    Pow2Add(16, 15);
    Pow2Add(16, 16);
  }

  // ---- The encoders and decoders ----

  /* top_bit(n | 0xFF) - 7; top_bit takes an unsigned int. */
  function Segment(n: int): int {
    TopBitOf(Or(ToUint32(n), 0xFF)) - 7
  }

  function ShiftRight(n: int, k: nat): int {
    n / Pow2(k)
  }

  /* The samples for which adding the bias does not overflow an int. */
  predicate UlawDomain(linear: int) {
    -0x7FFF_FFFF + ULAW_BIAS <= linear <= 0x7FFF_FFFF - ULAW_BIAS
  }

  /* linear_to_ulaw */
  function LinearToUlaw(linear: int): Law
    requires UlawDomain(linear)
  {
    var biased := if linear < 0 then ULAW_BIAS - linear else ULAW_BIAS + linear;
    var mask := if linear < 0 then 0x7F else 0xFF;
    FlipBelow(UlawCell(biased), mask);
    Xor(UlawCell(biased), mask)
  }

  /* The segment and the quantization bits of a biased sample. */
  function UlawCell(biased: int): (v: int)
    requires 0 <= biased <= 0x7FFF_FFFF
    ensures 0 <= v < 128
  {
    SegmentTable(biased);
    var seg := Segment(biased);
    if seg >= 8 then 0x7F else seg * 16 + ShiftRight(biased, seg + 3) % 16
  }

  /* ulaw_to_linear: the quantization bits are u & 0x0F, the segment is
     (u & 0x70) >> 4, the sign is u & 0x80. */
  function UlawToLinear(code: Law): int {
    var u := 255 - code;
    var t := (u % 16 * 8 + ULAW_BIAS) * Pow2(u / 16 % 8);
    ToInt16(if u / 128 == 1 then ULAW_BIAS - t else t - ULAW_BIAS)
  }

  /* The samples that can be negated. */
  predicate AlawDomain(linear: int) {
    -0x7FFF_FFFF <= linear <= 0x7FFF_FFFF
  }

  /* linear_to_alaw */
  function LinearToAlaw(linear: int): Law
    requires AlawDomain(linear)
  {
    var magnitude := if linear >= 0 then linear else -linear - 8;
    var mask := if linear >= 0 then 0xD5 else 0x55;
    FlipBelow(AlawCell(magnitude), mask);
    Xor(AlawCell(magnitude), mask)
  }

  /* A magnitude just below zero is, to top_bit, a very large word. */
  function AlawCell(magnitude: int): (v: int)
    requires -0x8000_0000 <= magnitude <= 0x7FFF_FFFF
    ensures 0 <= v < 128
  {
    SegmentTable(magnitude);
    var seg := Segment(magnitude);
    if seg >= 8 then if magnitude >= 0 then 0x7F else 0
    else seg * 16 + ShiftRight(magnitude, if seg != 0 then seg + 3 else 4) % 16
  }

  /* alaw_to_linear */
  function AlawToLinear(code: Law): int {
    FlipBelow(code, 0x55);
    AlawFields(Xor(code, 0x55))
  }

  /* The decoder once the even bits have been flipped back. */
  function AlawFields(a: Law): int {
    var m := AlawMagnitude(a % 16, a / 16 % 8);
    ToInt16(if a / 128 == 1 then m else -m)
  }

  function AlawMagnitude(bits: nat, seg: nat): int {
    var i := bits * 16;
    if seg != 0 then (i + 0x108) * Pow2(seg - 1) else i + 8
  }

  lemma FlipBelow(v: nat, mask: nat)
    requires v < 256 && mask < 256
    ensures Xor(v, mask) < 256
  {
    hide Xor, Pow2;
    PowerTable();
    XorBelow(v, mask, 8);
  }

  lemma SegmentTable(n: int)
    requires -0x8000_0000 <= n <= 0x7FFF_FFFF
    ensures n < 0 ==> Segment(n) == 24
    ensures 0 <= n < 0x100 ==> Segment(n) == 0
    ensures 0x100 <= n < 0x200 ==> Segment(n) == 1
    ensures 0x200 <= n < 0x400 ==> Segment(n) == 2
    ensures 0x400 <= n < 0x800 ==> Segment(n) == 3
    ensures 0x800 <= n < 0x1000 ==> Segment(n) == 4
    ensures 0x1000 <= n < 0x2000 ==> Segment(n) == 5
    ensures 0x2000 <= n < 0x4000 ==> Segment(n) == 6
    ensures 0x4000 <= n < 0x8000 ==> Segment(n) == 7
    ensures 0x8000 <= n ==> Segment(n) >= 8
  {
    hide TopBitOf, Or;
    var m := ToUint32(n);
    TopOfWord(m);
    assert n < 0 ==> m == n + P32;
    assert n >= 0 ==> m == n;
  }

  /* The highest bit of a word whose low byte is set. */
  lemma TopOfWord(m: Uint32)
    ensures var t := TopBitOf(Or(m, 0xFF));
            && (m < 0x100 ==> t == 7)
            && (0x100 <= m < 0x200 ==> t == 8) && (0x200 <= m < 0x400 ==> t == 9)
            && (0x400 <= m < 0x800 ==> t == 10) && (0x800 <= m < 0x1000 ==> t == 11)
            && (0x1000 <= m < 0x2000 ==> t == 12) && (0x2000 <= m < 0x4000 ==> t == 13)
            && (0x4000 <= m < 0x8000 ==> t == 14) && (m >= 0x8000 ==> t >= 15) && (m >= P31 ==> t == 31)
  {
    hide TopBitOf, Pow2, Or;
    PowerTable();
    var w := Or(m, 0xFF);
    LowByteSet(m);
    if m < 0x100 {
      TopBitUnique(w, 7);
    } else if m < 0x200 {
      TopBitUnique(w, 8);
    } else if m < 0x400 {
      TopBitUnique(w, 9);
    } else if m < 0x800 {
      TopBitUnique(w, 10);
    } else if m < 0x1000 {
      TopBitUnique(w, 11);
    } else if m < 0x2000 {
      TopBitUnique(w, 12);
    } else if m < 0x4000 {
      TopBitUnique(w, 13);
    } else if m < 0x8000 {
      TopBitUnique(w, 14);
    } else if m < P31 {
      TopBitAtLeast(w, 15);
    } else {
      TopBitUnique(w, 31);
    }
  }

  lemma LowByteSet(m: nat)
    ensures Or(m, 0xFF) == m / 256 * 256 + 255
  {
    hide Pow2, Or, ShiftLeft;
    PowerTable();
    OrOnes(m / 256, m % 256, 8);
    ShiftLeftMul(m / 256, 8);
  }

  // ---- The reference quantizer ----

  /* The width of the cell around n: `fine` in the lowest 256, 16 in the next,
     and twice as much with every octave from there on. */
  function Step(n: nat, fine: nat): nat {
    if n < 0x100 then fine
    else if n < 0x200 then 16
    else if n < 0x400 then 32
    else if n < 0x800 then 64
    else if n < 0x1000 then 128
    else if n < 0x2000 then 256
    else if n < 0x4000 then 512
    else 1024
  }

  /* The middle of the cell around n, and of the last cell beyond 15 bits. */
  function Quantize(n: nat, fine: nat): nat
    requires fine == 8 || fine == 16
  {
    if n >= 0x8000 then 0x7E00 else n / Step(n, fine) * Step(n, fine) + Step(n, fine) / 2
  }

  /* What a sample comes to after encoding and decoding. */
  function UlawReference(x: int): int {
    if x < 0 then ULAW_BIAS - Quantize(ULAW_BIAS - x, 8) else Quantize(ULAW_BIAS + x, 8) - ULAW_BIAS
  }

  function AlawReference(x: int): int {
    if x >= 0 then Quantize(x, 16) else if x > -8 then -8 else 0 - Quantize(-x - 8, 16)
  }

  /* The level that the decoders give to a cell number. */
  function UlawLevel(v: nat): int {
    (v % 16 * 8 + ULAW_BIAS) * Pow2(v / 16)
  }

  function AlawLevel(v: nat): int {
    AlawMagnitude(v % 16, v / 16)
  }

  /* In segment s, whose cells are d = 8 * 2^s wide, both decoders give a cell
     its middle. */
  lemma SegmentLevel(n: nat, s: nat, d: nat)
    requires s < 8 && d == 8 * Pow2(s) && 16 * d <= n < 32 * d
    ensures var v := s * 16 + n / d % 16;
            && v < 128
            && UlawLevel(v) == n / d * d + d / 2
            && (s > 0 ==> AlawLevel(v) == n / d * d + d / 2)
  {
    hide Pow2;
    var c, p := n / d, Pow2(s);
    CellBounds(n, d);
    var v := s * 16 + c % 16;
    assert c % 16 == c - 16 && v % 16 == c - 16 && v / 16 == s;
    LevelMiddle(c, p);
    if s > 0 {
      Pow2Step(s);
      LevelMiddle(c, Pow2(s - 1));
    }
  }

  lemma CellBounds(n: nat, d: nat)
    requires d > 0 && 16 * d <= n < 32 * d
    ensures 16 <= n / d < 32
  {
    assert n == d * (n / d) + n % d;
    MulCancel(d, n / d, 32);
    MulCancel(d, 15, n / d);
  }

  lemma LevelMiddle(c: nat, p: nat)
    requires c >= 16
    ensures ((c - 16) * 8 + ULAW_BIAS) * p == c * (8 * p) + 4 * p
    ensures ((c - 16) * 16 + 0x108) * p == c * (16 * p) + 8 * p
  {
    assert (c * 8 + 4) * p == c * (8 * p) + 4 * p;
    assert (c * 16 + 8) * p == c * (16 * p) + 8 * p;
  }

  lemma EdgeLevels()
    ensures UlawLevel(0x7F) == AlawLevel(0x7F) == 0x7E00 && UlawLevel(0) == ULAW_BIAS
  {
    hide Pow2;
    PowerTable();
  }

  lemma FineLevel(v: nat)
    requires v < 16
    ensures AlawLevel(v) == v * 16 + 8
  {
  }

  lemma UlawCellLevel(n: int)
    requires ULAW_BIAS <= n <= 0x7FFF_FFFF
    ensures UlawLevel(UlawCell(n)) == Quantize(n, 8)
  {
    hide Segment, Pow2, UlawLevel, AlawLevel;
    PowerTable();
    SegmentTable(n);
    if n < 0x8000 {
      SegmentLevel(n, Segment(n), Step(n, 8));
    } else {
      EdgeLevels();
    }
  }

  lemma AlawCellLevel(n: int)
    requires 0 <= n <= 0x7FFF_FFFF
    ensures AlawLevel(AlawCell(n)) == Quantize(n, 16)
  {
    hide Segment, Pow2, UlawLevel, AlawLevel;
    PowerTable();
    SegmentTable(n);
    if n < 0x100 {
      FineLevel(n / 16);
    } else if n < 0x8000 {
      SegmentLevel(n, Segment(n), Step(n, 16));
    } else {
      EdgeLevels();
    }
  }

  // ---- Decoding what was encoded ----

  lemma {:induction false} LevelBounds(v: nat)
    requires v < 128
    ensures ULAW_BIAS <= UlawLevel(v) <= 0x7E00 && 8 <= AlawLevel(v) <= 0x7E00
  {
    hide Pow2;
    PowerTable();
    var q, s := v % 16, v / 16;
    if s == 0 {
    } else if s == 1 {
    } else if s == 2 {
    } else if s == 3 {
    } else if s == 4 {
    } else if s == 5 {
    } else if s == 6 {
    } else {
    }
  }

  /* A mu-law code is its cell number complemented, with the sign on top. */
  lemma UlawCodes(v: nat)
    requires v < 128
    ensures Xor(v, 0xFF) == 255 - v && UlawToLinear(255 - v) == UlawLevel(v) - ULAW_BIAS
    ensures Xor(v, 0x7F) == 127 - v && UlawToLinear(127 - v) == ULAW_BIAS - UlawLevel(v)
  {
    hide Xor, Pow2;
    PowerTable();
    XorOnes(v, 8);
    XorOnes(v, 7);
    LevelBounds(v);
  }

  lemma AlawCodes(v: nat)
    requires v < 128
    ensures Xor(v, 0x55) < 128 && Xor(v, 0xD5) == 128 + Xor(v, 0x55)
    ensures AlawToLinear(128 + Xor(v, 0x55)) == AlawLevel(v)
    ensures AlawToLinear(Xor(v, 0x55)) == 0 - AlawLevel(v)
  {
    hide Xor, Pow2, AlawFields, AlawLevel;
    PowerTable();
    XorBelow(v, 0x55, 7);
    XorTwice(v, 0x55);
    SignBit(v, 0x55);
    SignBit(Xor(v, 0x55), 0x55);
    SignedFields(v);
  }

  lemma SignBit(v: nat, mask: nat)
    requires v < 128 && mask < 128
    ensures Xor(v, 128 + mask) == 128 + Xor(v, mask) == Xor(128 + v, mask)
  {
    hide Xor, Pow2, ShiftLeft;
    PowerTable();
    ShiftLeftMul(0, 7);
    ShiftLeftMul(1, 7);
    XorSmall();
    XorJoin(v, 0, mask, 1, 7);
    XorJoin(v, 1, mask, 0, 7);
  }

  lemma SignedFields(v: nat)
    requires v < 128
    ensures AlawFields(v) == 0 - AlawLevel(v) && AlawFields(128 + v) == AlawLevel(v)
  {
    hide AlawMagnitude;
    LevelBounds(v);
    assert (128 + v) % 16 == v % 16 && (128 + v) / 16 % 8 == v / 16;
  }

  /* The codec, as a function from samples to samples, is the reference. */
  lemma UlawIsReference(x: int)
    requires UlawDomain(x)
    ensures UlawToLinear(LinearToUlaw(x)) == UlawReference(x)
  {
    hide UlawToLinear, UlawCell, UlawLevel, Quantize, Xor;
    var n := if x < 0 then ULAW_BIAS - x else ULAW_BIAS + x;
    UlawCodes(UlawCell(n));
    UlawCellLevel(n);
  }

  lemma AlawIsReference(x: int)
    requires AlawDomain(x)
    ensures AlawToLinear(LinearToAlaw(x)) == AlawReference(x)
  {
    hide AlawToLinear, AlawCell, AlawLevel, Quantize, Xor;
    var n := if x >= 0 then x else -x - 8;
    AlawCodes(AlawCell(n));
    if n >= 0 {
      AlawCellLevel(n);
    } else {
      BelowZero(n);
    }
  }

  lemma BelowZero(n: int)
    requires -0x8000_0000 <= n < 0
    ensures AlawLevel(AlawCell(n)) == 8
  {
    SegmentTable(n);
  }

  // ---- Properties of the quantizer ----

  lemma MulMonotone(d: nat, a: nat, c: nat)
    requires a <= c
    ensures a * d <= c * d
  {
  }

  /* The cells of width d from the a-th to the b-th: where the one around n
     lies, and that every x in it has the same number. */
  lemma CellAround(n: nat, x: nat, d: nat, a: nat, b: nat)
    requires d > 0 && d % 2 == 0 && a * d <= n < b * d
    ensures var q := n / d * d + d / 2;
            && q - d / 2 <= n < q + d / 2
            && a * d + d / 2 <= q && q + d / 2 <= b * d
            && (q - d / 2 <= x < q + d / 2 ==> x / d == n / d)
  {
    var c := n / d;
    CellBorders(n, d, a, b);
    if c * d <= x < c * d + d {
      DivBetween(d, c, x);
    }
  }

  lemma CellBorders(n: nat, d: nat, a: nat, b: nat)
    requires d > 0 && a * d <= n < b * d
    ensures n / d * d <= n < n / d * d + d
    ensures a * d <= n / d * d && n / d * d + d <= b * d
  {
    var c := n / d;
    assert n == d * c + n % d;
    MulCancel(d, c, b);
    MulCancel(d, a, c + 1);
    MulMonotone(d, a, c);
    MulMonotone(d, c + 1, b);
  }

  /* n lies in a cell around its level, and so does no sample with another
     level. */
  lemma QuantizeCell(n: nat, x: nat, fine: nat)
    requires (fine == 8 || fine == 16) && n < 0x8000
    ensures var q, d := Quantize(n, fine), Step(n, fine);
            && d / 2 <= q && q - d / 2 <= n < q + d / 2 && q + d / 2 <= 0x8000
            && (q - d / 2 <= x < q + d / 2 ==> Step(x, fine) == d && Quantize(x, fine) == q)
  {
    var d := Step(n, fine);
    if n < 0x100 {
      CellAround(n, x, d, 0, 256 / d);
    } else {
      CellAround(n, x, d, 16, 32);
    }
  }

  lemma QuantizeMonotone(m: nat, n: nat, fine: nat)
    requires (fine == 8 || fine == 16) && m <= n
    ensures Quantize(m, fine) <= Quantize(n, fine)
  {
    hide Step;
    if m < 0x8000 {
      var p := Quantize(m, fine);
      QuantizeCell(m, n, fine);
      if n < 0x8000 {
        hide Quantize;
        var q := Quantize(n, fine);
        QuantizeCell(n, m, fine);
        QuantizeCell(m, q, fine);
        QuantizeCell(n, q, fine);
        StepPositive(n, fine);
      } else {
        LastLevel(m, fine);
      }
    }
  }

  lemma StepPositive(n: nat, fine: nat)
    requires fine == 8 || fine == 16
    ensures Step(n, fine) >= 8 && (n >= 0x100 || fine == 16 ==> Step(n, fine) >= 16)
  {
  }

  lemma LastLevel(n: nat, fine: nat)
    requires fine == 8 || fine == 16
    ensures Quantize(n, fine) <= 0x7E00
  {
    if n < 0x4000 {
      QuantizeCell(n, n, fine);
    }
  }

  lemma QuantizeTwice(n: nat, fine: nat)
    requires fine == 8 || fine == 16
    ensures Quantize(Quantize(n, fine), fine) == Quantize(n, fine)
    ensures fine == 16 ==> Quantize(n, fine) >= 8 && Quantize(Quantize(n, fine) - 8, fine) == Quantize(n, fine)
  {
    if n < 0x8000 {
      hide Step, Quantize;
      var q := Quantize(n, fine);
      StepPositive(n, fine);
      QuantizeCell(n, q, fine);
      if fine == 16 {
        QuantizeCell(n, q - 8, fine);
      }
    }
  }

  /* Relative error: at most 1/32 of n. */
  lemma QuantizeError(n: nat, fine: nat)
    requires (fine == 8 || fine == 16) && n < 0x8000 && (n >= 0x100 || (fine == 8 && n >= 0x80))
    ensures var q := Quantize(n, fine); 0 - n <= 32 * (q - n) <= n
  {
    hide Quantize;
    QuantizeCell(n, n, fine);
  }

  // ---- Levels and cells ----

  /* In segment s both encoders give the middle of a cell its number. */
  lemma LevelCell(v: nat, s: nat, n: nat)
    requires v < 128 && s == v / 16 && n == (v % 16 + 16) * (8 * Pow2(s)) + 4 * Pow2(s)
    ensures n < 0x8000 && UlawCell(n) == v && (s > 0 ==> AlawCell(n) == v && AlawCell(n - 8) == v)
  {
    hide Segment, Pow2, UlawCell, AlawCell;
    var p, c := Pow2(s), v % 16 + 16;
    InsideSegment(c, p, n);
    CellFormula(n, s);
    if s > 0 {
      Pow2Step(s);
      InsideSegment(c, p, n - 8);
      CellFormula(n - 8, s);
    }
  }

  lemma InsideSegment(c: nat, p: nat, n: nat)
    requires 16 <= c < 32 && p > 0 && c * (8 * p) <= n < c * (8 * p) + 8 * p
    ensures 128 * p <= n < 256 * p && n / (8 * p) == c
  {
    MulMonotone(8 * p, 16, c);
    MulMonotone(8 * p, c + 1, 32);
    DivBetween(8 * p, c, n);
  }

  lemma CellFormula(n: nat, s: nat)
    requires s < 8 && 128 * Pow2(s) <= n < 256 * Pow2(s)
    ensures n < 0x8000 && UlawCell(n) == s * 16 + n / (8 * Pow2(s)) % 16
    ensures s > 0 ==> AlawCell(n) == s * 16 + n / (8 * Pow2(s)) % 16
  {
    hide Segment, Pow2;
    SegmentIs(n, s);
    Pow2Add(s, 3);
    SmallPowers();
  }

  lemma SegmentIs(n: nat, s: nat)
    requires s < 8 && 128 * Pow2(s) <= n < 256 * Pow2(s)
    ensures n < 0x8000 && Segment(n) == s
  {
    hide Segment, Pow2;
    PowerTable();
    if n <= 0x7FFF_FFFF {
      SegmentTable(n);
    }
  }

  lemma UlawLevelCell(v: nat)
    requires v < 128
    ensures UlawLevel(v) < 0x8000 && UlawCell(UlawLevel(v)) == v
  {
    hide Pow2, UlawCell;
    LevelMiddle(v % 16 + 16, Pow2(v / 16));
    LevelCell(v, v / 16, UlawLevel(v));
  }

  lemma AlawLevelCell(v: nat)
    requires v < 128
    ensures 8 <= AlawLevel(v) < 0x8000 && AlawCell(AlawLevel(v)) == AlawCell(AlawLevel(v) - 8) == v
  {
    hide Pow2, Segment;
    var n := AlawLevel(v);
    LevelBounds(v);
    if v / 16 == 0 {
      PowerTable();
      SegmentTable(n);
      SegmentTable(n - 8);
    } else {
      hide AlawCell;
      Pow2Step(v / 16);
      LevelMiddle(v % 16 + 16, Pow2(v / 16 - 1));
      LevelCell(v, v / 16, n);
    }
  }
}
