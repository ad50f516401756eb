/**
Bytes seen as rows of bits.  The bit-packing proofs speak about bytes only
through BitOf; this module is the one place where the solver looks inside a
bit-vector.
*/
module Bits {

  type Byte = bv8

  /* Bit j of b, bit 0 being the least significant one. */
  predicate BitOf(b: Byte, j: nat)
    requires j < 8
  {
    (b >> j) & 1 == 1
  }

  /* Only the w low bits of b may be set. */
  predicate Fits(w: nat, b: Byte)
    requires w <= 8
  {
    forall j :: w <= j < 8 ==> !BitOf(b, j)
  }

  /* The uint8_t shift `b <<= k`. */
  function Shl(b: Byte, k: nat): Byte
    requires k <= 8
  {
    b << k
  }

  /* The uint8_t shift `b >>= k`; the promoted int makes a count of 8 give 0. */
  function Shr(b: Byte, k: nat): Byte
    requires k <= 8
  {
    b >> k
  }

  function Or(a: Byte, b: Byte): Byte {
    a | b
  }

  const LOW_MASKS: seq<Byte> := [0, 1, 3, 7, 15, 31, 63, 127, 255]
  const HIGH_MASKS: seq<Byte> := [255, 254, 252, 248, 240, 224, 192, 128]

  /* b & SWITCH_BITPACKED_MASKS[k]. */
  function MaskLow(b: Byte, k: nat): Byte
    requires k <= 8
  {
    b & LOW_MASKS[k]
  }

  /* b & SWITCH_REVERSE_BITPACKED_MASKS[k].  The table ends at index 7; `beyond`
     stands for whatever is read at index 8. */
  function MaskHigh(b: Byte, k: nat, beyond: Byte): Byte
    requires k <= 8
  {
    b & (if k < 8 then HIGH_MASKS[k] else beyond)
  }

  lemma ShlBit(b: Byte, k: nat, j: nat)
    requires k <= 8 && j < 8
    ensures BitOf(Shl(b, k), j) <==> k <= j && BitOf(b, j - k)
  {
    if k == 0 {
    } else if k == 1 {
    } else if k == 2 {
    } else if k == 3 {
    } else if k == 4 {
    } else if k == 5 {
    } else if k == 6 {
    } else if k == 7 {
    } else {
    }
  }

  lemma ShrBit(b: Byte, k: nat, j: nat)
    requires k <= 8 && j < 8
    ensures BitOf(Shr(b, k), j) <==> j + k < 8 && BitOf(b, j + k)
  {
    if k == 0 {
    } else if k == 1 {
    } else if k == 2 {
    } else if k == 3 {
    } else if k == 4 {
    } else if k == 5 {
    } else if k == 6 {
    } else if k == 7 {
    } else {
    }
  }

  lemma OrBit(a: Byte, b: Byte, j: nat)
    requires j < 8
    ensures BitOf(Or(a, b), j) <==> BitOf(a, j) || BitOf(b, j)
  {
    if j == 0 {
    } else if j == 1 {
    } else if j == 2 {
    } else if j == 3 {
    } else if j == 4 {
    } else if j == 5 {
    } else if j == 6 {
    } else {
    }
  }

  /* MaskLow keeps the k low bits. */
  lemma MaskLowBit(b: Byte, k: nat, j: nat)
    requires k <= 8 && j < 8
    ensures BitOf(MaskLow(b, k), j) <==> j < k && BitOf(b, j)
  {
    if k == 0 {
    } else if k == 1 {
    } else if k == 2 {
    } else if k == 3 {
    } else if k == 4 {
    } else if k == 5 {
    } else if k == 6 {
    } else if k == 7 {
    } else {
    }
  }

  lemma ZeroBits()
    ensures forall j :: 0 <= j < 8 ==> !BitOf(0, j)
  {
  }

  lemma OrZero(b: Byte)
    ensures Or(0, b) == b
  {
  }

  lemma OrNothing(b: Byte)
    ensures Or(b, 0) == b
  {
  }

  lemma ShlZero(k: nat)
    requires k <= 8
    ensures Shl(0, k) == 0
  {
  }

  /* Masking off the low bits before shifting them out changes nothing; a count
     of 8 shifts everything out, whatever was read beyond the table. */
  lemma ShrMaskHigh(b: Byte, k: nat, beyond: Byte)
    requires k <= 8
    ensures Shr(MaskHigh(b, k, beyond), k) == Shr(b, k)
  {
    if k == 0 {
    } else if k == 1 {
    } else if k == 2 {
    } else if k == 3 {
    } else if k == 4 {
    } else if k == 5 {
    } else if k == 6 {
    } else if k == 7 {
    } else {
    }
  }

  /* A byte that fits into no bits is zero. */
  lemma FitsNone(b: Byte)
    requires Fits(0, b)
    ensures b == 0
  {
    ZeroBits();
    SameBits(b, 0);
  }

  lemma SameBits(a: Byte, b: Byte)
    requires forall j :: 0 <= j < 8 ==> (BitOf(a, j) <==> BitOf(b, j))
    ensures a == b
  {
    assert BitOf(a, 0) == BitOf(b, 0) && BitOf(a, 1) == BitOf(b, 1);
    assert BitOf(a, 2) == BitOf(b, 2) && BitOf(a, 3) == BitOf(b, 3);
    assert BitOf(a, 4) == BitOf(b, 4) && BitOf(a, 5) == BitOf(b, 5);
    assert BitOf(a, 6) == BitOf(b, 6) && BitOf(a, 7) == BitOf(b, 7);
  }

  /* What bit j contributes to the value of b, p being 2^j. */
  function Part(b: Byte, j: nat, p: nat): nat
    requires j < 8
  {
    if BitOf(b, j) then p else 0
  }

  /* The number that the bits of b stand for. */
  function Weight(b: Byte): nat {
    Part(b, 0, 1) + Part(b, 1, 2) + Part(b, 2, 4) + Part(b, 3, 8) +
    Part(b, 4, 16) + Part(b, 5, 32) + Part(b, 6, 64) + Part(b, 7, 128)
  }

  lemma ByteValue(b: Byte)
    ensures b as int == Weight(b)
  {
  }
}
