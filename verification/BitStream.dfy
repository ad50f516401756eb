/**
The bit streams that the packer and the unpacker of switch_bitpack.h cut up.
A codeword of w bits contributes w bits to the stream, in the order that the
mode prescribes; a byte is a codeword of 8 bits.  Packing and unpacking are
then one operation: cutting the same stream into words of another width.
*/
module BitStream {
  import opened Bits

  datatype Mode = RFC3551 | AAL2

  ghost function Reverse(s: seq<bool>): (r: seq<bool>)
    ensures |r| == |s| && forall i :: 0 <= i < |s| ==> r[i] == s[|s| - 1 - i]
  {
    seq(|s|, i requires 0 <= i < |s| => s[|s| - 1 - i])
  }

  /* The w low bits of c, least significant first. */
  ghost function Low(w: nat, c: Byte): (s: seq<bool>)
    requires w <= 8
    ensures |s| == w && forall i :: 0 <= i < w ==> s[i] == BitOf(c, i)
  {
    seq(w, i requires 0 <= i < w => BitOf(c, i))
  }

  /* The w bits of codeword c in transmission order: least significant first
     in section 4.5.4 of RFC 3551, most significant first in Annex E of ITU-T
     Recommendation I.366.2. */
  ghost function Code(mode: Mode, w: nat, c: Byte): (s: seq<bool>)
    requires w <= 8
    ensures |s| == w
  {
    if mode.RFC3551? then Low(w, c) else Reverse(Low(w, c))
  }

  ghost function Stream(mode: Mode, w: nat, cs: seq<Byte>): (s: seq<bool>)
    requires w <= 8
  {
    if cs == [] then []
    else Stream(mode, w, cs[..|cs| - 1]) + Code(mode, w, cs[|cs| - 1])
  }

  ghost predicate AllFit(w: nat, cs: seq<Byte>)
    requires w <= 8
  {
    forall i :: 0 <= i < |cs| ==> Fits(w, cs[i])
  }

  ghost function Zeros(n: nat): (s: seq<bool>)
    ensures |s| == n && forall i :: 0 <= i < n ==> !s[i]
  {
    seq(n, i => false)
  }

  /* bytes is the packing of the codewords cs: their stream, filled up with
     zeros to the next byte boundary. */
  ghost predicate IsPacking(mode: Mode, w: nat, cs: seq<Byte>, bytes: seq<Byte>)
    requires w <= 8
  {
    var s, t := Stream(mode, w, cs), Stream(mode, 8, bytes);
    |s| <= |t| < |s| + 8 && t == s + Zeros(|t| - |s|)
  }

  /* cells is what unpacking bytes gives: every whole codeword of their stream. */
  ghost predicate IsUnpacking(mode: Mode, w: nat, bytes: seq<Byte>, cells: seq<Byte>)
    requires w <= 8
  {
    var s, t := Stream(mode, w, cells), Stream(mode, 8, bytes);
    AllFit(w, cells) && s <= t && |t| < |s| + w
  }

  // ---- Operations on one codeword ----

  /* Adding a w-bit codeword to a byte that already holds p bits. */
  function Join(mode: Mode, p: nat, w: nat, b: Byte, c: Byte): Byte
    requires p + w <= 8
  {
    if mode.RFC3551? then Or(b, Shl(c, p)) else Or(Shl(b, w), c)
  }

  /* The first k bits, in transmission order, of a w-bit codeword. */
  function Head(mode: Mode, w: nat, k: nat, c: Byte): Byte
    requires k <= w <= 8
  {
    if mode.RFC3551? then MaskLow(c, k) else Shr(c, w - k)
  }

  /* The bits after the first k. */
  function Tail(mode: Mode, w: nat, k: nat, c: Byte): Byte
    requires k <= w <= 8
  {
    if mode.RFC3551? then Shr(c, k) else MaskLow(c, w - k)
  }

  lemma LowJoin(p: nat, w: nat, b: Byte, c: Byte)
    requires p + w <= 8
    requires Fits(p, b) && Fits(w, c)
    ensures Fits(p + w, Or(b, Shl(c, p)))
    ensures Low(p + w, Or(b, Shl(c, p))) == Low(p, b) + Low(w, c)
  {
    hide Or, Shl, BitOf, Low;
    var r := Or(b, Shl(c, p));
    forall j | 0 <= j < 8
      ensures BitOf(r, j) <==> if j < p then BitOf(b, j) else BitOf(c, j - p)
    {
      OrBit(b, Shl(c, p), j);
      ShlBit(c, p, j);
    }
  }

  lemma LowSplit(w: nat, k: nat, c: Byte)
    requires k <= w <= 8 && Fits(w, c)
    ensures Fits(k, MaskLow(c, k)) && Low(k, MaskLow(c, k)) == Low(w, c)[..k]
    ensures Fits(w - k, Shr(c, k)) && Low(w - k, Shr(c, k)) == Low(w, c)[k..]
  {
    hide MaskLow, Shr, BitOf, Low;
    var h, t := MaskLow(c, k), Shr(c, k);
    forall j | 0 <= j < 8
      ensures BitOf(h, j) <==> j < k && BitOf(c, j)
    {
      MaskLowBit(c, k, j);
    }
    forall j | 0 <= j < 8
      ensures BitOf(t, j) <==> j + k < w && BitOf(c, j + k)
    {
      ShrBit(c, k, j);
    }
  }

  lemma ReverseConcat(s: seq<bool>, t: seq<bool>)
    ensures Reverse(s + t) == Reverse(t) + Reverse(s)
  {
  }

  lemma JoinCode(mode: Mode, p: nat, w: nat, b: Byte, c: Byte)
    requires p + w <= 8
    requires Fits(p, b) && Fits(w, c)
    ensures Fits(p + w, Join(mode, p, w, b, c))
    ensures Code(mode, p + w, Join(mode, p, w, b, c)) == Code(mode, p, b) + Code(mode, w, c)
  {
    hide Or, Shl, BitOf, Low, Fits, Reverse;
    if mode.RFC3551? {
      LowJoin(p, w, b, c);
    } else {
      LowJoin(w, p, c, b);
      OrCommutes(c, Shl(b, w));
      ReverseConcat(Low(w, c), Low(p, b));
    }
  }

  lemma HeadTailCode(mode: Mode, w: nat, k: nat, c: Byte)
    requires k <= w <= 8 && Fits(w, c)
    ensures Fits(k, Head(mode, w, k, c)) && Fits(w - k, Tail(mode, w, k, c))
    ensures Code(mode, w, c) == Code(mode, k, Head(mode, w, k, c)) + Code(mode, w - k, Tail(mode, w, k, c))
  {
    hide MaskLow, Shr, BitOf, Low, Fits, Reverse;
    if mode.RFC3551? {
      LowSplit(w, k, c);
    } else {
      LowSplit(w, w - k, c);
      assert Low(w, c) == Low(w, c)[..w - k] + Low(w, c)[w - k..];
      ReverseConcat(Low(w, c)[..w - k], Low(w, c)[w - k..]);
    }
  }

  lemma OrCommutes(a: Byte, b: Byte)
    ensures Or(a, b) == Or(b, a)
  {
  }

  lemma CodeInjective(mode: Mode, w: nat, a: Byte, b: Byte)
    requires w <= 8 && Fits(w, a) && Fits(w, b)
    requires Code(mode, w, a) == Code(mode, w, b)
    ensures a == b
  {
    hide BitOf, Low, Reverse;
    forall j | 0 <= j < 8
      ensures BitOf(a, j) <==> BitOf(b, j)
    {
      if j < w {
        var i := if mode.RFC3551? then j else w - 1 - j;
        assert Code(mode, w, a)[i] == Code(mode, w, b)[i];
      }
    }
    SameBits(a, b);
  }
}
