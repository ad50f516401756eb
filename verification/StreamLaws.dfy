/**
What packing and unpacking mean, for every width, mode and stream: the round
trip, the duality of the two modes and the number a packed buffer stands for.
*/
module StreamLaws {
  import opened Bits
  import opened BitStream
  import opened Powers

  // ---- Streams determine their codewords ----

  lemma StreamAppend(mode: Mode, w: nat, cs: seq<Byte>, c: Byte)
    requires w <= 8
    ensures Stream(mode, w, cs + [c]) == Stream(mode, w, cs) + Code(mode, w, c)
  {
    assert (cs + [c])[..|cs|] == cs;
  }

  lemma {:induction false} StreamLength(mode: Mode, w: nat, cs: seq<Byte>)
    requires w <= 8
    ensures |Stream(mode, w, cs)| == w * |cs|
  {
    if cs != [] {
      StreamLength(mode, w, cs[..|cs| - 1]);
      assert w * |cs| == w * (|cs| - 1) + w;
    }
  }

  lemma {:induction false} StreamConcat(mode: Mode, w: nat, xs: seq<Byte>, ys: seq<Byte>)
    requires w <= 8
    ensures Stream(mode, w, xs + ys) == Stream(mode, w, xs) + Stream(mode, w, ys)
  {
    hide Code;
    if ys == [] {
      assert xs + ys == xs;
    } else {
      var n := |ys| - 1;
      StreamConcat(mode, w, xs, ys[..n]);
      assert xs + ys == (xs + ys[..n]) + [ys[n]] && ys == ys[..n] + [ys[n]];
      hide Stream;
      StreamAppend(mode, w, xs + ys[..n], ys[n]);
      StreamAppend(mode, w, ys[..n], ys[n]);
    }
  }

  lemma {:induction false} StreamInjective(mode: Mode, w: nat, xs: seq<Byte>, ys: seq<Byte>)
    requires w <= 8 && |xs| == |ys| && AllFit(w, xs) && AllFit(w, ys)
    requires Stream(mode, w, xs) == Stream(mode, w, ys)
    ensures xs == ys
  {
    hide Code, Fits;
    if xs != [] {
      var n := |xs| - 1;
      var s, t := Stream(mode, w, xs[..n]), Stream(mode, w, ys[..n]);
      var c, d := Code(mode, w, xs[n]), Code(mode, w, ys[n]);
      assert |s| == |t| by { StreamLength(mode, w, xs[..n]); StreamLength(mode, w, ys[..n]); }
      assert s == (s + c)[..|s|] == (t + d)[..|t|] == t;
      assert c == (s + c)[|s|..] == (t + d)[|t|..] == d;
      CodeInjective(mode, w, xs[n], ys[n]);
      StreamInjective(mode, w, xs[..n], ys[..n]);
      assert xs == xs[..n] + [xs[n]] && ys == ys[..n] + [ys[n]];
    }
  }

  lemma {:induction false} StreamOfZeros(mode: Mode, w: nat, zs: seq<Byte>)
    requires w <= 8
    requires forall i :: 0 <= i < |zs| ==> zs[i] == 0
    ensures forall i :: 0 <= i < |Stream(mode, w, zs)| ==> !Stream(mode, w, zs)[i]
  {
    if zs != [] {
      StreamOfZeros(mode, w, zs[..|zs| - 1]);
      CodeOfZero(mode, w);
    }
  }

  lemma CodeOfZero(mode: Mode, w: nat)
    requires w <= 8
    ensures Code(mode, w, 0) == Zeros(w)
  {
    ZeroBits();
  }

  // ---- Cutting the stream elsewhere ----

  /* The words `front` of width v, and then p bits in the word x, hold the
     bits s. */
  ghost predicate Holds(mode: Mode, v: nat, front: seq<Byte>, p: nat, x: Byte, s: seq<bool>)
    requires v <= 8 && p <= 8
  {
    && AllFit(v, front) && Fits(p, x)
    && Stream(mode, v, front) + Code(mode, p, x) == s
  }

  lemma HoldsNothing(mode: Mode, v: nat)
    requires v <= 8
    ensures Holds(mode, v, [], 0, 0, [])
  {
    ZeroFits(0);
  }

  lemma HoldsLength(mode: Mode, v: nat, front: seq<Byte>, p: nat, x: Byte, s: seq<bool>)
    requires v <= 8 && p <= 8 && Holds(mode, v, front, p, x, s)
    ensures |s| == v * |front| + p
  {
    StreamLength(mode, v, front);
  }

  /* What is held determines the words that hold it. */
  lemma HoldsInjective(mode: Mode, v: nat, front: seq<Byte>, p: nat, x: Byte,
                       front': seq<Byte>, x': Byte, s: seq<bool>)
    requires v <= 8 && p <= 8 && |front| == |front'|
    requires Holds(mode, v, front, p, x, s) && Holds(mode, v, front', p, x', s)
    ensures front == front' && x == x'
  {
    hide Code, Stream, Fits;
    var t, t' := Stream(mode, v, front), Stream(mode, v, front');
    assert |t| == |t'| by { StreamLength(mode, v, front); StreamLength(mode, v, front'); }
    assert t == s[..|t|] == t';
    assert Code(mode, p, x) == s[|t|..] == Code(mode, p, x');
    StreamInjective(mode, v, front, front');
    CodeInjective(mode, p, x, x');
  }

  /* A word that is full joins the front. */
  lemma Advance(mode: Mode, v: nat, front: seq<Byte>, x: Byte, s: seq<bool>)
    requires v <= 8 && Holds(mode, v, front, v, x, s)
    ensures Holds(mode, v, front + [x], 0, 0, s)
  {
    hide Code, Stream, Fits;
    ZeroFits(0);
    StreamAppend(mode, v, front, x);
    assert Code(mode, 0, 0) == [];
  }

  /* A codeword that fits into the word x, which holds p bits. */
  lemma FillStep(mode: Mode, v: nat, front: seq<Byte>, p: nat, x: Byte, s: seq<bool>, w: nat, c: Byte)
    requires v <= 8 && p + w <= 8 && Fits(w, c)
    requires Holds(mode, v, front, p, x, s)
    ensures Holds(mode, v, front, p + w, Join(mode, p, w, x, c), s + Code(mode, w, c))
  {
    hide Code, Stream, Fits, Join;
    JoinCode(mode, p, w, x, c);
  }

  /* A codeword that completes the byte x and starts the next one. */
  lemma SpillStep(mode: Mode, front: seq<Byte>, p: nat, x: Byte, s: seq<bool>, w: nat, c: Byte)
    requires p < 8 && w <= 8 < p + w && Fits(w, c)
    requires Holds(mode, 8, front, p, x, s)
    ensures var r := 8 - p;
            Holds(mode, 8, front + [Join(mode, p, r, x, Head(mode, w, r, c))], w - r, Tail(mode, w, r, c),
                  s + Code(mode, w, c))
  {
    hide Code, Stream, Fits, Join, Head, Tail;
    var r := 8 - p;
    var x' := Join(mode, p, r, x, Head(mode, w, r, c));
    HeadTailCode(mode, w, r, c);
    JoinCode(mode, p, r, x, Head(mode, w, r, c));
    StreamAppend(mode, 8, front, x');
    ByteFits(x');
  }

  /* The w bits of the byte b that follow its first i bits. */
  function Slice(mode: Mode, b: Byte, i: nat, w: nat): Byte
    requires i + w <= 8
  {
    if mode.RFC3551? then MaskLow(Shr(b, i), w) else MaskLow(Shr(b, 8 - (i + w)), w)
  }

  lemma SliceCode(mode: Mode, b: Byte, i: nat, w: nat)
    requires i + w <= 8
    ensures Fits(w, Slice(mode, b, i, w))
    ensures Code(mode, w, Slice(mode, b, i, w)) == Code(mode, 8, b)[i..i + w]
  {
    hide Code, Fits, MaskLow, Shr;
    ByteFits(b);
    if mode.RFC3551? {
      HeadTailCode(mode, 8, i, b);
      HeadTailCode(mode, 8 - i, w, Tail(mode, 8, i, b));
    } else {
      HeadTailCode(mode, 8, i + w, b);
      HeadTailCode(mode, i + w, i, Head(mode, 8, i + w, b));
    }
  }

  // ---- The round trip ----

  /* Unpacking a packed stream gives the codewords back, in order; what little
     padding then still fills whole codewords reads as zeros. */
  lemma RoundTrip(mode: Mode, w: nat, cs: seq<Byte>, bytes: seq<Byte>, cells: seq<Byte>)
    requires 1 <= w <= 8 && AllFit(w, cs)
    requires IsPacking(mode, w, cs, bytes)
    requires IsUnpacking(mode, w, bytes, cells)
    ensures |cs| <= |cells|
    ensures cells == cs + seq(|cells| - |cs|, i => 0)
    ensures w * (|cells| - |cs|) < 8
  {
    hide Code, Stream, Fits;
    var n, m := |cs|, |cells|;
    var pad: seq<Byte> := seq(if n <= m then m - n else 0, i => 0);
    RoundTripCount(mode, w, cs, bytes, cells);
    StreamConcat(mode, w, cs, pad);
    StreamOfZeros(mode, w, pad);
    StreamLength(mode, w, cs + pad);
    StreamLength(mode, w, cells);
    assert Stream(mode, w, cells) == Stream(mode, w, cs + pad);
    assert AllFit(w, cs + pad) by { ZeroFits(w); }
    StreamInjective(mode, w, cells, cs + pad);
  }

  lemma RoundTripCount(mode: Mode, w: nat, cs: seq<Byte>, bytes: seq<Byte>, cells: seq<Byte>)
    requires 1 <= w <= 8
    requires IsPacking(mode, w, cs, bytes)
    requires IsUnpacking(mode, w, bytes, cells)
    ensures |cs| <= |cells|
    ensures w * (|cells| - |cs|) < 8
  {
    hide Code, Stream, Fits;
    StreamLength(mode, w, cs);
    StreamLength(mode, w, cells);
    MulCancel(w, |cs|, |cells| + 1);
    assert w * (|cells| - |cs|) == w * |cells| - w * |cs|;
  }

  lemma ZeroFits(w: nat)
    requires w <= 8
    ensures Fits(w, 0)
  {
    ZeroBits();
  }

  lemma ByteFits(b: Byte)
    ensures Fits(8, b)
  {
  }

  /* Both predicates pin the data down: there is one packing of cs and one
     unpacking of bytes, and its length is the number of whole codewords. */
  lemma PackingUnique(mode: Mode, w: nat, cs: seq<Byte>, xs: seq<Byte>, ys: seq<Byte>)
    requires w <= 8
    requires IsPacking(mode, w, cs, xs) && IsPacking(mode, w, cs, ys)
    ensures xs == ys
    ensures |xs| == (w * |cs| + 7) / 8
  {
    hide Code, Stream;
    StreamLength(mode, w, cs);
    StreamLength(mode, 8, xs);
    StreamLength(mode, 8, ys);
    StreamInjective(mode, 8, xs, ys);
  }

  lemma UnpackingUnique(mode: Mode, w: nat, bytes: seq<Byte>, xs: seq<Byte>, ys: seq<Byte>)
    requires 1 <= w <= 8
    requires IsUnpacking(mode, w, bytes, xs) && IsUnpacking(mode, w, bytes, ys)
    ensures xs == ys
    ensures |xs| == 8 * |bytes| / w
  {
    hide Code, Stream, Fits;
    StreamLength(mode, 8, bytes);
    StreamLength(mode, w, xs);
    StreamLength(mode, w, ys);
    DivBetween(w, |xs|, 8 * |bytes|);
    DivBetween(w, |ys|, 8 * |bytes|);
    StreamInjective(mode, w, xs, ys);
  }

  // ---- The two modes mirror each other ----

  /* c with its w low bits in reverse order. */
  function Mirror(w: nat, c: Byte): (r: Byte)
    requires w <= 8
  {
    MirrorFrom(w, c, w)
  }

  function MirrorFrom(w: nat, c: Byte, k: nat): (r: Byte)
    requires k <= w <= 8
    ensures forall j :: 0 <= j < 8 ==> (BitOf(r, j) <==> j < k && BitOf(c, w - 1 - j))
  {
    if k == 0 then ZeroBits(); 0
    else
      var r := MirrorFrom(w, c, k - 1);
      if BitOf(c, w - k) then SetBit(r, k - 1); Or(r, Shl(1, k - 1)) else r
  }

  lemma SetBit(r: Byte, k: nat)
    requires k < 8
    ensures forall j :: 0 <= j < 8 ==> (BitOf(Or(r, Shl(1, k)), j) <==> j == k || BitOf(r, j))
  {
    hide Or, Shl;
    forall j | 0 <= j < 8
      ensures BitOf(Or(r, Shl(1, k)), j) <==> j == k || BitOf(r, j)
    {
      OrBit(r, Shl(1, k), j);
      ShlBit(1, k, j);
    }
  }

  function MirrorAll(w: nat, cs: seq<Byte>): (r: seq<Byte>)
    requires w <= 8
    ensures |r| == |cs|
  {
    seq(|cs|, i requires 0 <= i < |cs| => Mirror(w, cs[i]))
  }

  lemma MirrorCode(w: nat, c: Byte)
    requires w <= 8
    ensures Fits(w, Mirror(w, c))
    ensures Code(AAL2, w, c) == Code(RFC3551, w, Mirror(w, c))
  {
    hide BitOf, Low, Reverse, MirrorFrom;
  }

  lemma MirrorTwice(w: nat, c: Byte)
    requires w <= 8 && Fits(w, c)
    ensures Mirror(w, Mirror(w, c)) == c
  {
    hide BitOf, MirrorFrom;
    SameBits(Mirror(w, Mirror(w, c)), c);
  }

  lemma {:induction false} MirrorStream(w: nat, cs: seq<Byte>)
    requires w <= 8
    ensures Stream(AAL2, w, cs) == Stream(RFC3551, w, MirrorAll(w, cs))
  {
    hide Code, Mirror;
    if cs != [] {
      var n := |cs| - 1;
      MirrorStream(w, cs[..n]);
      MirrorCode(w, cs[n]);
      assert MirrorAll(w, cs)[..n] == MirrorAll(w, cs[..n]);
    }
  }

  /* AAL2-packing is, byte for byte and padding included, the mirror image of
     RFC3551-packing the mirrored codewords. */
  lemma ModeDuality(w: nat, cs: seq<Byte>, bytes: seq<Byte>)
    requires w <= 8
    ensures IsPacking(AAL2, w, cs, bytes) <==>
            IsPacking(RFC3551, w, MirrorAll(w, cs), MirrorAll(8, bytes))
  {
    hide Code, Stream, MirrorAll;
    MirrorStream(w, cs);
    MirrorStream(8, bytes);
  }

  /* And the other way round, for codewords of the right width. */
  lemma ModeDualityBack(w: nat, cs: seq<Byte>, bytes: seq<Byte>)
    requires w <= 8 && AllFit(w, cs)
    ensures IsPacking(RFC3551, w, cs, bytes) <==>
            IsPacking(AAL2, w, MirrorAll(w, cs), MirrorAll(8, bytes))
  {
    hide IsPacking, Mirror;
    BytesFit(bytes);
    MirrorAllTwice(w, cs);
    MirrorAllTwice(8, bytes);
    ModeDuality(w, MirrorAll(w, cs), MirrorAll(8, bytes));
  }

  lemma MirrorAllTwice(w: nat, cs: seq<Byte>)
    requires w <= 8 && AllFit(w, cs)
    ensures MirrorAll(w, MirrorAll(w, cs)) == cs
  {
    hide Mirror, Fits;
    forall i | 0 <= i < |cs|
      ensures MirrorAll(w, MirrorAll(w, cs))[i] == cs[i]
    {
      MirrorTwice(w, cs[i]);
    }
  }

  // ---- A packed buffer as a number ----

  /* The sum of cs[i] * 2^(i * w). */
  function LittleEndian(w: nat, cs: seq<Byte>): nat {
    if cs == [] then 0
    else LittleEndian(w, cs[..|cs| - 1]) + cs[|cs| - 1] as int * Pow2(w * (|cs| - 1))
  }

  /* The numeral whose base-2^w digits are cs, most significant digit first. */
  function BigEndian(w: nat, cs: seq<Byte>): nat {
    if cs == [] then 0
    else BigEndian(w, cs[..|cs| - 1]) * Pow2(w) + cs[|cs| - 1] as int
  }

  ghost function BitValue(b: bool): nat { if b then 1 else 0 }

  /* Bits as a number, first bit least significant, and first bit most
     significant. */
  ghost function LowFirst(s: seq<bool>): nat {
    if s == [] then 0 else LowFirst(s[..|s| - 1]) + BitValue(s[|s| - 1]) * Pow2(|s| - 1)
  }

  ghost function HighFirst(s: seq<bool>): nat {
    if s == [] then 0 else 2 * HighFirst(s[..|s| - 1]) + BitValue(s[|s| - 1])
  }

  lemma {:induction false} LowFirstConcat(s: seq<bool>, t: seq<bool>)
    ensures LowFirst(s + t) == LowFirst(s) + Pow2(|s|) * LowFirst(t)
  {
    hide Pow2;
    if t == [] {
      assert s + t == s;
    } else {
      var n := |t| - 1;
      var b := BitValue(t[n]);
      LowFirstConcat(s, t[..n]);
      assert (s + t)[..|s| + n] == s + t[..n];
      Pow2Add(|s|, n);
      MulShuffle(Pow2(|s|), LowFirst(t[..n]), b, Pow2(n));
    }
  }

  lemma MulShuffle(p: nat, x: nat, b: nat, q: nat)
    ensures p * (x + b * q) == p * x + b * (p * q)
  {
  }

  lemma {:induction false} HighFirstConcat(s: seq<bool>, t: seq<bool>)
    ensures HighFirst(s + t) == HighFirst(s) * Pow2(|t|) + HighFirst(t)
  {
    if t == [] {
      assert s + t == s;
    } else {
      var n := |t| - 1;
      HighFirstConcat(s, t[..n]);
      assert (s + t)[..|s| + n] == s + t[..n];
      assert 2 * (HighFirst(s) * Pow2(n)) == HighFirst(s) * (2 * Pow2(n));
    }
  }

  lemma {:induction false} HighFirstReverse(s: seq<bool>)
    ensures HighFirst(Reverse(s)) == LowFirst(s)
  {
    if s == [] {
      assert Reverse(s) == [];
    } else {
      var n := |s| - 1;
      HighFirstReverse(s[..n]);
      assert s == s[..n] + [s[n]];
      ReverseConcat(s[..n], [s[n]]);
      assert Reverse([s[n]]) == [s[n]];
      HighFirstConcat([s[n]], Reverse(s[..n]));
      assert [s[n]][..0] == [];
    }
  }

  lemma {:induction false} ZerosValue(n: nat)
    ensures LowFirst(Zeros(n)) == HighFirst(Zeros(n)) == 0
  {
    if n > 0 {
      ZerosValue(n - 1);
      assert Zeros(n)[..n - 1] == Zeros(n - 1);
    }
  }

  /* A codeword that fits into w bits is the number its w bits stand for. */
  lemma CodeValue(w: nat, c: Byte)
    requires w <= 8 && Fits(w, c)
    ensures LowFirst(Code(RFC3551, w, c)) == c as int
    ensures HighFirst(Code(AAL2, w, c)) == c as int
  {
    hide BitOf, Low, Reverse;
    LowValue(c);
    assert Low(8, c) == Low(w, c) + Zeros(8 - w);
    LowFirstConcat(Low(w, c), Zeros(8 - w));
    ZerosValue(8 - w);
    HighFirstReverse(Low(w, c));
  }

  lemma LowValue(c: Byte)
    ensures LowFirst(Low(8, c)) == c as int
  {
    hide Weight, Low, LowFirst;
    LowWeight(c);
    ByteValue(c);
  }

  lemma LowWeight(c: Byte)
    ensures LowFirst(Low(8, c)) == Weight(c)
  {
    hide Part, Low, Pow2, LowFirst;
    SmallPowers();
    NoBits(c);
    LowStep(c, 0, 1); LowStep(c, 1, 2); LowStep(c, 2, 4); LowStep(c, 3, 8);
    LowStep(c, 4, 16); LowStep(c, 5, 32); LowStep(c, 6, 64); LowStep(c, 7, 128);
  }

  lemma NoBits(c: Byte)
    ensures LowFirst(Low(0, c)) == 0
  {
  }

  lemma LowStep(c: Byte, k: nat, p: nat)
    requires k < 8 && p == Pow2(k)
    ensures LowFirst(Low(k + 1, c)) == LowFirst(Low(k, c)) + Part(c, k, p)
  {
    hide BitOf, Low;
    assert Low(k + 1, c)[..k] == Low(k, c);
  }

  lemma {:induction false} StreamLowFirst(w: nat, cs: seq<Byte>)
    requires w <= 8 && AllFit(w, cs)
    ensures LowFirst(Stream(RFC3551, w, cs)) == LittleEndian(w, cs)
  {
    hide Code, Fits, Pow2, LowFirst;
    if cs == [] {
      assert LowFirst([]) == 0 by { ZerosValue(0); assert Zeros(0) == []; }
    } else {
      var n := |cs| - 1;
      var s, c := Stream(RFC3551, w, cs[..n]), Code(RFC3551, w, cs[n]);
      StreamLowFirst(w, cs[..n]);
      LowFirstConcat(s, c);
      calc {
        LowFirst(s + c);
        LowFirst(s) + Pow2(|s|) * LowFirst(c);
        { MulCommutes(Pow2(|s|), LowFirst(c)); }
        LowFirst(s) + LowFirst(c) * Pow2(|s|);
        { CodeValue(w, cs[n]); StreamLength(RFC3551, w, cs[..n]); }
        LittleEndian(w, cs[..n]) + cs[n] as int * Pow2(w * n);
      }
    }
  }

  lemma {:induction false} StreamHighFirst(w: nat, cs: seq<Byte>)
    requires w <= 8 && AllFit(w, cs)
    ensures HighFirst(Stream(AAL2, w, cs)) == BigEndian(w, cs)
  {
    hide Code, Fits;
    if cs != [] {
      var n := |cs| - 1;
      StreamHighFirst(w, cs[..n]);
      HighFirstConcat(Stream(AAL2, w, cs[..n]), Code(AAL2, w, cs[n]));
      CodeValue(w, cs[n]);
    }
  }

  /* An RFC3551 buffer, read as one little-endian number, is the sum of its
     codewords, the i-th one weighted by 2^(i * w). */
  lemma PackedLittleEndian(w: nat, cs: seq<Byte>, bytes: seq<Byte>)
    requires w <= 8 && AllFit(w, cs)
    requires IsPacking(RFC3551, w, cs, bytes)
    ensures LittleEndian(8, bytes) == LittleEndian(w, cs)
  {
    hide Code, Stream, LittleEndian, LowFirst;
    BytesFit(bytes);
    StreamLowFirst(w, cs);
    StreamLowFirst(8, bytes);
    var s, t := Stream(RFC3551, w, cs), Stream(RFC3551, 8, bytes);
    LowFirstConcat(s, Zeros(|t| - |s|));
    ZerosValue(|t| - |s|);
  }

  /* An AAL2 buffer, read as one big-endian number, is the numeral of its
     codewords shifted left past the padding. */
  lemma PackedBigEndian(w: nat, cs: seq<Byte>, bytes: seq<Byte>)
    requires w <= 8 && AllFit(w, cs)
    requires IsPacking(AAL2, w, cs, bytes)
    ensures w * |cs| <= 8 * |bytes|
    ensures BigEndian(8, bytes) == BigEndian(w, cs) * Pow2(8 * |bytes| - w * |cs|)
  {
    hide Code, Stream, BigEndian, HighFirst;
    BytesFit(bytes);
    StreamHighFirst(w, cs);
    StreamHighFirst(8, bytes);
    StreamLength(AAL2, w, cs);
    StreamLength(AAL2, 8, bytes);
    var s, t := Stream(AAL2, w, cs), Stream(AAL2, 8, bytes);
    HighFirstConcat(s, Zeros(|t| - |s|));
    ZerosValue(|t| - |s|);
  }

  lemma BytesFit(bytes: seq<Byte>)
    ensures AllFit(8, bytes)
  {
  }
}
