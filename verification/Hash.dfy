/**
The two string hashes of switch_hashtable.h and the key comparisons that go
with them.
*/
module Hash {
  import opened CInt
  import opened CString
  import opened Swar

  const BASE: nat := 65599

  function BasePow(n: nat): nat {
    if n == 0 then 1 else BASE * BasePow(n - 1)
  }

  /* The sum of s[i] * 65599^(|s| - 1 - i). */
  function PolySum(s: seq<Octet>): nat {
    if s == [] then 0 else s[0] * BasePow(|s| - 1) + PolySum(s[1..])
  }

  /* switch_hash_default, as the polynomial it computes. */
  function HashOf(s: seq<Octet>): Uint32 {
    ToUint32(PolySum(s))
  }

  lemma {:induction false} PolyConcat(s: seq<Octet>, t: seq<Octet>)
    ensures PolySum(s + t) == PolySum(s) * BasePow(|t|) + PolySum(t)
  {
    if s == [] {
      assert s + t == t;
    } else {
      PolyConcat(s[1..], t);
      assert (s + t)[1..] == s[1..] + t;
      PowAdd(|s| - 1, |t|);
      MulDistribute(s[0], BasePow(|s| - 1), PolySum(s[1..]), BasePow(|t|));
    }
  }

  lemma {:induction false} PowAdd(m: nat, n: nat)
    ensures BasePow(m + n) == BasePow(m) * BasePow(n)
  {
    if m > 0 {
      PowAdd(m - 1, n);
    }
  }

  lemma MulDistribute(c: nat, p: nat, s: nat, q: nat)
    ensures (c * p + s) * q == c * (p * q) + s * q
  {
  }

  /* The hash of a concatenation depends on the parts through their hashes. */
  lemma HashConcat(s: seq<Octet>, t: seq<Octet>)
    ensures HashOf(s + t) == ToUint32(HashOf(s) * BasePow(|t|) + HashOf(t))
  {
    hide PolySum, BasePow, ToUint32;
    PolyConcat(s, t);
    WrapProduct(PolySum(s), BasePow(|t|), PolySum(t));
  }

  lemma WrapProduct(a: nat, p: nat, b: nat)
    ensures ToUint32(a * p + b) == ToUint32(ToUint32(a) * p + ToUint32(b))
  {
    var q, r := a / P32, b / P32;
    var m, n := a % P32, b % P32;
    assert a * p == m * p + q * p * P32 by { assert (m + q * P32) * p == m * p + q * p * P32; }
    WrapMultiple(m * p + n, q * p + r);
  }

  lemma WrapMultiple(n: nat, m: nat)
    ensures ToUint32(n + m * P32) == ToUint32(n)
  {
  }

  /* c + (hash << 6) + (hash << 16) - hash, in uint32_t. */
  function ShiftAdd(c: nat, hash: Uint32): Uint32 {
    ToUint32(c + ToUint32(hash * 64) + ToUint32(hash * 65536) - hash)
  }

  lemma OneLetter(c: Octet)
    ensures PolySum([c]) == c && BasePow(1) == BASE && ToUint32(c) == c
  {
    assert [c][1..] == [];
  }

  lemma EmptyHash()
    ensures HashOf([]) == 0
  {
  }

  lemma ShiftAddStep(s: seq<Octet>, c: Octet)
    ensures ShiftAdd(c, HashOf(s)) == HashOf(s + [c])
  {
    hide PolySum, BasePow, ToUint32, ShiftAdd;
    PolyConcat(s, [c]);
    OneLetter(c);
    WrapProduct(PolySum(s), BASE, c);
    ShiftAddIs(c, HashOf(s));
  }

  lemma ShiftAddIs(c: nat, h: Uint32)
    ensures ShiftAdd(c, h) == ToUint32(h * BASE + c)
  {
    var q, r := h * 64 / P32, h * 65536 / P32;
    assert ToUint32(h * 64) == h * 64 - q * P32;
    assert ToUint32(h * 65536) == h * 65536 - r * P32;
    WrapAny(c + h * BASE, 0 - q - r);
  }

  /* The hash is 0 for no characters, and each further one multiplies it by 65599
     and is added, modulo 2^32. */
  lemma HashStep(s: seq<Octet>, c: Octet)
    ensures HashOf([]) == 0
    ensures HashOf(s + [c]) == (HashOf(s) * 65599 + c) % 0x1_0000_0000
  {
    hide HashOf, ShiftAdd;
    EmptyHash();
    ShiftAddStep(s, c);
    ShiftAddIs(c, HashOf(s));
  }

  lemma WrapAny(n: int, m: int)
    ensures ToUint32(n + m * P32) == ToUint32(n)
  {
  }

  method HashDefault(ky: array<Octet>) returns (hash: Uint32)
    requires 0 in ky[..]
    ensures hash == HashOf(Text(ky[..]))
  {
    hide HashOf, ShiftAdd;
    hash := 0;
    var p := 0;
    EmptyHash();
    while ky[p] != 0
      invariant 0 <= p <= StrLen(ky[..]) && hash == HashOf(ky[..p])
      decreases StrLen(ky[..]) - p
    {
      NulAhead(ky[..], p);
      ShiftAddStep(ky[..p], ky[p]);
      assert ky[..p] + [ky[p]] == ky[..p + 1];
      hash := ShiftAdd(ky[p], hash);
      p := p + 1;
    }
    NulAhead(ky[..], p);
    assert ky[..][..p] == ky[..p];
  }

  /* An unsigned char widens without a sign, so the word has one letter. */
  lemma LowerUnsigned(b: Octet)
    ensures Map32(Lower, b) == MapByte(Lower, b)
  {
    hide Map32;
    FourBytes(b, 0);
    Map32IsBytewise(Lower, [b, 0, 0, 0]);
    var m := MapByte(Lower, b);
    assert MapBytes(Lower, [b, 0, 0, 0]) == [m, 0, 0, 0];
    FourBytes(m, 0);
  }

  /* switch_hash_default_ci hashes the lower-cased key. */
  method HashDefaultCi(ky: array<Octet>) returns (hash: Uint32)
    requires 0 in ky[..]
    ensures hash == HashOf(MapBytes(Lower, Text(ky[..])))
  {
    hide HashOf, ShiftAdd, Map32;
    hash := 0;
    var p := 0;
    EmptyHash();
    LowerUnsigned(ky[0]);
    while Map32(Lower, ky[p]) != 0
      invariant 0 <= p <= StrLen(ky[..]) && hash == HashOf(MapBytes(Lower, ky[..p]))
      decreases StrLen(ky[..]) - p
    {
      LowerUnsigned(ky[p]);
      NulAhead(ky[..], p);
      ShiftAddStep(MapBytes(Lower, ky[..p]), MapByte(Lower, ky[p]));
      assert MapBytes(Lower, ky[..p]) + [MapByte(Lower, ky[p])] == MapBytes(Lower, ky[..p + 1]);
      hash := ShiftAdd(Map32(Lower, ky[p]), hash);
      p := p + 1;
    }
    LowerUnsigned(ky[p]);
    NulAhead(ky[..], p);
    assert ky[..][..p] == ky[..p];
  }
}
