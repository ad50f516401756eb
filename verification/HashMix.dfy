/**
What the mixing step of switch_hashtable_private.h computes: multiplications by
-511 and 17, each followed by an exclusive or with a rotation.
*/
module HashMix {
  import opened BitOps
  import opened CInt
  import opened HashChains
  import opened Powers

  /* The rotation of a 32-bit word to the right, by k bits for p == 2^k and
     q == 2^(32 - k). */
  function Rotated(i: Uint32, p: nat, q: nat): nat
    requires p > 0
  {
    i / p + i % p * q
  }

  lemma MixIs(i: Uint32)
    ensures var a := ToUint32(-511 * i - 1);
            var b := Xor(a, Rotated(a, 0x4000, 0x4_0000));
            && b < P32
            && var c := ToUint32(17 * b);
            Mix(i) == Xor(c, Rotated(c, 0x400, 0x40_0000))
  {
    hide Xor, Or, Rotated, ToUint32;
    var a := ToUint32(-511 * i - 1);
    FirstStep(i);
    Rotation14(a);
    var b := Xor(a, Rotated(a, 0x4000, 0x4_0000));
    Fits(b);
    var c := ToUint32(17 * b);
    ThirdStep(b);
    Rotation10(c);
    Fits(Xor(c, Rotated(c, 0x400, 0x40_0000)));
  }

  lemma Fits(n: nat)
    requires n < P32
    ensures ToUint32(n) == n
  {
  }

  lemma FirstStep(i: Uint32)
    ensures ToUint32(i + (0xFFFF_FFFF - ToUint32(i * 0x200))) == ToUint32(-511 * i - 1)
  {
  }

  lemma ThirdStep(i: Uint32)
    ensures ToUint32(i + ToUint32(i * 0x10)) == ToUint32(17 * i)
  {
  }

  /* The two shifts rotate, and the word stays a word. */
  lemma Rotation14(i: Uint32)
    ensures Or(i / 0x4000, ToUint32(i * 0x4_0000)) == Rotated(i, 0x4000, 0x4_0000)
    ensures Xor(i, Rotated(i, 0x4000, 0x4_0000)) < P32
  {
    hide Or, Xor, Pow2, ShiftLeft;
    WordPowers();
    assert ToUint32(i * 0x4_0000) == i % 0x4000 * 0x4_0000;
    ShiftLeftMul(i % 0x4000, 18);
    OrDisjoint(i % 0x4000, i / 0x4000, 18);
    XorBelow(i, Rotated(i, 0x4000, 0x4_0000), 32);
  }

  lemma Rotation10(i: Uint32)
    ensures Or(i / 0x400, ToUint32(i * 0x40_0000)) == Rotated(i, 0x400, 0x40_0000)
    ensures Xor(i, Rotated(i, 0x400, 0x40_0000)) < P32
  {
    hide Or, Xor, Pow2, ShiftLeft;
    WordPowers();
    assert ToUint32(i * 0x40_0000) == i % 0x400 * 0x40_0000;
    ShiftLeftMul(i % 0x400, 22);
    OrDisjoint(i % 0x400, i / 0x400, 22);
    XorBelow(i, Rotated(i, 0x400, 0x40_0000), 32);
  }

  lemma WordPowers()
    ensures Pow2(18) == 0x4_0000 && Pow2(22) == 0x40_0000 && Pow2(32) == P32
  {
    hide Pow2;
    SmallPowers();
    Pow2Add(7, 7);
    Pow2Add(7, 3);
    Pow2Add(14, 4);
    Pow2Add(18, 4);
    Pow2Add(22, 10);
  }
}
