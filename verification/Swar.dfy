/**
The case mapping of switch_utils.h that works on all bytes of a machine word at
once, against the mapping of a single byte.
*/
module Swar {
  import opened BitOps
  import opened Powers

  type Octet = n: nat | n < 256

  datatype Case = Upper | Lower

  /* ASCII only: any other byte stays as it is. */
  function MapByte(c: Case, b: Octet): Octet {
    if c.Upper? then if 0x61 <= b <= 0x7A then b - 0x20 else b
    else if 0x41 <= b <= 0x5A then b + 0x20 else b
  }

  /* The mapping of the alphabet, letter by letter, and of everything else. */
  lemma AsciiCase(i: nat, b: Octet)
    requires i < 26
    ensures MapByte(Upper, 'a' as int + i) == MapByte(Upper, 'A' as int + i) == 'A' as int + i
    ensures MapByte(Lower, 'a' as int + i) == MapByte(Lower, 'A' as int + i) == 'a' as int + i
    ensures !('a' as int <= b <= 'z' as int || 'A' as int <= b <= 'Z' as int) ==>
              MapByte(Upper, b) == MapByte(Lower, b) == b
    ensures MapByte(Upper, b) == b <==> !('a' as int <= b <= 'z' as int)
    ensures MapByte(Lower, b) == b <==> !('A' as int <= b <= 'Z' as int)
  {
  }

  // ---- The word functions ----

  /* switch_toupper and switch_tolower, in uint32_t. */
  function Map32(c: Case, eax: nat): nat
    requires eax < 0x1_0000_0000
  {
    var ebx := (And(0x7f7f7f7f, eax) + (if c.Upper? then 0x05050505 else 0x25252525)) % 0x1_0000_0000;
    var ebx := (And(0x7f7f7f7f, ebx) + 0x1a1a1a1a) % 0x1_0000_0000;
    var ebx := And(And(ebx, 0xFFFF_FFFF - eax) / 4, 0x20202020);
    (if c.Upper? then eax - ebx else eax + ebx) % 0x1_0000_0000
  }

  /* switch_toupper64 and switch_tolower64, in uint64_t. */
  function Map64(c: Case, eax: nat): nat
    requires eax < 0x1_0000_0000_0000_0000
  {
    var ebx := (And(0x7f7f7f7f7f7f7f7f, eax) + (if c.Upper? then 0x0505050505050505 else 0x2525252525252525))
               % 0x1_0000_0000_0000_0000;
    var ebx := (And(0x7f7f7f7f7f7f7f7f, ebx) + 0x1a1a1a1a1a1a1a1a) % 0x1_0000_0000_0000_0000;
    var ebx := And(And(ebx, 0xFFFF_FFFF_FFFF_FFFF - eax) / 4, 0x2020202020202020);
    (if c.Upper? then eax - ebx else eax + ebx) % 0x1_0000_0000_0000_0000
  }

  // ---- Words of any number of lanes ----

  /* The bytes of a word, low byte first, and n copies of one byte. */
  function Word(bs: seq<Octet>): nat {
    if bs == [] then 0 else bs[0] + 256 * Word(bs[1..])
  }

  function Copies(n: nat, x: nat): nat {
    if n == 0 then 0 else x + 256 * Copies(n - 1, x)
  }

  function MapBytes(c: Case, bs: seq<Octet>): (r: seq<Octet>)
    ensures |r| == |bs|
    ensures forall i :: 0 <= i < |bs| ==> r[i] == MapByte(c, bs[i])
  {
    seq(|bs|, i requires 0 <= i < |bs| => MapByte(c, bs[i]))
  }

  /* The three steps of the word functions on n lanes, without the wrap-around
     that never happens. */
  function Spread(n: nat, w: nat, k: nat): nat {
    And(Copies(n, 0x7f), w) + Copies(n, k)
  }

  function Pick(n: nat, ebx: nat, eax: nat): nat
    requires eax <= Copies(n, 0xFF)
  {
    And(And(ebx, Copies(n, 0xFF) - eax) / 4, Copies(n, 0x20))
  }

  function MapLanes(c: Case, n: nat, eax: nat): int
    requires eax <= Copies(n, 0xFF)
  {
    var ebx := Pick(n, Spread(n, Spread(n, eax, if c.Upper? then 0x05 else 0x25), 0x1a), eax);
    if c.Upper? then eax - ebx else eax + ebx
  }

  // ---- Lanes do not interact ----

  lemma AndLane(a: Octet, h: nat, b: Octet, k: nat)
    ensures And(a + 256 * h, b + 256 * k) == And(a, b) + 256 * And(h, k)
  {
    hide And, ShiftLeft, Pow2;
    assert Pow2(8) == 256 by { Pow2Add(4, 4); SmallPowers(); }
    ShiftLeftMul(h, 8);
    ShiftLeftMul(k, 8);
    ShiftLeftMul(And(h, k), 8);
    AndJoin(h, a, k, b, 8);
  }

  /* Shifting right by two moves the low bits of one lane into the top of the
     next, where the mask does not look. */
  lemma QuarterLane(y: Octet, h: nat, m: nat)
    ensures And((y + 256 * h) / 4, 0x20 + 256 * m) == And(y / 4, 0x20) + 256 * And(h / 4, m)
  {
    hide And, ShiftLeft, Pow2;
    SmallPowers();
    ShiftLeftMul(h, 6);
    ShiftLeftMul(4 * m, 6);
    ShiftLeftMul(And(h, 4 * m), 6);
    AndJoin(h, y / 4, 4 * m, 0x20, 6);
    AndStep(h / 2, h % 2, 2 * m, 0);
    AndStep(h / 4, h / 2 % 2, m, 0);
    assert (y + 256 * h) / 4 == 64 * h + y / 4;
  }

  lemma SpreadLane(n: nat, b: Octet, h: nat, k: nat)
    requires n > 0
    ensures Spread(n, b + 256 * h, k) == (And(0x7f, b) + k) + 256 * Spread(n - 1, h, k)
  {
    hide And;
    AndLane(0x7f, Copies(n - 1, 0x7f), b, h);
  }

  lemma PickLane(n: nat, x: Octet, hx: nat, b: Octet, hb: nat)
    requires n > 0 && hb <= Copies(n - 1, 0xFF)
    ensures b + 256 * hb <= Copies(n, 0xFF)
    ensures Pick(n, x + 256 * hx, b + 256 * hb) == And(And(x, 255 - b) / 4, 0x20) + 256 * Pick(n - 1, hx, hb)
  {
    hide And;
    var rest := Copies(n - 1, 0xFF) - hb;
    AndLane(x, hx, 255 - b, rest);
    AndByte(x, 255 - b);
    QuarterLane(And(x, 255 - b), And(hx, rest), Copies(n - 1, 0x20));
  }

  lemma AndByte(x: Octet, y: nat)
    ensures And(x, y) <= x
  {
    AndAtMost(x, y);
  }

  lemma {:induction false} AndAtMost(x: nat, y: nat)
    ensures And(x, y) <= x
  {
    if x > 0 {
      AndAtMost(x / 2, y / 2);
    }
  }

  // ---- One lane ----

  lemma LowSeven(b: Octet)
    ensures And(0x7f, b) == b % 128
  {
    hide And, ShiftLeft, Pow2;
    SmallPowers();
    ShiftLeftMul(0, 7);
    ShiftLeftMul(b / 128, 7);
    ShiftLeftMul(And(0, b / 128), 7);
    AndJoin(0, 0x7f, b / 128, b % 128, 7);
    AndZero(b / 128);
    AndOnesLeft(b % 128, 7);
  }

  lemma {:induction false} AndOnesLeft(a: nat, k: nat)
    requires a < Pow2(k)
    ensures And(Pow2(k) - 1, a) == a
  {
    if k > 0 {
      AndOnesLeft(a / 2, k - 1);
      AndStep(Pow2(k - 1) - 1, 1, a / 2, a % 2);
    }
  }

  /* The picked bit says that the top bit of x is set and that of b is not. */
  lemma TopBits(x: Octet, b: Octet)
    ensures And(And(x, 255 - b) / 4, 0x20) == if x >= 128 && b < 128 then 0x20 else 0
  {
    hide And, ShiftLeft, Pow2;
    SmallPowers();
    var y := 255 - b;
    var r := And(x % 128, y % 128);
    ShiftLeftMul(x / 128, 7);
    ShiftLeftMul(y / 128, 7);
    ShiftLeftMul(And(x / 128, y / 128), 7);
    AndJoin(x / 128, x % 128, y / 128, y % 128, 7);
    AndAtMost(x % 128, y % 128);
    AndStep(0, x / 128, 0, y / 128);
    AndZero(0);
    var q := And(x, y) / 4;
    assert q == 32 * And(x / 128, y / 128) + r / 4 && r / 4 < 32;
    ShiftLeftMul(And(x / 128, y / 128), 5);
    ShiftLeftMul(1, 5);
    ShiftLeftMul(And(And(x / 128, y / 128), 1), 5);
    AndJoin(And(x / 128, y / 128), r / 4, 1, 0, 5);
    AndZero(r / 4);
    AndStep(0, And(x / 128, y / 128), 0, 1);
  }

  lemma OneLane(c: Case, b: Octet)
    ensures var y := And(0x7f, b) + if c.Upper? then 0x05 else 0x25;
            y < 256 &&
            var z := And(0x7f, y) + 0x1a;
            z < 256 &&
            var e := And(And(z, 255 - b) / 4, 0x20);
            MapByte(c, b) == if c.Upper? then b - e else b + e
  {
    hide And;
    LowSeven(b);
    var y := And(0x7f, b) + if c.Upper? then 0x05 else 0x25;
    LowSeven(y);
    TopBits(And(0x7f, y) + 0x1a, b);
  }

  // ---- All lanes ----

  lemma MapLane(c: Case, n: nat, b: Octet, h: nat)
    requires n > 0 && h <= Copies(n - 1, 0xFF)
    ensures b + 256 * h <= Copies(n, 0xFF)
    ensures MapLanes(c, n, b + 256 * h) == MapByte(c, b) + 256 * MapLanes(c, n - 1, h)
  {
    hide And, Spread, Pick, MapByte;
    OneLane(c, b);
    var k := if c.Upper? then 0x05 else 0x25;
    var y := And(0x7f, b) + k;
    var z := And(0x7f, y) + 0x1a;
    SpreadLane(n, b, h, k);
    SpreadLane(n, y, Spread(n - 1, h, k), 0x1a);
    PickLane(n, z, Spread(n - 1, Spread(n - 1, h, k), 0x1a), b, h);
  }

  lemma {:induction false} WordBound(bs: seq<Octet>)
    ensures Word(bs) <= Copies(|bs|, 0xFF)
  {
    if bs != [] {
      WordBound(bs[1..]);
    }
  }

  /* A word function maps each byte of the word, whatever the others are. */
  lemma {:induction false} LanesMapBytes(c: Case, bs: seq<Octet>)
    ensures Word(bs) <= Copies(|bs|, 0xFF)
    ensures MapLanes(c, |bs|, Word(bs)) == Word(MapBytes(c, bs))
  {
    hide MapLanes, MapByte;
    WordBound(bs);
    if bs == [] {
      NoLanes(c);
    } else {
      WordBound(bs[1..]);
      LanesMapBytes(c, bs[1..]);
      MapLane(c, |bs|, bs[0], Word(bs[1..]));
      assert MapBytes(c, bs)[1..] == MapBytes(c, bs[1..]);
    }
  }

  lemma NoLanes(c: Case)
    ensures MapLanes(c, 0, 0) == 0
  {
    hide Spread, Pick;
    NoPick(Spread(0, Spread(0, 0, if c.Upper? then 0x05 else 0x25), 0x1a));
  }

  lemma NoPick(ebx: nat)
    ensures Pick(0, ebx, 0) == 0
  {
    hide And;
    AndZero(And(ebx, 0) / 4);
  }

  lemma NoCopies(x: nat)
    ensures Copies(0, x) == 0
  {
  }

  lemma CopiesOf(x: nat)
    ensures Copies(4, x) == x * 0x01010101 && Copies(8, x) == x * 0x0101010101010101
  {
    hide Copies;
    NoCopies(x);
    OneMore(1, x);
    OneMore(2, x);
    OneMore(3, x);
    OneMore(4, x);
    OneMore(5, x);
    OneMore(6, x);
    OneMore(7, x);
    OneMore(8, x);
  }

  lemma OneMore(n: nat, x: nat)
    requires n > 0
    ensures Copies(n, x) == x + 256 * Copies(n - 1, x)
  {
  }

  lemma AllCopies()
    ensures Copies(4, 0x7f) == 0x7f7f7f7f && Copies(8, 0x7f) == 0x7f7f7f7f7f7f7f7f
    ensures Copies(4, 0x05) == 0x05050505 && Copies(8, 0x05) == 0x0505050505050505
    ensures Copies(4, 0x25) == 0x25252525 && Copies(8, 0x25) == 0x2525252525252525
    ensures Copies(4, 0x1a) == 0x1a1a1a1a && Copies(8, 0x1a) == 0x1a1a1a1a1a1a1a1a
    ensures Copies(4, 0x20) == 0x20202020 && Copies(8, 0x20) == 0x2020202020202020
    ensures Copies(4, 0xFF) == 0xFFFF_FFFF && Copies(8, 0xFF) == 0xFFFF_FFFF_FFFF_FFFF
  {
    hide Copies;
    CopiesOf(0x7f);
    CopiesOf(0x05);
    CopiesOf(0x25);
    CopiesOf(0x1a);
    CopiesOf(0x20);
    CopiesOf(0xFF);
  }

  /* The 32-bit functions map each of four bytes, the 64-bit ones each of eight. */
  lemma Map32IsBytewise(c: Case, bs: seq<Octet>)
    requires |bs| == 4
    ensures Word(bs) < 0x1_0000_0000 && Map32(c, Word(bs)) == Word(MapBytes(c, bs))
  {
    hide Map32, MapLanes, Copies, Word, MapByte;
    AllCopies();
    WordBound(bs);
    WordBound(MapBytes(c, bs));
    LanesMapBytes(c, bs);
    Map32IsLanes(c, Word(bs));
  }

  lemma Map32IsLanes(c: Case, eax: nat)
    requires eax < 0x1_0000_0000
    ensures eax <= Copies(4, 0xFF)
    ensures 0 <= MapLanes(c, 4, eax) < 0x1_0000_0000 ==> Map32(c, eax) == MapLanes(c, 4, eax)
  {
    hide And, Copies;
    AllCopies();
    var y := And(0x7f7f7f7f, eax) + Copies(4, if c.Upper? then 0x05 else 0x25);
    AndAtMost(0x7f7f7f7f, eax);
    AndAtMost(0x7f7f7f7f, y);
    NoWrap(y, 0x1_0000_0000);
    NoWrap(And(0x7f7f7f7f, y) + Copies(4, 0x1a), 0x1_0000_0000);
  }

  lemma Map64IsBytewise(c: Case, bs: seq<Octet>)
    requires |bs| == 8
    ensures Word(bs) < 0x1_0000_0000_0000_0000 && Map64(c, Word(bs)) == Word(MapBytes(c, bs))
  {
    hide Map64, MapLanes, Copies, Word, MapByte;
    AllCopies();
    WordBound(bs);
    WordBound(MapBytes(c, bs));
    LanesMapBytes(c, bs);
    Map64IsLanes(c, Word(bs));
  }

  lemma Map64IsLanes(c: Case, eax: nat)
    requires eax < 0x1_0000_0000_0000_0000
    ensures eax <= Copies(8, 0xFF)
    ensures 0 <= MapLanes(c, 8, eax) < 0x1_0000_0000_0000_0000 ==> Map64(c, eax) == MapLanes(c, 8, eax)
  {
    hide And, Copies;
    AllCopies();
    var y := And(0x7f7f7f7f7f7f7f7f, eax) + Copies(8, if c.Upper? then 0x05 else 0x25);
    AndAtMost(0x7f7f7f7f7f7f7f7f, eax);
    AndAtMost(0x7f7f7f7f7f7f7f7f, y);
    NoWrap(y, 0x1_0000_0000_0000_0000);
    NoWrap(And(0x7f7f7f7f7f7f7f7f, y) + Copies(8, 0x1a), 0x1_0000_0000_0000_0000);
  }

  lemma NoWrap(n: int, m: nat)
    requires 0 <= n < m
    ensures n % m == n
  {
  }

  /* The bytes of a word of n lanes, the inverse of Word. */
  function Bytes(w: nat, n: nat): (bs: seq<Octet>)
    ensures |bs| == n
  {
    if n == 0 then [] else [w % 256] + Bytes(w / 256, n - 1)
  }

  lemma {:induction false} BytesOfWord(bs: seq<Octet>)
    ensures Bytes(Word(bs), |bs|) == bs
  {
    if bs != [] {
      BytesOfWord(bs[1..]);
      LowByte(bs[0], Word(bs[1..]));
    }
  }

  lemma LowByte(b: Octet, h: nat)
    ensures (b + 256 * h) % 256 == b && (b + 256 * h) / 256 == h
  {
  }
}
