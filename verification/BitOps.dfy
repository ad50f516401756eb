/**
The bitwise operators of C on non-negative integers, bit by bit, and what they
do with the masks the G.711 code uses.
*/
module BitOps {
  import opened Powers

  function And(a: nat, b: nat): nat {
    if a == 0 then 0 else 2 * And(a / 2, b / 2) + (if a % 2 == 1 && b % 2 == 1 then 1 else 0)
  }

  function Or(a: nat, b: nat): nat
    decreases a + b
  {
    if a == 0 && b == 0 then 0
    else 2 * Or(a / 2, b / 2) + (if a % 2 == 1 || b % 2 == 1 then 1 else 0)
  }

  function Xor(a: nat, b: nat): nat
    decreases a + b
  {
    if a == 0 && b == 0 then 0
    else 2 * Xor(a / 2, b / 2) + XorBit(a % 2, b % 2)
  }

  function XorBit(i: nat, j: nat): nat {
    if i == j then 0 else 1
  }

  /* n << k, that is n * 2^k. */
  function ShiftLeft(n: nat, k: nat): nat {
    if k == 0 then n else 2 * ShiftLeft(n, k - 1)
  }

  lemma {:induction false} ShiftLeftMul(n: nat, k: nat)
    ensures ShiftLeft(n, k) == n * Pow2(k)
  {
    if k > 0 {
      ShiftLeftMul(n, k - 1);
      MulTwo(n, Pow2(k - 1));
    }
  }

  lemma {:induction false} ShiftLeftAdd(a: nat, b: nat, k: nat)
    ensures ShiftLeft(a + b, k) == ShiftLeft(a, k) + ShiftLeft(b, k)
  {
    if k > 0 {
      ShiftLeftAdd(a, b, k - 1);
    }
  }

  lemma {:induction false} ShiftLeftTwice(a: nat, m: nat, n: nat)
    ensures ShiftLeft(ShiftLeft(a, m), n) == ShiftLeft(a, m + n)
  {
    if n > 0 {
      ShiftLeftTwice(a, m, n - 1);
    }
  }

  lemma {:induction false} ShiftLeftBelow(a: nat, r: nat, m: nat, n: nat)
    requires a < Pow2(m) && r < Pow2(n)
    ensures ShiftLeft(a, n) + r < Pow2(m + n)
  {
    if n > 0 {
      ShiftLeftBelow(a, r / 2, m, n - 1);
    }
  }

  /* A number below 2^(m + n) is a high part of m bits and a low part of n. */
  lemma {:induction false} SplitBits(a: nat, m: nat, n: nat) returns (h: nat, r: nat)
    requires a < Pow2(m + n)
    ensures h < Pow2(m) && r < Pow2(n) && a == ShiftLeft(h, n) + r
  {
    if n == 0 {
      h, r := a, 0;
    } else {
      h, r := SplitBits(a / 2, m, n - 1);
      r := 2 * r + a % 2;
    }
  }

  lemma LowBit(h: nat, r: nat, k: nat)
    requires k > 0
    ensures ShiftLeft(h, k) == 2 * ShiftLeft(h, k - 1)
    ensures ShiftLeft(h, k) + r == 2 * (ShiftLeft(h, k - 1) + r / 2) + r % 2
    ensures r < Pow2(k) ==> r / 2 < Pow2(k - 1)
  {
  }

  lemma NoShift(h: nat)
    ensures ShiftLeft(h, 0) == h && Pow2(0) == 1
  {
  }

  // ---- And ----

  lemma AndStep(x: nat, i: nat, y: nat, j: nat)
    requires i < 2 && j < 2
    ensures And(2 * x + i, 2 * y + j) == 2 * And(x, y) + if i == 1 && j == 1 then 1 else 0
  {
  }

  /* Operands whose k low bits are r and s. */
  lemma {:induction false} AndJoin(h: nat, r: nat, m: nat, s: nat, k: nat)
    requires r < Pow2(k) && s < Pow2(k)
    ensures And(ShiftLeft(h, k) + r, ShiftLeft(m, k) + s) == ShiftLeft(And(h, m), k) + And(r, s)
  {
    hide And, ShiftLeft, Pow2;
    if k == 0 {
      NoShift(h);
      NoShift(m);
      NoShift(And(h, m));
      AndZero(0);
    } else {
      LowBit(h, r, k);
      LowBit(m, s, k);
      LowBit(And(h, m), 0, k);
      AndJoin(h, r / 2, m, s / 2, k - 1);
      AndStep(ShiftLeft(h, k - 1) + r / 2, r % 2, ShiftLeft(m, k - 1) + s / 2, s % 2);
      AndStep(r / 2, r % 2, s / 2, s % 2);
    }
  }

  lemma {:induction false} AndZero(a: nat)
    ensures And(a, 0) == And(0, a) == 0
  {
    if a > 0 {
      AndZero(a / 2);
    }
  }

  /* A mask whose k low bits are ones. */
  lemma {:induction false} AndOnes(a: nat, m: nat, k: nat)
    requires a < Pow2(k)
    ensures And(a, ShiftLeft(m, k) + (Pow2(k) - 1)) == a
  {
    if k == 0 {
      AndZero(ShiftLeft(m, k));
    } else {
      AndOnes(a / 2, m, k - 1);
      AndStep(a / 2, a % 2, ShiftLeft(m, k - 1) + (Pow2(k - 1) - 1), 1);
    }
  }

  /* c blocks of 2 * k bits, each one k ones above k zeros. */
  function Mask(k: nat, c: nat): nat {
    if c == 0 then 0 else ShiftLeft(Mask(k, c - 1), 2 * k) + ShiftLeft(Pow2(k) - 1, k)
  }

  lemma {:induction false} MaskSplit(k: nat, c: nat, j: nat) returns (low: nat)
    requires j <= c
    ensures low < Pow2(2 * k * j) && Mask(k, c) == ShiftLeft(Mask(k, c - j), 2 * k * j) + low
  {
    hide ShiftLeft, Pow2;
    if j == 0 {
      low := 0;
      NoShift(Mask(k, c));
    } else {
      var n := 2 * k * (j - 1);
      var l := MaskSplit(k, c - 1, j - 1);
      NextBlock(2 * k, j);
      var top, block := Mask(k, c - j), ShiftLeft(Pow2(k) - 1, k);
      low := ShiftLeft(l, 2 * k) + block;
      ShiftLeftAdd(ShiftLeft(top, n), l, 2 * k);
      ShiftLeftTwice(top, n, 2 * k);
      assert Pow2(k) >= 1;
      ShiftLeftBelow(Pow2(k) - 1, 0, k, k);
      ShiftLeftBelow(l, block, n, 2 * k);
    }
  }

  lemma NoBlocks(k: nat)
    ensures Mask(k, 0) == 0
  {
  }

  lemma FirstBlock(k: nat, c: nat)
    requires c > 0
    ensures Mask(k, c) == ShiftLeft(ShiftLeft(Mask(k, c - 1), k) + (Pow2(k) - 1), k)
  {
    hide ShiftLeft, Pow2;
    ShiftLeftTwice(Mask(k, c - 1), k, k);
    ShiftLeftAdd(ShiftLeft(Mask(k, c - 1), k), Pow2(k) - 1, k);
  }

  /* The blocks sum up to a geometric series. */
  lemma {:induction false} MaskSum(k: nat, c: nat)
    ensures (Pow2(k) + 1) * Mask(k, c) == Pow2(k) * (Pow2(2 * k * c) - 1)
  {
    hide Pow2, Mask;
    var p := Pow2(k);
    if c == 0 {
      NoShift(0);
      NoBlocks(k);
    } else {
      var n := 2 * k * (c - 1);
      MaskSum(k, c - 1);
      NextBlock(2 * k, c);
      Pow2Add(n, 2 * k);
      Pow2Add(k, k);
      MaskNext(k, c);
      GeometricStep(p, Pow2(n), Mask(k, c - 1));
    }
  }

  lemma MaskNext(k: nat, c: nat)
    requires c > 0
    ensures Mask(k, c) == Mask(k, c - 1) * (Pow2(k) * Pow2(k)) + (Pow2(k) - 1) * Pow2(k)
  {
    hide Pow2, ShiftLeft;
    Pow2Add(k, k);
    ShiftLeftMul(Mask(k, c - 1), 2 * k);
    ShiftLeftMul(Pow2(k) - 1, k);
  }

  lemma GeometricStep(p: nat, q: nat, m: nat)
    requires (p + 1) * m == p * (q - 1)
    ensures (p + 1) * (m * (p * p) + (p - 1) * p) == p * (q * (p * p) - 1)
  {
    var s := p * p;
    assert (p + 1) * (m * s) == (p + 1) * m * s;
    assert p * (q - 1) * s == p * (q * s) - p * s;
    assert (p + 1) * ((p - 1) * p) == p * s - p;
    assert (p + 1) * (m * s + (p - 1) * p) == (p + 1) * (m * s) + (p + 1) * ((p - 1) * p);
    assert p * (q * s - 1) == p * (q * s) - p;
  }

  lemma NextBlock(d: nat, j: nat)
    requires j > 0
    ensures d * j == d * (j - 1) + d
  {
  }

  /* Masking a word whose only set bits lie in block j keeps the upper half of
     that block. */
  lemma MaskBlock(k: nat, c: nat, j: nat, g: nat) returns (h: nat, r: nat)
    requires j < c && g < Pow2(2 * k)
    ensures h < Pow2(k) && r < Pow2(k) && g == ShiftLeft(h, k) + r
    ensures And(ShiftLeft(g, 2 * k * j), Mask(k, c)) == ShiftLeft(ShiftLeft(h, k), 2 * k * j)
  {
    hide ShiftLeft, Pow2, And, Mask;
    h, r := SplitBits(g, k, k);
    var low := MaskSplit(k, c, j);
    var m := Mask(k, c - j);
    AndJoin(g, 0, m, low, 2 * k * j);
    AndZero(low);
    var rest := ShiftLeft(Mask(k, c - j - 1), k);
    FirstBlock(k, c - j);
    AndJoin(h, r, rest + (Pow2(k) - 1), 0, k);
    AndZero(r);
    AndOnes(h, Mask(k, c - j - 1), k);
  }

  // ---- Or and Xor ----

  lemma {:induction false} OrOnes(h: nat, r: nat, k: nat)
    requires r < Pow2(k)
    ensures Or(ShiftLeft(h, k) + r, Pow2(k) - 1) == ShiftLeft(h, k) + (Pow2(k) - 1)
  {
    if k == 0 {
      OrZero(h);
    } else {
      OrOnes(h, r / 2, k - 1);
      OrStep(ShiftLeft(h, k - 1) + r / 2, r % 2, Pow2(k - 1) - 1);
    }
  }

  lemma OrStep(x: nat, i: nat, y: nat)
    requires i < 2
    ensures Or(2 * x + i, 2 * y + 1) == 2 * Or(x, y) + 1
  {
    assert (2 * x + i) / 2 == x && (2 * y + 1) / 2 == y && (2 * y + 1) % 2 == 1;
  }

  lemma {:induction false} OrZero(a: nat)
    ensures Or(a, 0) == a
  {
    if a > 0 {
      OrZero(a / 2);
    }
  }

  lemma {:induction false} ZeroOr(a: nat)
    ensures Or(0, a) == a
  {
    if a > 0 {
      ZeroOr(a / 2);
    }
  }

  /* Words that share no bit are added. */
  lemma {:induction false} OrDisjoint(h: nat, r: nat, k: nat)
    requires r < Pow2(k)
    ensures Or(r, ShiftLeft(h, k)) == ShiftLeft(h, k) + r
  {
    if k == 0 {
      ZeroOr(h);
    } else {
      OrDisjoint(h, r / 2, k - 1);
      var s := ShiftLeft(h, k - 1);
      assert 2 * s / 2 == s && 2 * s % 2 == 0;
    }
  }

  lemma XorSmall()
    ensures Xor(0, 0) == 0 && Xor(0, 1) == 1 && Xor(1, 0) == 1
  {
  }

  lemma XorStep(x: nat, i: nat, y: nat, j: nat)
    requires i < 2 && j < 2
    ensures Xor(2 * x + i, 2 * y + j) == 2 * Xor(x, y) + XorBit(i, j)
  {
  }

  lemma {:induction false} ZeroXor(a: nat)
    ensures Xor(0, a) == a
  {
    if a > 0 {
      ZeroXor(a / 2);
    }
  }

  lemma {:induction false} XorCommutes(a: nat, b: nat)
    ensures Xor(a, b) == Xor(b, a)
    decreases a + b
  {
    if a > 0 || b > 0 {
      XorCommutes(a / 2, b / 2);
    }
  }

  lemma {:induction false} XorTwice(a: nat, m: nat)
    ensures Xor(Xor(a, m), m) == a
    decreases a + m
  {
    hide Xor;
    if a == 0 && m == 0 {
      XorSmall();
    } else {
      var x, y, i, j := a / 2, m / 2, a % 2, m % 2;
      XorTwice(x, y);
      XorStep(x, i, y, j);
      XorStep(Xor(x, y), XorBit(i, j), y, j);
    }
  }

  lemma {:induction false} XorBelow(a: nat, m: nat, k: nat)
    requires a < Pow2(k) && m < Pow2(k)
    ensures Xor(a, m) < Pow2(k)
  {
    if k > 0 {
      XorBelow(a / 2, m / 2, k - 1);
    }
  }

  /* Flipping all of k bits. */
  lemma {:induction false} XorOnes(a: nat, k: nat)
    requires a < Pow2(k)
    ensures Xor(a, Pow2(k) - 1) == Pow2(k) - 1 - a
  {
    if k > 0 {
      XorOnes(a / 2, k - 1);
    }
  }

  /* Operands whose k low bits are a and m. */
  lemma {:induction false} XorJoin(a: nat, b: nat, m: nat, n: nat, k: nat)
    requires a < Pow2(k) && m < Pow2(k)
    ensures Xor(ShiftLeft(b, k) + a, ShiftLeft(n, k) + m) == ShiftLeft(Xor(b, n), k) + Xor(a, m)
  {
    hide Xor, XorBit, ShiftLeft, Pow2;
    if k == 0 {
      NoShift(b);
      NoShift(n);
      NoShift(Xor(b, n));
      XorSmall();
    } else {
      LowBit(b, a, k);
      LowBit(n, m, k);
      LowBit(Xor(b, n), 0, k);
      var x, y := ShiftLeft(b, k - 1), ShiftLeft(n, k - 1);
      XorJoin(a / 2, b, m / 2, n, k - 1);
      XorStep(x + a / 2, a % 2, y + m / 2, m % 2);
      XorStep(a / 2, a % 2, m / 2, m % 2);
    }
  }
}
