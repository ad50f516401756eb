/**
Powers of two, and the facts about products and quotients that the other
modules share.
*/
module Powers {

  function Pow2(n: nat): (p: nat)
    ensures p >= 1
  {
    if n == 0 then 1 else 2 * Pow2(n - 1)
  }

  lemma Pow2Step(n: nat)
    requires n > 0
    ensures Pow2(n) == 2 * Pow2(n - 1)
  {
  }

  lemma MulTwo(c: nat, p: nat)
    ensures c * (2 * p) == 2 * (c * p)
  {
  }

  lemma {:induction false} Pow2Add(m: nat, n: nat)
    ensures Pow2(m + n) == Pow2(m) * Pow2(n)
  {
    if n > 0 {
      Pow2Add(m, n - 1);
      MulTwo(Pow2(m), Pow2(n - 1));
    }
  }

  lemma SmallPowers()
    ensures Pow2(0) == 1 && Pow2(1) == 2 && Pow2(2) == 4 && Pow2(3) == 8
    ensures Pow2(4) == 16 && Pow2(5) == 32 && Pow2(6) == 64 && Pow2(7) == 128
  {
    assert Pow2(3) == 8;
    assert Pow2(5) == 32;
  }

  lemma MulCancel(w: nat, a: nat, b: nat)
    requires w * a < w * b
    ensures a < b
  {
  }

  lemma MulAtMost(w: nat, a: nat, b: nat)
    requires a <= b
    ensures w * a <= w * b
  {
  }

  lemma MulStep(w: nat, n: nat)
    ensures w * (n + 1) == w * n + w
  {
  }

  lemma DivBetween(w: nat, q: nat, n: nat)
    requires 1 <= w && w * q <= n < w * q + w
    ensures q == n / w
  {
    var d := n / w;
    assert n == w * d + n % w;
    MulCancel(w, d, q + 1);
    MulCancel(w, q, d + 1);
  }

  lemma MulCommutes(p: nat, q: nat)
    ensures p * q == q * p
  {
  }

  /* A product with an odd factor is divisible by 2^e only if the other factor
     is. */
  lemma {:induction false} OddCancels(n: nat, r: nat, e: nat, t: nat)
    requires r % 2 == 1 && n * r == t * Pow2(e)
    ensures n % Pow2(e) == 0
  {
    if e > 0 {
      var p := Pow2(e - 1);
      assert n * r == 2 * (t * p) by { assert t * (2 * p) == 2 * (t * p); }
      EvenFactor(n, r, t * p);
      var n' := n / 2;
      assert n * r == 2 * (n' * r) by { assert (2 * n') * r == 2 * (n' * r); }
      OddCancels(n', r, e - 1, t);
      DoubleDivisible(n', p);
    }
  }

  lemma EvenFactor(n: nat, r: nat, k: nat)
    requires r % 2 == 1 && n * r == 2 * k
    ensures n % 2 == 0
  {
    var h := r / 2;
    assert n * r == 2 * (n * h) + n by { assert n * (2 * h + 1) == 2 * (n * h) + n; }
  }

  lemma DoubleDivisible(n: nat, p: nat)
    requires p >= 1 && n % p == 0
    ensures 2 * n % (2 * p) == 0
  {
    var q := n / p;
    assert 2 * n == q * (2 * p) by { assert n == q * p; assert q * (2 * p) == 2 * (q * p); }
    MultipleMod(q, 2 * p);
  }

  lemma MultipleMod(q: nat, m: nat)
    requires m >= 1
    ensures q * m % m == 0
  {
    MulCommutes(q, m);
    DivBetween(m, q, q * m);
  }

  /* A product of n and k that 2^e divides, though 2^a does not divide k, owes
     the other e - a + 1 twos to n. */
  lemma {:induction false} EvenCancels(n: nat, k: nat, e: nat, a: nat, t: nat)
    requires 1 <= a <= e && k % Pow2(a) != 0 && n * k == t * Pow2(e)
    ensures n % Pow2(e - a + 1) == 0
    decreases a
  {
    if k % 2 == 1 {
      OddCancels(n, k, e, t);
      Pow2Add(e - a + 1, a - 1);
      DivisibleByFactor(n, Pow2(e - a + 1), Pow2(a - 1));
    } else {
      var k', p := k / 2, Pow2(e - 1);
      assert n * k == 2 * (n * k') by { assert n * (2 * k') == 2 * (n * k'); }
      assert t * Pow2(e) == 2 * (t * p) by { assert t * (2 * p) == 2 * (t * p); }
      if k' % Pow2(a - 1) == 0 {
        DoubleDivisible(k', Pow2(a - 1));
      }
      EvenCancels(n, k', e - 1, a - 1, t);
    }
  }

  lemma DivisibleByFactor(n: nat, p: nat, q: nat)
    requires p >= 1 && q >= 1 && p * q >= 1 && n % (p * q) == 0
    ensures n % p == 0
  {
    var d := n / (p * q);
    assert n == (d * q) * p by { assert n == d * (p * q); assert d * (p * q) == (d * q) * p; }
    MultipleMod(d * q, p);
  }
}
