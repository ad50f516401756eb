/**
The chains of the hash table of switch_hashtable.c as values, keyed by the strings
and hashes of switch_hashtable.h, and the map they stand for.
*/
module HashChains {
  import opened BitOps
  import opened CInt
  import opened CString
  import opened Hash
  import opened Swar

  /* The text of a C string. */
  type Key = s: seq<Octet> | 0 !in s witness []

  datatype Option<+T> = None | Some(value: T)

  /* release: the table disposes of the value when it removes the entry, by
     HASHTABLE_FLAG_FREE_VALUE or a destructor. */
  datatype Entry<+V> = Entry(k: Key, v: V, h: Uint32, release: bool)

  const PRIMES: seq<nat> := [
    53, 97, 193, 389, 769, 1543, 3079, 6151, 12289, 24593, 49157, 98317, 196613, 393241, 786433, 1572869,
    3145739, 6291469, 12582917, 25165843, 50331653, 100663319, 201326611, 402653189, 805306457, 1610612741]

  const PRIME_COUNT: nat := 26

  function Prime(i: nat): (p: nat)
    requires i < PRIME_COUNT
    ensures p > 0
  {
    PRIMES[i]
  }

  /* Two keys are equal, by strcmp or by strcasecmp, when they fold alike. */
  function Fold(ci: bool, k: Key): Key {
    if ci then
      MapKeepsText(Lower, k);
      MapBytes(Lower, k)
    else k
  }

  /* What the comparison of the table says about two keys: the same bytes, or
     with `ci` the same bytes but for the case of ASCII letters. */
  ghost predicate SameKey(ci: bool, a: Key, b: Key) {
    |a| == |b| && forall i :: 0 <= i < |a| ==> a[i] == b[i] || (ci && MapByte(Lower, a[i]) == MapByte(Lower, b[i]))
  }

  lemma FoldsAlike(ci: bool, a: Key, b: Key)
    ensures Fold(ci, a) == Fold(ci, b) <==> SameKey(ci, a, b)
    ensures Fold(true, a) == Fold(true, b) <==>
            |a| == |b| && forall i :: 0 <= i < |a| ==> MapByte(Lower, a[i]) == MapByte(Lower, b[i])
    ensures Fold(false, a) == Fold(false, b) <==> a == b
  {
    hide MapByte;
    var x, y := MapBytes(Lower, a), MapBytes(Lower, b);
    if x == y {
      assert forall i :: 0 <= i < |a| ==> x[i] == y[i];
    }
  }

  /* hash() of switch_hashtable_private.h. */
  function Mix(i: Uint32): Uint32 {
    var i := ToUint32(i + (0xFFFF_FFFF - ToUint32(i * 0x200)));
    var i := ToUint32(Xor(i, Or(i / 0x4000, ToUint32(i * 0x4_0000))));
    var i := ToUint32(i + ToUint32(i * 0x10));
    ToUint32(Xor(i, Or(i / 0x400, ToUint32(i * 0x40_0000))))
  }

  function HashKey(ci: bool, k: Key): Uint32 {
    Mix(HashOf(Fold(ci, k)))
  }

  /* hash() applied to a key in memory, with the hash function of the table. */
  method KeyHash(ci: bool, k: Key) returns (h: Uint32)
    ensures h == HashKey(ci, k) == Mix(HashOf(if ci then MapBytes(Lower, k) else k))
  {
    hide Mix, HashOf;
    var ky := new Octet[|k| + 1](i requires 0 <= i <= |k| => if i < |k| then k[i] else 0);
    assert ky[..] == k + [0];
    TextOf(k, [0]);
    if ci {
      h := HashDefaultCi(ky);
    } else {
      h := HashDefault(ky);
    }
    h := Mix(h);
  }

  /* The least power of two that leaves at most 24 bits of m above it. */
  function Unit(m: nat): (u: nat)
    ensures u > 0
  {
    if m < 0x100_0000 then 1 else 2 * Unit(m / 2)
  }

  /* m as a float: 24 significant bits, rounded to nearest and to even. */
  function Float(m: nat): nat {
    var u := Unit(m);
    var q, r := m / u, m % u;
    if 2 * r < u || (2 * r == u && q % 2 == 0) then q * u else (q + 1) * u
  }

  /* The load limit, ceil(size * 0.65f), in float; 0.65f is 10905190 / 2^24. */
  function LoadLimit(size: nat): nat {
    (Float(Float(size) * 10905190) + 0xFF_FFFF) / 0x100_0000
  }

  /* The unit is the one of 24 significant bits ... */
  lemma {:induction false} UnitOf(m: nat)
    ensures m < Unit(m) * 0x100_0000
    ensures Unit(m) > 1 ==> Unit(m) * 0x80_0000 <= m
  {
    if m >= 0x100_0000 {
      UnitOf(m / 2);
    }
  }

  /* ... and a float is a multiple of it, at most half of it away. */
  lemma FloatNearest(m: nat) returns (q: nat)
    ensures Float(m) == q * Unit(m)
    ensures 2 * m - Unit(m) <= 2 * Float(m) <= 2 * m + Unit(m)
  {
    hide Unit;
    var u := Unit(m);
    Quotient(m, u);
    q := m / u;
    Next(q, u);
    if !(2 * (m % u) < u || (2 * (m % u) == u && q % 2 == 0)) {
      q := q + 1;
    }
  }

  lemma Quotient(m: nat, u: nat)
    requires u > 0
    ensures m == m / u * u + m % u
  {
  }

  lemma Next(q: nat, u: nat)
    ensures (q + 1) * u == q * u + u
  {
  }

  /* The limit is 0.65 of the size, but for the rounding. */
  lemma LimitNearFactor(size: nat)
    ensures 6499998 * size <= 10000000 * LoadLimit(size) <= 6500001 * size + 10000000
  {
    hide Float, Unit;
    var f := Float(size);
    FloatClose(size);
    FloatClose(f * 10905190);
  }

  /* Rounding changes a number by at most one part in 2^24. */
  lemma FloatClose(m: nat)
    ensures 0xFF_FFFF * m <= 0x100_0000 * Float(m) <= 0x100_0001 * m
  {
    hide Float, Unit;
    var q := FloatNearest(m);
    UnitOf(m);
    if Unit(m) == 1 {
      OneUnit(m);
    }
  }

  lemma OneUnit(m: nat)
    requires Unit(m) == 1
    ensures Float(m) == m
  {
  }

  // ---- Tables as values ----

  type Table<V> = seq<seq<Entry<V>>>

  /* All entries, without their places. */
  ghost function Bag<V>(t: Table<V>): multiset<Entry<V>> {
    if t == [] then multiset{} else multiset(t[0]) + Bag(t[1..])
  }

  /* Every entry carries the hash of its key and hangs in the chain it selects. */
  ghost predicate Placed<V>(ci: bool, t: Table<V>) {
    forall i :: 0 <= i < |t| ==> ChainPlaced(ci, t[i], i, |t|)
  }

  ghost predicate ChainPlaced<V>(ci: bool, chain: seq<Entry<V>>, i: nat, n: nat) {
    forall j :: 0 <= j < |chain| ==> Belongs(ci, chain[j], i, n)
  }

  ghost predicate Belongs<V>(ci: bool, e: Entry<V>, i: nat, n: nat) {
    n > 0 && e.h == HashKey(ci, e.k) && i == e.h % n
  }

  lemma {:induction false} BagUpdate<V>(t: Table<V>, i: nat, c: seq<Entry<V>>)
    requires i < |t|
    ensures Bag(t) >= multiset(t[i])
    ensures Bag(t[i := c]) == Bag(t) - multiset(t[i]) + multiset(c)
  {
    if i == 0 {
      assert t[i := c][1..] == t[1..];
    } else {
      var rest := Bag(t[1..]);
      BagUpdate(t[1..], i - 1, c);
      assert t[i := c][1..] == t[1..][i - 1 := c];
      assert multiset(t[0]) + rest - multiset(t[i]) == multiset(t[0]) + (rest - multiset(t[i]));
    }
  }

  lemma {:induction false} BagMember<V>(t: Table<V>, e: Entry<V>) returns (i: nat, j: nat)
    requires e in Bag(t)
    ensures i < |t| && j < |t[i]| && t[i][j] == e
  {
    if e in t[0] {
      i := 0;
      j :| 0 <= j < |t[0]| && t[0][j] == e;
    } else {
      i, j := BagMember(t[1..], e);
      i := i + 1;
    }
  }

  lemma {:induction false} BagHas<V>(t: Table<V>, i: nat, j: nat)
    requires i < |t| && j < |t[i]|
    ensures t[i][j] in Bag(t)
  {
    if i > 0 {
      BagHas(t[1..], i - 1, j);
    }
  }

  lemma {:induction false} EmptyBag<V>(t: Table<V>)
    requires forall i :: 0 <= i < |t| ==> t[i] == []
    ensures Bag(t) == multiset{}
  {
    if t != [] {
      EmptyBag(t[1..]);
    }
  }

  /* The place in a chain where the scan for a key stops. */
  function Scan<V>(ci: bool, chain: seq<Entry<V>>, h: Uint32, key: Key): (j: nat)
    ensures j <= |chain|
    ensures forall l :: 0 <= l < j ==> !Matches(ci, chain[l], h, key)
    ensures j < |chain| ==> Matches(ci, chain[j], h, key)
  {
    if chain == [] || Matches(ci, chain[0], h, key) then 0 else 1 + Scan(ci, chain[1..], h, key)
  }

  /* (hashvalue == e->h) && (h->eqfn(k, e->k)) */
  predicate Matches<V>(ci: bool, e: Entry<V>, h: Uint32, key: Key) {
    e.h == h && Fold(ci, e.k) == Fold(ci, key)
  }

  /* The chain that the hash selects holds every entry with an equal key, since
     keys that fold alike hash alike. */
  lemma ScanFindsKey<V>(ci: bool, t: Table<V>, key: Key)
    requires |t| > 0 && Placed(ci, t)
    ensures var h := HashKey(ci, key);
            var chain := t[h % |t|];
            var j := Scan(ci, chain, h, key);
            && (j == |chain| <==> forall e :: e in Bag(t) ==> Fold(ci, e.k) != Fold(ci, key))
            && (j < |chain| ==> chain[j] in Bag(t) && Fold(ci, chain[j].k) == Fold(ci, key))
  {
    hide HashKey, Fold, Bag;
    var h := HashKey(ci, key);
    var i := h % |t|;
    var chain := t[i];
    var j := Scan(ci, chain, h, key);
    if j < |chain| {
      BagHas(t, i, j);
    } else {
      forall e | e in Bag(t)
        ensures Fold(ci, e.k) != Fold(ci, key)
      {
        var i', j' := BagMember(t, e);
        assert ChainPlaced(ci, t[i'], i', |t|) && Belongs(ci, t[i'][j'], i', |t|);
        EqualKeysHashAlike(ci, e.k, key);
        assert i' == i ==> !Matches(ci, chain[j'], h, key);
      }
    }
  }

  lemma EqualKeysHashAlike(ci: bool, k1: Key, k2: Key)
    ensures Fold(ci, k1) == Fold(ci, k2) ==> HashKey(ci, k1) == HashKey(ci, k2)
  {
  }

  /* Taking entry j out of chain i, and putting one in front of it. */
  function Without<V>(chain: seq<Entry<V>>, j: nat): seq<Entry<V>>
    requires j < |chain|
  {
    chain[..j] + chain[j + 1..]
  }

  lemma BagWithout<V>(t: Table<V>, i: nat, j: nat)
    requires i < |t| && j < |t[i]|
    ensures Bag(t[i := Without(t[i], j)]) == Bag(t) - multiset{t[i][j]} && t[i][j] in Bag(t)
  {
    hide Bag, Without;
    BagUpdate(t, i, Without(t[i], j));
    BagHas(t, i, j);
    MultisetWithout(t[i], j);
  }

  lemma BagPush<V>(t: Table<V>, i: nat, e: Entry<V>)
    requires i < |t|
    ensures Bag(t[i := [e] + t[i]]) == Bag(t) + multiset{e}
  {
    hide Bag;
    BagUpdate(t, i, [e] + t[i]);
    assert multiset([e] + t[i]) == multiset{e} + multiset(t[i]);
  }

  lemma MultisetWithout<V>(chain: seq<Entry<V>>, j: nat)
    requires j < |chain|
    ensures multiset(chain) == multiset(Without(chain, j)) + multiset{chain[j]}
  {
    assert chain == chain[..j] + [chain[j]] + chain[j + 1..];
  }

  lemma WithoutBag<V>(ci: bool, t: Table<V>, i: nat, j: nat)
    requires i < |t| && j < |t[i]| && Placed(ci, t)
    ensures var t' := t[i := Without(t[i], j)];
            Bag(t') == Bag(t) - multiset{t[i][j]} && Placed(ci, t') && t[i][j] in Bag(t)
  {
    hide Bag, Belongs, Without;
    BagWithout(t, i, j);
    WithoutChain(ci, t[i], j, i, |t|);
  }

  lemma WithoutChain<V>(ci: bool, chain: seq<Entry<V>>, j: nat, i: nat, n: nat)
    requires j < |chain| && ChainPlaced(ci, chain, i, n)
    ensures ChainPlaced(ci, Without(chain, j), i, n)
  {
    hide Belongs;
  }

  lemma PushPlaced<V>(ci: bool, t: Table<V>, i: nat, e: Entry<V>)
    requires i < |t| && Belongs(ci, e, i, |t|)
    ensures Placed(ci, t[i := [e] + t[i]]) <==> Placed(ci, t)
  {
    hide Belongs;
    var t' := t[i := [e] + t[i]];
    assert forall j :: 0 <= j < |t[i]| ==> t'[i][j + 1] == t[i][j];
    if Placed(ci, t') {
      forall l | 0 <= l < |t|
        ensures ChainPlaced(ci, t[l], l, |t|)
      {
        assert ChainPlaced(ci, t'[l], l, |t|);
      }
    }
  }

  // ---- What a table means ----

  /* No two entries have equal keys. */
  ghost predicate Unique<V>(ci: bool, bag: multiset<Entry<V>>) {
    && (forall e :: e in bag ==> bag[e] == 1)
    && (forall e, e' :: e in bag && e' in bag && Fold(ci, e.k) == Fold(ci, e'.k) ==> e == e')
  }

  ghost predicate HasKey<V>(ci: bool, bag: multiset<Entry<V>>, folded: Key) {
    exists e :: e in bag && Fold(ci, e.k) == folded
  }

  /* The value under a key, as in a map from folded keys to values. */
  ghost function Lookup<V>(ci: bool, bag: multiset<Entry<V>>, folded: Key): Option<V> {
    if HasKey(ci, bag, folded) then
      var e :| e in bag && Fold(ci, e.k) == folded;
      Some(e.v)
    else None
  }

  lemma LookupMissing<V>(ci: bool, bag: multiset<Entry<V>>, folded: Key)
    ensures Lookup(ci, bag, folded) == None <==> !HasKey(ci, bag, folded)
  {
  }

  lemma LookupIs<V>(ci: bool, bag: multiset<Entry<V>>, e: Entry<V>)
    requires Unique(ci, bag) && e in bag
    ensures Lookup(ci, bag, Fold(ci, e.k)) == Some(e.v)
  {
  }

  /* What a removal for this key takes out of the bag: nothing, or one entry
     with an equal key. */
  ghost predicate Takes<V>(ci: bool, bag: multiset<Entry<V>>, key: Key, gone: multiset<Entry<V>>) {
    if HasKey(ci, bag, Fold(ci, key)) then
      exists e :: e in bag && Fold(ci, e.k) == Fold(ci, key) && gone == multiset{e}
    else gone == multiset{}
  }

  /* A removal leaves the bag as it is exactly when there is no equal key. */
  lemma TakesNothing<V>(ci: bool, bag: multiset<Entry<V>>, key: Key, gone: multiset<Entry<V>>)
    requires Takes(ci, bag, key, gone)
    ensures bag - gone == bag <==> !HasKey(ci, bag, Fold(ci, key))
    ensures |bag - gone| == |bag| - |gone| && |gone| == if HasKey(ci, bag, Fold(ci, key)) then 1 else 0
  {
    hide Fold;
    if HasKey(ci, bag, Fold(ci, key)) {
      var e :| e in bag && Fold(ci, e.k) == Fold(ci, key) && gone == multiset{e};
      assert bag == (bag - gone) + gone;
      assert (bag - gone)[e] == bag[e] - 1;
    } else {
      assert bag - gone == bag;
    }
  }

  /* Where keys are unique, removing is removal from the map ... */
  lemma RemovalIsMapRemoval<V>(ci: bool, bag: multiset<Entry<V>>, key: Key, gone: multiset<Entry<V>>)
    requires Unique(ci, bag) && Takes(ci, bag, key, gone)
    ensures Unique(ci, bag - gone)
    ensures forall f: Key :: Lookup(ci, bag - gone, f) == if f == Fold(ci, key) then None else Lookup(ci, bag, f)
  {
    hide Fold, Lookup;
    var bag' := bag - gone;
    assert !HasKey(ci, bag', Fold(ci, key));
    forall f: Key
      ensures Lookup(ci, bag', f) == if f == Fold(ci, key) then None else Lookup(ci, bag, f)
    {
      if f == Fold(ci, key) || !HasKey(ci, bag, f) {
        assert !HasKey(ci, bag', f);
        LookupMissing(ci, bag', f);
        LookupMissing(ci, bag, f);
      } else {
        var e :| e in bag && Fold(ci, e.k) == f;
        assert e in bag';
        LookupIs(ci, bag, e);
        LookupIs(ci, bag', e);
      }
    }
  }

  /* ... and inserting with the check for duplicates is an update of the map. */
  lemma InsertionIsMapUpdate<V>(ci: bool, bag: multiset<Entry<V>>, gone: multiset<Entry<V>>, e: Entry<V>)
    requires Unique(ci, bag) && Takes(ci, bag, e.k, gone)
    ensures var bag' := bag - gone + multiset{e};
            && Unique(ci, bag')
            && forall f: Key :: Lookup(ci, bag', f) == if f == Fold(ci, e.k) then Some(e.v) else Lookup(ci, bag, f)
  {
    hide Fold, Lookup;
    RemovalIsMapRemoval(ci, bag, e.k, gone);
    var rest := bag - gone;
    var bag' := rest + multiset{e};
    LookupMissing(ci, rest, Fold(ci, e.k));
    assert Unique(ci, bag');
    forall f: Key
      ensures Lookup(ci, bag', f) == if f == Fold(ci, e.k) then Some(e.v) else Lookup(ci, rest, f)
    {
      LookupIs(ci, bag', e);
      if f != Fold(ci, e.k) {
        if HasKey(ci, rest, f) {
          var d :| d in rest && Fold(ci, d.k) == f;
          LookupIs(ci, rest, d);
          LookupIs(ci, bag', d);
        } else {
          assert !HasKey(ci, bag', f);
          LookupMissing(ci, bag', f);
          LookupMissing(ci, rest, f);
        }
      }
    }
  }
}
