/**
The two ways in which hashtable_expand of switch_hashtable.c moves the entries of
a table that grows.
*/
module HashGrow {
  import opened HashChains

  // ---- Into a new table ----

  /* The copying loops of hashtable_expand. */
  method Rehash<V>(ci: bool, old_: Table<V>, size: nat) returns (fresh_: Table<V>)
    requires size > 0 && Placed(ci, old_)
    ensures |fresh_| == size && Placed(ci, fresh_) && Bag(fresh_) == Bag(old_)
  {
    hide Bag, HashKey;
    var t := old_;
    fresh_ := seq(size, i => []);
    EmptyBag(fresh_);
    for i := 0 to |t|
      invariant |t| == |old_| && |fresh_| == size && Placed(ci, fresh_) && Placed(ci, t)
      invariant Bag(t) + Bag(fresh_) == Bag(old_)
      invariant forall l :: 0 <= l < i ==> t[l] == []
    {
      while t[i] != []
        invariant |t| == |old_| && |fresh_| == size && Placed(ci, fresh_) && Placed(ci, t)
        invariant Bag(t) + Bag(fresh_) == Bag(old_)
        invariant forall l :: 0 <= l < i ==> t[l] == []
        decreases |t[i]|
      {
        var e := t[i][0];
        assert Belongs(ci, e, i, |t|) by { assert ChainPlaced(ci, t[i], i, |t|); }
        WithoutBag(ci, t, i, 0);
        assert Without(t[i], 0) == t[i][1..];
        t := t[i := t[i][1..]];
        var index := e.h % size;
        BagPush(fresh_, index, e);
        PushPlaced(ci, fresh_, index, e);
        fresh_ := fresh_[index := [e] + fresh_[index]];
      }
    }
    EmptyBag(t);
  }

  // ---- Reallocating in place ----

  ghost predicate NoEntries<V>(t: Table<V>) {
    forall i :: 0 <= i < |t| ==> t[i] == []
  }

  lemma BagOfNone<V>(t: Table<V>)
    ensures Bag(t) == multiset{} <==> NoEntries(t)
  {
    if NoEntries(t) {
      EmptyBag(t);
    } else {
      var i :| 0 <= i < |t| && t[i] != [];
      BagHas(t, i, 0);
    }
  }

  lemma {:induction false} BagConcat<V>(s: Table<V>, t: Table<V>)
    ensures Bag(s + t) == Bag(s) + Bag(t)
  {
    if s == [] {
      assert s + t == t;
    } else {
      assert (s + t)[1..] == s[1..] + t;
      BagConcat(s[1..], t);
    }
  }

  /* What stands in the slots behind the first n belongs there. */
  ghost predicate TailPlaced<V>(ci: bool, tail: Table<V>, n: nat) {
    forall i :: 0 <= i < |tail| ==> ChainPlaced(ci, tail[i], n + i, n + |tail|)
  }

  ghost predicate Hashed<V>(ci: bool, chain: seq<Entry<V>>) {
    forall j :: 0 <= j < |chain| ==> chain[j].h == HashKey(ci, chain[j].k)
  }

  /* Entries that belong to slot l have been put in front of what was there. */
  ghost predicate Grown<V>(ci: bool, chain: seq<Entry<V>>, base: seq<Entry<V>>, l: nat, size: nat) {
    var k := |chain| - |base|;
    k >= 0 && chain[k..] == base && ChainPlaced(ci, chain[..k], l, size)
  }

  lemma GrownPlaced<V>(ci: bool, chain: seq<Entry<V>>, base: seq<Entry<V>>, l: nat, size: nat)
    requires Grown(ci, chain, base, l, size)
    ensures ChainPlaced(ci, chain, l, size) <==> ChainPlaced(ci, base, l, size)
  {
    hide Belongs;
    var k := |chain| - |base|;
    assert forall j :: 0 <= j < |base| ==> base[j] == chain[k + j];
    assert forall j :: 0 <= j < k ==> chain[..k][j] == chain[j];
    if ChainPlaced(ci, base, l, size) {
      forall j | 0 <= j < |chain|
        ensures Belongs(ci, chain[j], l, size)
      {
        assert j >= k ==> chain[j] == base[j - k];
      }
    }
  }

  lemma GrownPush<V>(ci: bool, chain: seq<Entry<V>>, base: seq<Entry<V>>, l: nat, size: nat, e: Entry<V>)
    requires Grown(ci, chain, base, l, size) && Belongs(ci, e, l, size)
    ensures Grown(ci, [e] + chain, base, l, size)
  {
    hide Belongs;
    var k := |chain| - |base|;
    assert ([e] + chain)[k + 1..] == chain[k..];
    assert ([e] + chain)[..k + 1] == [e] + chain[..k];
  }

  /* How far the in-place loop has come: the chains below i and the first j
     entries of chain i are where they belong in the longer table. */
  ghost predicate Walked<V>(ci: bool, t: Table<V>, tail: Table<V>, n: nat, i: nat, j: nat) {
    && i <= n && n + |tail| == |t| && (i < n ==> j <= |t[i]|)
    && (forall l :: 0 <= l < n ==> Hashed(ci, t[l]))
    && (forall l :: 0 <= l < i ==> ChainPlaced(ci, t[l], l, |t|))
    && (i < n ==> ChainPlaced(ci, t[i][..j], i, |t|))
    && (forall l :: n <= l < |t| ==> Grown(ci, t[l], tail[l - n], l, |t|))
  }

  lemma WalkStart<V>(ci: bool, s: Table<V>, tail: Table<V>)
    requires Placed(ci, s)
    ensures Walked(ci, s + tail, tail, |s|, 0, 0)
  {
    hide HashKey;
    var t := s + tail;
    forall l | 0 <= l < |s|
      ensures Hashed(ci, t[l])
    {
      assert ChainPlaced(ci, s[l], l, |s|);
      assert forall j :: 0 <= j < |s[l]| ==> Belongs(ci, s[l][j], l, |s|);
    }
  }

  lemma WalkStay<V>(ci: bool, t: Table<V>, tail: Table<V>, n: nat, i: nat, j: nat)
    requires Walked(ci, t, tail, n, i, j) && i < n && j < |t[i]| && t[i][j].h % |t| == i
    ensures Walked(ci, t, tail, n, i, j + 1)
  {
    hide HashKey, Grown;
    assert t[i][..j + 1] == t[i][..j] + [t[i][j]];
    assert Hashed(ci, t[i]);
    assert Belongs(ci, t[i][j], i, |t|);
  }

  lemma WalkMove<V>(ci: bool, t: Table<V>, tail: Table<V>, n: nat, i: nat, j: nat)
    requires Walked(ci, t, tail, n, i, j) && i < n && j < |t[i]| && t[i][j].h % |t| != i
    ensures var e := t[i][j];
            var u := t[i := Without(t[i], j)];
            Walked(ci, u[e.h % |t| := [e] + u[e.h % |t|]], tail, n, i, j)
  {
    hide HashKey, Grown, Belongs;
    var e := t[i][j];
    var index := e.h % |t|;
    var u := t[i := Without(t[i], j)];
    var w := u[index := [e] + u[index]];
    assert Hashed(ci, t[i]);
    MovedBelongs(ci, e, |t|);
    HashedWithout(ci, t[i], j);
    assert w[i][..j] == t[i][..j];
    if index >= n {
      GrownPush(ci, t[index], tail[index - n], index, |t|, e);
    } else {
      assert Hashed(ci, t[index]);
    }
  }

  lemma MovedBelongs<V>(ci: bool, e: Entry<V>, n: nat)
    requires n > 0 && e.h == HashKey(ci, e.k)
    ensures Belongs(ci, e, e.h % n, n)
  {
  }

  lemma HashedWithout<V>(ci: bool, chain: seq<Entry<V>>, j: nat)
    requires Hashed(ci, chain) && j < |chain|
    ensures Hashed(ci, Without(chain, j))
  {
  }

  lemma WalkNext<V>(ci: bool, t: Table<V>, tail: Table<V>, n: nat, i: nat)
    requires i < n && i < |t| && Walked(ci, t, tail, n, i, |t[i]|)
    ensures Walked(ci, t, tail, n, i + 1, 0)
  {
    hide HashKey, Grown, Belongs;
    assert t[i][..|t[i]|] == t[i];
    assert i + 1 < n ==> t[i + 1][..0] == [];
  }

  lemma WalkEnd<V>(ci: bool, t: Table<V>, tail: Table<V>, n: nat)
    requires Walked(ci, t, tail, n, n, 0)
    ensures Placed(ci, t) <==> TailPlaced(ci, tail, n)
  {
    hide Grown, ChainPlaced, Hashed;
    forall l | n <= l < |t|
      ensures ChainPlaced(ci, t[l], l, |t|) <==> ChainPlaced(ci, tail[l - n], l, |t|)
    {
      GrownPlaced(ci, t[l], tail[l - n], l, |t|);
    }
    if Placed(ci, t) {
      forall i | 0 <= i < |tail|
        ensures ChainPlaced(ci, tail[i], n + i, n + |tail|)
      {
        assert ChainPlaced(ci, t[n + i], n + i, |t|);
      }
    }
  }

  /* The loop of hashtable_expand for a table that realloc has made longer.  The
     slots behind the old ones are not cleared: `tail` is what they hold. */
  method Redistribute<V>(ci: bool, old_: Table<V>, tail: Table<V>) returns (t: Table<V>)
    requires Placed(ci, old_)
    ensures |t| == |old_| + |tail|
    ensures Bag(t) == Bag(old_) + Bag(tail)
    ensures Placed(ci, t) <==> TailPlaced(ci, tail, |old_|)
  {
    hide Bag, Walked, Placed, TailPlaced, Without;
    var n := |old_|;
    t := old_ + tail;
    BagConcat(old_, tail);
    WalkStart(ci, old_, tail);
    for i := 0 to n
      invariant |t| == n + |tail| && Bag(t) == Bag(old_) + Bag(tail)
      invariant Walked(ci, t, tail, n, i, 0)
    {
      var j := 0;
      while j < |t[i]|
        invariant |t| == n + |tail| && Bag(t) == Bag(old_) + Bag(tail)
        invariant 0 <= j <= |t[i]| && Walked(ci, t, tail, n, i, j)
        decreases |t[i]| - j
      {
        var e := t[i][j];
        var index := e.h % |t|;
        if index == i {
          WalkStay(ci, t, tail, n, i, j);
          j := j + 1;
        } else {
          WalkMove(ci, t, tail, n, i, j);
          BagWithout(t, i, j);
          WithoutLength(t[i], j);
          t := t[i := Without(t[i], j)];
          BagPush(t, index, e);
          t := t[index := [e] + t[index]];
        }
      }
      WalkNext(ci, t, tail, n, i);
    }
    WalkEnd(ci, t, tail, n);
  }

  lemma WithoutLength<V>(chain: seq<Entry<V>>, j: nat)
    requires j < |chain|
    ensures |Without(chain, j)| == |chain| - 1
  {
  }

  /* Where the clearing of a reallocated table goes: it is aimed at the address
     that the first new slot happens to hold, and not at the new slots. */
  datatype Landing = Free | Unmapped | InUse

  /* The answer of the allocator to a table that wants to grow: a cleared new
     table; or only the old one made longer, with `first` in its first new slot,
     and each new slot holding `slot` when the clearing is over; or nothing. */
  datatype Growth<+V> = Zeroed | Unset(first: nat, lands: Landing, slot: nat -> seq<Entry<V>>) | NoMemory

  /* What the clearing does to the program: it ends it at NULL and at an address
     that cannot be written, and it may overwrite memory in use. */
  datatype Fate = Returned | Ended | Damaged

  function FateOf<V>(g: Growth<V>): Fate {
    if !g.Unset? then Returned
    else if g.first == 0 || g.lands == Unmapped then Ended
    else if g.lands == InUse then Damaged
    else Returned
  }

  /* Growing from n slots to `size` brings no harm. */
  ghost predicate Harmless<V>(g: Growth<V>, n: nat, size: nat) {
    g.Unset? ==> FateOf(g) == Returned && forall i :: n <= i < size ==> g.slot(i) == []
  }

  /* What each landing means, from any address but NULL. */
  lemma Landings<V>(first: nat, slot: nat -> seq<Entry<V>>)
    requires first > 0
    ensures FateOf(Unset(first, Unmapped, slot)) == Ended
    ensures FateOf(Unset(first, InUse, slot)) == Damaged
    ensures FateOf(Unset(first, Free, slot)) == Returned
  {
  }

  /* A first new slot that is empty before the clearing ends the program, however
     empty the slots are. */
  lemma NullSlotEnds<V>(lands: Landing, n: nat, size: nat)
    ensures var g: Growth<V> := Unset(0, lands, _ => []);
            FateOf(g) == Ended && !Harmless(g, n, size) && (n <= size ==> Strays(g, n, size) == multiset{})
  {
    var g: Growth<V> := Unset(0, lands, _ => []);
    if n <= size {
      StraysNone(g, n, size);
    }
  }

  /* The new slots of a table that grows from n to size. */
  function NewSlots<V>(slot: nat -> seq<Entry<V>>, n: nat, size: nat): Table<V>
    requires n <= size
  {
    seq(size - n, i requires 0 <= i < size - n => slot(n + i))
  }

  /* The entries that nobody inserted and that growing brings in. */
  ghost function Strays<V>(g: Growth<V>, n: nat, size: nat): multiset<Entry<V>>
    requires n <= size
  {
    if g.Unset? then Bag(NewSlots(g.slot, n, size)) else multiset{}
  }

  /* Growing brings in nothing if and only if the new slots are empty when the
     loop begins. */
  lemma StraysNone<V>(g: Growth<V>, n: nat, size: nat)
    requires n <= size
    ensures Strays(g, n, size) == multiset{} <==>
            (g.Unset? ==> forall i :: n <= i < size ==> g.slot(i) == [])
    ensures Harmless(g, n, size) <==> FateOf(g) == Returned && Strays(g, n, size) == multiset{}
  {
    hide Bag;
    if g.Unset? {
      var tail := NewSlots(g.slot, n, size);
      BagOfNone(tail);
      if NoEntries(tail) {
        forall i | n <= i < size
          ensures g.slot(i) == []
        {
          assert tail[i - n] == g.slot(i);
        }
      }
    }
  }

  lemma NoStrays<V>(g: Growth<V>, n: nat, size: nat)
    requires n <= size
    ensures !g.Unset? ==> Strays(g, n, size) == multiset{}
  {
  }

  lemma StraysAre<V>(g: Growth<V>, n: nat, size: nat)
    requires n <= size && g.Unset?
    ensures Strays(g, n, size) == Bag(NewSlots(g.slot, n, size))
  {
  }

  /* One stray entry in the first new slot is in the table from then on. */
  lemma StrayStays<V>(first: nat, lands: Landing, e: Entry<V>, n: nat, size: nat)
    requires n < size
    ensures e in Strays(Unset(first, lands, i => if i == n then [e] else []), n, size)
  {
    var slot: nat -> seq<Entry<V>> := i => if i == n then [e] else [];
    var tail := NewSlots(slot, n, size);
    assert tail[0] == [e];
    BagHas(tail, 0, 0);
  }

  lemma EmptyTailPlaced<V>(ci: bool, tail: Table<V>, n: nat)
    requires NoEntries(tail)
    ensures TailPlaced(ci, tail, n)
  {
  }

  lemma NothingAdded<V>(a: multiset<Entry<V>>, b: multiset<Entry<V>>)
    ensures a + b == a <==> b == multiset{}
  {
    if a + b == a {
      assert |a + b| == |a| + |b|;
    } else {
      assert b == multiset{} ==> a + b == a;
    }
  }

  lemma PrimesGrow(i: nat)
    requires i + 1 < PRIME_COUNT
    ensures Prime(i) < Prime(i + 1)
  {
  }
}
