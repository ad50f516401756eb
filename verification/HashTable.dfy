/**
The chained hash table of switch_hashtable.c.
*/
module HashTable {
  import opened CInt
  import opened HashChains
  import opened HashGrow

  /* The walk along a chain that searching and removing share. */
  method FindInChain<V>(ci: bool, chain: seq<Entry<V>>, h: Uint32, key: Key) returns (j: nat)
    ensures j == Scan(ci, chain, h, key)
  {
    hide Fold;
    j := 0;
    while j < |chain| && !Matches(ci, chain[j], h, key)
      invariant j <= |chain|
      invariant Scan(ci, chain, h, key) == j + Scan(ci, chain[j..], h, key)
    {
      assert chain[j..][1..] == chain[j + 1..];
      j := j + 1;
    }
  }

  lemma KeysAlike(ci: bool, k: Key)
    ensures forall k': Key :: SameKey(ci, k', k) <==> Fold(ci, k') == Fold(ci, k)
  {
    forall k': Key
      ensures SameKey(ci, k', k) <==> Fold(ci, k') == Fold(ci, k)
    {
      FoldsAlike(ci, k', k);
    }
  }

  lemma TakesSame<V>(ci: bool, bag: multiset<Entry<V>>, k: Key, gone: multiset<Entry<V>>)
    requires Takes(ci, bag, k, gone)
    ensures if forall e :: e in bag ==> !SameKey(ci, e.k, k) then gone == multiset{}
            else exists e :: e in bag && SameKey(ci, e.k, k) && gone == multiset{e}
  {
    hide Fold, SameKey;
    KeysAlike(ci, k);
  }

  class HashTable<V(!new)> {
    const ci: bool
    var table: Table<V>
    var entrycount: nat
    var loadlimit: nat
    var primeindex: nat

    ghost predicate Sized()
      reads `table, `loadlimit, `primeindex
    {
      && primeindex < PRIME_COUNT && |table| == Prime(primeindex)
      && loadlimit == LoadLimit(|table|)
    }

    ghost predicate Shaped()
      reads `table, `loadlimit, `primeindex
    {
      Sized() && Placed(ci, table)
    }

    ghost predicate Valid()
      reads this
    {
      Shaped() && entrycount == |Bag(table)|
    }

    ghost function Contents(): multiset<Entry<V>>
      reads `table
    {
      Bag(table)
    }

    constructor (ci: bool, index: nat)
      requires index < PRIME_COUNT
      ensures Valid() && Contents() == multiset{} && this.ci == ci && |table| == Prime(index) && primeindex == index
    {
      this.ci := ci;
      table := seq(Prime(index), i => []);
      entrycount, loadlimit, primeindex := 0, LoadLimit(Prime(index)), index;
      new;
      EmptyBag(table);
    }

    /* switch_create_hashtable: the first prime above the requested size.
       Without memory the process ends. */
    static method Create(minsize: nat, ci: bool, memory: bool) returns (h: HashTable?<V>, aborted: bool)
      ensures aborted <==> minsize <= 0x4000_0000 && !memory
      ensures h == null <==> minsize > 0x4000_0000 || aborted
      ensures h != null ==>
                fresh(h) && h.Valid() && h.Contents() == multiset{} && h.ci == ci && |h.table| > minsize
      ensures h != null ==> forall i :: 0 <= i < h.primeindex ==> i < PRIME_COUNT && Prime(i) <= minsize
    {
      if minsize > 0x4000_0000 {
        return null, false;
      }
      var pindex := 0;
      while Prime(pindex) <= minsize
        invariant 0 <= pindex < PRIME_COUNT && forall i :: 0 <= i < pindex ==> Prime(i) <= minsize
        decreases PRIME_COUNT - pindex
      {
        pindex := pindex + 1;
      }
      if !memory {
        return null, true;
      }
      h := new HashTable<V>(ci, pindex);
      aborted := false;
    }

    /* hashtable_expand.  Nothing is said about a table whose program has ended
       or been damaged. */
    method Expand(g: Growth<V>) returns (ok: bool, fate: Fate)
      requires Shaped()
      modifies `table, `loadlimit, `primeindex
      ensures fate == if old(primeindex) < PRIME_COUNT - 1 then FateOf(g) else Returned
      ensures ok == (fate == Returned && !g.NoMemory? && old(primeindex) < PRIME_COUNT - 1)
      ensures fate == Returned ==>
                && Sized()
                && (if ok then primeindex == old(primeindex) + 1 && Prime(old(primeindex)) <= Prime(primeindex)
                    else unchanged(this))
                && Contents() == old(Contents()) +
                                 if ok then Strays(g, Prime(old(primeindex)), Prime(primeindex)) else multiset{}
      ensures fate == Returned && Contents() == old(Contents()) && Shaped() <==>
              (old(primeindex) < PRIME_COUNT - 1 ==> Harmless(g, Prime(old(primeindex)), Prime(old(primeindex) + 1)))
    {
      hide HashKey, Bag, Placed, TailPlaced, Prime, LoadLimit, Strays, Harmless;
      if primeindex == PRIME_COUNT - 1 {
        return false, Returned;
      }
      PrimesGrow(primeindex);
      var newsize := Prime(primeindex + 1);
      StraysNone(g, |table|, newsize);
      NoStrays(g, |table|, newsize);
      NothingAdded(Bag(table), Strays(g, |table|, newsize));
      fate := FateOf(g);
      if g.NoMemory? || fate != Returned {
        return false, fate;
      }
      var t;
      if g.Zeroed? {
        t := Rehash(ci, table, newsize);
      } else {
        ghost var tail := NewSlots(g.slot, |table|, newsize);
        t := Redistribute(ci, table, NewSlots(g.slot, |table|, newsize));
        StraysAre(g, |table|, newsize);
        BagOfNone(tail);
        if Bag(tail) == multiset{} {
          EmptyTailPlaced(ci, tail, |table|);
        }
      }
      primeindex := primeindex + 1;
      table := t;
      loadlimit := LoadLimit(newsize);
      return true, Returned;
    }

    /* switch_hashtable_search */
    method Search(k: Key) returns (r: Option<V>)
      requires Valid()
      ensures r.None? <==> !HasKey(ci, Contents(), Fold(ci, k))
      ensures r.Some? ==> exists e :: e in Contents() && Fold(ci, e.k) == Fold(ci, k) && r == Some(e.v)
      ensures r.None? <==> forall e :: e in Contents() ==> !SameKey(ci, e.k, k)
      ensures Unique(ci, Contents()) ==> r == Lookup(ci, Contents(), Fold(ci, k))
    {
      hide HashKey, Fold, Bag, Placed, LoadLimit, Prime, SameKey;
      KeysAlike(ci, k);
      var hashvalue := KeyHash(ci, k);
      var index := hashvalue % |table|;
      ScanFindsKey(ci, table, k);
      var j := FindInChain(ci, table[index], hashvalue, k);
      if j < |table[index]| {
        var e := table[index][j];
        if Unique(ci, Contents()) {
          LookupIs(ci, Contents(), e);
        }
        return Some(e.v);
      }
      return None;
    }

    /* switch_hashtable_remove.  The caller gets the value unless the table
       disposes of it. */
    method Remove(k: Key) returns (r: Option<V>, ghost gone: multiset<Entry<V>>)
      requires Valid()
      modifies `table, `entrycount
      ensures Valid()
      ensures Takes(ci, old(Contents()), k, gone) && Contents() == old(Contents()) - gone
      ensures if forall e :: e in old(Contents()) ==> !SameKey(ci, e.k, k) then gone == multiset{}
              else exists e :: e in old(Contents()) && SameKey(ci, e.k, k) && gone == multiset{e}
      ensures r.Some? ==> exists e :: e in gone && !e.release && r == Some(e.v)
      ensures r.None? ==> forall e :: e in gone ==> e.release
    {
      hide Takes, SameKey, Contents, Valid;
      r, gone := TakeOut(k);
      TakesSame(ci, old(Contents()), k, gone);
    }

    /* _switch_hashtable_remove */
    method TakeOut(k: Key) returns (r: Option<V>, ghost gone: multiset<Entry<V>>)
      requires Valid()
      modifies `table, `entrycount
      ensures Valid()
      ensures Takes(ci, old(Contents()), k, gone) && Contents() == old(Contents()) - gone
      ensures |table| == |old(table)|
      ensures r.Some? ==> exists e :: e in gone && !e.release && r == Some(e.v)
      ensures r.None? ==> forall e :: e in gone ==> e.release
    {
      hide HashKey, Fold, Bag, Placed, LoadLimit, Prime;
      var hashvalue := KeyHash(ci, k);
      var index := hashvalue % |table|;
      ScanFindsKey(ci, table, k);
      var j := FindInChain(ci, table[index], hashvalue, k);
      if j == |table[index]| {
        gone := multiset{};
        return None, gone;
      }
      var e := table[index][j];
      Unlink(index, j);
      entrycount := entrycount - 1;
      r := if e.release then None else Some(e.v);
      gone := multiset{e};
    }

    /* Whether an insertion that takes out this many entries finds the table full. */
    ghost predicate Full(taken: nat)
      reads `entrycount, `loadlimit, `primeindex
    {
      entrycount - taken + 1 > loadlimit && primeindex < PRIME_COUNT - 1
    }

    /* Counts one more entry, and grows the table for it if that is too many. */
    method MakeRoom(g: Growth<V>) returns (fate: Fate, ghost strays: multiset<Entry<V>>)
      requires Shaped()
      modifies `table, `entrycount, `loadlimit, `primeindex
      ensures fate == if old(Full(0)) then FateOf(g) else Returned
      ensures fate == Returned ==>
                && Sized() && entrycount == old(entrycount) + 1
                && primeindex == old(primeindex) + (if old(Full(0)) && !g.NoMemory? then 1 else 0)
                && Prime(old(primeindex)) <= Prime(primeindex)
                && strays == (if old(Full(0)) then Strays(g, Prime(old(primeindex)), Prime(primeindex)) else multiset{})
                && Contents() == old(Contents()) + strays
                && (strays == multiset{} ==> Shaped())
                && (|table| != |old(table)| <==> old(Full(0)) && !g.NoMemory?)
    {
      hide Bag, Placed, Prime, LoadLimit, Strays, Harmless;
      if primeindex < PRIME_COUNT - 1 {
        PrimesGrow(primeindex);
      }
      entrycount := entrycount + 1;
      strays, fate := multiset{}, Returned;
      if entrycount > loadlimit {
        ghost var before := primeindex;
        var ok;
        ok, fate := Expand(g);
        if fate != Returned {
          return;
        }
        strays := if ok then Strays(g, Prime(before), Prime(primeindex)) else multiset{};
        NoStrays(g, Prime(before), Prime(primeindex));
        if ok {
          StraysNone(g, Prime(before), Prime(before + 1));
        }
      }
      NothingAdded(old(Contents()), strays);
    }

    /* switch_hashtable_insert_destructor.  An entry that cannot be allocated is
       not inserted, but what the check for duplicates removed stays removed. */
    method Insert(k: Key, v: V, release: bool, dupCheck: bool, g: Growth<V>, entryMemory: bool)
      returns (ok: bool, fate: Fate, ghost gone: multiset<Entry<V>>, ghost strays: multiset<Entry<V>>)
      requires Valid()
      modifies `table, `entrycount, `loadlimit, `primeindex
      ensures if dupCheck then Takes(ci, old(Contents()), k, gone) else gone == multiset{}
      ensures fate == if old(Full(|gone|)) then FateOf(g) else Returned
      ensures ok == (fate == Returned && entryMemory)
      ensures fate == Returned ==>
                && Sized() && primeindex == old(primeindex) + (if old(Full(|gone|)) && !g.NoMemory? then 1 else 0)
                && Prime(old(primeindex)) <= Prime(primeindex)
                && strays == (if old(Full(|gone|)) then Strays(g, Prime(old(primeindex)), Prime(primeindex))
                              else multiset{})
                && Contents() == old(Contents()) - gone + strays +
                                 (if ok then multiset{Entry(k, v, HashKey(ci, k), release)} else multiset{})
                && (Valid() <==> strays == multiset{})
      ensures fate == Returned ==>
                (|table| != |old(table)| <==>
                 && |old(Contents())| - |gone| + 1 > LoadLimit(|old(table)|)
                 && !g.NoMemory? && old(primeindex) < 25)
      ensures fate == Returned && !ok && strays == multiset{} ==>
                (Contents() == old(Contents()) <==> !dupCheck || !HasKey(ci, old(Contents()), Fold(ci, k)))
    {
      hide HashKey, Fold, Bag, Takes, Placed, Prime, LoadLimit, HasKey, Strays, FateOf;
      FullWhen();
      var hashvalue := KeyHash(ci, k);
      gone := multiset{};
      if dupCheck {
        var removed;
        removed, gone := TakeOut(k);
        TakesNothing(ci, old(Contents()), k, gone);
      }
      ghost var kept := Contents();
      assert kept == old(Contents()) - gone && entrycount == |kept| == old(entrycount) - |gone|;
      ok, fate, strays := Place(Entry(k, v, hashvalue, release), g, entryMemory);
    }

    /* The part of an insertion behind the check for duplicates. */
    method Place(e: Entry<V>, g: Growth<V>, entryMemory: bool)
      returns (ok: bool, fate: Fate, ghost strays: multiset<Entry<V>>)
      requires Valid() && e.h == HashKey(ci, e.k)
      modifies `table, `entrycount, `loadlimit, `primeindex
      ensures fate == if old(Full(0)) then FateOf(g) else Returned
      ensures ok == (fate == Returned && entryMemory)
      ensures fate == Returned ==>
                && Sized() && primeindex == old(primeindex) + (if old(Full(0)) && !g.NoMemory? then 1 else 0)
                && Prime(old(primeindex)) <= Prime(primeindex)
                && strays == (if old(Full(0)) then Strays(g, Prime(old(primeindex)), Prime(primeindex)) else multiset{})
                && Contents() == old(Contents()) + strays + (if ok then multiset{e} else multiset{})
                && (|table| != |old(table)| <==> old(Full(0)) && !g.NoMemory?)
                && (Valid() <==> strays == multiset{})
    {
      hide HashKey, Bag, Placed, Prime, LoadLimit, Strays, FateOf;
      ghost var kept := Contents();
      fate, strays := MakeRoom(g);
      if fate != Returned {
        ok := false;
        return;
      }
      NotEmpty();
      var index := e.h % |table|;
      ok := entryMemory;
      ghost var added := if ok then multiset{e} else multiset{};
      if entryMemory {
        Link(index, e);
      } else {
        entrycount := entrycount - 1;
      }
      assert Contents() == kept + strays + added;
      CountsAgree(kept, strays, added);
    }

    static lemma CountsAgree(kept: multiset<Entry<V>>, strays: multiset<Entry<V>>, added: multiset<Entry<V>>)
      ensures |kept + strays + added| == |kept| + |added| <==> strays == multiset{}
      ensures strays == multiset{} ==> kept + strays + added == kept + added
    {
    }

    lemma FullWhen()
      requires Valid()
      ensures forall taken: nat :: Full(taken) <==>
                |Contents()| - taken + 1 > LoadLimit(|table|) && primeindex < 25
    {
    }

    lemma NotEmpty()
      requires Sized()
      ensures |table| > 0
    {
    }

    method Link(index: nat, e: Entry<V>)
      requires Sized() && Belongs(ci, e, index, |table|) && index < |table|
      modifies `table
      ensures Sized() && |table| == |old(table)| && (Placed(ci, table) <==> old(Placed(ci, table)))
      ensures Contents() == old(Contents()) + multiset{e}
    {
      hide HashKey, Bag, Placed;
      BagPush(table, index, e);
      PushPlaced(ci, table, index, e);
      table := table[index := [e] + table[index]];
    }

    method Unlink(index: nat, j: nat)
      requires Shaped() && index < |table| && j < |table[index]|
      modifies `table
      ensures Shaped()
      ensures old(table[index][j]) in old(Contents())
      ensures Contents() == old(Contents()) - multiset{old(table[index][j])}
    {
      hide HashKey, Bag, Placed, Without;
      WithoutBag(ci, table, index, j);
      table := table[index := Without(table[index], j)];
    }
  }

  // ---- Whole runs ----

  datatype Call<+V> =
    | Put(k: Key, v: V, release: bool, growth: Growth<V>, entryMemory: bool)
    | Delete(k: Key)

  /* What a call means for a map from folded keys: an insertion that finds no
     memory for its entry has already dropped the entry it was to replace. */
  ghost function Effect<V>(ci: bool, m: map<Key, V>, call: Call<V>): map<Key, V> {
    var rest := m - {Fold(ci, call.k)};
    if call.Put? && call.entryMemory then rest[Fold(ci, call.k) := call.v] else rest
  }

  ghost function MapAfter<V>(ci: bool, calls: seq<Call<V>>): map<Key, V> {
    if calls == [] then map[] else Effect(ci, MapAfter(ci, calls[..|calls| - 1]), calls[|calls| - 1])
  }

  /* The call makes a table with these keys grow from the prime at `index`. */
  ghost predicate Grows<V>(ci: bool, m: map<Key, V>, index: nat, call: Call<V>)
    requires index < PRIME_COUNT
  {
    call.Put? && |m - {Fold(ci, call.k)}| + 1 > LoadLimit(Prime(index)) && index < PRIME_COUNT - 1
  }

  ghost function IndexAfter<V>(ci: bool, index: nat, calls: seq<Call<V>>): (r: nat)
    requires index < PRIME_COUNT
    ensures r < PRIME_COUNT
  {
    if calls == [] then index else
      var before, call := calls[..|calls| - 1], calls[|calls| - 1];
      var i := IndexAfter(ci, index, before);
      if Grows(ci, MapAfter(ci, before), i, call) && !call.growth.NoMemory? then i + 1 else i
  }

  /* The call grows the table and the growing does harm. */
  ghost predicate Spoils<V>(ci: bool, m: map<Key, V>, index: nat, call: Call<V>)
    requires index < PRIME_COUNT
  {
    Grows(ci, m, index, call) && !Harmless(call.growth, Prime(index), Prime(index + 1))
  }

  ghost predicate SpoilsAt<V>(ci: bool, index: nat, calls: seq<Call<V>>, n: nat)
    requires index < PRIME_COUNT && n < |calls|
  {
    Spoils(ci, MapAfter(ci, calls[..n]), IndexAfter(ci, index, calls[..n]), calls[n])
  }

  ghost predicate Means<V>(ci: bool, bag: multiset<Entry<V>>, m: map<Key, V>) {
    Unique(ci, bag) && |bag| == |m| && forall f: Key :: Lookup(ci, bag, f) == if f in m then Some(m[f]) else None
  }

  lemma EmptyMeans<V>(ci: bool)
    ensures Means<V>(ci, multiset{}, map[])
  {
    forall f: Key
      ensures Lookup<V>(ci, multiset{}, f) == None
    {
      LookupMissing<V>(ci, multiset{}, f);
    }
  }

  /* What a call takes out of the table and out of the map is one entry or none. */
  lemma SameCount<V>(ci: bool, bag: multiset<Entry<V>>, m: map<Key, V>, gone: multiset<Entry<V>>, k: Key)
    requires Means(ci, bag, m) && Takes(ci, bag, k, gone)
    ensures |bag - gone| == |bag| - |gone| == |m - {Fold(ci, k)}|
  {
    hide Fold, Lookup, Unique, Takes;
    var f := Fold(ci, k);
    TakesNothing(ci, bag, k, gone);
    LookupMissing(ci, bag, f);
    if f in m {
      assert m == (m - {f})[f := m[f]];
    } else {
      assert m - {f} == m;
    }
  }

  lemma PutMeans<V>(ci: bool, bag: multiset<Entry<V>>, m: map<Key, V>, gone: multiset<Entry<V>>, call: Call<V>)
    requires Means(ci, bag, m) && Takes(ci, bag, call.k, gone) && call.Put? && call.entryMemory
    ensures Means(ci, bag - gone + multiset{Entry(call.k, call.v, HashKey(ci, call.k), call.release)}, Effect(ci, m, call))
  {
    hide Fold, Lookup, Unique, Takes, HashKey;
    SameCount(ci, bag, m, gone, call.k);
    InsertionIsMapUpdate(ci, bag, gone, Entry(call.k, call.v, HashKey(ci, call.k), call.release));
  }

  lemma DropMeans<V>(ci: bool, bag: multiset<Entry<V>>, m: map<Key, V>, gone: multiset<Entry<V>>, call: Call<V>)
    requires Means(ci, bag, m) && Takes(ci, bag, call.k, gone) && !(call.Put? && call.entryMemory)
    ensures Means(ci, bag - gone, Effect(ci, m, call))
  {
    hide Fold, Lookup, Unique, Takes;
    SameCount(ci, bag, m, gone, call.k);
    RemovalIsMapRemoval(ci, bag, call.k, gone);
  }

  lemma SpoilsIs<V>(ci: bool, m: map<Key, V>, index: nat, call: Call<V>)
    requires index < PRIME_COUNT && Grows(ci, m, index, call)
    ensures Prime(index) <= Prime(index + 1)
    ensures Spoils(ci, m, index, call) <==>
            FateOf(call.growth) != Returned || Strays(call.growth, Prime(index), Prime(index + 1)) != multiset{}
  {
    hide Strays, LoadLimit;
    PrimesGrow(index);
    StraysNone(call.growth, Prime(index), Prime(index + 1));
  }

  /* What one call does to a table that stands for the map m: whether the program
     goes on undamaged, the entries the table then has, its own and strays, and
     whether it is sound. */
  ghost predicate Went<V>(ci: bool, m: map<Key, V>, index: nat, call: Call<V>, fate: Fate, index': nat,
                          contents: multiset<Entry<V>>, valid: bool, own: multiset<Entry<V>>, strays: multiset<Entry<V>>)
    requires index < PRIME_COUNT
  {
    && fate == (if Grows(ci, m, index, call) then FateOf(call.growth) else Returned)
    && (fate == Returned ==>
          && Means(ci, own, Effect(ci, m, call)) && contents == own + strays
          && index' == index + (if Grows(ci, m, index, call) && !call.growth.NoMemory? then 1 else 0)
          && (valid <==> strays == multiset{}))
    && (fate == Returned && strays == multiset{} <==> !Spoils(ci, m, index, call))
  }

  lemma InsertWent<V>(ci: bool, bag: multiset<Entry<V>>, m: map<Key, V>, index: nat, call: Call<V>, fate: Fate,
                      gone: multiset<Entry<V>>, index': nat, contents: multiset<Entry<V>>, valid: bool,
                      strays: multiset<Entry<V>>)
    requires Means(ci, bag, m) && Takes(ci, bag, call.k, gone) && call.Put? && index < PRIME_COUNT
    requires fate == if Grows(ci, m, index, call) then FateOf(call.growth) else Returned
    requires fate == Returned ==>
               && index' == index + (if Grows(ci, m, index, call) && !call.growth.NoMemory? then 1 else 0)
               && index' < PRIME_COUNT && Prime(index) <= Prime(index')
               && strays == (if Grows(ci, m, index, call) then Strays(call.growth, Prime(index), Prime(index'))
                             else multiset{})
               && contents == Kept(ci, bag, gone, call) + strays
               && (valid <==> strays == multiset{})
    ensures Went(ci, m, index, call, fate, index', contents, valid, Kept(ci, bag, gone, call), strays)
  {
    hide Means, Effect, Takes, Prime, Strays, Spoils, Grows, FateOf, Kept;
    KeptMeans(ci, bag, m, gone, call);
    GrowthSpoils(ci, m, index, call, index', fate, strays);
  }

  /* One insertion on a table that stands for the map m. */
  method Apply<V(!new)>(h: HashTable<V>, call: Call<V>, ghost m: map<Key, V>)
    returns (fate: Fate, ghost own: multiset<Entry<V>>, ghost strays: multiset<Entry<V>>)
    requires h.Valid() && Means(h.ci, h.Contents(), m) && call.Put?
    modifies h
    ensures old(h.primeindex) < PRIME_COUNT
    ensures Went(h.ci, m, old(h.primeindex), call, fate, h.primeindex, h.Contents(), h.Valid(), own, strays)
  {
    hide Means, Effect, Takes, HashKey, Prime, LoadLimit, Bag, Placed, Fold, Strays, Spoils, Grows, FateOf, Went, Kept;
    ghost var bag, index := h.Contents(), h.primeindex;
    MeansCount(h.ci, bag, m);
    FullIs(h);
    var ok;
    ghost var gone;
    ok, fate, gone, strays := h.Insert(call.k, call.v, call.release, true, call.growth, call.entryMemory);
    hide HashTable.Valid, HashTable.Contents, HashTable.Full;
    GrowsIs(h.ci, bag, m, gone, index, call);
    own := Kept(h.ci, bag, gone, call);
    StraysLast(bag - gone, strays, own - (bag - gone));
    KeptSplit(h.ci, bag, gone, call);
    InsertWent(h.ci, bag, m, index, call, fate, gone, h.primeindex, h.Contents(), h.Valid(), strays);
  }

  /* The entries that were inserted, after an insertion that took out `gone`. */
  ghost function Kept<V>(ci: bool, bag: multiset<Entry<V>>, gone: multiset<Entry<V>>, call: Call<V>): multiset<Entry<V>>
    requires call.Put?
  {
    bag - gone + if call.entryMemory then multiset{Entry(call.k, call.v, HashKey(ci, call.k), call.release)} else multiset{}
  }

  lemma KeptSplit<V>(ci: bool, bag: multiset<Entry<V>>, gone: multiset<Entry<V>>, call: Call<V>)
    requires call.Put?
    ensures var own := Kept(ci, bag, gone, call);
            && own == bag - gone + (own - (bag - gone))
            && own - (bag - gone) ==
               if call.entryMemory then multiset{Entry(call.k, call.v, HashKey(ci, call.k), call.release)} else multiset{}
  {
    hide HashKey;
  }

  lemma StraysLast<V>(a: multiset<Entry<V>>, b: multiset<Entry<V>>, c: multiset<Entry<V>>)
    ensures a + b + c == a + c + b
  {
  }

  lemma KeptMeans<V>(ci: bool, bag: multiset<Entry<V>>, m: map<Key, V>, gone: multiset<Entry<V>>, call: Call<V>)
    requires Means(ci, bag, m) && Takes(ci, bag, call.k, gone) && call.Put?
    ensures Means(ci, Kept(ci, bag, gone, call), Effect(ci, m, call))
  {
    hide Means, Effect, Takes, HashKey;
    if call.entryMemory {
      PutMeans(ci, bag, m, gone, call);
    } else {
      DropMeans(ci, bag, m, gone, call);
      assert Kept(ci, bag, gone, call) == bag - gone;
    }
  }

  lemma FullIs<V(!new)>(h: HashTable<V>)
    requires h.Valid()
    ensures h.primeindex < PRIME_COUNT
    ensures forall taken: nat :: h.Full(taken) <==>
              |h.Contents()| - taken + 1 > LoadLimit(Prime(h.primeindex)) && h.primeindex < PRIME_COUNT - 1
  {
  }

  lemma GrowsIs<V>(ci: bool, bag: multiset<Entry<V>>, m: map<Key, V>, gone: multiset<Entry<V>>, index: nat, call: Call<V>)
    requires Means(ci, bag, m) && Takes(ci, bag, call.k, gone) && call.Put? && index < PRIME_COUNT
    ensures Grows(ci, m, index, call) <==> |bag| - |gone| + 1 > LoadLimit(Prime(index)) && index < PRIME_COUNT - 1
  {
    hide Means, Takes, Prime, LoadLimit, Fold;
    SameCount(ci, bag, m, gone, call.k);
  }

  lemma GrowthSpoils<V>(ci: bool, m: map<Key, V>, index: nat, call: Call<V>, index': nat, fate: Fate,
                        strays: multiset<Entry<V>>)
    requires call.Put? && index < PRIME_COUNT
    requires fate == if Grows(ci, m, index, call) then FateOf(call.growth) else Returned
    requires fate == Returned ==>
               && index' == index + (if Grows(ci, m, index, call) && !call.growth.NoMemory? then 1 else 0)
               && index' < PRIME_COUNT && Prime(index) <= Prime(index')
               && strays == (if Grows(ci, m, index, call) then Strays(call.growth, Prime(index), Prime(index'))
                             else multiset{})
    ensures fate == Returned && strays == multiset{} <==> !Spoils(ci, m, index, call)
  {
    hide Strays, Spoils, Prime, LoadLimit, FateOf;
    if Grows(ci, m, index, call) {
      SpoilsIs(ci, m, index, call);
      NoStrays(call.growth, Prime(index), Prime(index + 1));
      if fate == Returned {
        NoStrays(call.growth, Prime(index), Prime(index'));
      }
    } else {
      SpoilsGrows(ci, m, index, call);
    }
  }

  lemma SpoilsGrows<V>(ci: bool, m: map<Key, V>, index: nat, call: Call<V>)
    requires index < PRIME_COUNT
    ensures Spoils(ci, m, index, call) ==> Grows(ci, m, index, call)
  {
  }

  /* One call on a table that stands for the map m. */
  method Step<V(!new)>(h: HashTable<V>, call: Call<V>, ghost m: map<Key, V>)
    returns (fate: Fate, ghost own: multiset<Entry<V>>, ghost strays: multiset<Entry<V>>)
    requires h.Valid() && Means(h.ci, h.Contents(), m)
    modifies h
    ensures old(h.primeindex) < PRIME_COUNT
    ensures Went(h.ci, m, old(h.primeindex), call, fate, h.primeindex, h.Contents(), h.Valid(), own, strays)
  {
    hide Means, Effect, Takes, Prime, LoadLimit, Bag, Placed, Fold, Harmless;
    if call.Put? {
      fate, own, strays := Apply(h, call, m);
    } else {
      ghost var bag := h.Contents();
      var r;
      ghost var gone;
      r, gone := h.Remove(call.k);
      fate, own, strays := Returned, bag - gone, multiset{};
      DropMeans(h.ci, bag, m, gone, call);
    }
  }

  lemma MeansCount<V>(ci: bool, bag: multiset<Entry<V>>, m: map<Key, V>)
    requires Means(ci, bag, m)
    ensures |bag| == |m|
  {
  }

  /* A run of removals and of insertions with the check for duplicates, through
     any number of expansions and failed allocations, up to the first call that
     does harm by growing the table.  If the program goes on undamaged, the table
     has the entries of the map that the calls describe.  It goes on so, and the
     table is sound and has no other entries, if and only if no call does harm. */
  method Replay<V(!new)>(h: HashTable<V>, calls: seq<Call<V>>)
    returns (fate: Fate, ghost own: multiset<Entry<V>>, ghost strays: multiset<Entry<V>>)
    requires h.Valid() && h.Contents() == multiset{}
    requires h.primeindex < PRIME_COUNT && forall n :: 0 <= n < |calls| - 1 ==> !SpoilsAt(h.ci, h.primeindex, calls, n)
    modifies h
    ensures fate == Returned ==>
              && Means(h.ci, own, MapAfter(h.ci, calls)) && h.Contents() == own + strays
              && (h.Valid() <==> strays == multiset{})
    ensures fate == Returned && h.Valid() <==>
            forall n :: 0 <= n < |calls| ==> !SpoilsAt(h.ci, old(h.primeindex), calls, n)
  {
    hide HashTable.Valid, HashTable.Contents, Means, Effect, Spoils, Grows, Prime;
    ghost var index := h.primeindex;
    EmptyMeans<V>(h.ci);
    fate, own, strays := Returned, multiset{}, multiset{};
    for n := 0 to |calls|
      invariant fate == Returned ==>
                  && Means(h.ci, own, MapAfter(h.ci, calls[..n])) && h.Contents() == own + strays
                  && h.primeindex == IndexAfter(h.ci, index, calls[..n])
                  && (h.Valid() <==> strays == multiset{})
      invariant fate == Returned && h.Valid() <==> n == 0 || !SpoilsAt(h.ci, index, calls, n - 1)
    {
      assert calls[..n + 1][..n] == calls[..n];
      assert own + strays == own;
      fate, own, strays := Step(h, calls[n], MapAfter(h.ci, calls[..n]));
    }
    assert calls[..|calls|] == calls;
  }

  /* An insertion into an empty table and a search: another spelling of the key
     finds the value exactly when the table does not mind case. */
  method PutThenSearch<V(!new)>(h: HashTable<V>, k: Key, v: V, release: bool, k': Key) returns (r: Option<V>)
    requires h.Valid() && h.Contents() == multiset{}
    modifies h
    ensures r == if SameKey(h.ci, k, k') then Some(v) else None
    ensures k != k' && SameKey(true, k, k') ==> (r == Some(v) <==> h.ci)
  {
    hide Fold, HashKey, Lookup, Bag, Placed, Prime, LoadLimit;
    FoldsAlike(false, k, k');
    ghost var n := h.primeindex;
    var g: Growth<V> := Zeroed;
    var ok, fate, gone, strays := h.Insert(k, v, release, true, g, true);
    NoStrays(g, Prime(n), Prime(h.primeindex));
    r := h.Search(k');
  }

  /* What a search then finds is the value in the map. */
  method SearchMeans<V(!new)>(h: HashTable<V>, k: Key, ghost m: map<Key, V>) returns (r: Option<V>)
    requires h.Valid() && Means(h.ci, h.Contents(), m)
    ensures r == if Fold(h.ci, k) in m then Some(m[Fold(h.ci, k)]) else None
  {
    hide Fold, Lookup, Unique, HasKey;
    r := h.Search(k);
  }
}
