/**
The result store of SimpleGlob.h as a value: a list of places in a string
buffer, the names found there, and what appending and rearranging do to them.
*/
module GlobStore {
  import opened CString
  import opened Swar

  /* A slot of the argv array: NULL, or a string. */
  datatype Name = Null | Name(text: seq<Octet>)

  function Nulls(n: nat): (s: seq<Name>)
    ensures |s| == n
  {
    seq(n, _ => Null)
  }

  /* offs[n] is the place of the n-th string in the buffer, or -1 for NULL. */
  datatype Store = Store(offs: seq<int>, buffer: seq<Octet>)

  predicate At(buffer: seq<Octet>, o: int) {
    o == -1 || (0 <= o < |buffer| && 0 in buffer[o..])
  }

  function NameAt(buffer: seq<Octet>, o: int): Name
    requires At(buffer, o)
  {
    if o == -1 then Null else Name(Text(buffer[o..]))
  }

  predicate Good(st: Store) {
    forall n :: 0 <= n < |st.offs| ==> At(st.buffer, st.offs[n])
  }

  function Names(st: Store): (s: seq<Name>)
    requires Good(st)
    ensures |s| == |st.offs|
  {
    seq(|st.offs|, n requires 0 <= n < |st.offs| => NameAt(st.buffer, st.offs[n]))
  }

  /* The bytes from o to the NUL of the string there are nobody else's. */
  function End(buffer: seq<Octet>, o: int): int
    requires At(buffer, o)
  {
    if o == -1 then -1 else o + |Text(buffer[o..])| + 1
  }

  ghost predicate Separate(buffer: seq<Octet>, o: int, p: int)
    requires At(buffer, o) && At(buffer, p)
  {
    o == -1 || p == -1 || End(buffer, o) <= p || End(buffer, p) <= o
  }

  ghost predicate Apart(st: Store)
    requires Good(st)
  {
    forall i, j :: 0 <= i < j < |st.offs| ==> Separate(st.buffer, st.offs[i], st.offs[j])
  }

  // ---- Appending ----

  lemma TextExtends(s: seq<Octet>, more: seq<Octet>)
    requires 0 in s
    ensures 0 in s + more && Text(s + more) == Text(s)
  {
    var n := StrLen(s);
    assert (s + more)[n] == 0;
    assert (s + more)[..n] == s[..n];
    FirstNul(s + more, n);
  }

  lemma AtExtends(buffer: seq<Octet>, more: seq<Octet>, o: int)
    requires At(buffer, o)
    ensures At(buffer + more, o) && NameAt(buffer + more, o) == NameAt(buffer, o)
    ensures End(buffer + more, o) == End(buffer, o) <= |buffer|
  {
    if o != -1 {
      assert (buffer + more)[o..] == buffer[o..] + more;
      TextExtends(buffer[o..], more);
    }
  }

  function Appended(st: Store, text: seq<Octet>): Store {
    Store(st.offs + [|st.buffer|], st.buffer + text + [0])
  }

  lemma AppendedAt(buffer: seq<Octet>, text: seq<Octet>)
    requires 0 !in text
    ensures At(buffer + text + [0], |buffer|) && NameAt(buffer + text + [0], |buffer|) == Name(text)
  {
    assert (buffer + text + [0])[|buffer|..] == text + [0];
    TextOf(text, [0]);
  }

  lemma AppendedNames(st: Store, text: seq<Octet>)
    requires Good(st) && 0 !in text
    ensures Good(Appended(st, text)) && Names(Appended(st, text)) == Names(st) + [Name(text)]
  {
    hide At, NameAt;
    var st' := Appended(st, text);
    assert st'.buffer == st.buffer + (text + [0]);
    AppendedAt(st.buffer, text);
    forall n | 0 <= n < |st.offs|
      ensures At(st'.buffer, st'.offs[n]) && NameAt(st'.buffer, st'.offs[n]) == NameAt(st.buffer, st.offs[n])
    {
      AtExtends(st.buffer, text + [0], st.offs[n]);
    }
  }

  lemma AppendedApart(st: Store, text: seq<Octet>)
    requires Good(st) && Apart(st) && 0 !in text
    ensures Good(Appended(st, text)) && Apart(Appended(st, text))
  {
    hide At, NameAt, End;
    AppendedNames(st, text);
    var st' := Appended(st, text);
    assert st'.buffer == st.buffer + (text + [0]);
    forall n | 0 <= n < |st.offs|
      ensures At(st'.buffer, st.offs[n])
      ensures End(st'.buffer, st.offs[n]) == End(st.buffer, st.offs[n]) <= |st.buffer|
    {
      AtExtends(st.buffer, text + [0], st.offs[n]);
    }
    forall i, j | 0 <= i < j < |st'.offs|
      ensures Separate(st'.buffer, st'.offs[i], st'.offs[j])
    {
      assert st'.offs[i] == st.offs[i];
      if j < |st.offs| {
        assert st'.offs[j] == st.offs[j] && Separate(st.buffer, st.offs[i], st.offs[j]);
      }
    }
  }

  // ---- Rearranging ----

  predicate Within(p: seq<nat>, n: nat) {
    |p| == n && forall i :: 0 <= i < n ==> p[i] < n
  }

  ghost predicate EachOnce(p: seq<nat>) {
    && (forall i, j :: 0 <= i < j < |p| ==> p[i] != p[j])
    && (forall v :: 0 <= v < |p| ==> v in p)
  }

  ghost predicate IsPerm(p: seq<nat>, n: nat) {
    Within(p, n) && EachOnce(p)
  }

  function Arranged<T>(s: seq<T>, p: seq<nat>): (r: seq<T>)
    requires Within(p, |s|)
    ensures |r| == |s| && forall i :: 0 <= i < |p| ==> r[i] == s[p[i]]
  {
    seq(|p|, i requires 0 <= i < |p| => s[p[i]])
  }

  lemma PermShrinks(p: seq<nat>, n: nat) returns (k: nat)
    requires IsPerm(p, n) && n > 0
    ensures k < n && p[k] == n - 1 && IsPerm(p[..k] + p[k + 1..], n - 1)
  {
    assert n - 1 in p;
    k :| k < n && p[k] == n - 1;
    var q := p[..k] + p[k + 1..];
    assert forall i :: 0 <= i < |q| ==> q[i] == p[if i < k then i else i + 1];
    forall v | 0 <= v < n - 1
      ensures v in q
    {
      assert v in p;
      var i :| 0 <= i < n && p[i] == v;
      assert q[if i < k then i else i - 1] == v;
    }
  }

  lemma {:induction false} ArrangedKeeps<T>(s: seq<T>, p: seq<nat>)
    requires IsPerm(p, |s|)
    ensures multiset(Arranged(s, p)) == multiset(s)
    decreases |s|
  {
    hide EachOnce;
    if s == [] {
      assert Arranged(s, p) == s;
    } else {
      var n := |s| - 1;
      var k := PermShrinks(p, |s|);
      var q := p[..k] + p[k + 1..];
      ArrangedKeeps(s[..n], q);
      ArrangedSplits(s, p, k);
      MultisetInsert(Arranged(s[..n], q), k, s[n]);
      assert s == s[..n] + [s[n]];
    }
  }

  lemma MultisetInsert<T>(r: seq<T>, k: nat, x: T)
    requires k <= |r|
    ensures multiset(r[..k] + [x] + r[k..]) == multiset(r) + multiset{x}
  {
    assert r == r[..k] + r[k..];
  }

  lemma ArrangedSplits<T>(s: seq<T>, p: seq<nat>, k: nat)
    requires s != [] && IsPerm(p, |s|) && k < |s| && p[k] == |s| - 1 && IsPerm(p[..k] + p[k + 1..], |s| - 1)
    ensures var n, r := |s| - 1, Arranged(s[..|s| - 1], p[..k] + p[k + 1..]);
            Arranged(s, p) == r[..k] + [s[n]] + r[k..]
  {
    var n, q := |s| - 1, p[..k] + p[k + 1..];
    var r := Arranged(s[..n], q);
    var t := r[..k] + [s[n]] + r[k..];
    forall i | 0 <= i < |s|
      ensures Arranged(s, p)[i] == t[i]
    {
      if i < k {
        assert q[i] == p[i];
      } else if i > k {
        assert q[i - 1] == p[i];
      }
    }
  }

  /* The slots from `start` on, in another order. */
  function Rearranged(st: Store, start: nat, p: seq<nat>): Store
    requires start <= |st.offs| && Within(p, |st.offs| - start)
  {
    st.(offs := st.offs[..start] + Arranged(st.offs[start..], p))
  }

  lemma RearrangedNames(st: Store, start: nat, p: seq<nat>)
    requires Good(st) && start <= |st.offs| && IsPerm(p, |st.offs| - start)
    ensures Good(Rearranged(st, start, p))
    ensures Names(Rearranged(st, start, p)) == Names(st)[..start] + Arranged(Names(st)[start..], p)
  {
    hide At, NameAt;
    var st' := Rearranged(st, start, p);
    forall n | 0 <= n < |st'.offs|
      ensures st'.offs[n] == st.offs[if n < start then n else start + p[n - start]]
    {
    }
  }

  lemma RearrangedApart(st: Store, start: nat, p: seq<nat>)
    requires Good(st) && Apart(st) && start <= |st.offs| && IsPerm(p, |st.offs| - start)
    ensures Good(Rearranged(st, start, p)) && Apart(Rearranged(st, start, p))
  {
    hide At, End;
    RearrangedNames(st, start, p);
    var st' := Rearranged(st, start, p);
    forall i, j | 0 <= i < j < |st'.offs|
      ensures Separate(st'.buffer, st'.offs[i], st'.offs[j])
    {
      var i' := if i < start then i else start + p[i - start];
      var j' := if j < start then j else start + p[j - start];
      assert st'.offs[i] == st.offs[i'] && st'.offs[j] == st.offs[j'] && i' != j';
      if i' < j' {
        assert Separate(st.buffer, st.offs[i'], st.offs[j']);
      } else {
        assert Separate(st.buffer, st.offs[j'], st.offs[i']);
      }
    }
  }

  // ---- The order ----

  /* strcmp(s, t) <= 0 */
  predicate LexLe(s: seq<Octet>, t: seq<Octet>) {
    s == [] || (t != [] && (s[0] < t[0] || (s[0] == t[0] && LexLe(s[1..], t[1..]))))
  }

  /* fileSortCompare(a, b) <= 0: NULL sorts first, case does not matter. */
  predicate Le(a: Name, b: Name) {
    a == Null || (b != Null && LexLe(MapBytes(Lower, a.text), MapBytes(Lower, b.text)))
  }

  ghost predicate Sorted(s: seq<Name>) {
    forall i, j :: 0 <= i < j < |s| ==> Le(s[i], s[j])
  }

  lemma {:induction false} LexTotal(s: seq<Octet>, t: seq<Octet>)
    ensures LexLe(s, t) || LexLe(t, s)
  {
    if s != [] && t != [] {
      LexTotal(s[1..], t[1..]);
    }
  }

  lemma {:induction false} LexTransitive(s: seq<Octet>, t: seq<Octet>, u: seq<Octet>)
    requires LexLe(s, t) && LexLe(t, u)
    ensures LexLe(s, u)
  {
    if s != [] && t != [] && u != [] && s[0] == t[0] == u[0] {
      LexTransitive(s[1..], t[1..], u[1..]);
    }
  }

  lemma LeTotal(a: Name, b: Name)
    ensures Le(a, b) || Le(b, a)
  {
    if a != Null && b != Null {
      LexTotal(MapBytes(Lower, a.text), MapBytes(Lower, b.text));
    }
  }

  lemma LeTransitive(a: Name, b: Name, c: Name)
    requires Le(a, b) && Le(b, c)
    ensures Le(a, c)
  {
    if a != Null && b != Null && c != Null {
      LexTransitive(MapBytes(Lower, a.text), MapBytes(Lower, b.text), MapBytes(Lower, c.text));
    }
  }

  /* At the first byte in which two texts differ, case aside, the smaller one
     decides; a text that ends there comes first.  Texts that differ nowhere are
     equal to the order. */
  lemma {:induction false} LexAt(s: seq<Octet>, t: seq<Octet>, k: nat)
    requires k <= |s| && k <= |t| && s[..k] == t[..k]
    ensures LexLe(s, t) <==> LexLe(s[k..], t[k..])
    decreases k
  {
    if k == 0 {
      assert s[0..] == s && t[0..] == t;
    } else {
      assert s[0] == s[..k][0] && t[0] == t[..k][0];
      assert s[1..][..k - 1] == s[..k][1..] && t[1..][..k - 1] == t[..k][1..];
      LexAt(s[1..], t[1..], k - 1);
      assert s[1..][k - 1..] == s[k..] && t[1..][k - 1..] == t[k..];
    }
  }

  lemma LeAt(s: seq<Octet>, t: seq<Octet>, k: nat)
    requires k <= |s| && k <= |t|
    requires forall i :: 0 <= i < k ==> MapByte(Lower, s[i]) == MapByte(Lower, t[i])
    requires k == |s| || k == |t| || MapByte(Lower, s[k]) != MapByte(Lower, t[k])
    ensures Le(Name(s), Name(t)) <==>
            k == |s| || (k < |t| && MapByte(Lower, s[k]) < MapByte(Lower, t[k]))
  {
    hide MapByte;
    var a, b := MapBytes(Lower, s), MapBytes(Lower, t);
    assert a[..k] == b[..k];
    LexAt(a, b, k);
  }

  /* Where two texts part, case aside: at the end of the shorter one, or before. */
  lemma {:induction false} Parting(s: seq<Octet>, t: seq<Octet>) returns (k: nat)
    ensures k <= |s| && k <= |t| && forall i :: 0 <= i < k ==> MapByte(Lower, s[i]) == MapByte(Lower, t[i])
    ensures k == |s| || k == |t| || MapByte(Lower, s[k]) != MapByte(Lower, t[k])
  {
    hide MapByte;
    if s == [] || t == [] || MapByte(Lower, s[0]) != MapByte(Lower, t[0]) {
      k := 0;
    } else {
      k := Parting(s[1..], t[1..]);
      k := k + 1;
    }
  }

  lemma LeBoth(s: seq<Octet>, t: seq<Octet>)
    ensures Le(Name(s), Name(t)) && Le(Name(t), Name(s)) <==>
            |s| == |t| && forall i :: 0 <= i < |s| ==> MapByte(Lower, s[i]) == MapByte(Lower, t[i])
  {
    hide MapByte, Le;
    var k := Parting(s, t);
    LeAt(s, t, k);
    LeAt(t, s, k);
  }

  /* NULL sorts first. */
  lemma NullFirst(s: seq<Octet>)
    ensures Le(Null, Name(s)) && !Le(Name(s), Null) && Le(Null, Null)
  {
  }

  /* qsort with fileSortCompare: some arrangement that sorts, which one among
     equals being up to the library. */
  ghost predicate IsSorter(f: seq<Name> -> seq<nat>) {
    forall s :: IsPerm(f(s), |s|) && Sorted(Arranged(s, f(s)))
  }

  lemma SorterSorts(f: seq<Name> -> seq<nat>, s: seq<Name>)
    requires IsSorter(f)
    ensures IsPerm(f(s), |s|) && Within(f(s), |s|) && Sorted(Arranged(s, f(s)))
  {
  }

  /* The slots from `start` on, sorted. */
  ghost predicate SortedFrom(start: nat, before: seq<Name>, after: seq<Name>) {
    && start <= |before| == |after| && after[..start] == before[..start]
    && Sorted(after[start..]) && multiset(after[start..]) == multiset(before[start..])
  }

  lemma SortsStore(st: Store, start: nat, p: seq<nat>)
    requires Good(st) && Apart(st) && start <= |st.offs| && IsPerm(p, |st.offs| - start)
    requires Sorted(Arranged(Names(st)[start..], p))
    ensures Good(Rearranged(st, start, p)) && Apart(Rearranged(st, start, p))
    ensures SortedFrom(start, Names(st), Names(Rearranged(st, start, p)))
  {
    hide Good, Apart, Names, Rearranged, Sorted, EachOnce;
    RearrangedNames(st, start, p);
    RearrangedApart(st, start, p);
    var rest := Arranged(Names(st)[start..], p);
    ArrangedKeeps(Names(st)[start..], p);
    assert (Names(st)[..start] + rest)[start..] == rest;
  }

  lemma RearrangedIs(st: Store, start: nat, p: seq<nat>)
    requires start <= |st.offs| && Within(p, |st.offs| - start)
    ensures Rearranged(st, start, p) == Store(st.offs[..start] + Arranged(st.offs[start..], p), st.buffer)
  {
  }

  // ---- There is such a function ----

  /* Where x goes in a sorted list. */
  function Slot(s: seq<Name>, x: Name): (k: nat)
    ensures k <= |s|
  {
    if s == [] || Le(x, s[0]) then 0 else 1 + Slot(s[1..], x)
  }

  lemma {:induction false} SlotSplits(s: seq<Name>, x: Name)
    requires Sorted(s)
    ensures forall i :: 0 <= i < Slot(s, x) ==> Le(s[i], x)
    ensures forall i :: Slot(s, x) <= i < |s| ==> Le(x, s[i])
  {
    hide Le;
    if s != [] {
      if Le(x, s[0]) {
        forall i | 0 <= i < |s|
          ensures Le(x, s[i])
        {
          if i > 0 {
            LeTransitive(x, s[0], s[i]);
          }
        }
      } else {
        LeTotal(x, s[0]);
        SlotSplits(s[1..], x);
        forall i | 0 <= i < |s|
          ensures if i < Slot(s, x) then Le(s[i], x) else Le(x, s[i])
        {
          if i > 0 {
            assert s[i] == s[1..][i - 1];
          }
        }
      }
    }
  }

  function Insert<T>(s: seq<T>, k: nat, x: T): (r: seq<T>)
    requires k <= |s|
    ensures |r| == |s| + 1 && forall i :: 0 <= i < |r| ==> r[i] == if i < k then s[i] else if i == k then x else s[i - 1]
  {
    s[..k] + [x] + s[k..]
  }

  lemma InsertSorted(s: seq<Name>, x: Name)
    requires Sorted(s)
    ensures Sorted(Insert(s, Slot(s, x), x))
  {
    hide Le;
    SlotSplits(s, x);
  }

  lemma InsertWithin(q: seq<nat>, n: nat, k: nat)
    requires Within(q, n) && k <= n
    ensures Within(Insert(q, k, n), n + 1)
  {
  }

  /* An order of all but the last name, with the last one put in. */
  function OrderedIn(s: seq<Name>, q: seq<nat>): (p: seq<nat>)
    requires s != [] && Within(q, |s| - 1)
    ensures Within(p, |s|)
  {
    var n := |s| - 1;
    var k := Slot(Arranged(s[..n], q), s[n]);
    InsertWithin(q, n, k);
    Insert(q, k, n)
  }

  function Order(s: seq<Name>): (p: seq<nat>)
    ensures Within(p, |s|)
  {
    if s == [] then [] else OrderedIn(s, Order(s[..|s| - 1]))
  }

  lemma {:induction false} OrderSorts(s: seq<Name>)
    ensures IsPerm(Order(s), |s|) && Sorted(Arranged(s, Order(s)))
  {
    hide Sorted, IsPerm;
    if s == [] {
      OrderOfNone();
    } else {
      var n := |s| - 1;
      OrderSorts(s[..n]);
      var q := Order(s[..n]);
      var r := Arranged(s[..n], q);
      var k := Slot(r, s[n]);
      InsertPerm(q, n, k);
      InsertSorted(r, s[n]);
      ArrangedInsert(s, q, k);
    }
  }

  lemma OrderOfNone()
    ensures IsPerm(Order([]), 0) && Sorted(Arranged([], Order([])))
  {
  }

  lemma ArrangedInsert<T>(s: seq<T>, q: seq<nat>, k: nat)
    requires s != [] && IsPerm(q, |s| - 1) && k < |s| && IsPerm(Insert(q, k, |s| - 1), |s|)
    ensures Arranged(s, Insert(q, k, |s| - 1)) == Insert(Arranged(s[..|s| - 1], q), k, s[|s| - 1])
  {
  }

  lemma InsertPerm(q: seq<nat>, n: nat, k: nat)
    requires IsPerm(q, n) && k <= n
    ensures IsPerm(Insert(q, k, n), n + 1)
  {
    var p := Insert(q, k, n);
    forall v | 0 <= v < n + 1
      ensures v in p
    {
      if v == n {
        assert p[k] == v;
      } else {
        assert v in q;
        var i :| 0 <= i < n && q[i] == v;
        assert p[if i < k then i else i + 1] == v;
      }
    }
  }

  lemma SorterExists()
    ensures IsSorter(Order)
  {
    forall s
      ensures IsPerm(Order(s), |s|) && Sorted(Arranged(s, Order(s)))
    {
      OrderSorts(s);
    }
  }
}
