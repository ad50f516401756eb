/**
The lists of event hooks of a session: the two functions that NEW_HOOK_DECL of
switch_core_event_hook.h writes for each kind of hook, on nodes linked in the
heap, and what any history of calls leaves in the list.
*/
module Hooks {

  datatype Status = Success | False | MemErr

  /* One call: an addition, with whether the session's pool has memory for a
     node, or a removal. */
  datatype Call<H> = Add(hook: H, memory: bool) | Remove(hook: H)

  // ---- What one call does to the list of hooks ----

  function Without<H(==)>(s: seq<H>, h: H): (r: seq<H>) {
    if s == [] then [] else if s[0] == h then s[1..] else [s[0]] + Without(s[1..], h)
  }

  lemma {:induction false} WithoutAt<H>(s: seq<H>, p: nat)
    requires p < |s| && s[p] !in s[..p]
    ensures Without(s, s[p]) == s[..p] + s[p + 1..]
  {
    if p > 0 {
      assert s[0] in s[..p];
      assert s[1..][p - 1] == s[p] && s[1..][..p - 1] == s[..p][1..];
      WithoutAt(s[1..], p - 1);
      assert s[1..][p..] == s[p + 1..];
    }
  }

  function Answer<H(==)>(s: seq<H>, call: Call<H>): Status {
    if call.Remove? then if call.hook in s then Success else False
    else if call.hook in s then False else if call.memory then Success else MemErr
  }

  function After<H(==)>(s: seq<H>, call: Call<H>): seq<H> {
    if Answer(s, call) != Success then s
    else if call.Remove? then Without(s, call.hook) else s + [call.hook]
  }

  ghost predicate DropsOne<H>(s: seq<H>, h: H, t: seq<H>) {
    exists k :: 0 <= k < |s| && s[k] == h && t == s[..k] + s[k + 1..]
  }

  ghost predicate Distinct<T>(s: seq<T>) {
    forall i, j :: 0 <= i < j < |s| ==> s[i] != s[j]
  }

  lemma DistinctDrop<T>(s: seq<T>, k: nat)
    requires Distinct(s) && k < |s|
    ensures Distinct(s[..k] + s[k + 1..])
    ensures forall x :: x in s[..k] + s[k + 1..] ==> x in s
  {
    var t := s[..k] + s[k + 1..];
    assert forall i :: 0 <= i < |t| ==> t[i] == s[if i < k then i else i + 1];
  }

  lemma DistinctFrom<T>(s: seq<T>, k: nat)
    requires Distinct(s) && k < |s|
    ensures forall i :: 0 <= i < |s| && i != k ==> s[i] != s[k]
  {
  }

  lemma DistinctAppend<T>(s: seq<T>, x: T)
    requires Distinct(s) && x !in s
    ensures Distinct(s + [x])
  {
  }

  // ---- The linked list ----

  class Node<H> {
    const hook: H
    var next: Node?<H>

    constructor (hook: H)
      ensures this.hook == hook && next == null
    {
      this.hook := hook;
      next := null;
    }
  }

  ghost function Nth<H>(nodes: seq<Node<H>>, k: nat): Node?<H> {
    if k < |nodes| then nodes[k] else null
  }

  ghost predicate Linked<H>(nodes: seq<Node<H>>)
    reads nodes
  {
    forall k :: 0 <= k < |nodes| ==> nodes[k].next == Nth(nodes, k + 1)
  }

  /* Passing over the k-th node links the others. */
  lemma LinkedDrop<H>(nodes: seq<Node<H>>, k: nat)
    requires k < |nodes|
    requires forall i :: 0 <= i < |nodes| ==> nodes[i].next == Nth(nodes, if i == k - 1 then k + 1 else i + 1)
    ensures Linked(nodes[..k] + nodes[k + 1..])
    ensures Nth(nodes[..k] + nodes[k + 1..], 0) == Nth(nodes, if k == 0 then 1 else 0)
  {
    var t := nodes[..k] + nodes[k + 1..];
    forall i | 0 <= i < |t|
      ensures t[i].next == Nth(t, i + 1)
    {
      assert t[i] == nodes[if i < k then i else i + 1];
    }
  }

  ghost function HooksOf<H>(nodes: seq<Node<H>>): (s: seq<H>)
    ensures |s| == |nodes|
  {
    seq(|nodes|, k requires 0 <= k < |nodes| => nodes[k].hook)
  }

  lemma HooksOfDrop<H>(nodes: seq<Node<H>>, k: nat)
    requires k < |nodes|
    ensures HooksOf(nodes[..k] + nodes[k + 1..]) == HooksOf(nodes)[..k] + HooksOf(nodes)[k + 1..]
  {
  }

  class HookList<H(==)> {
    var head: Node?<H>
    ghost var nodes: seq<Node<H>>
    ghost var repr: set<object>

    /* The nodes are distinct and linked in this order, the last one ending the
       list: there is no cycle.  No hook is there twice. */
    ghost predicate Valid()
      reads this, nodes
    {
      && this !in repr && (forall n :: n in nodes ==> n in repr)
      && head == Nth(nodes, 0)
      && Linked(nodes)
      && Distinct(nodes) && Distinct(Contents())
    }

    ghost function Contents(): seq<H>
      reads this
    {
      HooksOf(nodes)
    }

    constructor ()
      ensures Valid() && Contents() == [] && repr == {}
    {
      head := null;
      nodes, repr := [], {};
    }

    lemma InContents(k: nat)
      requires k < |nodes|
      ensures Contents()[k] == nodes[k].hook && nodes[k].hook in Contents()
    {
      assert Contents()[k] == nodes[k].hook;
    }

    /* Puts a new node behind the last one. */
    method Append(last: Node?<H>, hook: Node<H>)
      requires Valid() && hook !in repr && hook.next == null && hook.hook !in Contents()
      requires if nodes == [] then last == null else last == nodes[|nodes| - 1]
      modifies this, repr
      ensures Valid() && repr == old(repr) + {hook} && Contents() == old(Contents()) + [hook.hook]
    {
      DistinctAppend(nodes, hook);
      DistinctAppend(Contents(), hook.hook);
      if head == null {
        head := hook;
      } else {
        last.next := hook;
      }
      nodes, repr := nodes + [hook], repr + {hook};
      assert Contents() == old(Contents()) + [hook.hook];
    }

    method AddHook(h: H, memory: bool) returns (status: Status)
      requires Valid()
      modifies this, repr
      ensures Valid() && fresh(repr - old(repr))
      ensures status == Answer(old(Contents()), Add(h, memory))
      ensures status == False <==> h in old(Contents())
      ensures status == MemErr <==> h !in old(Contents()) && !memory
      ensures Contents() == After(old(Contents()), Add(h, memory))
      ensures Contents() == if h !in old(Contents()) && memory then old(Contents()) + [h] else old(Contents())
    {
      var ptr := head;
      ghost var k := 0;
      while ptr != null && ptr.next != null
        invariant 0 <= k <= |nodes| && ptr == Nth(nodes, k)
        invariant ptr == null ==> nodes == []
        invariant forall i :: 0 <= i < k ==> nodes[i].hook != h
        decreases |nodes| - k
      {
        if ptr.hook == h {
          InContents(k);
          return False;
        }
        ptr, k := ptr.next, k + 1;
      }
      if ptr != null && ptr.hook == h {
        InContents(k);
        return False;
      }
      assert h !in Contents();
      if !memory {
        return MemErr;
      }
      var hook := new Node(h);
      Append(ptr, hook);
      return Success;
    }

    /* Lets the predecessor of the k-th node pass over it. */
    method PassOver(ghost k: nat, last: Node?<H>, ptr: Node<H>)
      requires Valid() && k < |nodes| && ptr == nodes[k]
      requires if k == 0 then last == null else last == nodes[k - 1]
      modifies this`head, repr
      ensures head == Nth(nodes, if k == 0 then 1 else 0)
      ensures forall i :: 0 <= i < |nodes| ==> nodes[i].next == Nth(nodes, if i == k - 1 then k + 1 else i + 1)
    {
      if last != null {
        DistinctFrom(nodes, k - 1);
        last.next := ptr.next;
      } else {
        head := ptr.next;
      }
    }

    /* Takes the k-th node out of the list. */
    method Unlink(ghost k: nat, last: Node?<H>, ptr: Node<H>)
      requires Valid() && k < |nodes| && ptr == nodes[k]
      requires if k == 0 then last == null else last == nodes[k - 1]
      modifies this, repr
      ensures Valid() && repr == old(repr)
      ensures Contents() == old(Contents()[..k] + Contents()[k + 1..])
    {
      hide Distinct, HooksOf, Linked, Nth;
      HooksOfDrop(nodes, k);
      DistinctDrop(nodes, k);
      DistinctDrop(Contents(), k);
      PassOver(k, last, ptr);
      LinkedDrop(nodes, k);
      nodes := nodes[..k] + nodes[k + 1..];
    }

    method RemoveHook(h: H) returns (status: Status)
      requires Valid()
      modifies this, repr
      ensures Valid() && repr == old(repr)
      ensures status == Answer(old(Contents()), Remove(h))
      ensures status == if h in old(Contents()) then Success else False
      ensures Contents() == After(old(Contents()), Remove(h))
      ensures if h in old(Contents()) then DropsOne(old(Contents()), h, Contents()) else Contents() == old(Contents())
    {
      hide Without;
      var ptr, last := head, null;
      ghost var k := 0;
      while ptr != null
        invariant 0 <= k <= |nodes| && ptr == Nth(nodes, k)
        invariant if k == 0 then last == null else last == nodes[k - 1]
        invariant forall i :: 0 <= i < k ==> nodes[i].hook != h
        decreases |nodes| - k
      {
        if ptr.hook == h {
          InContents(k);
          WithoutAt(Contents(), k);
          ghost var s := Contents();
          Unlink(k, last, ptr);
          assert DropsOne(s, h, Contents());
          return Success;
        }
        last, ptr, k := ptr, ptr.next, k + 1;
      }
      return False;
    }
  }

  // ---- Whole histories ----

  ghost function Run<H>(calls: seq<Call<H>>): seq<H> {
    if calls == [] then [] else After(Run(calls[..|calls| - 1]), calls[|calls| - 1])
  }

  /* The linked list follows every history, and every answer says whether the hook
     was there, by the calls before. */
  method Replay<H(==, !new)>(calls: seq<Call<H>>) returns (list: HookList<H>, answers: seq<Status>)
    ensures fresh(list) && list.Valid() && list.Contents() == Run(calls)
    ensures |answers| == |calls|
    ensures forall i :: 0 <= i < |calls| ==>
              var there := exists k :: Live(calls[..i], calls[i].hook, k);
              answers[i] == if calls[i].Remove? then (if there then Success else False)
                            else if there then False else if calls[i].memory then Success else MemErr
  {
    hide After, Answer, HookList.Valid, HookList.Contents, Live;
    list := new HookList();
    answers := [];
    for n := 0 to |calls|
      invariant fresh(list) && fresh(list.repr)
      invariant list.Valid() && list.Contents() == Run(calls[..n])
      invariant |answers| == n
      invariant forall i :: 0 <= i < n ==>
                  var there := exists k :: Live(calls[..i], calls[i].hook, k);
                  answers[i] == if calls[i].Remove? then (if there then Success else False)
                                else if there then False else if calls[i].memory then Success else MemErr
    {
      assert calls[..n + 1][..n] == calls[..n];
      History(calls[..n]);
      var status;
      if calls[n].Add? {
        status := list.AddHook(calls[n].hook, calls[n].memory);
      } else {
        status := list.RemoveHook(calls[n].hook);
      }
      answers := answers + [status];
    }
    assert calls[..|calls|] == calls;
  }

  ghost predicate Removes<H>(call: Call<H>, h: H) {
    call == Remove(h)
  }

  ghost predicate Adds<H>(call: Call<H>, h: H) {
    call == Add(h, true)
  }

  /* The k-th call is the first addition of h, memory permitting, since the last
     removal of h.  This says it in terms of the calls alone. */
  ghost predicate Live<H>(calls: seq<Call<H>>, h: H, k: nat) {
    && k < |calls| && Adds(calls[k], h)
    && (forall r :: k < r < |calls| ==> !Removes(calls[r], h))
    && (forall j :: 0 <= j < k && Adds(calls[j], h) ==> exists r :: j < r < k && Removes(calls[r], h))
  }

  lemma LiveOnce<H>(calls: seq<Call<H>>, h: H, k: nat, l: nat)
    requires Live(calls, h, k) && Live(calls, h, l)
    ensures k == l
  {
  }

  lemma {:induction false} SomeLive<H>(calls: seq<Call<H>>, h: H, j: nat) returns (k: nat)
    requires j < |calls| && Adds(calls[j], h) && forall r :: j < r < |calls| ==> !Removes(calls[r], h)
    ensures Live(calls, h, k)
    decreases j
  {
    if i :| 0 <= i < j && Adds(calls[i], h) && forall r :: i < r < j ==> !Removes(calls[r], h) {
      k := SomeLive(calls, h, i);
    } else {
      k := j;
    }
  }

  /* b[i] is the call that put the i-th hook there. */
  ghost predicate BornAt<H>(calls: seq<Call<H>>, s: seq<H>, b: seq<nat>) {
    && |b| == |s|
    && (forall i, j :: 0 <= i < j < |b| ==> b[i] < b[j])
    && (forall i :: 0 <= i < |s| ==> Live(calls, s[i], b[i]))
  }

  ghost predicate Complete<H(!new)>(calls: seq<Call<H>>, s: seq<H>) {
    forall h, k :: Live(calls, h, k) ==> h in s
  }

  lemma LiveLater<H>(calls: seq<Call<H>>, h: H, k: nat)
    requires calls != [] && k < |calls| - 1
    ensures Live(calls, h, k) <==> Live(calls[..|calls| - 1], h, k) && !Removes(calls[|calls| - 1], h)
  {
    var before := calls[..|calls| - 1];
    if Live(calls, h, k) {
      assert forall r :: 0 <= r < |before| ==> before[r] == calls[r];
      forall j | 0 <= j < k && Adds(before[j], h)
        ensures exists r :: j < r < k && Removes(before[r], h)
      {
        var r :| j < r < k && Removes(calls[r], h);
        assert Removes(before[r], h);
      }
    }
    if Live(before, h, k) && !Removes(calls[|calls| - 1], h) {
      forall j | 0 <= j < k && Adds(calls[j], h)
        ensures exists r :: j < r < k && Removes(calls[r], h)
      {
        assert Adds(before[j], h);
        var r :| j < r < k && Removes(before[r], h);
        assert Removes(calls[r], h);
      }
      forall r | k < r < |calls|
        ensures !Removes(calls[r], h)
      {
        assert r < |before| ==> calls[r] == before[r];
      }
    }
  }

  /* An addition that finds the hook absent starts its life. */
  lemma LiveNow<H(!new)>(calls: seq<Call<H>>, h: H, s: seq<H>)
    requires calls != [] && Adds(calls[|calls| - 1], h) && h !in s && Complete(calls[..|calls| - 1], s)
    ensures Live(calls, h, |calls| - 1)
  {
    var n := |calls| - 1;
    var before := calls[..n];
    forall j | 0 <= j < n && Adds(calls[j], h)
      ensures exists r :: j < r < n && Removes(calls[r], h)
    {
      if forall r :: j < r < n ==> !Removes(calls[r], h) {
        assert Adds(before[j], h);
        var k := SomeLive(before, h, j);
        assert false;
      }
    }
  }

  lemma StillBorn<H>(calls: seq<Call<H>>, s: seq<H>, b: seq<nat>)
    requires calls != [] && BornAt(calls[..|calls| - 1], s, b)
    requires forall i :: 0 <= i < |s| ==> !Removes(calls[|calls| - 1], s[i])
    ensures BornAt(calls, s, b)
  {
    hide Live;
    forall i | 0 <= i < |s|
      ensures Live(calls, s[i], b[i])
    {
      LiveBounds(calls[..|calls| - 1], s[i], b[i]);
      LiveLater(calls, s[i], b[i]);
    }
  }

  lemma LiveBounds<H>(calls: seq<Call<H>>, h: H, k: nat)
    requires Live(calls, h, k)
    ensures k < |calls| && Adds(calls[k], h)
  {
  }

  lemma DistinctBorn<H>(calls: seq<Call<H>>, s: seq<H>, b: seq<nat>)
    requires BornAt(calls, s, b)
    ensures Distinct(s)
  {
    forall i, j | 0 <= i < j < |s|
      ensures s[i] != s[j]
    {
      if s[i] == s[j] {
        LiveOnce(calls, s[i], b[i], b[j]);
      }
    }
  }

  lemma StepAdd<H(!new)>(calls: seq<Call<H>>, s: seq<H>, b: seq<nat>) returns (b': seq<nat>)
    requires calls != [] && calls[|calls| - 1].Add?
    requires BornAt(calls[..|calls| - 1], s, b) && Complete(calls[..|calls| - 1], s)
    ensures BornAt(calls, After(s, calls[|calls| - 1]), b') && Complete(calls, After(s, calls[|calls| - 1]))
  {
    hide Live;
    var n, before := |calls| - 1, calls[..|calls| - 1];
    var h := calls[n].hook;
    StillBorn(calls, s, b);
    b' := b;
    if Adds(calls[n], h) && h !in s {
      LiveNow(calls, h, s);
      forall i | 0 <= i < |b|
        ensures b[i] < n
      {
        LiveBounds(before, s[i], b[i]);
      }
      b' := b + [n];
    }
    forall x, k: nat | Live(calls, x, k)
      ensures x in After(s, calls[n])
    {
      LiveBounds(calls, x, k);
      if k < n {
        LiveLater(calls, x, k);
      } else if x in s {
      } else {
        assert x == h;
      }
    }
  }

  lemma BornDrop<H>(calls: seq<Call<H>>, s: seq<H>, b: seq<nat>, p: nat)
    requires BornAt(calls, s, b) && p < |s|
    ensures |b| == |s| && BornAt(calls, s[..p] + s[p + 1..], b[..p] + b[p + 1..])
    ensures s[p] !in s[..p] + s[p + 1..]
  {
    hide Live;
    DistinctBorn(calls, s, b);
    var t, c := s[..p] + s[p + 1..], b[..p] + b[p + 1..];
    forall i | 0 <= i < |t|
      ensures t[i] == s[if i < p then i else i + 1] && c[i] == b[if i < p then i else i + 1]
    {
    }
  }

  lemma StepRemove<H(!new)>(calls: seq<Call<H>>, s: seq<H>, b: seq<nat>) returns (b': seq<nat>)
    requires calls != [] && calls[|calls| - 1].Remove?
    requires BornAt(calls[..|calls| - 1], s, b) && Complete(calls[..|calls| - 1], s)
    ensures BornAt(calls, After(s, calls[|calls| - 1]), b') && Complete(calls, After(s, calls[|calls| - 1]))
  {
    hide Live, BornAt, Without;
    var n, before := |calls| - 1, calls[..|calls| - 1];
    var h := calls[n].hook;
    var t := s;
    b' := b;
    if h in s {
      var p: nat :| p < |s| && s[p] == h;
      BornDrop(before, s, b, p);
      FirstBorn(before, s, b, p);
      WithoutAt(s, p);
      t, b' := s[..p] + s[p + 1..], b[..p] + b[p + 1..];
    }
    assert t == After(s, calls[n]);
    StillBorn(calls, t, b');
    forall x, k: nat | Live(calls, x, k)
      ensures x in t
    {
      LiveBounds(calls, x, k);
      LiveLater(calls, x, k);
    }
  }

  lemma FirstBorn<H>(calls: seq<Call<H>>, s: seq<H>, b: seq<nat>, p: nat)
    requires BornAt(calls, s, b) && p < |s|
    ensures s[p] !in s[..p]
    ensures forall x :: x in s && x != s[p] ==> x in s[..p] + s[p + 1..]
  {
    DistinctBorn(calls, s, b);
    assert s == s[..p] + [s[p]] + s[p + 1..];
  }

  lemma {:induction false} Births<H(!new)>(calls: seq<Call<H>>) returns (b: seq<nat>)
    ensures BornAt(calls, Run(calls), b) && Complete(calls, Run(calls))
  {
    hide BornAt, Complete, After;
    if calls == [] {
      b := [];
      NoBirths<H>();
    } else {
      b := Births(calls[..|calls| - 1]);
      if calls[|calls| - 1].Add? {
        b := StepAdd(calls, Run(calls[..|calls| - 1]), b);
      } else {
        b := StepRemove(calls, Run(calls[..|calls| - 1]), b);
      }
    }
  }

  lemma NoBirths<H(!new)>()
    ensures BornAt<H>([], [], []) && Complete<H>([], [])
  {
  }

  /* After any history the list has no hook twice, has exactly the hooks added
     and not removed since, and has them in the order of the additions that
     put them there. */
  lemma History<H(!new)>(calls: seq<Call<H>>)
    ensures Distinct(Run(calls))
    ensures forall h :: h in Run(calls) <==> exists k :: Live(calls, h, k)
    ensures forall i, j, k, l :: 0 <= i < |Run(calls)| && 0 <= j < |Run(calls)| ==>
              Live(calls, Run(calls)[i], k) && Live(calls, Run(calls)[j], l) ==> (i < j <==> k < l)
  {
    hide Live, Run;
    var s := Run(calls);
    var b := Births(calls);
    DistinctBorn(calls, s, b);
    forall i, j, k, l | 0 <= i < |s| && 0 <= j < |s| && Live(calls, s[i], k) && Live(calls, s[j], l)
      ensures i < j <==> k < l
    {
      LiveOnce(calls, s[i], b[i], k);
      LiveOnce(calls, s[j], b[j], l);
    }
    forall h | h in s
      ensures exists k :: Live(calls, h, k)
    {
      var i :| 0 <= i < |s| && s[i] == h;
      assert Live(calls, s[i], b[i]);
    }
  }
}
