/**
PROTECT_INTERFACE and UNPROTECT_INTERFACE of switch_module_interfaces.h as a
state machine over the single steps of any number of threads, together with the
writers that switch_loadable_module.c puts on the same locks.
*/
module Interfaces {

  /* parent[i] is the module that interface i belongs to.  `atomic` says whether
     an increment of a shared counter is one step; in the code it is a load and
     a store. */
  datatype Config = Config(parent: seq<nat>, modules: nat, threads: nat, atomic: bool)

  ghost predicate ValidConfig(c: Config) {
    forall i :: 0 <= i < |c.parent| ==> c.parent[i] < c.modules
  }

  /* Where a thread is: how many statements of the macro on interface i it has
     behind it, and what it has loaded.
     Protect: 1 mutex locked, 2 module locked for reading, 3 interface locked
     for reading, 4 refs counted, 5 parent's refs loaded, 6 and stored.
     Unprotect: 1 mutex locked, 2 interface unlocked, 3 module unlocked, 4 refs
     counted, 5 parent's refs loaded, 6 and stored. */
  datatype Pc = Idle | In(protect: bool, i: nat, k: nat, reg: int)

  /* The fields of the interfaces, then of the modules, then the threads.
     owner[i] is the thread in the mutex of interface i, or -1; out[i] is the
     number of protections of i that have been given and not taken back. */
  datatype State = State(
    refs: seq<int>, readers: seq<int>, writer: seq<bool>, owner: seq<int>, out: seq<nat>,
    modRefs: seq<int>, modReaders: seq<int>, modWriter: seq<bool>,
    pc: seq<Pc>)

  datatype Step =
    | EnterProtect(t: nat, i: nat)
    | EnterUnprotect(t: nat, i: nat)
    | Advance(t: nat)
    | LockModule(m: nat)
    | UnlockModule(m: nat)
    | LockInterface(i: nat)
    | UnlockInterface(i: nat)

  ghost function Init(c: Config): State {
    var n, m := |c.parent|, c.modules;
    State(seq(n, _ => 0), seq(n, _ => 0), seq(n, _ => false), seq(n, _ => -1), seq(n, _ => 0),
          seq(m, _ => 0), seq(m, _ => 0), seq(m, _ => false), seq(c.threads, _ => Idle))
  }

  ghost predicate WellFormed(c: Config, s: State) {
    && |s.refs| == |s.readers| == |s.writer| == |s.owner| == |s.out| == |c.parent|
    && |s.modRefs| == |s.modReaders| == |s.modWriter| == c.modules
    && |s.pc| == c.threads
    && ValidConfig(c)
    && forall t :: 0 <= t < |s.pc| && s.pc[t] != Idle ==> s.pc[t].i < |c.parent| && 1 <= s.pc[t].k <= 6
  }

  /* A thread takes a mutex only when it is free, a read lock only when there is
     no writer, a write lock only when there is nobody; it takes back only a
     protection that was given. */
  ghost predicate Enabled(c: Config, s: State, step: Step)
    requires WellFormed(c, s)
  {
    match step
    case EnterProtect(t, i) => t < |s.pc| && s.pc[t] == Idle && i < |c.parent| && s.owner[i] == -1
    case EnterUnprotect(t, i) =>
      t < |s.pc| && s.pc[t] == Idle && i < |c.parent| && s.owner[i] == -1 && s.out[i] > 0
    case Advance(t) =>
      t < |s.pc| && s.pc[t] != Idle &&
      var pc := s.pc[t];
      pc.protect ==> (pc.k == 1 ==> !s.modWriter[c.parent[pc.i]]) && (pc.k == 2 ==> !s.writer[pc.i])
    case LockModule(m) => m < c.modules && s.modReaders[m] == 0 && !s.modWriter[m]
    case UnlockModule(m) => m < c.modules && s.modWriter[m]
    case LockInterface(i) => i < |c.parent| && s.readers[i] == 0 && !s.writer[i]
    case UnlockInterface(i) => i < |c.parent| && s.writer[i]
  }

  ghost function Next(c: Config, s: State, step: Step): State
    requires WellFormed(c, s) && Enabled(c, s, step)
  {
    match step
    case EnterProtect(t, i) => s.(owner := s.owner[i := t], pc := s.pc[t := In(true, i, 1, 0)])
    case EnterUnprotect(t, i) =>
      s.(owner := s.owner[i := t], out := s.out[i := s.out[i] - 1], pc := s.pc[t := In(false, i, 1, 0)])
    case Advance(t) => AdvanceThread(c, s, t)
    case LockModule(m) => s.(modWriter := s.modWriter[m := true])
    case UnlockModule(m) => s.(modWriter := s.modWriter[m := false])
    case LockInterface(i) => s.(writer := s.writer[i := true])
    case UnlockInterface(i) => s.(writer := s.writer[i := false])
  }

  ghost function AdvanceThread(c: Config, s: State, t: nat): State
    requires WellFormed(c, s) && Enabled(c, s, Advance(t))
  {
    var In(protect, i, k, reg) := s.pc[t];
    var m, d := c.parent[i], if protect then 1 else -1;
    var on := s.(pc := s.pc[t := In(protect, i, k + 1, reg)]);
    if k == (if protect then 1 else 2) then on.(modReaders := s.modReaders[m := s.modReaders[m] + d])
    else if k <= 2 then on.(readers := s.readers[i := s.readers[i] + d])
    else if k == 3 then on.(refs := s.refs[i := s.refs[i] + d])
    else if k == 4 then
      if c.atomic then
        s.(pc := s.pc[t := In(protect, i, 6, reg)], modRefs := s.modRefs[m := s.modRefs[m] + d])
      else s.(pc := s.pc[t := In(protect, i, 5, s.modRefs[m])])
    else if k == 5 then on.(modRefs := s.modRefs[m := reg + d])
    else s.(pc := s.pc[t := Idle], owner := s.owner[i := -1],
            out := if protect then s.out[i := s.out[i] + 1] else s.out)
  }

  /* s' comes out of s by these steps, each one enabled. */
  ghost predicate Run(c: Config, s: State, steps: seq<Step>, s': State)
    decreases steps
  {
    if steps == [] then s == s'
    else WellFormed(c, s) && Enabled(c, s, steps[0]) && Run(c, Next(c, s, steps[0]), steps[1..], s')
  }

  // ---- What holds throughout ----

  /* How much a thread inside the macro on its interface adds to the read locks
     on the interface and the module, and to the two counters. */
  ghost function AddsReader(pc: Pc): nat {
    if pc.Idle? then 0 else if pc.protect then (if pc.k >= 3 then 1 else 0) else (if pc.k < 2 then 1 else 0)
  }

  ghost function AddsModReader(pc: Pc): nat {
    if pc.Idle? then 0 else if pc.protect then (if pc.k >= 2 then 1 else 0) else (if pc.k < 3 then 1 else 0)
  }

  ghost function AddsRef(pc: Pc): nat {
    if pc.Idle? then 0 else if pc.protect then (if pc.k >= 4 then 1 else 0) else (if pc.k < 4 then 1 else 0)
  }

  ghost function AddsModRef(pc: Pc): nat {
    if pc.Idle? then 0 else if pc.protect then (if pc.k >= 6 then 1 else 0) else (if pc.k < 6 then 1 else 0)
  }

  /* The thread in the mutex of i, if any. */
  ghost function Holder(s: State, i: nat): Pc
    requires i < |s.owner|
  {
    if 0 <= s.owner[i] < |s.pc| then s.pc[s.owner[i]] else Idle
  }

  /* Mutexes: a thread inside a macro owns the mutex of its interface, and an
     owner is inside. */
  ghost predicate Owned(c: Config, s: State)
    requires WellFormed(c, s)
  {
    && (forall t :: 0 <= t < |s.pc| && s.pc[t] != Idle ==> s.owner[s.pc[t].i] == t)
    && (forall i :: 0 <= i < |s.owner| ==>
          -1 <= s.owner[i] < |s.pc| && (s.owner[i] >= 0 ==> s.pc[s.owner[i]] != Idle && s.pc[s.owner[i]].i == i))
  }

  ghost predicate Counted(s: State, i: nat)
    requires i < |s.refs| && i < |s.readers| && i < |s.out| && i < |s.owner|
  {
    && s.readers[i] == s.out[i] + AddsReader(Holder(s, i))
    && s.refs[i] == s.out[i] + AddsRef(Holder(s, i))
  }

  /* What each interface contributes to its module. */
  ghost function ModReaderShares(s: State): (q: seq<int>)
    requires |s.out| == |s.owner|
    ensures |q| == |s.out|
  {
    seq(|s.out|, i requires 0 <= i < |s.out| => s.out[i] + AddsModReader(Holder(s, i)))
  }

  ghost function ModRefShares(s: State): (q: seq<int>)
    requires |s.out| == |s.owner|
    ensures |q| == |s.out|
  {
    seq(|s.out|, i requires 0 <= i < |s.out| => s.out[i] + AddsModRef(Holder(s, i)))
  }

  /* The sum of q over the interfaces of module m. */
  ghost function SumFor(parent: seq<nat>, m: nat, q: seq<int>): int
    requires |q| == |parent|
  {
    if q == [] then 0
    else (if parent[|q| - 1] == m then q[|q| - 1] else 0) + SumFor(parent[..|q| - 1], m, q[..|q| - 1])
  }

  lemma {:induction false} SumUpdate(parent: seq<nat>, m: nat, q: seq<int>, i: nat, x: int)
    requires |q| == |parent| && i < |q|
    ensures SumFor(parent, m, q[i := x]) == SumFor(parent, m, q) + if parent[i] == m then x - q[i] else 0
  {
    var n := |q| - 1;
    if i < n {
      SumUpdate(parent[..n], m, q[..n], i, x);
      assert q[i := x][..n] == q[..n][i := x];
    } else {
      assert q[i := x][..n] == q[..n];
    }
  }

  lemma {:induction false} SumAtMost(parent: seq<nat>, m: nat, q: seq<int>, r: seq<int>)
    requires |q| == |r| == |parent| && forall i :: 0 <= i < |q| ==> q[i] <= r[i]
    ensures SumFor(parent, m, q) <= SumFor(parent, m, r)
  {
    if q != [] {
      SumAtMost(parent[..|q| - 1], m, q[..|q| - 1], r[..|q| - 1]);
    }
  }

  lemma {:induction false} SumMember(parent: seq<nat>, m: nat, q: seq<int>, i: nat)
    requires |q| == |parent| && i < |q| && parent[i] == m && forall j :: 0 <= j < |q| ==> q[j] >= 0
    ensures 0 <= q[i] <= SumFor(parent, m, q)
  {
    var n := |q| - 1;
    SumZero(parent[..n], m, q[..n]);
    if i < n {
      SumMember(parent[..n], m, q[..n], i);
    }
  }

  lemma {:induction false} SumZero(parent: seq<nat>, m: nat, q: seq<int>)
    requires |q| == |parent| && forall j :: 0 <= j < |q| ==> q[j] >= 0
    ensures SumFor(parent, m, q) >= 0
    ensures (forall j :: 0 <= j < |q| ==> q[j] == 0) ==> SumFor(parent, m, q) == 0
  {
    if q != [] {
      SumZero(parent[..|q| - 1], m, q[..|q| - 1]);
    }
  }

  /* A parent's count is, up to the threads that are on their way, what its
     interfaces contribute. */
  ghost predicate ModCounted(c: Config, s: State, m: nat)
    requires WellFormed(c, s) && m < c.modules
  {
    s.modReaders[m] == SumFor(c.parent, m, ModReaderShares(s))
  }

  ghost predicate Inv(c: Config, s: State) {
    && WellFormed(c, s) && Owned(c, s)
    && (forall i :: 0 <= i < |c.parent| ==> Counted(s, i))
    && (forall m :: 0 <= m < c.modules ==> ModCounted(c, s, m))
    && (forall i :: 0 <= i < |c.parent| && s.writer[i] ==> s.readers[i] == 0)
    && (forall m :: 0 <= m < c.modules && s.modWriter[m] ==> s.modReaders[m] == 0)
  }

  lemma InitInv(c: Config)
    requires ValidConfig(c)
    ensures Inv(c, Init(c))
  {
    var s := Init(c);
    forall m | 0 <= m < c.modules
      ensures ModCounted(c, s, m)
    {
      SumZero(c.parent, m, ModReaderShares(s));
    }
  }

  // ---- Every step keeps it ----

  /* The part of a state that a thread works on while it holds the mutex of
     interface i, and the same state with that part replaced. */
  datatype Local = Local(pc: Pc, owner: int, out: nat, refs: int, readers: int, modReaders: int)

  ghost predicate Inside(c: Config, s: State, t: nat, i: nat)
    requires WellFormed(c, s)
  {
    t < |s.pc| && i < |c.parent| && (if s.pc[t] == Idle then s.owner[i] == -1 else s.pc[t].i == i)
  }

  ghost function With(c: Config, s: State, t: nat, i: nat, l: Local): State
    requires WellFormed(c, s) && t < |s.pc| && i < |c.parent|
  {
    s.(pc := s.pc[t := l.pc], owner := s.owner[i := l.owner], out := s.out[i := l.out],
       refs := s.refs[i := l.refs], readers := s.readers[i := l.readers],
       modReaders := s.modReaders[c.parent[i] := l.modReaders])
  }

  /* A replacement that keeps the books. */
  ghost predicate Balanced(c: Config, s: State, t: nat, i: nat, l: Local)
    requires WellFormed(c, s) && Inside(c, s, t, i)
  {
    var m := c.parent[i];
    && (if l.pc == Idle then l.owner == -1 else l.owner == t && l.pc.i == i && 1 <= l.pc.k <= 6)
    && l.readers == l.out + AddsReader(l.pc)
    && l.refs == l.out + AddsRef(l.pc)
    && l.modReaders - s.modReaders[m] == (l.out + AddsModReader(l.pc)) - (s.out[i] + AddsModReader(s.pc[t]))
    && (s.writer[i] ==> l.readers == 0)
    && (s.modWriter[m] ==> l.modReaders == 0)
  }

  lemma HolderInside(c: Config, s: State, t: nat, i: nat)
    requires WellFormed(c, s) && Owned(c, s) && Inside(c, s, t, i)
    ensures Holder(s, i) == s.pc[t] && s.owner[i] == if s.pc[t] == Idle then -1 else t
  {
  }

  lemma OtherHolders(c: Config, s: State, t: nat, i: nat, l: Local, j: nat)
    requires WellFormed(c, s) && Owned(c, s) && Inside(c, s, t, i) && j < |c.parent|
    requires if l.pc == Idle then l.owner == -1 else l.owner == t
    ensures Holder(With(c, s, t, i, l), j) == if j == i then l.pc else Holder(s, j)
  {
  }

  lemma WithOwned(c: Config, s: State, t: nat, i: nat, l: Local)
    requires WellFormed(c, s) && Owned(c, s) && Inside(c, s, t, i) && Balanced(c, s, t, i, l)
    ensures WellFormed(c, With(c, s, t, i, l)) && Owned(c, With(c, s, t, i, l))
  {
  }

  lemma WithCounted(c: Config, s: State, t: nat, i: nat, l: Local, j: nat)
    requires WellFormed(c, s) && Owned(c, s) && Inside(c, s, t, i) && Balanced(c, s, t, i, l)
    requires j < |c.parent| && Counted(s, j)
    ensures Counted(With(c, s, t, i, l), j)
  {
    OtherHolders(c, s, t, i, l, j);
  }

  lemma WithModCounted(c: Config, s: State, t: nat, i: nat, l: Local, m: nat)
    requires WellFormed(c, s) && Owned(c, s) && Inside(c, s, t, i) && Balanced(c, s, t, i, l)
    requires m < c.modules && ModCounted(c, s, m)
    ensures WellFormed(c, With(c, s, t, i, l)) && ModCounted(c, With(c, s, t, i, l), m)
  {
    hide AddsModReader, Holder;
    WithOwned(c, s, t, i, l);
    var s' := With(c, s, t, i, l);
    var q, q' := ModReaderShares(s), ModReaderShares(s');
    HolderInside(c, s, t, i);
    forall j: nat | j < |c.parent|
      ensures Holder(s', j) == if j == i then l.pc else Holder(s, j)
    {
      OtherHolders(c, s, t, i, l, j);
    }
    assert q' == q[i := l.out + AddsModReader(l.pc)];
    SumUpdate(c.parent, m, q, i, l.out + AddsModReader(l.pc));
  }

  lemma WithInv(c: Config, s: State, t: nat, i: nat, l: Local)
    requires Inv(c, s) && Inside(c, s, t, i) && Balanced(c, s, t, i, l)
    ensures Inv(c, With(c, s, t, i, l))
  {
    hide Counted, ModCounted, Owned;
    var s' := With(c, s, t, i, l);
    WithOwned(c, s, t, i, l);
    forall j | 0 <= j < |c.parent|
      ensures Counted(s', j)
    {
      WithCounted(c, s, t, i, l, j);
    }
    forall m | 0 <= m < c.modules
      ensures ModCounted(c, s', m)
    {
      WithModCounted(c, s, t, i, l, m);
    }
  }

  /* The thread and the interface that a step is about. */
  ghost function ThreadOf(step: Step): nat
    requires step.EnterProtect? || step.EnterUnprotect? || step.Advance?
  {
    step.t
  }

  ghost function InterfaceOf(s: State, step: Step): nat
    requires step.EnterProtect? || step.EnterUnprotect? || (step.Advance? && step.t < |s.pc| && s.pc[step.t] != Idle)
  {
    if step.Advance? then s.pc[step.t].i else step.i
  }

  ghost function LocalOf(c: Config, s: State, t: nat, i: nat): Local
    requires WellFormed(c, s) && t < |s.pc| && i < |c.parent|
  {
    Local(s.pc[t], s.owner[i], s.out[i], s.refs[i], s.readers[i], s.modReaders[c.parent[i]])
  }

  lemma StepIsLocal(c: Config, s: State, step: Step)
    requires Inv(c, s) && Enabled(c, s, step) && (step.EnterProtect? || step.EnterUnprotect? || step.Advance?)
    ensures var s', t, i := Next(c, s, step), ThreadOf(step), InterfaceOf(s, step);
            && Inside(c, s, t, i) && WellFormed(c, s')
            && Balanced(c, s, t, i, LocalOf(c, s', t, i))
            && s' == With(c, s, t, i, LocalOf(c, s', t, i)).(modRefs := s'.modRefs)
  {
    hide SumFor, ModCounted;
    var t, i := ThreadOf(step), InterfaceOf(s, step);
    assert Counted(s, i);
    HolderInside(c, s, t, i);
    ShareAtMost(c, s, i);
    if step.Advance? {
      if s.pc[t].protect {
        ProtectIsBalanced(c, s, t);
      } else {
        UnprotectIsBalanced(c, s, t);
      }
    }
  }

  lemma CountedInside(c: Config, s: State, i: nat)
    requires Inv(c, s) && i < |c.parent|
    ensures s.readers[i] == s.out[i] + AddsReader(Holder(s, i)) && s.refs[i] == s.out[i] + AddsRef(Holder(s, i))
  {
    assert Counted(s, i);
  }

  lemma ProtectIsBalanced(c: Config, s: State, t: nat)
    requires Inv(c, s) && Enabled(c, s, Advance(t)) && s.pc[t].protect
    ensures var s', i := AdvanceThread(c, s, t), s.pc[t].i;
            && Inside(c, s, t, i) && WellFormed(c, s')
            && Balanced(c, s, t, i, LocalOf(c, s', t, i))
            && s' == With(c, s, t, i, LocalOf(c, s', t, i)).(modRefs := s'.modRefs)
  {
    hide SumFor, ModCounted, Owned, Counted;
    var i, k := s.pc[t].i, s.pc[t].k;
    CountedInside(c, s, i);
    HolderInside(c, s, t, i);
    ShareAtMost(c, s, i);
    if k == 1 {
    } else if k == 2 {
    } else if k == 3 {
    } else {
    }
  }

  lemma UnprotectIsBalanced(c: Config, s: State, t: nat)
    requires Inv(c, s) && Enabled(c, s, Advance(t)) && !s.pc[t].protect
    ensures var s', i := AdvanceThread(c, s, t), s.pc[t].i;
            && Inside(c, s, t, i) && WellFormed(c, s')
            && Balanced(c, s, t, i, LocalOf(c, s', t, i))
            && s' == With(c, s, t, i, LocalOf(c, s', t, i)).(modRefs := s'.modRefs)
  {
    hide SumFor, ModCounted, Owned, Counted;
    var i, k := s.pc[t].i, s.pc[t].k;
    CountedInside(c, s, i);
    HolderInside(c, s, t, i);
    ShareAtMost(c, s, i);
    if k == 1 {
    } else if k == 2 {
    } else if k == 3 {
    } else {
    }
  }

  lemma ShareAtMost(c: Config, s: State, i: nat)
    requires Inv(c, s) && i < |c.parent|
    ensures s.out[i] + AddsModReader(Holder(s, i)) <= s.modReaders[c.parent[i]]
  {
    hide SumFor, AddsModReader;
    assert ModCounted(c, s, c.parent[i]);
    SumMember(c.parent, c.parent[i], ModReaderShares(s), i);
  }

  lemma OtherModRefs(c: Config, s: State, refs: seq<int>)
    requires Inv(c, s) && |refs| == |s.modRefs|
    ensures Inv(c, s.(modRefs := refs))
  {
    hide SumFor;
    var s' := s.(modRefs := refs);
    forall i | 0 <= i < |c.parent|
      ensures Counted(s', i) && Holder(s', i) == Holder(s, i)
    {
      assert Counted(s, i);
    }
    assert ModReaderShares(s') == ModReaderShares(s);
    forall m | 0 <= m < c.modules
      ensures ModCounted(c, s', m)
    {
      assert ModCounted(c, s, m);
    }
  }

  lemma OtherWriters(c: Config, s: State, writer: seq<bool>, modWriter: seq<bool>)
    requires Inv(c, s) && |writer| == |s.writer| && |modWriter| == |s.modWriter|
    requires forall i :: 0 <= i < |writer| && writer[i] ==> s.readers[i] == 0
    requires forall m :: 0 <= m < |modWriter| && modWriter[m] ==> s.modReaders[m] == 0
    ensures Inv(c, s.(writer := writer, modWriter := modWriter))
  {
    hide SumFor;
    var s' := s.(writer := writer, modWriter := modWriter);
    forall i | 0 <= i < |c.parent|
      ensures Counted(s', i) && Holder(s', i) == Holder(s, i)
    {
      assert Counted(s, i);
    }
    assert ModReaderShares(s') == ModReaderShares(s);
    forall m | 0 <= m < c.modules
      ensures ModCounted(c, s', m)
    {
      assert ModCounted(c, s, m);
    }
  }

  lemma StepInv(c: Config, s: State, step: Step)
    requires Inv(c, s) && Enabled(c, s, step)
    ensures Inv(c, Next(c, s, step))
  {
    hide Counted, ModCounted, Owned, With, Balanced, LocalOf;
    var s' := Next(c, s, step);
    if step.EnterProtect? || step.EnterUnprotect? || step.Advance? {
      var t, i := ThreadOf(step), InterfaceOf(s, step);
      StepIsLocal(c, s, step);
      WithInv(c, s, t, i, LocalOf(c, s', t, i));
      OtherModRefs(c, With(c, s, t, i, LocalOf(c, s', t, i)), s'.modRefs);
    } else {
      OtherWriters(c, s, s'.writer, s'.modWriter);
    }
  }

  lemma {:induction false} RunInv(c: Config, s: State, steps: seq<Step>, s': State)
    requires Inv(c, s) && Run(c, s, steps, s')
    ensures Inv(c, s')
    decreases steps
  {
    hide Inv, Next, Enabled;
    if steps != [] {
      StepOfRun(c, s, steps[0]);
      RunInv(c, Next(c, s, steps[0]), steps[1..], s');
    }
  }

  lemma StepOfRun(c: Config, s: State, step: Step)
    requires Inv(c, s) && WellFormed(c, s) && Enabled(c, s, step)
    ensures Inv(c, Next(c, s, step))
  {
    StepInv(c, s, step);
  }

  // ---- What follows for the locks and the counters of the interfaces ----

  /* In every state of every run: the read locks on a module are at least those
     on its interfaces; an interface's refs is the number of its protections
     whenever its mutex is free; a writer on a module excludes every reader and
     every protection of its interfaces. */
  lemma Safety(c: Config, steps: seq<Step>, s: State)
    requires ValidConfig(c) && Run(c, Init(c), steps, s)
    ensures WellFormed(c, s)
    ensures forall m :: 0 <= m < c.modules ==> SumFor(c.parent, m, s.readers) <= s.modReaders[m]
    ensures forall i :: 0 <= i < |c.parent| ==> 0 <= s.readers[i] && (s.owner[i] == -1 ==> s.refs[i] == s.out[i])
    ensures forall i :: 0 <= i < |c.parent| && s.modWriter[c.parent[i]] ==> s.readers[i] == 0 && s.out[i] == 0
  {
    hide SumFor, Next, Enabled, Init;
    InitInv(c);
    RunInv(c, Init(c), steps, s);
    var q := ModReaderShares(s);
    forall i | 0 <= i < |c.parent|
      ensures 0 <= s.out[i] <= s.readers[i] <= q[i] && (s.owner[i] == -1 ==> s.refs[i] == s.out[i])
    {
      assert Counted(s, i);
    }
    forall m | 0 <= m < c.modules
      ensures SumFor(c.parent, m, s.readers) <= s.modReaders[m]
    {
      assert ModCounted(c, s, m);
      SumAtMost(c.parent, m, s.readers, q);
    }
    forall i | 0 <= i < |c.parent| && s.modWriter[c.parent[i]]
      ensures s.readers[i] == 0 && s.out[i] == 0
    {
      assert ModCounted(c, s, c.parent[i]);
      SumMember(c.parent, c.parent[i], s.readers, i);
    }
  }

  // ---- The counter of the module ----

  ghost predicate Quiet(s: State) {
    forall t :: 0 <= t < |s.pc| ==> s.pc[t] == Idle
  }

  ghost predicate SumsAgree(c: Config, s: State)
    requires WellFormed(c, s)
  {
    forall m :: 0 <= m < c.modules ==> s.modRefs[m] == SumFor(c.parent, m, s.refs)
  }

  /* No module has two interfaces. */
  ghost predicate Injective(parent: seq<nat>) {
    forall i, j :: 0 <= i < j < |parent| ==> parent[i] != parent[j]
  }

  ghost predicate NoRace(c: Config) {
    c.threads < 2 || c.atomic || Injective(c.parent)
  }

  /* What a thread has loaded is still there, and the counter is what the
     interfaces contribute. */
  ghost predicate RefInv(c: Config, s: State)
    requires WellFormed(c, s)
  {
    && (forall t :: 0 <= t < |s.pc| && s.pc[t] != Idle && s.pc[t].k == 5 ==>
          !c.atomic && s.pc[t].reg == s.modRefs[c.parent[s.pc[t].i]])
    && (forall m :: 0 <= m < c.modules ==> s.modRefs[m] == SumFor(c.parent, m, ModRefShares(s)))
  }

  lemma InitRefInv(c: Config)
    requires ValidConfig(c)
    ensures WellFormed(c, Init(c)) && RefInv(c, Init(c))
  {
    var s := Init(c);
    forall m | 0 <= m < c.modules
      ensures s.modRefs[m] == SumFor(c.parent, m, ModRefShares(s))
    {
      SumZero(c.parent, m, ModRefShares(s));
    }
  }

  /* The contributions after a step of thread t inside interface i. */
  lemma SharesAfter(c: Config, s: State, t: nat, i: nat, l: Local, refs: seq<int>)
    requires WellFormed(c, s) && Owned(c, s) && Inside(c, s, t, i)
    requires if l.pc == Idle then l.owner == -1 else l.owner == t
    ensures ModRefShares(s)[i] == s.out[i] + AddsModRef(s.pc[t])
    ensures ModRefShares(With(c, s, t, i, l).(modRefs := refs)) == ModRefShares(s)[i := l.out + AddsModRef(l.pc)]
  {
    hide AddsModRef;
    HolderInside(c, s, t, i);
    var s' := With(c, s, t, i, l).(modRefs := refs);
    forall j: nat | j < |c.parent|
      ensures Holder(s', j) == if j == i then l.pc else Holder(s, j)
    {
      OtherHolders(c, s, t, i, l, j);
    }
  }

  lemma StepRefInv(c: Config, s: State, step: Step)
    requires Inv(c, s) && RefInv(c, s) && Enabled(c, s, step) && NoRace(c)
    ensures WellFormed(c, Next(c, s, step)) && RefInv(c, Next(c, s, step))
  {
    hide SumFor, ModCounted, Counted, Balanced;
    var s' := Next(c, s, step);
    StepInv(c, s, step);
    if step.EnterProtect? || step.EnterUnprotect? || step.Advance? {
      ThreadRefInv(c, s, step);
    } else {
      assert ModRefShares(s') == ModRefShares(s);
    }
  }

  /* What a step of thread t inside interface i does to its module's counter. */
  lemma ModRefStep(c: Config, s: State, step: Step)
    requires Inv(c, s) && RefInv(c, s) && Enabled(c, s, step)
    requires step.EnterProtect? || step.EnterUnprotect? || step.Advance?
    ensures var s', t, i := Next(c, s, step), ThreadOf(step), InterfaceOf(s, step);
            && i < |c.parent| && |s'.out| == |c.parent| && t < |s'.pc|
            && var m, x := c.parent[i], s'.out[i] + AddsModRef(s'.pc[t]);
            && s'.modRefs == s.modRefs[m := s.modRefs[m] + x - (s.out[i] + AddsModRef(s.pc[t]))]
            && (s'.pc[t] != Idle && s'.pc[t].k == 5 ==> !c.atomic && s'.pc[t].reg == s'.modRefs[m])
  {
    hide SumFor, ModCounted, Counted, Owned;
  }

  lemma ThreadRefInv(c: Config, s: State, step: Step)
    requires Inv(c, s) && RefInv(c, s) && Enabled(c, s, step) && NoRace(c)
    requires step.EnterProtect? || step.EnterUnprotect? || step.Advance?
    ensures WellFormed(c, Next(c, s, step)) && RefInv(c, Next(c, s, step))
  {
    hide SumFor, ModCounted, Counted, AddsModRef, AddsRef, AddsReader, AddsModReader, Next, ModRefShares;
    var s', t, i := Next(c, s, step), ThreadOf(step), InterfaceOf(s, step);
    StepIsLocal(c, s, step);
    ModRefStep(c, s, step);
    var l := LocalOf(c, s', t, i);
    SharesAfter(c, s, t, i, l, s'.modRefs);
    var q, x := ModRefShares(s), l.out + AddsModRef(l.pc);
    forall m | 0 <= m < c.modules
      ensures s'.modRefs[m] == SumFor(c.parent, m, ModRefShares(s'))
    {
      SumUpdate(c.parent, m, q, i, x);
    }
  }

  lemma {:induction false} RunRefInv(c: Config, s: State, steps: seq<Step>, s': State)
    requires Inv(c, s) && RefInv(c, s) && Run(c, s, steps, s') && NoRace(c)
    ensures Inv(c, s') && RefInv(c, s')
    decreases steps
  {
    hide RefInv, Next, Enabled, NoRace;
    if steps != [] {
      StepInv(c, s, steps[0]);
      StepRefInv(c, s, steps[0]);
      RunRefInv(c, Next(c, s, steps[0]), steps[1..], s');
    }
  }

  lemma QuietAgrees(c: Config, s: State)
    requires Inv(c, s) && RefInv(c, s) && Quiet(s)
    ensures SumsAgree(c, s)
  {
    hide SumFor, ModCounted;
    forall i | 0 <= i < |c.parent|
      ensures ModRefShares(s)[i] == s.refs[i]
    {
      assert Counted(s, i);
    }
    assert ModRefShares(s) == s.refs;
  }

  // ---- Without atomic increments it fails as soon as a module has two interfaces ----

  lemma {:induction false} RunConcat(c: Config, s: State, a: seq<Step>, s': State, b: seq<Step>, s'': State)
    requires Run(c, s, a, s') && Run(c, s', b, s'')
    ensures Run(c, s, a + b, s'')
    decreases a
  {
    hide Next, Enabled;
    if a == [] {
      assert a + b == b;
    } else {
      RunConcat(c, Next(c, s, a[0]), a[1..], s', b, s'');
      assert (a + b)[0] == a[0] && (a + b)[1..] == a[1..] + b;
    }
  }

  lemma OneStep(c: Config, s: State, step: Step)
    requires WellFormed(c, s) && Enabled(c, s, step)
    ensures Run(c, s, [step], Next(c, s, step))
  {
    assert [step][1..] == [];
  }

  /* The state after thread t has protected interface i up to the load of the
     module's counter. */
  ghost function Loaded(c: Config, s: State, t: nat, i: nat): State
    requires WellFormed(c, s) && t < |s.pc| && i < |c.parent|
  {
    var m := c.parent[i];
    s.(pc := s.pc[t := In(true, i, 5, s.modRefs[m])], owner := s.owner[i := t],
       refs := s.refs[i := s.refs[i] + 1], readers := s.readers[i := s.readers[i] + 1],
       modReaders := s.modReaders[m := s.modReaders[m] + 1])
  }

  ghost predicate MayProtect(c: Config, s: State, t: nat, i: nat) {
    && WellFormed(c, s) && t < |s.pc| && s.pc[t] == Idle && i < |c.parent|
    && s.owner[i] == -1 && !s.writer[i] && !s.modWriter[c.parent[i]]
  }

  lemma RunLoad(c: Config, s: State, t: nat, i: nat) returns (steps: seq<Step>)
    requires MayProtect(c, s, t, i) && !c.atomic
    ensures Run(c, s, steps, Loaded(c, s, t, i))
  {
    hide Run;
    var s1 := Next(c, s, EnterProtect(t, i));
    var s2 := Next(c, s1, Advance(t));
    var s3 := Next(c, s2, Advance(t));
    var s4 := Next(c, s3, Advance(t));
    var s5 := Next(c, s4, Advance(t));
    assert s5 == Loaded(c, s, t, i);
    OneStep(c, s, EnterProtect(t, i));
    OneStep(c, s1, Advance(t));
    OneStep(c, s2, Advance(t));
    OneStep(c, s3, Advance(t));
    OneStep(c, s4, Advance(t));
    RunConcat(c, s, [EnterProtect(t, i)], s1, [Advance(t)], s2);
    RunConcat(c, s, [EnterProtect(t, i)] + [Advance(t)], s2, [Advance(t)], s3);
    RunConcat(c, s, [EnterProtect(t, i)] + [Advance(t)] + [Advance(t)], s3, [Advance(t)], s4);
    RunConcat(c, s, [EnterProtect(t, i)] + [Advance(t)] + [Advance(t)] + [Advance(t)], s4, [Advance(t)], s5);
    steps := [EnterProtect(t, i)] + [Advance(t)] + [Advance(t)] + [Advance(t)] + [Advance(t)];
  }

  ghost function Stored(c: Config, s: State, t: nat): State
    requires WellFormed(c, s) && t < |s.pc| && s.pc[t] != Idle
  {
    var i := s.pc[t].i;
    s.(pc := s.pc[t := Idle], owner := s.owner[i := -1], out := s.out[i := s.out[i] + 1],
       modRefs := s.modRefs[c.parent[i] := s.pc[t].reg + 1])
  }

  lemma RunStore(c: Config, s: State, t: nat) returns (steps: seq<Step>)
    requires WellFormed(c, s) && t < |s.pc| && s.pc[t] != Idle && s.pc[t].protect && s.pc[t].k == 5
    ensures Run(c, s, steps, Stored(c, s, t))
  {
    hide Run;
    var s1 := Next(c, s, Advance(t));
    var s2 := Next(c, s1, Advance(t));
    assert s2 == Stored(c, s, t);
    OneStep(c, s, Advance(t));
    OneStep(c, s1, Advance(t));
    RunConcat(c, s, [Advance(t)], s1, [Advance(t)], s2);
    steps := [Advance(t)] + [Advance(t)];
  }

  /* Two threads protect two interfaces of one module; both load its counter
     before either stores it. */
  lemma LostUpdate(c: Config, i: nat, j: nat) returns (steps: seq<Step>, s: State)
    requires ValidConfig(c) && !c.atomic && c.threads >= 2
    requires i < j < |c.parent| && c.parent[i] == c.parent[j]
    ensures Run(c, Init(c), steps, s) && Quiet(s) && WellFormed(c, s) && !SumsAgree(c, s)
    ensures s.modRefs[c.parent[i]] == 1 && SumFor(c.parent, c.parent[i], s.refs) == 2
  {
    hide Run, SumFor, Next, Enabled;
    var s0 := Init(c);
    var s1 := Loaded(c, s0, 0, i);
    var s2 := Loaded(c, s1, 1, j);
    var s3 := Stored(c, s2, 0);
    s := Stored(c, s3, 1);
    var a := RunLoad(c, s0, 0, i);
    var b := RunLoad(c, s1, 1, j);
    var d := RunStore(c, s2, 0);
    var e := RunStore(c, s3, 1);
    RunConcat(c, s0, a, s1, b, s2);
    RunConcat(c, s0, a + b, s2, d, s3);
    RunConcat(c, s0, a + b + d, s3, e, s);
    steps := a + b + d + e;
    var m := c.parent[i];
    SumZero(c.parent, m, s0.refs);
    SumUpdate(c.parent, m, s0.refs, i, 1);
    SumUpdate(c.parent, m, s1.refs, j, 1);
    assert SumFor(c.parent, m, s.refs) == 2 && s.modRefs[m] == 1;
  }

  ghost predicate AgreesWhenQuiet(c: Config, steps: seq<Step>, s: State) {
    Run(c, Init(c), steps, s) && Quiet(s) ==> WellFormed(c, s) && SumsAgree(c, s)
  }

  /* A module's counter is the sum of its interfaces' counters in every quiet
     state of every run exactly when there is only one thread, increments are
     atomic or no module has two interfaces. */
  lemma CounterOfModule(c: Config)
    requires ValidConfig(c)
    ensures (forall steps, s :: AgreesWhenQuiet(c, steps, s)) <==> NoRace(c)
  {
    hide Run, SumsAgree, RefInv, Counted, ModCounted, Owned, Init;
    if NoRace(c) {
      forall steps, s
        ensures AgreesWhenQuiet(c, steps, s)
      {
        if Run(c, Init(c), steps, s) && Quiet(s) {
          InitInv(c);
          InitRefInv(c);
          RunRefInv(c, Init(c), steps, s);
          QuietAgrees(c, s);
        }
      }
    } else {
      var i, j :| 0 <= i < j < |c.parent| && c.parent[i] == c.parent[j];
      var steps, s := LostUpdate(c, i, j);
      assert !AgreesWhenQuiet(c, steps, s);
    }
  }
}
