/**
Runs of the protection protocol of switch_module_interfaces.h: what a writer keeps
out for as long as it holds its lock, and that a protection can be given and taken
back.
*/
module InterfaceRuns {
  import opened Interfaces

  lemma {:induction false} RunSplit(c: Config, s: State, a: seq<Step>, b: seq<Step>, s'': State) returns (s': State)
    requires Run(c, s, a + b, s'')
    ensures Run(c, s, a, s') && Run(c, s', b, s'')
    decreases a
  {
    hide Next, Enabled, WellFormed;
    if a == [] {
      assert a + b == b;
      s' := s;
    } else {
      assert (a + b)[0] == a[0] && (a + b)[1..] == a[1..] + b;
      s' := RunSplit(c, Next(c, s, a[0]), a[1..], b, s'');
    }
  }

  // ---- A writer on a module ----

  lemma {:induction false} ModuleWriterStays(c: Config, s: State, steps: seq<Step>, s': State, m: nat)
    requires Inv(c, s) && Run(c, s, steps, s') && m < |s.modWriter| && s.modWriter[m]
    requires forall i :: 0 <= i < |steps| ==> steps[i] != UnlockModule(m)
    ensures Inv(c, s') && WellFormed(c, s') && m < |s'.modWriter| && s'.modWriter[m]
    decreases steps
  {
    hide Counted, ModCounted, Owned;
    if steps != [] {
      StepInv(c, s, steps[0]);
      ModuleWriterStays(c, Next(c, s, steps[0]), steps[1..], s', m);
    }
  }

  /* From the step that takes the write lock on a module until one that gives it
     back: nobody holds a read lock on the module, no protection of its interfaces
     is out, and a thread on one of them has not got its read lock on the module
     yet or has given it back. */
  lemma ModuleWriterExcludes(c: Config, before: seq<Step>, m: nat, after: seq<Step>, s: State)
    requires ValidConfig(c) && m < c.modules && Run(c, Init(c), before + [LockModule(m)] + after, s)
    requires forall i :: 0 <= i < |after| ==> after[i] != UnlockModule(m)
    ensures WellFormed(c, s) && s.modWriter[m] && s.modReaders[m] == 0
    ensures forall i :: 0 <= i < |c.parent| && c.parent[i] == m ==> s.readers[i] == 0 && s.out[i] == 0
    ensures forall t :: 0 <= t < |s.pc| && s.pc[t] != Idle && c.parent[s.pc[t].i] == m ==>
              if s.pc[t].protect then s.pc[t].k == 1 else s.pc[t].k >= 3
  {
    hide Inv, Run, Init;
    var s1 := LockedAt(c, before, LockModule(m), after, s);
    ModuleWriterStays(c, s1, after, s, m);
    ModuleWriterAlone(c, s, m);
  }

  /* The state after a step in the middle of a run. */
  lemma LockedAt(c: Config, before: seq<Step>, step: Step, after: seq<Step>, s: State) returns (s1: State)
    requires ValidConfig(c) && Run(c, Init(c), before + [step] + after, s)
    ensures Inv(c, s1) && Run(c, s1, after, s)
    ensures step.LockModule? ==> step.m < |s1.modWriter| && s1.modWriter[step.m]
    ensures step.LockInterface? ==> step.i < |s1.writer| && s1.writer[step.i]
  {
    hide Inv, Run, Init;
    InitInv(c);
    s1 := RunSplit(c, Init(c), before + [step], after, s);
    var s0 := RunSplit(c, Init(c), before, [step], s1);
    RunInv(c, Init(c), before, s0);
    LastStep(c, s0, step, s1);
    StepInv(c, s0, step);
  }

  lemma ModuleWriterAlone(c: Config, s: State, m: nat)
    requires Inv(c, s) && m < c.modules && s.modWriter[m]
    ensures s.modReaders[m] == 0
    ensures forall i :: 0 <= i < |c.parent| && c.parent[i] == m ==> s.readers[i] == 0 && s.out[i] == 0
    ensures forall t :: 0 <= t < |s.pc| && s.pc[t] != Idle && c.parent[s.pc[t].i] == m ==>
              if s.pc[t].protect then s.pc[t].k == 1 else s.pc[t].k >= 3
  {
    hide Counted, ModCounted, Owned, SumFor;
    forall i: nat | i < |c.parent| && c.parent[i] == m
      ensures s.readers[i] == 0 && s.out[i] == 0 && AddsModReader(Holder(s, i)) == 0
    {
      NoShare(c, s, i);
    }
    forall t | 0 <= t < |s.pc| && s.pc[t] != Idle && c.parent[s.pc[t].i] == m
      ensures if s.pc[t].protect then s.pc[t].k == 1 else s.pc[t].k >= 3
    {
      HolderInside(c, s, t, s.pc[t].i);
    }
  }

  lemma LastStep(c: Config, s: State, step: Step, s': State)
    requires Run(c, s, [step], s')
    ensures WellFormed(c, s) && Enabled(c, s, step) && s' == Next(c, s, step)
  {
    assert [step][0] == step && [step][1..] == [];
  }

  /* Without read locks on the module its interfaces contribute none. */
  lemma NoShare(c: Config, s: State, i: nat)
    requires Inv(c, s) && i < |c.parent| && s.modReaders[c.parent[i]] == 0
    ensures s.out[i] == 0 && AddsModReader(Holder(s, i)) == 0 && s.readers[i] == 0
  {
    hide SumFor, ModCounted;
    ShareAtMost(c, s, i);
    CountedInside(c, s, i);
  }

  // ---- A writer on an interface ----

  lemma {:induction false} InterfaceWriterStays(c: Config, s: State, steps: seq<Step>, s': State, i: nat)
    requires Inv(c, s) && Run(c, s, steps, s') && i < |s.writer| && s.writer[i]
    requires forall j :: 0 <= j < |steps| ==> steps[j] != UnlockInterface(i)
    ensures Inv(c, s') && WellFormed(c, s') && i < |s'.writer| && s'.writer[i]
    decreases steps
  {
    hide Counted, ModCounted, Owned;
    if steps != [] {
      StepInv(c, s, steps[0]);
      InterfaceWriterStays(c, Next(c, s, steps[0]), steps[1..], s', i);
    }
  }

  /* The same for the write lock on an interface. */
  lemma InterfaceWriterExcludes(c: Config, before: seq<Step>, i: nat, after: seq<Step>, s: State)
    requires ValidConfig(c) && i < |c.parent| && Run(c, Init(c), before + [LockInterface(i)] + after, s)
    requires forall j :: 0 <= j < |after| ==> after[j] != UnlockInterface(i)
    ensures WellFormed(c, s) && s.writer[i] && s.readers[i] == 0 && s.out[i] == 0
    ensures forall t :: 0 <= t < |s.pc| && s.pc[t] != Idle && s.pc[t].i == i ==>
              if s.pc[t].protect then s.pc[t].k <= 2 else s.pc[t].k >= 2
  {
    hide Inv, Run, Init;
    var s1 := LockedAt(c, before, LockInterface(i), after, s);
    InterfaceWriterStays(c, s1, after, s, i);
    InterfaceWriterAlone(c, s, i);
  }

  lemma InterfaceWriterAlone(c: Config, s: State, i: nat)
    requires Inv(c, s) && i < |c.parent| && s.writer[i]
    ensures s.readers[i] == 0 && s.out[i] == 0
    ensures forall t :: 0 <= t < |s.pc| && s.pc[t] != Idle && s.pc[t].i == i ==>
              if s.pc[t].protect then s.pc[t].k <= 2 else s.pc[t].k >= 2
  {
    hide Counted, ModCounted, Owned, SumFor;
    CountedInside(c, s, i);
    forall t | 0 <= t < |s.pc| && s.pc[t] != Idle && s.pc[t].i == i
      ensures if s.pc[t].protect then s.pc[t].k <= 2 else s.pc[t].k >= 2
    {
      HolderInside(c, s, t, i);
    }
  }

  /* Locks that nobody holds can be taken and given back, which changes nothing. */
  lemma WriterComesAndGoes(c: Config, s: State)
    requires WellFormed(c, s)
    ensures forall m :: 0 <= m < c.modules && s.modReaders[m] == 0 && !s.modWriter[m] ==>
              Run(c, s, [LockModule(m), UnlockModule(m)], s)
    ensures forall i :: 0 <= i < |c.parent| && s.readers[i] == 0 && !s.writer[i] ==>
              Run(c, s, [LockInterface(i), UnlockInterface(i)], s)
  {
    forall m: nat | m < c.modules && s.modReaders[m] == 0 && !s.modWriter[m]
      ensures Run(c, s, [LockModule(m), UnlockModule(m)], s)
    {
      var s1 := Next(c, s, LockModule(m));
      assert s.modWriter[m := true][m := false] == s.modWriter;
      TwoSteps(c, s, LockModule(m), UnlockModule(m));
    }
    forall i: nat | i < |c.parent| && s.readers[i] == 0 && !s.writer[i]
      ensures Run(c, s, [LockInterface(i), UnlockInterface(i)], s)
    {
      var s1 := Next(c, s, LockInterface(i));
      assert s.writer[i := true][i := false] == s.writer;
      TwoSteps(c, s, LockInterface(i), UnlockInterface(i));
    }
  }

  lemma TwoSteps(c: Config, s: State, a: Step, b: Step)
    requires WellFormed(c, s) && Enabled(c, s, a)
    requires WellFormed(c, Next(c, s, a)) && Enabled(c, Next(c, s, a), b)
    ensures Run(c, s, [a, b], Next(c, Next(c, s, a), b))
  {
    hide Run;
    var s1 := Next(c, s, a);
    OneStep(c, s, a);
    OneStep(c, s1, b);
    RunConcat(c, s, [a], s1, [b], Next(c, s1, b));
    assert [a] + [b] == [a, b];
  }

  // ---- A protection, given and taken back ----

  /* What a protection of interface i changes: one more of everything. */
  ghost function Protected(c: Config, s: State, i: nat): State
    requires WellFormed(c, s) && i < |c.parent|
  {
    var m := c.parent[i];
    s.(refs := s.refs[i := s.refs[i] + 1], readers := s.readers[i := s.readers[i] + 1], out := s.out[i := s.out[i] + 1],
       modRefs := s.modRefs[m := s.modRefs[m] + 1], modReaders := s.modReaders[m := s.modReaders[m] + 1])
  }

  /* Thread t alone, from its k-th statement on. */
  lemma {:induction false} Finishes(c: Config, s: State, t: nat, k: nat) returns (steps: seq<Step>, s': State)
    requires WellFormed(c, s) && t < |s.pc| && s.pc[t] != Idle && s.pc[t].k == k
    requires s.pc[t].protect ==> !s.writer[s.pc[t].i] && !s.modWriter[c.parent[s.pc[t].i]]
    ensures Run(c, s, steps, s') && Alone(c, s, t, s')
    decreases 7 - k
  {
    hide Run, Alone;
    var s1 := Next(c, s, Advance(t));
    OneStep(c, s, Advance(t));
    if k == 6 {
      steps, s' := [Advance(t)], s1;
      LeavesAlone(c, s, t);
    } else {
      GoesOn(c, s, t);
      hide Next, AdvanceThread;
      var rest;
      rest, s' := Finishes(c, s1, t, s1.pc[t].k);
      steps := [Advance(t)] + rest;
      RunConcat(c, s, [Advance(t)], s1, rest, s');
      if s.pc[t].protect {
        ProtectAlone(c, s, t, s');
      } else {
        UnprotectAlone(c, s, t, s');
      }
    }
  }

  lemma GoesOn(c: Config, s: State, t: nat)
    requires WellFormed(c, s) && Enabled(c, s, Advance(t)) && s.pc[t].k < 6
    ensures var s1 := Next(c, s, Advance(t));
            && WellFormed(c, s1) && s1.pc[t] != Idle && s1.pc[t].protect == s.pc[t].protect && s1.pc[t].i == s.pc[t].i
            && s1.pc[t].k > s.pc[t].k && s1.writer == s.writer && s1.modWriter == s.modWriter
  {
  }

  lemma LeavesAlone(c: Config, s: State, t: nat)
    requires WellFormed(c, s) && Enabled(c, s, Advance(t)) && s.pc[t].k == 6
    ensures Alone(c, s, t, Next(c, s, Advance(t)))
  {
  }

  lemma ProtectAlone(c: Config, s: State, t: nat, s': State)
    requires WellFormed(c, s) && Enabled(c, s, Advance(t)) && s.pc[t].k < 6 && s.pc[t].protect
    requires var s1 := Next(c, s, Advance(t)); WellFormed(c, s1) && s1.pc[t] != Idle && Alone(c, s1, t, s')
    ensures Alone(c, s, t, s')
  {
  }

  lemma UnprotectAlone(c: Config, s: State, t: nat, s': State)
    requires WellFormed(c, s) && Enabled(c, s, Advance(t)) && s.pc[t].k < 6 && !s.pc[t].protect
    requires var s1 := Next(c, s, Advance(t)); WellFormed(c, s1) && s1.pc[t] != Idle && Alone(c, s1, t, s')
    ensures Alone(c, s, t, s')
  {
  }

  /* s' is s with thread t through the rest of its macro. */
  ghost predicate Alone(c: Config, s: State, t: nat, s': State)
    requires WellFormed(c, s) && t < |s.pc| && s.pc[t] != Idle
  {
    var In(protect, i, k, reg) := s.pc[t];
    var m, d := c.parent[i], if protect then 1 else -1;
    && s'.pc == s.pc[t := Idle] && s'.owner == s.owner[i := -1]
    && s'.writer == s.writer && s'.modWriter == s.modWriter
    && s'.out == (if protect then s.out[i := s.out[i] + 1] else s.out)
    && s'.modReaders == (if k <= (if protect then 1 else 2) then s.modReaders[m := s.modReaders[m] + d] else s.modReaders)
    && s'.readers == (if k <= (if protect then 2 else 1) then s.readers[i := s.readers[i] + d] else s.readers)
    && s'.refs == (if k <= 3 then s.refs[i := s.refs[i] + d] else s.refs)
    && s'.modRefs == (if k <= 4 then s.modRefs[m := s.modRefs[m] + d]
                      else if k == 5 then s.modRefs[m := reg + d] else s.modRefs)
  }

  /* A thread that finds the mutex free and no writers protects the interface. */
  lemma Protects(c: Config, s: State, t: nat, i: nat) returns (steps: seq<Step>)
    requires MayProtect(c, s, t, i)
    ensures Run(c, s, steps, Protected(c, s, i))
  {
    hide Run;
    var s1 := Next(c, s, EnterProtect(t, i));
    OneStep(c, s, EnterProtect(t, i));
    var rest, s' := Finishes(c, s1, t, 1);
    RunConcat(c, s, [EnterProtect(t, i)], s1, rest, s');
    steps := [EnterProtect(t, i)] + rest;
    assert s' == Protected(c, s, i);
  }

  /* A protection can be taken back whoever is waiting, and that undoes it. */
  lemma Unprotects(c: Config, s: State, t: nat, i: nat) returns (steps: seq<Step>)
    requires WellFormed(c, s) && t < |s.pc| && s.pc[t] == Idle && i < |c.parent| && s.owner[i] == -1
    ensures WellFormed(c, Protected(c, s, i)) && Run(c, Protected(c, s, i), steps, s)
  {
    hide Run;
    var p := Protected(c, s, i);
    var s1 := Next(c, p, EnterUnprotect(t, i));
    OneStep(c, p, EnterUnprotect(t, i));
    var rest, s' := Finishes(c, s1, t, 1);
    RunConcat(c, p, [EnterUnprotect(t, i)], s1, rest, s');
    steps := [EnterUnprotect(t, i)] + rest;
    assert s' == s;
  }

  /* So a protection followed by its unprotection, by whatever threads, is a run
     that changes nothing. */
  lemma ProtectionRoundTrip(c: Config, s: State, t: nat, i: nat, t': nat) returns (a: seq<Step>, b: seq<Step>)
    requires MayProtect(c, s, t, i) && t' < |s.pc| && s.pc[t'] == Idle
    ensures Run(c, s, a, Protected(c, s, i)) && Run(c, Protected(c, s, i), b, s) && Run(c, s, a + b, s)
  {
    hide Run, Protected;
    a := Protects(c, s, t, i);
    b := Unprotects(c, s, t', i);
    RunConcat(c, s, a, Protected(c, s, i), b, s);
  }
}
