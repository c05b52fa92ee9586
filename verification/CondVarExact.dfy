/** Exactly when a signal can be lost. `KeptUnlessLossy` says when it cannot; here a run is built for
    every lossy state in which it is. */
module CondVarExact {
  import opened CondVarModel
  import opened CondVarSafety
  import opened CondVarWakeup
  import opened CondVarDrain
  import opened CondVarLimits
  import opened Wrappers

  /** Positions from which threads are moved on before the signal reads `waiters`: towards and past
      the decrement, and out of the lock. None of their steps releases a token. */
  predicate Settling(p: PC) {
    p.WaitBlock? || p.WakeEnter? || p.WakeLoad? || p.WakeStore? || p.WakeLast? || p.WakeLeave? ||
    p.SigRead? || p.SigLeave?
  }

  lemma MoveSettles(p: PC, sh: Shared, t: nat)
    requires CanMove(p, sh, Go) && Settling(p)
    ensures var m := Move(p, sh, t, Go);
            && Rank(m.pc) < Rank(p)
            && ToNat(Pending(m.pc)) - m.sh.sema == ToNat(Pending(p)) - sh.sema
            && m.sh.sema + m.sh.passes == sh.sema + sh.passes
            && m.sh.mutex == sh.mutex
  {
  }

  /** Thread `u` is at the entry of wait, thread `t` at the entry of a signal without the mutex, and
      there are just as many tokens as pending threads. */
  ghost predicate Staged(s: State, t: nat, u: nat) {
    && Inv(s)
    && t < |s.pc| && s.pc[t] == SigEnter(false)
    && u < |s.pc| && s.pc[u] == WaitEnter
    && Num(s.pc, Pending) == s.sh.sema
  }

  lemma SettleStep(s: State, t: nat, u: nat, e: Event)
    requires Staged(s, t, u) && Enabled(s, e) && e.a == Go && Settling(s.pc[e.t])
    ensures Staged(Step(s, e), t, u)
    ensures Step(s, e).sh.sema + Step(s, e).sh.passes == s.sh.sema + s.sh.passes
    ensures Total(Step(s, e).pc, Rank) < Total(s.pc, Rank)
  {
    var m := Move(s.pc[e.t], s.sh, e.t, Go);
    MoveSettles(s.pc[e.t], s.sh, e.t);
    assert Inv(Step(s, e)) by { StepInv(s, e); }
    assert e.t != t && e.t != u;
    NumUpdate(s.pc, e.t, m.pc, Pending);
    TotalUpdate(s.pc, e.t, m.pc, Rank);
  }

  /** When nothing settles any more, nobody is counted and the lock is free. */
  lemma Settled(s: State, t: nat, u: nat)
    requires Staged(s, t, u)
    requires forall i :: 0 <= i < |s.pc| && Settling(s.pc[i]) ==> !Enabled(s, Event(i, Go))
    ensures s.sh.waiters == 0 && s.sh.sema == 0 && s.sh.lock == None
  {
    assert HoldsMutex(s.pc[u]);
    if s.sh.lock.Some? {
      var h := s.sh.lock.value;
      assert HoldsLock(s.pc[h]);
      assert HoldsMutex(s.pc[h]) ==> h == u;
      LockHolderRuns(s, h);
    }
    if i :| 0 <= i < |s.pc| && s.pc[i] == WaitBlock {
      TotalAtLeast(s.pc, i, Bit(Pending));
      assert Enabled(s, Event(i, Go));
    }
    forall i | 0 <= i < |s.pc|
      ensures !Counted(s.pc[i]) && !Pending(s.pc[i])
    {
      assert HoldsMutex(s.pc[i]) ==> i == u;
    }
    NumZero(s.pc, Counted);
    NumZero(s.pc, Pending);
  }

  lemma {:induction false} Settle(s: State, t: nat, u: nat) returns (sched: seq<Event>, s': State)
    requires Staged(s, t, u)
    ensures Runs(s, sched, s') && Staged(s', t, u)
    ensures s'.sh.sema + s'.sh.passes == s.sh.sema + s.sh.passes
    ensures s'.sh.waiters == 0 && s'.sh.sema == 0 && s'.sh.lock == None
    decreases Total(s.pc, Rank)
  {
    if i :| 0 <= i < |s.pc| && Settling(s.pc[i]) && Enabled(s, Event(i, Go)) {
      var e := Event(i, Go);
      SettleStep(s, t, u, e);
      var tail;
      tail, s' := Settle(Step(s, e), t, u);
      sched := [e] + tail;
      assert sched[1..] == tail;
    } else {
      Settled(s, t, u);
      sched, s' := [], s;
    }
  }

  /** The signal of thread `t`, undisturbed, when nobody is counted: nothing but its position changes. */
  lemma Unheeded(s: State, t: nat) returns (sched: seq<Event>, s': State)
    requires t < |s.pc| && s.pc[t] == SigEnter(false)
    requires s.sh.lock == None && s.sh.waiters == 0 && s.sh.sema == 0
    ensures Runs(s, sched, s') && s' == State(s.pc[t := Out], s.sh)
  {
    SignalPath(s.sh, t, false);
    sched := Alone(s, t, [Go, Go, Go, Go], Moved(Out, s.sh));
    s' := State(s.pc[t := Out], s.sh);
  }

  /** From every lossy state a signal without the mutex has a run in which it returns and is not kept. */
  lemma LossyRun(s0: State, t: nat) returns (call: seq<Event>, s1: State)
    requires Inv(s0) && Lossy(s0) && Enabled(s0, Event(t, BareSignal))
    ensures Runs(Step(s0, Event(t, BareSignal)), call, s1) && !InSignal(s1.pc[t])
    ensures !Kept(s0, s1)
  {
    var begun := Step(s0, Event(t, BareSignal));
    var u := Stage(s0, t);
    var settle, s := Settle(begun, t, u);
    var signal;
    signal, s1 := Unheeded(s, t);
    RunJoin(begun, settle, s, signal, s1);
    call := settle + signal;
    AtMostOneUncounted(s0);
  }

  lemma Stage(s0: State, t: nat) returns (u: nat)
    requires Inv(s0) && Lossy(s0) && Enabled(s0, Event(t, BareSignal))
    ensures Staged(Step(s0, Event(t, BareSignal)), t, u)
    ensures Step(s0, Event(t, BareSignal)).sh == s0.sh
  {
    u :| 0 <= u < |s0.pc| && s0.pc[u] == WaitEnter;
    StepInv(s0, Event(t, BareSignal));
    NumUpdate(s0.pc, t, SigEnter(false), Pending);
  }

  /** The signal `a` of thread `t` is kept in every later state of every run. */
  ghost predicate AlwaysKept(s0: State, t: nat, a: Action)
    requires Enabled(s0, Event(t, a)) && (a == Signal || a == BareSignal)
  {
    forall call, s1, rest, s2 ::
      Runs(Step(s0, Event(t, a)), call, s1) && !InSignal(s1.pc[t]) && Runs(s1, rest, s2)
      ==> Kept(s0, s2)
  }

  /** The exact condition: a signal without the mutex is kept in every run if and only if it does not
      begin in a lossy state. */
  lemma BareSignalExact(n: nat, pre: seq<Event>, s0: State, t: nat)
    requires Runs(Init(n), pre, s0) && Enabled(s0, Event(t, BareSignal))
    ensures AlwaysKept(s0, t, BareSignal) <==> !Lossy(s0)
  {
    InitInv(n);
    RunInv(Init(n), pre, s0);
    if Lossy(s0) {
      var call, s1 := LossyRun(s0, t);
      assert Runs(s1, [], s1);
    } else {
      forall call, s1, rest, s2 |
        Runs(Step(s0, Event(t, BareSignal)), call, s1) && !InSignal(s1.pc[t]) && Runs(s1, rest, s2)
        ensures Kept(s0, s2)
      {
        KeptUnlessLossy(n, pre, s0, t, BareSignal, call, s1, rest, s2);
      }
    }
  }
}
