/** No lost wakeup: what one call of `pthread_cond_signal` guarantees in every later state. */
module CondVarWakeup {
  import opened CondVarModel
  import opened CondVarSafety
  import opened Wrappers

  /** Counted in `waiters` and not yet past the semaphore. */
  predicate Pending(p: PC) {
    p.WaitLeave? || p.WaitUnlock? || p.WaitBlock?
  }

  /** Sure to be counted before anyone else can read `waiters`, and not yet past the semaphore. */
  predicate Committed(p: PC) {
    p.WaitLoad? || p.WaitStore? || Pending(p)
  }

  function Min(a: nat, b: nat): nat {
    if a < b then a else b
  }

  /** What a signal begun in `s` owes its waiters: one wakeup more than there are tokens already,
      but no more than there are threads to wake, and no more than the semaphore can hold. */
  ghost function Goal(s: State): nat {
    Min(Num(s.pc, Committed), Min(s.sh.sema + 1, 2147483647))
  }

  /** Tokens still there plus threads past the semaphore since `s0` reach the goal. */
  ghost predicate Delivered(s0: State, s: State) {
    s.sh.sema + s.sh.passes >= s0.sh.passes + Goal(s0)
  }

  /** In a signal that has not read a zero count. */
  predicate WillRelease(p: PC) {
    InSignal(p) && (p.SigLeave? || p.SigRelease? ==> p.have)
  }

  /** Thread `t` is still inside the signal begun in `s0`, and every thread committed then is either
      still committed or accounted for by a pass. */
  ghost predicate Owed(s0: State, s: State, t: nat) {
    && t < |s.pc|
    && WillRelease(s.pc[t])
    && Num(s.pc, Committed) + s.sh.passes >= Num(s0.pc, Committed) + s0.sh.passes
    && s.sh.sema + s.sh.passes >= s0.sh.sema + s0.sh.passes
    && s.sh.passes >= s0.sh.passes
  }

  lemma MoveCommitted(p: PC, sh: Shared, t: nat, a: Action)
    requires CanMove(p, sh, a)
    ensures var m := Move(p, sh, t, a);
            && ToNat(Committed(p)) + sh.passes <= ToNat(Committed(m.pc)) + m.sh.passes
            && sh.sema + sh.passes <= m.sh.sema + m.sh.passes
            && (WillRelease(p) && !WillRelease(m.pc) ==>
                  || (p.SigRead? && sh.waiters <= 0 && m.sh == sh)
                  || m.sh.sema + m.sh.passes > sh.sema + sh.passes
                  || m.sh.sema >= LONG_MAX)
            && sh.passes <= m.sh.passes
  {
  }

  /** Whoever reads `waiters` holds the lock, so nobody is between the lock and the increment. */
  lemma CommittedAreCounted(s: State, t: nat)
    requires Inv(s) && t < |s.pc| && s.pc[t].SigRead?
    ensures Num(s.pc, Committed) <= s.sh.waiters
  {
    assert HoldsLock(s.pc[t]);
    NumMonotone(s.pc, Committed, Counted);
  }

  lemma StepDelivers(s0: State, s: State, e: Event, t: nat)
    requires Inv(s) && Enabled(s, e)
    requires Delivered(s0, s) || Owed(s0, s, t)
    ensures Delivered(s0, Step(s, e)) || Owed(s0, Step(s, e), t)
  {
    var m := Move(s.pc[e.t], s.sh, e.t, e.a);
    MoveCommitted(s.pc[e.t], s.sh, e.t, e.a);
    NumUpdate(s.pc, e.t, m.pc, Committed);
    if s.pc[e.t].SigRead? {
      CommittedAreCounted(s, e.t);
    }
  }

  lemma {:induction false} RunDelivers(s0: State, s: State, sched: seq<Event>, s': State, t: nat)
    requires Inv(s) && Runs(s, sched, s')
    requires Delivered(s0, s) || Owed(s0, s, t)
    ensures Inv(s')
    ensures Delivered(s0, s') || Owed(s0, s', t)
    decreases |sched|
  {
    if sched != [] {
      StepInv(s, sched[0]);
      StepDelivers(s0, s, sched[0], t);
      RunDelivers(s0, Step(s, sched[0]), sched[1..], s', t);
    }
  }

  /** Passes plus tokens never decrease, so a delivered wakeup stays delivered. */
  lemma {:induction false} StaysDelivered(s: State, sched: seq<Event>, s': State)
    requires Runs(s, sched, s')
    ensures s.sh.sema + s.sh.passes <= s'.sh.sema + s'.sh.passes
    decreases |sched|
  {
    if sched != [] {
      MoveCommitted(s.pc[sched[0].t], s.sh, sched[0].t, sched[0].a);
      StaysDelivered(Step(s, sched[0]), sched[1..], s');
    }
  }

  lemma SignalOwes(s: State, t: nat, a: Action)
    requires Enabled(s, Event(t, a)) && (a == Signal || a == BareSignal)
    ensures Owed(s, Step(s, Event(t, a)), t)
  {
    NumUpdate(s.pc, t, Step(s, Event(t, a)).pc[t], Committed);
  }

  /** What a signal does for threads already counted or committed to it, whether or not the
      signalling thread holds the mutex: once the call has returned, in every later state of every
      run, the passes since the call began plus the tokens left reach the goal. */
  lemma CountedWaitersAreWoken(n: nat, pre: seq<Event>, s0: State, t: nat, a: Action,
                               call: seq<Event>, s1: State, rest: seq<Event>, s2: State)
    requires Runs(Init(n), pre, s0)
    requires Enabled(s0, Event(t, a)) && (a == Signal || a == BareSignal)
    requires Runs(Step(s0, Event(t, a)), call, s1) && !InSignal(s1.pc[t])
    requires Runs(s1, rest, s2)
    ensures s2.sh.sema + s2.sh.passes
            >= s0.sh.passes + Min(Num(s0.pc, Committed), Min(s0.sh.sema + 1, 2147483647))
  {
    InitInv(n);
    RunInv(Init(n), pre, s0);
    StepInv(s0, Event(t, a));
    SignalOwes(s0, t, a);
    RunDelivers(s0, Step(s0, Event(t, a)), call, s1, t);
    StaysDelivered(s1, rest, s2);
  }

  // ---------------------------------------------------------------- when a signal is kept

  /** What a signal begun in `s0` should have done by `s`: passes since plus tokens reach one wakeup
      more than there were tokens, but no more than there were threads anywhere inside wait before
      the semaphore, and no more than the semaphore can hold. */
  predicate Kept(s0: State, s: State) {
    s.sh.sema + s.sh.passes
    >= s0.sh.passes + Min(Num(s0.pc, BeforeSema), Min(s0.sh.sema + 1, 2147483647))
  }

  /** A thread has called wait and not taken `waiters_lock` yet, and the tokens at hand are just
      enough for the threads that are counted. */
  ghost predicate Lossy(s: State) {
    && s.sh.sema < 2147483647
    && Num(s.pc, Pending) == s.sh.sema
    && exists u :: 0 <= u < |s.pc| && s.pc[u] == WaitEnter
  }

  predicate Uncounted(p: PC) {
    p.WaitEnter? || p.WaitLoad? || p.WaitStore?
  }

  /** At most one thread is inside wait and uncounted: it still holds the mutex. */
  lemma AtMostOneUncounted(s: State)
    requires Inv(s)
    ensures Num(s.pc, BeforeSema) == Num(s.pc, Pending) + Num(s.pc, Uncounted)
    ensures Num(s.pc, Uncounted) <= 1
    ensures (exists u :: 0 <= u < |s.pc| && s.pc[u] == WaitEnter) ==> Num(s.pc, Uncounted) == 1
    ensures (forall u :: 0 <= u < |s.pc| ==> s.pc[u] != WaitEnter)
            ==> Num(s.pc, BeforeSema) == Num(s.pc, Committed)
  {
    NumSum(s.pc, BeforeSema, Pending, Uncounted);
    if u :| 0 <= u < |s.pc| && Uncounted(s.pc[u]) {
      forall i | 0 <= i < |s.pc| && Uncounted(s.pc[i])
        ensures i == u
      {
        assert HoldsMutex(s.pc[i]) && HoldsMutex(s.pc[u]);
      }
      NumOne(s.pc, Uncounted, u);
    } else {
      NumZero(s.pc, Uncounted);
    }
    if forall u :: 0 <= u < |s.pc| ==> s.pc[u] != WaitEnter {
      NumMonotone(s.pc, BeforeSema, Committed);
      NumMonotone(s.pc, Committed, BeforeSema);
    }
  }

  /** Outside a lossy state a signal is kept, with or without the mutex. */
  lemma KeptUnlessLossy(n: nat, pre: seq<Event>, s0: State, t: nat, a: Action,
                        call: seq<Event>, s1: State, rest: seq<Event>, s2: State)
    requires Runs(Init(n), pre, s0) && !Lossy(s0)
    requires Enabled(s0, Event(t, a)) && (a == Signal || a == BareSignal)
    requires Runs(Step(s0, Event(t, a)), call, s1) && !InSignal(s1.pc[t])
    requires Runs(s1, rest, s2)
    ensures Kept(s0, s2)
  {
    InitInv(n);
    RunInv(Init(n), pre, s0);
    AtMostOneUncounted(s0);
    NumMonotone(s0.pc, Pending, Committed);
    CountedWaitersAreWoken(n, pre, s0, t, a, call, s1, rest, s2);
    StaysDelivered(Step(s0, Event(t, a)), call, s1);
    StaysDelivered(s1, rest, s2);
  }

  /** While a client holds the mutex, no state is lossy: every thread inside wait before the
      semaphore has counted itself before it let the mutex go. */
  lemma MutexMeansCounted(s: State, t: nat)
    requires Inv(s) && t < |s.pc| && s.pc[t] == In
    ensures Num(s.pc, BeforeSema) == Num(s.pc, Pending) && !Lossy(s)
  {
    forall u | 0 <= u < |s.pc| && BeforeSema(s.pc[u])
      ensures Pending(s.pc[u])
    {
      assert s.pc[u].WaitBlock? || HoldsMutex(s.pc[u]);
    }
    NumMonotone(s.pc, BeforeSema, Pending);
    NumMonotone(s.pc, Pending, BeforeSema);
    assert forall u :: 0 <= u < |s.pc| ==> s.pc[u] != WaitEnter;
  }

  /** No lost wakeup, under the condition of the comment in front of pthread_cond_signal: the
      signalling thread holds the mutex. Then every thread anywhere inside wait before the
      semaphore counts, including one in the gap between unlocking the mutex and blocking. In
      particular, if there is one, then ever after there is a token or somebody has passed. */
  lemma NoLostWakeup(n: nat, pre: seq<Event>, s0: State, t: nat,
                     call: seq<Event>, s1: State, rest: seq<Event>, s2: State)
    requires Runs(Init(n), pre, s0)
    requires t < n && s0.pc[t] == In
    requires Runs(Step(s0, Event(t, Signal)), call, s1) && !InSignal(s1.pc[t])
    requires Runs(s1, rest, s2)
    ensures s2.sh.sema + (s2.sh.passes - s0.sh.passes)
            >= Min(Num(s0.pc, BeforeSema), Min(s0.sh.sema + 1, 2147483647))
    ensures (exists u :: 0 <= u < n && BeforeSema(s0.pc[u]))
            ==> s2.sh.sema > 0 || s2.sh.passes > s0.sh.passes
  {
    InitInv(n);
    RunInv(Init(n), pre, s0);
    MutexMeansCounted(s0, t);
    KeptUnlessLossy(n, pre, s0, t, Signal, call, s1, rest, s2);
    forall u | 0 <= u < n && BeforeSema(s0.pc[u])
      ensures Num(s0.pc, BeforeSema) >= 1
    {
      TotalAtLeast(s0.pc, u, Bit(BeforeSema));
    }
  }

  // ---------------------------------------------------------------- a signal nobody waits for

  /** Thread `t` holds the mutex, nobody is counted, and no signal has seen a waiter. */
  ghost predicate Idle(s: State, t: nat) {
    && s.sh.waiters == 0
    && s.sh.mutex == Some(t)
    && forall u :: 0 <= u < |s.pc| ==> Unheard(s.pc[u])
  }

  predicate Unheard(p: PC) {
    (p.SigLeave? || p.SigRelease?) ==> !p.have
  }

  lemma MoveIdle(p: PC, sh: Shared, t: nat, a: Action)
    requires CanMove(p, sh, a) && Unheard(p) && sh.waiters == 0
    requires !Counted(p) && !p.WaitStore?
    ensures var m := Move(p, sh, t, a);
            && m.sh.(mutex := sh.mutex, lock := sh.lock, returned := sh.returned,
                     continueBroadcast := sh.continueBroadcast) == sh
            && Unheard(m.pc)
            && (HoldsMutex(p) && a == Go ==> m.sh.mutex == sh.mutex)
  {
  }

  lemma StepIdle(s: State, e: Event, t: nat)
    requires Inv(s) && Idle(s, t) && InClient(s, t)
    requires Enabled(s, e) && (e.t == t ==> e.a == Go)
    ensures Idle(Step(s, e), t) && InClient(Step(s, e), t)
    ensures Step(s, e).sh.sema == s.sh.sema && Step(s, e).sh.releases == s.sh.releases
    ensures Step(s, e).sh.passes == s.sh.passes
  {
    TotalAtLeast(s.pc, e.t, Bit(Counted));
    MoveIdle(s.pc[e.t], s.sh, e.t, e.a);
    MoveLocks(s.pc[e.t], s.sh, e.t, e.a);
  }

  /** Thread `t` is in a signal under the mutex, or back from it. */
  predicate InClient(s: State, t: nat) {
    t < |s.pc| && HoldsMutex(s.pc[t]) && (InSignal(s.pc[t]) || s.pc[t] == In)
  }

  lemma {:induction false} RunIdle(s: State, sched: seq<Event>, s': State, t: nat)
    requires Inv(s) && Idle(s, t) && InClient(s, t)
    requires Runs(s, sched, s') && forall e :: e in sched && e.t == t ==> e.a == Go
    ensures s'.sh.waiters == 0 && s'.sh.sema == s.sh.sema
    ensures s'.sh.releases == s.sh.releases && s'.sh.passes == s.sh.passes
    decreases |sched|
  {
    if sched != [] {
      StepIdle(s, sched[0], t);
      StepInv(s, sched[0]);
      RunIdle(Step(s, sched[0]), sched[1..], s', t);
    }
  }

  /** A signal under the mutex while nobody is counted does nothing: until its thread does something
      else, whatever the other threads do, no token is released or used and nobody is counted. */
  lemma SignalWithoutWaiters(n: nat, pre: seq<Event>, s0: State, t: nat, sched: seq<Event>, s: State)
    requires Runs(Init(n), pre, s0)
    requires t < n && s0.pc[t] == In && s0.sh.waiters == 0
    requires forall u :: 0 <= u < n ==> !InSignal(s0.pc[u])
    requires Runs(Step(s0, Event(t, Signal)), sched, s)
    requires forall e :: e in sched && e.t == t ==> e.a == Go
    ensures s.sh.waiters == 0 && s.sh.sema == s0.sh.sema
    ensures s.sh.releases == s0.sh.releases && s.sh.passes == s0.sh.passes
  {
    InitInv(n);
    RunInv(Init(n), pre, s0);
    StepInv(s0, Event(t, Signal));
    RunIdle(Step(s0, Event(t, Signal)), sched, s, t);
  }
}
