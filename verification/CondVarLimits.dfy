/** What the condition variable does not promise, each with a run that shows it. */
module CondVarLimits {
  import opened CondVarModel
  import opened Wrappers
  import opened CondVarSafety
  import opened CondVarDrain
  import opened CondVarWakeup

  /** The moves `acts` of one thread, with nobody else in between. */
  function MoveMany(p: PC, sh: Shared, t: nat, acts: seq<Action>): Option<Moved>
    decreases acts
  {
    if acts == [] then Some(Moved(p, sh))
    else if CanMove(p, sh, acts[0]) then
      var m := Move(p, sh, t, acts[0]);
      MoveMany(m.pc, m.sh, t, acts[1..])
    else None
  }

  lemma {:induction false} Alone(s: State, t: nat, acts: seq<Action>, m: Moved)
    returns (sched: seq<Event>)
    requires t < |s.pc| && MoveMany(s.pc[t], s.sh, t, acts) == Some(m)
    ensures Runs(s, sched, State(s.pc[t := m.pc], m.sh)) && forall e :: e in sched ==> e.t == t
    decreases |acts|
  {
    if acts == [] {
      sched := [];
      assert s.pc[t := s.pc[t]] == s.pc;
    } else {
      var e := Event(t, acts[0]);
      var s' := Step(s, e);
      var tail := Alone(s', t, acts[1..], m);
      sched := [e] + tail;
      assert s'.pc[t := m.pc] == s.pc[t := m.pc];
      assert sched[1..] == tail;
    }
  }

  lemma {:induction false} MoveManyJoin(p: PC, sh: Shared, t: nat, a: seq<Action>, m: Moved, b: seq<Action>)
    requires MoveMany(p, sh, t, a) == Some(m)
    ensures MoveMany(p, sh, t, a + b) == MoveMany(m.pc, m.sh, t, b)
    decreases |a|
  {
    if a == [] {
      assert a + b == b;
    } else {
      var m' := Move(p, sh, t, a[0]);
      MoveManyJoin(m'.pc, m'.sh, t, a[1..], m, b);
      assert (a + b)[0] == a[0] && (a + b)[1..] == a[1..] + b;
    }
  }

  // ---------------------------------------------------------------- one call, undisturbed

  function Counting(sh: Shared, more: int): Shared {
    sh.(waiters := sh.waiters + more)
  }

  /** From the entry of wait to the semaphore. */
  lemma BlockPath(sh: Shared, t: nat)
    requires sh.lock == None && sh.mutex == Some(t)
    ensures MoveMany(WaitEnter, sh, t, [Go, Go, Go, Go, Go])
         == Some(Moved(WaitBlock, Counting(sh, 1).(mutex := None)))
  {
  }

  lemma SignalPath(sh: Shared, t: nat, held: bool)
    requires sh.lock == None && sh.sema < LONG_MAX
    ensures MoveMany(SigEnter(held), sh, t, [Go, Go, Go, Go])
         == Some(Moved(if held then In else Out,
                       if sh.waiters > 0
                       then sh.(sema := sh.sema + 1, releases := sh.releases + 1) else sh))
  {
  }

  lemma PassPath(sh: Shared, t: nat)
    requires sh.lock == None && sh.sema > 0
    ensures MoveMany(WaitBlock, sh, t, [Go, Go, Go, Go])
         == Some(Moved(WakeLast, Counting(sh, -1).(lock := Some(t), sema := sh.sema - 1,
                                                  passes := sh.passes + 1)))
  {
  }

  lemma LeavePath(sh: Shared, t: nat)
    requires !sh.wasBroadcast && !sh.continueBroadcast
    ensures MoveMany(WakeLast, sh, t, [Go, Go, Go]) == Some(Moved(WakeRelock, sh.(lock := None)))
  {
  }

  lemma WakePath(sh: Shared, t: nat)
    requires sh.lock == None && sh.sema > 0 && !sh.wasBroadcast && !sh.continueBroadcast
    ensures MoveMany(WaitBlock, sh, t, [Go, Go, Go, Go] + [Go, Go, Go])
         == Some(Moved(WakeRelock, Counting(sh, -1).(sema := sh.sema - 1, passes := sh.passes + 1)))
  {
    var woken := Counting(sh, -1).(lock := Some(t), sema := sh.sema - 1, passes := sh.passes + 1);
    PassPath(sh, t);
    LeavePath(woken, t);
    MoveManyJoin(WaitBlock, sh, t, [Go, Go, Go, Go], Moved(WakeLast, woken), [Go, Go, Go]);
  }

  /** The three client calls with the locking around them, as moves of one thread. */
  lemma WaitPath(sh: Shared, t: nat)
    requires sh.mutex == None && sh.lock == None
    ensures MoveMany(Out, sh, t, [Lock, Go, Wait] + [Go, Go, Go, Go, Go])
         == Some(Moved(WaitBlock, Counting(sh, 1)))
  {
    var held := sh.(mutex := Some(t));
    BlockPath(held, t);
    MoveManyJoin(Out, sh, t, [Lock, Go, Wait], Moved(WaitEnter, held), [Go, Go, Go, Go, Go]);
  }

  lemma EnterSignalPath(sh: Shared, t: nat)
    requires sh.mutex == None
    ensures MoveMany(Out, sh, t, [Lock, Go, Signal])
         == Some(Moved(SigEnter(true), sh.(mutex := Some(t))))
  {
  }

  lemma UnlockPath(sh: Shared, t: nat)
    ensures MoveMany(In, sh, t, [Unlock]) == Some(Moved(Out, sh.(mutex := None)))
  {
  }

  lemma RelockPath(sh: Shared, t: nat)
    requires sh.mutex == None
    ensures MoveMany(WakeRelock, sh, t, [Go, Unlock])
         == Some(Moved(Out, sh.(returned := sh.returned + 1)))
  {
  }

  lemma HeldSignalPath(sh: Shared, t: nat)
    requires sh.mutex == None && sh.lock == None && sh.waiters > 0 && sh.sema < LONG_MAX
    ensures MoveMany(Out, sh, t, [Lock, Go, Signal] + [Go, Go, Go, Go])
         == Some(Moved(In, sh.(mutex := Some(t), sema := sh.sema + 1, releases := sh.releases + 1)))
  {
    var held := sh.(mutex := Some(t));
    EnterSignalPath(sh, t);
    SignalPath(held, t, true);
    MoveManyJoin(Out, sh, t, [Lock, Go, Signal], Moved(SigEnter(true), held), [Go, Go, Go, Go]);
  }

  lemma LockedSignalPath(sh: Shared, t: nat)
    requires sh.mutex == None && sh.lock == None && sh.waiters > 0 && sh.sema < LONG_MAX
    ensures MoveMany(Out, sh, t, [Lock, Go, Signal] + [Go, Go, Go, Go] + [Unlock])
         == Some(Moved(Out, sh.(sema := sh.sema + 1, releases := sh.releases + 1)))
  {
    var after := sh.(mutex := Some(t), sema := sh.sema + 1, releases := sh.releases + 1);
    HeldSignalPath(sh, t);
    UnlockPath(after, t);
    MoveManyJoin(Out, sh, t, [Lock, Go, Signal] + [Go, Go, Go, Go], Moved(In, after), [Unlock]);
  }

  lemma ReturnPath(sh: Shared, t: nat)
    requires sh.mutex == None && sh.lock == None && sh.sema > 0
    requires !sh.wasBroadcast && !sh.continueBroadcast
    ensures MoveMany(WaitBlock, sh, t, [Go, Go, Go, Go] + [Go, Go, Go] + [Go, Unlock])
         == Some(Moved(Out, Counting(sh, -1).(sema := sh.sema - 1, passes := sh.passes + 1,
                                             returned := sh.returned + 1)))
  {
    var woken := Counting(sh, -1).(sema := sh.sema - 1, passes := sh.passes + 1);
    WakePath(sh, t);
    RelockPath(woken, t);
    MoveManyJoin(WaitBlock, sh, t, [Go, Go, Go, Go] + [Go, Go, Go], Moved(WakeRelock, woken), [Go, Unlock]);
  }

  // ---------------------------------------------------------------- a lost signal

  lemma BlockedIsQuiet(s: State)
    requires OutOrBlocked(s)
    ensures Quiet(s)
  {
  }

  /** The shared variables while thread 0 is at the entry of wait, and when it is blocked. */
  const ENTERED: Shared := Shared(Some(0), None, 0, 0, false, false, 0, 0, 0)
  const BLOCKED: Shared := Shared(None, None, 1, 0, false, false, 0, 0, 0)

  lemma EntersWait() returns (sched: seq<Event>)
    ensures Runs(Init(2), sched, State([WaitEnter, Out], ENTERED))
  {
    sched := Alone(Init(2), 0, [Lock, Go, Wait], Moved(WaitEnter, ENTERED));
    assert Init(2).pc[0 := WaitEnter] == [WaitEnter, Out];
  }

  lemma SignalUnheard() returns (sched: seq<Event>)
    ensures Runs(State([WaitEnter, SigEnter(false)], ENTERED), sched, State([WaitEnter, Out], ENTERED))
  {
    SignalPath(ENTERED, 1, false);
    sched := Alone(State([WaitEnter, SigEnter(false)], ENTERED), 1, [Go, Go, Go, Go], Moved(Out, ENTERED));
    assert [WaitEnter, SigEnter(false)][1 := Out] == [WaitEnter, Out];
  }

  lemma BlocksForever() returns (sched: seq<Event>)
    ensures Runs(State([WaitEnter, Out], ENTERED), sched, State([WaitBlock, Out], BLOCKED))
  {
    BlockPath(ENTERED, 0);
    sched := Alone(State([WaitEnter, Out], ENTERED), 0, [Go, Go, Go, Go, Go], Moved(WaitBlock, BLOCKED));
    assert [WaitEnter, Out][0 := WaitBlock] == [WaitBlock, Out];
  }

  lemma LossyStart()
    ensures Lossy(State([WaitEnter, Out], ENTERED))
    ensures !Kept(State([WaitEnter, Out], ENTERED), State([WaitBlock, Out], BLOCKED))
  {
    var pcs := [WaitEnter, Out];
    NumZero(pcs, Pending);
    NumOne(pcs, BeforeSema, 0);
    assert pcs[0] == WaitEnter;
  }

  /** A signal called without the mutex can be lost: thread 0 is inside wait but not counted yet,
      thread 1 signals and returns, and thread 0 ends up blocked with no token in a state where
      nothing else can happen. The state in which the signal begins is lossy. */
  lemma BareSignalCanBeLost()
    returns (pre: seq<Event>, s0: State, call: seq<Event>, s1: State, rest: seq<Event>, s2: State)
    ensures Runs(Init(2), pre, s0) && BeforeSema(s0.pc[0]) && Enabled(s0, Event(1, BareSignal))
    ensures Runs(Step(s0, Event(1, BareSignal)), call, s1) && !InSignal(s1.pc[1])
    ensures Runs(s1, rest, s2) && Quiet(s2)
    ensures s2.pc[0] == WaitBlock && s2.sh.sema == 0 && s2.sh.passes == s0.sh.passes
    ensures Lossy(s0) && !Kept(s0, s2)
  {
    pre := EntersWait();
    s0 := State([WaitEnter, Out], ENTERED);
    call := SignalUnheard();
    s1 := s0;
    rest := BlocksForever();
    s2 := State([WaitBlock, Out], BLOCKED);
    BlockedIsQuiet(s2);
    assert s0.pc[1 := SigEnter(false)] == [WaitEnter, SigEnter(false)];
    LossyStart();
  }

  // ---------------------------------------------------------------- several signals in a row

  function Released(s: State, k: nat): State {
    s.(sh := s.sh.(sema := s.sh.sema + k, releases := s.sh.releases + k))
  }

  /** Every signal finds the same waiters counted, as long as none of them has woken up. */
  lemma {:induction false} SignalsInARow(s: State, t: nat, k: nat) returns (sched: seq<Event>)
    requires t < |s.pc| && s.pc[t] == Out && s.sh.mutex == None && s.sh.lock == None
    requires s.sh.waiters > 0 && s.sh.sema + k <= 2147483647
    ensures Runs(s, sched, Released(s, k)) && forall e :: e in sched ==> e.t == t
    decreases k
  {
    if k == 0 {
      sched := [];
    } else {
      var next := Released(s, 1);
      var first := OneSignal(s, t);
      var more := SignalsInARow(next, t, k - 1);
      RunJoin(s, first, next, more, Released(next, k - 1));
      sched := first + more;
    }
  }

  lemma OneSignal(s: State, t: nat) returns (sched: seq<Event>)
    requires t < |s.pc| && s.pc[t] == Out && s.sh.mutex == None && s.sh.lock == None
    requires s.sh.waiters > 0 && s.sh.sema < LONG_MAX
    ensures Runs(s, sched, Released(s, 1)) && forall e :: e in sched ==> e.t == t
  {
    LockedSignalPath(s.sh, t);
    sched := Alone(s, t, [Lock, Go, Signal] + [Go, Go, Go, Go] + [Unlock], Moved(Out, Released(s, 1).sh));
    assert s.pc[t := Out] == s.pc;
  }

  /** `k` signals, `k` wakeups: with at least one thread blocked in wait and nobody else in a call,
      thread `t` can lock the mutex, signal and unlock `k` times before any waiter moves. Then,
      whatever the order in which the system runs to its end, the threads still blocked are those
      for whom neither the tokens at hand nor these signals were enough. */
  lemma SignalsWakeAsMany(n: nat, pre: seq<Event>, s0: State, t: nat, k: nat)
    returns (calls: seq<Event>, s1: State)
    requires Runs(Init(n), pre, s0) && t < n && s0.pc[t] == Out
    requires forall u :: 0 <= u < n ==> s0.pc[u] == Out || s0.pc[u] == WaitBlock
    requires Num(s0.pc, BeforeSema) >= 1 && s0.sh.sema + k <= 2147483647
    ensures Runs(s0, calls, s1) && (forall e :: e in calls ==> e.t == t)
    ensures s1.pc == s0.pc && s1.sh.releases == s0.sh.releases + k
    ensures forall sched, s :: Runs(s1, sched, s) && Quiet(s) && (forall e :: e in sched ==> Finishing(e))
              ==> Num(s.pc, BeforeSema) == Excess(Num(s0.pc, BeforeSema), s0.sh.sema + k)
                  && s.sh.sema == Excess(s0.sh.sema + k, Num(s0.pc, BeforeSema))
  {
    NobodyInCall(n, pre, s0);
    calls := SignalsInARow(s0, t, k);
    s1 := Released(s0, k);
    RunJoin(Init(n), pre, s0, calls, s1);
    forall sched, s | Runs(s1, sched, s) && Quiet(s) && (forall e :: e in sched ==> Finishing(e))
      ensures Num(s.pc, BeforeSema) == Excess(Num(s0.pc, BeforeSema), s0.sh.sema + k)
              && s.sh.sema == Excess(s0.sh.sema + k, Num(s0.pc, BeforeSema))
    {
      DrainWithoutSignals(n, pre + calls, s1, sched, s);
    }
  }

  lemma NobodyInCall(n: nat, pre: seq<Event>, s: State)
    requires Runs(Init(n), pre, s) && Num(s.pc, BeforeSema) >= 1
    requires forall u :: 0 <= u < n ==> s.pc[u] == Out || s.pc[u] == WaitBlock
    ensures s.sh.mutex == None && s.sh.lock == None && s.sh.waiters > 0
  {
    InitInv(n);
    RunInv(Init(n), pre, s);
    NumMonotone(s.pc, BeforeSema, Counted);
  }

  // ---------------------------------------------------------------- a token left over

  /** From blocked on no token, `n` signals by thread 1. */
  function Signalled(n: nat): Shared {
    BLOCKED.(sema := n, releases := n)
  }

  lemma Waiting() returns (sched: seq<Event>)
    ensures Runs(Init(2), sched, State([WaitBlock, Out], Signalled(0)))
  {
    WaitPath(Init(2).sh, 0);
    sched := Alone(Init(2), 0, [Lock, Go, Wait] + [Go, Go, Go, Go, Go], Moved(WaitBlock, Signalled(0)));
    assert Init(2).pc[0 := WaitBlock] == [WaitBlock, Out];
  }

  lemma {:induction false} ManySignals(n: nat) returns (sched: seq<Event>)
    requires n <= 2147483647
    ensures Runs(Init(2), sched, State([WaitBlock, Out], Signalled(n)))
  {
    var start := State([WaitBlock, Out], Signalled(0));
    var wait := Waiting();
    var signals := SignalsInARow(start, 1, n);
    RunJoin(Init(2), wait, start, signals, Released(start, n));
    sched := wait + signals;
  }

  lemma WaitReturns(n: nat) returns (sched: seq<Event>)
    requires 0 < n
    ensures Runs(State([WaitBlock, Out], Signalled(n)), sched,
                 State([Out, Out], Shared(None, None, 0, n - 1, false, false, n, 1, 1)))
  {
    ReturnPath(Signalled(n), 0);
    sched := Alone(State([WaitBlock, Out], Signalled(n)), 0, [Go, Go, Go, Go] + [Go, Go, Go] + [Go, Unlock],
                   Moved(Out, Shared(None, None, 0, n - 1, false, false, n, 1, 1)));
    assert [WaitBlock, Out][0 := Out] == [Out, Out];
  }

  /** The semaphore is not bounded by the waiter count: `n` signals before the only waiter wakes leave
      `n - 1` tokens behind when every thread is outside again and nobody is counted, for any `n` up
      to the semaphore's limit. By `DrainOutcome` the next waits return on them although nobody
      signals any more. */
  lemma StaleTokensSurvive(n: nat) returns (sched: seq<Event>, s: State)
    requires 0 < n <= 2147483647
    ensures Runs(Init(2), sched, s)
    ensures s.pc == [Out, Out] && s.sh.waiters == 0 && s.sh.sema == n - 1
  {
    s := State([Out, Out], Shared(None, None, 0, n - 1, false, false, n, 1, 1));
    var signals := ManySignals(n);
    var back := WaitReturns(n);
    RunJoin(Init(2), signals, State([WaitBlock, Out], Signalled(n)), back, s);
    sched := signals + back;
  }
}
