/** Deadlock freedom, and how the system drains when clients start nothing new. */
module CondVarDrain {
  import opened CondVarModel
  import opened CondVarSafety
  import opened CondVarWakeup
  import opened Wrappers

  /** A step inside a call, an awaited mutex acquisition, or an unlock: nothing new is started. */
  predicate Finishing(e: Event) {
    e.a == Go || e.a == Unlock
  }

  /** No call can advance and nobody can unlock. */
  ghost predicate Quiet(s: State) {
    forall e :: Finishing(e) ==> !Enabled(s, e)
  }

  /** A holder of `waiters_lock` is never blocked. */
  lemma LockHolderRuns(s: State, t: nat)
    requires t < |s.pc| && HoldsLock(s.pc[t])
    ensures Enabled(s, Event(t, Go))
  {
  }

  /** Nor is a holder of the mutex, unless it waits for `waiters_lock`. */
  lemma MutexHolderRuns(s: State, t: nat)
    requires t < |s.pc| && HoldsMutex(s.pc[t])
    ensures Enabled(s, Event(t, Go)) || Enabled(s, Event(t, Unlock)) || s.sh.lock != None
  {
  }

  lemma BlockedOn(s: State, t: nat)
    requires t < |s.pc| && Quiet(s)
    ensures s.pc[t] == Out || (s.pc[t] == WaitBlock && s.sh.sema == 0)
            || s.sh.lock != None || s.sh.mutex != None
  {
    assert !Enabled(s, Event(t, Go)) && !Enabled(s, Event(t, Unlock));
  }

  /** Every thread is outside, or blocked on an empty semaphore. */
  ghost predicate OutOrBlocked(s: State) {
    forall t :: 0 <= t < |s.pc| ==> s.pc[t] == Out || (s.pc[t] == WaitBlock && s.sh.sema == 0)
  }

  /** Deadlock freedom: as long as the system can be reached, it is quiet exactly when every thread
      is either outside or blocked on an empty semaphore. */
  lemma DeadlockFree(n: nat, sched: seq<Event>, s: State)
    requires Runs(Init(n), sched, s)
    ensures Quiet(s) <==> OutOrBlocked(s)
  {
    InitInv(n);
    RunInv(Init(n), sched, s);
    if Quiet(s) {
      QuietBlocked(s);
    }
  }

  lemma QuietBlocked(s: State)
    requires Inv(s) && Quiet(s)
    ensures OutOrBlocked(s)
  {
    if s.sh.lock.Some? {
      var holder := s.sh.lock.value;
      LockHolderRuns(s, holder);
      assert Finishing(Event(holder, Go));
    } else if s.sh.mutex.Some? {
      var holder := s.sh.mutex.value;
      MutexHolderRuns(s, holder);
      assert Finishing(Event(holder, Go)) && Finishing(Event(holder, Unlock));
    }
    forall t | 0 <= t < |s.pc|
      ensures s.pc[t] == Out || (s.pc[t] == WaitBlock && s.sh.sema == 0)
    {
      BlockedOn(s, t);
    }
  }

  /** How many more steps a thread can take before it is outside. */
  function Rank(p: PC): nat {
    match p
    case Out => 0
    case In => 1
    case Entering | WakeRelock | SigRelease(_, _) => 2
    case WakeNotify(_) | SigLeave(_, _) => 3
    case WakeLeave(_) | SigRead(_) => 4
    case WakeLast | SigEnter(_) => 5
    case WakeStore(_) => 6
    case WakeLoad => 7
    case WakeEnter => 8
    case WaitBlock => 9
    case WaitUnlock => 10
    case WaitLeave => 11
    case WaitStore(_) => 12
    case WaitLoad => 13
    case WaitEnter => 14
  }

  predicate InWait(p: PC) {
    BeforeSema(p) || AfterSema(p)
  }

  lemma MoveFinishes(p: PC, sh: Shared, t: nat, a: Action)
    requires CanMove(p, sh, a) && (a == Go || a == Unlock)
    ensures var m := Move(p, sh, t, a);
            && Rank(m.pc) < Rank(p)
            && ToNat(BeforeSema(m.pc)) - m.sh.sema + m.sh.releases
               == ToNat(BeforeSema(p)) - sh.sema + sh.releases
            && ToNat(InWait(m.pc)) + m.sh.returned == ToNat(InWait(p)) + sh.returned
            && ToNat(InSignal(m.pc)) + m.sh.releases <= ToNat(InSignal(p)) + sh.releases
            && sh.releases <= m.sh.releases
  {
  }

  /** The explicit decreasing measure, and what stays balanced while the system drains. */
  lemma {:induction false} DrainStep(s: State, e: Event)
    requires Enabled(s, e) && Finishing(e)
    ensures var s' := Step(s, e);
            && Total(s'.pc, Rank) < Total(s.pc, Rank)
            && Num(s'.pc, BeforeSema) - s'.sh.sema + s'.sh.releases
               == Num(s.pc, BeforeSema) - s.sh.sema + s.sh.releases
            && Num(s'.pc, InWait) + s'.sh.returned == Num(s.pc, InWait) + s.sh.returned
            && Num(s'.pc, InSignal) + s'.sh.releases <= Num(s.pc, InSignal) + s.sh.releases
            && s.sh.releases <= s'.sh.releases
  {
    var m := Move(s.pc[e.t], s.sh, e.t, e.a);
    MoveFinishes(s.pc[e.t], s.sh, e.t, e.a);
    TotalUpdate(s.pc, e.t, m.pc, Rank);
    NumUpdate(s.pc, e.t, m.pc, BeforeSema);
    NumUpdate(s.pc, e.t, m.pc, InWait);
    NumUpdate(s.pc, e.t, m.pc, InSignal);
  }

  lemma {:induction false} DrainRun(s: State, sched: seq<Event>, s': State)
    requires Runs(s, sched, s') && forall e :: e in sched ==> Finishing(e)
    ensures |sched| + Total(s'.pc, Rank) <= Total(s.pc, Rank)
    ensures Num(s'.pc, BeforeSema) - s'.sh.sema + s'.sh.releases
         == Num(s.pc, BeforeSema) - s.sh.sema + s.sh.releases
    ensures Num(s'.pc, InWait) + s'.sh.returned == Num(s.pc, InWait) + s.sh.returned
    ensures Num(s'.pc, InSignal) + s'.sh.releases <= Num(s.pc, InSignal) + s.sh.releases
    ensures s.sh.releases <= s'.sh.releases
    decreases |sched|
  {
    if sched != [] {
      DrainStep(s, sched[0]);
      DrainRun(Step(s, sched[0]), sched[1..], s');
    }
  }

  function Excess(a: int, b: int): nat {
    if a > b then a - b else 0
  }

  /** Termination: from any state, if no new call starts, no run is longer than the total rank; and
      the signals in flight release at most one token each. */
  lemma DrainTerminates(s: State, sched: seq<Event>, s': State)
    requires Runs(s, sched, s') && forall e :: e in sched ==> Finishing(e)
    ensures |sched| <= Total(s.pc, Rank)
    ensures s.sh.releases <= s'.sh.releases <= s.sh.releases + Num(s.pc, InSignal)
  {
    DrainRun(s, sched, s');
  }

  /** Outcome: when the drain of a reachable state cannot go on, exactly the waiters for whom there
      was no token are still blocked, all other threads are outside, every other waiter has
      returned, and exactly the surplus tokens are left. The tokens are those there at the start
      and those released by signals that were in flight. */
  lemma DrainOutcome(n: nat, pre: seq<Event>, s: State, sched: seq<Event>, s': State)
    requires Runs(Init(n), pre, s)
    requires Runs(s, sched, s') && Quiet(s')
    requires forall e :: e in sched ==> Finishing(e)
    ensures forall t :: 0 <= t < n ==> s'.pc[t] == Out || s'.pc[t] == WaitBlock
    ensures var waiting, tokens := Num(s.pc, BeforeSema), s.sh.sema + s'.sh.releases - s.sh.releases;
            && Num(s'.pc, BeforeSema) == Excess(waiting, tokens)
            && s'.sh.sema == Excess(tokens, waiting)
            && s'.sh.returned - s.sh.returned == Num(s.pc, InWait) - Excess(waiting, tokens)
  {
    InitInv(n);
    RunInv(Init(n), pre, s);
    RunInv(s, sched, s');
    DrainRun(s, sched, s');
    QuietBlocked(s');
    QuietCounts(s');
  }

  /** With no signal in flight the tokens are those there at the start. */
  lemma DrainWithoutSignals(n: nat, pre: seq<Event>, s: State, sched: seq<Event>, s': State)
    requires Runs(Init(n), pre, s) && forall u :: 0 <= u < n ==> !InSignal(s.pc[u])
    requires Runs(s, sched, s') && Quiet(s')
    requires forall e :: e in sched ==> Finishing(e)
    ensures forall t :: 0 <= t < n ==> s'.pc[t] == Out || s'.pc[t] == WaitBlock
    ensures Num(s'.pc, BeforeSema) == Excess(Num(s.pc, BeforeSema), s.sh.sema)
    ensures s'.sh.sema == Excess(s.sh.sema, Num(s.pc, BeforeSema))
    ensures s'.sh.returned - s.sh.returned
         == Num(s.pc, InWait) - Excess(Num(s.pc, BeforeSema), s.sh.sema)
  {
    NumZero(s.pc, InSignal);
    DrainTerminates(s, sched, s');
    DrainOutcome(n, pre, s, sched, s');
  }

  lemma QuietCounts(s: State)
    requires OutOrBlocked(s)
    ensures Num(s.pc, InWait) == Num(s.pc, BeforeSema)
    ensures Num(s.pc, BeforeSema) == 0 || s.sh.sema == 0
  {
    NumMonotone(s.pc, InWait, BeforeSema);
    NumMonotone(s.pc, BeforeSema, InWait);
    if s.sh.sema > 0 {
      NumZero(s.pc, BeforeSema);
    }
  }

  /** And such a run exists from every state. */
  lemma {:induction false} DrainExists(s: State) returns (sched: seq<Event>, s': State)
    ensures Runs(s, sched, s') && Quiet(s')
    ensures forall e :: e in sched ==> Finishing(e)
    decreases Total(s.pc, Rank)
  {
    if e :| Finishing(e) && Enabled(s, e) {
      DrainStep(s, e);
      var tail;
      tail, s' := DrainExists(Step(s, e));
      sched := [e] + tail;
      assert sched[1..] == tail;
    } else {
      sched, s' := [], s;
    }
  }

  /** One signal, one wakeup: a thread holding the mutex signals while no other signal is in flight,
      nobody starts anything new, and the system runs until nothing can happen any more. Then the
      threads still blocked are those for whom neither a token at hand nor this signal was enough. */
  lemma SignalWakesOne(n: nat, pre: seq<Event>, s0: State, t: nat, sched: seq<Event>, s: State)
    requires Runs(Init(n), pre, s0)
    requires t < n && s0.pc[t] == In && s0.sh.sema < 2147483647
    requires forall u :: 0 <= u < n ==> !InSignal(s0.pc[u])
    requires Runs(Step(s0, Event(t, Signal)), sched, s) && Quiet(s)
    requires forall e :: e in sched ==> Finishing(e)
    ensures Num(s.pc, BeforeSema) == Excess(Num(s0.pc, BeforeSema), s0.sh.sema + 1)
  {
    var begun := Step(s0, Event(t, Signal));
    SignalBegins(s0, t);
    AfterSignal(n, pre, s0, t, sched, s);
    Conservation(n, pre, s0);
    var pre' := Extended(n, pre, s0, Event(t, Signal));
    DrainOutcome(n, pre', begun, sched, s);
    DrainTerminates(begun, sched, s);
    RunJoin(Init(n), pre', begun, sched, s);
    Conservation(n, pre' + sched, s);
  }

  lemma SignalBegins(s: State, t: nat)
    requires t < |s.pc| && s.pc[t] == In && forall u :: 0 <= u < |s.pc| ==> !InSignal(s.pc[u])
    ensures var begun := Step(s, Event(t, Signal));
            && begun.sh == s.sh
            && Num(begun.pc, BeforeSema) == Num(s.pc, BeforeSema)
            && Num(begun.pc, InSignal) == 1
  {
    assert Step(s, Event(t, Signal)).pc == s.pc[t := SigEnter(true)];
    NumUpdate(s.pc, t, SigEnter(true), BeforeSema);
    NumUpdate(s.pc, t, SigEnter(true), InSignal);
    NumZero(s.pc, InSignal);
  }

  lemma AfterSignal(n: nat, pre: seq<Event>, s0: State, t: nat, sched: seq<Event>, s: State)
    requires Runs(Init(n), pre, s0)
    requires t < n && s0.pc[t] == In
    requires Runs(Step(s0, Event(t, Signal)), sched, s) && Quiet(s)
    ensures s.sh.sema + (s.sh.passes - s0.sh.passes)
            >= Min(Num(s0.pc, BeforeSema), Min(s0.sh.sema + 1, 2147483647))
  {
    InitInv(n);
    RunInv(Init(n), pre, s0);
    StepInv(s0, Event(t, Signal));
    RunInv(Step(s0, Event(t, Signal)), sched, s);
    QuietBlocked(s);
    NoLostWakeup(n, pre, s0, t, sched, s, [], s);
  }

  lemma Extended(n: nat, pre: seq<Event>, s: State, e: Event) returns (pre': seq<Event>)
    requires Runs(Init(n), pre, s) && Enabled(s, e)
    ensures Runs(Init(n), pre', Step(s, e))
  {
    assert [e][1..] == [] && Runs(s, [e], Step(s, e));
    RunJoin(Init(n), pre, s, [e], Step(s, e));
    pre' := pre + [e];
  }
}
