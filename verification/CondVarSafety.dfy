/** What every step of the condition variable keeps, and what follows for whole runs. */
module CondVarSafety {
  import opened CondVarModel
  import opened Wrappers

  function ToNat(b: bool): nat {
    if b then 1 else 0
  }

  /** The threads whose position holds a lock are exactly the one the lock names, if any. */
  ghost predicate Owned(pcs: seq<PC>, holds: PC -> bool, owner: Option<nat>) {
    && (owner.Some? ==> owner.value < |pcs|)
    && forall t :: 0 <= t < |pcs| ==> (holds(pcs[t]) <==> owner == Some(t))
  }

  ghost predicate Locks(s: State) {
    Owned(s.pc, HoldsMutex, s.sh.mutex) && Owned(s.pc, HoldsLock, s.sh.lock)
  }

  /** A value loaded from `waiters` and not yet stored back is still the current one. */
  predicate Current(p: PC, waiters: int) {
    (p.WaitStore? || p.WakeStore?) ==> p.seen == waiters
  }

  ghost predicate Fresh(s: State) {
    forall t :: 0 <= t < |s.pc| ==> Current(s.pc[t], s.sh.waiters)
  }

  ghost predicate Conserved(s: State) {
    && s.sh.waiters == Num(s.pc, Counted)
    && s.sh.releases == s.sh.passes + s.sh.sema
    && s.sh.passes == s.sh.returned + Num(s.pc, AfterSema)
    && s.sh.sema <= LONG_MAX
  }

  ghost predicate NoBroadcast(s: State) {
    && !s.sh.wasBroadcast && !s.sh.continueBroadcast
    && forall t :: 0 <= t < |s.pc| ==> s.pc[t] != WakeLeave(true) && s.pc[t] != WakeNotify(true)
  }

  ghost predicate Inv(s: State) {
    Locks(s) && Fresh(s) && Conserved(s) && NoBroadcast(s)
  }

  lemma {:induction false} InitCounts(n: nat, q: PC -> bool)
    requires !q(Out)
    ensures Num(Init(n).pc, q) == 0
  {
    NumZero(Init(n).pc, q);
  }

  lemma InitInv(n: nat)
    ensures Inv(Init(n))
  {
    InitCounts(n, Counted);
    InitCounts(n, AfterSema);
  }

  /** What one thread's move does to the locks: one is taken only when free, and given up only by
      its holder. */
  lemma MoveLocks(p: PC, sh: Shared, t: nat, a: Action)
    requires CanMove(p, sh, a)
    ensures var m := Move(p, sh, t, a);
            && (HoldsMutex(m.pc) && !HoldsMutex(p) ==> sh.mutex == None)
            && m.sh.mutex == (if HoldsMutex(p) == HoldsMutex(m.pc) then sh.mutex
                              else if HoldsMutex(m.pc) then Some(t) else None)
            && (HoldsLock(m.pc) && !HoldsLock(p) ==> sh.lock == None)
            && m.sh.lock == (if HoldsLock(p) == HoldsLock(m.pc) then sh.lock
                             else if HoldsLock(m.pc) then Some(t) else None)
            && (m.sh.waiters != sh.waiters ==> HoldsLock(p))
            && (Current(p, sh.waiters) ==> Current(m.pc, m.sh.waiters))
  {
  }

  /** What one thread's move does to the counters. */
  lemma MoveCounts(p: PC, sh: Shared, t: nat, a: Action)
    requires CanMove(p, sh, a) && Current(p, sh.waiters)
    ensures var m := Move(p, sh, t, a);
            && m.sh.waiters == sh.waiters - ToNat(Counted(p)) + ToNat(Counted(m.pc))
            && m.sh.passes - m.sh.returned
               == sh.passes - sh.returned - ToNat(AfterSema(p)) + ToNat(AfterSema(m.pc))
            && m.sh.releases - m.sh.passes - m.sh.sema == sh.releases - sh.passes - sh.sema
            && (sh.sema <= LONG_MAX ==> m.sh.sema <= LONG_MAX)
  {
  }

  lemma OwnedMoves(pcs: seq<PC>, t: nat, p: PC, holds: PC -> bool, owner: Option<nat>)
    requires t < |pcs| && Owned(pcs, holds, owner)
    requires holds(p) && !holds(pcs[t]) ==> owner == None
    ensures Owned(pcs[t := p], holds,
                  if holds(p) == holds(pcs[t]) then owner else if holds(p) then Some(t) else None)
  {
  }

  lemma StepLocks(s: State, e: Event)
    requires Locks(s) && Fresh(s) && Enabled(s, e)
    ensures Locks(Step(s, e)) && Fresh(Step(s, e))
  {
    var m := Move(s.pc[e.t], s.sh, e.t, e.a);
    MoveLocks(s.pc[e.t], s.sh, e.t, e.a);
    OwnedMoves(s.pc, e.t, m.pc, HoldsMutex, s.sh.mutex);
    OwnedMoves(s.pc, e.t, m.pc, HoldsLock, s.sh.lock);
  }

  lemma StepConserved(s: State, e: Event)
    requires Fresh(s) && Conserved(s) && Enabled(s, e)
    ensures Conserved(Step(s, e))
  {
    var m := Move(s.pc[e.t], s.sh, e.t, e.a);
    MoveCounts(s.pc[e.t], s.sh, e.t, e.a);
    NumUpdate(s.pc, e.t, m.pc, Counted);
    NumUpdate(s.pc, e.t, m.pc, AfterSema);
  }

  lemma StepNoBroadcast(s: State, e: Event)
    requires NoBroadcast(s) && Enabled(s, e)
    ensures NoBroadcast(Step(s, e))
  {
  }

  lemma StepInv(s: State, e: Event)
    requires Inv(s) && Enabled(s, e)
    ensures Inv(Step(s, e)) && |Step(s, e).pc| == |s.pc|
  {
    StepLocks(s, e);
    StepConserved(s, e);
    StepNoBroadcast(s, e);
  }

  lemma {:induction false} RunInv(s: State, sched: seq<Event>, s': State)
    requires Inv(s) && Runs(s, sched, s')
    ensures Inv(s') && |s'.pc| == |s.pc|
    decreases |sched|
  {
    if sched != [] {
      StepInv(s, sched[0]);
      RunInv(Step(s, sched[0]), sched[1..], s');
    }
  }

  // ---------------------------------------------------------------- every reachable state

  /** Lock safety: neither the mutex nor `waiters_lock` is ever held by two threads, and the holder
      is the thread the lock names. */
  lemma MutualExclusion(n: nat, sched: seq<Event>, s: State, t: nat, u: nat)
    requires Runs(Init(n), sched, s) && t < n && u < n
    ensures HoldsMutex(s.pc[t]) <==> s.sh.mutex == Some(t)
    ensures HoldsLock(s.pc[t]) <==> s.sh.lock == Some(t)
    ensures HoldsMutex(s.pc[t]) && HoldsMutex(s.pc[u]) ==> t == u
    ensures HoldsLock(s.pc[t]) && HoldsLock(s.pc[u]) ==> t == u
  {
    InitInv(n);
    RunInv(Init(n), sched, s);
  }

  lemma MoveReturns(p: PC, sh: Shared, t: nat, a: Action)
    requires CanMove(p, sh, a)
    ensures var m := Move(p, sh, t, a);
            sh.returned < m.sh.returned ==>
              p == WakeRelock && m.pc == In && sh.mutex == None && m.sh.mutex == Some(t)
  {
  }

  /** Whatever returns from pthread_cond_wait returns holding the mutex, which was free before. */
  lemma WaitReturnsWithMutex(n: nat, sched: seq<Event>, s: State, e: Event)
    requires Runs(Init(n), sched, s) && Enabled(s, e)
    requires s.sh.returned < Step(s, e).sh.returned
    ensures s.pc[e.t] == WakeRelock && Step(s, e).pc[e.t] == In
    ensures Step(s, e).sh.mutex == Some(e.t)
    ensures forall u :: 0 <= u < n ==> !HoldsMutex(s.pc[u])
  {
    InitInv(n);
    RunInv(Init(n), sched, s);
    MoveReturns(s.pc[e.t], s.sh, e.t, e.a);
  }

  /** Conservation: the waiter count is the number of threads between its two updates, tokens are
      neither lost nor invented, and returns never exceed releases. */
  lemma Conservation(n: nat, sched: seq<Event>, s: State)
    requires Runs(Init(n), sched, s)
    ensures s.sh.waiters == Num(s.pc, Counted) <= n
    ensures s.sh.releases == s.sh.passes + s.sh.sema && s.sh.sema <= 2147483647
    ensures s.sh.passes == s.sh.returned + Num(s.pc, AfterSema)
    ensures s.sh.returned <= s.sh.releases
  {
    InitInv(n);
    RunInv(Init(n), sched, s);
    NumAtMost(s.pc, Counted);
  }

  lemma {:induction false} NumAtMost(pcs: seq<PC>, q: PC -> bool)
    ensures Num(pcs, q) <= |pcs|
  {
    if pcs != [] {
      NumAtMost(pcs[1..], q);
    }
  }

  /** Nothing here sets `was_broadcast`, so no thread ever finds itself the last waiter and the
      event `continue_broadcast` is never signalled. */
  lemma LastWaiterBranchIsDead(n: nat, sched: seq<Event>, s: State, t: nat)
    requires Runs(Init(n), sched, s) && t < n
    ensures !s.sh.wasBroadcast && !s.sh.continueBroadcast
    ensures s.pc[t] != WakeLeave(true) && s.pc[t] != WakeNotify(true)
  {
    InitInv(n);
    RunInv(Init(n), sched, s);
  }
}
