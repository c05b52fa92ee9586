/** The condition variable of win32fixes.c as an interleaved step system.

    Any number of threads share one `pthread_cond_t` and one mutex.  A thread is a program
    counter; a step moves one thread across one lock operation, one load or store of the waiter
    count, one semaphore operation or one branch of `pthread_cond_wait` / `pthread_cond_signal`.
    The increment and decrement of `waiters` are split into a load and a store, so that what the
    private lock is for has to be proved rather than assumed. */
module CondVarModel {
  import opened Wrappers

  /** Upper limit of the semaphore, the third argument of CreateSemaphore. */
  const LONG_MAX: nat := 0x7FFF_FFFF

  /** Where a thread is. `held` on the signal positions records whether the caller owns the mutex. */
  datatype PC =
    // client code: without the mutex, asking for it, holding it
    | Out | Entering | In
    // pthread_cond_wait up to and including the semaphore
    | WaitEnter | WaitLoad | WaitStore(seen: int) | WaitLeave | WaitUnlock | WaitBlock
    // pthread_cond_wait after the semaphore
    | WakeEnter | WakeLoad | WakeStore(seen: int) | WakeLast | WakeLeave(last: bool)
    | WakeNotify(last: bool) | WakeRelock
    // pthread_cond_signal
    | SigEnter(held: bool) | SigRead(held: bool) | SigLeave(held: bool, have: bool)
    | SigRelease(held: bool, have: bool)

  /** What a thread may do next: client code chooses, every other position is forced (`Go`). */
  datatype Action = Lock | Unlock | Wait | Signal | BareSignal | Go

  datatype Event = Event(t: nat, a: Action)

  /** The condition variable, the caller's mutex, and three history counters: successful releases,
      completed semaphore waits, and returns from pthread_cond_wait. */
  datatype Shared = Shared(
    mutex: Option<nat>,
    lock: Option<nat>,
    waiters: int,
    sema: nat,
    wasBroadcast: bool,
    continueBroadcast: bool,
    releases: nat,
    passes: nat,
    returned: nat)

  datatype State = State(pc: seq<PC>, sh: Shared)

  /** `n` client threads around a freshly initialised condition variable. */
  function Init(n: nat): State {
    State(seq(n, _ => Out), Shared(None, None, 0, 0, false, false, 0, 0, 0))
  }

  /** Whether a thread at `p` can do `a` now; taking a held lock or an empty semaphore blocks. */
  predicate CanMove(p: PC, sh: Shared, a: Action) {
    match p
    case Out => a == Lock || a == BareSignal
    case In => a == Unlock || a == Wait || a == Signal
    case Entering | WakeRelock => a == Go && sh.mutex == None
    case WaitEnter | WakeEnter | SigEnter(_) => a == Go && sh.lock == None
    case WaitBlock => a == Go && sh.sema > 0
    case _ => a == Go
  }

  datatype Moved = Moved(pc: PC, sh: Shared)

  /** Thread `t`, at `p`, does `a`: where it is afterwards and what the shared variables become. */
  function Move(p: PC, sh: Shared, t: nat, a: Action): Moved
    requires CanMove(p, sh, a)
  {
    match p
    case Out => Moved(if a == Lock then Entering else SigEnter(false), sh)
    case Entering => Moved(In, sh.(mutex := Some(t)))
    case In =>
      (match a
       case Unlock => Moved(Out, sh.(mutex := None))
       case Wait => Moved(WaitEnter, sh)
       case _ => Moved(SigEnter(true), sh))
    case WaitEnter => Moved(WaitLoad, sh.(lock := Some(t)))
    case WaitLoad => Moved(WaitStore(sh.waiters), sh)
    case WaitStore(seen) => Moved(WaitLeave, sh.(waiters := seen + 1))
    case WaitLeave => Moved(WaitUnlock, sh.(lock := None))
    case WaitUnlock => Moved(WaitBlock, sh.(mutex := None))
    case WaitBlock => Moved(WakeEnter, sh.(sema := sh.sema - 1, passes := sh.passes + 1))
    case WakeEnter => Moved(WakeLoad, sh.(lock := Some(t)))
    case WakeLoad => Moved(WakeStore(sh.waiters), sh)
    case WakeStore(seen) => Moved(WakeLast, sh.(waiters := seen - 1))
    case WakeLast => Moved(WakeLeave(sh.wasBroadcast && sh.waiters == 0), sh)
    case WakeLeave(last) => Moved(WakeNotify(last), sh.(lock := None))
    case WakeNotify(last) =>
      Moved(WakeRelock, sh.(continueBroadcast := last || sh.continueBroadcast))
    case WakeRelock => Moved(In, sh.(mutex := Some(t), returned := sh.returned + 1))
    case SigEnter(held) => Moved(SigRead(held), sh.(lock := Some(t)))
    case SigRead(held) => Moved(SigLeave(held, sh.waiters > 0), sh)
    case SigLeave(held, have) => Moved(SigRelease(held, have), sh.(lock := None))
    case SigRelease(held, have) =>
      Moved(if held then In else Out,
            if have && sh.sema < LONG_MAX
            then sh.(sema := sh.sema + 1, releases := sh.releases + 1)
            else sh)
  }

  predicate Enabled(s: State, e: Event) {
    e.t < |s.pc| && CanMove(s.pc[e.t], s.sh, e.a)
  }

  function Step(s: State, e: Event): State
    requires Enabled(s, e)
  {
    var m := Move(s.pc[e.t], s.sh, e.t, e.a);
    State(s.pc[e.t := m.pc], m.sh)
  }

  /** `sched` is a run of the system from `s` to `s'`. */
  predicate Runs(s: State, sched: seq<Event>, s': State): (r: bool)
    ensures r ==> |s'.pc| == |s.pc|
    decreases |sched|
  {
    if sched == [] then s == s'
    else Enabled(s, sched[0]) && Runs(Step(s, sched[0]), sched[1..], s')
  }

  lemma {:induction false} RunJoin(s: State, a: seq<Event>, m: State, b: seq<Event>, s': State)
    requires Runs(s, a, m) && Runs(m, b, s')
    ensures Runs(s, a + b, s')
    decreases |a|
  {
    if a == [] {
      assert a + b == b;
    } else {
      RunJoin(Step(s, a[0]), a[1..], m, b, s');
      assert (a + b)[1..] == a[1..] + b;
    }
  }

  // ---------------------------------------------------------------- positions

  predicate HoldsMutex(p: PC) {
    match p
    case In | WaitEnter | WaitLoad | WaitStore(_) | WaitLeave | WaitUnlock => true
    case SigEnter(h) => h
    case SigRead(h) => h
    case SigLeave(h, _) => h
    case SigRelease(h, _) => h
    case _ => false
  }

  predicate HoldsLock(p: PC) {
    p.WaitLoad? || p.WaitStore? || p.WaitLeave? ||
    p.WakeLoad? || p.WakeStore? || p.WakeLast? || p.WakeLeave? ||
    p.SigRead? || p.SigLeave?
  }

  /** Inside pthread_cond_wait and not yet past the semaphore. */
  predicate BeforeSema(p: PC) {
    p.WaitEnter? || p.WaitLoad? || p.WaitStore? || p.WaitLeave? || p.WaitUnlock? || p.WaitBlock?
  }

  /** Inside pthread_cond_wait and past the semaphore. */
  predicate AfterSema(p: PC) {
    p.WakeEnter? || p.WakeLoad? || p.WakeStore? || p.WakeLast? || p.WakeLeave? ||
    p.WakeNotify? || p.WakeRelock?
  }

  predicate InSignal(p: PC) {
    p.SigEnter? || p.SigRead? || p.SigLeave? || p.SigRelease?
  }

  /** Between the store of the increment and the store of the decrement. */
  predicate Counted(p: PC) {
    p.WaitLeave? || p.WaitUnlock? || p.WaitBlock? || p.WakeEnter? || p.WakeLoad? || p.WakeStore?
  }

  // ---------------------------------------------------------------- counting threads

  /** The sum of a weight over all threads; with a 0/1 weight, a head count. */
  function Total(pcs: seq<PC>, w: PC -> nat): nat {
    if pcs == [] then 0 else w(pcs[0]) + Total(pcs[1..], w)
  }

  function Bit(p: PC -> bool): PC -> nat {
    q => if p(q) then 1 else 0
  }

  function Num(pcs: seq<PC>, p: PC -> bool): nat {
    Total(pcs, Bit(p))
  }

  /** Moving one thread changes a total by the difference of its two weights. */
  lemma {:induction false} TotalUpdate(pcs: seq<PC>, t: nat, p: PC, w: PC -> nat)
    requires t < |pcs|
    ensures Total(pcs[t := p], w) == Total(pcs, w) - w(pcs[t]) + w(p)
  {
    if t == 0 {
      assert pcs[t := p][1..] == pcs[1..];
    } else {
      TotalUpdate(pcs[1..], t - 1, p, w);
      assert pcs[t := p][1..] == pcs[1..][t - 1 := p];
    }
  }

  lemma {:induction false} TotalMonotone(pcs: seq<PC>, v: PC -> nat, w: PC -> nat)
    requires forall i :: 0 <= i < |pcs| ==> v(pcs[i]) <= w(pcs[i])
    ensures Total(pcs, v) <= Total(pcs, w)
  {
    if pcs != [] {
      TotalMonotone(pcs[1..], v, w);
    }
  }

  lemma {:induction false} TotalAtLeast(pcs: seq<PC>, t: nat, w: PC -> nat)
    requires t < |pcs|
    ensures w(pcs[t]) <= Total(pcs, w)
  {
    if t > 0 {
      TotalAtLeast(pcs[1..], t - 1, w);
    }
  }

  lemma {:induction false} TotalZero(pcs: seq<PC>, w: PC -> nat)
    requires forall i :: 0 <= i < |pcs| ==> w(pcs[i]) == 0
    ensures Total(pcs, w) == 0
  {
    if pcs != [] {
      TotalZero(pcs[1..], w);
    }
  }

  lemma NumUpdate(pcs: seq<PC>, t: nat, p: PC, q: PC -> bool)
    requires t < |pcs|
    ensures Num(pcs[t := p], q)
         == Num(pcs, q) - (if q(pcs[t]) then 1 else 0) + (if q(p) then 1 else 0)
  {
    TotalUpdate(pcs, t, p, Bit(q));
  }

  lemma NumMonotone(pcs: seq<PC>, p: PC -> bool, q: PC -> bool)
    requires forall i :: 0 <= i < |pcs| ==> p(pcs[i]) ==> q(pcs[i])
    ensures Num(pcs, p) <= Num(pcs, q)
  {
    TotalMonotone(pcs, Bit(p), Bit(q));
  }

  lemma NumZero(pcs: seq<PC>, p: PC -> bool)
    requires forall i :: 0 <= i < |pcs| ==> !p(pcs[i])
    ensures Num(pcs, p) == 0
  {
    TotalZero(pcs, Bit(p));
  }

  lemma {:induction false} NumSum(pcs: seq<PC>, p: PC -> bool, q: PC -> bool, r: PC -> bool)
    requires forall i :: 0 <= i < |pcs| ==> (p(pcs[i]) <==> q(pcs[i]) || r(pcs[i]))
    requires forall i :: 0 <= i < |pcs| ==> !(q(pcs[i]) && r(pcs[i]))
    ensures Num(pcs, p) == Num(pcs, q) + Num(pcs, r)
  {
    if pcs != [] {
      NumSum(pcs[1..], p, q, r);
    }
  }

  lemma {:induction false} NumOne(pcs: seq<PC>, p: PC -> bool, t: nat)
    requires t < |pcs| && forall i :: 0 <= i < |pcs| ==> (p(pcs[i]) <==> i == t)
    ensures Num(pcs, p) == 1
  {
    if t == 0 {
      forall i | 0 <= i < |pcs[1..]|
        ensures !p(pcs[1..][i])
      {
        assert pcs[1..][i] == pcs[i + 1];
      }
      NumZero(pcs[1..], p);
    } else {
      forall i | 0 <= i < |pcs[1..]|
        ensures p(pcs[1..][i]) <==> i == t - 1
      {
        assert pcs[1..][i] == pcs[i + 1];
      }
      NumOne(pcs[1..], p, t - 1);
    }
  }
}
