/** `run_with_period` of redis/redis.h: run a body every `ms` milliseconds from a cron function that
    is called `hz` times a second and counts its calls in `cronloops`. By
    redis/redis.h:80-81, `hz` is between 1 and 500. */
module Period {
  import opened Division

  /** The length of a tick in milliseconds, `1000/server.hz`. */
  function Tick(hz: int): (t: int)
    requires 1 <= hz <= 500
    ensures t >= 2
    ensures t * hz <= 1000 < (t + 1) * hz
  {
    TickBounds(hz);
    1000 / hz
  }

  lemma TickBounds(hz: int)
    requires 1 <= hz <= 500
    ensures 1000 / hz >= 2 && 1000 / hz * hz <= 1000 < (1000 / hz + 1) * hz
  {
    var t := 1000 / hz;
    assert t < 2 ==> (t + 1) * hz <= 2 * hz;
  }

  lemma TicksPerPeriod(hz: int, ms: int)
    requires 1 <= hz <= 500 && ms > Tick(hz)
    ensures ms / Tick(hz) >= 1
    ensures ms - Tick(hz) < ms / Tick(hz) * Tick(hz) <= ms
  {
    var tick := Tick(hz);
    var k := ms / tick;
    assert ms == k * tick + ms % tick;
    assert k < 1 ==> k * tick <= 0;
  }

  /** The condition of the macro. Neither division is by zero. */
  predicate RunsAt(hz: int, ms: int, cronloops: int)
    requires 1 <= hz <= 500 && ms > 0
  {
    ms <= Tick(hz) || (TicksPerPeriod(hz, ms); Rem(cronloops, ms / Tick(hz)) == 0)
  }

  lemma RemZero(a: int, b: int)
    requires b > 0
    ensures Rem(a, b) == 0 <==> a % b == 0
  {
    if a < 0 {
      NegatedMod(a, b);
    }
  }

  lemma NegatedMod(a: int, b: int)
    requires b > 0
    ensures a % b == 0 <==> -a % b == 0
  {
    if a % b == 0 {
      DivMod(-a, b, -(a / b), 0);
    }
    if -a % b == 0 {
      DivMod(a, b, -(-a / b), 0);
    }
  }

  /** The body runs in every loop exactly for periods shorter than two ticks: up to one tick by the
      first test of the macro, and from there on because the divisor is 1. */
  lemma RunsAlways(hz: int, ms: int)
    requires 1 <= hz <= 500 && ms > 0
    ensures (forall n :: RunsAt(hz, ms, n)) <==> ms < 2 * Tick(hz)
  {
    var tick := Tick(hz);
    if ms > tick {
      TicksPerPeriod(hz, ms);
      var k := ms / tick;
      if ms < 2 * tick {
        DivMod(ms, tick, 1, ms - tick);
      } else {
        assert k < 2 ==> k * tick <= tick;
        DivMod(1, k, 0, 1);
        assert !RunsAt(hz, ms, 1);
      }
    }
  }

  /** A period longer than a tick runs exactly once in every window of `k = ms / tick` consecutive
      loops, wherever the window starts; the nominal time between two runs, `k` ticks, is at most the
      period asked for and falls short of it by less than a tick. Loop 0 is one of those that run. */
  lemma OncePerWindow(hz: int, ms: int, from: int) returns (run: int)
    requires 1 <= hz <= 500 && ms > Tick(hz)
    ensures var k := ms / Tick(hz);
            && from <= run < from + k && RunsAt(hz, ms, run)
            && (forall n :: from <= n < from + k && RunsAt(hz, ms, n) ==> n == run)
            && RunsAt(hz, ms, run + k)
            && (forall n :: run < n < run + k ==> !RunsAt(hz, ms, n))
            && RunsAt(hz, ms, 0)
            && ms - Tick(hz) < k * Tick(hz) <= ms
  {
    TicksPerPeriod(hz, ms);
    var k := ms / Tick(hz);
    run := NextMultiple(from, k);
    OnlyMultiple(run, k);
    forall n | run - k < n <= run + k
      ensures RunsAt(hz, ms, n) <==> n == run || n == run + k
    {
      RemZero(n, k);
    }
  }

  lemma NextMultiple(from: int, k: int) returns (run: int)
    requires k > 0
    ensures from <= run < from + k && run % k == 0
  {
    var p := (from + k - 1) / k;
    run := p * k;
    DivMod(run, k, p, 0);
  }

  lemma OnlyMultiple(run: int, k: int)
    requires k > 0 && run % k == 0
    ensures forall n :: run - k < n <= run + k ==> (n % k == 0 <==> n == run || n == run + k)
  {
    var p := run / k;
    forall n | run - k < n <= run + k
      ensures n % k == 0 <==> n == run || n == run + k
    {
      if n < run {
        DivMod(n, k, p - 1, n - run + k);
      } else if n < run + k {
        DivMod(n, k, p, n - run);
      } else {
        DivMod(n, k, p + 1, 0);
      }
    }
  }
}
