/** The two FILETIME conversions of win32fixes.c, with the widths and signs of their C types: `time_t`
    is a signed and `unsigned __int64` an unsigned 64-bit integer, `long` and `unsigned int` have 32
    bits. A FILETIME counts tenths of microseconds since 1601; the results count from 1970. */
module FileTime {
  import opened Division

  const TWO31: int := 0x8000_0000
  const TWO32: int := 0x1_0000_0000
  const TWO63: int := 0x8000_0000_0000_0000
  const TWO64: int := 0x1_0000_0000_0000_0000

  /** `DELTA_EPOCH_IN_MICROSECS`. */
  const DELTA: int := 11644473600000000

  const MILLION: int := 1000000

  // ---------------------------------------------------------------- C integers

  /** Conversion of a number to a signed 64-bit or 32-bit integer. */
  function Signed64(x: int): int {
    if x % TWO64 < TWO63 then x % TWO64 else x % TWO64 - TWO64
  }

  function Signed32(x: int): int {
    if x % TWO32 < TWO31 then x % TWO32 else x % TWO32 - TWO32
  }

  /** Both are congruent to the number and in the range of their type. */
  lemma SignedRanges(x: int)
    ensures -0x8000_0000_0000_0000 <= Signed64(x) < 0x8000_0000_0000_0000
    ensures (x - Signed64(x)) % 0x1_0000_0000_0000_0000 == 0
    ensures -0x8000_0000 <= Signed32(x) < 0x8000_0000
    ensures (x - Signed32(x)) % 0x1_0000_0000 == 0
  {
    DivMod(x - x % TWO64, TWO64, x / TWO64, 0);
    DivMod(x - x % TWO64 + TWO64, TWO64, x / TWO64 + 1, 0);
    DivMod(x - x % TWO32, TWO32, x / TWO32, 0);
    DivMod(x - x % TWO32 + TWO32, TWO32, x / TWO32 + 1, 0);
  }

  /** The FILETIME as one number. */
  function Ticks(hi: bv32, lo: bv32): (t: int)
    ensures 0 <= t < 0x1_0000_0000_0000_0000
  {
    hi as int * TWO32 + lo as int
  }

  /** `tmpres |= hi; tmpres <<= 32; tmpres |= lo` glues the halves together. */
  lemma ShiftAndOr(hi: bv32, lo: bv32)
    ensures ((((0 as bv64) | (hi as bv64)) << 32) | (lo as bv64)) as int == Ticks(hi, lo)
  {
  }

  // ---------------------------------------------------------------- the two functions

  /** The first statements of both: the two halves of the FILETIME in 64 bits. */
  method Glued(hi: bv32, lo: bv32) returns (bits: int)
    ensures bits == Ticks(hi, lo)
  {
    var tmpres: bv64 := 0;
    tmpres := tmpres | (hi as bv64);
    tmpres := tmpres << 32;
    tmpres := tmpres | (lo as bv64);
    ShiftAndOr(hi, lo);
    bits := tmpres as int;
  }

  /** gettimeofdaysecs, given what GetSystemTimeAsFileTime delivers. */
  method GetTimeOfDaySecs(hi: bv32, lo: bv32) returns (secs: int, usec: int)
    ensures (secs, usec) == SignedTime(Ticks(hi, lo))
    ensures Represents((secs, usec), Ticks(hi, lo)) <==> SignedRange(Ticks(hi, lo))
  {
    var bits := Glued(hi, lo);
    var tmpres := Signed64(bits);
    tmpres := Quot(tmpres, 10);
    tmpres := Signed64(tmpres - DELTA);
    usec := Rem(tmpres, MILLION) % TWO32;
    secs := Quot(tmpres, MILLION);
    SignedTimeIsExact(Ticks(hi, lo));
  }

  /** gettimeofday, for a non-null `tv`. */
  method GetTimeOfDay(hi: bv32, lo: bv32) returns (tv_sec: int, tv_usec: int)
    ensures (tv_sec, tv_usec) == UnsignedTime(Ticks(hi, lo))
    ensures Represents((tv_sec, tv_usec), Ticks(hi, lo)) <==> UnsignedRange(Ticks(hi, lo))
  {
    var bits := Glued(hi, lo);
    var tmpres := bits;
    tmpres := tmpres / 10;
    tmpres := (tmpres - DELTA) % TWO64;
    tv_sec := Signed32(tmpres / MILLION);
    tv_usec := Signed32(tmpres % MILLION);
    UnsignedTimeIsExact(Ticks(hi, lo));
  }

  function SignedTime(ticks: int): (int, int) {
    var t := Signed64(Quot(Signed64(ticks), 10) - DELTA);
    (Quot(t, MILLION), Rem(t, MILLION) % TWO32)
  }

  function UnsignedTime(ticks: int): (int, int) {
    var t := (ticks / 10 - DELTA) % TWO64;
    (Signed32(t / MILLION), Signed32(t % MILLION))
  }

  // ---------------------------------------------------------------- what they should compute

  /** The Gregorian calendar: every fourth year is a leap year, of the hundredth years every fourth. */
  predicate Leap(year: nat) {
    year % 4 == 0 && (year % 100 == 0 ==> year % 400 == 0)
  }

  function LeapYears(from: nat, to: nat): set<nat> {
    set y: nat | from <= y < to && Leap(y)
  }

  /** The microseconds from the beginning of 1601 to the beginning of 1970. */
  function Epoch(): int {
    ((1970 - 1601) * 365 + |LeapYears(1601, 1970)|) * 86400 * 1000000
  }

  lemma EpochIsDelta()
    ensures Epoch() == DELTA
  {
    CountLeapYears(1601, 1970);
  }

  lemma {:induction false} CountLeapYears(from: nat, to: nat)
    requires 1 <= from <= to
    ensures |LeapYears(from, to)| == Leaps(to - 1) - Leaps(from - 1)
  {
    if from == to {
      assert LeapYears(from, to) == {};
    } else {
      var y := to - 1;
      CountLeapYears(from, y);
      LeapsStep(y);
      OneYearMore(from, y);
    }
  }

  lemma OneYearMore(from: nat, y: nat)
    requires from <= y
    ensures |LeapYears(from, y + 1)| == |LeapYears(from, y)| + if Leap(y) then 1 else 0
  {
    if Leap(y) {
      assert LeapYears(from, y + 1) == LeapYears(from, y) + {y};
    } else {
      assert LeapYears(from, y + 1) == LeapYears(from, y);
    }
  }

  /** The leap years up to `y`. */
  function Leaps(y: nat): int {
    y / 4 - y / 100 + y / 400
  }

  lemma LeapsStep(y: nat)
    requires y >= 1
    ensures Leaps(y) == Leaps(y - 1) + if Leap(y) then 1 else 0
  {
    CountUp(y, 4);
    CountUp(y, 100);
    CountUp(y, 400);
    Hundreds(y);
  }

  lemma Hundreds(y: int)
    ensures y % 400 == 0 ==> y % 100 == 0
    ensures y % 100 == 0 ==> y % 4 == 0
  {
    var q, r := y / 400, y / 100;
    if y % 400 == 0 {
      DivMod(y, 100, 4 * q, 0);
    }
    if y % 100 == 0 {
      DivMod(y, 4, 25 * r, 0);
    }
  }

  lemma CountUp(y: int, k: int)
    requires k > 0
    ensures y / k == (y - 1) / k + if y % k == 0 then 1 else 0
  {
    if y % k == 0 {
      DivMod(y - 1, k, y / k - 1, k - 1);
    } else {
      DivMod(y - 1, k, y / k, y % k - 1);
    }
  }

  /** Microseconds since 1970; negative before. */
  function Since1970(ticks: int): int {
    ticks / 10 - Epoch()
  }

  /** Seconds and microseconds since 1970. */
  predicate Represents(time: (int, int), ticks: int) {
    && 0 <= time.1 < 1000000
    && time.0 * 1000000 + time.1 == Since1970(ticks)
  }

  /** From 1970 until the seconds leave a 32-bit `long`. */
  predicate UnsignedRange(ticks: int) {
    0 <= Since1970(ticks) < 0x8000_0000 * 1000000
  }

  /** In the positive half of `time_t`, and from 1970 on or at a whole second. */
  predicate SignedRange(ticks: int) {
    ticks < 0x8000_0000_0000_0000 && (Since1970(ticks) >= 0 || Since1970(ticks) % 1000000 == 0)
  }

  predicate Before(x: (int, int), y: (int, int)) {
    x.0 < y.0 || (x.0 == y.0 && x.1 < y.1)
  }

  /** gettimeofday is right exactly from 1970 until the seconds leave a 32-bit `long`. */
  lemma UnsignedTimeIsExact(ticks: int)
    requires 0 <= ticks < 0x1_0000_0000_0000_0000
    ensures Represents(UnsignedTime(ticks), ticks) <==> UnsignedRange(ticks)
  {
    EpochIsDelta();
  }

  /** A negative count of microseconds `-x` as the signed code reports it: rounded toward zero, and
      the remainder wrapped around. */
  lemma NegativeTime(x: int)
    requires 0 < x
    ensures Quot(-x, MILLION) == -(x / MILLION)
    ensures x % MILLION == 0 ==> Rem(-x, MILLION) % TWO32 == 0
    ensures x % MILLION != 0 ==> Rem(-x, MILLION) % TWO32 == TWO32 - x % MILLION
  {
    var r := x % MILLION;
    if r != 0 {
      DivMod(-r, TWO32, -1, TWO32 - r);
    }
  }

  lemma SignedTimeSince1970(ticks: int)
    requires DELTA <= ticks / 10 && ticks < TWO63
    ensures SignedTime(ticks) == ((ticks / 10 - DELTA) / MILLION, (ticks / 10 - DELTA) % MILLION)
  {
    var m := ticks / 10 - DELTA;
    DivMod(ticks, TWO64, 0, ticks);
    DivMod(m, TWO64, 0, m);
    DivMod(m % MILLION, TWO32, 0, m % MILLION);
  }

  /** Microseconds before 1970 that the signed code sees. */
  function Early(ticks: int): int {
    DELTA - Quot(Signed64(ticks), 10)
  }

  lemma SignedTimeBefore1970(ticks: int)
    requires 0 <= ticks < TWO64 && !(DELTA <= ticks / 10 && ticks < TWO63)
    ensures 0 < Early(ticks)
    ensures SignedTime(ticks) == (Quot(-Early(ticks), MILLION), Rem(-Early(ticks), MILLION) % TWO32)
    ensures Early(ticks) == if ticks < TWO63 then DELTA - ticks / 10 else DELTA + (TWO64 - ticks) / 10
  {
    DivMod(ticks, TWO64, 0, ticks);
    var x := Early(ticks);
    DivMod(-x, TWO64, -1, TWO64 - x);
  }

  /** gettimeofdaysecs is right exactly from 1970 until the FILETIME leaves the positive half of
      `time_t`, and before 1970 at whole seconds. */
  lemma SignedTimeIsExact(ticks: int)
    requires 0 <= ticks < 0x1_0000_0000_0000_0000
    ensures Represents(SignedTime(ticks), ticks) <==> SignedRange(ticks)
  {
    EpochIsDelta();
    if DELTA <= ticks / 10 && ticks < TWO63 {
      SignedTimeSince1970(ticks);
    } else {
      SignedTimeBefore1970(ticks);
      NegativeTime(Early(ticks));
      if ticks < TWO63 {
        Opposite(ticks / 10 - DELTA);
      }
    }
  }

  /** What gettimeofdaysecs reports otherwise: before 1970 the seconds are rounded toward zero and the
      negative remainder is wrapped around; from 2^63 ticks on, the FILETIME counts as negative. */
  lemma SignedTimeOutside(ticks: int)
    requires 0 <= ticks < 0x1_0000_0000_0000_0000
    requires Since1970(ticks) < 0 || ticks >= 0x8000_0000_0000_0000
    ensures var early := if ticks < 0x8000_0000_0000_0000 then -Since1970(ticks)
                         else Epoch() + (0x1_0000_0000_0000_0000 - ticks) / 10;
            && early > 0
            && SignedTime(ticks).0 == -(early / 1000000)
            && SignedTime(ticks).1
               == if early % 1000000 == 0 then 0 else 0x1_0000_0000 - early % 1000000
  {
    EpochIsDelta();
    SignedTimeBefore1970(ticks);
    NegativeTime(Early(ticks));
  }

  lemma Opposite(x: int)
    ensures x % MILLION == 0 <==> -x % MILLION == 0
  {
    var q, r := x / MILLION, x % MILLION;
    if r == 0 {
      DivMod(-x, MILLION, -q, 0);
    } else {
      DivMod(-x, MILLION, -q - 1, MILLION - r);
    }
  }

  /** Outside that range the microseconds alone tell the two apart. */
  lemma EarlyDiffers(ticks: int)
    requires 0 <= ticks < TWO64 && !(DELTA <= ticks / 10 && ticks < TWO63)
    ensures SignedTime(ticks).1 != UnsignedTime(ticks).1
  {
    SignedTimeBefore1970(ticks);
    var x := Early(ticks);
    NegativeTime(x);
    UnsignedUsec(ticks);
    if x % MILLION == 0 {
      var q := x / MILLION;
      if ticks < TWO63 {
        DivMod(TWO64 - x, MILLION, TWO64 / MILLION - q, TWO64 % MILLION);
      } else {
        LateRemainder(ticks);
      }
    }
  }

  lemma UnsignedUsec(ticks: int)
    requires 0 <= ticks < TWO64
    ensures UnsignedTime(ticks).1
         == (if ticks / 10 < DELTA then TWO64 + ticks / 10 - DELTA else ticks / 10 - DELTA) % MILLION
  {
    var m := ticks / 10 - DELTA;
    if m < 0 {
      DivMod(m, TWO64, -1, TWO64 + m);
    } else {
      DivMod(m, TWO64, 0, m);
    }
  }

  lemma LateRemainder(ticks: int)
    requires TWO63 <= ticks < TWO64
    requires (DELTA + (TWO64 - ticks) / 10) % MILLION == 0
    ensures (ticks / 10 - DELTA) % MILLION != 0
  {
    var u, w := ticks / 10, (TWO64 - ticks) / 10;
    var p, q := (DELTA + w) / MILLION, (u - DELTA) / MILLION;
    assert DELTA + w == p * MILLION;
    assert TWO64 / 10 - 1 <= u + w <= TWO64 / 10;
    assert (u - DELTA) % MILLION == 0 ==> u + w == (p + q) * MILLION;
  }

  /** The two implementations agree exactly while both are right. */
  lemma TheyAgree(ticks: int)
    requires 0 <= ticks < 0x1_0000_0000_0000_0000
    ensures SignedTime(ticks) == UnsignedTime(ticks) <==> UnsignedRange(ticks)
  {
    EpochIsDelta();
    if DELTA <= ticks / 10 && ticks < TWO63 {
      SignedTimeSince1970(ticks);
      UnsignedTimeSince1970(ticks);
    } else {
      EarlyDiffers(ticks);
    }
  }

  lemma UnsignedTimeSince1970(ticks: int)
    requires DELTA <= ticks / 10 && ticks < TWO64
    ensures UnsignedTime(ticks)
         == (Signed32((ticks / 10 - DELTA) / MILLION), (ticks / 10 - DELTA) % MILLION)
    ensures Signed32((ticks / 10 - DELTA) / MILLION) == (ticks / 10 - DELTA) / MILLION
       <==> ticks / 10 - DELTA < TWO31 * MILLION
  {
    var m := ticks / 10 - DELTA;
    DivMod(m, TWO64, 0, m);
    DivMod(m % MILLION, TWO32, 0, m % MILLION);
  }

  /** Where gettimeofday is right, a later FILETIME never gives an earlier time, and one later by a
      microsecond or more gives a later time. */
  lemma Monotone(x: int, y: int)
    requires 0 <= x <= y < 0x1_0000_0000_0000_0000
    requires UnsignedRange(x) && UnsignedRange(y)
    ensures !Before(UnsignedTime(y), UnsignedTime(x))
    ensures x / 10 < y / 10 ==> Before(UnsignedTime(x), UnsignedTime(y))
  {
    UnsignedTimeIsExact(x);
    UnsignedTimeIsExact(y);
  }
}
