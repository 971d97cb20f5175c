/** The `clock_gettime` shim for Windows: it reads the system time as a
    FILETIME (a count of 100 ns ticks since 1601-01-01 UTC), moves it to the
    POSIX epoch (1970-01-01 UTC) with unsigned 64-bit arithmetic, splits it
    into whole seconds and nanoseconds, stores both in the caller's
    `struct timespec` and reports success.

    The tick count that `GetSystemTimeAsFileTime` supplies is a parameter. */
module ClockGettimeWin32 {

  import opened MachineInt
  import opened DivMod
  import Calendar

  /** FILETIME ticks from 1601-01-01 to 1970-01-01. */
  const EPOCH_OFFSET: uint64 := 116444736000000000
  const TICKS_PER_SECOND: uint64 := 10000000
  const NANOS_PER_TICK: uint64 := 100
  const NANOS_PER_SECOND: int := 1000000000

  /** The largest number of seconds the conversion can produce: (2^64 - 1) / 10^7. */
  const MAX_SECONDS: int := 1844674407370
  /** The smallest number of seconds a tick count before 1970 wraps to: (2^64 - offset) / 10^7. */
  const MIN_WRAPPED_SECONDS: int := 1833029933770

  /** The value of a `struct timespec`. */
  datatype TimeValue = TimeValue(sec: int, nsec: int)

  /** The ticks since 1970-01-01 that a time value stands for. */
  function TicksSinceEpoch(v: TimeValue): (t: int) {
    v.sec * TICKS_PER_SECOND + v.nsec / NANOS_PER_TICK
  }

  /** The time values the conversion can produce: normalised (nanoseconds
      below one second), at tick resolution, and no further from the epoch
      than an unsigned 64-bit tick count reaches. */
  predicate Representable(v: TimeValue) {
    && 0 <= v.sec
    && 0 <= v.nsec < NANOS_PER_SECOND
    && v.nsec % NANOS_PER_TICK == 0
    && TicksSinceEpoch(v) < TWO_TO_THE_64
  }

  /** The arithmetic of the shim: subtract the epoch offset modulo 2^64, then
      split the remainder into seconds and nanoseconds. */
  function Convert(ticks: uint64): (v: TimeValue)
    ensures Representable(v)
    ensures 0 <= v.nsec <= 999999900
    ensures 0 <= v.sec <= MAX_SECONDS
  {
    var elapsed := SubWrap(ticks, EPOCH_OFFSET);
    TimeValue(elapsed / TICKS_PER_SECOND, elapsed % TICKS_PER_SECOND * NANOS_PER_TICK)
  }

  /** The inverse of Convert: the FILETIME tick count a time value denotes,
      with the epoch offset added back modulo 2^64. */
  function ToTicks(v: TimeValue): (t: uint64) {
    (TicksSinceEpoch(v) + EPOCH_OFFSET) % TWO_TO_THE_64
  }

  /** The whole tick count is recovered from the seconds and nanoseconds. */
  lemma ConvertThenToTicks(ticks: uint64)
    ensures ToTicks(Convert(ticks)) == ticks
  {
  }

  /** Every representable time value is produced by exactly one tick count. */
  lemma ToTicksThenConvert(v: TimeValue)
    requires Representable(v)
    ensures Convert(ToTicks(v)) == v
  {
    var elapsed := TicksSinceEpoch(v);
    QuotientUnique(v.nsec, NANOS_PER_TICK, v.nsec / NANOS_PER_TICK, 0);
    QuotientUnique(elapsed, TICKS_PER_SECOND, v.sec, v.nsec / NANOS_PER_TICK);
  }

  /** From 1970 on, seconds and ticks of the split add up to the ticks
      elapsed since the epoch. */
  lemma Reconstruction(ticks: uint64)
    requires ticks >= EPOCH_OFFSET
    ensures Convert(ticks).sec * TICKS_PER_SECOND + Convert(ticks).nsec / NANOS_PER_TICK == ticks - EPOCH_OFFSET
  {
  }

  /** Before 1970 the subtraction wraps: the result is never negative but
      lies more than 58,000 years after the epoch. */
  lemma WrapAround(ticks: uint64)
    requires ticks < EPOCH_OFFSET
    ensures TicksSinceEpoch(Convert(ticks)) == ticks - EPOCH_OFFSET + TWO_TO_THE_64
    ensures MIN_WRAPPED_SECONDS <= Convert(ticks).sec <= MAX_SECONDS
  {
  }

  /** The POSIX epoch itself converts to zero seconds and zero nanoseconds. */
  lemma EpochIsZero()
    ensures Convert(EPOCH_OFFSET) == TimeValue(0, 0)
  {
  }

  /** The offset is the 134774 days of the Gregorian calendar from
      1601-01-01 to 1970-01-01, in ticks. */
  lemma EpochOffsetIsCalendarSpan()
    ensures EPOCH_OFFSET == Calendar.DaysBetween(1601, 1970) * Calendar.SECONDS_PER_DAY * TICKS_PER_SECOND
    ensures EPOCH_OFFSET == 134774 * 86400 * 10000000
  {
    Calendar.DaysFrom1601To1970();
  }

  /** A fixed reading: 2024-01-01T00:00:00Z, 19723 days after the epoch. */
  lemma NewYear2024()
    ensures 133485408000000000 == EPOCH_OFFSET + Calendar.DaysBetween(1970, 2024) * Calendar.SECONDS_PER_DAY * TICKS_PER_SECOND
    ensures 1704067200 == Calendar.DaysBetween(1970, 2024) * Calendar.SECONDS_PER_DAY
    ensures Convert(133485408000000000) == TimeValue(1704067200, 0)
  {
    Calendar.DaysFrom1970To2024();
  }

  /** Lexicographic order on (seconds, nanoseconds). */
  predicate LexLe(a: TimeValue, b: TimeValue) {
    a.sec < b.sec || (a.sec == b.sec && a.nsec <= b.nsec)
  }

  /** On representable values the lexicographic order is the order of the
      instants they denote. */
  lemma LexLeIsTickOrder(a: TimeValue, b: TimeValue)
    requires Representable(a) && Representable(b)
    ensures LexLe(a, b) <==> TicksSinceEpoch(a) <= TicksSinceEpoch(b)
  {
  }

  /** From 1970 on, the conversion preserves and reflects the order of tick
      counts. */
  lemma ConvertMonotone(t1: uint64, t2: uint64)
    requires EPOCH_OFFSET <= t1 && EPOCH_OFFSET <= t2
    ensures t1 <= t2 <==> LexLe(Convert(t1), Convert(t2))
  {
  }

  /** Before 1970 the wrap shifts every reading by the same amount, so the
      order of two such readings is also preserved and reflected. */
  lemma ConvertMonotoneBeforeEpoch(t1: uint64, t2: uint64)
    requires t1 < EPOCH_OFFSET && t2 < EPOCH_OFFSET
    ensures t1 <= t2 <==> LexLe(Convert(t1), Convert(t2))
  {
  }

  /** Across the epoch the order is not preserved: the last tick of 1969
      converts to a later time value than the first tick of 1970. */
  lemma OrderBreaksAtEpoch()
    ensures !LexLe(Convert(EPOCH_OFFSET - 1), Convert(EPOCH_OFFSET))
  {
  }

  /** The caller's `struct timespec`. With the Windows headers `time_t` is 64
      bits wide and `long` is 32 bits wide. */
  class Timespec {
    var tv_sec: int64
    var tv_nsec: int32

    function Value(): TimeValue
      reads this
    {
      TimeValue(tv_sec, tv_nsec)
    }

    /** The nanoseconds field is below one second, as POSIX requires. */
    predicate Normalized()
      reads this
    {
      0 <= tv_nsec < NANOS_PER_SECOND
    }
  }

  /** `clock_gettime(clk_id, spec)` with the FILETIME reading `ticks`. The
      clock id is never read, only the two fields of `spec` are written, and
      the result is always 0. */
  method ClockGettime(clkId: int32, spec: Timespec, ticks: uint64) returns (r: int32)
    modifies spec
    ensures r == 0
    ensures spec.Value() == Convert(ticks)
    ensures spec.Normalized()
  {
    // the FILETIME bits are held in a signed __int64
    var wintime: int64 := ToInt64(ticks);
    // `-=` with an unsigned long long operand: unsigned subtraction, stored back as signed
    wintime := ToInt64(SubWrap(ToUint64(wintime), EPOCH_OFFSET));
    // `/` and `%` with an unsigned long long operand convert wintime back to unsigned
    spec.tv_sec := ToUint64(wintime) / TICKS_PER_SECOND;
    spec.tv_nsec := ToUint64(wintime) % TICKS_PER_SECOND * NANOS_PER_TICK;
    r := 0;
  }

  /** Two calls that differ only in the clock id leave equal results. */
  method ClockIdIgnored(id1: int32, id2: int32, spec1: Timespec, spec2: Timespec, ticks: uint64)
    returns (r1: int32, r2: int32)
    modifies spec1, spec2
    ensures r1 == r2 == 0
    ensures spec1.Value() == spec2.Value() == Convert(ticks)
  {
    r1 := ClockGettime(id1, spec1, ticks);
    r2 := ClockGettime(id2, spec2, ticks);
  }
}
