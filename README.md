# clock_gettime for Windows, modelled in Dafny

The repository carries one C function, `clock_gettime(clk_id, spec)`, that
stands in for the POSIX.1 interface of that name on a Windows toolchain that
lacks it. It reads the system time as a FILETIME: a 64-bit count of 100 ns
ticks since 1601-01-01 UTC. It subtracts the ticks between 1601-01-01 and
1970-01-01 (116444736000000000) with unsigned 64-bit arithmetic. It splits
the rest into whole seconds (`/ 10000000`) and nanoseconds (`% 10000000 * 100`),
stores both in the caller's `struct timespec` and returns 0.

The project has four modules:

- `MachineInt` (machine_int.dfy): the C integer types involved and the
  conversions between `unsigned long long` and the signed `__int64` local
  `wintime`, plus wrapping unsigned subtraction.
- `DivMod` (divmod.dfy): two facts about Euclidean division that the proofs use.
- `Calendar` (calendar.dfy): proleptic Gregorian day counts. They show that
  the offset constant is exactly the span its comment names.
- `ClockGettimeWin32` (clock_gettime_win32.dfy): the conversion as a pure
  function `Convert` and its inverse `ToTicks`. It also has the caller's
  `Timespec` as a class with the two fields, and the method `ClockGettime`,
  which follows the C statements one by one and writes the fields through
  the reference it is given.

The tick count returned by `GetSystemTimeAsFileTime` is the `ticks`
parameter of `ClockGettime`.

C semantics the model fixes:

- `wintime -= 116444736000000000ull` converts `wintime` to unsigned. It
  subtracts modulo 2^64 and converts the result back to the signed
  `__int64`. C leaves out-of-range unsigned-to-signed conversion to the
  implementation. The compilers used here reduce modulo 2^64, and
  `ToInt64` models that.
- `wintime / 10000000ull` and `wintime % 10000000ull` convert `wintime` to
  unsigned again, so the signed intermediate is transparent
  (`UnsignedSignedRoundTrip`).
- With the Windows headers, `tv_sec` (`time_t`) is 64-bit signed and
  `tv_nsec` (`long`) is 32-bit signed. The class fields have those ranges,
  so the method proves that neither store truncates.

Behaviour of the code worth knowing:

- The nanoseconds are at most 999999900 and always a multiple of 100, so
  999999999 is never reached.
- Every reading before 1970-01-01 wraps: the subtraction is taken modulo
  2^64, so it gives a time more than 58,000 years after 1970, never a
  negative one (`WrapAround`, `OrderBreaksAtEpoch`). Readings on the same
  side of 1970 keep their order (`ConvertMonotone`,
  `ConvertMonotoneBeforeEpoch`).
- `wintime` is a signed `__int64`. Only the operations on it are unsigned.

## Model

| member | source | states |
|---|---|---|
| MachineInt.ToInt64 | clock_gettime_win32.c:9-10 | storing an unsigned 64-bit value in the signed `__int64` gives the unique int64 congruent to it modulo 2^64, negative exactly when the top bit is set |
| MachineInt.ToUint64 | clock_gettime_win32.c:10-12 | converting the signed `wintime` to `unsigned long long` for the `ull` operations gives its value modulo 2^64 |
| MachineInt.SubWrap | clock_gettime_win32.c:10 | the unsigned subtraction wraps: its result is the unique 64-bit value to which adding the subtrahend back modulo 2^64 restores the minuend |
| MachineInt.UnsignedSignedRoundTrip | clock_gettime_win32.c:9-11 | holding the tick count in a signed `__int64` and converting back to unsigned loses nothing |
| MachineInt.SignedUnsignedRoundTrip | clock_gettime_win32.c:10 | converting a signed value to unsigned and back returns it unchanged |
| Calendar.DaysBetweenClosedForm | clock_gettime_win32.c:10 | the year-by-year day count between two 1 January dates is 365 per year plus one per Gregorian leap year |
| Calendar.DaysFrom1601To1970 | clock_gettime_win32.c:10 | 1601-01-01 to 1970-01-01 is 134774 days |
| ClockGettimeWin32.Convert | clock_gettime_win32.c:10-12 | the seconds are between 0 and (2^64-1)/10^7 = 1844674407370; the nanoseconds are between 0 and 999999900, below 10^9 and a multiple of 100; the ticks the result denotes fit in 64 bits |
| ClockGettimeWin32.ConvertThenToTicks | clock_gettime_win32.c:10-12 | the seconds and nanoseconds together with the epoch offset, modulo 2^64, give back the exact tick count (no information is lost) |
| ClockGettimeWin32.ToTicksThenConvert | clock_gettime_win32.c:10-12 | every normalised, tick-resolution time value within 2^64 ticks of 1970 is the conversion of the tick count it denotes; with the previous lemma, the conversion is a bijection |
| ClockGettimeWin32.Reconstruction | clock_gettime_win32.c:10-12 | from 1970 on, `tv_sec * 10000000 + tv_nsec / 100` equals the ticks minus 116444736000000000 |
| ClockGettimeWin32.WrapAround | clock_gettime_win32.c:9-11 | before 1970 the difference is taken modulo 2^64: the seconds are never negative and lie between 1833029933770 and 1844674407370 |
| ClockGettimeWin32.EpochIsZero | clock_gettime_win32.c:10 | a reading equal to the offset (1970-01-01T00:00:00Z) gives zero seconds and zero nanoseconds |
| ClockGettimeWin32.EpochOffsetIsCalendarSpan | clock_gettime_win32.c:10 | the offset constant is the Gregorian day count from 1601-01-01 to 1970-01-01 times 86400 s times 10^7 ticks/s, that is 134774 × 86400 × 10^7 |
| ClockGettimeWin32.NewYear2024 | clock_gettime_win32.c:10-12 | the reading for 2024-01-01T00:00:00Z, 133485408000000000 ticks (19723 days after 1970), converts to 1704067200 s and 0 ns |
| ClockGettimeWin32.LexLeIsTickOrder | clock_gettime_win32.c:11-12 | on values the conversion can produce, lexicographic order of (seconds, nanoseconds) is the order of the instants they denote |
| ClockGettimeWin32.ConvertMonotone | clock_gettime_win32.c:10-12 | for readings from 1970 on, t1 <= t2 exactly when the result for t1 is lexicographically at most the result for t2 |
| ClockGettimeWin32.ConvertMonotoneBeforeEpoch | clock_gettime_win32.c:10-12 | for two readings both before 1970, t1 <= t2 exactly when the result for t1 is lexicographically at most the result for t2, since the wrap shifts both by the same 2^64 |
| ClockGettimeWin32.OrderBreaksAtEpoch | clock_gettime_win32.c:10-11 | because of the wrap, the last tick before 1970 converts to a later time value than the epoch itself |
| ClockGettimeWin32.ClockGettime | clock_gettime_win32.c:7-14 | returns 0; writes into `spec` exactly the conversion of the tick count (which the clock id does not enter) with `tv_nsec` below 10^9; changes nothing outside `spec` |
| ClockGettimeWin32.ClockIdIgnored | clock_gettime_win32.c:7-12 | two calls that differ only in the clock id both return 0 and leave equal results |

## Left out

- `GetSystemTimeAsFileTime` is a foreign Win32 call that returns a changing clock reading. Its result is the `ticks` parameter.
- The `(FILETIME*)&wintime` cast reads two 32-bit halves as one little-endian 64-bit integer. That is memory layout, so the model starts from the 64-bit value.
- Successive real calls are not shown to be monotonic, and distinct clock kinds such as `CLOCK_MONOTONIC` are not modelled. Both depend on the operating system clock, not on this code. `ConvertMonotone` gives the part that does belong to the conversion.
- Thread safety and isolation between concurrent callers are not modelled. The function has no shared state. Within one call, the `modifies spec` frame shows that nothing but the caller's structure changes.
- The `#include` lines and the toolchain comment at the top of the file are not modelled.
