/** C's fixed-width integer types as the shim uses them: the unsigned 64-bit
    arithmetic forced by the `ull` constants, and the conversions between
    `unsigned long long` and the signed `__int64` that holds the tick count.
    Out-of-range unsigned-to-signed conversion is implementation-defined in C;
    the compilers that build the shim define it as reduction modulo 2^64,
    which is what ToInt64 models. */
module MachineInt {

  const TWO_TO_THE_63: int := 0x8000_0000_0000_0000
  const TWO_TO_THE_64: int := 0x1_0000_0000_0000_0000

  /** `unsigned long long` */
  type uint64 = x: int | 0 <= x < 0x1_0000_0000_0000_0000
  /** `__int64`, `long long` and the 64-bit `time_t` */
  type int64 = x: int | -0x8000_0000_0000_0000 <= x < 0x8000_0000_0000_0000
  /** `int`, and `long` under the Windows LLP64 data model */
  type int32 = x: int | -0x8000_0000 <= x < 0x8000_0000

  /** Conversion of an unsigned value to a signed 64-bit one: the same bit
      pattern read as two's complement. The result is the unique int64
      congruent to `u` modulo 2^64. */
  function ToInt64(u: uint64): (s: int64)
    ensures s % TWO_TO_THE_64 == u
    ensures s < 0 <==> u >= TWO_TO_THE_63
  {
    if u < TWO_TO_THE_63 then u else u - TWO_TO_THE_64
  }

  /** Conversion of a signed value to `unsigned long long` (C11 6.3.1.3,
      paragraph 2): add 2^64 until the value is in range. */
  function ToUint64(s: int64): (u: uint64)
    ensures u == s % TWO_TO_THE_64
  {
    if s >= 0 then s else s + TWO_TO_THE_64
  }

  /** Unsigned subtraction `a - b`, which never traps and wraps modulo 2^64.
      Its partner is addition: adding `b` back modulo 2^64 restores `a`. */
  function SubWrap(a: uint64, b: uint64): (d: uint64)
    ensures (d + b) % TWO_TO_THE_64 == a
  {
    if b <= a then a - b else a - b + TWO_TO_THE_64
  }

  /** Reading the bits as signed and converting back loses nothing: the
      signed `__int64` that holds the tick count is transparent to the
      unsigned arithmetic performed on it. */
  lemma UnsignedSignedRoundTrip(u: uint64)
    ensures ToUint64(ToInt64(u)) == u
  {
  }

  lemma SignedUnsignedRoundTrip(s: int64)
    ensures ToInt64(ToUint64(s)) == s
  {
  }
}
