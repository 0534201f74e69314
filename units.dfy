/** The closed enumerations the Temporal operations are parameterised by,
    and the integer conversions they share. */
module Units {

  /** Temporal units, coarsest first. `Auto` stands for an unspecified largest unit. */
  datatype Unit = Year | Month | Week | Day | Hour | Minute | Second | Millisecond | Microsecond | Nanosecond | Auto

  predicate IsDateUnit(u: Unit) {
    u == Year || u == Month || u == Week || u == Day
  }

  predicate IsTimeUnit(u: Unit) {
    u == Hour || u == Minute || u == Second || u == Millisecond || u == Microsecond || u == Nanosecond
  }

  /** How an out-of-range field combination is resolved. */
  datatype Overflow = Constrain | Reject

  /** The nine Temporal rounding modes. */
  datatype RoundingMode = Ceil | Floor | Expand | Trunc | HalfCeil | HalfFloor | HalfExpand | HalfTrunc | HalfEven

  const NsPerMicrosecond: int := 1000
  const NsPerMillisecond: int := 1_000_000
  const NsPerSecond: int := 1_000_000_000
  const NsPerMinute: int := 60_000_000_000
  const NsPerHour: int := 3_600_000_000_000
  const NsPerDay: int := 86_400_000_000_000

  /** The length of a time unit in nanoseconds. */
  function UnitNs(u: Unit): (r: int)
    requires IsTimeUnit(u)
    ensures r > 0 && NsPerDay % r == 0
  {
    match u
    case Hour => NsPerHour
    case Minute => NsPerMinute
    case Second => NsPerSecond
    case Millisecond => NsPerMillisecond
    case Microsecond => NsPerMicrosecond
    case Nanosecond => 1
  }

  const Int32Min: int := -0x8000_0000
  const Int32Max: int := 0x7fff_ffff

  /** Java's `(int)` cast of an integral `double`: values outside the 32-bit
      range saturate at its ends. */
  function SaturateInt32(x: int): (r: int)
    ensures Int32Min <= r <= Int32Max
    ensures Int32Min <= x <= Int32Max ==> r == x
    ensures x < Int32Min ==> r == Int32Min
    ensures x > Int32Max ==> r == Int32Max
  {
    if x < Int32Min then Int32Min else if x > Int32Max then Int32Max else x
  }
}
