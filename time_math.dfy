/** Time-of-day and time-duration arithmetic behind the Temporal built-ins:
    balancing clock fields into a valid time plus whole days, adding a time
    duration to a time, the difference of two times, regulating out-of-range
    fields, rounding to an increment of a unit, and splitting a nanosecond
    total into duration components. These are the TemporalUtil helpers the
    built-ins call; their definitions follow the Temporal proposal. */
module TimeMath {
  import opened Wrappers
  import opened Units
  import opened Arithmetic

  /** A wall-clock time. Temporal objects only ever hold `IsValidTime` values. */
  datatype Time = Time(hour: int, minute: int, second: int, millisecond: int, microsecond: int, nanosecond: int)

  predicate IsValidTime(t: Time) {
    && 0 <= t.hour <= 23 && 0 <= t.minute <= 59 && 0 <= t.second <= 59
    && 0 <= t.millisecond <= 999 && 0 <= t.microsecond <= 999 && 0 <= t.nanosecond <= 999
  }

  /** NormalizeTimeDuration: the nanosecond total of six time fields. */
  function NormalizeTimeDuration(hours: int, minutes: int, seconds: int, milliseconds: int, microseconds: int, nanoseconds: int): int {
    ((((hours * 60 + minutes) * 60 + seconds) * 1000 + milliseconds) * 1000 + microseconds) * 1000 + nanoseconds
  }

  /** Nanoseconds since midnight. */
  function TimeNs(t: Time): int {
    NormalizeTimeDuration(t.hour, t.minute, t.second, t.millisecond, t.microsecond, t.nanosecond)
  }

  /** A valid time lies within one day after midnight. */
  lemma TimeNsRange(t: Time)
    requires IsValidTime(t)
    ensures 0 <= TimeNs(t) < NsPerDay
  {
  }

  /** A time of day together with the whole days carried out of it. */
  datatype BalancedTime = BalancedTime(days: int, time: Time)

  function BalancedNs(b: BalancedTime): int {
    b.days * NsPerDay + TimeNs(b.time)
  }

  // ---------------------------------------------------------------------------
  // Balancing and adding

  /** BalanceTime: carries each field's overflow into the next larger one,
      rounding towards negative infinity, and whole days out of the hour. */
  function BalanceTime(hour: int, minute: int, second: int, millisecond: int, microsecond: int, nanosecond: int): (r: BalancedTime)
    ensures IsValidTime(r.time)
    ensures BalancedNs(r) == NormalizeTimeDuration(hour, minute, second, millisecond, microsecond, nanosecond)
  {
    var us := microsecond + nanosecond / 1000;
    var ms := millisecond + us / 1000;
    var s := second + ms / 1000;
    var min := minute + s / 60;
    var h := hour + min / 60;
    BalancedTime(h / 24, Time(h % 24, min % 60, s % 60, ms % 1000, us % 1000, nanosecond % 1000))
  }

  /** A nanosecond total has exactly one representation as whole days and a valid time. */
  lemma BalancedUnique(a: BalancedTime, b: BalancedTime)
    requires IsValidTime(a.time) && IsValidTime(b.time)
    requires BalancedNs(a) == BalancedNs(b)
    ensures a == b
  {
    TimeNsRange(a.time);
    TimeNsRange(b.time);
    assert a.days == b.days;
  }

  /** Balancing depends only on the nanosecond total of the fields. */
  lemma BalanceTimeOfTotal(hour: int, minute: int, second: int, millisecond: int, microsecond: int, nanosecond: int)
    ensures BalanceTime(hour, minute, second, millisecond, microsecond, nanosecond)
         == BalanceTime(0, 0, 0, 0, 0, NormalizeTimeDuration(hour, minute, second, millisecond, microsecond, nanosecond))
  {
    BalancedUnique(BalanceTime(hour, minute, second, millisecond, microsecond, nanosecond),
                   BalanceTime(0, 0, 0, 0, 0, NormalizeTimeDuration(hour, minute, second, millisecond, microsecond, nanosecond)));
  }

  /** A valid time balances to itself with no days carried. */
  lemma BalanceValidTime(t: Time)
    requires IsValidTime(t)
    ensures BalanceTime(t.hour, t.minute, t.second, t.millisecond, t.microsecond, t.nanosecond) == BalancedTime(0, t)
  {
    BalancedUnique(BalanceTime(t.hour, t.minute, t.second, t.millisecond, t.microsecond, t.nanosecond), BalancedTime(0, t));
  }

  /** AddTime: adds time-duration fields to a time and balances the sums. */
  function AddTime(t: Time, hours: int, minutes: int, seconds: int, milliseconds: int, microseconds: int, nanoseconds: int): (r: BalancedTime)
    ensures IsValidTime(r.time)
    ensures BalancedNs(r) == TimeNs(t) + NormalizeTimeDuration(hours, minutes, seconds, milliseconds, microseconds, nanoseconds)
  {
    BalanceTime(t.hour + hours, t.minute + minutes, t.second + seconds,
                t.millisecond + milliseconds, t.microsecond + microseconds, t.nanosecond + nanoseconds)
  }

  /** Adding a duration and then its negation returns the original time and no days. */
  lemma AddTimeInverse(t: Time, hours: int, minutes: int, seconds: int, milliseconds: int, microseconds: int, nanoseconds: int)
    requires IsValidTime(t)
    ensures var there := AddTime(t, hours, minutes, seconds, milliseconds, microseconds, nanoseconds);
      var back := AddTime(there.time, -hours, -minutes, -seconds, -milliseconds, -microseconds, -nanoseconds);
      back.time == t && back.days == -there.days
  {
    var there := AddTime(t, hours, minutes, seconds, milliseconds, microseconds, nanoseconds);
    var back := AddTime(there.time, -hours, -minutes, -seconds, -milliseconds, -microseconds, -nanoseconds);
    BalancedUnique(BalancedTime(back.days + there.days, back.time), BalancedTime(0, t));
  }

  /** Two durations with the same nanosecond total move a time identically. */
  lemma AddTimeOfTotal(t: Time, hours: int, minutes: int, seconds: int, milliseconds: int, microseconds: int, nanoseconds: int)
    ensures AddTime(t, hours, minutes, seconds, milliseconds, microseconds, nanoseconds)
         == AddTime(t, 0, 0, 0, 0, 0, NormalizeTimeDuration(hours, minutes, seconds, milliseconds, microseconds, nanoseconds))
  {
    BalancedUnique(AddTime(t, hours, minutes, seconds, milliseconds, microseconds, nanoseconds),
                   AddTime(t, 0, 0, 0, 0, 0, NormalizeTimeDuration(hours, minutes, seconds, milliseconds, microseconds, nanoseconds)));
  }

  /** DifferenceTime: the nanoseconds from `one` to `two`, field by field. */
  function DifferenceTime(one: Time, two: Time): (r: int)
    ensures r == TimeNs(two) - TimeNs(one)
  {
    NormalizeTimeDuration(two.hour - one.hour, two.minute - one.minute, two.second - one.second,
                          two.millisecond - one.millisecond, two.microsecond - one.microsecond,
                          two.nanosecond - one.nanosecond)
  }

  /** Two valid times are less than a day apart. */
  lemma DifferenceTimeRange(one: Time, two: Time)
    requires IsValidTime(one) && IsValidTime(two)
    ensures -NsPerDay < DifferenceTime(one, two) < NsPerDay
  {
    TimeNsRange(one);
    TimeNsRange(two);
  }

  /** Adding the difference to the first time reaches the second on the same day. */
  lemma DifferenceTimeRoundTrip(one: Time, two: Time)
    requires IsValidTime(one) && IsValidTime(two)
    ensures AddTime(one, 0, 0, 0, 0, 0, DifferenceTime(one, two)) == BalancedTime(0, two)
  {
    BalancedUnique(AddTime(one, 0, 0, 0, 0, 0, DifferenceTime(one, two)), BalancedTime(0, two));
  }

  // ---------------------------------------------------------------------------
  // Regulating out-of-range fields

  /** RegulateTime: `Constrain` clamps every field into range, `Reject`
      refuses a field combination that is not a valid time. */
  function RegulateTime(hour: int, minute: int, second: int, millisecond: int, microsecond: int, nanosecond: int, overflow: Overflow): (r: Result<Time>)
    ensures r.Ok? ==> IsValidTime(r.value)
    ensures overflow == Constrain ==> r.Ok?
    ensures overflow == Reject ==> (r.Ok? <==> IsValidTime(Time(hour, minute, second, millisecond, microsecond, nanosecond)))
    ensures r.Err? ==> r.error == RangeError
    ensures IsValidTime(Time(hour, minute, second, millisecond, microsecond, nanosecond))
      ==> r == Ok(Time(hour, minute, second, millisecond, microsecond, nanosecond))
  {
    match overflow
    case Constrain =>
      Ok(Time(Clamp(hour, 0, 23), Clamp(minute, 0, 59), Clamp(second, 0, 59),
              Clamp(millisecond, 0, 999), Clamp(microsecond, 0, 999), Clamp(nanosecond, 0, 999)))
    case Reject =>
      var t := Time(hour, minute, second, millisecond, microsecond, nanosecond);
      if IsValidTime(t) then Ok(t) else Err(RangeError)
  }

  /** Constraining moves a field only when it is out of range, and then onto the nearer bound. */
  lemma RegulateTimeConstrainNearest(hour: int, minute: int, second: int, millisecond: int, microsecond: int, nanosecond: int)
    ensures var t := RegulateTime(hour, minute, second, millisecond, microsecond, nanosecond, Constrain).value;
      && (0 <= hour <= 23 ==> t.hour == hour) && (hour < 0 ==> t.hour == 0) && (hour > 23 ==> t.hour == 23)
      && (0 <= minute <= 59 ==> t.minute == minute) && (minute < 0 ==> t.minute == 0) && (minute > 59 ==> t.minute == 59)
      && (0 <= nanosecond <= 999 ==> t.nanosecond == nanosecond) && (nanosecond > 999 ==> t.nanosecond == 999)
  {
  }

  // ---------------------------------------------------------------------------
  // Rounding

  /** NegateTemporalRoundingMode: the mode that rounds a negated value the same way. */
  function NegateRoundingMode(mode: RoundingMode): RoundingMode {
    match mode
    case Ceil => Floor
    case Floor => Ceil
    case HalfCeil => HalfFloor
    case HalfFloor => HalfCeil
    case _ => mode
  }

  /** How a magnitude is rounded once its sign has been set aside. */
  datatype UnsignedRoundingMode = Zero | Infinity | HalfZero | HalfInfinity | HalfEvenUnsigned

  predicate IsHalf(mode: UnsignedRoundingMode) {
    mode == HalfZero || mode == HalfInfinity || mode == HalfEvenUnsigned
  }

  /** GetUnsignedRoundingMode. */
  function GetUnsignedRoundingMode(mode: RoundingMode, negative: bool): (r: UnsignedRoundingMode)
    ensures IsHalf(r) <==> mode in {HalfCeil, HalfFloor, HalfExpand, HalfTrunc, HalfEven}
  {
    match mode
    case Ceil => if negative then Zero else Infinity
    case Floor => if negative then Infinity else Zero
    case Expand => Infinity
    case Trunc => Zero
    case HalfCeil => if negative then HalfZero else HalfInfinity
    case HalfFloor => if negative then HalfInfinity else HalfZero
    case HalfExpand => HalfInfinity
    case HalfTrunc => HalfZero
    case HalfEven => HalfEvenUnsigned
  }

  /** Negating the mode and the sign together leaves the unsigned mode alone, and negation is an involution. */
  lemma NegateRoundingModeUnsigned(mode: RoundingMode, negative: bool)
    ensures GetUnsignedRoundingMode(NegateRoundingMode(mode), !negative) == GetUnsignedRoundingMode(mode, negative)
    ensures NegateRoundingMode(NegateRoundingMode(mode)) == mode
  {
  }

  /** ApplyUnsignedRoundingMode for the magnitude `q * inc + rem`: chooses
      between the multiples `q` and `q + 1` of `inc` that enclose it. */
  function ApplyUnsignedRoundingMode(q: int, rem: int, inc: int, mode: UnsignedRoundingMode): (r: int)
    requires 0 <= rem < inc
    ensures r == q || (r == q + 1 && rem > 0)
    ensures mode == Zero ==> r == q
    ensures mode == Infinity && rem > 0 ==> r == q + 1
    ensures IsHalf(mode) && r == q ==> 2 * rem <= inc
    ensures IsHalf(mode) && r == q + 1 ==> 2 * rem >= inc
    ensures 2 * rem == inc && mode == HalfZero ==> r == q
    ensures 2 * rem == inc && mode == HalfInfinity ==> r == q + 1
    ensures 2 * rem == inc && mode == HalfEvenUnsigned ==> r % 2 == 0
  {
    if rem == 0 then q
    else match mode
      case Zero => q
      case Infinity => q + 1
      case HalfZero => if 2 * rem <= inc then q else q + 1
      case HalfInfinity => if 2 * rem < inc then q else q + 1
      case HalfEvenUnsigned =>
        if 2 * rem < inc then q
        else if 2 * rem > inc then q + 1
        else if q % 2 == 0 then q else q + 1
  }

  /** The magnitude `m` rounded to the multiple `q * inc`, with `q` chosen as above. */
  lemma RoundedMagnitude(m: int, inc: int, q: int)
    requires m >= 0 && inc > 0
    requires q == m / inc || (q == m / inc + 1 && m % inc > 0)
    ensures q >= 0
    ensures (q * inc) % inc == 0 && (-(q * inc)) % inc == 0
    ensures q == m / inc ==> m - q * inc == m % inc
    ensures q == m / inc + 1 ==> q * inc - m == inc - m % inc
  {
    assert m == (m / inc) * inc + m % inc;
    assert (m / inc + 1) * inc == (m / inc) * inc + inc;
    ModOfMultiple(q, inc);
    assert -(q * inc) == (-q) * inc;
    ModOfMultiple(-q, inc);
  }

  /** RoundNumberToIncrement: rounds `x` to a multiple of `inc` under `mode`. */
  function RoundToIncrement(x: int, inc: int, mode: RoundingMode): (r: int)
    requires inc > 0
    ensures r % inc == 0
    ensures x - inc < r < x + inc
    ensures x % inc == 0 ==> r == x
    ensures mode == Floor ==> r <= x
    ensures mode == Ceil ==> r >= x
    ensures mode == Trunc ==> (0 <= r <= x || x <= r <= 0)
    ensures mode == Expand ==> (x >= 0 ==> r >= x) && (x <= 0 ==> r <= x)
    ensures mode in {HalfCeil, HalfFloor, HalfExpand, HalfTrunc, HalfEven} ==> 2 * (r - x) <= inc && 2 * (x - r) <= inc
  {
    var negative := x < 0;
    var m := if negative then -x else x;
    var q := ApplyUnsignedRoundingMode(m / inc, m % inc, inc, GetUnsignedRoundingMode(mode, negative));
    RoundedMagnitude(m, inc, q);
    ExactMagnitude(x, inc);
    if negative then -(q * inc) else q * inc
  }

  /** `x` is a multiple of `inc` exactly when its magnitude is. */
  lemma ExactMagnitude(x: int, inc: int)
    requires inc > 0
    ensures x % inc == 0 <==> (if x < 0 then -x else x) % inc == 0
  {
    if x % inc == 0 {
      var k := x / inc;
      assert x == k * inc;
      assert -x == (-k) * inc;
      ModOfMultiple(-k, inc);
    }
    if (-x) % inc == 0 {
      var k := (-x) / inc;
      assert -x == k * inc;
      assert x == (-k) * inc;
      ModOfMultiple(-k, inc);
    }
  }

  /** Rounding commutes with negation once the mode is negated too. */
  lemma RoundToIncrementNegate(x: int, inc: int, mode: RoundingMode)
    requires inc > 0
    ensures RoundToIncrement(-x, inc, NegateRoundingMode(mode)) == -RoundToIncrement(x, inc, mode)
  {
    NegateRoundingModeUnsigned(mode, x < 0);
    if x == 0 {
      assert RoundToIncrement(0, inc, NegateRoundingMode(mode)) == 0;
      assert RoundToIncrement(0, inc, mode) == 0;
    }
  }

  /** A value half-way between two multiples of `inc` has a magnitude half-way too. */
  lemma TieMagnitude(k: int, inc: int)
    requires inc > 0 && inc % 2 == 0
    ensures var x := k * inc + inc / 2;
      var m := if x < 0 then -x else x;
      m % inc == inc / 2 && 2 * (m % inc) == inc
  {
    var x := k * inc + inc / 2;
    if x >= 0 {
      DivModUnique(x, inc, k, inc / 2);
    } else {
      assert -x == (-k - 1) * inc + inc / 2;
      DivModUnique(-x, inc, -k - 1, inc / 2);
    }
  }

  /** On a tie, half-expand moves away from zero and half-trunc towards it. */
  lemma RoundToIncrementTiesAwayAndToward(k: int, inc: int)
    requires inc > 0 && inc % 2 == 0
    ensures var x := k * inc + inc / 2;
      && RoundToIncrement(x, inc, HalfExpand) == (if x >= 0 then x + inc / 2 else x - inc / 2)
      && RoundToIncrement(x, inc, HalfTrunc) == (if x >= 0 then x - inc / 2 else x + inc / 2)
  {
    var x := k * inc + inc / 2;
    var m := if x < 0 then -x else x;
    TieMagnitude(k, inc);
    RoundedMagnitude(m, inc, m / inc + 1);
    RoundedMagnitude(m, inc, m / inc);
  }

  /** On a tie, half-even picks the even multiple. */
  lemma RoundToIncrementTiesEven(k: int, inc: int)
    requires inc > 0 && inc % 2 == 0
    ensures RoundToIncrement(k * inc + inc / 2, inc, HalfEven) / inc % 2 == 0
  {
    var x := k * inc + inc / 2;
    var m := if x < 0 then -x else x;
    TieMagnitude(k, inc);
    var q := ApplyUnsignedRoundingMode(m / inc, m % inc, inc, HalfEvenUnsigned);
    assert q % 2 == 0 && (-q) % 2 == 0;
    ModOfMultiple(q, inc);
    ModOfMultiple(-q, inc);
    var r := if x < 0 then (-q) * inc else q * inc;
    assert RoundToIncrement(x, inc, HalfEven) == r;
    assert r / inc % 2 == 0;
  }

  // ---------------------------------------------------------------------------
  // Rounding a time

  /** The part of a time that rounding to `unit` acts on: the unit's own field
      and everything below it, in nanoseconds. */
  function RoundingQuantity(t: Time, unit: Unit): int
    requires IsTimeUnit(unit)
  {
    match unit
    case Hour => TimeNs(t)
    case Minute => NormalizeTimeDuration(0, t.minute, t.second, t.millisecond, t.microsecond, t.nanosecond)
    case Second => NormalizeTimeDuration(0, 0, t.second, t.millisecond, t.microsecond, t.nanosecond)
    case Millisecond => NormalizeTimeDuration(0, 0, 0, t.millisecond, t.microsecond, t.nanosecond)
    case Microsecond => NormalizeTimeDuration(0, 0, 0, 0, t.microsecond, t.nanosecond)
    case Nanosecond => t.nanosecond
  }

  /** RoundTime: rounds the quantity of `unit` to `increment` units, puts the
      result back in the unit's field, clears the smaller fields and balances. */
  function RoundTime(t: Time, increment: int, unit: Unit, mode: RoundingMode): (r: BalancedTime)
    requires IsTimeUnit(unit) && increment >= 1
    ensures IsValidTime(r.time)
    ensures BalancedNs(r) - TimeNs(t)
         == RoundToIncrement(RoundingQuantity(t, unit), increment * UnitNs(unit), mode) - RoundingQuantity(t, unit)
  {
    var rounded := RoundToIncrement(RoundingQuantity(t, unit), increment * UnitNs(unit), mode);
    MultipleOfProduct(rounded, increment, UnitNs(unit));
    PlaceInUnit(t, unit, rounded / UnitNs(unit))
  }

  /** `result` units put in the field of `unit`, the larger fields kept, the
      smaller ones cleared, and the whole balanced. */
  function PlaceInUnit(t: Time, unit: Unit, result: int): (r: BalancedTime)
    requires IsTimeUnit(unit)
    ensures IsValidTime(r.time)
    ensures BalancedNs(r) == TimeNs(t) - RoundingQuantity(t, unit) + result * UnitNs(unit)
  {
    match unit
    case Hour => BalanceTime(result, 0, 0, 0, 0, 0)
    case Minute => BalanceTime(t.hour, result, 0, 0, 0, 0)
    case Second => BalanceTime(t.hour, t.minute, result, 0, 0, 0)
    case Millisecond => BalanceTime(t.hour, t.minute, t.second, result, 0, 0)
    case Microsecond => BalanceTime(t.hour, t.minute, t.second, t.millisecond, result, 0)
    case Nanosecond => BalanceTime(t.hour, t.minute, t.second, t.millisecond, t.microsecond, result)
  }

  /** The field of a time that holds `unit`. */
  function FieldOf(t: Time, unit: Unit): int
    requires IsTimeUnit(unit)
  {
    match unit
    case Hour => t.hour
    case Minute => t.minute
    case Second => t.second
    case Millisecond => t.millisecond
    case Microsecond => t.microsecond
    case Nanosecond => t.nanosecond
  }

  /** Every field of `t` smaller than `unit` is zero. */
  predicate ZeroBelow(t: Time, unit: Unit)
    requires IsTimeUnit(unit)
  {
    && (unit in {Hour} ==> t.minute == 0)
    && (unit in {Hour, Minute} ==> t.second == 0)
    && (unit in {Hour, Minute, Second} ==> t.millisecond == 0)
    && (unit in {Hour, Minute, Second, Millisecond} ==> t.microsecond == 0)
    && (unit in {Hour, Minute, Second, Millisecond, Microsecond} ==> t.nanosecond == 0)
  }

  /** How many of `unit` make one of the next larger unit (a day for hours). */
  function UnitModulus(unit: Unit): (r: int)
    requires IsTimeUnit(unit)
    ensures r > 0
  {
    match unit
    case Hour => 24
    case Minute => 60
    case Second => 60
    case _ => 1000
  }

  /** The placed value lands in the unit's field, modulo the next larger unit. */
  lemma PlaceInUnitFields(t: Time, unit: Unit, result: int)
    requires IsTimeUnit(unit)
    ensures var r := PlaceInUnit(t, unit, result).time;
      ZeroBelow(r, unit) && FieldOf(r, unit) == result % UnitModulus(unit)
  {
    match unit
    case Hour => assert PlaceInUnit(t, unit, result) == BalanceTime(result, 0, 0, 0, 0, 0);
    case Minute => assert PlaceInUnit(t, unit, result) == BalanceTime(t.hour, result, 0, 0, 0, 0);
    case Second => assert PlaceInUnit(t, unit, result) == BalanceTime(t.hour, t.minute, result, 0, 0, 0);
    case Millisecond => assert PlaceInUnit(t, unit, result) == BalanceTime(t.hour, t.minute, t.second, result, 0, 0);
    case Microsecond => assert PlaceInUnit(t, unit, result) == BalanceTime(t.hour, t.minute, t.second, t.millisecond, result, 0);
    case Nanosecond =>
  }

  /** With an increment that divides the next larger unit, a rounded time
      has zeros below the unit and a multiple of the increment in the
      unit's own field. */
  lemma RoundTimeFields(t: Time, increment: int, unit: Unit, mode: RoundingMode)
    requires IsTimeUnit(unit) && increment >= 1 && UnitModulus(unit) % increment == 0
    ensures var r := RoundTime(t, increment, unit, mode).time;
      ZeroBelow(r, unit) && FieldOf(r, unit) % increment == 0
  {
    var rounded := RoundToIncrement(RoundingQuantity(t, unit), increment * UnitNs(unit), mode);
    MultipleOfProduct(rounded, increment, UnitNs(unit));
    var result := rounded / UnitNs(unit);
    PlaceInUnitFields(t, unit, result);
    ModOfCommonDivisor(result, UnitModulus(unit), increment);
  }

  // ---------------------------------------------------------------------------
  // Time durations

  /** The time part of a Temporal duration, with the whole days carried out of it. */
  datatype TimeDuration = TimeDuration(days: int, hours: int, minutes: int, seconds: int,
                                       milliseconds: int, microseconds: int, nanoseconds: int)

  function TimeDurationNs(d: TimeDuration): int {
    d.days * NsPerDay + NormalizeTimeDuration(d.hours, d.minutes, d.seconds, d.milliseconds, d.microseconds, d.nanoseconds)
  }

  function NegateTimeDuration(d: TimeDuration): (r: TimeDuration)
    ensures TimeDurationNs(r) == -TimeDurationNs(d)
  {
    TimeDuration(-d.days, -d.hours, -d.minutes, -d.seconds, -d.milliseconds, -d.microseconds, -d.nanoseconds)
  }

  predicate AllNonNegative(d: TimeDuration) {
    d.days >= 0 && d.hours >= 0 && d.minutes >= 0 && d.seconds >= 0
    && d.milliseconds >= 0 && d.microseconds >= 0 && d.nanoseconds >= 0
  }

  /** How many carries the cascade may make below `largestUnit`: six up to
      days for a date unit, none for nanoseconds. */
  function CarryDepth(largestUnit: Unit): (r: int)
    requires largestUnit != Auto
    ensures 0 <= r <= 6
  {
    match largestUnit
    case Nanosecond => 0
    case Microsecond => 1
    case Millisecond => 2
    case Second => 3
    case Minute => 4
    case Hour => 5
    case _ => 6
  }

  /** A non-negative duration in the balanced form for `largestUnit`: every
      component below the largest unit is less than one of the next larger
      unit, and every component above it is zero. */
  predicate IsBalancedMagnitude(d: TimeDuration, largestUnit: Unit)
    requires largestUnit != Auto
  {
    var depth := CarryDepth(largestUnit);
    && AllNonNegative(d)
    && (depth >= 1 ==> d.nanoseconds < 1000) && (depth >= 2 ==> d.microseconds < 1000)
    && (depth >= 3 ==> d.milliseconds < 1000) && (depth >= 4 ==> d.seconds < 60)
    && (depth >= 5 ==> d.minutes < 60) && (depth >= 6 ==> d.hours < 24)
    && (depth < 1 ==> d.microseconds == 0) && (depth < 2 ==> d.milliseconds == 0)
    && (depth < 3 ==> d.seconds == 0) && (depth < 4 ==> d.minutes == 0)
    && (depth < 5 ==> d.hours == 0) && (depth < 6 ==> d.days == 0)
  }

  /** One step of the cascade: when allowed, `x` is split into whole `base`s and a remainder. */
  function Carry(x: int, base: int, allowed: bool): (r: (int, int))
    requires x >= 0 && base > 0
    ensures r.0 >= 0 && 0 <= r.1 && r.0 * base + r.1 == x
    ensures allowed ==> r.1 < base
    ensures !allowed ==> r.0 == 0
  {
    if allowed then (x / base, x % base) else (0, x)
  }

  /** The cascade of BalanceTimeDuration on a magnitude. */
  function BalanceMagnitude(ns: int, largestUnit: Unit): (r: TimeDuration)
    requires ns >= 0 && largestUnit != Auto
    ensures TimeDurationNs(r) == ns
    ensures IsBalancedMagnitude(r, largestUnit)
  {
    var depth := CarryDepth(largestUnit);
    var c1 := Carry(ns, 1000, depth >= 1);
    var c2 := Carry(c1.0, 1000, depth >= 2);
    var c3 := Carry(c2.0, 1000, depth >= 3);
    var c4 := Carry(c3.0, 60, depth >= 4);
    var c5 := Carry(c4.0, 60, depth >= 5);
    var c6 := Carry(c5.0, 24, depth >= 6);
    TimeDuration(c6.0, c6.1, c5.1, c4.1, c3.1, c2.1, c1.1)
  }

  /** BalanceTimeDuration: splits a nanosecond total into components no larger
      than `largestUnit` (date units give days), all carrying the total's sign. */
  function BalanceTimeDuration(norm: int, largestUnit: Unit): (r: TimeDuration)
    requires largestUnit != Auto
    ensures TimeDurationNs(r) == norm
    ensures norm >= 0 ==> IsBalancedMagnitude(r, largestUnit)
    ensures norm <= 0 ==> IsBalancedMagnitude(NegateTimeDuration(r), largestUnit)
  {
    if norm < 0 then
      var m := BalanceMagnitude(-norm, largestUnit);
      NegateTimeDurationInvolution(m);
      NegateTimeDuration(m)
    else
      var m := BalanceMagnitude(norm, largestUnit);
      ZeroMagnitude(m, largestUnit);
      m
  }

  /** The only balanced magnitude with a zero total is the zero duration. */
  lemma ZeroMagnitude(d: TimeDuration, largestUnit: Unit)
    requires largestUnit != Auto && IsBalancedMagnitude(d, largestUnit)
    ensures TimeDurationNs(d) == 0 ==> d == TimeDuration(0, 0, 0, 0, 0, 0, 0)
  {
  }

  lemma NegateTimeDurationInvolution(d: TimeDuration)
    ensures NegateTimeDuration(NegateTimeDuration(d)) == d
  {
  }

  /** Balancing the negated total negates every component. */
  lemma BalanceTimeDurationNegate(norm: int, negated: int, largestUnit: Unit)
    requires largestUnit != Auto && negated == -norm
    ensures BalanceTimeDuration(negated, largestUnit) == NegateTimeDuration(BalanceTimeDuration(norm, largestUnit))
  {
    var a, b := BalanceTimeDuration(negated, largestUnit), BalanceTimeDuration(norm, largestUnit);
    if norm >= 0 {
      OppositeBalanced(a, b, largestUnit);
    } else {
      OppositeBalanced(b, a, largestUnit);
    }
  }

  /** Two durations of opposite totals whose magnitudes are balanced are negations of each other. */
  lemma OppositeBalanced(a: TimeDuration, b: TimeDuration, largestUnit: Unit)
    requires largestUnit != Auto
    requires IsBalancedMagnitude(NegateTimeDuration(a), largestUnit) && IsBalancedMagnitude(b, largestUnit)
    requires TimeDurationNs(a) == -TimeDurationNs(b)
    ensures a == NegateTimeDuration(b) && b == NegateTimeDuration(a)
  {
    BalancedMagnitudeUnique(NegateTimeDuration(a), b, largestUnit);
    NegateTimeDurationInvolution(a);
  }

  /** A non-negative total has exactly one balanced form for each largest unit. */
  lemma BalancedMagnitudeUnique(a: TimeDuration, b: TimeDuration, largestUnit: Unit)
    requires largestUnit != Auto
    requires IsBalancedMagnitude(a, largestUnit) && IsBalancedMagnitude(b, largestUnit)
    requires TimeDurationNs(a) == TimeDurationNs(b)
    ensures a == b
  {
    var depth := CarryDepth(largestUnit);
    var ha, hb := a.days * 24 + a.hours, b.days * 24 + b.hours;
    var ma, mb := ha * 60 + a.minutes, hb * 60 + b.minutes;
    var sa, sb := ma * 60 + a.seconds, mb * 60 + b.seconds;
    var la, lb := sa * 1000 + a.milliseconds, sb * 1000 + b.milliseconds;
    var ua, ub := la * 1000 + a.microseconds, lb * 1000 + b.microseconds;
    assert ua * 1000 + a.nanoseconds == ub * 1000 + b.nanoseconds;
    if depth >= 1 { CarryUnique(ua, a.nanoseconds, ub, b.nanoseconds, 1000); }
    if depth >= 2 { CarryUnique(la, a.microseconds, lb, b.microseconds, 1000); }
    if depth >= 3 { CarryUnique(sa, a.milliseconds, sb, b.milliseconds, 1000); }
    if depth >= 4 { CarryUnique(ma, a.seconds, mb, b.seconds, 60); }
    if depth >= 5 { CarryUnique(ha, a.minutes, hb, b.minutes, 60); }
    if depth >= 6 { CarryUnique(a.days, a.hours, b.days, b.hours, 24); }
  }

  /** Whole units and remainder are determined by the total. */
  lemma CarryUnique(xa: int, ra: int, xb: int, rb: int, base: int)
    requires base > 0 && 0 <= ra < base && 0 <= rb < base
    requires xa * base + ra == xb * base + rb
    ensures xa == xb && ra == rb
  {
    DivModUnique(xa * base + ra, base, xa, ra);
    DivModUnique(xb * base + rb, base, xb, rb);
  }

  /** Every balanced form is the one BalanceTimeDuration computes. */
  lemma BalanceTimeDurationCharacterized(d: TimeDuration, largestUnit: Unit)
    requires largestUnit != Auto && IsBalancedMagnitude(d, largestUnit)
    ensures BalanceTimeDuration(TimeDurationNs(d), largestUnit) == d
  {
    BalancedMagnitudeUnique(BalanceTimeDuration(TimeDurationNs(d), largestUnit), d, largestUnit);
  }

  /** Up to a time unit no days are carried, and the components share one sign. */
  lemma BalanceTimeDurationTimeUnit(norm: int, largestUnit: Unit)
    requires IsTimeUnit(largestUnit)
    ensures var r := BalanceTimeDuration(norm, largestUnit);
      r.days == 0 && (AllNonNegative(r) || AllNonNegative(NegateTimeDuration(r)))
  {
    var r := BalanceTimeDuration(norm, largestUnit);
    if norm < 0 {
      BalancedBelowDay(NegateTimeDuration(r), largestUnit);
    } else {
      BalancedBelowDay(r, largestUnit);
    }
  }

  lemma BalancedBelowDay(d: TimeDuration, largestUnit: Unit)
    requires IsTimeUnit(largestUnit) && IsBalancedMagnitude(d, largestUnit)
    ensures d.days == 0 && AllNonNegative(d)
  {
  }

  /** The time fields of a balanced magnitude stay below one day. */
  lemma BalancedTimeFieldsBelowDay(d: TimeDuration)
    requires IsBalancedMagnitude(d, Day)
    ensures 0 <= NormalizeTimeDuration(d.hours, d.minutes, d.seconds, d.milliseconds, d.microseconds, d.nanoseconds) < NsPerDay
  {
  }

  /** Balancing with largest unit day keeps the total's whole days, truncated
      towards zero, and leaves the truncated remainder in the time fields. */
  lemma BalanceTimeDurationWholeDays(norm: int)
    ensures BalanceTimeDuration(norm, Day).days == TruncDiv(norm, NsPerDay)
    ensures TimeDurationNs(BalanceTimeDuration(norm, Day)) - BalanceTimeDuration(norm, Day).days * NsPerDay
         == TruncRem(norm, NsPerDay)
  {
    var r := BalanceTimeDuration(norm, Day);
    if norm >= 0 {
      BalancedTimeFieldsBelowDay(r);
      DivModUnique(norm, NsPerDay, r.days, TimeDurationNs(r) - r.days * NsPerDay);
    } else {
      var m := NegateTimeDuration(r);
      BalancedTimeFieldsBelowDay(m);
      DivModUnique(-norm, NsPerDay, m.days, TimeDurationNs(m) - m.days * NsPerDay);
    }
  }

  lemma BalanceTimeDurationExample()
    ensures BalanceTimeDuration(1_000_000_000_000_000, Day) == TimeDuration(11, 13, 46, 40, 0, 0, 0)
    ensures BalanceTimeDuration(1_000_000_000_000_000, Hour) == TimeDuration(0, 277, 46, 40, 0, 0, 0)
  {
    assert TimeDurationNs(TimeDuration(11, 13, 46, 40, 0, 0, 0)) == 1_000_000_000_000_000;
    assert TimeDurationNs(TimeDuration(0, 277, 46, 40, 0, 0, 0)) == 1_000_000_000_000_000;
    BalanceTimeDurationCharacterized(TimeDuration(11, 13, 46, 40, 0, 0, 0), Day);
    BalanceTimeDurationCharacterized(TimeDuration(0, 277, 46, 40, 0, 0, 0), Hour);
  }

  lemma BalanceTimeDurationNegativeExample()
    ensures BalanceTimeDuration(-90_000_000_000, Second) == TimeDuration(0, 0, 0, -90, 0, 0, 0)
  {
    var d := TimeDuration(0, 0, 0, 90, 0, 0, 0);
    assert TimeDurationNs(d) == 90_000_000_000;
    BalanceTimeDurationCharacterized(d, Second);
    BalanceTimeDurationNegate(TimeDurationNs(d), -TimeDurationNs(d), Second);
    assert NegateTimeDuration(d) == TimeDuration(0, 0, 0, -90, 0, 0, 0);
  }

  // ---------------------------------------------------------------------------
  // Durations

  /** A Temporal duration record; the model holds every field as an integer. */
  datatype Duration = Duration(years: int, months: int, weeks: int, days: int,
                               hours: int, minutes: int, seconds: int,
                               milliseconds: int, microseconds: int, nanoseconds: int)

  /** The normalised time part: hours down to nanoseconds as one nanosecond total. */
  function TimePartNs(d: Duration): int {
    NormalizeTimeDuration(d.hours, d.minutes, d.seconds, d.milliseconds, d.microseconds, d.nanoseconds)
  }
}
