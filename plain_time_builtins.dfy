/** The `Temporal.PlainTime.prototype` methods: add and subtract, `with`,
    until and since, `round`, `equals` and the rounding part of `toString`.
    The receiver is a valid time; option values arrive already read. */
module PlainTimePrototype {
  import opened Wrappers
  import opened Units
  import opened Arithmetic
  import opened TimeMath

  /** Two valid times with the same nanoseconds since midnight are the same time. */
  lemma TimeNsInjective(a: Time, b: Time)
    requires IsValidTime(a) && IsValidTime(b)
    requires TimeNs(a) == TimeNs(b)
    ensures a == b
  {
    BalancedUnique(BalancedTime(0, a), BalancedTime(0, b));
  }

  // ---------------------------------------------------------------------------
  // add and subtract

  /** The duration's time part scaled by a sign, field by field, in nanoseconds. */
  lemma ScaledTimePart(sign: int, d: Duration)
    requires sign == 1 || sign == -1
    ensures NormalizeTimeDuration(sign * d.hours, sign * d.minutes, sign * d.seconds,
                                  sign * d.milliseconds, sign * d.microseconds, sign * d.nanoseconds)
         == sign * TimePartNs(d)
  {
  }

  /** add (`sign` 1) and subtract (`sign` -1): every time field of the
      duration is multiplied by the sign and added to the time; the date
      fields are not read, and the days carried out of the hour are dropped,
      so the clock wraps around midnight. */
  function AddSubtract(t: Time, sign: int, duration: Duration): (r: Time)
    requires IsValidTime(t)
    requires sign == 1 || sign == -1
    ensures IsValidTime(r)
    ensures TimeNs(r) == (TimeNs(t) + sign * TimePartNs(duration)) % NsPerDay
  {
    var b := AddTime(t, sign * duration.hours, sign * duration.minutes, sign * duration.seconds,
                     sign * duration.milliseconds, sign * duration.microseconds, sign * duration.nanoseconds);
    ScaledTimePart(sign, duration);
    TimeNsRange(b.time);
    DivModUnique(TimeNs(t) + sign * TimePartNs(duration), NsPerDay, b.days, TimeNs(b.time));
    b.time
  }

  /** The duration with its six time fields negated. */
  function NegateTimeFields(d: Duration): (r: Duration)
    ensures TimePartNs(r) == -TimePartNs(d)
  {
    d.(hours := -d.hours, minutes := -d.minutes, seconds := -d.seconds,
       milliseconds := -d.milliseconds, microseconds := -d.microseconds, nanoseconds := -d.nanoseconds)
  }

  /** subtract is add of the duration with its time fields negated. */
  lemma SubtractIsAddNegated(t: Time, duration: Duration)
    requires IsValidTime(t)
    ensures AddSubtract(t, -1, duration) == AddSubtract(t, 1, NegateTimeFields(duration))
  {
    TimeNsInjective(AddSubtract(t, -1, duration), AddSubtract(t, 1, NegateTimeFields(duration)));
  }

  /** Subtracting a duration undoes adding it. */
  lemma SubtractUndoesAdd(t: Time, duration: Duration)
    requires IsValidTime(t)
    ensures AddSubtract(AddSubtract(t, 1, duration), -1, duration) == t
  {
    var there := AddSubtract(t, 1, duration);
    TimeNsRange(t);
    WrapUndone(TimeNs(t), TimeNs(there), TimePartNs(duration));
    TimeNsInjective(AddSubtract(there, -1, duration), t);
  }

  /** Moving back by `n` on the clock undoes moving forward by `n`. */
  lemma WrapUndone(x: int, y: int, n: int)
    requires 0 <= x < NsPerDay && y == (x + 1 * n) % NsPerDay
    ensures (y + -1 * n) % NsPerDay == x
  {
    var q := (x + n) / NsPerDay;
    DivModUnique(y - n, NsPerDay, -q, x);
  }

  /** A duration of whole days brings the clock back to the same time. */
  lemma AddWholeDays(t: Time, sign: int, duration: Duration)
    requires IsValidTime(t) && (sign == 1 || sign == -1)
    requires TimePartNs(duration) % NsPerDay == 0
    ensures AddSubtract(t, sign, duration) == t
  {
    var k := TimePartNs(duration) / NsPerDay;
    TimeNsRange(t);
    DivModUnique(TimeNs(t) + sign * TimePartNs(duration), NsPerDay, sign * k, TimeNs(t));
    TimeNsInjective(AddSubtract(t, sign, duration), t);
  }

  // ---------------------------------------------------------------------------
  // with

  /** The fields of a partial time-like object, each present or absent. The
      values are taken as already converted to integers. */
  datatype PartialTime = PartialTime(hour: Option<int>, minute: Option<int>, second: Option<int>,
                                     millisecond: Option<int>, microsecond: Option<int>, nanosecond: Option<int>)

  /** The argument of `with`: anything that is not a partial Temporal
      object (a primitive, a Temporal object with a calendar or time zone),
      or an object with its time fields read. */
  datatype TimeLike = NotPartial | PartialObject(fields: PartialTime)

  predicate NoTimeField(p: PartialTime) {
    p.hour.None? && p.minute.None? && p.second.None?
    && p.millisecond.None? && p.microsecond.None? && p.nanosecond.None?
  }

  /** The receiver's fields overridden by those present in the partial
      time, each converted to a 32-bit integer. */
  function Merge(t: Time, p: PartialTime): Time {
    Time(if p.hour.Some? then SaturateInt32(p.hour.value) else t.hour,
         if p.minute.Some? then SaturateInt32(p.minute.value) else t.minute,
         if p.second.Some? then SaturateInt32(p.second.value) else t.second,
         if p.millisecond.Some? then SaturateInt32(p.millisecond.value) else t.millisecond,
         if p.microsecond.Some? then SaturateInt32(p.microsecond.value) else t.microsecond,
         if p.nanosecond.Some? then SaturateInt32(p.nanosecond.value) else t.nanosecond)
  }

  /** `with`: a non-partial argument, or one without any time field, is a
      TypeError. Otherwise each of the six fields is taken from the argument
      when present and from the receiver when absent, and the result is
      regulated under the overflow option. */
  method With(t: Time, like: TimeLike, overflow: Overflow) returns (r: Result<Time>)
    requires IsValidTime(t)
    ensures like.NotPartial? ==> r == Err(TypeError)
    ensures like.PartialObject? && NoTimeField(like.fields) ==> r == Err(TypeError)
    ensures like.PartialObject? && !NoTimeField(like.fields) ==>
      var m := Merge(t, like.fields);
      r == RegulateTime(m.hour, m.minute, m.second, m.millisecond, m.microsecond, m.nanosecond, overflow)
    // a result keeps every field absent from the argument
    ensures r.Ok? ==>
      && like.PartialObject?
      && (like.fields.hour.None? ==> r.value.hour == t.hour)
      && (like.fields.minute.None? ==> r.value.minute == t.minute)
      && (like.fields.second.None? ==> r.value.second == t.second)
      && (like.fields.millisecond.None? ==> r.value.millisecond == t.millisecond)
      && (like.fields.microsecond.None? ==> r.value.microsecond == t.microsecond)
      && (like.fields.nanosecond.None? ==> r.value.nanosecond == t.nanosecond)
    // and takes every present field that is in range
    ensures r.Ok? ==>
      && (like.fields.hour.Some? && 0 <= like.fields.hour.value <= 23 ==> r.value.hour == like.fields.hour.value)
      && (like.fields.minute.Some? && 0 <= like.fields.minute.value <= 59 ==> r.value.minute == like.fields.minute.value)
      && (like.fields.second.Some? && 0 <= like.fields.second.value <= 59 ==> r.value.second == like.fields.second.value)
      && (like.fields.millisecond.Some? && 0 <= like.fields.millisecond.value <= 999 ==> r.value.millisecond == like.fields.millisecond.value)
      && (like.fields.microsecond.Some? && 0 <= like.fields.microsecond.value <= 999 ==> r.value.microsecond == like.fields.microsecond.value)
      && (like.fields.nanosecond.Some? && 0 <= like.fields.nanosecond.value <= 999 ==> r.value.nanosecond == like.fields.nanosecond.value)
    // `Constrain` always succeeds on a partial object; `Reject` fails exactly
    // when a present field is out of range
    ensures like.PartialObject? && !NoTimeField(like.fields) && overflow == Constrain ==> r.Ok?
    ensures like.PartialObject? && !NoTimeField(like.fields) && overflow == Reject ==>
      var p := like.fields;
      (r.Ok? <==> IsValidTime(Time(p.hour.GetOr(t.hour), p.minute.GetOr(t.minute), p.second.GetOr(t.second),
                                   p.millisecond.GetOr(t.millisecond), p.microsecond.GetOr(t.microsecond),
                                   p.nanosecond.GetOr(t.nanosecond))))
  {
    if like.NotPartial? {
      return Err(TypeError);
    }
    var p := like.fields;
    if NoTimeField(p) {
      return Err(TypeError);
    }
    var hour, minute, second, millisecond, microsecond, nanosecond;
    if p.hour.Some? {
      hour := SaturateInt32(p.hour.value);
    } else {
      hour := t.hour;
    }
    if p.minute.Some? {
      minute := SaturateInt32(p.minute.value);
    } else {
      minute := t.minute;
    }
    if p.second.Some? {
      second := SaturateInt32(p.second.value);
    } else {
      second := t.second;
    }
    if p.millisecond.Some? {
      millisecond := SaturateInt32(p.millisecond.value);
    } else {
      millisecond := t.millisecond;
    }
    if p.microsecond.Some? {
      microsecond := SaturateInt32(p.microsecond.value);
    } else {
      microsecond := t.microsecond;
    }
    if p.nanosecond.Some? {
      nanosecond := SaturateInt32(p.nanosecond.value);
    } else {
      nanosecond := t.nanosecond;
    }
    assert Time(hour, minute, second, millisecond, microsecond, nanosecond) == Merge(t, p);
    r := RegulateTime(hour, minute, second, millisecond, microsecond, nanosecond, overflow);
    MergeKeepsAbsent(t, p, overflow);
    MergeTakesPresent(t, p, overflow);
    MergeRejects(t, p);
  }

  /** Regulating the merged fields keeps every field absent from the partial time. */
  lemma MergeKeepsAbsent(t: Time, p: PartialTime, overflow: Overflow)
    requires IsValidTime(t)
    ensures var m := Merge(t, p);
      var r := RegulateTime(m.hour, m.minute, m.second, m.millisecond, m.microsecond, m.nanosecond, overflow);
      r.Ok? ==>
        && (p.hour.None? ==> r.value.hour == t.hour)
        && (p.minute.None? ==> r.value.minute == t.minute)
        && (p.second.None? ==> r.value.second == t.second)
        && (p.millisecond.None? ==> r.value.millisecond == t.millisecond)
        && (p.microsecond.None? ==> r.value.microsecond == t.microsecond)
        && (p.nanosecond.None? ==> r.value.nanosecond == t.nanosecond)
  {
  }

  /** Regulating the merged fields takes every present field that is in range. */
  lemma MergeTakesPresent(t: Time, p: PartialTime, overflow: Overflow)
    ensures var m := Merge(t, p);
      var r := RegulateTime(m.hour, m.minute, m.second, m.millisecond, m.microsecond, m.nanosecond, overflow);
      r.Ok? ==>
        && (p.hour.Some? && 0 <= p.hour.value <= 23 ==> r.value.hour == p.hour.value)
        && (p.minute.Some? && 0 <= p.minute.value <= 59 ==> r.value.minute == p.minute.value)
        && (p.second.Some? && 0 <= p.second.value <= 59 ==> r.value.second == p.second.value)
        && (p.millisecond.Some? && 0 <= p.millisecond.value <= 999 ==> r.value.millisecond == p.millisecond.value)
        && (p.microsecond.Some? && 0 <= p.microsecond.value <= 999 ==> r.value.microsecond == p.microsecond.value)
        && (p.nanosecond.Some? && 0 <= p.nanosecond.value <= 999 ==> r.value.nanosecond == p.nanosecond.value)
  {
  }

  /** Under `Reject`, the merged fields are accepted exactly when the fields
      taken from the argument, unconverted, together with the receiver's
      other fields form a valid time. */
  lemma MergeRejects(t: Time, p: PartialTime)
    ensures var m := Merge(t, p);
      RegulateTime(m.hour, m.minute, m.second, m.millisecond, m.microsecond, m.nanosecond, Reject).Ok?
      <==> IsValidTime(Time(p.hour.GetOr(t.hour), p.minute.GetOr(t.minute), p.second.GetOr(t.second),
                            p.millisecond.GetOr(t.millisecond), p.microsecond.GetOr(t.microsecond),
                            p.nanosecond.GetOr(t.nanosecond)))
  {
  }

  // ---------------------------------------------------------------------------
  // round

  /** The `roundTo` argument of `round`: undefined, a string naming the
      smallest unit, or an options object with the values read from it
      (`None` for an absent property; a unit name that is not a time unit
      is read as `None` too, and reported the same way). */
  datatype RoundTo =
    | RoundToUndefined
    | RoundToString(unit: Option<Unit>)
    | RoundToOptions(smallestUnit: Option<Unit>, increment: Option<int>, mode: Option<RoundingMode>)

  /** What a rounding operation was asked for, once its options are read. */
  datatype RoundingSettings = RoundingSettings(unit: Unit, increment: int, mode: RoundingMode)

  /** The largest increment of a unit that `round` and the difference methods
      accept is one less than this bound, which it must divide. */
  function MaximumIncrement(unit: Unit): (r: int)
    requires IsTimeUnit(unit)
    ensures r == UnitModulus(unit)
  {
    if unit == Hour then 24
    else if unit == Minute || unit == Second then 60
    else 1000
  }

  /** ValidateTemporalRoundingIncrement with an exclusive maximum. */
  predicate IncrementFits(increment: int, maximum: int)
    requires maximum > 0
  {
    1 <= increment <= maximum - 1 && maximum % increment == 0
  }

  /** ToTemporalRoundingIncrement: absent means 1; the value must lie in 1..10^9. */
  function ReadIncrement(increment: Option<int>): (r: Result<int>)
    ensures increment.None? ==> r == Ok(1)
    ensures r.Ok? ==> r.value >= 1
    ensures r.Err? ==> r.error == RangeError
  {
    match increment
    case None => Ok(1)
    case Some(n) => if 1 <= n <= 1_000_000_000 then Ok(n) else Err(RangeError)
  }

  /** The options of `round`: a string is the smallest unit with the default
      increment and mode; the mode defaults to half-expand; the smallest unit
      is required and must be a time unit; the increment must divide the
      unit's maximum and be smaller than it. */
  function RoundSettings(roundTo: RoundTo): (r: Result<RoundingSettings>)
    ensures roundTo.RoundToUndefined? ==> r == Err(TypeError)
    ensures r.Err? && !roundTo.RoundToUndefined? ==> r.error == RangeError
    ensures r.Ok? ==> IsTimeUnit(r.value.unit) && IncrementFits(r.value.increment, MaximumIncrement(r.value.unit))
    ensures roundTo.RoundToString? ==>
      r == if roundTo.unit.Some? && IsTimeUnit(roundTo.unit.value)
           then Ok(RoundingSettings(roundTo.unit.value, 1, HalfExpand)) else Err(RangeError)
    ensures roundTo.RoundToOptions? && r.Ok? ==>
      && Some(r.value.unit) == roundTo.smallestUnit
      && r.value.increment == roundTo.increment.GetOr(1)
      && r.value.mode == roundTo.mode.GetOr(HalfExpand)
  {
    match roundTo
    case RoundToUndefined => Err(TypeError)
    case RoundToString(unit) =>
      if unit.None? || !IsTimeUnit(unit.value) then Err(RangeError)
      else if IncrementFits(1, MaximumIncrement(unit.value)) then Ok(RoundingSettings(unit.value, 1, HalfExpand))
      else Err(RangeError)
    case RoundToOptions(smallestUnit, increment, mode) =>
      var inc :- ReadIncrement(increment);
      var roundingMode := mode.GetOr(HalfExpand);
      if smallestUnit.None? || !IsTimeUnit(smallestUnit.value) then Err(RangeError)
      else if IncrementFits(inc, MaximumIncrement(smallestUnit.value)) then Ok(RoundingSettings(smallestUnit.value, inc, roundingMode))
      else Err(RangeError)
  }

  /** `round`: rounds the time to the requested increment of the smallest unit. */
  function Round(t: Time, roundTo: RoundTo): (r: Result<Time>)
    requires IsValidTime(t)
    ensures RoundSettings(roundTo).Err? ==> r == Err(RoundSettings(roundTo).error)
    ensures r.Ok? ==> IsValidTime(r.value)
    ensures r.Ok? ==> var s := RoundSettings(roundTo).value;
      && ZeroBelow(r.value, s.unit)
      && FieldOf(r.value, s.unit) % s.increment == 0
      && r.value == RoundTime(t, s.increment, s.unit, s.mode).time
  {
    var s :- RoundSettings(roundTo);
    RoundTimeFields(t, s.increment, s.unit, s.mode);
    Ok(RoundTime(t, s.increment, s.unit, s.mode).time)
  }

  /** Rounding a time that already sits on the increment changes nothing. */
  lemma RoundExact(t: Time, s: RoundingSettings)
    requires IsValidTime(t) && IsTimeUnit(s.unit) && s.increment >= 1
    requires RoundingQuantity(t, s.unit) % (s.increment * UnitNs(s.unit)) == 0
    ensures RoundTime(t, s.increment, s.unit, s.mode).time == t
  {
    var b := RoundTime(t, s.increment, s.unit, s.mode);
    TimeNsRange(t);
    BalancedUnique(b, BalancedTime(0, t));
  }

  /** Half-expand to the hour carries 23:59:59.999999999 over to midnight. */
  lemma RoundToHourCarriesOver()
    ensures Round(Time(23, 59, 59, 999, 999, 999), RoundToString(Some(Hour))) == Ok(Time(0, 0, 0, 0, 0, 0))
  {
    assert RoundSettings(RoundToString(Some(Hour))) == Ok(RoundingSettings(Hour, 1, HalfExpand));
    RoundTimeLastNanosecond();
  }

  lemma RoundTimeLastNanosecond()
    ensures RoundTime(Time(23, 59, 59, 999, 999, 999), 1, Hour, HalfExpand) == BalancedTime(1, Time(0, 0, 0, 0, 0, 0))
  {
    var t := Time(23, 59, 59, 999, 999, 999);
    assert RoundingQuantity(t, Hour) == NsPerDay - 1;
    RoundLastNanosecond();
    BalancedUnique(RoundTime(t, 1, Hour, HalfExpand), BalancedTime(1, Time(0, 0, 0, 0, 0, 0)));
  }

  lemma RoundLastNanosecond()
    ensures RoundToIncrement(NsPerDay - 1, 1 * NsPerHour, HalfExpand) == NsPerDay
  {
  }

  // ---------------------------------------------------------------------------
  // until and since

  /** The options of until and since, as read (`None` when absent; `Auto`
      for an explicit "auto" largest unit). */
  datatype DifferenceOptions = DifferenceOptions(largestUnit: Option<Unit>, smallestUnit: Option<Unit>,
                                                 increment: Option<int>, mode: Option<RoundingMode>)

  /** GetDifferenceSettings for PlainTime: the smallest unit defaults to
      nanoseconds and the largest to the larger of hours and the smallest
      unit; both must be time units with the largest not smaller; the mode
      defaults to trunc and is negated for since (`sign` -1). */
  function DifferenceSettings(sign: int, options: DifferenceOptions): (r: Result<(Unit, RoundingSettings)>)
    requires sign == 1 || sign == -1
    ensures r.Err? ==> r.error == RangeError
    ensures r.Ok? ==> var (largest, s) := r.value;
      && IsTimeUnit(largest) && IsTimeUnit(s.unit) && CarryDepth(s.unit) <= CarryDepth(largest)
      && IncrementFits(s.increment, MaximumIncrement(s.unit))
      && s.mode == (if sign == 1 then options.mode.GetOr(Trunc) else NegateRoundingMode(options.mode.GetOr(Trunc)))
      && s.unit == options.smallestUnit.GetOr(Nanosecond)
      && largest == (if options.largestUnit.None? || options.largestUnit == Some(Auto)
                     then (if CarryDepth(s.unit) <= CarryDepth(Hour) then Hour else s.unit)
                     else options.largestUnit.value)
    ensures options == DifferenceOptions(None, None, None, None) ==> r == Ok((Hour, RoundingSettings(Nanosecond, 1, Trunc)))
  {
    var largestUnit := options.largestUnit.GetOr(Auto);
    if largestUnit != Auto && !IsTimeUnit(largestUnit) then Err(RangeError)
    else
      var increment :- ReadIncrement(options.increment);
      var mode := options.mode.GetOr(Trunc);
      var smallestUnit := options.smallestUnit.GetOr(Nanosecond);
      if !IsTimeUnit(smallestUnit) then Err(RangeError)
      else
        var largest := if largestUnit == Auto then (if CarryDepth(smallestUnit) <= CarryDepth(Hour) then Hour else smallestUnit)
                       else largestUnit;
        if CarryDepth(largest) < CarryDepth(smallestUnit) then Err(RangeError)
        else if !IncrementFits(increment, MaximumIncrement(smallestUnit)) then Err(RangeError)
        else Ok((largest, RoundingSettings(smallestUnit, increment, if sign == 1 then mode else NegateRoundingMode(mode))))
  }

  /** All six time fields are of one sign. */
  predicate TimeFieldsOfOneSign(d: Duration) {
    || (d.hours >= 0 && d.minutes >= 0 && d.seconds >= 0 && d.milliseconds >= 0 && d.microseconds >= 0 && d.nanoseconds >= 0)
    || (d.hours <= 0 && d.minutes <= 0 && d.seconds <= 0 && d.milliseconds <= 0 && d.microseconds <= 0 && d.nanoseconds <= 0)
  }

  /** The duration with the time fields of `d` multiplied by `sign` and no date part. */
  function SignedTimeDuration(sign: int, d: TimeDuration): (r: Duration)
    requires sign == 1 || sign == -1
    ensures TimePartNs(r) == sign * NormalizeTimeDuration(d.hours, d.minutes, d.seconds, d.milliseconds, d.microseconds, d.nanoseconds)
    ensures AllNonNegative(d) || AllNonNegative(NegateTimeDuration(d)) ==> TimeFieldsOfOneSign(r)
  {
    Duration(0, 0, 0, 0, sign * d.hours, sign * d.minutes, sign * d.seconds,
             sign * d.milliseconds, sign * d.microseconds, sign * d.nanoseconds)
  }

  /** The core of until and since: the nanoseconds from `t` to `other`
      rounded to a multiple of `inc` nanoseconds (the increment of the
      smallest unit), balanced up to the largest unit, and multiplied by the
      sign. */
  function DifferenceRounded(sign: int, t: Time, other: Time, largest: Unit, inc: int, mode: RoundingMode): (r: Duration)
    requires sign == 1 || sign == -1
    requires IsTimeUnit(largest) && inc >= 1
    ensures r.years == 0 && r.months == 0 && r.weeks == 0 && r.days == 0
    ensures TimePartNs(r) == sign * RoundToIncrement(DifferenceTime(t, other), inc, mode)
    ensures TimeFieldsOfOneSign(r)
  {
    var balanced := BalanceTimeDuration(RoundToIncrement(DifferenceTime(t, other), inc, mode), largest);
    BalanceTimeDurationTimeUnit(RoundToIncrement(DifferenceTime(t, other), inc, mode), largest);
    SignedTimeDuration(sign, balanced)
  }

  /** Balancing opposite totals and applying opposite signs gives the same duration. */
  lemma SignedBalancedNegate(negated: int, ns: int, largest: Unit)
    requires IsTimeUnit(largest) && negated == -ns
    ensures SignedTimeDuration(-1, BalanceTimeDuration(negated, largest)) == SignedTimeDuration(1, BalanceTimeDuration(ns, largest))
  {
    BalanceTimeDurationNegate(ns, negated, largest);
    SignedNegated(BalanceTimeDuration(ns, largest));
  }

  lemma SignedNegated(d: TimeDuration)
    ensures SignedTimeDuration(-1, NegateTimeDuration(d)) == SignedTimeDuration(1, d)
  {
  }

  /** until (`sign` 1) and since (`sign` -1). */
  function UntilSince(sign: int, t: Time, other: Time, options: DifferenceOptions): (r: Result<Duration>)
    requires sign == 1 || sign == -1
    requires IsValidTime(t) && IsValidTime(other)
    ensures r.Err? <==> DifferenceSettings(sign, options).Err?
    ensures r.Err? ==> r.error == RangeError
    ensures r.Ok? ==> var (largest, s) := DifferenceSettings(sign, options).value;
      r.value == DifferenceRounded(sign, t, other, largest, s.increment * UnitNs(s.unit), s.mode)
  {
    var (largest, s) :- DifferenceSettings(sign, options);
    Ok(DifferenceRounded(sign, t, other, largest, s.increment * UnitNs(s.unit), s.mode))
  }

  /** Swapping the two times while negating the sign and the rounding mode
      gives the same duration. */
  lemma DifferenceRoundedSwap(t: Time, other: Time, largest: Unit, inc: int, mode: RoundingMode)
    requires IsTimeUnit(largest) && inc >= 1
    ensures DifferenceRounded(-1, t, other, largest, inc, NegateRoundingMode(mode))
         == DifferenceRounded(1, other, t, largest, inc, mode)
  {
    RoundedDifferenceNegate(t, other, inc, mode);
    SignedBalancedNegate(RoundToIncrement(DifferenceTime(t, other), inc, NegateRoundingMode(mode)),
                         RoundToIncrement(DifferenceTime(other, t), inc, mode), largest);
  }

  /** Rounding the reversed difference under the negated mode gives the negated result. */
  lemma RoundedDifferenceNegate(t: Time, other: Time, inc: int, mode: RoundingMode)
    requires inc >= 1
    ensures RoundToIncrement(DifferenceTime(t, other), inc, NegateRoundingMode(mode))
         == -RoundToIncrement(DifferenceTime(other, t), inc, mode)
  {
    var d := DifferenceTime(t, other);
    assert DifferenceTime(other, t) == -d;
    RoundToIncrementNegate(-d, inc, mode);
  }

  /** since is until with the receiver and the argument swapped: the sign
      flip and the negated rounding mode cancel out. */
  lemma SinceIsUntilReversed(t: Time, other: Time, options: DifferenceOptions)
    requires IsValidTime(t) && IsValidTime(other)
    ensures UntilSince(-1, t, other, options) == UntilSince(1, other, t, options)
  {
    if DifferenceSettings(1, options).Ok? {
      var (largest, s) := DifferenceSettings(1, options).value;
      assert DifferenceSettings(-1, options).value == (largest, s.(mode := NegateRoundingMode(s.mode)));
      DifferenceRoundedSwap(t, other, largest, s.increment * UnitNs(s.unit), s.mode);
    }
  }

  /** With the default options, until is the exact distance from the
      receiver to the argument, and adding it to the receiver reaches the
      argument. */
  lemma UntilDefaultIsExact(t: Time, other: Time)
    requires IsValidTime(t) && IsValidTime(other)
    ensures var r := UntilSince(1, t, other, DifferenceOptions(None, None, None, None));
      && r.Ok?
      && TimePartNs(r.value) == TimeNs(other) - TimeNs(t)
      && AddSubtract(t, 1, r.value) == other
  {
    var d := DifferenceRounded(1, t, other, Hour, 1, Trunc);
    assert UntilSince(1, t, other, DifferenceOptions(None, None, None, None)) == Ok(d);
    DifferenceRoundedToNanosecond(t, other, Hour, Trunc);
    AddDistance(t, other, d);
  }

  /** Rounding to single nanoseconds keeps the exact difference. */
  lemma DifferenceRoundedToNanosecond(t: Time, other: Time, largest: Unit, mode: RoundingMode)
    requires IsTimeUnit(largest)
    ensures TimePartNs(DifferenceRounded(1, t, other, largest, 1, mode)) == TimeNs(other) - TimeNs(t)
  {
    assert RoundToIncrement(DifferenceTime(t, other), 1, mode) == DifferenceTime(t, other);
  }

  /** Adding the distance between two times to the first gives the second. */
  lemma AddDistance(t: Time, other: Time, duration: Duration)
    requires IsValidTime(t) && IsValidTime(other)
    requires TimePartNs(duration) == TimeNs(other) - TimeNs(t)
    ensures AddSubtract(t, 1, duration) == other
  {
    TimeNsRange(other);
    DivModUnique(TimeNs(other), NsPerDay, 0, TimeNs(other));
    TimeNsInjective(AddSubtract(t, 1, duration), other);
  }

  // ---------------------------------------------------------------------------
  // equals

  /** equalsIntl: compares the six fields in turn, hour first. */
  function EqualsIntl(a: Time, b: Time): (r: bool)
    ensures r <==> a == b
  {
    if a.hour != b.hour then false
    else if a.minute != b.minute then false
    else if a.second != b.second then false
    else if a.millisecond != b.millisecond then false
    else if a.microsecond != b.microsecond then false
    else if a.nanosecond != b.nanosecond then false
    else true
  }

  /** For valid times, equality is equality of the nanoseconds since midnight. */
  lemma EqualsIsSameInstantOfDay(a: Time, b: Time)
    requires IsValidTime(a) && IsValidTime(b)
    ensures EqualsIntl(a, b) <==> TimeNs(a) == TimeNs(b)
  {
    if TimeNs(a) == TimeNs(b) {
      TimeNsInjective(a, b);
    }
  }

  // ---------------------------------------------------------------------------
  // toString

  /** The fractionalSecondDigits option: "auto" or a count, as read. */
  datatype FractionalDigits = AutoDigits | Digits(count: int)

  /** ToSecondsStringPrecisionRecord, without the printed precision: the unit
      and increment a time is rounded to before it is printed. A smallest
      unit wins over the digit count; "auto" prints every nonzero digit. */
  function SecondsStringRounding(smallestUnit: Option<Unit>, digits: FractionalDigits): (r: (Unit, int))
    requires smallestUnit.Some? ==> IsTimeUnit(smallestUnit.value) && smallestUnit.value != Hour
    requires digits.Digits? ==> 0 <= digits.count <= 9
    ensures IsTimeUnit(r.0) && r.0 != Hour && r.1 >= 1 && UnitModulus(r.0) % r.1 == 0
    ensures smallestUnit.Some? ==> r == (smallestUnit.value, 1)
  {
    match smallestUnit
    case Some(unit) => (unit, 1)
    case None =>
      match digits
      case AutoDigits => (Nanosecond, 1)
      case Digits(n) =>
        if n == 0 then (Second, 1)
        else if n == 1 then (Millisecond, 100)
        else if n == 2 then (Millisecond, 10)
        else if n == 3 then (Millisecond, 1)
        else if n == 4 then (Microsecond, 100)
        else if n == 5 then (Microsecond, 10)
        else if n == 6 then (Microsecond, 1)
        else if n == 7 then (Nanosecond, 100)
        else if n == 8 then (Nanosecond, 10)
        else (Nanosecond, 1)
  }

  /** A digit count of `n` rounds to a multiple of 10^(9 - n) nanoseconds. */
  lemma SecondsStringPrecision(n: int)
    requires 0 <= n <= 9
    ensures var (unit, increment) := SecondsStringRounding(None, Digits(n));
      increment * UnitNs(unit) == Pow10(9 - n)
  {
    if n == 0 {
      assert Pow10(9) == 1_000_000_000;
    } else if n == 1 {
      assert Pow10(8) == 100_000_000;
    } else if n == 2 {
      assert Pow10(7) == 10_000_000;
    } else if n == 3 {
      assert Pow10(6) == 1_000_000;
    } else if n == 4 {
      assert Pow10(5) == 100_000;
    } else if n == 5 {
      assert Pow10(4) == 10_000;
    } else if n == 6 {
      assert Pow10(3) == 1000;
    } else if n == 7 {
      assert Pow10(2) == 100;
    } else if n == 8 {
      assert Pow10(1) == 10;
    } else {
      assert Pow10(0) == 1;
    }
  }

  function Pow10(n: nat): (r: int)
    ensures r >= 1
  {
    if n == 0 then 1 else 10 * Pow10(n - 1)
  }

  /** The rounding step of toString: the digit count must lie in 0..9, the
      mode defaults to trunc, and an hour as the smallest unit (or any unit
      that is not a time unit) is a RangeError. */
  function ToStringRounded(t: Time, digits: FractionalDigits, mode: Option<RoundingMode>, smallestUnit: Option<Unit>): (r: Result<Time>)
    requires IsValidTime(t)
    ensures smallestUnit == Some(Hour) ==> r == Err(RangeError)
    ensures r.Err? ==> r.error == RangeError
    ensures r.Ok? <==> (digits.Digits? ==> 0 <= digits.count <= 9)
                       && (smallestUnit.Some? ==> IsTimeUnit(smallestUnit.value) && smallestUnit.value != Hour)
    ensures r.Ok? ==> IsValidTime(r.value)
    ensures r.Ok? ==> var (unit, increment) := SecondsStringRounding(smallestUnit, digits);
      && ZeroBelow(r.value, unit) && FieldOf(r.value, unit) % increment == 0
      && r.value == RoundTime(t, increment, unit, mode.GetOr(Trunc)).time
  {
    if digits.Digits? && !(0 <= digits.count <= 9) then Err(RangeError)
    else
      var roundingMode := mode.GetOr(Trunc);
      if smallestUnit.Some? && !IsTimeUnit(smallestUnit.value) then Err(RangeError)
      else if smallestUnit == Some(Hour) then Err(RangeError)
      else
        var (unit, increment) := SecondsStringRounding(smallestUnit, digits);
        RoundTimeFields(t, increment, unit, roundingMode);
        Ok(RoundTime(t, increment, unit, roundingMode).time)
  }

  /** Under the default mode, the printed time never lies after the time itself. */
  lemma ToStringDefaultTruncates(t: Time, digits: FractionalDigits, smallestUnit: Option<Unit>)
    requires IsValidTime(t)
    requires ToStringRounded(t, digits, None, smallestUnit).Ok?
    ensures TimeNs(ToStringRounded(t, digits, None, smallestUnit).value) <= TimeNs(t)
  {
    var (unit, increment) := SecondsStringRounding(smallestUnit, digits);
    var b := RoundTime(t, increment, unit, Trunc);
    var q := RoundingQuantity(t, unit);
    assert 0 <= q <= TimeNs(t);
    TimeNsRange(t);
    TimeNsRange(b.time);
    assert b.days == 0;
  }
}
