/** AddZonedDateTime: adding the date part and the normalised time part of a
    duration to an instant, going through the wall-clock date-time that a time
    zone gives for it. The time zone enters only through its two lookups. */
module ZonedAdd {
  import opened Wrappers
  import opened Units
  import opened TimeMath
  import opened IsoCalendar
  import opened CalendarPrototype

  /** How a wall-clock date-time that is skipped or repeated by a time zone
      transition is resolved to one instant. */
  datatype Disambiguation = Compatible | Earlier | Later | RejectAmbiguous

  /** A PlainDateTime: an ISO date and a time of day. */
  datatype DateTime = DateTime(date: Date, time: Time)

  /** The two time zone lookups: the wall-clock date-time of an instant, and
      the instant of a wall-clock date-time (which may fail). */
  datatype TimeZone = TimeZone(plainDateTimeFor: int -> DateTime,
                               instantFor: (DateTime, Disambiguation) -> Result<int>)

  predicate IsValidEpochNs(ns: int) {
    -NsMaxInstant <= ns <= NsMaxInstant
  }

  // ---------------------------------------------------------------------------
  // The steps

  /** AddInstant: the instant `norm` nanoseconds later, if it is representable. */
  function AddInstant(epochNs: int, norm: int): (r: Result<int>)
    ensures r.Ok? <==> IsValidEpochNs(epochNs + norm)
    ensures r.Ok? ==> r.value - epochNs == norm
    ensures r.Err? ==> r.error == RangeError
  {
    var result := epochNs + norm;
    if IsValidEpochNs(result) then Ok(result) else Err(RangeError)
  }

  /** Creating a PlainDate: a RangeError unless the date exists and is in range. */
  function CreatePlainDate(d: Date): (r: Result<Date>)
    ensures r.Ok? <==> IsValidDate(d) && DateWithinLimits(d)
    ensures r.Ok? ==> r.value == d
    ensures r.Err? ==> r.error == RangeError
  {
    if IsValidDate(d) && DateWithinLimits(d) then Ok(d) else Err(RangeError)
  }

  /** Creating a PlainDateTime: a RangeError unless the date and the time exist
      and the date-time is in range. */
  function CreatePlainDateTime(date: Date, time: Time): (r: Result<DateTime>)
    ensures r.Ok? <==> IsValidDate(date) && IsValidTime(time) && DateTimeWithinLimits(date, TimeNs(time))
    ensures r.Ok? ==> r.value == DateTime(date, time)
    ensures r.Err? ==> r.error == RangeError
  {
    if IsValidDate(date) && IsValidTime(time) && DateTimeWithinLimits(date, TimeNs(time)) then
      Ok(DateTime(date, time))
    else
      Err(RangeError)
  }

  /** The date fields of a duration agree in sign when none is positive while another is negative. */
  predicate SignsAgree(years: int, months: int, weeks: int, days: int) {
    (years >= 0 && months >= 0 && weeks >= 0 && days >= 0) || (years <= 0 && months <= 0 && weeks <= 0 && days <= 0)
  }

  /** Creating the duration of the date part: mixed signs are a RangeError. */
  function CreateDateDuration(years: int, months: int, weeks: int, days: int): (r: Result<Duration>)
    ensures r.Ok? <==> SignsAgree(years, months, weeks, days)
    ensures r.Ok? ==> r.value == Duration(years, months, weeks, days, 0, 0, 0, 0, 0, 0)
    ensures r.Err? ==> r.error == RangeError
  {
    if SignsAgree(years, months, weeks, days) then Ok(Duration(years, months, weeks, days, 0, 0, 0, 0, 0, 0))
    else Err(RangeError)
  }

  /** AddDaysToZonedDateTime: no days leave the instant alone; otherwise the
      days move the wall-clock date, the time of day is kept, and the result
      is resolved back to an instant with `Compatible` disambiguation. */
  function AddDaysToZonedDateTime(epochNs: int, dateTime: DateTime, tz: TimeZone, days: int, overflow: Overflow): (r: Result<int>)
    ensures days == 0 ==> r == Ok(epochNs)
    ensures days != 0 && IsValidDate(dateTime.date) ==>
      var moved := FromEpochDays(EpochDays(dateTime.date) + days);
      r == if IsValidTime(dateTime.time) && DateTimeWithinLimits(moved, TimeNs(dateTime.time))
           then tz.instantFor(DateTime(moved, dateTime.time), Compatible)
           else Err(RangeError)
  {
    if days == 0 then Ok(epochNs)
    else
      AddISODateDaysIsShift(dateTime.date, days, overflow);
      var added :- AddISODate(dateTime.date, 0, 0, 0, days, overflow);
      var result :- CreatePlainDateTime(added, dateTime.time);
      tz.instantFor(result, Compatible)
  }

  /** The calendar adds the date part of the duration to the date part of the
      date-time; the hour down to the nanosecond are carried over unchanged. */
  function AddToDatePart(dateTime: DateTime, years: int, months: int, weeks: int, days: int, overflow: Overflow): (r: Result<DateTime>)
    ensures r.Ok? ==> r.value.time == dateTime.time
    ensures r.Ok? ==> IsValidDate(dateTime.date) && DateWithinLimits(dateTime.date)
    ensures r.Ok? ==> SignsAgree(years, months, weeks, days)
    ensures r.Ok? ==> Ok(r.value.date) == AddDurationToDate(dateTime.date, Duration(years, months, weeks, days, 0, 0, 0, 0, 0, 0), overflow)
  {
    var datePart :- CreatePlainDate(dateTime.date);
    var dateDuration :- CreateDateDuration(years, months, weeks, days);
    var addedDate :- AddDurationToDate(datePart, dateDuration, overflow);
    CreatePlainDateTime(addedDate, dateTime.time)
  }

  /** The wall-clock date-time to add to: the precalculated one if there is one, else the time zone's. */
  function LocalDateTime(epochNs: int, tz: TimeZone, precalculated: Option<DateTime>): DateTime {
    if precalculated.Some? then precalculated.value else tz.plainDateTimeFor(epochNs)
  }

  /** addZonedDateTime. Without a date part only the time part is added to
      the instant. Otherwise the wall-clock date-time is the precalculated
      one if given, else the time zone's; days alone (cast to a 32-bit
      `int`) go through AddDaysToZonedDateTime, and any years, months or
      weeks through the calendar; the time part is added last. */
  function AddZonedDateTime(epochNs: int, tz: TimeZone, years: int, months: int, weeks: int, days: int, norm: int,
                            precalculated: Option<DateTime>, overflow: Overflow): (r: Result<int>)
    ensures r.Ok? ==> IsValidEpochNs(r.value)
    ensures years == 0 && months == 0 && weeks == 0 && days == 0 ==> r == AddInstant(epochNs, norm)
  {
    if years == 0 && months == 0 && weeks == 0 && days == 0 then
      AddInstant(epochNs, norm)
    else
      var dateTime := LocalDateTime(epochNs, tz, precalculated);
      if years == 0 && months == 0 && weeks == 0 then
        var intermediate :- AddDaysToZonedDateTime(epochNs, dateTime, tz, SaturateInt32(days), overflow);
        AddInstant(intermediate, norm)
      else
        var intermediateDateTime :- AddToDatePart(dateTime, years, months, weeks, days, overflow);
        var intermediateInstant :- tz.instantFor(intermediateDateTime, Compatible);
        AddInstant(intermediateInstant, norm)
  }

  // ---------------------------------------------------------------------------
  // Properties

  /** The instant reached by the date part alone, before the time part is
      added. It repeats the branches of AddZonedDateTime without the final
      AddInstant, and exists only so that NormAppliedLast can state the order
      of the steps. */
  function DatePartInstant(epochNs: int, tz: TimeZone, years: int, months: int, weeks: int, days: int,
                           precalculated: Option<DateTime>, overflow: Overflow): Result<int>
  {
    if years == 0 && months == 0 && weeks == 0 && days == 0 then Ok(epochNs)
    else
      var dateTime := LocalDateTime(epochNs, tz, precalculated);
      if years == 0 && months == 0 && weeks == 0 then
        AddDaysToZonedDateTime(epochNs, dateTime, tz, SaturateInt32(days), overflow)
      else
        var intermediateDateTime :- AddToDatePart(dateTime, years, months, weeks, days, overflow);
        tz.instantFor(intermediateDateTime, Compatible)
  }

  /** With years, months or weeks, the date part goes through the calendar
      and the result is resolved with `Compatible` disambiguation. */
  lemma DatePartInstantCalendar(epochNs: int, tz: TimeZone, years: int, months: int, weeks: int, days: int,
                                precalculated: Option<DateTime>, overflow: Overflow)
    requires years != 0 || months != 0 || weeks != 0
    ensures var moved := AddToDatePart(LocalDateTime(epochNs, tz, precalculated), years, months, weeks, days, overflow);
      DatePartInstant(epochNs, tz, years, months, weeks, days, precalculated, overflow)
        == if moved.Err? then Err(moved.error) else tz.instantFor(moved.value, Compatible)
  {
  }

  /** On every path the time part is added last, to the instant that the date part reaches. */
  lemma NormAppliedLast(epochNs: int, tz: TimeZone, years: int, months: int, weeks: int, days: int, norm: int,
                        precalculated: Option<DateTime>, overflow: Overflow)
    ensures var base := DatePartInstant(epochNs, tz, years, months, weeks, days, precalculated, overflow);
      AddZonedDateTime(epochNs, tz, years, months, weeks, days, norm, precalculated, overflow)
        == if base.Err? then Err(base.error) else AddInstant(base.value, norm)
  {
  }

  /** The time part is added exactly once: two time parts give results that
      differ by the difference of the time parts. */
  lemma NormAddedOnce(epochNs: int, tz: TimeZone, years: int, months: int, weeks: int, days: int, a: int, b: int,
                      precalculated: Option<DateTime>, overflow: Overflow)
    requires AddZonedDateTime(epochNs, tz, years, months, weeks, days, a, precalculated, overflow).Ok?
    requires AddZonedDateTime(epochNs, tz, years, months, weeks, days, b, precalculated, overflow).Ok?
    ensures AddZonedDateTime(epochNs, tz, years, months, weeks, days, a, precalculated, overflow).value
          - AddZonedDateTime(epochNs, tz, years, months, weeks, days, b, precalculated, overflow).value == a - b
  {
    NormAppliedLast(epochNs, tz, years, months, weeks, days, a, precalculated, overflow);
    NormAppliedLast(epochNs, tz, years, months, weeks, days, b, precalculated, overflow);
  }

  /** A precalculated date-time equal to the time zone's own gives the same result as none. */
  lemma PrecalculatedIsLookup(epochNs: int, tz: TimeZone, years: int, months: int, weeks: int, days: int, norm: int, overflow: Overflow)
    ensures AddZonedDateTime(epochNs, tz, years, months, weeks, days, norm, Some(tz.plainDateTimeFor(epochNs)), overflow)
         == AddZonedDateTime(epochNs, tz, years, months, weeks, days, norm, None, overflow)
  {
  }

  /** Two time zones that agree on the wall-clock date-time of the instant and
      on `Compatible` resolution give the same result: no other disambiguation
      is ever asked for. */
  lemma OnlyCompatibleResolution(epochNs: int, tz1: TimeZone, tz2: TimeZone, years: int, months: int, weeks: int, days: int,
                                 norm: int, precalculated: Option<DateTime>, overflow: Overflow)
    requires tz1.plainDateTimeFor(epochNs) == tz2.plainDateTimeFor(epochNs)
    requires forall dt :: tz1.instantFor(dt, Compatible) == tz2.instantFor(dt, Compatible)
    ensures AddZonedDateTime(epochNs, tz1, years, months, weeks, days, norm, precalculated, overflow)
         == AddZonedDateTime(epochNs, tz2, years, months, weeks, days, norm, precalculated, overflow)
  {
    NormAppliedLast(epochNs, tz1, years, months, weeks, days, norm, precalculated, overflow);
    NormAppliedLast(epochNs, tz2, years, months, weeks, days, norm, precalculated, overflow);
    DatePartOnlyCompatible(epochNs, tz1, tz2, years, months, weeks, days, precalculated, overflow);
  }

  lemma DatePartOnlyCompatible(epochNs: int, tz1: TimeZone, tz2: TimeZone, years: int, months: int, weeks: int, days: int,
                               precalculated: Option<DateTime>, overflow: Overflow)
    requires tz1.plainDateTimeFor(epochNs) == tz2.plainDateTimeFor(epochNs)
    requires forall dt :: tz1.instantFor(dt, Compatible) == tz2.instantFor(dt, Compatible)
    ensures DatePartInstant(epochNs, tz1, years, months, weeks, days, precalculated, overflow)
         == DatePartInstant(epochNs, tz2, years, months, weeks, days, precalculated, overflow)
  {
    var dateTime := LocalDateTime(epochNs, tz1, precalculated);
    assert dateTime == LocalDateTime(epochNs, tz2, precalculated);
    AddDaysOnlyCompatible(epochNs, dateTime, tz1, tz2, SaturateInt32(days), overflow);
  }

  lemma AddDaysOnlyCompatible(epochNs: int, dateTime: DateTime, tz1: TimeZone, tz2: TimeZone, days: int, overflow: Overflow)
    requires forall dt :: tz1.instantFor(dt, Compatible) == tz2.instantFor(dt, Compatible)
    ensures AddDaysToZonedDateTime(epochNs, dateTime, tz1, days, overflow) == AddDaysToZonedDateTime(epochNs, dateTime, tz2, days, overflow)
  {
  }

  /** Days beyond the 32-bit range are cut to its ends before they are added. */
  lemma DaysSaturate(epochNs: int, tz: TimeZone, days: int, norm: int, precalculated: Option<DateTime>, overflow: Overflow)
    requires days > Int32Max
    ensures AddZonedDateTime(epochNs, tz, 0, 0, 0, days, norm, precalculated, overflow)
         == AddZonedDateTime(epochNs, tz, 0, 0, 0, Int32Max, norm, precalculated, overflow)
  {
  }
  // ---------------------------------------------------------------------------
  // UTC, where the wall clock is the instant itself

  /** The wall-clock date-time of an instant in UTC. */
  function UtcDateTime(epochNs: int): (r: DateTime)
    ensures IsValidDate(r.date) && IsValidTime(r.time)
    ensures EpochDays(r.date) * NsPerDay + TimeNs(r.time) == epochNs
  {
    DateTime(FromEpochDays(epochNs / NsPerDay), TimeOfDay(epochNs % NsPerDay))
  }

  /** The time of day `ns` nanoseconds after midnight. */
  function TimeOfDay(ns: int): (r: Time)
    requires 0 <= ns < NsPerDay
    ensures IsValidTime(r) && TimeNs(r) == ns
  {
    var b := BalanceTime(0, 0, 0, 0, 0, ns);
    TimeNsRange(b.time);
    b.time
  }

  /** The instant of a wall-clock date-time in UTC; every disambiguation agrees. */
  function UtcInstant(dateTime: DateTime, disambiguation: Disambiguation): (r: Result<int>)
    ensures IsValidDate(dateTime.date) ==> r == Ok(EpochDays(dateTime.date) * NsPerDay + TimeNs(dateTime.time))
  {
    if 1 <= dateTime.date.month <= 12 then Ok(EpochDays(dateTime.date) * NsPerDay + TimeNs(dateTime.time))
    else Err(RangeError)
  }

  const Utc: TimeZone := TimeZone(UtcDateTime, UtcInstant)

  /** In UTC, adding whole days to the wall clock moves the instant by that many times 86 400 seconds. */
  lemma UtcAddDaysToZonedDateTime(epochNs: int, days: int, overflow: Overflow)
    requires IsValidEpochNs(epochNs) && IsValidEpochNs(epochNs + days * NsPerDay)
    ensures AddDaysToZonedDateTime(epochNs, UtcDateTime(epochNs), Utc, days, overflow) == Ok(epochNs + days * NsPerDay)
  {
    if days != 0 {
      var dateTime := UtcDateTime(epochNs);
      AddISODateDays(dateTime.date, 0, days, overflow);
      var moved := DateTime(AddISODate(dateTime.date, 0, 0, 0, days, overflow).value, dateTime.time);
      WallClockShift(epochNs, days, dateTime, moved);
      UtcAddDaysResolved(epochNs, dateTime, days, overflow, moved, epochNs + days * NsPerDay);
    }
  }

  /** AddDaysToZonedDateTime in UTC, once its date arithmetic is known. */
  lemma UtcAddDaysResolved(epochNs: int, dateTime: DateTime, days: int, overflow: Overflow, moved: DateTime, target: int)
    requires days != 0
    requires AddISODate(dateTime.date, 0, 0, 0, days, overflow) == Ok(moved.date) && moved.time == dateTime.time
    requires IsValidDate(moved.date) && IsValidTime(moved.time) && IsValidEpochNs(target)
    requires EpochDays(moved.date) * NsPerDay + TimeNs(moved.time) == target
    ensures AddDaysToZonedDateTime(epochNs, dateTime, Utc, days, overflow) == Ok(target)
  {
    UtcResolve(moved, target);
  }

  /** A valid wall-clock date-time of a representable instant is created, and
      resolves back to that instant. */
  lemma UtcResolve(dateTime: DateTime, epochNs: int)
    requires IsValidDate(dateTime.date) && IsValidTime(dateTime.time) && IsValidEpochNs(epochNs)
    requires EpochDays(dateTime.date) * NsPerDay + TimeNs(dateTime.time) == epochNs
    ensures CreatePlainDateTime(dateTime.date, dateTime.time) == Ok(dateTime)
    ensures Utc.instantFor(dateTime, Compatible) == Ok(epochNs)
  {
  }

  /** Moving the wall-clock date by some days, at the same time of day, moves
      the UTC instant by as many days. */
  lemma WallClockShift(epochNs: int, days: int, start: DateTime, moved: DateTime)
    requires 1 <= start.date.month <= 12 && 1 <= moved.date.month <= 12
    requires EpochDays(start.date) * NsPerDay + TimeNs(start.time) == epochNs
    requires moved.time == start.time && EpochDays(moved.date) == EpochDays(start.date) + days
    ensures EpochDays(moved.date) * NsPerDay + TimeNs(moved.time) == epochNs + days * NsPerDay
  {
  }

  /** When only days are given, they are added by AddDaysToZonedDateTime and the time part after them. */
  lemma AddZonedDateTimeDaysOnly(epochNs: int, tz: TimeZone, days: int, norm: int, overflow: Overflow)
    requires days != 0
    ensures var base := AddDaysToZonedDateTime(epochNs, tz.plainDateTimeFor(epochNs), tz, SaturateInt32(days), overflow);
      AddZonedDateTime(epochNs, tz, 0, 0, 0, days, norm, None, overflow)
        == if base.Err? then Err(base.error) else AddInstant(base.value, norm)
  {
  }

  /** In UTC, adding whole days moves the instant by that many times 86 400 seconds. */
  lemma UtcAddDays(epochNs: int, days: int, norm: int, overflow: Overflow)
    requires IsValidEpochNs(epochNs) && IsValidEpochNs(epochNs + days * NsPerDay)
    requires Int32Min <= days <= Int32Max
    ensures AddZonedDateTime(epochNs, Utc, 0, 0, 0, days, norm, None, overflow) == AddInstant(epochNs + days * NsPerDay, norm)
  {
    UtcDaysDatePartInstant(epochNs, days, overflow);
    DaysNormAppliedLast(epochNs, Utc, days, norm, overflow);
  }

  lemma UtcDaysDatePartInstant(epochNs: int, days: int, overflow: Overflow)
    requires IsValidEpochNs(epochNs) && IsValidEpochNs(epochNs + days * NsPerDay)
    requires Int32Min <= days <= Int32Max
    ensures DatePartInstant(epochNs, Utc, 0, 0, 0, days, None, overflow) == Ok(epochNs + days * NsPerDay)
  {
    if days != 0 {
      assert LocalDateTime(epochNs, Utc, None) == UtcDateTime(epochNs);
      UtcAddDaysToZonedDateTime(epochNs, days, overflow);
      SameDays(epochNs, UtcDateTime(epochNs), Utc, SaturateInt32(days), days, overflow);
    }
  }

  lemma SameDays(epochNs: int, dateTime: DateTime, tz: TimeZone, a: int, b: int, overflow: Overflow)
    requires a == b
    ensures AddDaysToZonedDateTime(epochNs, dateTime, tz, a, overflow) == AddDaysToZonedDateTime(epochNs, dateTime, tz, b, overflow)
  {
  }

  /** The calendar moves the wall-clock date of a date-time that lies within
      the instant range by seven days per week, and keeps the time of day. */
  lemma AddWeeksToDatePart(dateTime: DateTime, epochNs: int, weeks: int, overflow: Overflow)
    requires IsValidDate(dateTime.date) && IsValidTime(dateTime.time)
    requires EpochDays(dateTime.date) * NsPerDay + TimeNs(dateTime.time) == epochNs
    requires IsValidEpochNs(epochNs) && IsValidEpochNs(epochNs + 7 * weeks * NsPerDay)
    ensures var r := AddToDatePart(dateTime, 0, 0, weeks, 0, overflow);
      && r.Ok? && r.value.time == dateTime.time
      && EpochDays(r.value.date) == EpochDays(dateTime.date) + 7 * weeks
  {
    var duration := Duration(0, 0, weeks, 0, 0, 0, 0, 0, 0, 0);
    DateWithinLimitsDays(dateTime.date);
    AddDurationDaysOnly(dateTime.date, duration, overflow);
    var moved := DateTime(AddDurationToDate(dateTime.date, duration, overflow).value, dateTime.time);
    WallClockShift(epochNs, 7 * weeks, dateTime, moved);
    UtcResolve(moved, epochNs + 7 * weeks * NsPerDay);
  }

  /** In UTC, adding weeks through the calendar moves the instant by seven days per week. */
  lemma UtcAddWeeks(epochNs: int, weeks: int, norm: int, overflow: Overflow)
    requires IsValidEpochNs(epochNs) && IsValidEpochNs(epochNs + 7 * weeks * NsPerDay)
    requires weeks != 0
    ensures AddZonedDateTime(epochNs, Utc, 0, 0, weeks, 0, norm, None, overflow) == AddInstant(epochNs + 7 * weeks * NsPerDay, norm)
  {
    UtcWeeksDatePartInstant(epochNs, weeks, overflow);
    WeeksNormAppliedLast(epochNs, Utc, weeks, norm, overflow);
  }

  /** NormAppliedLast for weeks alone, once the instant of the date part is known. */
  lemma WeeksNormAppliedLast(epochNs: int, tz: TimeZone, weeks: int, norm: int, overflow: Overflow)
    requires weeks != 0
    requires DatePartInstant(epochNs, tz, 0, 0, weeks, 0, None, overflow) == Ok(epochNs + 7 * weeks * NsPerDay)
    ensures AddZonedDateTime(epochNs, tz, 0, 0, weeks, 0, norm, None, overflow) == AddInstant(epochNs + 7 * weeks * NsPerDay, norm)
  {
  }

  /** NormAppliedLast for days alone, once the instant of the date part is known. */
  lemma DaysNormAppliedLast(epochNs: int, tz: TimeZone, days: int, norm: int, overflow: Overflow)
    requires DatePartInstant(epochNs, tz, 0, 0, 0, days, None, overflow) == Ok(epochNs + days * NsPerDay)
    ensures AddZonedDateTime(epochNs, tz, 0, 0, 0, days, norm, None, overflow) == AddInstant(epochNs + days * NsPerDay, norm)
  {
  }

  lemma UtcWeeksDatePartInstant(epochNs: int, weeks: int, overflow: Overflow)
    requires IsValidEpochNs(epochNs) && IsValidEpochNs(epochNs + 7 * weeks * NsPerDay)
    requires weeks != 0
    ensures DatePartInstant(epochNs, Utc, 0, 0, weeks, 0, None, overflow) == Ok(epochNs + 7 * weeks * NsPerDay)
  {
    DatePartInstantCalendar(epochNs, Utc, 0, 0, weeks, 0, None, overflow);
    assert LocalDateTime(epochNs, Utc, None) == UtcDateTime(epochNs);
    AddWeeksToDatePart(UtcDateTime(epochNs), epochNs, weeks, overflow);
    var moved := AddToDatePart(UtcDateTime(epochNs), 0, 0, weeks, 0, overflow).value;
    WallClockShift(epochNs, 7 * weeks, UtcDateTime(epochNs), moved);
    UtcResolve(moved, epochNs + 7 * weeks * NsPerDay);
  }
}
