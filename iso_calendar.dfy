/** The proleptic Gregorian (ISO-8601) calendar arithmetic behind the Temporal
    built-ins: leap years, month and year lengths, epoch-day numbering,
    adding a date duration to a date, the difference of two dates and the ISO
    week date. These are the TemporalUtil helpers the calendar built-ins call;
    their definitions follow the Temporal proposal. */
module IsoCalendar {
  import opened Wrappers
  import opened Units
  import opened Arithmetic

  /** An ISO calendar date. Temporal objects only ever hold `IsValidDate` values. */
  datatype Date = Date(year: int, month: int, day: int)

  // ---------------------------------------------------------------------------
  // Years and months

  /** The Gregorian leap-year rule. */
  predicate IsLeapYear(year: int) {
    year % 4 == 0 && (year % 100 != 0 || year % 400 == 0)
  }

  function DaysInYear(year: int): (r: int)
    ensures r == 365 || r == 366
  {
    if IsLeapYear(year) then 366 else 365
  }

  function DaysInMonth(year: int, month: int): (r: int)
    requires 1 <= month <= 12
    ensures 28 <= r <= 31
  {
    if month == 2 then (if IsLeapYear(year) then 29 else 28)
    else if month == 4 || month == 6 || month == 9 || month == 11 then 30
    else 31
  }

  predicate IsValidDate(d: Date) {
    1 <= d.month <= 12 && 1 <= d.day <= DaysInMonth(d.year, d.month)
  }

  /** daysInYear is 366 exactly in leap years, and February then has 29 days. */
  lemma LeapYearLengths(year: int)
    ensures DaysInYear(year) == 366 <==> IsLeapYear(year)
    ensures DaysInMonth(year, 2) == 29 <==> IsLeapYear(year)
    ensures DaysInYear(year) == DaysInMonth(year, 2) + 337
  {
  }

  lemma LeapYearExamples()
    ensures IsLeapYear(2000) && !IsLeapYear(1900) && IsLeapYear(2024) && !IsLeapYear(2023)
  {
  }

  // ---------------------------------------------------------------------------
  // Epoch days: the number of days since 1970-01-01

  /** Leap years among the years 1 .. year - 1 (negative counts for earlier years). */
  function LeapYearsBefore(year: int): int {
    (year - 1) / 4 - (year - 1) / 100 + (year - 1) / 400
  }

  /** The epoch day of January 1 of `year`. */
  function DaysBeforeYear(year: int): int {
    365 * (year - 1970) + LeapYearsBefore(year) - LeapYearsBefore(1970)
  }

  lemma DivStep4(y: int)
    ensures y / 4 - (y - 1) / 4 == if y % 4 == 0 then 1 else 0
  {
  }

  lemma DivStep100(y: int)
    ensures y / 100 - (y - 1) / 100 == if y % 100 == 0 then 1 else 0
  {
  }

  lemma DivStep400(y: int)
    ensures y / 400 - (y - 1) / 400 == if y % 400 == 0 then 1 else 0
  {
  }

  lemma DaysBeforeYearStep(year: int)
    ensures DaysBeforeYear(year + 1) == DaysBeforeYear(year) + DaysInYear(year)
  {
    DivStep4(year);
    DivStep100(year);
    DivStep400(year);
    CenturyDivisibility(year);
  }

  /** A multiple of 400 is a multiple of 100, and a multiple of 100 one of 4. */
  lemma CenturyDivisibility(year: int)
    ensures year % 400 == 0 ==> year % 100 == 0
    ensures year % 100 == 0 ==> year % 4 == 0
  {
    if year % 100 == 0 {
      var k := year / 100;
      assert year == (25 * k) * 4;
      ModOfMultiple(25 * k, 4);
    }
    if year % 400 == 0 {
      var k := year / 400;
      assert year == (4 * k) * 100;
      ModOfMultiple(4 * k, 100);
    }
  }

  lemma {:induction false} DaysBeforeYearMonotone(a: int, b: int)
    requires a <= b
    ensures DaysBeforeYear(a) + 365 * (b - a) <= DaysBeforeYear(b)
    decreases b - a
  {
    if a < b {
      DaysBeforeYearMonotone(a, b - 1);
      DaysBeforeYearStep(b - 1);
    }
  }

  /** Searches upwards from `year` for the year holding epoch day `n`. */
  function YearUp(n: int, year: int): (r: int)
    requires DaysBeforeYear(year) <= n
    ensures year <= r
    ensures DaysBeforeYear(r) <= n < DaysBeforeYear(r + 1)
    decreases n - DaysBeforeYear(year)
  {
    DaysBeforeYearStep(year);
    if n < DaysBeforeYear(year + 1) then year else YearUp(n, year + 1)
  }

  /** Searches downwards from `year` for the year holding epoch day `n`. */
  function YearDown(n: int, year: int): (r: int)
    requires n < DaysBeforeYear(year + 1)
    ensures r <= year
    ensures DaysBeforeYear(r) <= n < DaysBeforeYear(r + 1)
    decreases DaysBeforeYear(year + 1) - n
  {
    DaysBeforeYearStep(year);
    if DaysBeforeYear(year) <= n then year else YearDown(n, year - 1)
  }

  /** The year in which epoch day `n` falls. */
  function YearOfEpochDay(n: int): (r: int)
    ensures DaysBeforeYear(r) <= n < DaysBeforeYear(r + 1)
  {
    if n >= 0 then YearUp(n, 1970) else YearDown(n, 1969)
  }

  /** Days of `year` before the first day of `month`; month 13 gives the whole year. */
  function DaysBeforeMonth(year: int, month: int): int
    requires 1 <= month <= 13
  {
    [0, 31, 59, 90, 120, 151, 181, 212, 243, 273, 304, 334, 365][month - 1]
      + (if month > 2 && IsLeapYear(year) then 1 else 0)
  }

  lemma DaysBeforeMonthStep(year: int, month: int)
    requires 1 <= month <= 12
    ensures DaysBeforeMonth(year, month + 1) == DaysBeforeMonth(year, month) + DaysInMonth(year, month)
    ensures DaysBeforeMonth(year, 1) == 0 && DaysBeforeMonth(year, 13) == DaysInYear(year)
  {
  }

  lemma DaysBeforeMonthRange(year: int, month: int)
    requires 1 <= month <= 13
    ensures 0 <= DaysBeforeMonth(year, month) <= DaysInYear(year)
  {
  }

  lemma {:induction false} DaysBeforeMonthMonotone(year: int, a: int, b: int)
    requires 1 <= a <= b <= 13
    ensures DaysBeforeMonth(year, a) <= DaysBeforeMonth(year, b)
    decreases b - a
  {
    if a < b {
      DaysBeforeMonthMonotone(year, a, b - 1);
      DaysBeforeMonthStep(year, b - 1);
    }
  }

  /** Searches upwards from `month` for the month holding day `dayOfYear` of `year`. */
  function MonthOfDayOfYear(year: int, dayOfYear: int, month: int): (r: int)
    requires 1 <= month <= 12
    requires DaysBeforeMonth(year, month) < dayOfYear <= DaysInYear(year)
    ensures month <= r <= 12
    ensures DaysBeforeMonth(year, r) < dayOfYear <= DaysBeforeMonth(year, r + 1)
    decreases 12 - month
  {
    DaysBeforeMonthStep(year, month);
    if month == 12 || dayOfYear <= DaysBeforeMonth(year, month + 1) then month
    else MonthOfDayOfYear(year, dayOfYear, month + 1)
  }

  /** The epoch day of a date. `day` may lie outside the month: the count is linear in it. */
  function EpochDays(d: Date): int
    requires 1 <= d.month <= 12
  {
    DaysBeforeYear(d.year) + DaysBeforeMonth(d.year, d.month) + d.day - 1
  }

  /** The date of an epoch day. */
  function FromEpochDays(n: int): (r: Date)
    ensures IsValidDate(r)
    ensures EpochDays(r) == n
  {
    var year := YearOfEpochDay(n);
    DaysBeforeYearStep(year);
    DaysBeforeMonthStep(year, 1);
    var dayOfYear := n - DaysBeforeYear(year) + 1;
    var month := MonthOfDayOfYear(year, dayOfYear, 1);
    DaysBeforeMonthStep(year, month);
    Date(year, month, dayOfYear - DaysBeforeMonth(year, month))
  }

  lemma EpochDaysWithinYear(d: Date)
    requires IsValidDate(d)
    ensures DaysBeforeYear(d.year) <= EpochDays(d) < DaysBeforeYear(d.year + 1)
  {
    DaysBeforeYearStep(d.year);
    DaysBeforeMonthStep(d.year, d.month);
    DaysBeforeMonthRange(d.year, d.month);
    DaysBeforeMonthRange(d.year, d.month + 1);
  }

  /** Distinct valid dates have distinct epoch days. */
  lemma EpochDaysInjective(d1: Date, d2: Date)
    requires IsValidDate(d1) && IsValidDate(d2)
    requires EpochDays(d1) == EpochDays(d2)
    ensures d1 == d2
  {
    EpochDaysWithinYear(d1);
    YearOfEpochDayUnique(d2, d1.year);
    DayOfYearInjective(d1.year, d1.month, d1.day, d2.month, d2.day);
  }

  /** Within one year, distinct valid month and day pairs fall on distinct days of the year. */
  lemma DayOfYearInjective(year: int, m1: int, day1: int, m2: int, day2: int)
    requires IsValidDate(Date(year, m1, day1)) && IsValidDate(Date(year, m2, day2))
    requires DaysBeforeMonth(year, m1) + day1 == DaysBeforeMonth(year, m2) + day2
    ensures m1 == m2 && day1 == day2
  {
    if m1 < m2 {
      DaysBeforeMonthStep(year, m1);
      DaysBeforeMonthMonotone(year, m1 + 1, m2);
    } else if m2 < m1 {
      DaysBeforeMonthStep(year, m2);
      DaysBeforeMonthMonotone(year, m2 + 1, m1);
    }
  }

  /** Epoch days and dates are inverse bijections. */
  lemma FromEpochDaysOfDate(d: Date)
    requires IsValidDate(d)
    ensures FromEpochDays(EpochDays(d)) == d
  {
    EpochDaysInjective(FromEpochDays(EpochDays(d)), d);
  }

  /** A valid date lies in the year whose day range holds its epoch day. */
  lemma YearOfEpochDayUnique(d: Date, year: int)
    requires IsValidDate(d)
    requires DaysBeforeYear(year) <= EpochDays(d) < DaysBeforeYear(year + 1)
    ensures d.year == year
  {
    EpochDaysWithinYear(d);
    if d.year < year {
      DaysBeforeYearMonotone(d.year + 1, year);
    } else if year < d.year {
      DaysBeforeYearMonotone(year + 1, d.year);
    }
  }

  // ---------------------------------------------------------------------------
  // Comparison

  /** CompareISODate: -1, 0 or 1 as `one` is before, equal to or after `two`. */
  function CompareISODate(one: Date, two: Date): int {
    if one.year != two.year then (if one.year < two.year then -1 else 1)
    else if one.month != two.month then (if one.month < two.month then -1 else 1)
    else if one.day != two.day then (if one.day < two.day then -1 else 1)
    else 0
  }

  /** The field-wise comparison orders valid dates as their epoch days do. */
  lemma CompareISODateIsChronological(one: Date, two: Date)
    requires IsValidDate(one) && IsValidDate(two)
    ensures CompareISODate(one, two) < 0 <==> EpochDays(one) < EpochDays(two)
    ensures CompareISODate(one, two) == 0 <==> EpochDays(one) == EpochDays(two)
    ensures CompareISODate(one, two) > 0 <==> EpochDays(one) > EpochDays(two)
  {
    EpochDaysWithinYear(one);
    EpochDaysWithinYear(two);
    if one.year < two.year {
      DaysBeforeYearMonotone(one.year + 1, two.year);
    } else if two.year < one.year {
      DaysBeforeYearMonotone(two.year + 1, one.year);
    } else if one.month < two.month {
      DaysBeforeMonthStep(one.year, one.month);
      DaysBeforeMonthMonotone(one.year, one.month + 1, two.month);
    } else if two.month < one.month {
      DaysBeforeMonthStep(one.year, two.month);
      DaysBeforeMonthMonotone(one.year, two.month + 1, one.month);
    }
  }

  // ---------------------------------------------------------------------------
  // Adding a date duration

  /** BalanceISOYearMonth: carries months outside 1..12 into the year. */
  function BalanceYearMonth(year: int, month: int): (r: (int, int))
    ensures 1 <= r.1 <= 12
    ensures r.0 * 12 + r.1 == year * 12 + month
  {
    (year + (month - 1) / 12, (month - 1) % 12 + 1)
  }

  /** RegulateISODate: `Reject` refuses an invalid date, `Constrain` clamps month, then day. */
  function RegulateDate(year: int, month: int, day: int, overflow: Overflow): (r: Result<Date>)
    ensures r.Ok? ==> IsValidDate(r.value) && r.value.year == year
    ensures overflow == Constrain ==> r.Ok?
    ensures overflow == Reject ==> r == if IsValidDate(Date(year, month, day)) then Ok(Date(year, month, day)) else Err(RangeError)
    ensures IsValidDate(Date(year, month, day)) ==> r == Ok(Date(year, month, day))
    ensures r.Ok? && 1 <= month <= 12 ==> r.value.month == month
    ensures r.Ok? && 1 <= month <= 12 && 1 <= day <= DaysInMonth(year, month) ==> r.value.day == day
  {
    match overflow
    case Reject =>
      if IsValidDate(Date(year, month, day)) then Ok(Date(year, month, day)) else Err(RangeError)
    case Constrain =>
      var m := Clamp(month, 1, 12);
      Ok(Date(year, m, Clamp(day, 1, DaysInMonth(year, m))))
  }

  /** BalanceISODate: the valid date `day - 1` days after the first of the given month. */
  function BalanceISODate(year: int, month: int, day: int): (r: Date)
    requires 1 <= month <= 12
    ensures IsValidDate(r)
    ensures EpochDays(r) == EpochDays(Date(year, month, day))
  {
    FromEpochDays(EpochDays(Date(year, month, day)))
  }

  /** AddISODate: years and months are added to the month count first, the
      day is then regulated against the new month, and weeks and days are
      added last as whole days. */
  function AddISODate(date: Date, years: int, months: int, weeks: int, days: int, overflow: Overflow): (r: Result<Date>)
    ensures r.Ok? ==> IsValidDate(r.value)
    ensures overflow == Constrain ==> r.Ok?
  {
    var ym := BalanceYearMonth(date.year + years, date.month + months);
    var mid :- RegulateDate(ym.0, ym.1, date.day, overflow);
    Ok(BalanceISODate(mid.year, mid.month, mid.day + 7 * weeks + days))
  }

  /** Adding only weeks and days moves the epoch day by exactly 7 * weeks + days. */
  lemma AddISODateDays(date: Date, weeks: int, days: int, overflow: Overflow)
    requires IsValidDate(date)
    ensures AddISODate(date, 0, 0, weeks, days, overflow).Ok?
    ensures EpochDays(AddISODate(date, 0, 0, weeks, days, overflow).value) == EpochDays(date) + 7 * weeks + days
  {
    assert BalanceYearMonth(date.year, date.month) == (date.year, date.month);
  }

  /** Adding days to a valid date gives the date whose epoch day is that many days later. */
  lemma AddISODateDaysIsShift(date: Date, days: int, overflow: Overflow)
    ensures IsValidDate(date) ==> AddISODate(date, 0, 0, 0, days, overflow) == Ok(FromEpochDays(EpochDays(date) + days))
  {
    if IsValidDate(date) {
      AddISODateDays(date, 0, days, overflow);
      EpochDaysInjective(AddISODate(date, 0, 0, 0, days, overflow).value, FromEpochDays(EpochDays(date) + days));
    }
  }

  /** A mixed duration: years and months are added and the day regulated
      first, and the weeks and days are then added to that date. */
  lemma AddISODateComposes(date: Date, years: int, months: int, weeks: int, days: int, overflow: Overflow)
    ensures var mid := AddISODate(date, years, months, 0, 0, overflow);
      AddISODate(date, years, months, weeks, days, overflow)
        == if mid.Err? then Err(mid.error) else AddISODate(mid.value, 0, 0, weeks, days, overflow)
  {
    var ym := BalanceYearMonth(date.year + years, date.month + months);
    var reg := RegulateDate(ym.0, ym.1, date.day, overflow);
    AddISODateMonths(date, years, months, overflow);
    var whole := AddISODate(date, years, months, weeks, days, overflow);
    if reg.Ok? {
      var d := reg.value;
      AddISODateDays(d, weeks, days, overflow);
      assert whole.Ok? && EpochDays(whole.value) == EpochDays(d) + 7 * weeks + days;
      EpochDaysInjective(whole.value, AddISODate(d, 0, 0, weeks, days, overflow).value);
    }
  }

  /** Subtracting the weeks and days just added gives back the original date. */
  lemma AddISODateDaysRoundTrip(date: Date, weeks: int, days: int, overflow: Overflow)
    requires IsValidDate(date)
    ensures AddISODate(date, 0, 0, weeks, days, overflow).Ok?
    ensures AddISODate(AddISODate(date, 0, 0, weeks, days, overflow).value, 0, 0, -weeks, -days, overflow) == Ok(date)
  {
    AddISODateDays(date, weeks, days, overflow);
    var there := AddISODate(date, 0, 0, weeks, days, overflow).value;
    AddISODateDays(there, -weeks, -days, overflow);
    EpochShiftUndone(date, there, AddISODate(there, 0, 0, -weeks, -days, overflow).value, 7 * weeks + days);
  }

  lemma EpochShiftUndone(date: Date, there: Date, back: Date, n: int)
    requires IsValidDate(date) && IsValidDate(there) && IsValidDate(back)
    requires EpochDays(there) == EpochDays(date) + n && EpochDays(back) == EpochDays(there) - n
    ensures back == date
  {
    EpochDaysInjective(back, date);
  }

  /** Adding years and months alone regulates the day against the balanced target month. */
  lemma AddISODateMonths(date: Date, years: int, months: int, overflow: Overflow)
    ensures var ym := BalanceYearMonth(date.year + years, date.month + months);
      AddISODate(date, years, months, 0, 0, overflow) == RegulateDate(ym.0, ym.1, date.day, overflow)
  {
    var ym := BalanceYearMonth(date.year + years, date.month + months);
    var reg := RegulateDate(ym.0, ym.1, date.day, overflow);
    if reg.Ok? {
      var mid := reg.value;
      assert mid.day + 7 * 0 + 0 == mid.day;
      BalanceISODateOfValid(mid);
    }
  }

  /** Balancing a valid date leaves it alone. */
  lemma BalanceISODateOfValid(d: Date)
    requires IsValidDate(d)
    ensures BalanceISODate(d.year, d.month, d.day) == d
  {
    FromEpochDaysOfDate(d);
  }

  /** AddISODate of years and months alone under `Constrain`: the month is
      balanced into the year and the day clamped to the target month. */
  function AddYearsMonths(date: Date, years: int, months: int): (r: Date)
    ensures IsValidDate(r)
  {
    var ym := BalanceYearMonth(date.year + years, date.month + months);
    RegulateDate(ym.0, ym.1, date.day, Constrain).value
  }

  lemma AddYearsMonthsIsAddISODate(date: Date, years: int, months: int)
    ensures AddISODate(date, years, months, 0, 0, Constrain) == Ok(AddYearsMonths(date, years, months))
  {
    var mid := AddYearsMonths(date, years, months);
    assert mid.day + 7 * 0 + 0 == mid.day;
    BalanceISODateOfValid(mid);
  }

  /** Under `Reject`, adding years and months fails exactly when the day does
      not exist in the target month; otherwise the day of month is kept. */
  lemma AddISODateMonthsReject(date: Date, years: int, months: int)
    requires IsValidDate(date)
    ensures var ym := BalanceYearMonth(date.year + years, date.month + months);
      && (AddISODate(date, years, months, 0, 0, Reject).Err? <==> date.day > DaysInMonth(ym.0, ym.1))
      && (AddISODate(date, years, months, 0, 0, Reject).Ok? ==>
            AddISODate(date, years, months, 0, 0, Reject).value == Date(ym.0, ym.1, date.day))
  {
    AddISODateMonths(date, years, months, Reject);
  }

  /** Under `Constrain`, adding years and months keeps the day of month, clamped
      to the length of the target month. */
  lemma AddISODateMonthsConstrain(date: Date, years: int, months: int)
    requires IsValidDate(date)
    ensures var ym := BalanceYearMonth(date.year + years, date.month + months);
      AddISODate(date, years, months, 0, 0, Constrain)
        == Ok(Date(ym.0, ym.1, if date.day <= DaysInMonth(ym.0, ym.1) then date.day else DaysInMonth(ym.0, ym.1)))
  {
    AddISODateMonths(date, years, months, Constrain);
  }

  lemma AddISODateExample()
    ensures AddISODate(Date(2021, 1, 31), 0, 1, 0, 0, Constrain) == Ok(Date(2021, 2, 28))
    ensures AddISODate(Date(2021, 1, 31), 0, 1, 0, 0, Reject) == Err(RangeError)
  {
    assert BalanceYearMonth(2021, 2) == (2021, 2);
    assert DaysInMonth(2021, 2) == 28;
    AddISODateMonths(Date(2021, 1, 31), 0, 1, Constrain);
    AddISODateMonths(Date(2021, 1, 31), 0, 1, Reject);
  }

  // ---------------------------------------------------------------------------
  // The difference of two dates

  /** The date part of a Temporal duration. */
  datatype DateDuration = DateDuration(years: int, months: int, weeks: int, days: int)

  /** DifferenceISODate: the duration from `one` to `two` in units no larger
      than `largestUnit`. Years and months are counted by stepping from `one`
      with constrained additions of years and months (`AddYearsMonths`, which
      is AddISODate without weeks and days); weeks and days come from the
      epoch days. */
  function DifferenceISODate(one: Date, two: Date, largestUnit: Unit): (r: DateDuration)
    requires IsValidDate(one) && IsValidDate(two)
    requires IsDateUnit(largestUnit)
    ensures largestUnit != Year ==> r.years == 0
    ensures largestUnit == Year || largestUnit == Month ==> r.weeks == 0
    ensures largestUnit == Week || largestUnit == Day ==> r.years == 0 && r.months == 0
    ensures largestUnit == Day ==> r.weeks == 0
  {
    if largestUnit == Year || largestUnit == Month then
      var sign := -CompareISODate(one, two);
      if sign == 0 then DateDuration(0, 0, 0, 0)
      else
        var years := two.year - one.year;
        var mid := AddYearsMonths(one, years, 0);
        var midSign := -CompareISODate(mid, two);
        if midSign == 0 then
          (if largestUnit == Year then DateDuration(years, 0, 0, 0) else DateDuration(0, years * 12, 0, 0))
        else
          var months := two.month - one.month;
          var years1 := if midSign != sign then years - sign else years;
          var months1 := if midSign != sign then months + sign * 12 else months;
          var mid1 := AddYearsMonths(one, years1, months1);
          var midSign1 := -CompareISODate(mid1, two);
          if midSign1 == 0 then
            (if largestUnit == Year then DateDuration(years1, months1, 0, 0) else DateDuration(0, months1 + years1 * 12, 0, 0))
          else
            var months2 := if midSign1 != sign then months1 - sign else months1;
            var wrap := midSign1 != sign && months2 == -sign;
            var years3 := if wrap then years1 - sign else years1;
            var months3 := if wrap then 11 * sign else months2;
            var mid3 := if midSign1 != sign then AddYearsMonths(one, years3, months3) else mid1;
            var days :=
              if mid3.month == two.month then two.day - mid3.day
              else if sign < 0 then -mid3.day - (DaysInMonth(two.year, two.month) - two.day)
              else two.day + (DaysInMonth(mid3.year, mid3.month) - mid3.day);
            if largestUnit == Month then DateDuration(0, months3 + years3 * 12, 0, days)
            else DateDuration(years3, months3, 0, days)
    else
      var days := EpochDays(two) - EpochDays(one);
      if largestUnit == Week then DateDuration(0, 0, TruncDiv(days, 7), TruncRem(days, 7))
      else DateDuration(0, 0, 0, days)
  }

  /** With weeks or days as the largest unit, adding the difference to `one`
      gives `two` back, and the week count leaves fewer than 7 days over. */
  lemma DifferenceISODateWeeksDaysRoundTrip(one: Date, two: Date, largestUnit: Unit, overflow: Overflow)
    requires IsValidDate(one) && IsValidDate(two)
    requires largestUnit == Week || largestUnit == Day
    ensures var r := DifferenceISODate(one, two, largestUnit);
      && AddISODate(one, 0, 0, r.weeks, r.days, overflow) == Ok(two)
      && (largestUnit == Week ==> -7 < r.days < 7)
  {
    var r := DifferenceISODate(one, two, largestUnit);
    assert 7 * r.weeks + r.days == EpochDays(two) - EpochDays(one);
    AddISODateDays(one, r.weeks, r.days, overflow);
    EpochDaysInjective(AddISODate(one, 0, 0, r.weeks, r.days, overflow).value, two);
  }

  /** Counted in days, the difference is the distance in epoch days. */
  lemma DifferenceISODateInDays(one: Date, two: Date)
    requires IsValidDate(one) && IsValidDate(two)
    ensures DifferenceISODate(one, two, Day) == DateDuration(0, 0, 0, EpochDays(two) - EpochDays(one))
  {
  }

  /** Swapping the two dates negates a difference in weeks or days. */
  lemma DifferenceISODateWeeksDaysAntisymmetric(one: Date, two: Date, largestUnit: Unit)
    requires IsValidDate(one) && IsValidDate(two)
    requires largestUnit == Week || largestUnit == Day
    ensures var r := DifferenceISODate(one, two, largestUnit);
      DifferenceISODate(two, one, largestUnit) == DateDuration(0, 0, -r.weeks, -r.days)
  {
    var n := EpochDays(two) - EpochDays(one);
    assert EpochDays(one) - EpochDays(two) == -n;
    TruncDivNegate(n, 7);
  }

  /** A date is no distance from itself, in any unit. */
  lemma DifferenceISODateSelf(date: Date, largestUnit: Unit)
    requires IsValidDate(date) && IsDateUnit(largestUnit)
    ensures DifferenceISODate(date, date, largestUnit) == DateDuration(0, 0, 0, 0)
  {
  }

  /** Within one month, the year and month path counts plain days. */
  lemma DifferenceISODateSameMonth(one: Date, two: Date, largestUnit: Unit)
    requires IsValidDate(one) && IsValidDate(two)
    requires one.year == two.year && one.month == two.month
    requires largestUnit == Year || largestUnit == Month
    ensures DifferenceISODate(one, two, largestUnit) == DateDuration(0, 0, 0, two.day - one.day)
  {
    assert AddYearsMonths(one, 0, 0) == one;
  }

  /** The same day of the same month `n` years later is exactly `n` years away. */
  lemma DifferenceISODateWholeYears(one: Date, n: int)
    requires IsValidDate(one) && IsValidDate(Date(one.year + n, one.month, one.day))
    ensures DifferenceISODate(one, Date(one.year + n, one.month, one.day), Year) == DateDuration(n, 0, 0, 0)
    ensures DifferenceISODate(one, Date(one.year + n, one.month, one.day), Month) == DateDuration(0, 12 * n, 0, 0)
  {
    var two := Date(one.year + n, one.month, one.day);
    assert BalanceYearMonth(one.year + n, one.month) == (one.year + n, one.month);
    assert AddYearsMonths(one, n, 0) == two;
  }

  // ---------------------------------------------------------------------------
  // Day of week, day of year and the ISO week date

  /** The day of the week of an epoch day: 1 for Monday through 7 for Sunday;
      epoch day 0, 1970-01-01, was a Thursday. */
  function WeekdayOfEpochDay(n: int): (r: int)
    ensures 1 <= r <= 7
  {
    var w := (n + 4) % 7;
    if w == 0 then 7 else w
  }

  /** ToISODayOfWeek. */
  function DayOfWeek(d: Date): (r: int)
    requires 1 <= d.month <= 12
    ensures 1 <= r <= 7
  {
    WeekdayOfEpochDay(EpochDays(d))
  }

  /** Each day falls on the weekday after the previous day's, and the week repeats every 7 days. */
  lemma WeekdayOfEpochDaySuccessor(n: int)
    ensures WeekdayOfEpochDay(n + 1) == WeekdayOfEpochDay(n) % 7 + 1
    ensures WeekdayOfEpochDay(n + 7) == WeekdayOfEpochDay(n)
  {
  }

  /** The day after a date falls on the next day of the week. */
  lemma DayOfWeekNextDay(d: Date)
    requires IsValidDate(d)
    ensures DayOfWeek(FromEpochDays(EpochDays(d) + 1)) == DayOfWeek(d) % 7 + 1
  {
    var next := FromEpochDays(EpochDays(d) + 1);
    assert EpochDays(next) == EpochDays(d) + 1;
    WeekdayOfEpochDaySuccessor(EpochDays(d));
  }

  lemma DayOfWeekExamples()
    ensures DayOfWeek(Date(1970, 1, 1)) == 4
    ensures DayOfWeek(Date(2024, 1, 1)) == 1
    ensures DayOfWeek(Date(2000, 1, 1)) == 6
  {
  }

  /** ToISODayOfYear: 1 for January 1. */
  function DayOfYear(d: Date): (r: int)
    requires IsValidDate(d)
    ensures 1 <= r <= DaysInYear(d.year)
  {
    EpochDaysWithinYear(d);
    DaysBeforeYearStep(d.year);
    EpochDays(d) - DaysBeforeYear(d.year) + 1
  }

  /** An ISO week number together with the year it belongs to. */
  datatype YearWeek = YearWeek(week: int, year: int)

  /** ToISOWeekOfYear: the ISO 8601 week and week-numbering year of a date. */
  function ToISOWeekOfYear(d: Date): (r: YearWeek)
    requires IsValidDate(d)
    ensures 1 <= r.week <= 53
    ensures d.year - 1 <= r.year <= d.year + 1
  {
    var doy := DayOfYear(d);
    var dow := DayOfWeek(d);
    var week := (doy + 7 - dow + 3) / 7;
    if week < 1 then
      var jan1 := DayOfWeek(Date(d.year, 1, 1));
      if jan1 == 5 then YearWeek(53, d.year - 1)
      else if jan1 == 6 && IsLeapYear(d.year - 1) then YearWeek(53, d.year - 1)
      else YearWeek(52, d.year - 1)
    else if week == 53 && DaysInYear(d.year) - doy < 4 - dow then YearWeek(1, d.year + 1)
    else YearWeek(week, d.year)
  }

  /** The ISO 8601 rule itself: a week belongs to the year holding its
      Thursday, and week 1 is the week of that year's first Thursday. */
  function WeekOfThursday(d: Date): (r: YearWeek)
    requires IsValidDate(d)
  {
    var thursday := ThursdayOfWeek(d);
    YearWeek((DayOfYear(thursday) - 1) / 7 + 1, thursday.year)
  }

  /** The Thursday of the Monday-to-Sunday week that holds `d`. */
  function ThursdayOfWeek(d: Date): (r: Date)
    requires IsValidDate(d)
    ensures IsValidDate(r)
    ensures EpochDays(r) == EpochDays(d) + 4 - DayOfWeek(d)
  {
    FromEpochDays(EpochDays(d) + 4 - DayOfWeek(d))
  }

  /** Stepping back fewer days than the weekday number stays within the same week. */
  lemma {:induction false} WeekdayOfEpochDayBack(n: int, j: int)
    requires 0 <= j < WeekdayOfEpochDay(n)
    ensures WeekdayOfEpochDay(n - j) == WeekdayOfEpochDay(n) - j
  {
    if j > 0 {
      WeekdayOfEpochDayBack(n, j - 1);
      WeekdayOfEpochDaySuccessor(n - j);
    }
  }

  /** The Thursday of the week of `d` lies `DayOfYear(d) + 3 - DayOfWeek(d)`
      days after January 1 of the year of `d`. */
  lemma ThursdayOffset(d: Date)
    requires IsValidDate(d)
    ensures EpochDays(d) + 4 - DayOfWeek(d) == DaysBeforeYear(d.year) + DayOfYear(d) + 3 - DayOfWeek(d)
  {
  }

  /** The Thursday rule when that Thursday falls in the year of `d`. */
  lemma WeekOfThursdaySameYear(d: Date)
    requires IsValidDate(d)
    requires 0 <= DayOfYear(d) + 3 - DayOfWeek(d) < DaysInYear(d.year)
    ensures ToISOWeekOfYear(d) == WeekOfThursday(d)
  {
    var k := DayOfYear(d) + 3 - DayOfWeek(d);
    var thursday := ThursdayOfWeek(d);
    ThursdayOffset(d);
    DaysBeforeYearStep(d.year);
    YearOfEpochDayUnique(thursday, d.year);
    assert DayOfYear(thursday) == k + 1;
    var week := (DayOfYear(d) + 7 - DayOfWeek(d) + 3) / 7;
    assert week == k / 7 + 1 && week >= 1;
    assert !(DaysInYear(d.year) - DayOfYear(d) < 4 - DayOfWeek(d));
    assert ToISOWeekOfYear(d) == YearWeek(week, d.year);
  }

  /** January 1 falls `DayOfYear(d) - 1` weekdays before `d`, when that stays in the same week. */
  lemma WeekdayOfJanuaryFirst(d: Date)
    requires IsValidDate(d)
    requires DayOfYear(d) <= DayOfWeek(d)
    ensures DayOfWeek(Date(d.year, 1, 1)) == DayOfWeek(d) - DayOfYear(d) + 1
  {
    WeekdayOfEpochDayBack(EpochDays(d), DayOfYear(d) - 1);
  }

  /** The number of the last ISO week of a year, by the weekday of the next January 1. */
  lemma LastWeekNumber(year: int, jan1: int, n: int)
    requires 5 <= jan1 <= 7 && n == DaysInYear(year) + 4 - jan1
    ensures n / 7 + 1 == if jan1 == 5 || (jan1 == 6 && IsLeapYear(year)) then 53 else 52
  {
  }

  /** The formula's branch for days before the week of the year's first Thursday. */
  lemma ToISOWeekOfYearBeforeFirstThursday(d: Date)
    requires IsValidDate(d)
    requires DayOfYear(d) + 3 - DayOfWeek(d) < 0
    ensures var jan1 := DayOfWeek(Date(d.year, 1, 1));
      && 5 <= jan1 <= 7
      && DayOfYear(d) + 3 - DayOfWeek(d) == 4 - jan1
      && ToISOWeekOfYear(d)
         == YearWeek(if jan1 == 5 || (jan1 == 6 && IsLeapYear(d.year - 1)) then 53 else 52, d.year - 1)
  {
    WeekdayOfJanuaryFirst(d);
    assert (DayOfYear(d) + 7 - DayOfWeek(d) + 3) / 7 < 1;
  }

  /** Where the Thursday of the week falls when it precedes January 1. */
  lemma ThursdayInPreviousYear(d: Date)
    requires IsValidDate(d)
    requires DayOfYear(d) + 3 - DayOfWeek(d) < 0
    ensures ThursdayOfWeek(d).year == d.year - 1
    ensures DayOfYear(ThursdayOfWeek(d)) == DaysInYear(d.year - 1) + DayOfYear(d) + 4 - DayOfWeek(d)
  {
    var thursday := ThursdayOfWeek(d);
    ThursdayOffset(d);
    DaysBeforeYearStep(d.year - 1);
    YearOfEpochDayUnique(thursday, d.year - 1);
  }

  /** The Thursday rule when that Thursday falls in the previous year. */
  lemma WeekOfThursdayPreviousYear(d: Date)
    requires IsValidDate(d)
    requires DayOfYear(d) + 3 - DayOfWeek(d) < 0
    ensures ToISOWeekOfYear(d) == WeekOfThursday(d)
  {
    ToISOWeekOfYearBeforeFirstThursday(d);
    ThursdayInPreviousYear(d);
    LastWeekNumber(d.year - 1, DayOfWeek(Date(d.year, 1, 1)), DayOfYear(ThursdayOfWeek(d)) - 1);
  }

  /** The Thursday rule when that Thursday falls in the next year. */
  lemma WeekOfThursdayNextYear(d: Date)
    requires IsValidDate(d)
    requires DayOfYear(d) + 3 - DayOfWeek(d) >= DaysInYear(d.year)
    ensures ToISOWeekOfYear(d) == WeekOfThursday(d)
  {
    ThursdayInNextYear(d);
    FirstWeekOfNextYear(DayOfYear(d), DayOfWeek(d), DaysInYear(d.year));
  }

  /** The arithmetic of the formula's branch for the last days of a year. */
  lemma FirstWeekOfNextYear(doy: int, dow: int, n: int)
    requires 1 <= dow <= 7 && doy <= n && doy + 3 - dow >= n
    ensures (doy + 7 - dow + 3) / 7 == 53 ==> n - doy < 4 - dow
    ensures n == 365 || n == 366 ==> (doy + 7 - dow + 3) / 7 == 53
  {
  }

  /** A Thursday past the end of the year of `d` is among the first three days of the next year. */
  lemma ThursdayInNextYear(d: Date)
    requires IsValidDate(d)
    requires DayOfYear(d) + 3 - DayOfWeek(d) >= DaysInYear(d.year)
    ensures ThursdayOfWeek(d).year == d.year + 1
    ensures DayOfYear(ThursdayOfWeek(d)) == DayOfYear(d) + 3 - DayOfWeek(d) - DaysInYear(d.year) + 1
  {
    var y := d.year;
    var thursday := ThursdayOfWeek(d);
    ThursdayOffset(d);
    DaysBeforeYearStep(y);
    DaysBeforeYearStep(y + 1);
    YearOfEpochDayUnique(thursday, y + 1);
  }

  /** The day-count formula agrees with the Thursday rule on every date. */
  lemma ToISOWeekOfYearIsThursdayRule(d: Date)
    requires IsValidDate(d)
    ensures ToISOWeekOfYear(d) == WeekOfThursday(d)
  {
    var k := DayOfYear(d) + 3 - DayOfWeek(d);
    if k < 0 {
      WeekOfThursdayPreviousYear(d);
    } else if k < DaysInYear(d.year) {
      WeekOfThursdaySameYear(d);
    } else {
      WeekOfThursdayNextYear(d);
    }
  }

  lemma ToISOWeekOfYearExamples()
    ensures ToISOWeekOfYear(Date(2021, 1, 1)) == YearWeek(53, 2020)
    ensures ToISOWeekOfYear(Date(2024, 12, 30)) == YearWeek(1, 2025)
    ensures ToISOWeekOfYear(Date(2024, 6, 15)) == YearWeek(24, 2024)
  {
    assert DaysBeforeYear(2021) == 18628 && DayOfWeek(Date(2021, 1, 1)) == 5 && DayOfYear(Date(2021, 1, 1)) == 1;
    assert DaysBeforeYear(2024) == 19723 && DayOfYear(Date(2024, 12, 30)) == 365 && DayOfWeek(Date(2024, 12, 30)) == 1;
    assert DayOfYear(Date(2024, 6, 15)) == 167 && DayOfWeek(Date(2024, 6, 15)) == 6;
  }

  // ---------------------------------------------------------------------------
  // Month codes

  function Digit(n: int): (c: char)
    requires 0 <= n <= 9
    ensures '0' <= c <= '9'
  {
    ('0' as int + n) as char
  }

  function DigitValue(c: char): (n: int)
    requires '0' <= c <= '9'
    ensures 0 <= n <= 9
  {
    c as int - '0' as int
  }

  /** BuildISOMonthCode: "M" followed by the month number as two digits. */
  function BuildMonthCode(month: int): (r: string)
    requires 1 <= month <= 12
    ensures |r| == 3 && r[0] == 'M'
  {
    ['M', Digit(month / 10), Digit(month % 10)]
  }

  /** The month number a month code names: "M01" to "M12"; anything else is a RangeError. */
  function ParseMonthCode(code: string): (r: Result<int>)
    ensures r.Ok? ==> 1 <= r.value <= 12
  {
    if |code| == 3 && code[0] == 'M' && '0' <= code[1] <= '9' && '0' <= code[2] <= '9' then
      var month := DigitValue(code[1]) * 10 + DigitValue(code[2]);
      if 1 <= month <= 12 then Ok(month) else Err(RangeError)
    else Err(RangeError)
  }

  /** Reading back a built month code gives the month. */
  lemma ParseBuiltMonthCode(month: int)
    requires 1 <= month <= 12
    ensures ParseMonthCode(BuildMonthCode(month)) == Ok(month)
  {
  }

  /** A code that parses is the one built from its month: the encoding is canonical. */
  lemma BuildParsedMonthCode(code: string)
    requires ParseMonthCode(code).Ok?
    ensures BuildMonthCode(ParseMonthCode(code).value) == code
  {
    var month := ParseMonthCode(code).value;
    assert month / 10 == DigitValue(code[1]) && month % 10 == DigitValue(code[2]);
    assert BuildMonthCode(month)[1] == code[1] && BuildMonthCode(month)[2] == code[2];
  }

  lemma MonthCodeExamples()
    ensures BuildMonthCode(1) == "M01" && BuildMonthCode(12) == "M12"
    ensures ParseMonthCode("M13").Err? && ParseMonthCode("M00").Err? && ParseMonthCode("M1").Err?
  {
  }

  // ---------------------------------------------------------------------------
  // The range of representable dates

  /** The largest epoch-nanosecond value of a Temporal instant, 10^8 days after the epoch. */
  const NsMaxInstant: int := 8_640_000_000_000_000_000_000

  /** ISODateTimeWithinLimits: the date-time lies less than one day outside the instant range. */
  predicate DateTimeWithinLimits(d: Date, timeNs: int)
    requires 1 <= d.month <= 12
  {
    var ns := EpochDays(d) * NsPerDay + timeNs;
    -NsMaxInstant - NsPerDay < ns < NsMaxInstant + NsPerDay
  }

  /** A PlainDate is checked as the date-time at noon of that day. */
  predicate DateWithinLimits(d: Date)
    requires 1 <= d.month <= 12
  {
    DateTimeWithinLimits(d, 12 * NsPerHour)
  }

  /** The PlainDate range in days: from 10^8 + 1 days before the epoch to 10^8 days after it. */
  lemma DateWithinLimitsDays(d: Date)
    requires 1 <= d.month <= 12
    ensures DateWithinLimits(d) <==> -100_000_001 <= EpochDays(d) <= 100_000_000
  {
  }

  /** ISOYearMonthWithinLimits: from April -271821 to September 275760. */
  predicate YearMonthWithinLimits(year: int, month: int) {
    -271821 <= year <= 275760
    && (year == -271821 ==> month >= 4)
    && (year == 275760 ==> month <= 9)
  }
}
