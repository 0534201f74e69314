# Temporal built-ins, class profiling and X.509 names, modelled in Dafny

This project models the core of three parts of GraalJS and its Node.js
embedding, and proves properties of that model.

- **Temporal ISO-8601 calendar** (`Temporal.Calendar.prototype`). This covers
  `fields`, which walks an iterable of field names with a loop, and
  `dateFromFields`, `yearMonthFromFields` and `monthDayFromFields`. It also
  covers `dateAdd`, `dateUntil` and the field queries: `year`, `month`,
  `monthCode`, `day`, `dayOfWeek`, `dayOfYear`, `weekOfYear`, `yearOfWeek`,
  `daysInWeek`, `daysInMonth`, `daysInYear`, `monthsInYear` and
  `inLeapYear`. The files are `calendar_builtins.dfy` and
  `iso_calendar.dfy`.
- **`Temporal.PlainTime.prototype`**. This covers `add`/`subtract`, `with`
  (a method that reads the fields one by one), `until`/`since`, `round`,
  `equals`, and the option checking and rounding of `toString`. The files
  are `plain_time_builtins.dfy` and `time_math.dfy`.
- **`addZonedDateTime`**. This adds a duration's date part through the
  wall-clock date-time of a time zone, then adds its time part. The time zone
  is a pair of functions: an instant's wall-clock date-time, and a wall-clock
  date-time's instant. The file is `zoned_add.dfy`.
- **`JSClassProfile`**. A cached profile is a class with two mutable fields,
  its methods update them, and the state machine behind them is proved
  separately. The file is `class_profile.dfy`.
- **`GetX509NameObject`** and the two `Set` helpers from Node's crypto
  module. The name object is built by a loop, and is proved to group every
  attribute's values in entry order. The file is `x509_name.dfy`.

Shared definitions:

- `wrappers.dfy`: `Option`, `Result`, and the error kinds (TypeError,
  RangeError).
- `units.dfy`: Temporal units, overflow and rounding modes, and the saturating
  32-bit cast.
- `arithmetic.dfy`: division facts and truncating division.

The Temporal helpers that the built-ins call (the TemporalUtil class:
addISODate, differenceISODate, balanceTimeDuration, roundTime,
addDaysToZonedDateTime, addInstant and the like) are modelled, but their Java
bodies are not followed line by line: `iso_calendar.dfy`, `time_math.dfy` and
`zoned_add.dfy` define them after the Temporal proposal, and their rows below
cite the lines of the built-ins that call them. A time zone's
builtinTimeZoneGetInstantFor is the `instantFor` function of the `TimeZone`
argument.

## Model

| member | source | states |
|---|---|---|
| CalendarPrototype.Fields | graal-js/src/com.oracle.truffle.js/src/com/oracle/truffle/js/builtins/temporal/TemporalCalendarPrototypeBuiltins.java:286-309 | succeeds exactly when every iterated item is a distinct calendar field name; the result is those names in order; otherwise the error is the one for the first offending item: TypeError for a non-string, RangeError for a repeated or unknown name |
| CalendarPrototype.NameSetOfDistinct | graal-js/src/com.oracle.truffle.js/src/com/oracle/truffle/js/builtins/temporal/TemporalCalendarPrototypeBuiltins.java:295-303 | a list without repetitions has as many distinct names as elements |
| CalendarPrototype.FieldsAtMostFour | graal-js/src/com.oracle.truffle.js/src/com/oracle/truffle/js/builtins/temporal/TemporalCalendarPrototypeBuiltins.java:295-303 | a successful `fields` result names each of year, month, monthCode and day at most once, so it has at most four entries |
| CalendarPrototype.PrepareFields | graal-js/src/com.oracle.truffle.js/src/com/oracle/truffle/js/builtins/temporal/TemporalCalendarPrototypeBuiltins.java:338 | reads day, month, monthCode, year in that order and stops at the first error: a missing required field is a TypeError, a present month or day below 1 a RangeError; success exactly when neither happens, keeping just the listed fields |
| CalendarPrototype.ResolveMonth | graal-js/src/com.oracle.truffle.js/src/com/oracle/truffle/js/builtins/temporal/TemporalCalendarPrototypeBuiltins.java:340 | without a month code the month is required (TypeError); a month code must parse and agree with a given month (RangeError otherwise), and then names a month in 1..12 |
| CalendarPrototype.ResolveMonthCodeOrNumber | graal-js/src/com.oracle.truffle.js/src/com/oracle/truffle/js/builtins/temporal/TemporalCalendarPrototypeBuiltins.java:340 | a month code, a month number, or both in agreement resolve to the same month |
| CalendarPrototype.DateFromFields | graal-js/src/com.oracle.truffle.js/src/com/oracle/truffle/js/builtins/temporal/TemporalCalendarPrototypeBuiltins.java:333-343 | a non-object or a missing day is a TypeError; a present month or day below 1 is a RangeError, even with the year missing; a missing year otherwise is a TypeError; any result is a valid in-range date of the given year; in-range fields give exactly that date |
| CalendarPrototype.DateFromFieldsRoundTrip | graal-js/src/com.oracle.truffle.js/src/com/oracle/truffle/js/builtins/temporal/TemporalCalendarPrototypeBuiltins.java:338-343 | the fields of any in-range date, with a month number or a month code, rebuild that date under either overflow mode |
| CalendarPrototype.DateFromFieldsExample | graal-js/src/com.oracle.truffle.js/src/com/oracle/truffle/js/builtins/temporal/TemporalCalendarPrototypeBuiltins.java:339-341 | example: 2023-02-29 is a RangeError under `reject` and February 28 under `constrain`; a month code that contradicts the month is a RangeError |
| CalendarPrototype.NonPositiveFieldsExample | graal-js/src/com.oracle.truffle.js/src/com/oracle/truffle/js/builtins/temporal/TemporalCalendarPrototypeBuiltins.java:338 | example: month 0, day 0, month -3 and a month code with day 0 are RangeErrors under `constrain`, also when the year is missing |
| CalendarPrototype.RegulateYearMonth | graal-js/src/com.oracle.truffle.js/src/com/oracle/truffle/js/builtins/temporal/TemporalCalendarPrototypeBuiltins.java:372-375 | `constrain` clamps the month into 1..12, `reject` refuses a month outside it; the year is kept |
| CalendarPrototype.YearMonthFromFields | graal-js/src/com.oracle.truffle.js/src/com/oracle/truffle/js/builtins/temporal/TemporalCalendarPrototypeBuiltins.java:367-378 | a non-object is a TypeError; a present month below 1 is a RangeError; a missing year otherwise is a TypeError; a result keeps the year, has a month in 1..12 within the PlainYearMonth range and reference day 1 |
| CalendarPrototype.YearMonthFromFieldsIgnoresDay | graal-js/src/com.oracle.truffle.js/src/com/oracle/truffle/js/builtins/temporal/TemporalCalendarPrototypeBuiltins.java:372-375 | the day field does not affect the result |
| CalendarPrototype.ReferenceYearHoldsEveryDay | graal-js/src/com.oracle.truffle.js/src/com/oracle/truffle/js/builtins/temporal/TemporalCalendarPrototypeBuiltins.java:407-410 | every day that is valid for its month in some year is valid in the reference year 1972 |
| CalendarPrototype.MonthDayFromFields | graal-js/src/com.oracle.truffle.js/src/com/oracle/truffle/js/builtins/temporal/TemporalCalendarPrototypeBuiltins.java:401-412 | a missing day is a TypeError; with a day present, a month or day below 1 is a RangeError; a missing year when there is no month code is otherwise a TypeError; a result has reference year 1972 and is a valid date of that year |
| CalendarPrototype.MonthDayFromFieldsExample | graal-js/src/com.oracle.truffle.js/src/com/oracle/truffle/js/builtins/temporal/TemporalCalendarPrototypeBuiltins.java:407-410 | example: February 29 is kept when given by month code and constrained to the 28th when given with a common year; a month number without a year or month code is a TypeError |
| CalendarPrototype.ToTemporalDate | graal-js/src/com.oracle.truffle.js/src/com/oracle/truffle/js/builtins/temporal/TemporalCalendarPrototypeBuiltins.java:506-516 | a PlainYearMonth or PlainMonthDay argument is a TypeError; any date it yields is valid and in range |
| CalendarPrototype.YearOf | graal-js/src/com.oracle.truffle.js/src/com/oracle/truffle/js/builtins/temporal/TemporalCalendarPrototypeBuiltins.java:502-517 | the year of a PlainDate, PlainDateTime or PlainYearMonth; a TypeError for a PlainMonthDay; a converted value's year or its conversion error |
| CalendarPrototype.MonthOf | graal-js/src/com.oracle.truffle.js/src/com/oracle/truffle/js/builtins/temporal/TemporalCalendarPrototypeBuiltins.java:534-551 | a PlainMonthDay is a TypeError; otherwise the month of the argument or of its conversion, always in 1..12 |
| CalendarPrototype.MonthCodeOf | graal-js/src/com.oracle.truffle.js/src/com/oracle/truffle/js/builtins/temporal/TemporalCalendarPrototypeBuiltins.java:568-585 | every Temporal type, PlainMonthDay included, gives the month code of its month; other values fail exactly when their conversion does; the code always parses |
| CalendarPrototype.MonthCodeNamesMonth | graal-js/src/com.oracle.truffle.js/src/com/oracle/truffle/js/builtins/temporal/TemporalCalendarPrototypeBuiltins.java:568-585 | the month code of an argument parses back to that argument's month |
| CalendarPrototype.DayOf | graal-js/src/com.oracle.truffle.js/src/com/oracle/truffle/js/builtins/temporal/TemporalCalendarPrototypeBuiltins.java:602-617 | the day of a PlainDate, PlainDateTime or PlainMonthDay; a TypeError for a PlainYearMonth; the converted value's day otherwise |
| CalendarPrototype.DayOfWeekOf | graal-js/src/com.oracle.truffle.js/src/com/oracle/truffle/js/builtins/temporal/TemporalCalendarPrototypeBuiltins.java:634-639 | fails exactly as the conversion does; otherwise the ISO weekday, 1 for Monday to 7 for Sunday |
| CalendarPrototype.DayOfYearOf | graal-js/src/com.oracle.truffle.js/src/com/oracle/truffle/js/builtins/temporal/TemporalCalendarPrototypeBuiltins.java:656-661 | fails exactly as the conversion does; otherwise the epoch-day distance from January 1 plus one, between 1 and the year's length |
| CalendarPrototype.WeekOfYearOf | graal-js/src/com.oracle.truffle.js/src/com/oracle/truffle/js/builtins/temporal/TemporalCalendarPrototypeBuiltins.java:678-683 | fails exactly as the conversion does; otherwise the ISO week number, the week of the year in which that week's Thursday falls |
| CalendarPrototype.YearOfWeekOf | graal-js/src/com.oracle.truffle.js/src/com/oracle/truffle/js/builtins/temporal/TemporalCalendarPrototypeBuiltins.java:699-704 | fails exactly as the conversion does; otherwise the ISO week-numbering year, the year of that week's Thursday |
| CalendarPrototype.DaysInWeekOf | graal-js/src/com.oracle.truffle.js/src/com/oracle/truffle/js/builtins/temporal/TemporalCalendarPrototypeBuiltins.java:721-726 | fails exactly as the conversion does; otherwise 7 |
| CalendarPrototype.DaysInMonthOf | graal-js/src/com.oracle.truffle.js/src/com/oracle/truffle/js/builtins/temporal/TemporalCalendarPrototypeBuiltins.java:743-763 | succeeds exactly when the year and month queries do, with the length of that month in that year; a PlainMonthDay is a TypeError |
| CalendarPrototype.DaysInMonthOnlyYearAndMonth | graal-js/src/com.oracle.truffle.js/src/com/oracle/truffle/js/builtins/temporal/TemporalCalendarPrototypeBuiltins.java:743-763 | two arguments in the same month of the same year have the same month length |
| CalendarPrototype.DaysInYearOf | graal-js/src/com.oracle.truffle.js/src/com/oracle/truffle/js/builtins/temporal/TemporalCalendarPrototypeBuiltins.java:780-795 | succeeds exactly when the year query does, with that year's length, failing with its error |
| CalendarPrototype.InLeapYearOf | graal-js/src/com.oracle.truffle.js/src/com/oracle/truffle/js/builtins/temporal/TemporalCalendarPrototypeBuiltins.java:838-853 | succeeds exactly when the year query does, telling whether that year is a Gregorian leap year |
| CalendarPrototype.DaysInYearAgreesWithInLeapYear | graal-js/src/com.oracle.truffle.js/src/com/oracle/truffle/js/builtins/temporal/TemporalCalendarPrototypeBuiltins.java:780-853 | daysInYear is 366 exactly when inLeapYear is true, and 365 otherwise; the two fail together |
| CalendarPrototype.MonthsInYearOf | graal-js/src/com.oracle.truffle.js/src/com/oracle/truffle/js/builtins/temporal/TemporalCalendarPrototypeBuiltins.java:812-821 | 12; a PlainDate, PlainDateTime or PlainYearMonth always succeeds, anything else fails exactly as its conversion does |
| CalendarPrototype.AddDateInRange | graal-js/src/com.oracle.truffle.js/src/com/oracle/truffle/js/builtins/temporal/TemporalCalendarPrototypeBuiltins.java:446-447 | the result of addISODate, refused with RangeError when it leaves the PlainDate range |
| CalendarPrototype.AddDurationToDate | graal-js/src/com.oracle.truffle.js/src/com/oracle/truffle/js/builtins/temporal/TemporalCalendarPrototypeBuiltins.java:442-447 | any result is a valid date within the PlainDate range |
| CalendarPrototype.WholeDays | graal-js/src/com.oracle.truffle.js/src/com/oracle/truffle/js/builtins/temporal/TemporalCalendarPrototypeBuiltins.java:442-445 | the day count equals the duration's days when the time part is under one day, and moves with the sign of the time part otherwise |
| CalendarPrototype.AddDurationToDateWholeDays | graal-js/src/com.oracle.truffle.js/src/com/oracle/truffle/js/builtins/temporal/TemporalCalendarPrototypeBuiltins.java:442-447 | two durations with the same years, months, weeks and whole days give the same date |
| CalendarPrototype.DateAdd | graal-js/src/com.oracle.truffle.js/src/com/oracle/truffle/js/builtins/temporal/TemporalCalendarPrototypeBuiltins.java:435-448 | the conversion error if the argument does not convert, otherwise the converted date plus the duration |
| CalendarPrototype.AddDurationSubDayIgnored | graal-js/src/com.oracle.truffle.js/src/com/oracle/truffle/js/builtins/temporal/TemporalCalendarPrototypeBuiltins.java:442-445 | a time part under one day, of either sign, does not move the date |
| CalendarPrototype.AddDurationDaysOnly | graal-js/src/com.oracle.truffle.js/src/com/oracle/truffle/js/builtins/temporal/TemporalCalendarPrototypeBuiltins.java:442-447 | without years or months the epoch day moves by 7*weeks + days + the truncated whole days of the time part; it fails, with RangeError, exactly when that leaves the PlainDate range |
| CalendarPrototype.DateDifference | graal-js/src/com.oracle.truffle.js/src/com/oracle/truffle/js/builtins/temporal/TemporalCalendarPrototypeBuiltins.java:475-484 | the difference has no time part; with `day` or `auto` it has no years, months or weeks |
| CalendarPrototype.DateUntil | graal-js/src/com.oracle.truffle.js/src/com/oracle/truffle/js/builtins/temporal/TemporalCalendarPrototypeBuiltins.java:471-484 | succeeds exactly when both arguments convert, failing with the first conversion error; the result is the date difference with `auto` read as days and no time part |
| CalendarPrototype.DateUntilInDays | graal-js/src/com.oracle.truffle.js/src/com/oracle/truffle/js/builtins/temporal/TemporalCalendarPrototypeBuiltins.java:475-484 | counted in days, the result is the distance between the two dates in epoch days |
| CalendarPrototype.AddDurationNoTimePart | graal-js/src/com.oracle.truffle.js/src/com/oracle/truffle/js/builtins/temporal/TemporalCalendarPrototypeBuiltins.java:442-447 | a duration without a time part is added by addISODate and the range check alone |
| CalendarPrototype.DateDifferenceRoundTrip | graal-js/src/com.oracle.truffle.js/src/com/oracle/truffle/js/builtins/temporal/TemporalCalendarPrototypeBuiltins.java:442-447 | adding a difference in days or weeks to the first date gives the second |
| CalendarPrototype.DateUntilThenDateAdd | graal-js/src/com.oracle.truffle.js/src/com/oracle/truffle/js/builtins/temporal/TemporalCalendarPrototypeBuiltins.java:430-485 | dateAdd of the dateUntil result (in days or weeks) to the first argument gives the second |
| CalendarPrototype.DateUntilAntisymmetric | graal-js/src/com.oracle.truffle.js/src/com/oracle/truffle/js/builtins/temporal/TemporalCalendarPrototypeBuiltins.java:466-485 | swapping the arguments negates a difference in days or weeks |
| IsoCalendar.DaysInYear | graal-js/src/com.oracle.truffle.js/src/com/oracle/truffle/js/builtins/temporal/TemporalCalendarPrototypeBuiltins.java:780-795 | 365 or 366 (LeapYearLengths ties 366 to the leap-year rule) |
| IsoCalendar.DaysInMonth | graal-js/src/com.oracle.truffle.js/src/com/oracle/truffle/js/builtins/temporal/TemporalCalendarPrototypeBuiltins.java:743-763 | 28 to 31 days |
| IsoCalendar.LeapYearLengths | graal-js/src/com.oracle.truffle.js/src/com/oracle/truffle/js/builtins/temporal/TemporalCalendarPrototypeBuiltins.java:780-795 | a year has 366 days exactly when it is a leap year, exactly when February has 29 days |
| IsoCalendar.LeapYearExamples | graal-js/src/com.oracle.truffle.js/src/com/oracle/truffle/js/builtins/temporal/TemporalCalendarPrototypeBuiltins.java:838-853 | example: 2000 and 2024 are leap years; 1900 and 2023 are not |
| IsoCalendar.YearOfEpochDay | graal-js/src/com.oracle.truffle.js/src/com/oracle/truffle/js/builtins/temporal/TemporalCalendarPrototypeBuiltins.java:442-447 | the year whose day range holds the given epoch day |
| IsoCalendar.FromEpochDays | graal-js/src/com.oracle.truffle.js/src/com/oracle/truffle/js/builtins/temporal/TemporalCalendarPrototypeBuiltins.java:442-447 | the date of an epoch day is valid and has that epoch day |
| IsoCalendar.EpochDaysInjective | graal-js/src/com.oracle.truffle.js/src/com/oracle/truffle/js/builtins/temporal/TemporalCalendarPrototypeBuiltins.java:479-481 | distinct valid dates have distinct epoch days |
| IsoCalendar.FromEpochDaysOfDate | graal-js/src/com.oracle.truffle.js/src/com/oracle/truffle/js/builtins/temporal/TemporalCalendarPrototypeBuiltins.java:442-447 | epoch days and valid dates are inverse bijections |
| IsoCalendar.YearOfEpochDayUnique | graal-js/src/com.oracle.truffle.js/src/com/oracle/truffle/js/builtins/temporal/TemporalCalendarPrototypeBuiltins.java:442-447 | a valid date lies in the year whose day range holds its epoch day |
| IsoCalendar.CompareISODateIsChronological | graal-js/src/com.oracle.truffle.js/src/com/oracle/truffle/js/builtins/temporal/TemporalCalendarPrototypeBuiltins.java:479-481 | the field-by-field comparison orders valid dates as their epoch days do |
| IsoCalendar.BalanceYearMonth | graal-js/src/com.oracle.truffle.js/src/com/oracle/truffle/js/builtins/temporal/TemporalCalendarPrototypeBuiltins.java:446-447 | months outside 1..12 are carried into the year, keeping the month count and landing in 1..12 |
| IsoCalendar.RegulateDate | graal-js/src/com.oracle.truffle.js/src/com/oracle/truffle/js/builtins/temporal/TemporalCalendarPrototypeBuiltins.java:341 | `reject` refuses an invalid date with RangeError; `constrain` clamps month then day; any result is valid, and a valid date is kept |
| IsoCalendar.BalanceISODate | graal-js/src/com.oracle.truffle.js/src/com/oracle/truffle/js/builtins/temporal/TemporalCalendarPrototypeBuiltins.java:446-447 | the valid date `day - 1` days after the first of the given month |
| IsoCalendar.AddISODate | graal-js/src/com.oracle.truffle.js/src/com/oracle/truffle/js/builtins/temporal/TemporalCalendarPrototypeBuiltins.java:446-447 | any result is a valid date, and under `constrain` there always is one |
| IsoCalendar.AddISODateComposes | graal-js/src/com.oracle.truffle.js/src/com/oracle/truffle/js/builtins/temporal/TemporalCalendarPrototypeBuiltins.java:446-447 | a mixed duration adds years and months first, regulating the day, and then adds weeks and days to that date; an error of the first step is the result |
| IsoCalendar.AddISODateDaysIsShift | graal-js/src/com.oracle.truffle.js/src/com/oracle/truffle/js/builtins/temporal/TemporalCalendarPrototypeBuiltins.java:446-447 | adding days to a valid date gives the date whose epoch day is that many days later |
| IsoCalendar.AddISODateDays | graal-js/src/com.oracle.truffle.js/src/com/oracle/truffle/js/builtins/temporal/TemporalCalendarPrototypeBuiltins.java:446-447 | adding weeks and days alone always succeeds and moves the epoch day by 7*weeks + days |
| IsoCalendar.AddISODateDaysRoundTrip | graal-js/src/com.oracle.truffle.js/src/com/oracle/truffle/js/builtins/temporal/TemporalCalendarPrototypeBuiltins.java:446-447 | subtracting the weeks and days just added gives back the original date |
| IsoCalendar.AddISODateMonths | graal-js/src/com.oracle.truffle.js/src/com/oracle/truffle/js/builtins/temporal/TemporalCalendarPrototypeBuiltins.java:446-447 | adding years and months alone regulates the day against the balanced target month |
| IsoCalendar.AddYearsMonthsIsAddISODate | graal-js/src/com.oracle.truffle.js/src/com/oracle/truffle/js/builtins/temporal/TemporalCalendarPrototypeBuiltins.java:446-447 | the constrained years-and-months step used by the difference is AddISODate without weeks and days |
| IsoCalendar.AddISODateMonthsReject | graal-js/src/com.oracle.truffle.js/src/com/oracle/truffle/js/builtins/temporal/TemporalCalendarPrototypeBuiltins.java:446-447 | under `reject`, adding years and months fails exactly when the day does not exist in the target month |
| IsoCalendar.AddISODateMonthsConstrain | graal-js/src/com.oracle.truffle.js/src/com/oracle/truffle/js/builtins/temporal/TemporalCalendarPrototypeBuiltins.java:446-447 | under `constrain`, adding years and months keeps the day, clamped to the target month's length |
| IsoCalendar.AddISODateExample | graal-js/src/com.oracle.truffle.js/src/com/oracle/truffle/js/builtins/temporal/TemporalCalendarPrototypeBuiltins.java:446-447 | example: 2021-01-31 plus one month is February 28 under `constrain` and a RangeError under `reject` |
| IsoCalendar.DifferenceISODate | graal-js/src/com.oracle.truffle.js/src/com/oracle/truffle/js/builtins/temporal/TemporalCalendarPrototypeBuiltins.java:479-481 | the largest unit bounds the fields: no years below `year`, no weeks with `year` or `month`, only weeks and days with `week`, only days with `day` |
| IsoCalendar.DifferenceISODateWeeksDaysRoundTrip | graal-js/src/com.oracle.truffle.js/src/com/oracle/truffle/js/builtins/temporal/TemporalCalendarPrototypeBuiltins.java:479-481 | adding a difference in weeks or days to the first date gives the second |
| IsoCalendar.DifferenceISODateInDays | graal-js/src/com.oracle.truffle.js/src/com/oracle/truffle/js/builtins/temporal/TemporalCalendarPrototypeBuiltins.java:479-481 | counted in days, the difference is the distance in epoch days |
| IsoCalendar.DifferenceISODateWeeksDaysAntisymmetric | graal-js/src/com.oracle.truffle.js/src/com/oracle/truffle/js/builtins/temporal/TemporalCalendarPrototypeBuiltins.java:479-481 | swapping the dates negates a difference in weeks or days |
| IsoCalendar.DifferenceISODateSelf | graal-js/src/com.oracle.truffle.js/src/com/oracle/truffle/js/builtins/temporal/TemporalCalendarPrototypeBuiltins.java:479-484 | a date is no distance from itself, in any unit |
| IsoCalendar.DifferenceISODateSameMonth | graal-js/src/com.oracle.truffle.js/src/com/oracle/truffle/js/builtins/temporal/TemporalCalendarPrototypeBuiltins.java:479-481 | within one month the year-and-month path counts plain days |
| IsoCalendar.DifferenceISODateWholeYears | graal-js/src/com.oracle.truffle.js/src/com/oracle/truffle/js/builtins/temporal/TemporalCalendarPrototypeBuiltins.java:479-481 | the same day of the same month n years later is exactly n years away |
| IsoCalendar.DayOfWeek | graal-js/src/com.oracle.truffle.js/src/com/oracle/truffle/js/builtins/temporal/TemporalCalendarPrototypeBuiltins.java:634-639 | 1 to 7, Monday to Sunday |
| IsoCalendar.DayOfWeekNextDay | graal-js/src/com.oracle.truffle.js/src/com/oracle/truffle/js/builtins/temporal/TemporalCalendarPrototypeBuiltins.java:634-639 | the day after a date falls on the next weekday, Sunday wrapping to Monday |
| IsoCalendar.DayOfWeekExamples | graal-js/src/com.oracle.truffle.js/src/com/oracle/truffle/js/builtins/temporal/TemporalCalendarPrototypeBuiltins.java:634-639 | example: 1970-01-01 was a Thursday, 2000-01-01 a Saturday and 2024-01-01 a Monday |
| IsoCalendar.DayOfYear | graal-js/src/com.oracle.truffle.js/src/com/oracle/truffle/js/builtins/temporal/TemporalCalendarPrototypeBuiltins.java:656-661 | 1 for January 1, up to the year's length |
| IsoCalendar.ToISOWeekOfYear | graal-js/src/com.oracle.truffle.js/src/com/oracle/truffle/js/builtins/temporal/TemporalCalendarPrototypeBuiltins.java:678-704 | a week number from 1 to 53 and a week-numbering year within one of the date's year |
| IsoCalendar.ToISOWeekOfYearIsThursdayRule | graal-js/src/com.oracle.truffle.js/src/com/oracle/truffle/js/builtins/temporal/TemporalCalendarPrototypeBuiltins.java:678-704 | the day-count formula equals the ISO 8601 rule: the week and year are those of the Monday-to-Sunday week's Thursday |
| IsoCalendar.ToISOWeekOfYearExamples | graal-js/src/com.oracle.truffle.js/src/com/oracle/truffle/js/builtins/temporal/TemporalCalendarPrototypeBuiltins.java:678-704 | example: 2021-01-01 is in week 53 of 2020, 2024-12-30 in week 1 of 2025 and 2024-06-15 in week 24 of 2024 |
| IsoCalendar.BuildMonthCode | graal-js/src/com.oracle.truffle.js/src/com/oracle/truffle/js/builtins/temporal/TemporalCalendarPrototypeBuiltins.java:568-585 | three characters starting with "M"; ParseBuiltMonthCode and BuildParsedMonthCode make it the inverse of ParseMonthCode |
| IsoCalendar.ParseMonthCode | graal-js/src/com.oracle.truffle.js/src/com/oracle/truffle/js/builtins/temporal/TemporalCalendarPrototypeBuiltins.java:340 | any month it yields is in 1..12 |
| IsoCalendar.ParseBuiltMonthCode | graal-js/src/com.oracle.truffle.js/src/com/oracle/truffle/js/builtins/temporal/TemporalCalendarPrototypeBuiltins.java:340 | parsing a built month code gives back the month |
| IsoCalendar.BuildParsedMonthCode | graal-js/src/com.oracle.truffle.js/src/com/oracle/truffle/js/builtins/temporal/TemporalCalendarPrototypeBuiltins.java:340 | a code that parses is the one built from its month |
| IsoCalendar.MonthCodeExamples | graal-js/src/com.oracle.truffle.js/src/com/oracle/truffle/js/builtins/temporal/TemporalCalendarPrototypeBuiltins.java:568-585 | example: months 1 and 12 build "M01" and "M12"; "M13", "M00" and "M1" are refused |
| IsoCalendar.DateWithinLimitsDays | graal-js/src/com.oracle.truffle.js/src/com/oracle/truffle/js/builtins/temporal/TemporalCalendarPrototypeBuiltins.java:446-447 | a date is in the PlainDate range exactly when its epoch day lies from -100000001 to 100000000 |
| TimeMath.TimeNsRange | graal-js/src/com.oracle.truffle.js/src/com/oracle/truffle/js/builtins/temporal/TemporalPlainTimePrototypeBuiltins.java:272 | a valid time lies within one day after midnight |
| TimeMath.BalanceTime | graal-js/src/com.oracle.truffle.js/src/com/oracle/truffle/js/builtins/temporal/TemporalPlainTimePrototypeBuiltins.java:266-272 | a valid time plus whole days with the same nanosecond total as the fields |
| TimeMath.BalancedUnique | graal-js/src/com.oracle.truffle.js/src/com/oracle/truffle/js/builtins/temporal/TemporalPlainTimePrototypeBuiltins.java:266-272 | a nanosecond total has one representation as whole days and a valid time |
| TimeMath.BalanceValidTime | graal-js/src/com.oracle.truffle.js/src/com/oracle/truffle/js/builtins/temporal/TemporalPlainTimePrototypeBuiltins.java:266-272 | a valid time balances to itself with no days |
| TimeMath.AddTime | graal-js/src/com.oracle.truffle.js/src/com/oracle/truffle/js/builtins/temporal/TemporalPlainTimePrototypeBuiltins.java:266-272 | the result's total is the time's plus the duration's nanoseconds |
| TimeMath.AddTimeInverse | graal-js/src/com.oracle.truffle.js/src/com/oracle/truffle/js/builtins/temporal/TemporalPlainTimePrototypeBuiltins.java:266-272 | adding a duration and then its negation gives back the time and no days |
| TimeMath.AddTimeOfTotal | graal-js/src/com.oracle.truffle.js/src/com/oracle/truffle/js/builtins/temporal/TemporalPlainTimePrototypeBuiltins.java:266-272 | durations with equal nanosecond totals move a time identically |
| TimeMath.DifferenceTime | graal-js/src/com.oracle.truffle.js/src/com/oracle/truffle/js/builtins/temporal/TemporalPlainTimePrototypeBuiltins.java:384-387 | the signed nanoseconds from the first time to the second |
| TimeMath.DifferenceTimeRange | graal-js/src/com.oracle.truffle.js/src/com/oracle/truffle/js/builtins/temporal/TemporalPlainTimePrototypeBuiltins.java:384-387 | two valid times are less than a day apart |
| TimeMath.DifferenceTimeRoundTrip | graal-js/src/com.oracle.truffle.js/src/com/oracle/truffle/js/builtins/temporal/TemporalPlainTimePrototypeBuiltins.java:384-387 | adding the difference to the first time reaches the second on the same day |
| TimeMath.RegulateTime | graal-js/src/com.oracle.truffle.js/src/com/oracle/truffle/js/builtins/temporal/TemporalPlainTimePrototypeBuiltins.java:349 | `constrain` clamps each field into range; `reject` refuses an invalid time with RangeError; a valid time is kept by both |
| TimeMath.RegulateTimeConstrainNearest | graal-js/src/com.oracle.truffle.js/src/com/oracle/truffle/js/builtins/temporal/TemporalPlainTimePrototypeBuiltins.java:349 | constraining moves a field only when it is out of range, and then to the nearer bound |
| TimeMath.GetUnsignedRoundingMode | graal-js/src/com.oracle.truffle.js/src/com/oracle/truffle/js/builtins/temporal/TemporalPlainTimePrototypeBuiltins.java:433 | the unsigned mode is a half-mode exactly when the signed mode is one of the five half-modes |
| TimeMath.NegateRoundingModeUnsigned | graal-js/src/com.oracle.truffle.js/src/com/oracle/truffle/js/builtins/temporal/TemporalPlainTimePrototypeBuiltins.java:382 | negating the mode and the sign together keeps the unsigned mode; negation is an involution |
| TimeMath.ApplyUnsignedRoundingMode | graal-js/src/com.oracle.truffle.js/src/com/oracle/truffle/js/builtins/temporal/TemporalPlainTimePrototypeBuiltins.java:444-446 | the lower multiple, or the upper one only with a remainder; zero takes the lower, infinity the upper; half-modes pick the nearer and break ties towards zero, infinity or the even multiple |
| TimeMath.RoundToIncrement | graal-js/src/com.oracle.truffle.js/src/com/oracle/truffle/js/builtins/temporal/TemporalPlainTimePrototypeBuiltins.java:444-446 | a multiple of the increment less than one increment from the value; exact multiples kept; floor never above, ceil never below, trunc towards zero, expand away from zero, half-modes within half an increment |
| TimeMath.RoundToIncrementNegate | graal-js/src/com.oracle.truffle.js/src/com/oracle/truffle/js/builtins/temporal/TemporalPlainTimePrototypeBuiltins.java:388-390 | rounding commutes with negation once the mode is negated |
| TimeMath.RoundToIncrementTiesAwayAndToward | graal-js/src/com.oracle.truffle.js/src/com/oracle/truffle/js/builtins/temporal/TemporalPlainTimePrototypeBuiltins.java:444-446 | on a tie halfExpand moves away from zero and halfTrunc towards it |
| TimeMath.RoundToIncrementTiesEven | graal-js/src/com.oracle.truffle.js/src/com/oracle/truffle/js/builtins/temporal/TemporalPlainTimePrototypeBuiltins.java:444-446 | on a tie halfEven picks the even multiple |
| TimeMath.RoundTime | graal-js/src/com.oracle.truffle.js/src/com/oracle/truffle/js/builtins/temporal/TemporalPlainTimePrototypeBuiltins.java:444-446 | the rounded time plus the carried days has the total of the unrounded larger fields plus the rounded quantity |
| TimeMath.PlaceInUnitFields | graal-js/src/com.oracle.truffle.js/src/com/oracle/truffle/js/builtins/temporal/TemporalPlainTimePrototypeBuiltins.java:444-446 | the placed count lands in the unit's field modulo the next larger unit, the larger fields kept and the smaller ones zero |
| TimeMath.RoundTimeFields | graal-js/src/com.oracle.truffle.js/src/com/oracle/truffle/js/builtins/temporal/TemporalPlainTimePrototypeBuiltins.java:444-446 | with an increment dividing the next larger unit, the rounded time has zero below the unit and a multiple of the increment in it |
| TimeMath.BalanceTimeDuration | graal-js/src/com.oracle.truffle.js/src/com/oracle/truffle/js/builtins/temporal/TemporalPlainTimePrototypeBuiltins.java:392-394 | the components have the given total, share its sign and are balanced below the largest unit |
| TimeMath.BalanceTimeDurationNegate | graal-js/src/com.oracle.truffle.js/src/com/oracle/truffle/js/builtins/temporal/TemporalPlainTimePrototypeBuiltins.java:392-397 | balancing the negated total negates every component |
| TimeMath.BalancedMagnitudeUnique | graal-js/src/com.oracle.truffle.js/src/com/oracle/truffle/js/builtins/temporal/TemporalPlainTimePrototypeBuiltins.java:392-394 | a non-negative total has exactly one balanced form for each largest unit |
| TimeMath.BalanceTimeDurationCharacterized | graal-js/src/com.oracle.truffle.js/src/com/oracle/truffle/js/builtins/temporal/TemporalPlainTimePrototypeBuiltins.java:392-394 | every balanced form is the one balanceTimeDuration computes |
| TimeMath.BalanceTimeDurationTimeUnit | graal-js/src/com.oracle.truffle.js/src/com/oracle/truffle/js/builtins/temporal/TemporalPlainTimePrototypeBuiltins.java:392-394 | up to a time unit no days are carried and the components share one sign |
| TimeMath.BalanceTimeDurationWholeDays | graal-js/src/com.oracle.truffle.js/src/com/oracle/truffle/js/builtins/temporal/TemporalCalendarPrototypeBuiltins.java:442-445 | with largest unit day, the days are the truncated whole days of the total |
| TimeMath.BalanceTimeDurationExample | graal-js/src/com.oracle.truffle.js/src/com/oracle/truffle/js/builtins/temporal/TemporalPlainTimePrototypeBuiltins.java:392-394 | example: 10^15 ns is 11 days 13:46:40 with largest unit day and 277 h 46 min 40 s with largest unit hour |
| TimeMath.BalanceTimeDurationNegativeExample | graal-js/src/com.oracle.truffle.js/src/com/oracle/truffle/js/builtins/temporal/TemporalPlainTimePrototypeBuiltins.java:392-394 | example: -90 s with largest unit second is -90 seconds |
| PlainTimePrototype.TimeNsInjective | graal-js/src/com.oracle.truffle.js/src/com/oracle/truffle/js/builtins/temporal/TemporalPlainTimePrototypeBuiltins.java:272-275 | valid times with the same nanoseconds since midnight are equal |
| PlainTimePrototype.AddSubtract | graal-js/src/com.oracle.truffle.js/src/com/oracle/truffle/js/builtins/temporal/TemporalPlainTimePrototypeBuiltins.java:261-276 | a valid time whose nanoseconds since midnight are the receiver's plus sign times the duration's time part, modulo one day |
| PlainTimePrototype.SubtractIsAddNegated | graal-js/src/com.oracle.truffle.js/src/com/oracle/truffle/js/builtins/temporal/TemporalPlainTimePrototypeBuiltins.java:266-271 | subtract is add of the duration with its time fields negated |
| PlainTimePrototype.SubtractUndoesAdd | graal-js/src/com.oracle.truffle.js/src/com/oracle/truffle/js/builtins/temporal/TemporalPlainTimePrototypeBuiltins.java:266-271 | subtracting a duration undoes adding it |
| PlainTimePrototype.AddWholeDays | graal-js/src/com.oracle.truffle.js/src/com/oracle/truffle/js/builtins/temporal/TemporalPlainTimePrototypeBuiltins.java:266-271 | a time part of whole days leaves the time unchanged |
| PlainTimePrototype.With | graal-js/src/com.oracle.truffle.js/src/com/oracle/truffle/js/builtins/temporal/TemporalPlainTimePrototypeBuiltins.java:292-353 | a non-partial argument or one with no time field is a TypeError; otherwise present fields override the receiver's and the result is regulated; absent fields are kept, in-range present ones taken; `constrain` always succeeds, `reject` fails exactly when the merged time is invalid |
| PlainTimePrototype.MergeKeepsAbsent | graal-js/src/com.oracle.truffle.js/src/com/oracle/truffle/js/builtins/temporal/TemporalPlainTimePrototypeBuiltins.java:313-348 | a regulated merge keeps every field absent from the argument |
| PlainTimePrototype.MergeTakesPresent | graal-js/src/com.oracle.truffle.js/src/com/oracle/truffle/js/builtins/temporal/TemporalPlainTimePrototypeBuiltins.java:313-349 | a regulated merge takes every present field that is in range |
| PlainTimePrototype.MergeRejects | graal-js/src/com.oracle.truffle.js/src/com/oracle/truffle/js/builtins/temporal/TemporalPlainTimePrototypeBuiltins.java:349 | under `reject` the merge succeeds exactly when the merged fields form a valid time |
| PlainTimePrototype.MaximumIncrement | graal-js/src/com.oracle.truffle.js/src/com/oracle/truffle/js/builtins/temporal/TemporalPlainTimePrototypeBuiltins.java:435-442 | 24 for hours, 60 for minutes and seconds, 1000 below |
| PlainTimePrototype.ReadIncrement | graal-js/src/com.oracle.truffle.js/src/com/oracle/truffle/js/builtins/temporal/TemporalPlainTimePrototypeBuiltins.java:432 | default 1; any accepted increment is at least 1; otherwise RangeError |
| PlainTimePrototype.RoundSettings | graal-js/src/com.oracle.truffle.js/src/com/oracle/truffle/js/builtins/temporal/TemporalPlainTimePrototypeBuiltins.java:421-443 | an undefined argument is a TypeError, other failures RangeError; a string is the smallest unit with increment 1 and halfExpand; the unit is a time unit and the increment divides its maximum |
| PlainTimePrototype.Round | graal-js/src/com.oracle.truffle.js/src/com/oracle/truffle/js/builtins/temporal/TemporalPlainTimePrototypeBuiltins.java:414-450 | the settings' error, or a valid time with zeros below the unit and a multiple of the increment in it, equal to roundTime's time |
| PlainTimePrototype.RoundExact | graal-js/src/com.oracle.truffle.js/src/com/oracle/truffle/js/builtins/temporal/TemporalPlainTimePrototypeBuiltins.java:444-446 | a time already on a multiple of the increment is left unchanged |
| PlainTimePrototype.RoundToHourCarriesOver | graal-js/src/com.oracle.truffle.js/src/com/oracle/truffle/js/builtins/temporal/TemporalPlainTimePrototypeBuiltins.java:444-449 | 23:59:59.999999999 rounded to the hour wraps to midnight |
| PlainTimePrototype.RoundTimeLastNanosecond | graal-js/src/com.oracle.truffle.js/src/com/oracle/truffle/js/builtins/temporal/TemporalPlainTimePrototypeBuiltins.java:444-446 | the same rounding carries one day out of roundTime |
| PlainTimePrototype.RoundLastNanosecond | graal-js/src/com.oracle.truffle.js/src/com/oracle/truffle/js/builtins/temporal/TemporalPlainTimePrototypeBuiltins.java:444-446 | the last nanosecond of a day rounds up to a whole day under halfExpand |
| PlainTimePrototype.DifferenceSettings | graal-js/src/com.oracle.truffle.js/src/com/oracle/truffle/js/builtins/temporal/TemporalPlainTimePrototypeBuiltins.java:382 | RangeError on failure; the smallest unit defaults to nanosecond and the mode to trunc, negated for since; the largest unit defaults to hour or the smallest unit and is no smaller than it |
| PlainTimePrototype.SignedTimeDuration | graal-js/src/com.oracle.truffle.js/src/com/oracle/truffle/js/builtins/temporal/TemporalPlainTimePrototypeBuiltins.java:395-397 | the duration's time part is sign times the components' total, and components of one sign stay of one sign |
| PlainTimePrototype.DifferenceRounded | graal-js/src/com.oracle.truffle.js/src/com/oracle/truffle/js/builtins/temporal/TemporalPlainTimePrototypeBuiltins.java:384-397 | no date fields; the time part is sign times the rounded difference; all fields share one sign |
| PlainTimePrototype.SignedBalancedNegate | graal-js/src/com.oracle.truffle.js/src/com/oracle/truffle/js/builtins/temporal/TemporalPlainTimePrototypeBuiltins.java:392-397 | since of a negated total equals until of the total |
| PlainTimePrototype.SignedNegated | graal-js/src/com.oracle.truffle.js/src/com/oracle/truffle/js/builtins/temporal/TemporalPlainTimePrototypeBuiltins.java:395-397 | negating the components and the sign together cancels |
| PlainTimePrototype.UntilSince | graal-js/src/com.oracle.truffle.js/src/com/oracle/truffle/js/builtins/temporal/TemporalPlainTimePrototypeBuiltins.java:372-398 | fails (RangeError) exactly when the settings do; otherwise the rounded, balanced and signed difference |
| PlainTimePrototype.DifferenceRoundedSwap | graal-js/src/com.oracle.truffle.js/src/com/oracle/truffle/js/builtins/temporal/TemporalPlainTimePrototypeBuiltins.java:382-397 | since with the negated mode equals until with the arguments swapped |
| PlainTimePrototype.RoundedDifferenceNegate | graal-js/src/com.oracle.truffle.js/src/com/oracle/truffle/js/builtins/temporal/TemporalPlainTimePrototypeBuiltins.java:388-390 | rounding the reversed difference under the negated mode gives the negated result |
| PlainTimePrototype.SinceIsUntilReversed | graal-js/src/com.oracle.truffle.js/src/com/oracle/truffle/js/builtins/temporal/TemporalPlainTimePrototypeBuiltins.java:372-398 | t.since(o) equals o.until(t) for all options |
| PlainTimePrototype.UntilDefaultIsExact | graal-js/src/com.oracle.truffle.js/src/com/oracle/truffle/js/builtins/temporal/TemporalPlainTimePrototypeBuiltins.java:372-398 | with default options until succeeds, its time part is the exact nanosecond distance, and adding it to the receiver gives the other time |
| PlainTimePrototype.DifferenceRoundedToNanosecond | graal-js/src/com.oracle.truffle.js/src/com/oracle/truffle/js/builtins/temporal/TemporalPlainTimePrototypeBuiltins.java:384-390 | with an increment of one nanosecond the difference is exact |
| PlainTimePrototype.AddDistance | graal-js/src/com.oracle.truffle.js/src/com/oracle/truffle/js/builtins/temporal/TemporalPlainTimePrototypeBuiltins.java:266-275 | adding the exact distance to the receiver gives the other time |
| PlainTimePrototype.EqualsIntl | graal-js/src/com.oracle.truffle.js/src/com/oracle/truffle/js/builtins/temporal/TemporalPlainTimePrototypeBuiltins.java:478-498 | true exactly when all six fields are equal |
| PlainTimePrototype.EqualsIsSameInstantOfDay | graal-js/src/com.oracle.truffle.js/src/com/oracle/truffle/js/builtins/temporal/TemporalPlainTimePrototypeBuiltins.java:478-498 | for valid times, equal exactly when the nanoseconds since midnight agree |
| PlainTimePrototype.SecondsStringRounding | graal-js/src/com.oracle.truffle.js/src/com/oracle/truffle/js/builtins/temporal/TemporalPlainTimePrototypeBuiltins.java:631 | a time unit other than hour and an increment dividing the next larger unit; an explicit smallest unit is used with increment 1 |
| PlainTimePrototype.SecondsStringPrecision | graal-js/src/com.oracle.truffle.js/src/com/oracle/truffle/js/builtins/temporal/TemporalPlainTimePrototypeBuiltins.java:631 | n fractional digits round to 10^(9-n) nanoseconds |
| PlainTimePrototype.ToStringRounded | graal-js/src/com.oracle.truffle.js/src/com/oracle/truffle/js/builtins/temporal/TemporalPlainTimePrototypeBuiltins.java:621-636 | smallest unit hour is a RangeError, and every error is a RangeError; it succeeds exactly on valid digits and units; the result is roundTime's time, zero below the unit and a multiple of the increment |
| PlainTimePrototype.ToStringDefaultTruncates | graal-js/src/com.oracle.truffle.js/src/com/oracle/truffle/js/builtins/temporal/TemporalPlainTimePrototypeBuiltins.java:623 | with the default mode (trunc) the printed time is never later than the receiver |
| ZonedAdd.AddDaysToZonedDateTime | graal-js/src/com.oracle.truffle.js/src/com/oracle/truffle/js/nodes/temporal/TemporalAddZonedDateTimeNode.java:107 | in any time zone: no days leave the instant as it is; otherwise the wall-clock date moves by exactly that many epoch days at the same time of day, a date-time out of range is a RangeError, and the result is the zone's `Compatible` instant for it |
| ZonedAdd.AddInstant | graal-js/src/com.oracle.truffle.js/src/com/oracle/truffle/js/nodes/temporal/TemporalAddZonedDateTimeNode.java:99 | succeeds exactly when the sum is a representable instant, which is then norm after the start; otherwise RangeError |
| ZonedAdd.CreatePlainDate | graal-js/src/com.oracle.truffle.js/src/com/oracle/truffle/js/nodes/temporal/TemporalAddZonedDateTimeNode.java:110-111 | succeeds exactly for a valid date in range, which it returns; otherwise RangeError |
| ZonedAdd.CreatePlainDateTime | graal-js/src/com.oracle.truffle.js/src/com/oracle/truffle/js/nodes/temporal/TemporalAddZonedDateTimeNode.java:114-116 | succeeds exactly for a valid date and time in range; otherwise RangeError |
| ZonedAdd.CreateDateDuration | graal-js/src/com.oracle.truffle.js/src/com/oracle/truffle/js/nodes/temporal/TemporalAddZonedDateTimeNode.java:112 | succeeds exactly when the date fields agree in sign; otherwise RangeError |
| ZonedAdd.AddToDatePart | graal-js/src/com.oracle.truffle.js/src/com/oracle/truffle/js/nodes/temporal/TemporalAddZonedDateTimeNode.java:110-116 | any result keeps the time of day, comes from a valid in-range date and sign-consistent fields, and has the calendar's sum as its date |
| ZonedAdd.AddZonedDateTime | graal-js/src/com.oracle.truffle.js/src/com/oracle/truffle/js/nodes/temporal/TemporalAddZonedDateTimeNode.java:98-118 | any result is a representable instant; with no date part the result is the instant plus the time part |
| ZonedAdd.DatePartInstantCalendar | graal-js/src/com.oracle.truffle.js/src/com/oracle/truffle/js/nodes/temporal/TemporalAddZonedDateTimeNode.java:110-117 | with years, months or weeks the date part goes through the calendar and the time zone's compatible resolution |
| ZonedAdd.NormAppliedLast | graal-js/src/com.oracle.truffle.js/src/com/oracle/truffle/js/nodes/temporal/TemporalAddZonedDateTimeNode.java:98-118 | on every path the time part is added last, to the instant that the date part alone reaches |
| ZonedAdd.NormAddedOnce | graal-js/src/com.oracle.truffle.js/src/com/oracle/truffle/js/nodes/temporal/TemporalAddZonedDateTimeNode.java:98-118 | two time parts give results exactly their difference apart when both succeed |
| ZonedAdd.PrecalculatedIsLookup | graal-js/src/com.oracle.truffle.js/src/com/oracle/truffle/js/nodes/temporal/TemporalAddZonedDateTimeNode.java:102-104 | a precalculated date-time equal to the time zone's own gives the same result as none |
| ZonedAdd.OnlyCompatibleResolution | graal-js/src/com.oracle.truffle.js/src/com/oracle/truffle/js/nodes/temporal/TemporalAddZonedDateTimeNode.java:107-117 | two time zones that agree on the start's wall clock and on compatible resolution give the same result |
| ZonedAdd.DaysSaturate | graal-js/src/com.oracle.truffle.js/src/com/oracle/truffle/js/nodes/temporal/TemporalAddZonedDateTimeNode.java:107 | a day count above the 32-bit range acts as its largest value |
| ZonedAdd.AddZonedDateTimeDaysOnly | graal-js/src/com.oracle.truffle.js/src/com/oracle/truffle/js/nodes/temporal/TemporalAddZonedDateTimeNode.java:105-108 | days alone go through addDaysToZonedDateTime on the time zone's wall clock and the time part is added after |
| ZonedAdd.UtcAddDaysToZonedDateTime | graal-js/src/com.oracle.truffle.js/src/com/oracle/truffle/js/nodes/temporal/TemporalAddZonedDateTimeNode.java:107 | in UTC, adding whole days moves the instant by that many times 86400 seconds |
| ZonedAdd.UtcAddDays | graal-js/src/com.oracle.truffle.js/src/com/oracle/truffle/js/nodes/temporal/TemporalAddZonedDateTimeNode.java:105-108 | in UTC, days and a time part move the instant by days*86400 s and then the time part |
| ZonedAdd.UtcAddWeeks | graal-js/src/com.oracle.truffle.js/src/com/oracle/truffle/js/nodes/temporal/TemporalAddZonedDateTimeNode.java:110-118 | in UTC, weeks through the calendar and a time part move the instant by weeks*7*86400 s and then the time part |
| Units.SaturateInt32 | graal-js/src/com.oracle.truffle.js/src/com/oracle/truffle/js/nodes/temporal/TemporalAddZonedDateTimeNode.java:107 | Java's (int) cast of an integral double: values in the 32-bit range are kept, others go to the nearer end |
| ClassProfile.BaseGetJSClass | graal-js/src/com.oracle.truffle.js/src/com/oracle/truffle/js/runtime/util/JSClassProfile.java:66-68 | reference definition for the cached profile: the JSClass recorded in the object's shape |
| ClassProfile.BaseProfile | graal-js/src/com.oracle.truffle.js/src/com/oracle/truffle/js/runtime/util/JSClassProfile.java:70-72 | reference definition for the cached profile: the class it is given, null included |
| ClassProfile.Observe | graal-js/src/com.oracle.truffle.js/src/com/oracle/truffle/js/runtime/util/JSClassProfile.java:98-108 | the state transition, a null class included, keeps the reachable states (polymorphic only with an expected class) |
| ClassProfile.FirstClassRecorded | graal-js/src/com.oracle.truffle.js/src/com/oracle/truffle/js/runtime/util/JSClassProfile.java:86-87 | the first class seen by a fresh profile becomes the expected class |
| ClassProfile.NullKeepsFresh | graal-js/src/com.oracle.truffle.js/src/com/oracle/truffle/js/runtime/util/JSClassProfile.java:98-100 | a null seen by a fresh profile matches its null expected class and leaves it fresh |
| ClassProfile.OtherClassGoesPolymorphic | graal-js/src/com.oracle.truffle.js/src/com/oracle/truffle/js/runtime/util/JSClassProfile.java:88-89 | another class, or a null, makes a monomorphic profile polymorphic and keeps the expected class |
| ClassProfile.ObserveUnchanged | graal-js/src/com.oracle.truffle.js/src/com/oracle/truffle/js/runtime/util/JSClassProfile.java:81-83 | the state is unchanged exactly when the profile is polymorphic or the class is the expected one |
| ClassProfile.ObserveMonotone | graal-js/src/com.oracle.truffle.js/src/com/oracle/truffle/js/runtime/util/JSClassProfile.java:81-92 | the state only moves forward, one step at a time, and an expected class is never replaced |
| ClassProfile.ObserveIdempotent | graal-js/src/com.oracle.truffle.js/src/com/oracle/truffle/js/runtime/util/JSClassProfile.java:81-92 | seeing a class twice in a row is the same as seeing it once |
| ClassProfile.ObserveAll | graal-js/src/com.oracle.truffle.js/src/com/oracle/truffle/js/runtime/util/JSClassProfile.java:79-111 | the state never moves back over a run of observations |
| ClassProfile.PolymorphicAbsorbing | graal-js/src/com.oracle.truffle.js/src/com/oracle/truffle/js/runtime/util/JSClassProfile.java:81 | a polymorphic profile stays as it is, whatever it sees |
| ClassProfile.MonomorphicHistory | graal-js/src/com.oracle.truffle.js/src/com/oracle/truffle/js/runtime/util/JSClassProfile.java:98-108 | a monomorphic profile keeps its class and turns polymorphic exactly when it sees another class or a null |
| ClassProfile.FreshNullsOnly | graal-js/src/com.oracle.truffle.js/src/com/oracle/truffle/js/runtime/util/JSClassProfile.java:98-100 | a fresh profile that has seen only nulls is still fresh |
| ClassProfile.FreshHistory | graal-js/src/com.oracle.truffle.js/src/com/oracle/truffle/js/runtime/util/JSClassProfile.java:98-108 | from a fresh profile, nulls before the first class are ignored, the first class becomes the expected one, and the profile turns polymorphic exactly when something different from it comes later |
| ClassProfile.CachedProfile.constructor | graal-js/src/com.oracle.truffle.js/src/com/oracle/truffle/js/runtime/util/JSClassProfile.java:57-59 | a new cached profile has no expected class and is not polymorphic |
| ClassProfile.CachedProfile.GetJSClass | graal-js/src/com.oracle.truffle.js/src/com/oracle/truffle/js/runtime/util/JSClassProfile.java:79-94 | returns the object's class as the base profile does, and the fields move by one observation of it |
| ClassProfile.CachedProfile.Profile | graal-js/src/com.oracle.truffle.js/src/com/oracle/truffle/js/runtime/util/JSClassProfile.java:97-111 | returns its argument, null included, as the base profile does, and the fields move by one observation of it |
| X509Name.SetProperty | graal-nodejs/src/crypto/crypto_x509.cc:568-580 | fails exactly on an empty value or a failing Set of a defined value; undefined leaves the object unchanged; otherwise the name holds the value and other keys are untouched |
| X509Name.SetElement | graal-nodejs/src/crypto/crypto_x509.cc:582-594 | the same for an array element written at an index up to its length |
| X509Name.GetX509NameObject | graal-nodejs/src/crypto/crypto_x509.cc:599-665 | the loop over the entries, in index order, computes the name object |
| X509Name.FirstValueStored | graal-nodejs/src/crypto/crypto_x509.cc:659-661 | a key seen for the first time holds the value itself |
| X509Name.UndefinedSkipped | graal-nodejs/src/crypto/crypto_x509.cc:576-577 | an undefined value for a new key is skipped and the entry still succeeds |
| X509Name.SecondValuePaired | graal-nodejs/src/crypto/crypto_x509.cc:641-649 | a second value replaces the single value by the pair [old, new] |
| X509Name.FurtherValueAppended | graal-nodejs/src/crypto/crypto_x509.cc:650-655 | a further value is appended to the key's array, whose earlier elements stay as they were |
| X509Name.AnyConversionFailureAborts | graal-nodejs/src/crypto/crypto_x509.cc:619-634 | a failed conversion or Has on any entry makes the whole result empty |
| X509Name.NameObjectSnoc | graal-nodejs/src/crypto/crypto_x509.cc:615-662 | one more entry is one more loop step after all the earlier ones |
| X509Name.ValuesOfNames | graal-nodejs/src/crypto/crypto_x509.cc:626-630 | a name occurs in the entries exactly when it has values, and every value is a string |
| X509Name.GroupedSnoc | graal-nodejs/src/crypto/crypto_x509.cc:636-661 | grouping one more entry changes only the property of that entry's name |
| X509Name.StepGroups | graal-nodejs/src/crypto/crypto_x509.cc:636-661 | one clean loop step turns the grouping of the earlier entries into the grouping including the new one |
| X509Name.NameObjectGroups | graal-nodejs/src/crypto/crypto_x509.cc:596-598 | without failures every name holds its single value or the array of all its values in entry order, and nothing else is present |

## Left out

- Option reading (getOptionsObject, toTemporalOverflow, getRoundingIncrementOption, getSmallestUnit, snapshotOwnProperties) is not modelled as property lookups. `overflow` arrives as a valid `Overflow` value. Rounding modes and units arrive as `Option` values, where `None` means the option is absent. Rounding increments arrive as `Option` numbers, and `PlainTimePrototype.ReadIncrement` checks their range. A units value that is valid as a unit but not allowed for the operation is a RangeError, modelled in `PlainTimePrototype.DifferenceSettings` and `PlainTimePrototype.ToStringRounded`. The RangeError for an option string that names no overflow, rounding mode or unit is not modelled. Nor is its place in the error order: in `dateFromFields` (TemporalCalendarPrototypeBuiltins.java:338-340), overflow is read after the fields are prepared and before the month is resolved.
- The iterator protocol of `fields` is not modelled. The iterable arrives as the finite sequence of its values. Closing the iterator on an error is not modelled.
- Receiver type checks (`invalidReceiver` specialisations) are not modelled. Every receiver is the right Temporal object, and for the calendar it is the ISO-8601 calendar. Non-ISO calendars and calendar method dispatch through user objects are not modelled.
- ToTemporalDate, ToTemporalTime, toPartialTime and ToIntegerWithTruncation on arbitrary JavaScript values are not modelled. A non-Temporal argument arrives with the result of its conversion. A partial time arrives with its fields already converted to integers.
- `toString` output formatting (temporalTimeToString), `toLocaleString`, `toJSON`, `getISOFields`, `toPlainDateTime`, `toZonedDateTime` and `valueOf` are not modelled. Only the option checks and the rounding that precede formatting are modelled.
- Objects are not created (JSTemporalPlainTime.create and its siblings), realms are not modelled, and object identity is not modelled. Results are values; the range checks of creation are modelled where the model calls them.
- ZonedAdd.CreateDateDuration: models only the sign check of createTemporalDuration, not its limits on field magnitude.
- IsoCalendar.DifferenceISODate: for `year` and `month` the contract bounds the fields but does not state that the result is the largest whole number of years and months. Round trips and antisymmetry are proved only for weeks and days.
- ZonedAdd.UtcAddDays: proved only for the UTC time zone and a duration of days alone. ZonedAdd.UtcAddWeeks covers weeks alone. For other time zones the model is generic in the time zone, and only structural properties are proved: the order of steps, the equivalence of a precalculated date-time, and dependence on `Compatible` resolution only.
- Time zone rules (the IANA database, offset transitions, disambiguation other than `Compatible`) are not modelled. The time zone enters as two functions.
- The TemporalUtil helpers (addISODate, differenceISODate, balanceTimeDuration, roundTime, addDaysToZonedDateTime, addInstant) are defined after the Temporal proposal rather than transcribed from their Java bodies. builtinTimeZoneGetInstantFor is not modelled beyond the `instantFor` function that a `TimeZone` carries.
- CalendarPrototype.AddDurationToDate: takes the whole days of the time part as a truncated quotient rather than through balanceTimeDuration(norm, day). TimeMath.BalanceTimeDurationWholeDays proves the two agree.
- Floating point is not modelled. The Java code holds Temporal field values as `double` and `int`; the model uses unbounded integers, with the `(int)` casts made explicit by `SaturateInt32`. Duration fields outside the range of a `double` are not modelled.
- JIT profiling hooks are not modelled: `CompilerDirectives.transferToInterpreterAndInvalidate`, `@CompilationFinal`, and the profile's `toString`. The uncached profile (`UNCACHED`) behaves as the base profile, modelled by `BaseGetJSClass` and `BaseProfile`.
- OpenSSL and V8 are not modelled. For `GetX509NameObject`, the X509_NAME entries arrive as a sequence with the outcome of ToV8Value for each name and value. Engine call failures (Has, Get, Set) come from a fault function over the entry index and the call.
- ClassProfile.CachedProfile.GetJSClass: the JSClass recorded in a shape is never null, so only `Profile` is given nulls.
- X509Name.SetElement: writes only at an index up to the array's length. Holes from writes past the end are not modelled, since the caller only appends.
- Arrays in the name object are values written back into the result map, so aliasing of the JavaScript array object is not modelled. The null prototype of the result object is not modelled either. The result is a `map`, so the insertion order of the object's own keys is not modelled. In the engine that order follows the first successfully stored entry of each name, and `Object.keys` shows it.
