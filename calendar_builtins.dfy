/** The `Temporal.Calendar.prototype` methods of the ISO-8601 calendar:
    `fields`, the three `…FromFields` constructors, `dateAdd`, `dateUntil`
    and the field queries. Arguments arrive already classified: a date-like
    argument is one of the Temporal types or "anything else" together with
    the outcome of converting it to a PlainDate. */
module CalendarPrototype {
  import opened Wrappers
  import opened Units
  import opened Arithmetic
  import opened IsoCalendar
  import opened TimeMath

  // ---------------------------------------------------------------------------
  // fields

  /** One value produced by the iterable passed to `fields`. */
  datatype FieldItem = StringItem(s: string) | NonStringItem

  /** The field names the ISO calendar knows. */
  predicate IsCalendarFieldName(s: string) {
    s == "year" || s == "month" || s == "monthCode" || s == "day"
  }

  /** The first `k` items are strings naming calendar fields, none of them repeated. */
  predicate AcceptedPrefix(items: seq<FieldItem>, k: int)
    requires 0 <= k <= |items|
  {
    forall i :: 0 <= i < k ==>
      && items[i].StringItem? && IsCalendarFieldName(items[i].s)
      && forall j :: 0 <= j < i ==> items[j] != items[i]
  }

  /** `fields`: copies the iterated names into a new list, in order. The first
      item that is not a string is a TypeError; the first repeated or unknown
      name is a RangeError. */
  method Fields(items: seq<FieldItem>) returns (r: Result<seq<string>>)
    ensures r.Ok? <==> AcceptedPrefix(items, |items|)
    ensures r.Ok? ==> |r.value| == |items| && forall i :: 0 <= i < |items| ==> items[i] == StringItem(r.value[i])
    ensures r.Ok? ==> forall i :: 0 <= i < |r.value| ==> IsCalendarFieldName(r.value[i])
    ensures r.Ok? ==> forall i, j :: 0 <= i < j < |r.value| ==> r.value[i] != r.value[j]
    ensures r.Err? ==> exists k :: 0 <= k < |items| && AcceptedPrefix(items, k) && !AcceptedPrefix(items, k + 1)
                                   && r.error == (if items[k].NonStringItem? then TypeError else RangeError)
  {
    var fieldNames: seq<string> := [];
    var n := 0;
    while n < |items|
      invariant 0 <= n <= |items|
      invariant AcceptedPrefix(items, n)
      invariant |fieldNames| == n && forall i :: 0 <= i < n ==> items[i] == StringItem(fieldNames[i])
    {
      match items[n]
      case NonStringItem =>
        assert !AcceptedPrefix(items, n + 1);
        return Err(TypeError);
      case StringItem(str) =>
        if str in fieldNames {
          var j :| 0 <= j < n && fieldNames[j] == str;
          assert items[j] == items[n];
          assert !AcceptedPrefix(items, n + 1);
          return Err(RangeError);
        }
        if !IsCalendarFieldName(str) {
          assert !AcceptedPrefix(items, n + 1);
          return Err(RangeError);
        }
        fieldNames := fieldNames + [str];
      n := n + 1;
    }
    r := Ok(fieldNames);
    forall i, j | 0 <= i < j < |fieldNames|
      ensures fieldNames[i] != fieldNames[j]
    {
      assert items[i] != items[j];
    }
  }

  /** The distinct calendar field names of a list. */
  function NameSet(names: seq<string>): (r: set<string>)
    ensures forall s :: s in r <==> s in names
  {
    if names == [] then {} else {names[0]} + NameSet(names[1..])
  }

  /** A list without repetitions has as many distinct names as elements. */
  lemma {:induction false} NameSetOfDistinct(names: seq<string>)
    requires forall i, j :: 0 <= i < j < |names| ==> names[i] != names[j]
    ensures |NameSet(names)| == |names|
  {
    if names != [] {
      NameSetOfDistinct(names[1..]);
      assert names[0] !in names[1..];
    }
  }

  /** A successful `fields` result names each calendar field at most once, so
      it has at most four elements. */
  lemma FieldsAtMostFour(names: seq<string>)
    requires forall i :: 0 <= i < |names| ==> IsCalendarFieldName(names[i])
    requires forall i, j :: 0 <= i < j < |names| ==> names[i] != names[j]
    ensures |names| <= 4
  {
    NameSetOfDistinct(names);
    var all: set<string> := {"year", "month", "monthCode", "day"};
    forall s | s in NameSet(names)
      ensures s in all
    {
      var i :| 0 <= i < |names| && names[i] == s;
      assert IsCalendarFieldName(names[i]);
    }
    SubsetCardinality(NameSet(names), all);
    assert |all| <= 4;
  }

  lemma {:induction false} SubsetCardinality<T>(a: set<T>, b: set<T>)
    requires a <= b
    ensures |a| <= |b|
  {
    if a != {} {
      var x :| x in a;
      SubsetCardinality(a - {x}, b - {x});
    }
  }

  // ---------------------------------------------------------------------------
  // Reading fields: prepareTemporalFields and the month resolution

  datatype FieldName = YearField | MonthField | MonthCodeField | DayField

  /** The calendar fields of a property bag, each present or absent. The
      values are taken as already converted (integers, and a string for the
      month code). */
  datatype FieldBag = FieldBag(year: Option<int>, month: Option<int>, monthCode: Option<string>, day: Option<int>)

  /** The `fields` argument of the `…FromFields` methods. */
  datatype FieldsArg = NotAnObject | FieldsObject(bag: FieldBag)

  predicate Has(bag: FieldBag, name: FieldName) {
    match name
    case YearField => bag.year.Some?
    case MonthField => bag.month.Some?
    case MonthCodeField => bag.monthCode.Some?
    case DayField => bag.day.Some?
  }

  /** The bag with the fields outside `keep` removed. */
  function Restrict(bag: FieldBag, keep: set<FieldName>): (r: FieldBag)
    ensures forall n :: Has(r, n) <==> n in keep && Has(bag, n)
  {
    FieldBag(if YearField in keep then bag.year else None,
             if MonthField in keep then bag.month else None,
             if MonthCodeField in keep then bag.monthCode else None,
             if DayField in keep then bag.day else None)
  }

  /** A month or a day, where present, is a positive integer. */
  predicate PositiveParts(f: FieldBag) {
    (f.month.Some? ==> f.month.value >= 1) && (f.day.Some? ==> f.day.value >= 1)
  }

  /** Reading one listed field: absent and required is a TypeError, and a
      month or day below 1 is a RangeError (ToPositiveIntegerWithTruncation). */
  function ReadField(bag: FieldBag, keep: set<FieldName>, required: set<FieldName>, name: FieldName): Result<()>
  {
    if name !in keep then Ok(())
    else if !Has(bag, name) then (if name in required then Err(TypeError) else Ok(()))
    else if name == DayField && bag.day.value < 1 then Err(RangeError)
    else if name == MonthField && bag.month.value < 1 then Err(RangeError)
    else Ok(())
  }

  /** prepareTemporalFields: reads the listed fields in the order day, month,
      monthCode, year and stops at the first error: a missing required field
      is a TypeError, a month or day below 1 a RangeError. */
  function PrepareFields(bag: FieldBag, keep: set<FieldName>, required: set<FieldName>): (r: Result<FieldBag>)
    requires required <= keep
    ensures r.Ok? <==> (forall n :: n in required ==> Has(bag, n)) && PositiveParts(Restrict(bag, keep))
    ensures r.Ok? ==> r.value == Restrict(bag, keep)
    ensures r == Err(TypeError) ==> exists n :: n in required && !Has(bag, n)
    ensures r == Err(RangeError) ==> !PositiveParts(Restrict(bag, keep))
    ensures !PositiveParts(Restrict(bag, keep)) && (DayField in required ==> Has(bag, DayField)) ==> r == Err(RangeError)
    ensures DayField in required && !Has(bag, DayField) ==> r == Err(TypeError)
  {
    var _ :- ReadField(bag, keep, required, DayField);
    var _ :- ReadField(bag, keep, required, MonthField);
    var _ :- ReadField(bag, keep, required, MonthCodeField);
    var _ :- ReadField(bag, keep, required, YearField);
    Ok(Restrict(bag, keep))
  }

  /** isoResolveMonth: the month number from `month` and `monthCode`. With no
      month code the month is required (TypeError); a month code must be
      well formed (RangeError) and agree with a month that is also given
      (RangeError). */
  function ResolveMonth(f: FieldBag): (r: Result<int>)
    ensures f.monthCode.None? ==> r == if f.month.Some? then Ok(f.month.value) else Err(TypeError)
    ensures f.monthCode.Some? ==>
      (r.Ok? <==> ParseMonthCode(f.monthCode.value).Ok? && (f.month.None? || f.month.value == ParseMonthCode(f.monthCode.value).value))
    ensures f.monthCode.Some? && r.Ok? ==> r == ParseMonthCode(f.monthCode.value) && 1 <= r.value <= 12
    ensures f.monthCode.Some? && r.Err? ==> r.error == RangeError
  {
    match f.monthCode
    case None => if f.month.Some? then Ok(f.month.value) else Err(TypeError)
    case Some(code) =>
      var number :- ParseMonthCode(code);
      if f.month.Some? && f.month.value != number then Err(RangeError) else Ok(number)
  }

  /** A month code and the month number it names resolve alike. */
  lemma ResolveMonthCodeOrNumber(year: Option<int>, month: int, day: Option<int>)
    requires 1 <= month <= 12
    ensures ResolveMonth(FieldBag(year, None, Some(BuildMonthCode(month)), day)) == Ok(month)
    ensures ResolveMonth(FieldBag(year, Some(month), Some(BuildMonthCode(month)), day)) == Ok(month)
    ensures ResolveMonth(FieldBag(year, Some(month), None, day)) == Ok(month)
  {
    ParseBuiltMonthCode(month);
  }

  // ---------------------------------------------------------------------------
  // dateFromFields, yearMonthFromFields, monthDayFromFields

  /** A PlainYearMonth: the month of a year, with the ISO day used as reference. */
  datatype YearMonth = YearMonth(year: int, month: int, referenceDay: int)

  /** A PlainMonthDay: a day of a month, with the ISO year used as reference. */
  datatype MonthDay = MonthDay(month: int, day: int, referenceYear: int)

  /** The reference year of a PlainMonthDay, the first leap year after 1970. */
  const ReferenceYear: int := 1972

  /** dateFromFields: year and day are required and a month or day below 1
      is refused, the month is resolved, the date is regulated under
      `overflow` and must lie in the PlainDate range. */
  function DateFromFields(fields: FieldsArg, overflow: Overflow): (r: Result<Date>)
    ensures fields.NotAnObject? ==> r == Err(TypeError)
    ensures fields.FieldsObject? && fields.bag.day.None? ==> r == Err(TypeError)
    ensures fields.FieldsObject? && fields.bag.year.None? && PositiveParts(fields.bag) ==> r == Err(TypeError)
    ensures fields.FieldsObject? && fields.bag.day.Some? && !PositiveParts(fields.bag) ==> r == Err(RangeError)
    ensures r.Ok? ==> PositiveParts(fields.bag)
    ensures r.Ok? ==> IsValidDate(r.value) && DateWithinLimits(r.value) && r.value.year == fields.bag.year.value
    ensures r.Ok? && fields.bag.monthCode.None? && fields.bag.month.Some? && 1 <= fields.bag.month.value <= 12
                  && 1 <= fields.bag.day.value <= DaysInMonth(fields.bag.year.value, fields.bag.month.value)
            ==> r.value == Date(fields.bag.year.value, fields.bag.month.value, fields.bag.day.value)
  {
    match fields
    case NotAnObject => Err(TypeError)
    case FieldsObject(bag) =>
      var f :- PrepareFields(bag, {DayField, MonthField, MonthCodeField, YearField}, {YearField, DayField});
      var month :- ResolveMonth(f);
      var date :- RegulateDate(f.year.value, month, f.day.value, overflow);
      if DateWithinLimits(date) then Ok(date) else Err(RangeError)
  }

  /** The fields of a date in range build that date again, whether the month
      is given as a number or as a month code, under either overflow. */
  lemma DateFromFieldsRoundTrip(date: Date, overflow: Overflow)
    requires IsValidDate(date) && DateWithinLimits(date)
    ensures DateFromFields(FieldsObject(FieldBag(Some(date.year), Some(date.month), None, Some(date.day))), overflow) == Ok(date)
    ensures DateFromFields(FieldsObject(FieldBag(Some(date.year), None, Some(BuildMonthCode(date.month)), Some(date.day))), overflow) == Ok(date)
  {
    ResolveMonthCodeOrNumber(Some(date.year), date.month, Some(date.day));
  }

  /** With `Reject` a day past the end of the month is a RangeError; with
      `Constrain` it becomes the last day. */
  lemma DateFromFieldsExample()
    ensures DateFromFields(FieldsObject(FieldBag(Some(2023), Some(2), None, Some(29))), Reject) == Err(RangeError)
    ensures DateFromFields(FieldsObject(FieldBag(Some(2023), Some(2), None, Some(29))), Constrain) == Ok(Date(2023, 2, 28))
    ensures DateFromFields(FieldsObject(FieldBag(Some(2023), Some(3), Some("M02"), Some(1))), Constrain) == Err(RangeError)
  {
    assert DaysInMonth(2023, 2) == 28;
    assert DateWithinLimits(Date(2023, 2, 28)) by {
      DateWithinLimitsDays(Date(2023, 2, 28));
      DaysBeforeYearMonotone(1970, 2023);
      DaysBeforeYearMonotone(2023, 2024);
      EpochDaysWithinYear(Date(2023, 2, 28));
    }
    ParseBuiltMonthCode(2);
    assert BuildMonthCode(2) == "M02";
  }

  /** A month or day below 1 is refused before it could be constrained, and
      before a missing year is noticed. */
  lemma NonPositiveFieldsExample()
    ensures DateFromFields(FieldsObject(FieldBag(Some(2023), Some(0), None, Some(1))), Constrain) == Err(RangeError)
    ensures DateFromFields(FieldsObject(FieldBag(Some(2023), Some(5), None, Some(0))), Constrain) == Err(RangeError)
    ensures DateFromFields(FieldsObject(FieldBag(None, Some(5), None, Some(0))), Constrain) == Err(RangeError)
    ensures YearMonthFromFields(FieldsObject(FieldBag(Some(2023), Some(-3), None, None)), Constrain) == Err(RangeError)
    ensures MonthDayFromFields(FieldsObject(FieldBag(None, None, Some("M03"), Some(0))), Constrain) == Err(RangeError)
  {
  }

  /** isoYearMonthFromFields: the month is clamped into 1..12 (`Constrain`)
      or must already be there (`Reject`). */
  function RegulateYearMonth(month: int, overflow: Overflow): (r: Result<int>)
    ensures r.Ok? ==> 1 <= r.value <= 12
    ensures 1 <= month <= 12 ==> r == Ok(month)
    ensures overflow == Constrain ==> r == Ok(Clamp(month, 1, 12))
    ensures overflow == Reject && !(1 <= month <= 12) ==> r == Err(RangeError)
  {
    match overflow
    case Constrain => Ok(Clamp(month, 1, 12))
    case Reject => if 1 <= month <= 12 then Ok(month) else Err(RangeError)
  }

  /** yearMonthFromFields: only the year is required and a month below 1 is
      refused; the day is not read and the reference day is 1. */
  function YearMonthFromFields(fields: FieldsArg, overflow: Overflow): (r: Result<YearMonth>)
    ensures fields.NotAnObject? ==> r == Err(TypeError)
    ensures fields.FieldsObject? && fields.bag.year.None? && PositiveParts(fields.bag.(day := None)) ==> r == Err(TypeError)
    ensures fields.FieldsObject? && !PositiveParts(fields.bag.(day := None)) ==> r == Err(RangeError)
    ensures r.Ok? ==> r.value.year == fields.bag.year.value && r.value.referenceDay == 1
    ensures r.Ok? ==> 1 <= r.value.month <= 12 && YearMonthWithinLimits(r.value.year, r.value.month)
  {
    match fields
    case NotAnObject => Err(TypeError)
    case FieldsObject(bag) =>
      var f :- PrepareFields(bag, {MonthField, MonthCodeField, YearField}, {YearField});
      var month :- ResolveMonth(f);
      var m :- RegulateYearMonth(month, overflow);
      if YearMonthWithinLimits(f.year.value, m) then Ok(YearMonth(f.year.value, m, 1)) else Err(RangeError)
  }

  /** yearMonthFromFields does not look at the day. */
  lemma YearMonthFromFieldsIgnoresDay(bag: FieldBag, day: Option<int>, overflow: Overflow)
    ensures YearMonthFromFields(FieldsObject(bag.(day := day)), overflow) == YearMonthFromFields(FieldsObject(bag), overflow)
  {
    assert Restrict(bag.(day := day), {MonthField, MonthCodeField, YearField})
        == Restrict(bag, {MonthField, MonthCodeField, YearField});
  }

  /** The month of a PlainMonthDay is valid in the leap reference year whenever it is valid in some year. */
  lemma ReferenceYearHoldsEveryDay(year: int, month: int)
    requires 1 <= month <= 12
    ensures DaysInMonth(year, month) <= DaysInMonth(ReferenceYear, month)
  {
    assert IsLeapYear(ReferenceYear);
  }

  /** monthDayFromFields: only the day is required, and a month or day below
      1 is refused. A month number needs a
      month code or a year beside it (TypeError); without a month code the
      day is regulated in the given year, otherwise in the reference year. */
  function MonthDayFromFields(fields: FieldsArg, overflow: Overflow): (r: Result<MonthDay>)
    ensures fields.NotAnObject? ==> r == Err(TypeError)
    ensures fields.FieldsObject? && fields.bag.day.None? ==> r == Err(TypeError)
    ensures fields.FieldsObject? && fields.bag.day.Some? && !PositiveParts(fields.bag) ==> r == Err(RangeError)
    ensures fields.FieldsObject? && fields.bag.monthCode.None? && fields.bag.year.None? && PositiveParts(fields.bag) ==> r == Err(TypeError)
    ensures r.Ok? ==> PositiveParts(fields.bag)
    ensures r.Ok? ==> r.value.referenceYear == ReferenceYear && IsValidDate(Date(ReferenceYear, r.value.month, r.value.day))
  {
    match fields
    case NotAnObject => Err(TypeError)
    case FieldsObject(bag) =>
      var f :- PrepareFields(bag, {DayField, MonthField, MonthCodeField, YearField}, {DayField});
      var month :- ResolveMonth(f);
      if f.monthCode.None? && f.year.None? then Err(TypeError)
      else
        var year := if f.monthCode.None? then f.year.value else ReferenceYear;
        var date :- RegulateDate(year, month, f.day.value, overflow);
        ReferenceYearHoldsEveryDay(year, date.month);
        Ok(MonthDay(date.month, date.day, ReferenceYear))
  }

  /** February 29 is kept with a month code, but constrained to the 28th in a common year. */
  lemma MonthDayFromFieldsExample()
    ensures MonthDayFromFields(FieldsObject(FieldBag(None, None, Some("M02"), Some(29))), Reject) == Ok(MonthDay(2, 29, 1972))
    ensures MonthDayFromFields(FieldsObject(FieldBag(Some(2023), Some(2), None, Some(29))), Constrain) == Ok(MonthDay(2, 28, 1972))
    ensures MonthDayFromFields(FieldsObject(FieldBag(None, Some(2), None, Some(29))), Constrain) == Err(TypeError)
  {
    ParseBuiltMonthCode(2);
    assert BuildMonthCode(2) == "M02";
    assert DaysInMonth(1972, 2) == 29;
    assert DaysInMonth(2023, 2) == 28;
  }

  // ---------------------------------------------------------------------------
  // Date-like arguments and the field queries

  /** The argument of a query. `DateTimeArg` carries only the date part: no
      query reads the time. `OtherArg` is any other value, with the outcome of
      converting it to a PlainDate. */
  datatype DateLike =
    | DateArg(date: Date)
    | DateTimeArg(date: Date)
    | YearMonthArg(yearMonth: YearMonth)
    | MonthDayArg(monthDay: MonthDay)
    | OtherArg(converted: Result<Date>)

  /** What the runtime guarantees of a Temporal object: its ISO fields form a
      valid date in range (a conversion only ever yields such dates). */
  predicate ValidDateLike(x: DateLike) {
    match x
    case DateArg(d) => IsValidDate(d) && DateWithinLimits(d)
    case DateTimeArg(d) => IsValidDate(d) && DateWithinLimits(d)
    case YearMonthArg(ym) => IsValidDate(Date(ym.year, ym.month, ym.referenceDay))
    case MonthDayArg(md) => IsValidDate(Date(md.referenceYear, md.month, md.day))
    case OtherArg(c) => c.Ok? ==> IsValidDate(c.value) && DateWithinLimits(c.value)
  }

  /** ToTemporalDate. A PlainYearMonth has no day and a PlainMonthDay no year,
      so building a date from their fields is a TypeError. */
  function ToTemporalDate(x: DateLike): (r: Result<Date>)
    requires ValidDateLike(x)
    ensures r.Ok? ==> IsValidDate(r.value) && DateWithinLimits(r.value)
    ensures x.YearMonthArg? || x.MonthDayArg? ==> r == Err(TypeError)
  {
    match x
    case DateArg(d) => Ok(d)
    case DateTimeArg(d) => Ok(d)
    case YearMonthArg(_) => Err(TypeError)
    case MonthDayArg(_) => Err(TypeError)
    case OtherArg(c) => c
  }

  /** `year`: read from a PlainDate, PlainDateTime or PlainYearMonth; anything else is converted. */
  function YearOf(x: DateLike): (r: Result<int>)
    requires ValidDateLike(x)
    ensures ToTemporalDate(x).Ok? ==> r == Ok(ToTemporalDate(x).value.year)
    ensures x.YearMonthArg? ==> r == Ok(x.yearMonth.year)
    ensures x.MonthDayArg? ==> r == Err(TypeError)
    ensures x.OtherArg? ==> r == if x.converted.Ok? then Ok(x.converted.value.year) else Err(x.converted.error)
  {
    match x
    case DateArg(d) => Ok(d.year)
    case DateTimeArg(d) => Ok(d.year)
    case YearMonthArg(ym) => Ok(ym.year)
    case MonthDayArg(_) => Err(TypeError)
    case OtherArg(_) =>
      var date :- ToTemporalDate(x);
      Ok(date.year)
  }

  /** `month`: a PlainMonthDay is refused with a TypeError before any conversion. */
  function MonthOf(x: DateLike): (r: Result<int>)
    requires ValidDateLike(x)
    ensures ToTemporalDate(x).Ok? ==> r == Ok(ToTemporalDate(x).value.month)
    ensures x.YearMonthArg? ==> r == Ok(x.yearMonth.month)
    ensures x.MonthDayArg? ==> r == Err(TypeError)
    ensures r.Ok? ==> 1 <= r.value <= 12
  {
    match x
    case DateArg(d) => Ok(d.month)
    case DateTimeArg(d) => Ok(d.month)
    case YearMonthArg(ym) => Ok(ym.month)
    case MonthDayArg(_) => Err(TypeError)
    case OtherArg(_) =>
      var date :- ToTemporalDate(x);
      Ok(date.month)
  }

  /** `monthCode`: accepts every Temporal type, a PlainMonthDay included. */
  function MonthCodeOf(x: DateLike): (r: Result<string>)
    requires ValidDateLike(x)
    ensures x.MonthDayArg? ==> r == Ok(BuildMonthCode(x.monthDay.month))
    ensures !x.MonthDayArg? ==> (r.Ok? <==> MonthOf(x).Ok?)
    ensures MonthOf(x).Ok? ==> r == Ok(BuildMonthCode(MonthOf(x).value))
    ensures r.Ok? ==> ParseMonthCode(r.value).Ok?
  {
    var month :- match x
      case DateArg(d) => Ok(d.month)
      case DateTimeArg(d) => Ok(d.month)
      case YearMonthArg(ym) => Ok(ym.month)
      case MonthDayArg(md) => Ok(md.month)
      case OtherArg(_) =>
        var date :- ToTemporalDate(x);
        Ok(date.month);
    ParseBuiltMonthCode(month);
    Ok(BuildMonthCode(month))
  }

  /** The month code of anything with a month names that month, and nothing else. */
  lemma MonthCodeNamesMonth(x: DateLike)
    requires ValidDateLike(x) && MonthOf(x).Ok?
    ensures ParseMonthCode(MonthCodeOf(x).value) == MonthOf(x)
  {
    ParseBuiltMonthCode(MonthOf(x).value);
  }

  /** `day`: read from a PlainDate, PlainDateTime or PlainMonthDay; a PlainYearMonth fails conversion. */
  function DayOf(x: DateLike): (r: Result<int>)
    requires ValidDateLike(x)
    ensures ToTemporalDate(x).Ok? ==> r == Ok(ToTemporalDate(x).value.day)
    ensures x.MonthDayArg? ==> r == Ok(x.monthDay.day)
    ensures x.YearMonthArg? ==> r == Err(TypeError)
    ensures r.Ok? ==> r.value >= 1
  {
    match x
    case DateArg(d) => Ok(d.day)
    case DateTimeArg(d) => Ok(d.day)
    case MonthDayArg(md) => Ok(md.day)
    case YearMonthArg(_) => Err(TypeError)
    case OtherArg(_) =>
      var date :- ToTemporalDate(x);
      Ok(date.day)
  }

  /** The queries that need a full date convert their argument first: they
      succeed exactly when the conversion does, and fail with its error. */
  predicate FailsLikeConversion<T>(x: DateLike, r: Result<T>)
    requires ValidDateLike(x)
  {
    (r.Ok? <==> ToTemporalDate(x).Ok?) && (r.Err? ==> r.error == ToTemporalDate(x).error)
  }

  /** `dayOfWeek`: 1 for Monday through 7 for Sunday. */
  function DayOfWeekOf(x: DateLike): (r: Result<int>)
    requires ValidDateLike(x)
    ensures FailsLikeConversion(x, r)
    ensures r.Ok? ==> 1 <= r.value <= 7 && r.value == DayOfWeek(ToTemporalDate(x).value)
  {
    var date :- ToTemporalDate(x);
    Ok(DayOfWeek(date))
  }

  /** `dayOfYear`: 1 for January 1st. */
  function DayOfYearOf(x: DateLike): (r: Result<int>)
    requires ValidDateLike(x)
    ensures FailsLikeConversion(x, r)
    ensures r.Ok? ==> 1 <= r.value <= DaysInYear(ToTemporalDate(x).value.year)
    ensures r.Ok? ==> r.value == EpochDays(ToTemporalDate(x).value) - EpochDays(Date(ToTemporalDate(x).value.year, 1, 1)) + 1
  {
    var date :- ToTemporalDate(x);
    assert EpochDays(Date(date.year, 1, 1)) == DaysBeforeYear(date.year);
    Ok(DayOfYear(date))
  }

  /** `weekOfYear`: the ISO week number, the week of the year its Thursday falls in. */
  function WeekOfYearOf(x: DateLike): (r: Result<int>)
    requires ValidDateLike(x)
    ensures FailsLikeConversion(x, r)
    ensures r.Ok? ==> 1 <= r.value <= 53 && r.value == WeekOfThursday(ToTemporalDate(x).value).week
  {
    var date :- ToTemporalDate(x);
    ToISOWeekOfYearIsThursdayRule(date);
    Ok(ToISOWeekOfYear(date).week)
  }

  /** `yearOfWeek`: the year the ISO week belongs to, the year of its Thursday. */
  function YearOfWeekOf(x: DateLike): (r: Result<int>)
    requires ValidDateLike(x)
    ensures FailsLikeConversion(x, r)
    ensures r.Ok? ==> r.value == ThursdayOfWeek(ToTemporalDate(x).value).year
    ensures r.Ok? ==> ToTemporalDate(x).value.year - 1 <= r.value <= ToTemporalDate(x).value.year + 1
  {
    var date :- ToTemporalDate(x);
    ToISOWeekOfYearIsThursdayRule(date);
    Ok(ToISOWeekOfYear(date).year)
  }

  /** `daysInWeek`: always 7, but the argument is still converted. */
  function DaysInWeekOf(x: DateLike): (r: Result<int>)
    requires ValidDateLike(x)
    ensures FailsLikeConversion(x, r)
    ensures r.Ok? ==> r.value == 7
  {
    var _ :- ToTemporalDate(x);
    Ok(7)
  }

  /** `daysInMonth`: the length of the argument's month in its year. */
  function DaysInMonthOf(x: DateLike): (r: Result<int>)
    requires ValidDateLike(x)
    ensures r.Ok? <==> YearOf(x).Ok? && MonthOf(x).Ok?
    ensures r.Ok? ==> r.value == DaysInMonth(YearOf(x).value, MonthOf(x).value)
    ensures r.Err? && !x.MonthDayArg? ==> r.error == YearOf(x).error
    ensures x.MonthDayArg? ==> r == Err(TypeError)
  {
    match x
    case DateArg(d) => Ok(DaysInMonth(d.year, d.month))
    case DateTimeArg(d) => Ok(DaysInMonth(d.year, d.month))
    case YearMonthArg(ym) => Ok(DaysInMonth(ym.year, ym.month))
    case _ =>
      var date :- ToTemporalDate(x);
      Ok(DaysInMonth(date.year, date.month))
  }

  /** Two arguments in the same month of the same year have the same month length. */
  lemma DaysInMonthOnlyYearAndMonth(x: DateLike, y: DateLike)
    requires ValidDateLike(x) && ValidDateLike(y)
    requires YearOf(x).Ok? && MonthOf(x).Ok? && YearOf(x) == YearOf(y) && MonthOf(x) == MonthOf(y)
    ensures DaysInMonthOf(x) == DaysInMonthOf(y)
  {
  }

  /** `daysInYear`: 365 or 366. */
  function DaysInYearOf(x: DateLike): (r: Result<int>)
    requires ValidDateLike(x)
    ensures r.Ok? <==> YearOf(x).Ok?
    ensures r.Ok? ==> r.value == DaysInYear(YearOf(x).value)
    ensures r.Err? ==> r.error == YearOf(x).error
  {
    var year :- YearOf(x);
    Ok(DaysInYear(year))
  }

  /** `inLeapYear`: whether the argument's year has 366 days. */
  function InLeapYearOf(x: DateLike): (r: Result<bool>)
    requires ValidDateLike(x)
    ensures r.Ok? <==> YearOf(x).Ok?
    ensures r.Ok? ==> (r.value <==> IsLeapYear(YearOf(x).value))
    ensures r.Err? ==> r.error == YearOf(x).error
  {
    var year :- YearOf(x);
    Ok(IsLeapYear(year))
  }

  /** daysInYear is 366 exactly when inLeapYear holds, and both fail together. */
  lemma DaysInYearAgreesWithInLeapYear(x: DateLike)
    requires ValidDateLike(x)
    ensures DaysInYearOf(x).Ok? <==> InLeapYearOf(x).Ok?
    ensures DaysInYearOf(x).Ok? ==> (DaysInYearOf(x).value == 366 <==> InLeapYearOf(x).value)
    ensures DaysInYearOf(x).Ok? ==> DaysInYearOf(x).value == 365 || DaysInYearOf(x).value == 366
  {
    if YearOf(x).Ok? {
      LeapYearLengths(YearOf(x).value);
    }
  }

  /** `monthsInYear`: always 12; only arguments that are not a PlainDate,
      PlainDateTime or PlainYearMonth are converted, and can fail. */
  function MonthsInYearOf(x: DateLike): (r: Result<int>)
    requires ValidDateLike(x)
    ensures r.Ok? ==> r.value == 12
    ensures x.DateArg? || x.DateTimeArg? || x.YearMonthArg? ==> r == Ok(12)
    ensures x.MonthDayArg? || x.OtherArg? ==> FailsLikeConversion(x, r)
  {
    if x.DateArg? || x.DateTimeArg? || x.YearMonthArg? then Ok(12)
    else
      var _ :- ToTemporalDate(x);
      Ok(12)
  }

  // ---------------------------------------------------------------------------
  // dateAdd and dateUntil

  /** addISODate followed by the PlainDate range check. */
  function AddDateInRange(date: Date, years: int, months: int, weeks: int, days: int, overflow: Overflow): (r: Result<Date>)
    ensures r.Ok? ==> IsValidDate(r.value) && DateWithinLimits(r.value)
    ensures var sum := AddISODate(date, years, months, weeks, days, overflow);
      (sum.Err? ==> r == sum) && (sum.Ok? ==> r == if DateWithinLimits(sum.value) then sum else Err(RangeError))
  {
    var result :- AddISODate(date, years, months, weeks, days, overflow);
    if DateWithinLimits(result) then Ok(result) else Err(RangeError)
  }

  /** The addition behind dateAdd: the whole days of the duration's time part
      join the duration's days, and a remainder under one day is dropped.
      The Java code takes those days from balanceTimeDuration(norm, day);
      TimeMath.BalanceTimeDurationWholeDays proves that they are the
      truncated quotient used here. */
  function AddDurationToDate(date: Date, duration: Duration, overflow: Overflow): (r: Result<Date>)
    ensures r.Ok? ==> IsValidDate(r.value) && DateWithinLimits(r.value)
  {
    AddDateInRange(date, duration.years, duration.months, duration.weeks, WholeDays(duration), overflow)
  }

  /** The days dateAdd moves by: the duration's days and the whole days of its
      time part, truncated towards zero. */
  function WholeDays(duration: Duration): (r: int)
    ensures -NsPerDay < TimePartNs(duration) < NsPerDay ==> r == duration.days
    ensures TimePartNs(duration) >= 0 ==> duration.days <= r
    ensures TimePartNs(duration) <= 0 ==> r <= duration.days
  {
    TruncDivOfSmall(TimePartNs(duration), NsPerDay);
    duration.days + TruncDiv(TimePartNs(duration), NsPerDay)
  }

  /** The result depends on the duration only through its years, months, weeks and whole days. */
  lemma AddDurationToDateWholeDays(date: Date, a: Duration, b: Duration, overflow: Overflow)
    requires a.years == b.years && a.months == b.months && a.weeks == b.weeks
    requires WholeDays(a) == WholeDays(b)
    ensures AddDurationToDate(date, a, overflow) == AddDurationToDate(date, b, overflow)
  {
  }

  /** dateAdd: converts its argument to a PlainDate, then adds the duration. */
  function DateAdd(x: DateLike, duration: Duration, overflow: Overflow): (r: Result<Date>)
    requires ValidDateLike(x)
    ensures ToTemporalDate(x).Err? ==> r == Err(ToTemporalDate(x).error)
    ensures ToTemporalDate(x).Ok? ==> r == AddDurationToDate(ToTemporalDate(x).value, duration, overflow)
  {
    var date :- ToTemporalDate(x);
    AddDurationToDate(date, duration, overflow)
  }

  /** The duration with its time part removed. */
  function DatePart(d: Duration): Duration {
    d.(hours := 0, minutes := 0, seconds := 0, milliseconds := 0, microseconds := 0, nanoseconds := 0)
  }

  /** A time part shorter than a day, of either sign, does not move the date. */
  lemma AddDurationSubDayIgnored(date: Date, duration: Duration, overflow: Overflow)
    requires -NsPerDay < TimePartNs(duration) < NsPerDay
    ensures AddDurationToDate(date, duration, overflow) == AddDurationToDate(date, DatePart(duration), overflow)
  {
    AddDurationToDateWholeDays(date, duration, DatePart(duration), overflow);
  }

  /** Without years or months the date moves by the weeks, the days and the
      whole days of the time part (truncated towards zero, so -36 hours is
      one day back), and fails exactly when it leaves the PlainDate range. */
  lemma AddDurationDaysOnly(date: Date, duration: Duration, overflow: Overflow)
    requires IsValidDate(date)
    requires duration.years == 0 && duration.months == 0
    ensures var r := AddDurationToDate(date, duration, overflow);
      var target := EpochDays(date) + 7 * duration.weeks + duration.days + TruncDiv(TimePartNs(duration), NsPerDay);
      && (r.Ok? <==> -100_000_001 <= target <= 100_000_000)
      && (r.Ok? ==> EpochDays(r.value) == target)
      && (r.Err? ==> r.error == RangeError)
  {
    var days := WholeDays(duration);
    AddISODateDays(date, duration.weeks, days, overflow);
    var sum := AddISODate(date, 0, 0, duration.weeks, days, overflow);
    DateWithinLimitsDays(sum.value);
  }

  /** No hours, minutes, seconds or sub-second units. */
  predicate HasNoTimePart(d: Duration) {
    d.hours == 0 && d.minutes == 0 && d.seconds == 0 && d.milliseconds == 0 && d.microseconds == 0 && d.nanoseconds == 0
  }

  /** The date part of the difference of two dates; `Auto` counts in days. */
  function DateDifference(d1: Date, d2: Date, largestUnit: Unit): (r: Duration)
    requires IsValidDate(d1) && IsValidDate(d2)
    requires IsDateUnit(largestUnit) || largestUnit == Auto
    ensures HasNoTimePart(r)
    ensures largestUnit == Day || largestUnit == Auto ==> r.years == 0 && r.months == 0 && r.weeks == 0
  {
    var unit := if largestUnit == Auto then Day else largestUnit;
    var result := DifferenceISODate(d1, d2, unit);
    Duration(result.years, result.months, result.weeks, result.days, 0, 0, 0, 0, 0, 0)
  }

  /** dateUntil: an `Auto` largest unit means days; the difference has no time part. */
  function DateUntil(one: DateLike, two: DateLike, largestUnit: Unit): (r: Result<Duration>)
    requires ValidDateLike(one) && ValidDateLike(two)
    requires IsDateUnit(largestUnit) || largestUnit == Auto
    ensures r.Ok? <==> ToTemporalDate(one).Ok? && ToTemporalDate(two).Ok?
    ensures r.Err? ==> r.error == (if ToTemporalDate(one).Err? then ToTemporalDate(one) else ToTemporalDate(two)).error
    ensures r.Ok? ==> HasNoTimePart(r.value)
    ensures r.Ok? ==> r.value == DateDifference(ToTemporalDate(one).value, ToTemporalDate(two).value, largestUnit)
  {
    var d1 :- ToTemporalDate(one);
    var d2 :- ToTemporalDate(two);
    Ok(DateDifference(d1, d2, largestUnit))
  }

  /** Counted in days (the default), the difference is the distance in epoch days. */
  lemma DateUntilInDays(one: DateLike, two: DateLike, largestUnit: Unit)
    requires ValidDateLike(one) && ValidDateLike(two)
    requires largestUnit == Day || largestUnit == Auto
    requires ToTemporalDate(one).Ok? && ToTemporalDate(two).Ok?
    ensures DateUntil(one, two, largestUnit)
         == Ok(Duration(0, 0, 0, EpochDays(ToTemporalDate(two).value) - EpochDays(ToTemporalDate(one).value), 0, 0, 0, 0, 0, 0))
  {
    var d1, d2 := ToTemporalDate(one).value, ToTemporalDate(two).value;
    DifferenceISODateInDays(d1, d2);
    assert DateDifference(d1, d2, largestUnit) == Duration(0, 0, 0, EpochDays(d2) - EpochDays(d1), 0, 0, 0, 0, 0, 0);
  }

  /** A duration without a time part is added by addISODate alone, then range checked. */
  lemma AddDurationNoTimePart(date: Date, dur: Duration, overflow: Overflow)
    requires HasNoTimePart(dur)
    ensures AddDurationToDate(date, dur, overflow) == AddDateInRange(date, dur.years, dur.months, dur.weeks, dur.days, overflow)
  {
    TruncDivSmall(TimePartNs(dur), NsPerDay);
  }

  /** Adding a difference in days or weeks to the first date gives the second. */
  lemma DateDifferenceRoundTrip(d1: Date, d2: Date, largestUnit: Unit, overflow: Overflow)
    requires IsValidDate(d1) && IsValidDate(d2)
    requires largestUnit == Day || largestUnit == Week || largestUnit == Auto
    ensures var dur := DateDifference(d1, d2, largestUnit);
      AddISODate(d1, dur.years, dur.months, dur.weeks, dur.days, overflow) == Ok(d2)
  {
    var unit := if largestUnit == Auto then Day else largestUnit;
    DifferenceISODateWeeksDaysRoundTrip(d1, d2, unit, overflow);
  }

  /** Counting in days or weeks, dateAdd of the dateUntil result to the first date gives the second. */
  lemma DateUntilThenDateAdd(one: DateLike, two: DateLike, largestUnit: Unit, overflow: Overflow)
    requires ValidDateLike(one) && ValidDateLike(two)
    requires largestUnit == Day || largestUnit == Week || largestUnit == Auto
    requires ToTemporalDate(one).Ok? && ToTemporalDate(two).Ok?
    ensures DateAdd(one, DateUntil(one, two, largestUnit).value, overflow) == ToTemporalDate(two)
  {
    var d1, d2 := ToTemporalDate(one).value, ToTemporalDate(two).value;
    var dur := DateUntil(one, two, largestUnit).value;
    AddDurationNoTimePart(d1, dur, overflow);
    DateDifferenceRoundTrip(d1, d2, largestUnit, overflow);
  }

  /** Swapping the arguments negates a difference in days or weeks. */
  lemma DateUntilAntisymmetric(one: DateLike, two: DateLike, largestUnit: Unit)
    requires ValidDateLike(one) && ValidDateLike(two)
    requires largestUnit == Day || largestUnit == Week || largestUnit == Auto
    requires ToTemporalDate(one).Ok? && ToTemporalDate(two).Ok?
    ensures var r, s := DateUntil(one, two, largestUnit).value, DateUntil(two, one, largestUnit).value;
      r.weeks == -s.weeks && r.days == -s.days
  {
    var d1, d2 := ToTemporalDate(one).value, ToTemporalDate(two).value;
    var unit := if largestUnit == Auto then Day else largestUnit;
    DifferenceISODateWeeksDaysAntisymmetric(d1, d2, unit);
    assert DateDifference(d2, d1, largestUnit).days == -DateDifference(d1, d2, largestUnit).days;
  }
}
