/**
 * The weekly-plan route: its query schema, the week start it accepts (a real calendar date that
 * is a Monday, defaulting to the Monday of the current UTC week), the week window
 * `[start, start + 7 days)` and the due-date filter over the listed todos.
 *
 * Time values are integers of milliseconds since 1970-01-01T00:00:00Z. The clock, the
 * repository's `listTodos`, `Number(...)` coercion of the limit and the parse of free-form
 * `dueDate` text are parameters.
 */
module WeeklyPlanRoute {
  import opened Wrappers
  import opened Text
  import opened Records
  import opened CivilCalendar

  const DEFAULT_LIMIT := 500
  const MAX_LIMIT := 1000
  const INVALID_QUERY := "Invalid query"
  const INVALID_DATE := "weekStart must be a valid ISO date (YYYY-MM-DD)"
  const NOT_MONDAY := "weekStart must be a Monday"
  const MS_PER_WEEK := 7 * MS_PER_DAY

  /** The exclusive end of the week that starts at time value `start`. */
  function WeekEnd(start: int): int {
    start + MS_PER_WEEK
  }

  // ---------------------------------------------------------------- query schema

  /** The pattern `^\d{4}-\d{2}-\d{2}$` (ASCII digits, nothing before or after). */
  predicate IsDateShape(s: string) {
    && |s| == 10
    && IsDigits(s[0..4]) && s[4] == '-' && IsDigits(s[5..7]) && s[7] == '-' && IsDigits(s[8..10])
  }

  function YearField(s: string): nat
    requires IsDateShape(s)
  {
    DigitsValue(s[0..4])
  }

  function MonthField(s: string): nat
    requires IsDateShape(s)
  {
    DigitsValue(s[5..7])
  }

  function DayField(s: string): nat
    requires IsDateShape(s)
  {
    DigitsValue(s[8..10])
  }

  /** What `Number(text)` yields, as far as the schema looks at it. */
  datatype NumberValue =
    | NumberInt(value: int)
    | NumberOther   // NaN, an infinity or a number with a fractional part

  datatype Query = Query(weekStart: Option<string>, limit: int)

  /** The `limit` field: an integer in 1..1000, 500 when absent. */
  function ParseLimit(limit: Option<string>, number: string -> NumberValue): (r: Option<int>)
    ensures limit.None? ==> r == Some(DEFAULT_LIMIT)
    ensures limit.Some? ==>
      (r.Some? <==> number(limit.value).NumberInt? && 1 <= number(limit.value).value <= MAX_LIMIT)
    ensures r.Some? ==> 1 <= r.value <= MAX_LIMIT
  {
    match limit
    case None => Some(DEFAULT_LIMIT)
    case Some(text) =>
      match number(text)
      case NumberOther => None
      case NumberInt(v) => if 0 < v && v <= MAX_LIMIT then Some(v) else None
  }

  /** The query schema: an optional `weekStart` of the date shape and the `limit` field. */
  function ParseQuery(weekStart: Option<string>, limit: Option<string>, number: string -> NumberValue): (r: Option<Query>)
    ensures r.Some? <==>
      (weekStart.None? || IsDateShape(weekStart.value)) && ParseLimit(limit, number).Some?
    ensures r.Some? ==> r.value.weekStart == weekStart && 1 <= r.value.limit <= MAX_LIMIT
    ensures r.Some? && limit.None? ==> r.value.limit == DEFAULT_LIMIT
  {
    if weekStart.Some? && !IsDateShape(weekStart.value) then None
    else
      match ParseLimit(limit, number)
      case None => None
      case Some(n) => Some(Query(weekStart, n))
  }

  // ---------------------------------------------------------------- dates as strings

  /** The date part of `toISOString()` for a calendar date: four-digit years, else a sign and six digits. */
  function FormatDate(c: Civil): string
    requires 1 <= c.month && 1 <= c.day
  {
    var monthDay := "-" + PadDigits(c.month, 2) + "-" + PadDigits(c.day, 2);
    if 0 <= c.year <= 9999 then PadDigits(c.year, 4) + monthDay
    else (if c.year < 0 then "-" else "+") + PadDigits(if c.year < 0 then -c.year else c.year, 6) + monthDay
  }

  /** The pieces of a formatted date, and the sign that starts an expanded year. */
  lemma FormatDatePieces(c: Civil)
    requires 1 <= c.month && 1 <= c.day
    ensures |FormatDate(c)| >= 10
    ensures 0 <= c.year <= 9999 ==>
      var f := FormatDate(c);
      && f[0..4] == PadDigits(c.year, 4) && f[4] == '-' && f[5..7] == PadDigits(c.month, 2)
      && f[7] == '-' && f[8..10] == PadDigits(c.day, 2)
    ensures 0 <= c.year <= 9999 ==> IsDigit(FormatDate(c)[0])
    ensures !(0 <= c.year <= 9999) ==> !IsDigit(FormatDate(c)[0])
  {
    if 0 <= c.year <= 9999 {
      assert FormatDate(c)[0] == PadDigits(c.year, 4)[0];
    }
  }

  /**
   * `toIsoDateUtc` of the midnight of day `n`: ten characters, starting with a digit exactly in
   * the four-digit years.
   */
  function IsoDate(n: int): (s: string)
    ensures |s| == 10
    ensures IsDigit(s[0]) <==> 0 <= CivilFromDays(n).year <= 9999
  {
    var f := FormatDate(CivilFromDays(n));
    FormatDatePieces(CivilFromDays(n));
    f[..10]
  }

  /**
   * `toIsoDateUtc`: the first ten characters of `toISOString()`, which start with a digit exactly
   * in the four-digit years.
   */
  function ToIsoDateUtc(t: int): (s: string)
    ensures |s| == 10
    ensures IsDigit(s[0]) <==> 0 <= CivilFromDays(t / MS_PER_DAY).year <= 9999
  {
    IsoDate(t / MS_PER_DAY)
  }

  /** The shape `±YYYYYY-MM`: what `toIsoDateUtc` keeps of a date whose year needs a sign. */
  predicate IsExpandedMonthShape(s: string) {
    && |s| == 10 && (s[0] == '+' || s[0] == '-')
    && IsDigits(s[1..7]) && s[7] == '-' && IsDigits(s[8..10])
  }

  function ExpandedYearField(s: string): int
    requires IsExpandedMonthShape(s)
  {
    var v: int := DigitsValue(s[1..7]);
    if s[0] == '-' then -v else v
  }

  function ExpandedMonthField(s: string): nat
    requires IsExpandedMonthShape(s)
  {
    DigitsValue(s[8..10])
  }

  /**
   * `new Date(weekStart + "T00:00:00.000Z").getTime()` for the strings the route hands it. A
   * date-shaped string with a month 01..12 and a day 01..31 is midnight UTC of that day, a day
   * past the month's end carrying into the next month. An expanded-year string `±YYYYYY-MM` with a
   * month 01..12 (a date-time form of ECMAScript's date-time string format) is midnight UTC of the
   * first of that month, `-000000` being no year. Anything else is NaN (`None`).
   */
  function ParseUtcMidnight(s: string): (r: Option<int>)
    ensures r.Some? ==> r.value % MS_PER_DAY == 0
  {
    if IsDateShape(s) && 1 <= MonthField(s) <= 12 && 1 <= DayField(s) <= 31 then
      var n := MakeDay(YearField(s), MonthField(s) - 1, DayField(s));
      DayOfMidnight(n, 0);
      Some(n * MS_PER_DAY)
    else if IsExpandedMonthShape(s) && 1 <= ExpandedMonthField(s) <= 12 && s[..7] != "-000000" then
      var n := MakeDay(ExpandedYearField(s), ExpandedMonthField(s) - 1, 1);
      DayOfMidnight(n, 0);
      Some(n * MS_PER_DAY)
    else None
  }

  /** A date-shaped string that names a real calendar day. */
  predicate DenotesCalendarDate(s: string) {
    IsDateShape(s) && IsCalendarDate(YearField(s), MonthField(s), DayField(s))
  }

  /** The day number a calendar-date string names. */
  function DayOf(s: string): int
    requires DenotesCalendarDate(s)
  {
    DaysFromCivil(YearField(s), MonthField(s), DayField(s))
  }

  /** An expanded-year string for a month of a year outside 0..9999, as `toIsoDateUtc` writes it. */
  predicate DenotesExpandedMonth(s: string) {
    IsExpandedMonthShape(s) && 1 <= ExpandedMonthField(s) <= 12 && !(0 <= ExpandedYearField(s) <= 9999)
  }

  /** The day number of the first of the month an expanded-year string names. */
  function MonthStartOf(s: string): int
    requires DenotesExpandedMonth(s)
  {
    DaysFromCivil(ExpandedYearField(s), ExpandedMonthField(s), 1)
  }

  /** A date-shaped string is its three fields with the two dashes. */
  lemma DateShapeSplits(s: string)
    requires IsDateShape(s)
    ensures s == s[0..4] + "-" + s[5..7] + "-" + s[8..10]
  {
  }

  /** A calendar-date string is written back exactly as it was read. */
  lemma IsoDateOfCalendarDate(s: string)
    requires DenotesCalendarDate(s)
    ensures IsoDate(DayOf(s)) == s
  {
    var c := Civil(YearField(s), MonthField(s), DayField(s));
    CivilRoundTrip(c.year, c.month, c.day);
    FormatDateOfFields(s);
  }

  /** The fields of a date-shaped string, formatted again, give the string back. */
  lemma FormatDateOfFields(s: string)
    requires IsDateShape(s) && 1 <= MonthField(s) && 1 <= DayField(s)
    ensures FormatDate(Civil(YearField(s), MonthField(s), DayField(s))) == s
  {
    DigitsPadRoundTrip(s[0..4]);
    DigitsPadRoundTrip(s[5..7]);
    DigitsPadRoundTrip(s[8..10]);
    DateShapeSplits(s);
  }

  /** A date-shaped string written for day `n` names the calendar date of `n`. */
  lemma IsoDateReadsBack(n: int, s: string)
    requires IsDateShape(s) && IsoDate(n) == s
    ensures CivilFromDays(n) == Civil(YearField(s), MonthField(s), DayField(s))
  {
    var c := CivilFromDays(n);
    var f := FormatDate(c);
    FormatDatePieces(c);
    assert s == f[..10];
    assert IsDigit(s[0..4][0]) && s[0..4][0] == s[0] == f[0];
    if 0 <= c.year <= 9999 {
      assert s[0..4] == f[0..4] && s[5..7] == f[5..7] && s[8..10] == f[8..10];
      PadDigitsRoundTrip(c.year, 4);
      PadDigitsRoundTrip(c.month, 2);
      PadDigitsRoundTrip(c.day, 2);
    }
  }

  /** The slices of three pieces of widths 4, 2 and 2 joined by dashes. */
  lemma JoinedSlices(s: string, ys: string, ms: string, ds: string)
    requires |ys| == 4 && |ms| == 2 && |ds| == 2
    requires s == ys + "-" + ms + "-" + ds
    ensures |s| == 10 && s[0..4] == ys && s[4] == '-' && s[5..7] == ms && s[7] == '-' && s[8..10] == ds
  {
    assert s[0..4] == ys by {
      assert s == ys + ("-" + ms + "-" + ds);
    }
    assert s[4..] == "-" + ms + "-" + ds;
    assert s[4..][1..3] == ms;
    assert s[4..][4..6] == ds;
  }

  /** The fields of a string written as `YYYY-MM-DD` from three numbers are those numbers. */
  lemma FieldsOfWritten(s: string, y: nat, m: nat, d: nat)
    requires y < 10000 && m < 100 && d < 100
    requires s == PadDigits(y, 4) + "-" + PadDigits(m, 2) + "-" + PadDigits(d, 2)
    ensures IsDateShape(s) && YearField(s) == y && MonthField(s) == m && DayField(s) == d
  {
    JoinedSlices(s, PadDigits(y, 4), PadDigits(m, 2), PadDigits(d, 2));
    PadDigitsRoundTrip(y, 4);
    PadDigitsRoundTrip(m, 2);
    PadDigitsRoundTrip(d, 2);
  }

  /** Within four-digit years, the string written for day `n` names day `n`. */
  lemma IsoDateNamesDay(n: int)
    requires 0 <= CivilFromDays(n).year <= 9999
    ensures DenotesCalendarDate(IsoDate(n)) && DayOf(IsoDate(n)) == n
  {
    var c := CivilFromDays(n);
    var s := IsoDate(n);
    assert s == PadDigits(c.year, 4) + "-" + PadDigits(c.month, 2) + "-" + PadDigits(c.day, 2) by {
      assert |FormatDate(c)| == 10;
    }
    assert IsDateShape(s) && YearField(s) == c.year && MonthField(s) == c.month && DayField(s) == c.day by {
      FieldsOfWritten(s, c.year, c.month, c.day);
    }
  }

  /** The slices of a sign, six digits, a dash and two digits. */
  lemma ExpandedSlices(s: string, sign: char, ys: string, ms: string)
    requires |ys| == 6 && |ms| == 2
    requires s == [sign] + ys + "-" + ms
    ensures |s| == 10 && s[0] == sign && s[1..7] == ys && s[7] == '-' && s[8..10] == ms
  {
    assert s[1..7] == ys by {
      assert s == [sign] + (ys + ("-" + ms));
    }
    assert s[7..] == "-" + ms;
    assert s[7..][1..3] == ms;
  }

  /** Outside years 0..9999 (and within six digits), the string written for day `n` names its month. */
  lemma IsoDateNamesMonth(n: int)
    requires !(0 <= CivilFromDays(n).year <= 9999) && -1000000 < CivilFromDays(n).year < 1000000
    ensures var c := CivilFromDays(n);
      && DenotesExpandedMonth(IsoDate(n))
      && ExpandedYearField(IsoDate(n)) == c.year && ExpandedMonthField(IsoDate(n)) == c.month
      && MonthStartOf(IsoDate(n)) == FirstOfMonth(n)
  {
    var c := CivilFromDays(n);
    var s := IsoDate(n);
    var sign := if c.year < 0 then '-' else '+';
    var ay: nat := if c.year < 0 then -c.year else c.year;
    var f := FormatDate(c);
    assert f == [sign] + PadDigits(ay, 6) + "-" + PadDigits(c.month, 2) + ("-" + PadDigits(c.day, 2));
    assert s == [sign] + PadDigits(ay, 6) + "-" + PadDigits(c.month, 2);
    ExpandedSlices(s, sign, PadDigits(ay, 6), PadDigits(c.month, 2));
    assert Pow10(6) == 1000000 && Pow10(2) == 100;
    PadDigitsRoundTrip(ay, 6);
    PadDigitsRoundTrip(c.month, 2);
  }

  /** An expanded-year string is its sign, year digits and month digits with the dash. */
  lemma ExpandedShapeSplits(s: string)
    requires IsExpandedMonthShape(s)
    ensures s == [s[0]] + s[1..7] + "-" + s[8..10]
  {
  }

  /** The year of an expanded-year month string has at most six digits. */
  lemma ExpandedYearBound(s: string)
    requires IsExpandedMonthShape(s)
    ensures -1000000 < ExpandedYearField(s) < 1000000
  {
    DigitsPadRoundTrip(s[1..7]);
    assert Pow10(6) == 1000000;
  }

  /** Two expanded-year month strings with the same year and month are the same string. */
  lemma ExpandedFieldsDetermine(a: string, b: string)
    requires DenotesExpandedMonth(a) && DenotesExpandedMonth(b)
    requires ExpandedYearField(a) == ExpandedYearField(b) && ExpandedMonthField(a) == ExpandedMonthField(b)
    ensures a == b
  {
    assert a[0] == b[0];
    assert DigitsValue(a[1..7]) == DigitsValue(b[1..7]);
    DigitsPadRoundTrip(a[1..7]);
    DigitsPadRoundTrip(b[1..7]);
    DigitsPadRoundTrip(a[8..10]);
    DigitsPadRoundTrip(b[8..10]);
    ExpandedShapeSplits(a);
    ExpandedShapeSplits(b);
  }

  /**
   * The string written for day `n` names it: a calendar-date string for day `n` in four-digit
   * years, and otherwise (within six digits) an expanded-year string for the month of day `n`.
   */
  lemma IsoDateNames(n: int)
    ensures 0 <= CivilFromDays(n).year <= 9999 ==> DenotesCalendarDate(IsoDate(n)) && DayOf(IsoDate(n)) == n
    ensures var y := CivilFromDays(n).year;
      !(0 <= y <= 9999) && -1000000 < y < 1000000 ==>
        DenotesExpandedMonth(IsoDate(n)) && MonthStartOf(IsoDate(n)) == FirstOfMonth(n)
  {
    var y := CivilFromDays(n).year;
    if 0 <= y <= 9999 {
      IsoDateNamesDay(n);
    } else if -1000000 < y < 1000000 {
      IsoDateNamesMonth(n);
    }
  }

  /** An expanded-year month string is written back exactly as it was read, from the first of its month. */
  lemma IsoDateOfExpandedMonth(s: string)
    requires DenotesExpandedMonth(s)
    ensures IsoDate(MonthStartOf(s)) == s
  {
    var y, m := ExpandedYearField(s), ExpandedMonthField(s);
    var n := MonthStartOf(s);
    assert CivilFromDays(n) == Civil(y, m, 1) by { CivilRoundTrip(y, m, 1); }
    ExpandedYearBound(s);
    IsoDateNamesMonth(n);
    ExpandedFieldsDetermine(IsoDate(n), s);
  }

  /** An expanded-year month string is read as the midnight of the first of its month. */
  lemma ExpandedMonthMidnight(s: string)
    requires DenotesExpandedMonth(s)
    ensures ParseUtcMidnight(s) == Some(MonthStartOf(s) * MS_PER_DAY)
  {
    assert !IsDateShape(s) by {
      assert !IsDigit(s[0]);
    }
    assert s[..7] != "-000000" by {
      if s[..7] == "-000000" {
        assert forall i :: 0 <= i < 6 ==> s[1..7][i] == '0';
        DigitsValueOfZeros(s[1..7]);
      }
    }
  }

  // ---------------------------------------------------------------- week start

  datatype WeekStart = WeekStartError(error: string) | WeekStartValue(time: int)

  /**
   * `parseWeekStartUtc`: the string must read back unchanged and fall on a Monday. An accepted
   * week start is a Monday midnight that writes back as the string given.
   */
  function ParseWeekStartUtc(weekStart: string): (r: WeekStart)
    ensures r.WeekStartError? ==> r.error == INVALID_DATE || r.error == NOT_MONDAY
    ensures r.WeekStartValue? ==>
      ToIsoDateUtc(r.time) == weekStart && WeekDay(r.time / MS_PER_DAY) == 1 && r.time % MS_PER_DAY == 0
  {
    match ParseUtcMidnight(weekStart)
    case None => WeekStartError(INVALID_DATE)
    case Some(t) =>
      if ToIsoDateUtc(t) != weekStart then WeekStartError(INVALID_DATE)
      else if WeekDay(t / MS_PER_DAY) != 1 then WeekStartError(NOT_MONDAY)
      else WeekStartValue(t)
  }

  /** The Monday test on day `n`, once the string has read back unchanged as that day. */
  function MondayCheck(n: int): WeekStart {
    if WeekDay(n) != 1 then WeekStartError(NOT_MONDAY) else WeekStartValue(n * MS_PER_DAY)
  }

  /**
   * A week start is accepted exactly when it is a string `toIsoDateUtc` writes for a Monday: a
   * calendar-date string naming a Monday, taken as that day's midnight, or an expanded-year month
   * string whose first day is a Monday, taken as that first day's midnight. Those strings off
   * Monday get the Monday message, and every other string the invalid-date message.
   */
  lemma ParseWeekStartExact(s: string)
    ensures ParseWeekStartUtc(s) ==
      if DenotesCalendarDate(s) then MondayCheck(DayOf(s))
      else if DenotesExpandedMonth(s) then MondayCheck(MonthStartOf(s))
      else WeekStartError(INVALID_DATE)
  {
    if DenotesCalendarDate(s) {
      if WeekDay(DayOf(s)) != 1 {
        OffMondayRejected(s);
      } else {
        MondayAccepted(s);
      }
    } else if DenotesExpandedMonth(s) {
      ExpandedMonthChecked(s);
    } else {
      NonDateRejected(s);
    }
  }

  /** A calendar-date string is read as its own midnight. */
  lemma CalendarDateMidnight(s: string)
    requires DenotesCalendarDate(s)
    ensures ParseUtcMidnight(s) == Some(DayOf(s) * MS_PER_DAY)
  {
    assert DaysInMonth(YearField(s), MonthField(s)) <= 31;
  }

  /** The midnight of a calendar-date string writes back as the string. */
  lemma CalendarDateReadsBack(s: string)
    requires DenotesCalendarDate(s)
    ensures ToIsoDateUtc(DayOf(s) * MS_PER_DAY) == s
  {
    var n := DayOf(s);
    assert (n * MS_PER_DAY) / MS_PER_DAY == n by { DayOfMidnight(n, 0); }
    assert IsoDate(n) == s by { IsoDateOfCalendarDate(s); }
  }

  /** A calendar date that is a Monday is accepted as its midnight. */
  lemma MondayAccepted(s: string)
    requires DenotesCalendarDate(s) && WeekDay(DayOf(s)) == 1
    ensures ParseWeekStartUtc(s) == WeekStartValue(DayOf(s) * MS_PER_DAY)
  {
    var n := DayOf(s);
    assert ParseUtcMidnight(s) == Some(n * MS_PER_DAY) by { CalendarDateMidnight(s); }
    assert ToIsoDateUtc(n * MS_PER_DAY) == s by { CalendarDateReadsBack(s); }
    assert (n * MS_PER_DAY) / MS_PER_DAY == n by { DayOfMidnight(n, 0); }
  }

  /** A calendar date off Monday is refused with the Monday message. */
  lemma OffMondayRejected(s: string)
    requires DenotesCalendarDate(s) && WeekDay(DayOf(s)) != 1
    ensures ParseWeekStartUtc(s) == WeekStartError(NOT_MONDAY)
  {
    var n := DayOf(s);
    assert ParseUtcMidnight(s) == Some(n * MS_PER_DAY) by { CalendarDateMidnight(s); }
    assert ToIsoDateUtc(n * MS_PER_DAY) == s by { CalendarDateReadsBack(s); }
    assert (n * MS_PER_DAY) / MS_PER_DAY == n by { DayOfMidnight(n, 0); }
  }

  /**
   * An expanded-year month string reads back unchanged as the first of its month, so it is
   * accepted as that day's midnight when that day is a Monday and refused with the Monday message
   * otherwise.
   */
  lemma ExpandedMonthChecked(s: string)
    requires DenotesExpandedMonth(s)
    ensures ParseWeekStartUtc(s) == MondayCheck(MonthStartOf(s))
  {
    var n := MonthStartOf(s);
    assert ParseUtcMidnight(s) == Some(n * MS_PER_DAY) by { ExpandedMonthMidnight(s); }
    assert (n * MS_PER_DAY) / MS_PER_DAY == n by { DayOfMidnight(n, 0); }
    assert ToIsoDateUtc(n * MS_PER_DAY) == s by { IsoDateOfExpandedMonth(s); }
  }

  /** A day past the end of its month rolls over, so the date written back differs from the string. */
  lemma RolloverNotWrittenBack(s: string)
    requires IsDateShape(s) && 1 <= MonthField(s) <= 12 && 1 <= DayField(s) <= 31
    requires !IsCalendarDate(YearField(s), MonthField(s), DayField(s))
    ensures IsoDate(DaysFromCivil(YearField(s), MonthField(s), DayField(s))) != s
  {
    var n := DaysFromCivil(YearField(s), MonthField(s), DayField(s));
    if IsoDate(n) == s {
      IsoDateReadsBack(n, s);
      assert false;
    }
  }

  /**
   * An expanded-year string for a year within 0..9999 (`+000005-03`, say) reads as a day of that
   * year, which is written back with four digits and no sign.
   */
  lemma ShortExpandedYearNotWrittenBack(s: string)
    requires IsExpandedMonthShape(s) && 1 <= ExpandedMonthField(s) <= 12
    requires 0 <= ExpandedYearField(s) <= 9999
    ensures IsoDate(DaysFromCivil(ExpandedYearField(s), ExpandedMonthField(s), 1)) != s
  {
    var y, m := ExpandedYearField(s), ExpandedMonthField(s);
    CivilRoundTrip(y, m, 1);
    assert !IsDigit(s[0]);
  }

  /** A string that is neither a calendar-date string nor an expanded-year month string is refused as an invalid date. */
  lemma NonDateRejected(s: string)
    requires !DenotesCalendarDate(s) && !DenotesExpandedMonth(s)
    ensures ParseWeekStartUtc(s) == WeekStartError(INVALID_DATE)
  {
    if ParseUtcMidnight(s).Some? {
      var t := ParseUtcMidnight(s).value;
      if IsDateShape(s) && 1 <= MonthField(s) <= 12 && 1 <= DayField(s) <= 31 {
        var n := DaysFromCivil(YearField(s), MonthField(s), DayField(s));
        assert t / MS_PER_DAY == n by {
          assert t == n * MS_PER_DAY;
          DayOfMidnight(n, 0);
        }
        assert IsoDate(n) != s by { RolloverNotWrittenBack(s); }
      } else {
        var n := DaysFromCivil(ExpandedYearField(s), ExpandedMonthField(s), 1);
        assert t / MS_PER_DAY == n by {
          assert t == n * MS_PER_DAY;
          DayOfMidnight(n, 0);
        }
        assert IsoDate(n) != s by { ShortExpandedYearNotWrittenBack(s); }
      }
    }
  }

  /** Two time values with the same time of day whose days are `k` apart are `k` days apart. */
  lemma DayShift(a: int, b: int, k: int)
    requires b / MS_PER_DAY == a / MS_PER_DAY + k && b % MS_PER_DAY == a % MS_PER_DAY
    ensures b == a + k * MS_PER_DAY
  {
  }

  // ---------------------------------------------------------------- Monday of the week

  /** The Monday on or before day `n`: the latest day at most `n` whose week day is 1. */
  function MondayOf(n: int): (m: int)
    ensures WeekDay(m) == 1 && n - 6 <= m <= n
  {
    n - (WeekDay(n) + 6) % 7
  }

  /** No other day within the six days up to `n` is a Monday. */
  lemma MondayOfUnique(n: int, m: int)
    requires WeekDay(m) == 1 && n - 6 <= m <= n
    ensures m == MondayOf(n)
  {
  }

  /**
   * The day `Date.UTC(now.getUTCFullYear(), now.getUTCMonth(), now.getUTCDate())` names when
   * `now` falls on day `n`: day `n` itself, except that `Date.UTC` reads a year 0..99 as
   * 1900 + year, so a day of year `y` in 0..99 becomes a day of year 1900 + `y`.
   */
  function UtcDateDay(n: int): (k: int)
    ensures !(0 <= CivilFromDays(n).year <= 99) ==> k == n
    ensures 0 <= CivilFromDays(n).year <= 99 ==>
      DaysBeforeYear(1900 + CivilFromDays(n).year) <= k < DaysBeforeYear(1901 + CivilFromDays(n).year)
  {
    var c := CivilFromDays(n);
    DateInAnyYear(FullYear(c.year), c);
    DaysFromCivil(FullYear(c.year), c.month, c.day)
  }

  /** `Date.UTC` of the UTC year, month and day of `now` is the midnight of `UtcDateDay`. */
  lemma DateUtcOfNow(now: Date)
    ensures DateUtc(now.UtcFullYear(), now.UtcMonth(), now.UtcDate()) == UtcDateDay(now.Day()) * MS_PER_DAY
  {
    var c := CivilFromDays(now.Day());
    assert now.UtcFullYear() == c.year && now.UtcMonth() == c.month - 1 && now.UtcDate() == c.day;
    assert MakeDay(FullYear(c.year), c.month - 1, c.day) == DaysFromCivil(FullYear(c.year), c.month, c.day);
  }

  /**
   * `mondayOfWeekUtc`: a new `Date` at midnight UTC of the Monday of the week of the day
   * `Date.UTC` names for `now`, Sunday belonging to the week that began six days before.
   */
  method MondayOfWeekUtc(now: Date) returns (d: Date)
    ensures fresh(d)
    ensures d.time == MondayOf(UtcDateDay(now.Day())) * MS_PER_DAY
  {
    ghost var k := UtcDateDay(now.Day());
    var t := DateUtc(now.UtcFullYear(), now.UtcMonth(), now.UtcDate());
    assert t == k * MS_PER_DAY by { DateUtcOfNow(now); }
    d := new Date(t);
    assert d.Day() == k && d.time % MS_PER_DAY == 0 by { DayOfMidnight(k, 0); }
    var day := d.UtcDay();
    var diff := if day == 0 then -6 else 1 - day;
    MondayStep(k, day);
    d.SetUtcDate(d.UtcDate() + diff);
    MidnightTime(d.time);
  }

  /** The step `mondayOfWeekUtc` takes from a day whose week day is `day` reaches its Monday. */
  lemma MondayStep(k: int, day: int)
    requires day == WeekDay(k)
    ensures k + (if day == 0 then -6 else 1 - day) == MondayOf(k)
  {
  }

  /** A midnight is its day number times the length of a day. */
  lemma MidnightTime(t: int)
    requires t % MS_PER_DAY == 0
    ensures t == (t / MS_PER_DAY) * MS_PER_DAY
  {
  }

  /** `new Date(start)` moved on by `setUTCDate(start.getUTCDate() + 7)`: exactly one week later. */
  method WeekEndOf(start: Date) returns (end: Date)
    ensures fresh(end)
    ensures end.time == WeekEnd(start.time)
  {
    end := new Date(start.time);
    end.SetUtcDate(start.UtcDate() + 7);
    DayShift(start.time, end.time, 7);
  }

  /** The first day of the month that holds day `n`. */
  function FirstOfMonth(n: int): int {
    n - (CivilFromDays(n).day - 1)
  }

  /** The day of the Monday `mondayOfWeekUtc(new Date())` gives at time `nowTime`. */
  function CurrentMonday(nowTime: int): int {
    MondayOf(UtcDateDay(nowTime / MS_PER_DAY))
  }

  /**
   * The week start the route falls back to when none is given: in four-digit years the
   * calendar-date string of the current Monday, and outside them the expanded-year string of the
   * Monday's month.
   */
  function DefaultWeekStart(nowTime: int): (s: string)
    ensures 0 <= CivilFromDays(CurrentMonday(nowTime)).year <= 9999 ==>
      DenotesCalendarDate(s) && DayOf(s) == CurrentMonday(nowTime)
    ensures var y := CivilFromDays(CurrentMonday(nowTime)).year;
      !(0 <= y <= 9999) && -1000000 < y < 1000000 ==>
        DenotesExpandedMonth(s) && MonthStartOf(s) == FirstOfMonth(CurrentMonday(nowTime))
  {
    var m := CurrentMonday(nowTime);
    IsoDateNames(m);
    assert ToIsoDateUtc(m * MS_PER_DAY) == IsoDate(m) by { DayOfMidnight(m, 0); }
    ToIsoDateUtc(m * MS_PER_DAY)
  }

  /** Within four-digit years, the default week start passes the checks as the current Monday's midnight. */
  lemma DefaultWeekStartAccepted(nowTime: int)
    requires 0 <= CivilFromDays(CurrentMonday(nowTime)).year <= 9999
    ensures ParseWeekStartUtc(DefaultWeekStart(nowTime)) == WeekStartValue(CurrentMonday(nowTime) * MS_PER_DAY)
  {
    MondayAccepted(DefaultWeekStart(nowTime));
  }

  /**
   * Outside four-digit years, the default week start is checked as the first day of the current
   * Monday's month: it is accepted as that day's midnight (a week other than the current one unless
   * the Monday is the first) when that day is a Monday, and refused with the Monday message otherwise.
   */
  lemma DefaultWeekStartExpanded(nowTime: int)
    requires var y := CivilFromDays(CurrentMonday(nowTime)).year; !(0 <= y <= 9999) && -1000000 < y < 1000000
    ensures ParseWeekStartUtc(DefaultWeekStart(nowTime)) == MondayCheck(FirstOfMonth(CurrentMonday(nowTime)))
  {
    ExpandedMonthChecked(DefaultWeekStart(nowTime));
  }

  // ---------------------------------------------------------------- the week's todos

  /** The filter predicate: a due time that is a number and lies in `[start, end)`. */
  predicate InWindow(todo: TodoRecord, start: int, end: int, dueTime: string -> Option<int>) {
    dueTime(todo.dueDate).Some? && start <= dueTime(todo.dueDate).value < end
  }

  /** `todos.filter(...)` with the window predicate: no more todos than listed, each in the window. */
  function WeekTodos(todos: seq<TodoRecord>, start: int, end: int, dueTime: string -> Option<int>): (kept: seq<TodoRecord>)
    ensures |kept| <= |todos|
    ensures forall k :: 0 <= k < |kept| ==> InWindow(kept[k], start, end, dueTime)
    decreases |todos|
  {
    if todos == [] then []
    else
      var kept := WeekTodos(todos[..|todos| - 1], start, end, dueTime);
      if InWindow(todos[|todos| - 1], start, end, dueTime) then kept + [todos[|todos| - 1]] else kept
  }

  /**
   * The filter keeps exactly the todos in the window, in their listed order: the kept todos are
   * the listed ones at the increasing indices `idx`, and an index is among them exactly when its
   * todo is in the window.
   */
  lemma {:induction false} WeekTodosSelects(todos: seq<TodoRecord>, start: int, end: int, dueTime: string -> Option<int>)
    returns (idx: seq<nat>)
    ensures var kept := WeekTodos(todos, start, end, dueTime);
      && |idx| == |kept|
      && (forall k :: 0 <= k < |idx| ==> idx[k] < |todos| && kept[k] == todos[idx[k]])
      && (forall k, l :: 0 <= k < l < |idx| ==> idx[k] < idx[l])
      && (forall i :: 0 <= i < |todos| ==> (i in idx <==> InWindow(todos[i], start, end, dueTime)))
    decreases |todos|
  {
    if todos == [] {
      idx := [];
    } else {
      var n := |todos| - 1;
      var init := todos[..n];
      var prev := WeekTodosSelects(init, start, end, dueTime);
      assert n !in prev;
      forall i | 0 <= i < n
        ensures todos[i] == init[i]
      {
      }
      if InWindow(todos[n], start, end, dueTime) {
        idx := prev + [n];
        assert WeekTodos(todos, start, end, dueTime) == WeekTodos(init, start, end, dueTime) + [todos[n]];
      } else {
        idx := prev;
        assert WeekTodos(todos, start, end, dueTime) == WeekTodos(init, start, end, dueTime);
      }
    }
  }

  // ---------------------------------------------------------------- the route

  datatype WeeklyPlanResponse =
    | BadRequest(error: string)
    | WeeklyPlan(workspaceId: string, weekStart: string, weekEndExclusive: string, todos: seq<TodoRecord>)

  /** The week start asked for: the query's, or the current week's Monday. */
  function RequestedWeekStart(q: Query, nowTime: int): string {
    match q.weekStart
    case Some(w) => w
    case None => DefaultWeekStart(nowTime)
  }

  /**
   * What the route answers for a week start once the query is valid, on the todos listed for the
   * workspace: a week start that fails its checks is a 400 with its message; otherwise the plan
   * holds the week start and the day one week later, both written back as dates, and the listed
   * todos due in between.
   */
  function PlanFor(workspaceId: string, requested: string, listed: seq<TodoRecord>, dueTime: string -> Option<int>)
    : (r: WeeklyPlanResponse)
    ensures r.BadRequest? <==> ParseWeekStartUtc(requested).WeekStartError?
    ensures r.BadRequest? ==> r.error == INVALID_DATE || r.error == NOT_MONDAY
    ensures r.WeeklyPlan? ==> r.workspaceId == workspaceId && r.weekStart == requested && |r.todos| <= |listed|
  {
    match ParseWeekStartUtc(requested)
    case WeekStartError(e) => BadRequest(e)
    case WeekStartValue(t) =>
      WeeklyPlan(workspaceId, ToIsoDateUtc(t), ToIsoDateUtc(WeekEnd(t)), WeekTodos(listed, t, WeekEnd(t), dueTime))
  }

  /**
   * A week start that is neither a calendar-date string nor an expanded-year month string is
   * answered with the invalid-date 400.
   */
  lemma PlanForRefusesNonDate(workspaceId: string, requested: string, listed: seq<TodoRecord>, dueTime: string -> Option<int>)
    requires !DenotesCalendarDate(requested) && !DenotesExpandedMonth(requested)
    ensures PlanFor(workspaceId, requested, listed, dueTime) == BadRequest(INVALID_DATE)
  {
    NonDateRejected(requested);
  }

  /**
   * An expanded-year month string is answered for the week from the first of its month when that
   * day is a Monday, the string echoed unchanged, and with the Monday 400 otherwise.
   */
  lemma PlanForExpandedMonth(workspaceId: string, requested: string, listed: seq<TodoRecord>, dueTime: string -> Option<int>)
    requires DenotesExpandedMonth(requested)
    ensures var t := MonthStartOf(requested) * MS_PER_DAY;
      PlanFor(workspaceId, requested, listed, dueTime)
        == if WeekDay(MonthStartOf(requested)) != 1 then BadRequest(NOT_MONDAY)
           else WeeklyPlan(workspaceId, requested, ToIsoDateUtc(WeekEnd(t)), WeekTodos(listed, t, WeekEnd(t), dueTime))
  {
    ExpandedMonthChecked(requested);
  }

  /** A calendar date off Monday is answered with the Monday 400. */
  lemma PlanForRefusesOffMonday(workspaceId: string, requested: string, listed: seq<TodoRecord>, dueTime: string -> Option<int>)
    requires DenotesCalendarDate(requested) && WeekDay(DayOf(requested)) != 1
    ensures PlanFor(workspaceId, requested, listed, dueTime) == BadRequest(NOT_MONDAY)
  {
    OffMondayRejected(requested);
  }

  /**
   * A Monday is echoed back unchanged, with the date one week later as the exclusive end and the
   * listed todos due from its midnight UTC up to the next Monday's.
   */
  lemma PlanForMonday(workspaceId: string, requested: string, listed: seq<TodoRecord>, dueTime: string -> Option<int>)
    requires DenotesCalendarDate(requested) && WeekDay(DayOf(requested)) == 1
    ensures var t := DayOf(requested) * MS_PER_DAY;
      PlanFor(workspaceId, requested, listed, dueTime)
        == WeeklyPlan(workspaceId, requested, ToIsoDateUtc(WeekEnd(t)), WeekTodos(listed, t, WeekEnd(t), dueTime))
  {
    var t := DayOf(requested) * MS_PER_DAY;
    assert ParseWeekStartUtc(requested) == WeekStartValue(t) by { MondayAccepted(requested); }
    assert ToIsoDateUtc(t) == requested by { CalendarDateReadsBack(requested); }
  }

  /** The exclusive end of an accepted week is the midnight UTC of the next Monday. */
  lemma WeekEndIsNextMonday(t: int)
    requires WeekDay(t / MS_PER_DAY) == 1 && t % MS_PER_DAY == 0
    ensures WeekEnd(t) % MS_PER_DAY == 0
    ensures WeekEnd(t) / MS_PER_DAY == t / MS_PER_DAY + 7
    ensures WeekDay(WeekEnd(t) / MS_PER_DAY) == 1
  {
    DayOfMidnight(t / MS_PER_DAY + 7, 0);
  }

  /**
   * The part of `GET /api/weekly-plan` after the query: the week start is checked, the end is the
   * start moved on seven days of the month, and the listed todos are filtered to the window.
   */
  method PlanForWeekStart(workspaceId: string, requested: string, limit: int,
                          listTodos: (string, int) -> seq<TodoRecord>, dueTime: string -> Option<int>)
    returns (response: WeeklyPlanResponse)
    ensures response == PlanFor(workspaceId, requested, listTodos(workspaceId, limit), dueTime)
  {
    var parsed := ParseWeekStartUtc(requested);
    if parsed.WeekStartError? {
      return BadRequest(parsed.error);
    }
    var start := new Date(parsed.time);
    var end := WeekEndOf(start);
    var startTime, endTime := start.time, end.time;
    assert startTime == parsed.time && endTime == WeekEnd(parsed.time);
    var todos := listTodos(workspaceId, limit);
    var weekTodos := WeekTodos(todos, startTime, endTime, dueTime);
    response := WeeklyPlan(workspaceId, ToIsoDateUtc(startTime), ToIsoDateUtc(endTime), weekTodos);
  }

  /**
   * `GET /api/weekly-plan`: an invalid query is a 400; otherwise the requested week start (the
   * Monday of the current UTC week when none is given) is answered as `PlanFor` says, on the
   * todos listed for the workspace within the query's limit.
   */
  method Get(workspaceId: string, weekStartParam: Option<string>, limitParam: Option<string>,
             number: string -> NumberValue, nowTime: int,
             listTodos: (string, int) -> seq<TodoRecord>, dueTime: string -> Option<int>)
    returns (response: WeeklyPlanResponse)
    ensures ParseQuery(weekStartParam, limitParam, number).None? ==> response == BadRequest(INVALID_QUERY)
    ensures ParseQuery(weekStartParam, limitParam, number).Some? ==>
      var q := ParseQuery(weekStartParam, limitParam, number).value;
      response == PlanFor(workspaceId, RequestedWeekStart(q, nowTime), listTodos(workspaceId, q.limit), dueTime)
  {
    var query := ParseQuery(weekStartParam, limitParam, number);
    if query.None? {
      return BadRequest(INVALID_QUERY);
    }
    var requested: string;
    match query.value.weekStart {
      case Some(w) =>
        requested := w;
      case None =>
        var now := new Date(nowTime);
        var monday := MondayOfWeekUtc(now);
        requested := ToIsoDateUtc(monday.time);
    }
    assert requested == RequestedWeekStart(query.value, nowTime);
    response := PlanForWeekStart(workspaceId, requested, query.value.limit, listTodos, dueTime);
  }

  // ---------------------------------------------------------------- worked dates

  /** 2026 is not a leap year and begins on day 20454. */
  lemma Days2026()
    ensures DaysBeforeYear(2026) == 20454 && !IsLeapYear(2026)
  {
    assert 2026 / 400 == 5 && 2026 % 400 == 26;
    assert YearStart(26) == 9497;
  }

  /**
   * The pattern `^\d{4}-\d{2}-\d{2}$` character by character: ten characters, dashes at 4 and 7,
   * digits elsewhere; the fields are then the decimal values of their digits.
   */
  lemma DateShapeChars(s: string)
    requires |s| == 10 && s[4] == '-' && s[7] == '-'
    requires IsDigit(s[0]) && IsDigit(s[1]) && IsDigit(s[2]) && IsDigit(s[3])
    requires IsDigit(s[5]) && IsDigit(s[6]) && IsDigit(s[8]) && IsDigit(s[9])
    ensures IsDateShape(s)
    ensures YearField(s) == 1000 * DigitValue(s[0]) + 100 * DigitValue(s[1]) + 10 * DigitValue(s[2]) + DigitValue(s[3])
    ensures MonthField(s) == 10 * DigitValue(s[5]) + DigitValue(s[6])
    ensures DayField(s) == 10 * DigitValue(s[8]) + DigitValue(s[9])
  {
    forall i | 0 <= i < 4
      ensures IsDigit(s[0..4][i])
    {
      if i == 0 {} else if i == 1 {} else if i == 2 {} else {}
    }
    forall i | 0 <= i < 2
      ensures IsDigit(s[5..7][i]) && IsDigit(s[8..10][i])
    {
      if i == 0 {} else {}
    }
    FourDigitsValue(s[0..4]);
    TwoDigitsValue(s[5..7]);
    TwoDigitsValue(s[8..10]);
  }

  /** A February 2026 date string with day `d` from 1 to 28 names day 20484 + d. */
  lemma February2026(s: string, d: nat)
    requires IsDateShape(s) && YearField(s) == 2026 && MonthField(s) == 2 && DayField(s) == d
    requires 1 <= d <= 28
    ensures DenotesCalendarDate(s) && DayOf(s) == 20484 + d
  {
    Days2026();
  }

  /** 2026-02-09 is a Monday and is accepted as its own midnight. */
  lemma MondayFebruaryNinthAccepted(s: string)
    requires s == "2026-02-09"
    ensures ParseWeekStartUtc(s) == WeekStartValue(20493 * MS_PER_DAY)
  {
    assert IsDateShape(s) && YearField(s) == 2026 && MonthField(s) == 2 && DayField(s) == 9 by {
      DateShapeChars(s);
    }
    February2026(s, 9);
    MondayAccepted(s);
  }

  /** 2026-02-10 is a real date but a Tuesday. */
  lemma TuesdayRejected(s: string)
    requires s == "2026-02-10"
    ensures ParseWeekStartUtc(s) == WeekStartError(NOT_MONDAY)
  {
    assert IsDateShape(s) && YearField(s) == 2026 && MonthField(s) == 2 && DayField(s) == 10 by {
      DateShapeChars(s);
    }
    February2026(s, 10);
    assert WeekDay(20494) == 2;
    OffMondayRejected(s);
  }

  /** 2026-02-30 has the date shape but names no calendar day. */
  lemma FebruaryThirtiethRejected(s: string)
    requires s == "2026-02-30"
    ensures ParseWeekStartUtc(s) == WeekStartError(INVALID_DATE)
  {
    assert IsDateShape(s) && YearField(s) == 2026 && MonthField(s) == 2 && DayField(s) == 30 by {
      DateShapeChars(s);
    }
    assert !IsCalendarDate(2026, 2, 30) by { Days2026(); }
    NonDateRejected(s);
  }
}
