/**
 * The proleptic Gregorian calendar on day numbers (days since 1970-01-01, the day of time value
 * zero), and the UTC part of a JavaScript `Date` object built on it.
 */
module CivilCalendar {
  const MS_PER_DAY := 86400000
  /** Days from 0000-01-01 to 1970-01-01. */
  const EPOCH_OFFSET := 719528
  /** Days in a 400-year cycle. */
  const DAYS_PER_ERA := 146097

  predicate IsLeapYear(y: int) {
    y % 4 == 0 && (y % 100 != 0 || y % 400 == 0)
  }

  function DaysInYear(y: int): int {
    if IsLeapYear(y) then 366 else 365
  }

  function DaysInMonth(y: int, m: int): (n: int)
    requires 1 <= m <= 12
    ensures 28 <= n <= 31
  {
    if m == 2 then (if IsLeapYear(y) then 29 else 28)
    else if m == 4 || m == 6 || m == 9 || m == 11 then 30
    else 31
  }

  /** Days of year `y` before the first of month `m`; month 13 stands for the next year. */
  function DaysBeforeMonth(y: int, m: int): int
    requires 1 <= m <= 13
  {
    var leap := if IsLeapYear(y) then 1 else 0;
    if m == 1 then 0 else if m == 2 then 31
    else if m == 3 then 59 + leap else if m == 4 then 90 + leap
    else if m == 5 then 120 + leap else if m == 6 then 151 + leap
    else if m == 7 then 181 + leap else if m == 8 then 212 + leap
    else if m == 9 then 243 + leap else if m == 10 then 273 + leap
    else if m == 11 then 304 + leap else if m == 12 then 334 + leap
    else 365 + leap
  }

  lemma DaysBeforeMonthStep(y: int, m: int)
    requires 1 <= m <= 12
    ensures DaysBeforeMonth(y, m + 1) == DaysBeforeMonth(y, m) + DaysInMonth(y, m)
    ensures DaysBeforeMonth(y, 13) == DaysInYear(y)
  {
  }

  predicate IsCalendarDate(y: int, m: int, d: int) {
    1 <= m <= 12 && 1 <= d <= DaysInMonth(y, m)
  }

  /** Days from the start of a 400-year cycle to the start of its `r`-th year. */
  function YearStart(r: int): int
    requires 0 <= r <= 400
  {
    365 * r + (r + 3) / 4 - (r + 99) / 100 + (r + 399) / 400
  }

  lemma YearStartStep(r: int)
    requires 0 <= r < 400
    ensures YearStart(r + 1) == YearStart(r) + DaysInYear(r)
  {
    assert (r + 4) / 4 == (r + 3) / 4 + (if r % 4 == 0 then 1 else 0);
    assert (r + 100) / 100 == (r + 99) / 100 + (if r % 100 == 0 then 1 else 0);
    assert (r + 400) / 400 == (r + 399) / 400 + (if r % 400 == 0 then 1 else 0);
  }

  lemma ModFour(k: int, r: int)
    ensures (4 * k + r) % 4 == r % 4
  {
  }

  lemma ModHundred(k: int, r: int)
    ensures (100 * k + r) % 100 == r % 100
  {
  }

  lemma ModFourHundred(k: int, r: int)
    ensures (400 * k + r) % 400 == r % 400
  {
  }

  /** Leap years repeat every 400 years. */
  lemma LeapPeriodic(q: int, r: int)
    ensures IsLeapYear(400 * q + r) == IsLeapYear(r)
  {
    ModFour(100 * q, r);
    ModHundred(4 * q, r);
    ModFourHundred(q, r);
  }

  lemma EraSplit(q: int, r: int)
    requires 0 <= r < 400
    ensures (400 * q + r) / 400 == q && (400 * q + r) % 400 == r
  {
  }

  /** Days from 1970-01-01 to the first day of year `y`. */
  function DaysBeforeYear(y: int): int {
    (y / 400) * DAYS_PER_ERA + YearStart(y % 400) - EPOCH_OFFSET
  }

  lemma DaysBeforeYearStep(y: int)
    ensures DaysBeforeYear(y + 1) == DaysBeforeYear(y) + DaysInYear(y)
  {
    var q, r := y / 400, y % 400;
    LeapPeriodic(q, r);
    if r < 399 {
      EraSplit(q, r + 1);
      YearStartStep(r);
    } else {
      EraSplit(q + 1, 0);
    }
  }

  lemma {:induction false} DaysBeforeYearMonotone(a: int, b: int)
    requires a <= b
    ensures DaysBeforeYear(a) <= DaysBeforeYear(b)
    decreases b - a
  {
    if a < b {
      DaysBeforeYearStep(a);
      DaysBeforeYearMonotone(a + 1, b);
    }
  }

  /**
   * The day number of day `d` of month `m` of year `y`. Any `d` is allowed: a day outside the
   * month counts on from the first of the month, as JavaScript's `MakeDay` does.
   */
  function DaysFromCivil(y: int, m: int, d: int): int
    requires 1 <= m <= 12
  {
    DaysBeforeYear(y) + DaysBeforeMonth(y, m) + d - 1
  }

  datatype Civil = Civil(year: int, month: int, day: int)

  /** The year of a cycle that holds day `rem` of the cycle, searching from year `r` on. */
  function YearOfEra(rem: int, r: int): (y: int)
    requires 0 <= rem < DAYS_PER_ERA && 0 <= r < 400 && YearStart(r) <= rem
    ensures r <= y < 400 && YearStart(y) <= rem < YearStart(y + 1)
    decreases 400 - r
  {
    if rem < YearStart(r + 1) then r else YearOfEra(rem, r + 1)
  }

  /** The month of year `y` that holds day `doy` of the year, searching from month `m` on. */
  function MonthOfYear(y: int, doy: int, m: int): (month: int)
    requires 1 <= m <= 12 && DaysBeforeMonth(y, m) <= doy < DaysInYear(y)
    ensures m <= month <= 12
    ensures DaysBeforeMonth(y, month) <= doy < DaysBeforeMonth(y, month + 1)
    decreases 12 - m
  {
    if doy < DaysBeforeMonth(y, m + 1) then m else MonthOfYear(y, doy, m + 1)
  }

  /** The calendar date of day number `n`. */
  function CivilFromDays(n: int): (c: Civil)
    ensures IsCalendarDate(c.year, c.month, c.day)
    ensures DaysFromCivil(c.year, c.month, c.day) == n
  {
    var z := n + EPOCH_OFFSET;
    var q, rem := z / DAYS_PER_ERA, z % DAYS_PER_ERA;
    var r := YearOfEra(rem, 0);
    var y := 400 * q + r;
    EraSplit(q, r);
    LeapPeriodic(q, r);
    YearStartStep(r);
    var doy := rem - YearStart(r);
    var m := MonthOfYear(y, doy, 1);
    DaysBeforeMonthStep(y, m);
    Civil(y, m, doy - DaysBeforeMonth(y, m) + 1)
  }

  /** A calendar date lies within its year. */
  lemma DateWithinYear(y: int, m: int, d: int)
    requires IsCalendarDate(y, m, d)
    ensures DaysBeforeYear(y) <= DaysFromCivil(y, m, d) < DaysBeforeYear(y + 1)
  {
    DaysBeforeMonthStep(y, m);
    DaysBeforeYearStep(y);
    assert DaysBeforeMonth(y, m + 1) <= DaysBeforeMonth(y, 13);
  }

  /** A calendar date of an earlier year comes on an earlier day. */
  lemma EarlierYearEarlierDay(a: Civil, b: Civil)
    requires IsCalendarDate(a.year, a.month, a.day) && IsCalendarDate(b.year, b.month, b.day)
    requires a.year < b.year
    ensures DaysFromCivil(a.year, a.month, a.day) < DaysFromCivil(b.year, b.month, b.day)
  {
    DateWithinYear(a.year, a.month, a.day);
    DateWithinYear(b.year, b.month, b.day);
    DaysBeforeYearMonotone(a.year + 1, b.year);
  }

  /** Within one year, a calendar date of an earlier month comes on an earlier day. */
  lemma EarlierMonthEarlierDay(y: int, m1: int, d1: int, m2: int, d2: int)
    requires IsCalendarDate(y, m1, d1) && IsCalendarDate(y, m2, d2) && m1 < m2
    ensures DaysFromCivil(y, m1, d1) < DaysFromCivil(y, m2, d2)
  {
    DaysBeforeMonthStep(y, m1);
    assert DaysBeforeMonth(y, m1 + 1) <= DaysBeforeMonth(y, m2);
  }

  /** Distinct calendar dates have distinct day numbers. */
  lemma DaysFromCivilInjective(a: Civil, b: Civil)
    requires IsCalendarDate(a.year, a.month, a.day) && IsCalendarDate(b.year, b.month, b.day)
    requires DaysFromCivil(a.year, a.month, a.day) == DaysFromCivil(b.year, b.month, b.day)
    ensures a == b
  {
    if a.year < b.year {
      EarlierYearEarlierDay(a, b);
    } else if b.year < a.year {
      EarlierYearEarlierDay(b, a);
    } else if a.month < b.month {
      EarlierMonthEarlierDay(a.year, a.month, a.day, b.month, b.day);
    } else if b.month < a.month {
      EarlierMonthEarlierDay(a.year, b.month, b.day, a.month, a.day);
    }
  }

  /** Reading a calendar date's day number back gives the date. */
  lemma CivilRoundTrip(y: int, m: int, d: int)
    requires IsCalendarDate(y, m, d)
    ensures CivilFromDays(DaysFromCivil(y, m, d)) == Civil(y, m, d)
  {
    var c := CivilFromDays(DaysFromCivil(y, m, d));
    DaysFromCivilInjective(c, Civil(y, m, d));
  }

  /** The day of the week of day number `n`, Sunday being 0; 1970-01-01 was a Thursday. */
  function WeekDay(n: int): (w: int)
    ensures 0 <= w < 7
  {
    (n + 4) % 7
  }

  // ---------------------------------------------------------------- JavaScript Date, UTC part

  /**
   * The same month and day in any year `y` lie within year `y`; a February 29 taken to a common
   * year is its March 1.
   */
  lemma DateInAnyYear(y: int, c: Civil)
    requires IsCalendarDate(c.year, c.month, c.day)
    ensures DaysBeforeYear(y) <= DaysFromCivil(y, c.month, c.day) < DaysBeforeYear(y + 1)
  {
    DaysBeforeMonthStep(y, c.month);
    DaysBeforeYearStep(y);
    assert DaysBeforeMonth(y, c.month + 1) <= DaysBeforeMonth(y, 13);
  }

  /**
   * `MakeDay(year, monthIndex, date)`, with a month index 0..11: `date - 1` days on from the first
   * of the month, so a date within the month is that calendar date.
   */
  function MakeDay(year: int, monthIndex: int, date: int): (n: int)
    requires 0 <= monthIndex <= 11
    ensures IsCalendarDate(year, monthIndex + 1, date) ==> CivilFromDays(n) == Civil(year, monthIndex + 1, date)
  {
    var n := DaysFromCivil(year, monthIndex + 1, date);
    if IsCalendarDate(year, monthIndex + 1, date) then CivilRoundTrip(year, monthIndex + 1, date); n else n
  }

  /** The year `Date.UTC` computes with (`MakeFullYear`): a year 0..99 stands for 1900 + year. */
  function FullYear(year: int): int {
    if 0 <= year <= 99 then 1900 + year else year
  }

  /**
   * `Date.UTC(year, monthIndex, date)`: the time value of that day's midnight, with the year taken
   * as `FullYear(year)`.
   */
  function DateUtc(year: int, monthIndex: int, date: int): (t: int)
    requires 0 <= monthIndex <= 11
    ensures t % MS_PER_DAY == 0
    ensures IsCalendarDate(FullYear(year), monthIndex + 1, date) ==>
      CivilFromDays(t / MS_PER_DAY) == Civil(FullYear(year), monthIndex + 1, date)
  {
    var n := MakeDay(FullYear(year), monthIndex, date);
    DayOfMidnight(n, 0);
    n * MS_PER_DAY
  }

  lemma DayOfMidnight(day: int, ms: int)
    requires 0 <= ms < MS_PER_DAY
    ensures (day * MS_PER_DAY + ms) / MS_PER_DAY == day
    ensures (day * MS_PER_DAY + ms) % MS_PER_DAY == ms
  {
  }

  /**
   * A `Date` holding a time value (milliseconds since 1970-01-01T00:00:00Z); only its UTC
   * accessors are modelled.
   */
  class Date {
    var time: int

    constructor (t: int)
      ensures time == t
    {
      time := t;
    }

    /** `Day(t)`: the day number holding the time value. */
    function Day(): int
      reads this
    {
      time / MS_PER_DAY
    }

    /** `getUTCFullYear()`: the year that holds the `Date`'s day. */
    function UtcFullYear(): (y: int)
      reads this
      ensures DaysBeforeYear(y) <= Day() < DaysBeforeYear(y + 1)
    {
      var c := CivilFromDays(Day());
      DateWithinYear(c.year, c.month, c.day);
      c.year
    }

    /** `getUTCMonth()`, counting from 0. */
    function UtcMonth(): (m: int)
      reads this
      ensures 0 <= m <= 11
    {
      CivilFromDays(Day()).month - 1
    }

    /** `getUTCDate()`, the day of the month. */
    function UtcDate(): (d: int)
      reads this
      ensures 1 <= d <= 31
      ensures MakeDay(UtcFullYear(), UtcMonth(), d) == Day()
    {
      CivilFromDays(Day()).day
    }

    /** `getUTCDay()`, Sunday being 0. */
    function UtcDay(): (w: int)
      reads this
      ensures 0 <= w < 7
    {
      WeekDay(Day())
    }

    /**
     * `setUTCDate(date)`: same year, month and time of day, with the day of the month replaced;
     * a date outside the month carries into the neighbouring months, so the day number moves by
     * exactly `date - getUTCDate()`.
     */
    method SetUtcDate(date: int)
      modifies this
      ensures time == MakeDay(old(UtcFullYear()), old(UtcMonth()), date) * MS_PER_DAY + old(time) % MS_PER_DAY
      ensures Day() == old(Day()) + (date - old(UtcDate()))
      ensures time % MS_PER_DAY == old(time) % MS_PER_DAY
    {
      var day := MakeDay(UtcFullYear(), UtcMonth(), date);
      var ms := time % MS_PER_DAY;
      time := day * MS_PER_DAY + ms;
      DayOfMidnight(day, ms);
    }
  }
}
