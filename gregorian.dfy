/** The proleptic Gregorian calendar over unbounded integers, written from
    first principles: calendar dates, day numbers counted from 1 January 1970
    (the epoch of JavaScript dates), ISO weekdays and the ISO 8601 week
    calendar (week 1 of a year is the week, Monday to Sunday, that holds
    4 January). The ISO week calendar here is the reference against which the
    week-date resolution of utils.js is proved. */
module Gregorian {

  datatype Date = Date(year: int, month: int, day: int)

  predicate IsLeapYear(y: int) {
    y % 4 == 0 && (y % 100 != 0 || y % 400 == 0)
  }

  function DaysInYear(y: int): int {
    if IsLeapYear(y) then 366 else 365
  }

  function DaysInMonth(y: int, m: int): int
    requires 1 <= m <= 12
  {
    if m == 2 then (if IsLeapYear(y) then 29 else 28)
    else if m == 4 || m == 6 || m == 9 || m == 11 then 30
    else 31
  }

  /** A real calendar date: month 1..12 and a day that month has. */
  predicate Valid(d: Date) {
    1 <= d.month <= 12 && 1 <= d.day <= DaysInMonth(d.year, d.month)
  }

  /** Days from 1 January of year y to the first day of month m; m = 13 gives
      the length of the year. */
  function DaysBeforeMonth(y: int, m: int): int
    requires 1 <= m <= 13
  {
    if m == 1 then 0 else DaysBeforeMonth(y, m - 1) + DaysInMonth(y, m - 1)
  }

  lemma MonthTable(y: int, m: int)
    requires 1 <= m <= 12
    ensures DaysBeforeMonth(y, m + 1) == DaysBeforeMonth(y, m) + DaysInMonth(y, m)
    ensures DaysBeforeMonth(y, 13) == DaysInYear(y)
  {
    MonthsMakeYear(y);
  }

  /** The twelve months add up to the year. */
  lemma MonthsMakeYear(y: int)
    ensures DaysBeforeMonth(y, 13) == DaysInYear(y)
  {
    var leap := if IsLeapYear(y) then 1 else 0;
    assert DaysBeforeMonth(y, 2) == 31;
    assert DaysBeforeMonth(y, 3) == 59 + leap;
    assert DaysBeforeMonth(y, 4) == 90 + leap;
    assert DaysBeforeMonth(y, 5) == 120 + leap;
    assert DaysBeforeMonth(y, 6) == 151 + leap;
    assert DaysBeforeMonth(y, 7) == 181 + leap;
    assert DaysBeforeMonth(y, 8) == 212 + leap;
    assert DaysBeforeMonth(y, 9) == 243 + leap;
    assert DaysBeforeMonth(y, 10) == 273 + leap;
    assert DaysBeforeMonth(y, 11) == 304 + leap;
    assert DaysBeforeMonth(y, 12) == 334 + leap;
  }

  /** Day number of 1 January of year y (1970 gives 0): each year adds its
      own length. */
  function YearStart(y: int): int
    decreases if y < 1970 then 1970 - y else y - 1970
  {
    if y == 1970 then 0
    else if y > 1970 then YearStart(y - 1) + DaysInYear(y - 1)
    else YearStart(y + 1) - DaysInYear(y)
  }

  lemma YearStartStep(y: int)
    ensures YearStart(y + 1) == YearStart(y) + DaysInYear(y)
  {
  }

  /** The closed form: 365 days a year plus one for each leap year, counted
      from year 1. */
  lemma {:induction false} YearStartClosedForm(y: int)
    ensures var p := y - 1; YearStart(y) == 365 * p + p / 4 - p / 100 + p / 400 - 719162
    decreases if y < 1970 then 1970 - y else y - 1970
  {
    if y > 1970 {
      YearStartClosedForm(y - 1);
      LeapSteps(y - 1);
    } else if y < 1970 {
      YearStartClosedForm(y + 1);
      LeapSteps(y);
    }
  }

  /** Crossing from year y to y + 1 adds one leap day exactly when y is a
      leap year. */
  lemma LeapSteps(y: int)
    ensures (y / 4 - (y - 1) / 4) - (y / 100 - (y - 1) / 100) + (y / 400 - (y - 1) / 400)
      == DaysInYear(y) - 365
  {
    Div4Step(y);
    Div100Step(y);
    Div400Step(y);
  }

  lemma Div4Step(y: int)
    ensures y / 4 - (y - 1) / 4 == (if y % 4 == 0 then 1 else 0)
  {
    assert y - 1 == 4 * ((y - 1) / 4) + (y - 1) % 4;
    assert y == 4 * (y / 4) + y % 4;
  }

  lemma Div100Step(y: int)
    ensures y / 100 - (y - 1) / 100 == (if y % 100 == 0 then 1 else 0)
  {
    assert y - 1 == 100 * ((y - 1) / 100) + (y - 1) % 100;
    assert y == 100 * (y / 100) + y % 100;
  }

  lemma Div400Step(y: int)
    ensures y / 400 - (y - 1) / 400 == (if y % 400 == 0 then 1 else 0)
  {
    assert y - 1 == 400 * ((y - 1) / 400) + (y - 1) % 400;
    assert y == 400 * (y / 400) + y % 400;
  }

  lemma {:induction false} YearStartMonotone(a: int, b: int)
    requires a <= b
    ensures YearStart(a) <= YearStart(b)
    decreases b - a
  {
    if a < b {
      YearStartStep(a);
      YearStartMonotone(a + 1, b);
    }
  }

  /** Days since 1 January 1970 (negative before it). */
  function DayNumber(d: Date): int
    requires 1 <= d.month <= 12
  {
    YearStart(d.year) + DaysBeforeMonth(d.year, d.month) + d.day - 1
  }

  /** The year whose 1 January is the latest one not after day n, searching
      upward from year y. */
  function YearUp(n: int, y: int): (r: int)
    requires YearStart(y) <= n
    ensures YearStart(r) <= n < YearStart(r + 1)
    decreases n - YearStart(y)
  {
    YearStartStep(y);
    if n < YearStart(y + 1) then y else YearUp(n, y + 1)
  }

  /** As YearUp, searching downward from year y. */
  function YearDown(n: int, y: int): (r: int)
    requires n < YearStart(y + 1)
    ensures YearStart(r) <= n < YearStart(r + 1)
    decreases YearStart(y + 1) - n
  {
    YearStartStep(y);
    if YearStart(y) <= n then y else YearDown(n, y - 1)
  }

  /** The calendar year that holds day n. */
  function YearOf(n: int): (y: int)
    ensures YearStart(y) <= n < YearStart(y + 1)
  {
    if 0 <= n then YearUp(n, 1970) else YearDown(n, 1969)
  }

  /** The month of year y that holds the day-of-year doy (0-based), searching
      from month m. */
  function MonthOf(y: int, doy: int, m: int): (r: int)
    requires 1 <= m <= 12 && DaysBeforeMonth(y, m) <= doy < DaysBeforeMonth(y, 13)
    ensures m <= r <= 12 && DaysBeforeMonth(y, r) <= doy < DaysBeforeMonth(y, r + 1)
    decreases 12 - m
  {
    if doy < DaysBeforeMonth(y, m + 1) then m else MonthOf(y, doy, m + 1)
  }

  /** The calendar date of day number n. */
  function FromDayNumber(n: int): (d: Date)
    ensures Valid(d) && DayNumber(d) == n
  {
    var y := YearOf(n);
    YearStartStep(y);
    MonthTable(y, 1);
    var doy := n - YearStart(y);
    var m := MonthOf(y, doy, 1);
    MonthTable(y, m);
    Date(y, m, doy - DaysBeforeMonth(y, m) + 1)
  }

  lemma YearUnique(n: int, a: int, b: int)
    requires YearStart(a) <= n < YearStart(a + 1)
    requires YearStart(b) <= n < YearStart(b + 1)
    ensures a == b
  {
    if a < b {
      YearStartMonotone(a + 1, b);
    } else if b < a {
      YearStartMonotone(b + 1, a);
    }
  }

  lemma {:induction false} DaysBeforeMonthMonotone(y: int, a: int, b: int)
    requires 1 <= a <= b <= 13
    ensures DaysBeforeMonth(y, a) <= DaysBeforeMonth(y, b)
    decreases b - a
  {
    if a < b {
      DaysBeforeMonthMonotone(y, a, b - 1);
    }
  }

  /** Distinct valid dates have distinct day numbers. */
  lemma DayNumberInjective(d1: Date, d2: Date)
    requires Valid(d1) && Valid(d2)
    requires DayNumber(d1) == DayNumber(d2)
    ensures d1 == d2
  {
    SameDayNumberSameYear(d1, d2);
    var y := d1.year;
    if d1.month < d2.month {
      EarlierMonthEarlierDay(y, d1.month, d2.month, d1.day, d2.day);
    } else if d2.month < d1.month {
      EarlierMonthEarlierDay(y, d2.month, d1.month, d2.day, d1.day);
    }
  }

  /** A day of an earlier month of the same year comes earlier. */
  lemma EarlierMonthEarlierDay(y: int, m1: int, m2: int, day1: int, day2: int)
    requires 1 <= m1 < m2 <= 12 && day1 <= DaysInMonth(y, m1) && 1 <= day2
    ensures DaysBeforeMonth(y, m1) + day1 < DaysBeforeMonth(y, m2) + day2
  {
    MonthTable(y, m1);
    DaysBeforeMonthMonotone(y, m1 + 1, m2);
  }

  lemma SameDayNumberSameYear(d1: Date, d2: Date)
    requires Valid(d1) && Valid(d2)
    requires DayNumber(d1) == DayNumber(d2)
    ensures d1.year == d2.year
  {
    DayNumberInYear(d1);
    DayNumberInYear(d2);
    YearUnique(DayNumber(d1), d1.year, d2.year);
  }

  /** A valid date lies between 1 January of its year and 1 January of the
      next. */
  lemma DayNumberInYear(d: Date)
    requires Valid(d)
    ensures YearStart(d.year) <= DayNumber(d) < YearStart(d.year + 1)
  {
    MonthTable(d.year, d.month);
    DaysBeforeMonthMonotone(d.year, 1, d.month);
    DaysBeforeMonthMonotone(d.year, d.month + 1, 13);
    YearStartStep(d.year);
  }

  /** A day between 1 January of year a and 1 January of year b + 1 belongs
      to a year from a to b. */
  lemma YearBetween(d: Date, a: int, b: int)
    requires Valid(d) && YearStart(a) <= DayNumber(d) < YearStart(b + 1)
    ensures a <= d.year <= b
  {
    DayNumberInYear(d);
    if d.year < a {
      YearStartMonotone(d.year + 1, a);
    }
    if d.year > b {
      YearStartMonotone(b + 1, d.year);
    }
  }

  /** Day numbers and valid dates are in one-to-one correspondence. */
  lemma FromDayNumberOfDayNumber(d: Date)
    requires Valid(d)
    ensures FromDayNumber(DayNumber(d)) == d
  {
    DayNumberInjective(FromDayNumber(DayNumber(d)), d);
  }

  /** The date k days after d (before it, for negative k). */
  function AddDays(d: Date, k: int): (r: Date)
    requires 1 <= d.month <= 12
    ensures Valid(r) && DayNumber(r) == DayNumber(d) + k
  {
    FromDayNumber(DayNumber(d) + k)
  }

  // ---------------------------------------------------------------------------
  // ISO 8601 weekdays and weeks

  /** ISO weekday of day number n: 1 = Monday .. 7 = Sunday (1 January 1970
      was a Thursday). */
  function IsoWeekday(n: int): (wd: int)
    ensures 1 <= wd <= 7
  {
    (n + 3) % 7 + 1
  }

  lemma IsoWeekdayNext(n: int)
    ensures IsoWeekday(n + 1) == IsoWeekday(n) % 7 + 1
    ensures IsoWeekday(n + 7) == IsoWeekday(n)
  {
  }

  /** Monday on or before day n (date-fns startOfISOWeek). */
  function StartOfIsoWeek(n: int): (m: int)
    ensures IsoWeekday(m) == 1 && m <= n < m + 7
  {
    n - (IsoWeekday(n) - 1)
  }

  /** The Monday of ISO week 1 of year y: the Monday of the week that holds
      4 January. */
  function Week1Monday(y: int): (m: int)
    ensures IsoWeekday(m) == 1
    ensures YearStart(y) - 3 <= m <= YearStart(y) + 3
  {
    StartOfIsoWeek(YearStart(y) + 3)
  }

  /** Mondays on or before two days 365 or 366 days apart are 52 or 53
      weeks apart. */
  lemma StartOfIsoWeekYearApart(a: int, dd: int)
    requires dd == 365 || dd == 366
    ensures StartOfIsoWeek(a + dd) - StartOfIsoWeek(a) == 364 || StartOfIsoWeek(a + dd) - StartOfIsoWeek(a) == 371
  {
  }

  lemma Week1MondayStep(y: int)
    ensures Week1Monday(y + 1) - Week1Monday(y) == 364 || Week1Monday(y + 1) - Week1Monday(y) == 371
  {
    var s := YearStart(y) + 3;
    YearStartStep(y);
    StartOfIsoWeekYearApart(s, DaysInYear(y));
  }

  lemma {:induction false} Week1MondayMonotone(a: int, b: int)
    requires a <= b
    ensures Week1Monday(a) <= Week1Monday(b)
    decreases b - a
  {
    if a < b {
      Week1MondayStep(a);
      Week1MondayMonotone(a + 1, b);
    }
  }

  /** The ISO week-numbering year that holds day n. */
  function IsoWeekYearOf(n: int): (r: int)
    ensures Week1Monday(r) <= n < Week1Monday(r + 1)
  {
    Week1MondayStep(1969);
    if Week1Monday(1970) <= n then WeekYearUp(n, 1970) else WeekYearDown(n, 1969)
  }

  /** The ISO week-year whose week 1 begins on the latest Monday of week 1
      not after day n, searching upward from year y. */
  function WeekYearUp(n: int, y: int): (r: int)
    requires Week1Monday(y) <= n
    ensures Week1Monday(r) <= n < Week1Monday(r + 1)
    decreases n - Week1Monday(y)
  {
    Week1MondayStep(y);
    if n < Week1Monday(y + 1) then y else WeekYearUp(n, y + 1)
  }

  /** As WeekYearUp, searching downward from year y. */
  function WeekYearDown(n: int, y: int): (r: int)
    requires n < Week1Monday(y + 1)
    ensures Week1Monday(r) <= n < Week1Monday(r + 1)
    decreases Week1Monday(y + 1) - n
  {
    Week1MondayStep(y);
    if Week1Monday(y) <= n then y else WeekYearDown(n, y - 1)
  }

  /** Number of ISO weeks in ISO year y (52 or 53). */
  function WeeksInYear(y: int): (k: int)
    ensures k == 52 || k == 53
    ensures Week1Monday(y + 1) == Week1Monday(y) + 7 * k
  {
    Week1MondayStep(y);
    (Week1Monday(y + 1) - Week1Monday(y)) / 7
  }

  /** The ISO week number (1-based) of day n within its ISO week-year. */
  function IsoWeekOf(n: int): int {
    (n - Week1Monday(IsoWeekYearOf(n))) / 7 + 1
  }

  /** A day's ISO week is one of the weeks its ISO week-year has. */
  lemma IsoWeekOfBounds(n: int)
    ensures 1 <= IsoWeekOf(n) <= WeeksInYear(IsoWeekYearOf(n))
  {
    var y := IsoWeekYearOf(n);
    WeekIndexBelow(n - Week1Monday(y), WeeksInYear(y));
  }

  lemma WeekIndexBelow(off: int, k: int)
    requires 0 <= off < 7 * k
    ensures 0 <= off / 7 < k
  {
    assert off == 7 * (off / 7) + off % 7;
  }

  /** The day number of the ISO week date (y, w, d). */
  function WeekDateDayNumber(y: int, w: int, d: int): int {
    Week1Monday(y) + 7 * (w - 1) + (d - 1)
  }

  lemma Week1MondayUnique(n: int, a: int, b: int)
    requires Week1Monday(a) <= n < Week1Monday(a + 1)
    requires Week1Monday(b) <= n < Week1Monday(b + 1)
    ensures a == b
  {
    if a < b {
      Week1MondayMonotone(a + 1, b);
    } else if b < a {
      Week1MondayMonotone(b + 1, a);
    }
  }

  /** Arithmetic within one ISO week: the e-th day after a Monday, j weeks on. */
  lemma WeekArithmetic(m: int, j: int, e: int)
    requires IsoWeekday(m) == 1 && 0 <= e < 7
    ensures IsoWeekday(m + 7 * j + e) == e + 1
    ensures (7 * j + e) / 7 == j
  {
    var q := (m + 3) / 7;
    assert m + 3 == 7 * q;
    assert m + 7 * j + e + 3 == 7 * (q + j) + e;
  }

  /** Any day is a whole number of weeks after a Monday, plus its weekday. */
  lemma WeekSplit(m: int, n: int)
    requires IsoWeekday(m) == 1
    ensures m + 7 * ((n - m) / 7) + IsoWeekday(n) - 1 == n
  {
    var q := (m + 3) / 7;
    assert m + 3 == 7 * q;
    var j := (n - m) / 7;
    var e := (n - m) % 7;
    assert n - m == 7 * j + e;
    assert n + 3 == 7 * (q + j) + e;
  }

  /** A day between the Monday of week 1 of y and that of y + 1 has ISO
      week-year y, and its week counts whole weeks from that Monday. */
  lemma InIsoYear(n: int, y: int)
    requires Week1Monday(y) <= n < Week1Monday(y + 1)
    ensures IsoWeekYearOf(n) == y
    ensures IsoWeekOf(n) == (n - Week1Monday(y)) / 7 + 1
  {
    Week1MondayUnique(n, IsoWeekYearOf(n), y);
  }

  lemma WeekSplitFromWeek1(y: int, n: int)
    ensures Week1Monday(y) + 7 * ((n - Week1Monday(y)) / 7) + IsoWeekday(n) - 1 == n
  {
    WeekSplit(Week1Monday(y), n);
  }

  lemma WeekDateYear(y: int, w: int, d: int)
    requires 1 <= w <= WeeksInYear(y) && 1 <= d <= 7
    ensures IsoWeekYearOf(WeekDateDayNumber(y, w, d)) == y
    ensures IsoWeekOf(WeekDateDayNumber(y, w, d)) == (WeekDateDayNumber(y, w, d) - Week1Monday(y)) / 7 + 1
  {
    var n := WeekDateDayNumber(y, w, d);
    var k := WeeksInYear(y);
    assert n < Week1Monday(y) + 7 * k;
    InIsoYear(n, y);
  }

  /** Every ISO week date of a year names a day whose ISO week-year, week and
      weekday are exactly that date's parts. */
  lemma WeekDateRoundTrip(y: int, w: int, d: int)
    requires 1 <= w <= WeeksInYear(y) && 1 <= d <= 7
    ensures IsoWeekYearOf(WeekDateDayNumber(y, w, d)) == y
    ensures IsoWeekOf(WeekDateDayNumber(y, w, d)) == w
    ensures IsoWeekday(WeekDateDayNumber(y, w, d)) == d
  {
    var n := WeekDateDayNumber(y, w, d);
    WeekDateYear(y, w, d);
    WeekArithmetic(Week1Monday(y), w - 1, d - 1);
  }

  /** Conversely every day is the week date of its own ISO week-year, week and
      weekday. */
  lemma DayIsItsWeekDate(n: int)
    ensures WeekDateDayNumber(IsoWeekYearOf(n), IsoWeekOf(n), IsoWeekday(n)) == n
  {
    var y := IsoWeekYearOf(n);
    var m := Week1Monday(y);
    InIsoYear(n, y);
    WeekSplitFromWeek1(y, n);
    var w := IsoWeekOf(n);
    var wd := IsoWeekday(n);
    assert w - 1 == (n - m) / 7;
    assert m + 7 * (w - 1) + wd - 1 == n;
  }

  /** 4 January always lies in ISO week 1 of its own year. */
  lemma January4InWeek1(y: int)
    ensures IsoWeekYearOf(DayNumber(Date(y, 1, 4))) == y
    ensures IsoWeekOf(DayNumber(Date(y, 1, 4))) == 1
  {
    var n := DayNumber(Date(y, 1, 4));
    assert n == YearStart(y) + 3;
    Jan4BeforeNextWeek1(y);
    InIsoYear(n, y);
    assert 0 <= n - Week1Monday(y) < 7;
  }

  lemma Jan4BeforeNextWeek1(y: int)
    ensures Week1Monday(y) <= YearStart(y) + 3 < Week1Monday(y + 1)
  {
    YearStartStep(y);
  }

  lemma LongYearArithmetic(s: int, dd: int)
    requires dd == 365 || dd == 366
    ensures StartOfIsoWeek(s + dd + 3) - StartOfIsoWeek(s + 3) == 371 <==>
      IsoWeekday(s) == 4 || (dd == 366 && IsoWeekday(s) == 3)
  {
  }

  /** A year has 53 ISO weeks exactly when it begins on a Thursday, or is a
      leap year beginning on a Wednesday. */
  lemma LongYears(y: int)
    ensures WeeksInYear(y) == 53 <==>
      IsoWeekday(YearStart(y)) == 4 || (IsLeapYear(y) && IsoWeekday(YearStart(y)) == 3)
  {
    YearStartStep(y);
    LongYearArithmetic(YearStart(y), DaysInYear(y));
  }

  /** ISO week 1 of 2025 begins on Monday 30 December 2024. */
  lemma Week1MondayOf2025()
    ensures Week1Monday(2025) == DayNumber(Date(2024, 12, 30))
  {
    YearStartClosedForm(2025);
    YearStartClosedForm(2024);
    assert YearStart(2025) == 20089;
    assert IsoWeekday(20092) == 6;
    assert YearStart(2024) == 19723;
  }
}
