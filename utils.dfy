/** utils.js: two-digit padding, resolution of an ISO week date to a
    YYYYMMDD string, file-safe street names, and the end date of a duration.
    Dates follow JavaScript's Date in local time, which for whole days is the
    proleptic Gregorian calendar of module Gregorian. The file-system helpers
    of utils.js are not part of this model. */
module Utils {
  import opened Wrappers
  import opened JsString
  import opened Gregorian

  /** formatToTwoDigits: String(n).padStart(2, '0'). */
  function FormatToTwoDigits(n: int): string {
    PadTwo(IntToString(n))
  }

  /** Numbers 0..99 come out as exactly two digits that read back as the
      number; any number whose text already has two characters or more comes
      out unchanged. */
  lemma FormatToTwoDigitsPads(n: int)
    ensures 0 <= n <= 99 ==> var r := FormatToTwoDigits(n); |r| == 2 && AllDigits(r) && DigitsValue(r) == n
    ensures (n >= 10 || n < 0) ==> FormatToTwoDigits(n) == IntToString(n)
  {
    var s := IntToString(n);
    if 10 <= n <= 99 {
      NatToStringLength(n, 2);
    }
    if 0 <= n <= 9 {
      assert PadTwo(s) == ['0', DigitChar(n)];
      assert PadTwo(s)[..1] == "0";
    }
    if n >= 10 {
      var p := NatToString(n / 10);
      assert s == p + [DigitChar(n % 10)];
    }
  }

  /** The year the Date constructor stores for a year argument y: years 0..99
      are read as 1900..1999. */
  function JsFullYear(y: int): int {
    if 0 <= y <= 99 then 1900 + y else y
  }

  /** The day number of new Date(y, m, d) with a 0-based month m: months
      outside 0..11 carry into the year, days outside the month carry into the
      neighbouring months. */
  function JsMakeDay(y: int, m: int, d: int): int {
    DayNumber(Date(JsFullYear(y) + m / 12, m % 12 + 1, 1)) + d - 1
  }

  /** For a real date, new Date(y, m - 1, d) is that date. */
  lemma JsMakeDayOfDate(d: Date)
    requires Valid(d) && !(0 <= d.year <= 99)
    ensures JsMakeDay(d.year, d.month - 1, d.day) == DayNumber(d)
  {
  }

  /** date-fns setISOWeek: move n by whole weeks into ISO week `week` of its
      ISO week-year. */
  function SetIsoWeek(n: int, week: int): int {
    n - 7 * (IsoWeekOf(n) - week)
  }

  /** date-fns setISODay: move n within its ISO week to weekday `day`. */
  function SetIsoDay(n: int, day: int): int {
    n + (day - IsoWeekday(n))
  }

  /** date-fns's chain setISODay(setISOWeek(new Date(year, 0, 4), w), d)
      lands on the ISO week date (year, w, d): 4 January is in week 1, so
      setISOWeek moves it w - 1 weeks, and setISODay then moves it within that
      week. */
  lemma WeekChainIsWeekDate(year: int, w: int, d: int)
    ensures SetIsoDay(SetIsoWeek(JsMakeDay(year, 0, 4), w), d) == WeekDateDayNumber(JsFullYear(year), w, d)
  {
    var y := JsFullYear(year);
    assert JsMakeDay(year, 0, 4) == DayNumber(Date(y, 1, 4));
    Jan4InWeek1(y);
    WeekChainFromWeek1(DayNumber(Date(y, 1, 4)), y, w, d);
  }

  /** 4 January is its weekday's place after the Monday of week 1. */
  lemma Jan4InWeek1(y: int)
    ensures var n := DayNumber(Date(y, 1, 4));
      IsoWeekOf(n) == 1 && n == Week1Monday(y) + IsoWeekday(n) - 1
  {
    var n := DayNumber(Date(y, 1, 4));
    January4InWeek1(y);
    DayIsItsWeekDate(n);
  }

  lemma WeekChainFromWeek1(n: int, y: int, w: int, d: int)
    requires IsoWeekOf(n) == 1 && n == Week1Monday(y) + IsoWeekday(n) - 1
    ensures SetIsoDay(SetIsoWeek(n, w), d) == WeekDateDayNumber(y, w, d)
  {
    var m := Week1Monday(y);
    var e := IsoWeekday(n) - 1;
    var inWeek := SetIsoWeek(n, w);
    assert inWeek == m + 7 * (w - 1) + e;
    WeekArithmetic(m, w - 1, e);
  }

  /** The date getDateFromWeek computes before formatting it: the ISO week
      date (year, weekNumber, baseDay) moved by pickupDayDiff days. */
  function DateFromWeek(year: int, weekNumber: int, baseDay: int, pickupDayDiff: int): (r: Date)
    ensures Valid(r)
    ensures DayNumber(r) == WeekDateDayNumber(JsFullYear(year), weekNumber, baseDay) + pickupDayDiff
  {
    WeekChainIsWeekDate(year, weekNumber, baseDay);
    var onDay := SetIsoDay(SetIsoWeek(JsMakeDay(year, 0, 4), weekNumber), baseDay);
    FromDayNumber(onDay + pickupDayDiff)
  }

  /** The text YYYYMMDD getDateFromWeek builds from a date: the year as
      Number.toString prints it, month and day padded to two digits. */
  function FormatYmd(d: Date): string {
    IntToString(d.year) + FormatToTwoDigits(d.month) + FormatToTwoDigits(d.day)
  }

  /** For a four-digit year the text is eight digits: four of year, then two
      of month, then two of day. */
  lemma FormatYmdShape(d: Date)
    requires Valid(d) && 1000 <= d.year <= 9999
    ensures var r := FormatYmd(d);
      && |r| == 8 && AllDigits(r)
      && r[..4] == IntToString(d.year)
      && r[4..6] == FormatToTwoDigits(d.month)
      && r[6..8] == FormatToTwoDigits(d.day)
  {
    YearDigits(d.year);
    TwoDigits(d.month);
    TwoDigits(d.day);
    ThreeParts(IntToString(d.year), FormatToTwoDigits(d.month), FormatToTwoDigits(d.day));
  }

  lemma YearDigits(y: int)
    requires 1000 <= y <= 9999
    ensures |IntToString(y)| == 4 && AllDigits(IntToString(y))
  {
    YearText(y);
  }

  lemma TwoDigits(n: int)
    requires 0 <= n <= 99
    ensures |FormatToTwoDigits(n)| == 2 && AllDigits(FormatToTwoDigits(n))
  {
    FormatToTwoDigitsPads(n);
  }

  lemma YearText(y: int)
    requires 1000 <= y <= 9999
    ensures var ys := IntToString(y); |ys| == 4 && AllDigits(ys) && DigitsValue(ys) == y
  {
    assert Pow10(3) == 1000 && Pow10(4) == 10000;
    NatToStringLength(y, 4);
  }

  lemma ThreeParts(ys: string, ms: string, ds: string)
    requires |ys| == 4 && |ms| == 2 && |ds| == 2
    requires AllDigits(ys) && AllDigits(ms) && AllDigits(ds)
    ensures var r := ys + ms + ds;
      && |r| == 8 && AllDigits(r)
      && r[..4] == ys && r[4..6] == ms && r[6..8] == ds
  {
    AllDigitsConcat(ys, ms);
    AllDigitsConcat(ys + ms, ds);
    var r := ys + ms + ds;
    assert r[..4] == ys && r[4..6] == ms && r[6..8] == ds;
  }

  /** getDateFromWeek(year, weekNumber, baseDay, pickupDayDiff). */
  function GetDateFromWeek(year: int, weekNumber: int, baseDay: int, pickupDayDiff: int): string {
    FormatYmd(DateFromWeek(year, weekNumber, baseDay, pickupDayDiff))
  }

  /** For a four-digit year away from the ends of the range, any week
      1..53, any weekday and an offset of up to 60 days, the date lands in
      the year before, the year itself or the year after, and the text is
      exactly eight digits YYYYMMDD with a valid month and day. */
  lemma GetDateFromWeekShape(year: int, weekNumber: int, baseDay: int, pickupDayDiff: int)
    requires 1001 <= JsFullYear(year) <= 9998
    requires 1 <= weekNumber <= 53 && 1 <= baseDay <= 7 && -60 <= pickupDayDiff <= 60
    ensures var d := DateFromWeek(year, weekNumber, baseDay, pickupDayDiff);
      && JsFullYear(year) - 1 <= d.year <= JsFullYear(year) + 1
      && var r := GetDateFromWeek(year, weekNumber, baseDay, pickupDayDiff);
      && |r| == 8 && AllDigits(r)
      && r[..4] == IntToString(d.year)
      && r[4..6] == FormatToTwoDigits(d.month)
      && r[6..8] == FormatToTwoDigits(d.day)
  {
    var y := JsFullYear(year);
    var d := DateFromWeek(year, weekNumber, baseDay, pickupDayDiff);
    YearStartStep(y - 1);
    YearStartStep(y);
    YearStartStep(y + 1);
    YearBetween(d, y - 1, y + 1);
    FormatYmdShape(d);
  }

  /** With no offset, the resolved date has ISO week-year `year`, ISO week
      `weekNumber` and ISO weekday `baseDay`, for every week the year has and
      every weekday (years 0..99 stand for 1900..1999). */
  lemma DateFromWeekIsIsoWeekDate(year: int, weekNumber: int, baseDay: int)
    requires 1 <= weekNumber <= WeeksInYear(JsFullYear(year)) && 1 <= baseDay <= 7
    ensures var n := DayNumber(DateFromWeek(year, weekNumber, baseDay, 0));
      && IsoWeekYearOf(n) == JsFullYear(year)
      && IsoWeekOf(n) == weekNumber
      && IsoWeekday(n) == baseDay
  {
    WeekDateRoundTrip(JsFullYear(year), weekNumber, baseDay);
  }

  /** The offset moves the offset-0 date by that many days, in either
      direction, across month and year ends. */
  lemma GetDateFromWeekOffset(year: int, weekNumber: int, baseDay: int, k: int)
    ensures DateFromWeek(year, weekNumber, baseDay, k) == AddDays(DateFromWeek(year, weekNumber, baseDay, 0), k)
    ensures GetDateFromWeek(year, weekNumber, baseDay, k) == FormatYmd(AddDays(DateFromWeek(year, weekNumber, baseDay, 0), k))
  {
    DayNumberInjective(DateFromWeek(year, weekNumber, baseDay, k), AddDays(DateFromWeek(year, weekNumber, baseDay, 0), k));
  }

  /** The next week is 7 days later, the next weekday 1 day later. */
  lemma GetDateFromWeekSteps(year: int, weekNumber: int, baseDay: int, k: int)
    ensures DateFromWeek(year, weekNumber + 1, baseDay, k) == AddDays(DateFromWeek(year, weekNumber, baseDay, k), 7)
    ensures DateFromWeek(year, weekNumber, baseDay + 1, k) == AddDays(DateFromWeek(year, weekNumber, baseDay, k), 1)
  {
    DayNumberInjective(DateFromWeek(year, weekNumber + 1, baseDay, k), AddDays(DateFromWeek(year, weekNumber, baseDay, k), 7));
    DayNumberInjective(DateFromWeek(year, weekNumber, baseDay + 1, k), AddDays(DateFromWeek(year, weekNumber, baseDay, k), 1));
  }

  lemma YearText2024()
    ensures IntToString(2024) == "2024"
  {
    assert NatToString(2) == "2" && NatToString(20) == "20" && NatToString(202) == "202";
  }

  lemma YearText2025()
    ensures IntToString(2025) == "2025"
  {
    assert NatToString(2) == "2" && NatToString(20) == "20" && NatToString(202) == "202";
  }

  lemma TwoDigitText01()
    ensures FormatToTwoDigits(1) == "01"
  {
    assert NatToString(1) == "1";
  }

  lemma TwoDigitText12()
    ensures FormatToTwoDigits(12) == "12"
  {
    assert NatToString(1) == "1" && NatToString(12) == "12";
  }

  lemma TwoDigitText15()
    ensures FormatToTwoDigits(15) == "15"
  {
    assert NatToString(1) == "1" && NatToString(15) == "15";
  }

  lemma TwoDigitText30()
    ensures FormatToTwoDigits(30) == "30"
  {
    assert NatToString(3) == "3" && NatToString(30) == "30";
  }

  lemma FormatYmdOfParts(d: Date, y: string, m: string, dd: string)
    requires IntToString(d.year) == y && FormatToTwoDigits(d.month) == m && FormatToTwoDigits(d.day) == dd
    ensures FormatYmd(d) == y + m + dd
  {
  }

  lemma FormatYmdExamples()
    ensures FormatYmd(Date(2024, 12, 30)) == "20241230"
    ensures FormatYmd(Date(2025, 1, 15)) == "20250115"
  {
    FormatYmdFirstExample();
    FormatYmdSecondExample();
  }

  /** getDateFromWeek(2025, 1, 1): Monday of ISO week 1 of 2025 is
      30 December 2024. (The arguments are parameters fixed by the
      precondition, so that the verifier does not unfold the calendar from
      1970 on literal values.) */
  lemma GetDateFromWeekFirstMondayOf2025(year: int, weekNumber: int, baseDay: int, e: Date)
    requires year == 2025 && weekNumber == 1 && baseDay == 1 && e == Date(2024, 12, 30)
    ensures GetDateFromWeek(year, weekNumber, baseDay, 0) == "20241230"
  {
    Week1MondayOf2025();
    GetDateFromWeekIs(year, weekNumber, baseDay, e);
    FormatYmdFirstExample();
  }

  /** getDateFromWeek(2025, 3, 3): Wednesday of ISO week 3 of 2025 is
      15 January 2025. */
  lemma GetDateFromWeekWednesdayOfWeek3(year: int, weekNumber: int, baseDay: int, monday: Date, e: Date)
    requires year == 2025 && weekNumber == 3 && baseDay == 3
    requires monday == Date(2024, 12, 30) && e == Date(2025, 1, 15)
    ensures GetDateFromWeek(year, weekNumber, baseDay, 0) == "20250115"
  {
    Week1MondayOf2025();
    SixteenDaysAfter(monday, e);
    GetDateFromWeekIs(year, weekNumber, baseDay, e);
    FormatYmdSecondExample();
  }

  /** With no offset, getDateFromWeek prints the date whose day number is the
      ISO week date. */
  lemma GetDateFromWeekIs(year: int, weekNumber: int, baseDay: int, e: Date)
    requires Valid(e) && DayNumber(e) == WeekDateDayNumber(JsFullYear(year), weekNumber, baseDay)
    ensures GetDateFromWeek(year, weekNumber, baseDay, 0) == FormatYmd(e)
  {
    DayNumberInjective(DateFromWeek(year, weekNumber, baseDay, 0), e);
  }

  lemma SixteenDaysAfter(a: Date, b: Date)
    requires a == Date(2024, 12, 30) && b == Date(2025, 1, 15)
    ensures DayNumber(b) == DayNumber(a) + 16
  {
    YearStartStep(2024);
  }

  lemma ConcatFirstExample()
    ensures "2024" + "12" + "30" == "20241230"
  {
  }

  lemma FormatYmdFirstExample()
    ensures FormatYmd(Date(2024, 12, 30)) == "20241230"
  {
    YearText2024();
    TwoDigitText12();
    TwoDigitText30();
    FormatYmdOfParts(Date(2024, 12, 30), "2024", "12", "30");
    ConcatFirstExample();
  }

  lemma FormatYmdSecondExample()
    ensures FormatYmd(Date(2025, 1, 15)) == "20250115"
  {
    YearText2025();
    TwoDigitText01();
    TwoDigitText15();
    FormatYmdOfParts(Date(2025, 1, 15), "2025", "01", "15");
    assert "2025" + "01" + "15" == "20250115";
  }

  // ---------------------------------------------------------------------
  // getEndDateForDate

  /** What the YYYYMMDD formatting prints for an Invalid Date: getFullYear,
      getMonth and getDate are all NaN, and "NaN" is already longer than two
      characters. */
  const InvalidDateText: string := "NaNNaNNaN"

  /** The day count of an ISO 8601 duration as getEndDateForDate reads it:
      parseInt of the text with its first "P" and then its first "D"
      removed. */
  function DurationDays(duration: string): Option<int> {
    ParseInt(ReplaceFirst(ReplaceFirst(duration, "P", ""), "D", ""))
  }

  /** getEndDateForDate(startDate, duration): year, month and day from
      characters 0..4, 4..6 and 6..8 of the start, moved by the duration's
      day count and printed as YYYYMMDD. A part parseInt cannot read (NaN)
      makes the Date invalid. */
  function GetEndDateForDate(startDate: string, duration: string): string {
    DateText(EndDate(ParseInt(Slice(startDate, 0, 4)), ParseInt(Slice(startDate, 4, 6)),
                     ParseInt(Slice(startDate, 6, 8)), DurationDays(duration)))
  }

  /** addDays(new Date(year, month - 1, day), daysToAdd); None stands for NaN
      in the arguments and for Invalid Date in the result. */
  function EndDate(year: Option<int>, month: Option<int>, day: Option<int>, daysToAdd: Option<int>): Option<Date> {
    if year.None? || month.None? || day.None? || daysToAdd.None? then None
    else Some(FromDayNumber(JsMakeDay(year.value, month.value - 1, day.value) + daysToAdd.value))
  }

  /** The YYYYMMDD text of a Date, or of Invalid Date. */
  function DateText(d: Option<Date>): string {
    match d
    case None => InvalidDateText
    case Some(d) => FormatYmd(d)
  }

  /** "P" + n + "D" reads back as n days, for every integer n. */
  lemma DurationDaysOfDays(n: int)
    ensures DurationDays("P" + IntToString(n) + "D") == Some(n)
  {
    var t := IntToString(n);
    assert forall i :: 0 <= i < |t| ==> t[i] == '-' || IsDigit(t[i]);
    IndexOfFirstChar([], 'P', t + "D");
    assert [] + ['P'] + (t + "D") == "P" + t + "D";
    ReplaceFirstLiteral("P" + t + "D", "P", "", 0);
    assert ReplaceFirst("P" + t + "D", "P", "") == t + "D";
    IndexOfFirstChar(t, 'D', []);
    assert t + ['D'] + [] == t + "D";
    ReplaceFirstLiteral(t + "D", "D", "", |t|);
    assert ReplaceFirst(t + "D", "D", "") == t;
    ParseIntOfIntToString(n, []);
    assert t + [] == t;
  }

  /** The start date printed by the generator, moved by a duration of n
      days, is the date n days later, for every four-digit year and every n;
      with n == 0 the date comes back unchanged. */
  lemma GetEndDateForDateAddsDays(d: Date, n: int)
    requires Valid(d) && 1000 <= d.year <= 9999
    ensures GetEndDateForDate(FormatYmd(d), "P" + IntToString(n) + "D") == FormatYmd(AddDays(d, n))
  {
    var s := FormatYmd(d);
    var dur := "P" + IntToString(n) + "D";
    FormatYmdReadBack(d);
    DurationDaysOfDays(n);
    var e := EndDate(Some(d.year), Some(d.month), Some(d.day), Some(n));
    assert GetEndDateForDate(s, dur) == DateText(e);
    EndDateOfDate(d, n);
  }

  /** A duration of zero days gives the start back. */
  lemma GetEndDateForDateZeroDays(d: Date)
    requires Valid(d) && 1000 <= d.year <= 9999
    ensures GetEndDateForDate(FormatYmd(d), "P0D") == FormatYmd(d)
  {
    GetEndDateForDateAddsDays(d, 0);
    ZeroDaysText();
    AddZeroDays(d);
  }

  lemma ZeroDaysText()
    ensures "P" + IntToString(0) + "D" == "P0D"
  {
    assert NatToString(0) == "0";
  }

  /** The start text of a date of the 1900s written with the year field
      "00yy". */
  function TwoDigitYearText(d: Date): string
    requires 1900 <= d.year <= 1999
  {
    "00" + FormatToTwoDigits(d.year - 1900) + FormatToTwoDigits(d.month) + FormatToTwoDigits(d.day)
  }

  /** A start whose year field reads below 100 is taken by the Date
      constructor as a year of the 1900s: "00yyMMDD" moved by n days is the
      date n days after 19yy-MM-DD. */
  lemma GetEndDateForDateTwoDigitYear(d: Date, n: int)
    requires Valid(d) && 1900 <= d.year <= 1999
    ensures GetEndDateForDate(TwoDigitYearText(d), "P" + IntToString(n) + "D") == FormatYmd(AddDays(d, n))
  {
    TwoDigitYearReadBack(d);
    DurationDaysOfDays(n);
    EndDateOfTwoDigitYear(d, n);
  }

  /** parseInt reads 00yy, MM and DD back from the three fields. */
  lemma TwoDigitYearReadBack(d: Date)
    requires Valid(d) && 1900 <= d.year <= 1999
    ensures var s := TwoDigitYearText(d);
      && ParseInt(Slice(s, 0, 4)) == Some(d.year - 1900)
      && ParseInt(Slice(s, 4, 6)) == Some(d.month)
      && ParseInt(Slice(s, 6, 8)) == Some(d.day)
  {
    var yy := d.year - 1900;
    TwoDigitFields(yy, d.month, d.day);
    ReadZeroZeroFields(FormatToTwoDigits(yy), FormatToTwoDigits(d.month), FormatToTwoDigits(d.day));
  }

  /** Three numbers 0..99 print as two digits each that read back as the
      numbers. */
  lemma TwoDigitFields(a: int, b: int, c: int)
    requires 0 <= a <= 99 && 0 <= b <= 99 && 0 <= c <= 99
    ensures |FormatToTwoDigits(a)| == 2 && AllDigits(FormatToTwoDigits(a)) && DigitsValue(FormatToTwoDigits(a)) == a
    ensures |FormatToTwoDigits(b)| == 2 && AllDigits(FormatToTwoDigits(b)) && DigitsValue(FormatToTwoDigits(b)) == b
    ensures |FormatToTwoDigits(c)| == 2 && AllDigits(FormatToTwoDigits(c)) && DigitsValue(FormatToTwoDigits(c)) == c
  {
    FormatToTwoDigitsPads(a);
    FormatToTwoDigitsPads(b);
    FormatToTwoDigitsPads(c);
  }

  /** parseInt reads back the fields of "00" + t + ms + ds. */
  lemma ReadZeroZeroFields(t: string, ms: string, ds: string)
    requires |t| == 2 && |ms| == 2 && |ds| == 2 && AllDigits(t) && AllDigits(ms) && AllDigits(ds)
    ensures var s := "00" + t + ms + ds;
      && ParseInt(Slice(s, 0, 4)) == Some(DigitsValue(t))
      && ParseInt(Slice(s, 4, 6)) == Some(DigitsValue(ms))
      && ParseInt(Slice(s, 6, 8)) == Some(DigitsValue(ds))
  {
    ZeroZeroPrefix(t);
    ZeroZeroLength(t);
    ReadThreeFields("00" + t, ms, ds);
  }

  lemma ZeroZeroLength(t: string)
    ensures |"00" + t| == |t| + 2
  {
  }

  /** parseInt reads back each of the three digit fields of a date text. */
  lemma ReadThreeFields(ys: string, ms: string, ds: string)
    requires |ys| == 4 && |ms| == 2 && |ds| == 2 && AllDigits(ys) && AllDigits(ms) && AllDigits(ds)
    ensures var s := ys + ms + ds;
      && ParseInt(Slice(s, 0, 4)) == Some(DigitsValue(ys))
      && ParseInt(Slice(s, 4, 6)) == Some(DigitsValue(ms))
      && ParseInt(Slice(s, 6, 8)) == Some(DigitsValue(ds))
  {
    AllDigitsConcat(ys, ms);
    AllDigitsConcat(ys + ms, ds);
    var s := ys + ms + ds;
    assert s[0..4] == ys && s[4..6] == ms && s[6..8] == ds;
    ReadField(s, 0, 4, DigitsValue(ys));
    ReadField(s, 4, 6, DigitsValue(ms));
    ReadField(s, 6, 8, DigitsValue(ds));
  }

  /** new Date(yy, month - 1, day) with yy = year - 1900 is the date, moved
      by n days. */
  lemma EndDateOfTwoDigitYear(d: Date, n: int)
    requires Valid(d) && 1900 <= d.year <= 1999
    ensures EndDate(Some(d.year - 1900), Some(d.month), Some(d.day), Some(n)) == Some(AddDays(d, n))
  {
    JsMakeDayOfTwoDigitYear(d);
    EndDateOfDayNumber(d.year - 1900, d, n);
  }

  /** A year field that new Date turns, with d's month and day, into the day
      of d gives the end date d moved by the duration. */
  lemma EndDateOfDayNumber(year: int, d: Date, n: int)
    requires Valid(d) && JsMakeDay(year, d.month - 1, d.day) == DayNumber(d)
    ensures EndDate(Some(year), Some(d.month), Some(d.day), Some(n)) == Some(AddDays(d, n))
  {
  }

  /** new Date(yy, month - 1, day) with yy = year - 1900 is the date. */
  lemma JsMakeDayOfTwoDigitYear(d: Date)
    requires Valid(d) && 1900 <= d.year <= 1999
    ensures JsMakeDay(d.year - 1900, d.month - 1, d.day) == DayNumber(d)
  {
    var m := d.month - 1;
    assert m / 12 == 0 && m % 12 + 1 == d.month;
    assert JsFullYear(d.year - 1900) == d.year;
  }

  /** Two leading zeros add nothing to the value of a two-digit text. */
  lemma ZeroZeroPrefix(t: string)
    requires |t| == 2 && AllDigits(t)
    ensures AllDigits("00" + t) && DigitsValue("00" + t) == DigitsValue(t)
  {
    var u := "00" + t;
    assert u[..3][..2] == "00" && u[..3][2] == t[0] && u[3] == t[1];
    assert DigitsValue("00") == 0 by {
      assert "00"[..1] == "0" && "0"[..0] == [];
    }
    assert t[..1][..0] == [];
  }

  /** getEndDateForDate("00500101", "P0D") is "19500101": the year 50 of the
      start becomes 1950. */
  lemma GetEndDateForDateOfYear50(startDate: string, duration: string, d: Date)
    requires startDate == "00500101" && duration == "P0D" && d == Date(1950, 1, 1)
    ensures GetEndDateForDate(startDate, duration) == "19500101"
  {
    NewYear1950(d);
    Year50Text(d);
    Year50End(d);
    ZeroDaysText();
    GetEndDateForDateTwoDigitYear(d, 0);
  }

  lemma Year50Text(d: Date)
    requires d == Date(1950, 1, 1)
    ensures TwoDigitYearText(d) == "00500101"
  {
    TwoDigitText50();
    TwoDigitText01();
    ConcatYear50Start();
  }

  lemma Year50End(d: Date)
    requires d == Date(1950, 1, 1)
    ensures FormatYmd(AddDays(d, 0)) == "19500101"
  {
    AddZeroDays(d);
    TwoDigitText01();
    YearText1950();
    FormatYmdOfParts(d, "1950", "01", "01");
    ConcatYear50End();
  }

  lemma NewYear1950(d: Date)
    requires d == Date(1950, 1, 1)
    ensures Valid(d) && 1900 <= d.year <= 1999
  {
  }

  lemma ConcatYear50Start()
    ensures "00" + "50" + "01" + "01" == "00500101"
  {
  }

  lemma ConcatYear50End()
    ensures "1950" + "01" + "01" == "19500101"
  {
  }

  /** Adding no days gives the date back. */
  lemma AddZeroDays(d: Date)
    requires Valid(d)
    ensures AddDays(d, 0) == d
  {
    DayNumberInjective(AddDays(d, 0), d);
  }

  lemma TwoDigitText50()
    ensures FormatToTwoDigits(50) == "50"
  {
    assert NatToString(5) == "5" && NatToString(50) == "50";
  }

  lemma YearText1950()
    ensures IntToString(1950) == "1950"
  {
    assert NatToString(1) == "1" && NatToString(19) == "19" && NatToString(195) == "195";
  }

  lemma EndDateOfDate(d: Date, n: int)
    requires Valid(d) && !(0 <= d.year <= 99)
    ensures EndDate(Some(d.year), Some(d.month), Some(d.day), Some(n)) == Some(AddDays(d, n))
  {
    JsMakeDayOfDate(d);
  }

  /** parseInt reads year, month and day back from the three fields of a
      date printed with a four-digit year. */
  lemma FormatYmdReadBack(d: Date)
    requires Valid(d) && 1000 <= d.year <= 9999
    ensures var s := FormatYmd(d);
      && ParseInt(Slice(s, 0, 4)) == Some(d.year)
      && ParseInt(Slice(s, 4, 6)) == Some(d.month)
      && ParseInt(Slice(s, 6, 8)) == Some(d.day)
  {
    var s := FormatYmd(d);
    FormatYmdShape(d);
    YearText(d.year);
    FormatToTwoDigitsPads(d.month);
    FormatToTwoDigitsPads(d.day);
    ReadField(s, 0, 4, d.year);
    ReadField(s, 4, 6, d.month);
    ReadField(s, 6, 8, d.day);
  }

  lemma ReadField(s: string, a: nat, b: nat, v: nat)
    requires AllDigits(s) && a < b <= |s| && DigitsValue(s[a..b]) == v
    ensures ParseInt(Slice(s, a, b)) == Some(v)
  {
    AllDigitsPart(s, a, b);
    ParseIntOfDigits(s[a..b]);
  }

  lemma AllDigitsPart(s: string, a: nat, b: nat)
    requires AllDigits(s) && a <= b <= |s|
    ensures AllDigits(s[a..b])
  {
    assert forall i :: 0 <= i < b - a ==> s[a..b][i] == s[a + i];
  }

  /** A start whose first four characters hold no number gives the invalid
      date text, whatever the duration. */
  lemma GetEndDateForDateUnreadableYear(startDate: string, duration: string)
    requires ParseInt(Slice(startDate, 0, 4)) == None
    ensures GetEndDateForDate(startDate, duration) == InvalidDateText
  {
  }

  /** A duration with no number in it gives the invalid date text, whatever
      the start. */
  lemma GetEndDateForDateUnreadableDuration(startDate: string, duration: string)
    requires DurationDays(duration) == None
    ensures GetEndDateForDate(startDate, duration) == InvalidDateText
  {
  }

  // ---------------------------------------------------------------------
  // toFileSafeName

  /** Combining diacritical marks, U+0300..U+036F. */
  predicate IsCombiningMark(c: char) {
    '\U{0300}' <= c <= '\U{036F}'
  }

  /** The characters toFileSafeName keeps: [a-zA-Z0-9-_]. */
  predicate IsSafeChar(c: char) {
    ('a' <= c <= 'z') || ('A' <= c <= 'Z') || ('0' <= c <= '9') || c == '-' || c == '_'
  }

  /** The characters a file-safe name is made of. */
  predicate IsSlugChar(c: char) {
    ('a' <= c <= 'z') || ('0' <= c <= '9') || c == '-' || c == '_'
  }

  predicate IsSlug(s: string) {
    forall i :: 0 <= i < |s| ==> IsSlugChar(s[i])
  }

  /** The canonical decomposition of an upper-case letter of the Latin-1
      Supplement, U+00C0 + k, as its base letter and its combining mark;
      the letters with no decomposition (Æ, Ð, ×, Ø, Þ, ß) give None. The
      lower-case letters U+00E0 + k decompose the same way onto the
      lower-case base letter. */
  function Latin1Decomposition(k: int): Option<(char, char)> {
    if 0 <= k <= 5 then Some(('A', ['\U{0300}', '\U{0301}', '\U{0302}', '\U{0303}', '\U{0308}', '\U{030A}'][k]))
    else if k == 7 then Some(('C', '\U{0327}'))
    else if 8 <= k <= 11 then Some(('E', ['\U{0300}', '\U{0301}', '\U{0302}', '\U{0308}'][k - 8]))
    else if 12 <= k <= 15 then Some(('I', ['\U{0300}', '\U{0301}', '\U{0302}', '\U{0308}'][k - 12]))
    else if k == 17 then Some(('N', '\U{0303}'))
    else if 18 <= k <= 22 then Some(('O', ['\U{0300}', '\U{0301}', '\U{0302}', '\U{0303}', '\U{0308}'][k - 18]))
    else if 25 <= k <= 28 then Some(('U', ['\U{0300}', '\U{0301}', '\U{0302}', '\U{0308}'][k - 25]))
    else if k == 29 then Some(('Y', '\U{0301}'))
    else None
  }

  /** normalize('NFD') on one character: the letters of the Latin-1
      Supplement with a canonical decomposition become base letter plus
      combining mark (ÿ, U+00FF, becomes y + U+0308); every other character
      stays as it is. */
  function Decompose(c: char): (r: string)
    ensures 1 <= |r| <= 2
    ensures |r| == 2 ==> IsCombiningMark(r[1]) && ('A' <= r[0] <= 'Z' || 'a' <= r[0] <= 'z')
    ensures !('\U{00C0}' <= c <= '\U{00FF}') ==> r == [c]
  {
    if c == '\U{00FF}' then ['y', '\U{0308}']
    else if '\U{00C0}' <= c <= '\U{00DF}' then
      match Latin1Decomposition(c as int - 0xC0)
      case None => [c]
      case Some(p) => [p.0, p.1]
    else if '\U{00E0}' <= c <= '\U{00FE}' then
      match Latin1Decomposition(c as int - 0xE0)
      case None => [c]
      case Some(p) => [LowerAscii(p.0), p.1]
    else [c]
  }

  function Nfd(s: string): (r: string)
    ensures |s| <= |r| <= 2 * |s|
  {
    if s == [] then [] else Decompose(s[0]) + Nfd(s[1..])
  }

  /** .replace(/[\u0300-\u036f]/g, ''). */
  function RemoveMarks(s: string): (r: string)
    ensures |r| <= |s|
    ensures forall i :: 0 <= i < |r| ==> !IsCombiningMark(r[i])
  {
    if s == [] then []
    else if IsCombiningMark(s[0]) then RemoveMarks(s[1..])
    else [s[0]] + RemoveMarks(s[1..])
  }

  /** .replace(/\s+/g, '-'): every maximal run of white space becomes one
      dash. */
  function DashWhitespaceRuns(s: string): (r: string)
    ensures forall i :: 0 <= i < |r| ==> !IsJsWhitespace(r[i])
    decreases |s|
  {
    if s == [] then []
    else if IsJsWhitespace(s[0]) then "-" + DashWhitespaceRuns(TrimStart(s))
    else [s[0]] + DashWhitespaceRuns(s[1..])
  }

  /** .replace(/[^a-zA-Z0-9-_]/g, ''). */
  function KeepSafe(s: string): (r: string)
    ensures |r| <= |s|
    ensures forall i :: 0 <= i < |r| ==> IsSafeChar(r[i])
  {
    if s == [] then []
    else if IsSafeChar(s[0]) then [s[0]] + KeepSafe(s[1..])
    else KeepSafe(s[1..])
  }

  /** toFileSafeName(name). The final toLowerCase sees only ASCII letters,
      digits, '-' and '_', so ASCII lower-casing is all it does. */
  function ToFileSafeName(name: string): string {
    LowerAsciiString(KeepSafe(DashWhitespaceRuns(RemoveMarks(Nfd(name)))))
  }

  /** Every file-safe name is made of a-z, 0-9, '-' and '_' only. */
  lemma ToFileSafeNameIsSlug(name: string)
    ensures IsSlug(ToFileSafeName(name))
  {
    var k := KeepSafe(DashWhitespaceRuns(RemoveMarks(Nfd(name))));
    assert forall i :: 0 <= i < |k| ==> IsSafeChar(k[i]);
  }

  /** A name already made of slug characters passes through unchanged. */
  lemma ToFileSafeNameOfSlug(s: string)
    requires IsSlug(s)
    ensures ToFileSafeName(s) == s
  {
    NfdOfSlug(s);
    RemoveMarksOfSlug(s);
    DashWhitespaceRunsOfSlug(s);
    KeepSafeOfSlug(s);
  }

  /** toFileSafeName is idempotent: a file-safe name is its own file-safe
      name. */
  lemma ToFileSafeNameIdempotent(name: string)
    ensures ToFileSafeName(ToFileSafeName(name)) == ToFileSafeName(name)
  {
    ToFileSafeNameIsSlug(name);
    ToFileSafeNameOfSlug(ToFileSafeName(name));
  }

  lemma {:induction false} NfdOfSlug(s: string)
    requires IsSlug(s)
    ensures Nfd(s) == s
  {
    if s != [] {
      NfdOfSlug(s[1..]);
      assert s == [s[0]] + s[1..];
    }
  }

  lemma {:induction false} RemoveMarksOfSlug(s: string)
    requires IsSlug(s)
    ensures RemoveMarks(s) == s
  {
    if s != [] {
      RemoveMarksOfSlug(s[1..]);
      assert s == [s[0]] + s[1..];
    }
  }

  lemma {:induction false} DashWhitespaceRunsOfSlug(s: string)
    requires IsSlug(s)
    ensures DashWhitespaceRuns(s) == s
  {
    if s != [] {
      DashWhitespaceRunsOfSlug(s[1..]);
      assert s == [s[0]] + s[1..];
    }
  }

  lemma {:induction false} KeepSafeOfSlug(s: string)
    requires IsSlug(s)
    ensures KeepSafe(s) == s
  {
    if s != [] {
      KeepSafeOfSlug(s[1..]);
      assert s == [s[0]] + s[1..];
    }
  }

  predicate AllWhitespace(w: string) {
    forall i :: 0 <= i < |w| ==> IsJsWhitespace(w[i])
  }

  /** A maximal run of white space, however long and whatever its
      characters, becomes exactly one dash, and the text on both sides is
      converted on its own. */
  lemma WhitespaceRunBecomesOneDash(u: string, w: string, v: string)
    requires w != [] && AllWhitespace(w)
    requires u == [] || !IsJsWhitespace(u[|u| - 1])
    requires v == [] || !IsJsWhitespace(v[0])
    ensures DashWhitespaceRuns(u + w + v) == DashWhitespaceRuns(u) + "-" + DashWhitespaceRuns(v)
  {
    DashWhitespaceRunsConcat(u, w + v);
    RunThenText(w, v);
    SeqAssoc(u, w, v);
    SeqAssoc(DashWhitespaceRuns(u), "-", DashWhitespaceRuns(v));
  }

  lemma RunThenText(w: string, v: string)
    requires w != [] && AllWhitespace(w)
    requires v == [] || !IsJsWhitespace(v[0])
    ensures DashWhitespaceRuns(w + v) == "-" + DashWhitespaceRuns(v)
  {
    TrimStartOfRun(w, v);
    assert (w + v)[0] == w[0];
  }

  /** Text that ends in a character other than white space is converted
      independently of what follows it. */
  lemma {:induction false} DashWhitespaceRunsConcat(a: string, b: string)
    requires a == [] || !IsJsWhitespace(a[|a| - 1])
    ensures DashWhitespaceRuns(a + b) == DashWhitespaceRuns(a) + DashWhitespaceRuns(b)
    decreases |a|, 1
  {
    if a == [] {
      assert a + b == b;
    } else if IsJsWhitespace(a[0]) {
      DashWhitespaceRunsConcatRun(a, b);
    } else {
      DashWhitespaceRunsConcatText(a, b);
    }
  }

  lemma {:induction false} DashWhitespaceRunsConcatRun(a: string, b: string)
    requires a != [] && IsJsWhitespace(a[0]) && !IsJsWhitespace(a[|a| - 1])
    ensures DashWhitespaceRuns(a + b) == DashWhitespaceRuns(a) + DashWhitespaceRuns(b)
    decreases |a|, 0
  {
    TrimStartBeforeText(a, b);
    var t := TrimStart(a);
    assert t != [] && t[|t| - 1] == a[|a| - 1];
    DashWhitespaceRunsConcat(t, b);
    assert (a + b)[0] == a[0];
    assert DashWhitespaceRuns(a + b) == "-" + DashWhitespaceRuns(t + b);
  }

  lemma {:induction false} DashWhitespaceRunsConcatText(a: string, b: string)
    requires a != [] && !IsJsWhitespace(a[0]) && !IsJsWhitespace(a[|a| - 1])
    ensures DashWhitespaceRuns(a + b) == DashWhitespaceRuns(a) + DashWhitespaceRuns(b)
    decreases |a|, 0
  {
    assert (a + b)[0] == a[0];
    assert (a + b)[1..] == a[1..] + b;
    DashWhitespaceRunsConcat(a[1..], b);
    assert DashWhitespaceRuns(a + b) == [a[0]] + DashWhitespaceRuns(a[1..] + b);
  }

  /** TrimStart removes a run of white space and stops at the first
      character that is not white space. */
  lemma {:induction false} TrimStartOfRun(w: string, v: string)
    requires AllWhitespace(w)
    requires v == [] || !IsJsWhitespace(v[0])
    ensures TrimStart(w + v) == v
  {
    if w != [] {
      assert (w + v)[1..] == w[1..] + v;
      TrimStartOfRun(w[1..], v);
    } else {
      assert w + v == v;
    }
  }

  /** When a ends in a character that is not white space, trimming a + b
      trims only inside a. */
  lemma {:induction false} TrimStartBeforeText(a: string, b: string)
    requires a != [] && !IsJsWhitespace(a[|a| - 1])
    ensures TrimStart(a + b) == TrimStart(a) + b
  {
    if IsJsWhitespace(a[0]) {
      assert |a| > 1;
      assert (a + b)[1..] == a[1..] + b;
      TrimStartBeforeText(a[1..], b);
    }
  }

  /** A letter of the Latin-1 Supplement with a canonical decomposition
      loses its accent and is lower-cased: Å, Ä and Ö become a, a and o. */
  lemma AccentedLetterLosesAccent(c: char)
    requires '\U{00C0}' <= c <= '\U{00FF}' && |Decompose(c)| == 2
    ensures ToFileSafeName([c]) == [LowerAscii(Decompose(c)[0])]
  {
    var d := Decompose(c);
    assert [c][1..] == [];
    assert Nfd([c]) == d + [];
    assert RemoveMarks(d) == [d[0]] by {
      assert d[1..][1..] == [];
      assert RemoveMarks(d[1..]) == [];
    }
    var b := [d[0]];
    assert b[1..] == [];
    assert !IsJsWhitespace(d[0]) && IsSafeChar(d[0]);
    assert DashWhitespaceRuns(b) == b + [];
    assert KeepSafe(b) == b + [];
    assert Nfd([c]) == d;
    assert RemoveMarks(Nfd([c])) == b;
    assert KeepSafe(DashWhitespaceRuns(b)) == b;
    assert LowerAsciiString(b) == [LowerAscii(d[0])];
  }

  /** File-safe names are built piece by piece: cutting the name after a
      character that is kept (a letter, digit, '-' or '_') cuts the result
      there too. */
  lemma ToFileSafeNameConcat(a: string, b: string)
    requires a != [] && IsSafeChar(a[|a| - 1])
    ensures ToFileSafeName(a + b) == ToFileSafeName(a) + ToFileSafeName(b)
  {
    MarksRemovedConcat(a, b);
    DashWhitespaceRunsConcat(RemoveMarks(Nfd(a)), RemoveMarks(Nfd(b)));
    SafeLowerConcat(DashWhitespaceRuns(RemoveMarks(Nfd(a))), DashWhitespaceRuns(RemoveMarks(Nfd(b))));
  }

  /** The first two steps of toFileSafeName work character by character, and
      a kept last character stays last. */
  lemma MarksRemovedConcat(a: string, b: string)
    requires a != [] && IsSafeChar(a[|a| - 1])
    ensures RemoveMarks(Nfd(a + b)) == RemoveMarks(Nfd(a)) + RemoveMarks(Nfd(b))
    ensures var r := RemoveMarks(Nfd(a)); r == [] || !IsJsWhitespace(r[|r| - 1])
  {
    NfdConcat(a, b);
    RemoveMarksConcat(Nfd(a), Nfd(b));
    MarksRemovedEnd(a);
  }

  lemma MarksRemovedEnd(a: string)
    requires a != [] && IsSafeChar(a[|a| - 1])
    ensures var r := RemoveMarks(Nfd(a)); r != [] && !IsJsWhitespace(r[|r| - 1])
  {
    NfdEndsInSafeChar(a);
    RemoveMarksEndsInSafeChar(Nfd(a));
  }

  /** The last two steps of toFileSafeName work character by character. */
  lemma SafeLowerConcat(x: string, y: string)
    ensures LowerAsciiString(KeepSafe(x + y)) == LowerAsciiString(KeepSafe(x)) + LowerAsciiString(KeepSafe(y))
  {
    KeepSafeConcat(x, y);
    LowerAsciiStringConcat(KeepSafe(x), KeepSafe(y));
  }

  lemma {:induction false} NfdConcat(a: string, b: string)
    ensures Nfd(a + b) == Nfd(a) + Nfd(b)
  {
    if a != [] {
      assert (a + b)[0] == a[0];
      assert (a + b)[1..] == a[1..] + b;
      NfdConcat(a[1..], b);
      SeqAssoc(Decompose(a[0]), Nfd(a[1..]), Nfd(b));
    } else {
      assert a + b == b;
    }
  }

  lemma NfdEndsInSafeChar(a: string)
    requires a != [] && IsSafeChar(a[|a| - 1])
    ensures var n := Nfd(a); n != [] && n[|n| - 1] == a[|a| - 1] && IsSafeChar(n[|n| - 1])
  {
    var x := a[|a| - 1];
    LastSplit(a);
    NfdConcat(a[..|a| - 1], [x]);
    NfdOfSafeChar(x);
    LastOfConcat(Nfd(a[..|a| - 1]), [x]);
  }

  lemma NfdOfSafeChar(x: char)
    requires IsSafeChar(x)
    ensures Nfd([x]) == [x]
  {
    assert [x][1..] == [];
  }

  lemma LastSplit<T>(a: seq<T>)
    requires a != []
    ensures a == a[..|a| - 1] + [a[|a| - 1]]
  {
  }

  lemma LastOfConcat<T>(p: seq<T>, q: seq<T>)
    requires q != []
    ensures p + q != [] && (p + q)[|p + q| - 1] == q[|q| - 1]
  {
  }

  lemma {:induction false} RemoveMarksConcat(a: string, b: string)
    ensures RemoveMarks(a + b) == RemoveMarks(a) + RemoveMarks(b)
  {
    if a != [] {
      assert (a + b)[0] == a[0];
      assert (a + b)[1..] == a[1..] + b;
      RemoveMarksConcat(a[1..], b);
      if !IsCombiningMark(a[0]) {
        SeqAssoc([a[0]], RemoveMarks(a[1..]), RemoveMarks(b));
      }
    } else {
      assert a + b == b;
    }
  }

  lemma RemoveMarksEndsInSafeChar(a: string)
    requires a != [] && IsSafeChar(a[|a| - 1])
    ensures var r := RemoveMarks(a); r != [] && r[|r| - 1] == a[|a| - 1] && !IsJsWhitespace(r[|r| - 1])
  {
    var x := a[|a| - 1];
    LastSplit(a);
    RemoveMarksConcat(a[..|a| - 1], [x]);
    RemoveMarksOfSafeChar(x);
    LastOfConcat(RemoveMarks(a[..|a| - 1]), [x]);
  }

  lemma RemoveMarksOfSafeChar(x: char)
    requires IsSafeChar(x)
    ensures RemoveMarks([x]) == [x] && !IsJsWhitespace(x)
  {
    assert [x][1..] == [];
    assert !IsCombiningMark(x);
  }

  lemma {:induction false} KeepSafeConcat(a: string, b: string)
    ensures KeepSafe(a + b) == KeepSafe(a) + KeepSafe(b)
  {
    if a != [] {
      assert (a + b)[0] == a[0];
      assert (a + b)[1..] == a[1..] + b;
      KeepSafeConcat(a[1..], b);
      if IsSafeChar(a[0]) {
        SeqAssoc([a[0]], KeepSafe(a[1..]), KeepSafe(b));
      }
    } else {
      assert a + b == b;
    }
  }

  lemma LowerAsciiStringConcat(a: string, b: string)
    ensures LowerAsciiString(a + b) == LowerAsciiString(a) + LowerAsciiString(b)
  {
  }
}
