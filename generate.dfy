/** generate.js: the prototype that turns lists of date strings per waste
    type into events, and merges the two lists into one calendar sorted by
    date. Loading the schedule, the ics library and the file writes are not
    part of this model. */
module Generate {
  import opened Wrappers
  import opened JsString
  import opened Gregorian
  import opened Utils

  // ---------------------------------------------------------------------
  // parseISO (date-fns, additionalDigits 2) on date-only strings

  /** What parseDate yields: the [year, month, day] of a date, the
      [NaN, NaN, NaN] of an invalid date, or a string with a time or zone
      part, which this model does not interpret. */
  datatype ParsedDate = Day(date: Date) | InvalidDate | TimeOfDayNotModelled

  predicate IsSign(c: char) {
    c == '+' || c == '-'
  }

  function Signed(sign: char, v: int): int {
    if sign == '-' then -v else v
  }

  /** The year parseYear reads, and the rest of the string after it. */
  datatype YearPart = YearPart(year: int, rest: string)

  /** parseYear: four digits or a sign and six digits at the start give the
      year; a whole string of two digits, or a sign and four digits, gives a
      century (times 100). Anything else has no year. */
  function ParseYear(s: string): Option<YearPart> {
    if |s| >= 4 && AllDigits(s[..4]) then Some(YearPart(DigitsValue(s[..4]), s[4..]))
    else if |s| >= 7 && IsSign(s[0]) && AllDigits(s[1..7]) then Some(YearPart(Signed(s[0], DigitsValue(s[1..7])), s[7..]))
    else if |s| == 2 && AllDigits(s) then Some(YearPart(100 * DigitsValue(s), ""))
    else if |s| == 5 && IsSign(s[0]) && AllDigits(s[1..]) then Some(YearPart(100 * Signed(s[0], DigitsValue(s[1..])), ""))
    else None
  }

  /** The fields the date pattern captures, with parseDateUnit's default of 1
      for a missing field already applied and months and weekdays made
      0-based. */
  datatype DateFields =
    | CalendarFields(dayOfYear: int, month0: int, day: int)
    | WeekFields(week: int, dayOfWeek0: int)

  /** The date pattern after the year: an optional '-', then nothing, a
      week (W followed by the week fields) or the calendar fields. */
  function MatchDateRest(rest: string): Option<DateFields> {
    var b := if rest != [] && rest[0] == '-' then rest[1..] else rest;
    if b == [] then Some(CalendarFields(1, 0, 1))
    else if b[0] == 'W' then MatchWeek(b[1..])
    else MatchCalendar(b)
  }

  /** After the W: a week (dd), a week and a weekday (ddd), or a week, a '-'
      and a weekday (dd-d). */
  function MatchWeek(c: string): Option<DateFields> {
    if |c| == 2 && AllDigits(c) then Some(WeekFields(DigitsValue(c), 0))
    else if |c| == 3 && AllDigits(c) then Some(WeekFields(DigitsValue(c[..2]), DigitValue(c[2]) - 1))
    else if |c| == 4 && AllDigits(c[..2]) && c[2] == '-' && IsDigit(c[3]) then Some(WeekFields(DigitsValue(c[..2]), DigitValue(c[3]) - 1))
    else None
  }

  /** A day of the year (ddd), a month (dd), a month and day (dddd), or a
      month, a '-' and a day (dd-dd). */
  function MatchCalendar(b: string): Option<DateFields> {
    if |b| == 3 && AllDigits(b) then Some(CalendarFields(DigitsValue(b), 0, 1))
    else if |b| == 2 && AllDigits(b) then Some(CalendarFields(1, DigitsValue(b) - 1, 1))
    else if |b| == 4 && AllDigits(b) then Some(CalendarFields(1, DigitsValue(b[..2]) - 1, DigitsValue(b[2..])))
    else if |b| == 5 && AllDigits(b[..2]) && b[2] == '-' && AllDigits(b[3..]) then
      Some(CalendarFields(1, DigitsValue(b[..2]) - 1, DigitsValue(b[3..])))
    else None
  }

  /** dayOfISOWeekYear: from 4 January of the year, go back to its weekday
      and forward by the weeks and the weekday asked for. */
  function DayOfIsoWeekYear(year: int, week: int, dayOfWeek0: int): int {
    var jan4 := YearStart(year) + 3;
    jan4 + (week - 1) * 7 + dayOfWeek0 + 1 - IsoWeekday(jan4)
  }

  /** It is the ISO week date: weekday dayOfWeek0 + 1 of week `week` of the
      ISO week-year `year`. */
  lemma DayOfIsoWeekYearIsWeekDate(year: int, week: int, dayOfWeek0: int)
    ensures DayOfIsoWeekYear(year, week, dayOfWeek0) == WeekDateDayNumber(year, week, dayOfWeek0 + 1)
  {
  }

  /** validateWeekDate / validateDate and validateDayOfYearDate, then the
      day the fields name (setUTCFullYear takes the year as it is). */
  function FieldsDay(year: int, f: DateFields): Option<int> {
    match f
    case WeekFields(w, d0) =>
      if 1 <= w <= 53 && 0 <= d0 <= 6 then Some(DayOfIsoWeekYear(year, w, d0)) else None
    case CalendarFields(doy, m0, d) =>
      if 0 <= m0 <= 11 && 1 <= d <= DaysInMonth(year, m0 + 1) && 1 <= doy <= DaysInYear(year)
      then Some(DayNumber(Date(year, m0 + 1, 1)) + (if doy > d then doy else d) - 1)
      else None
  }

  /** parseISO of a string without a time part: the day number of the date
      it names (a Date's time value, counted in days), or None for an
      invalid date. */
  function ParseIsoDay(s: string): Option<int> {
    match ParseYear(s)
    case None => None
    case Some(yp) =>
      match MatchDateRest(yp.rest)
      case None => None
      case Some(f) => FieldsDay(yp.year, f)
  }

  /** A character at which parseISO splits off a time or a time zone. */
  predicate HasTimePart(s: string) {
    'T' in s || ' ' in s || 'Z' in s || 'z' in s
  }

  /** What parseISO yields: the day of a valid date, an invalid date, or a
      string with a time or zone part, which this model does not
      interpret. */
  datatype Instant = At(day: int) | NotADate | TimeNotModelled

  function ParseIso(s: string): Instant {
    if HasTimePart(s) then TimeNotModelled
    else
      match ParseIsoDay(s)
      case None => NotADate
      case Some(n) => At(n)
  }

  /** parseDate(input): an input containing 'W' is read as an ISO week date
      and moved to the Tuesday of its week (startOfISOWeek, plus one day);
      any other input is the date it parses to. The result is the
      [year, month, day] of the local date. */
  function ParseDate(input: string): ParsedDate {
    match ParseIso(input)
    case At(n) => Day(FromDayNumber(if 'W' in input then StartOfIsoWeek(n) + 1 else n))
    case NotADate => InvalidDate
    case TimeNotModelled => TimeOfDayNotModelled
  }

  /** Whatever the input, a 'W' input that parses comes out as a Tuesday of
      the same ISO week as the day it names. */
  lemma WeekInputGivesTuesday(input: string)
    requires 'W' in input && ParseIso(input).At?
    ensures ParseDate(input).Day?
    ensures var n := DayNumber(ParseDate(input).date);
      && IsoWeekday(n) == 2
      && StartOfIsoWeek(n) == StartOfIsoWeek(ParseIso(input).day)
  {
    var n := ParseIso(input).day;
    ParseDateOfWeekInput(input, n);
    TuesdayAfterMonday(n);
  }

  /** The day after the Monday of n's week is a Tuesday of the same week. */
  lemma TuesdayAfterMonday(n: int)
    ensures var t := StartOfIsoWeek(n) + 1; IsoWeekday(t) == 2 && StartOfIsoWeek(t) == StartOfIsoWeek(n)
  {
    IsoWeekdayNext(StartOfIsoWeek(n));
  }

  /** A 'W' input that parses to day n comes out as the day after the Monday
      of n's week. */
  lemma ParseDateOfWeekInput(input: string, n: int)
    requires 'W' in input && ParseIso(input) == At(n)
    ensures ParseDate(input) == Day(FromDayNumber(StartOfIsoWeek(n) + 1))
  {
  }

  /** The characters of a date-only ISO string. */
  predicate DateChars(s: string) {
    forall i :: 0 <= i < |s| ==> IsDigit(s[i]) || s[i] == '-' || s[i] == 'W'
  }

  lemma DateCharsHaveNoTimePart(s: string)
    requires DateChars(s)
    ensures !HasTimePart(s)
  {
  }

  /** "YYYY-MM-DD" for a four-digit year and two-digit fields reads back as
      that year, month and day when they form a date, and as an invalid date
      otherwise (a month 13, a 30 February). */
  lemma ParseDateOfCalendarText(y: int, m: int, d: int)
    requires 1000 <= y <= 9999 && 0 <= m <= 99 && 0 <= d <= 99
    ensures var s := IntToString(y) + "-" + FormatToTwoDigits(m) + "-" + FormatToTwoDigits(d);
      ParseDate(s) == if 1 <= m <= 12 && Valid(Date(y, m, d)) then Day(Date(y, m, d)) else InvalidDate
  {
    YearText(y);
    FormatToTwoDigitsPads(m);
    FormatToTwoDigitsPads(d);
    CalendarTextDate(IntToString(y), FormatToTwoDigits(m), FormatToTwoDigits(d), y, m, d);
  }

  /** The same, for any four digits reading y and two-digit texts reading m
      and d. */
  lemma CalendarTextDate(ys: string, ms: string, ds: string, y: int, m: int, d: int)
    requires |ys| == 4 && |ms| == 2 && |ds| == 2 && AllDigits(ys) && AllDigits(ms) && AllDigits(ds)
    requires DigitsValue(ys) == y && DigitsValue(ms) == m && DigitsValue(ds) == d
    ensures ParseDate(ys + "-" + ms + "-" + ds) == if 1 <= m <= 12 && Valid(Date(y, m, d)) then Day(Date(y, m, d)) else InvalidDate
  {
    var s := ys + "-" + ms + "-" + ds;
    CalendarTextParts(ys, ms, ds);
    ParseYearOfFourDigits(ys, s[4..]);
    MatchCalendarRest(ms, ds);
    ParseIsoOfParts(s, y, CalendarFields(1, m - 1, d));
    ParseDateOfCalendarFields(s, y, m, d);
  }

  /** A string without 'W' whose date part holds calendar fields y, m, d
      parses to that date, or to an invalid date when it is not one. */
  lemma ParseDateOfCalendarFields(s: string, y: int, m: int, d: int)
    requires 'W' !in s && !HasTimePart(s) && ParseIsoDay(s) == FieldsDay(y, CalendarFields(1, m - 1, d))
    ensures ParseDate(s) == if 1 <= m <= 12 && Valid(Date(y, m, d)) then Day(Date(y, m, d)) else InvalidDate
  {
    var r := FieldsDay(y, CalendarFields(1, m - 1, d));
    CalendarFieldsDay(y, m, d);
    ParseDateOfDay(s, r);
    if r.Some? {
      FromDayNumberOfDayNumber(Date(y, m, d));
    }
  }

  /** The calendar fields of a month and a day name their date exactly when
      it is valid. */
  lemma CalendarFieldsDay(y: int, m: int, d: int)
    ensures var r := FieldsDay(y, CalendarFields(1, m - 1, d));
      && (r.Some? <==> 1 <= m <= 12 && Valid(Date(y, m, d)))
      && (r.Some? ==> r.value == DayNumber(Date(y, m, d)))
  {
  }

  /** A string without 'W' whose date part names day n (or no day) parses to
      the date of day n (or an invalid date). */
  lemma ParseDateOfDay(s: string, r: Option<int>)
    requires 'W' !in s && !HasTimePart(s) && ParseIsoDay(s) == r
    ensures r.None? ==> ParseDate(s) == InvalidDate
    ensures r.Some? ==> ParseDate(s) == Day(FromDayNumber(r.value))
  {
  }

  /** A date-only string parses to the day its year and date fields name, or
      is invalid when the fields do not validate. */
  lemma ParseIsoOfParts(s: string, y: int, f: DateFields)
    requires DateChars(s) && |s| >= 4 && ParseYear(s) == Some(YearPart(y, s[4..])) && MatchDateRest(s[4..]) == Some(f)
    ensures !HasTimePart(s) && ParseIsoDay(s) == FieldsDay(y, f)
  {
    DateCharsHaveNoTimePart(s);
  }

  /** Four digits at the start are the year. */
  lemma ParseYearOfFourDigits(ys: string, rest: string)
    requires |ys| == 4 && AllDigits(ys)
    ensures ParseYear(ys + rest) == Some(YearPart(DigitsValue(ys), rest))
  {
    assert (ys + rest)[..4] == ys;
    assert (ys + rest)[4..] == rest;
  }

  lemma CalendarTextParts(ys: string, ms: string, ds: string)
    requires |ys| == 4 && |ms| == 2 && |ds| == 2 && AllDigits(ys) && AllDigits(ms) && AllDigits(ds)
    ensures var s := ys + "-" + ms + "-" + ds;
      && DateChars(s) && 'W' !in s && |s| == 10 && s == ys + s[4..] && s[4..] == "-" + (ms + "-" + ds)
  {
    var s := ys + "-" + ms + "-" + ds;
    assert forall i :: 0 <= i < |s| ==> s[i] == if i < 4 then ys[i] else if i == 4 then '-' else if i < 7 then ms[i - 5] else if i == 7 then '-' else ds[i - 8];
    assert s == ys + ("-" + (ms + "-" + ds));
  }

  lemma MatchCalendarRest(ms: string, ds: string)
    requires |ms| == 2 && |ds| == 2 && AllDigits(ms) && AllDigits(ds)
    ensures MatchDateRest("-" + (ms + "-" + ds)) == Some(CalendarFields(1, DigitsValue(ms) - 1, DigitsValue(ds)))
  {
    var b := ms + "-" + ds;
    assert ("-" + b)[1..] == b;
    assert b[0] == ms[0];
    assert b[..2] == ms && b[2] == '-' && b[3..] == ds;
  }

  lemma MatchWeekRest(wt: string, c: char)
    requires |wt| == 2 && AllDigits(wt) && IsDigit(c)
    ensures MatchDateRest("-" + ("W" + wt)) == Some(WeekFields(DigitsValue(wt), 0))
    ensures MatchDateRest("-" + ("W" + wt + "-" + [c])) == Some(WeekFields(DigitsValue(wt), DigitValue(c) - 1))
  {
    var b1 := "W" + wt;
    var b2 := "W" + wt + "-" + [c];
    assert ("-" + b1)[1..] == b1;
    assert ("-" + b2)[1..] == b2;
    assert b1[0] == 'W' && b1[1..] == wt;
    var c2 := b2[1..];
    assert b2[0] == 'W' && c2 == wt + "-" + [c];
    assert c2[..2] == wt && c2[2] == '-' && c2[3] == c;
  }

  /** "YYYY-Www" and "YYYY-Www-D", for any weekday digit D from 1 to 7, both
      come out as the Tuesday of ISO week ww of ISO week-year YYYY. */
  lemma ParseDateOfWeekText(y: int, w: int, k: int)
    requires 1000 <= y <= 9999 && 1 <= w <= WeeksInYear(y) && 1 <= k <= 7
    ensures var ws := IntToString(y) + "-W" + FormatToTwoDigits(w);
      && ParseDate(ws) == Day(FromDayNumber(WeekDateDayNumber(y, w, 2)))
      && ParseDate(ws + "-" + [DigitChar(k)]) == Day(FromDayNumber(WeekDateDayNumber(y, w, 2)))
    ensures var n := WeekDateDayNumber(y, w, 2);
      IsoWeekYearOf(n) == y && IsoWeekOf(n) == w && IsoWeekday(n) == 2
  {
    YearText(y);
    FormatToTwoDigitsPads(w);
    WeekTextDate(IntToString(y), FormatToTwoDigits(w), y, w, k);
    WeekDateRoundTrip(y, w, 2);
    TuesdayOfWeek(y, w, 2);
  }

  /** The same texts, for any four digits reading y and two digits reading w. */
  lemma WeekTextDate(ys: string, wt: string, y: int, w: int, k: int)
    requires |ys| == 4 && |wt| == 2 && AllDigits(ys) && AllDigits(wt) && DigitsValue(ys) == y && DigitsValue(wt) == w
    requires 1 <= w <= 53 && 1 <= k <= 7
    ensures ParseDate(ys + "-W" + wt) == Day(FromDayNumber(WeekDateDayNumber(y, w, 2)))
    ensures ParseDate(ys + "-W" + wt + "-" + [DigitChar(k)]) == Day(FromDayNumber(WeekDateDayNumber(y, w, 2)))
  {
    var c := DigitChar(k);
    WeekTextParts(ys, wt, c);
    MatchWeekRest(wt, c);
    WeekTextParses(y, w, 1, ys + "-W" + wt, WeekFields(w, 0));
    WeekTextParses(y, w, k, ys + "-W" + wt + "-" + [c], WeekFields(w, k - 1));
  }

  /** A 'W' string whose year and week fields name weekday k of week w comes
      out as the Tuesday of that week. */
  lemma WeekTextParses(y: int, w: int, k: int, s: string, f: DateFields)
    requires 1 <= w <= 53 && 1 <= k <= 7 && f == WeekFields(w, k - 1)
    requires DateChars(s) && 'W' in s
    requires |s| >= 4 && ParseYear(s) == Some(YearPart(y, s[4..])) && MatchDateRest(s[4..]) == Some(f)
    ensures ParseDate(s) == Day(FromDayNumber(WeekDateDayNumber(y, w, 2)))
  {
    ParseIsoOfParts(s, y, f);
    WeekFieldsDay(y, w, k);
    ParseDateOfWeekInput(s, WeekDateDayNumber(y, w, k));
    TuesdayOfWeek(y, w, k);
  }

  lemma WeekFieldsDay(y: int, w: int, k: int)
    requires 1 <= w <= 53 && 1 <= k <= 7
    ensures FieldsDay(y, WeekFields(w, k - 1)) == Some(WeekDateDayNumber(y, w, k))
  {
    DayOfIsoWeekYearIsWeekDate(y, w, k - 1);
  }

  lemma WeekTextParts(ys: string, wt: string, c: char)
    requires |ys| == 4 && |wt| == 2 && AllDigits(ys) && AllDigits(wt) && IsDigit(c)
    ensures var s1 := ys + "-W" + wt;
      var s2 := ys + "-W" + wt + "-" + [c];
      && DateChars(s1) && DateChars(s2) && 'W' in s1 && 'W' in s2 && |s1| >= 4 && |s2| >= 4
      && ParseYear(s1) == Some(YearPart(DigitsValue(ys), s1[4..]))
      && ParseYear(s2) == Some(YearPart(DigitsValue(ys), s2[4..]))
      && s1[4..] == "-" + ("W" + wt) && s2[4..] == "-" + ("W" + wt + "-" + [c])
  {
    var t1 := "-W" + wt;
    var t2 := "-W" + wt + "-" + [c];
    assert forall i :: 0 <= i < |t1| ==> t1[i] == if i == 0 then '-' else if i == 1 then 'W' else wt[i - 2];
    assert forall i :: 0 <= i < |t2| ==> t2[i] == if i < 4 then t1[i] else if i == 4 then '-' else c;
    WeekText(ys, t1);
    WeekText(ys, t2);
    SeqAssoc(ys, "-W", wt);
    Regroup3(ys, "-W", wt, "-", [c]);
    HeadSplit1('-', 'W', wt);
    HeadSplit('-', 'W', wt, "-", [c]);
  }

  /** Four year digits followed by a week text that holds 'W'. */
  lemma WeekText(ys: string, t: string)
    requires |ys| == 4 && AllDigits(ys) && |t| >= 2 && t[1] == 'W' && DateChars(t)
    ensures var s := ys + t;
      && DateChars(s) && 'W' in s && |s| >= 4 && s[4..] == t
      && ParseYear(s) == Some(YearPart(DigitsValue(ys), s[4..]))
  {
    var s := ys + t;
    assert s[5] == t[1];
    assert s[4..] == t;
    assert forall i :: 0 <= i < |s| ==> s[i] == if i < 4 then ys[i] else t[i - 4];
    ParseYearOfFourDigits(ys, t);
  }

  lemma Regroup3<T>(a: seq<T>, b: seq<T>, c: seq<T>, d: seq<T>, e: seq<T>)
    ensures a + b + c + d + e == a + (b + c + d + e)
  {
  }

  lemma HeadSplit1<T>(x: T, y: T, u: seq<T>)
    ensures [x, y] + u == [x] + ([y] + u)
  {
  }

  lemma HeadSplit<T>(x: T, y: T, u: seq<T>, v: seq<T>, w: seq<T>)
    ensures [x, y] + u + v + w == [x] + ([y] + u + v + w)
  {
  }

  /** Any day of an ISO week moves to the Tuesday of that week. */
  lemma TuesdayOfWeek(y: int, w: int, k: int)
    requires 1 <= k <= 7
    ensures StartOfIsoWeek(WeekDateDayNumber(y, w, k)) + 1 == WeekDateDayNumber(y, w, 2)
  {
    var m := Week1Monday(y);
    MondayPlus(m, w - 1, k - 1);
  }

  /** From a Monday, whole weeks and r days on lands on weekday r + 1. */
  lemma MondayPlus(m: int, q: int, r: int)
    requires IsoWeekday(m) == 1 && 0 <= r <= 6
    ensures IsoWeekday(m + 7 * q + r) == r + 1
  {
    var p := (m + 3) / 7;
    assert m + 3 == 7 * p;
    assert m + 7 * q + r + 3 == 7 * (p + q) + r;
  }

  // ---------------------------------------------------------------------
  // WasteType and createEventsForType

  datatype WasteType = Matavfall | Restavfall

  /** WasteType[typeKey].title */
  function TypeTitle(t: WasteType): string {
    match t
    case Matavfall => "Matavfall"
    case Restavfall => "Restavfall"
  }

  /** typeIcons[typeKey]: a brown and a green square. */
  function TypeIcon(t: WasteType): string {
    match t
    case Matavfall => "\U{1F7EB}"
    case Restavfall => "\U{1F7E9}"
  }

  /** The title every event of type t carries. */
  function EventTitle(t: WasteType): string {
    TypeIcon(t) + " " + TypeTitle(t)
  }

  /** The event object of the prototype. */
  datatype DatedEvent = DatedEvent(title: string, start: ParsedDate, durationDays: int, status: string)

  function TypeEvent(t: WasteType, dateText: string): DatedEvent {
    DatedEvent(TypeIcon(t) + " " + TypeTitle(t), ParseDate(dateText), 1, "CONFIRMED")
  }

  /** createEventsForType(typeKey, dates): one event per date, in the order of
      the dates. */
  function CreateEventsForType(t: WasteType, dates: seq<string>): (r: seq<DatedEvent>)
    ensures |r| == |dates|
    ensures forall i :: 0 <= i < |dates| ==> r[i].start == ParseDate(dates[i])
    ensures forall i :: 0 <= i < |dates| ==>
      r[i].title == EventTitle(t) && r[i].durationDays == 1 && r[i].status == "CONFIRMED"
  {
    if dates == [] then []
    else CreateEventsForType(t, dates[..|dates| - 1]) + [TypeEvent(t, dates[|dates| - 1])]
  }

  /** The titles of the two types' events differ. */
  lemma EventTitlesDiffer()
    ensures EventTitle(Matavfall) != EventTitle(Restavfall)
  {
    var a := EventTitle(Matavfall);
    var b := EventTitle(Restavfall);
    assert a[0] != b[0];
  }

  // ---------------------------------------------------------------------
  // The allEvents sort

  /** new Date(start[0], start[1] - 1, start[2]) as a day number; an invalid
      start gives an invalid Date (NaN). Years 0..99 are read as 1900..1999
      here, as the Date constructor does. */
  function SortKey(e: DatedEvent): Option<int> {
    match e.start
    case Day(d) => Some(JsMakeDay(d.year, d.month - 1, d.day))
    case _ => None
  }

  /** The comparator aDate - bDate, where a NaN difference counts as 0 (as
      the sort's comparison of ECMAScript treats it). */
  function Compare(a: DatedEvent, b: DatedEvent): int {
    match (SortKey(a), SortKey(b))
    case (Some(ka), Some(kb)) => ka - kb
    case _ => 0
  }

  /** x placed into t after every element that does not compare greater
      under cmp: one round of an insertion sort. */
  function InsertBy<T>(t: seq<T>, x: T, cmp: (T, T) -> int): (r: seq<T>)
    ensures |r| == |t| + 1
  {
    if t == [] then [x]
    else if cmp(t[|t| - 1], x) > 0 then InsertBy(t[..|t| - 1], x, cmp) + [t[|t| - 1]]
    else t + [x]
  }

  /** InsertBy with the comparator of the allEvents sort. */
  function Insert(t: seq<DatedEvent>, x: DatedEvent): seq<DatedEvent> {
    InsertBy(t, x, Compare)
  }

  /** The order a stable insertion sort with cmp produces. */
  function SortedBy<T>(s: seq<T>, cmp: (T, T) -> int): (r: seq<T>)
    ensures |r| == |s|
  {
    if s == [] then [] else InsertBy(SortedBy(s[..|s| - 1], cmp), s[|s| - 1], cmp)
  }

  /** The order of the allEvents sort. */
  function SortedByDate(s: seq<DatedEvent>): seq<DatedEvent> {
    SortedBy(s, Compare)
  }

  /** allEvents.sort(comparator): Array.prototype.sort with the date
      comparator, in place. */
  method SortEvents(a: array<DatedEvent>)
    modifies a
    ensures a[..] == SortedByDate(old(a[..]))
  {
    SortBy(a, Compare);
  }

  /** Sorts the array in place as a stable sort with cmp does: each element
      is moved left past the elements that compare greater than it. */
  method SortBy<T>(a: array<T>, cmp: (T, T) -> int)
    modifies a
    ensures a[..] == SortedBy(old(a[..]), cmp)
  {
    ghost var s := a[..];
    var i := 0;
    while i < a.Length
      invariant 0 <= i <= a.Length
      invariant a[..i] == SortedBy(s[..i], cmp)
      invariant a[i..] == s[i..]
    {
      DropStep(a[..], s, i);
      InsertLast(a, i, cmp);
      SortedByStep(s, i, cmp);
      i := i + 1;
    }
    assert a[..] == a[..a.Length] && s == s[..a.Length];
  }

  lemma SortedByStep<T>(s: seq<T>, i: nat, cmp: (T, T) -> int)
    requires i < |s|
    ensures SortedBy(s[..i + 1], cmp) == InsertBy(SortedBy(s[..i], cmp), s[i], cmp)
  {
    assert s[..i + 1][..i] == s[..i];
  }

  lemma DropStep<T>(u: seq<T>, v: seq<T>, i: nat)
    requires i < |u| && i <= |v| && u[i..] == v[i..]
    ensures i < |v| && u[i] == v[i] && u[i + 1..] == v[i + 1..]
  {
    assert u[i] == u[i..][0];
    assert u[i + 1..] == u[i..][1..];
  }

  /** One round of the sort: a[i] moves left past the elements of the
      sorted a[..i] that compare greater than it under cmp. */
  method InsertLast<T>(a: array<T>, i: nat, cmp: (T, T) -> int)
    requires i < a.Length
    modifies a
    ensures a[..i + 1] == InsertBy(old(a[..i]), old(a[i]), cmp)
    ensures a[i + 1..] == old(a[i + 1..])
  {
    var x := a[i];
    ghost var t := a[..i];
    var j := i;
    while j > 0 && cmp(a[j - 1], x) > 0
      invariant 0 <= j <= i
      invariant forall k :: 0 <= k < j ==> a[k] == t[k]
      invariant forall k :: j < k <= i ==> a[k] == t[k - 1]
      invariant a[i + 1..] == old(a[i + 1..])
      invariant forall k :: j <= k < i ==> cmp(t[k], x) > 0
    {
      a[j] := a[j - 1];
      j := j - 1;
    }
    a[j] := x;
    InsertAt(t, x, j, cmp);
    ShiftedIn(a[..i + 1], t, x, j);
  }

  /** u is t with x put in at j. */
  lemma ShiftedIn<T>(u: seq<T>, t: seq<T>, x: T, j: nat)
    requires |u| == |t| + 1 && j <= |t| && u[j] == x
    requires forall k :: 0 <= k < j ==> u[k] == t[k]
    requires forall k :: j < k < |u| ==> u[k] == t[k - 1]
    ensures u == t[..j] + [x] + t[j..]
  {
  }

  /** InsertBy(t, x, cmp) puts x at the position j after which every element
      compares greater than x and before which none does. */
  lemma {:induction false} InsertAt<T>(t: seq<T>, x: T, j: nat, cmp: (T, T) -> int)
    requires j <= |t| && (j == 0 || cmp(t[j - 1], x) <= 0)
    requires forall k :: j <= k < |t| ==> cmp(t[k], x) > 0
    ensures InsertBy(t, x, cmp) == t[..j] + [x] + t[j..]
    decreases |t|
  {
    if j < |t| {
      var n := |t| - 1;
      InsertAt(t[..n], x, j, cmp);
      assert t[..n][..j] == t[..j];
      assert t[j..] == t[..n][j..] + [t[n]];
    } else {
      assert t[..j] == t && t[j..] == [];
    }
  }

  /** The merge of generate.js: the matavfall events then the restavfall
      events, copied into a fresh array and sorted by date. */
  method CombineEvents(matavfall: seq<DatedEvent>, restavfall: seq<DatedEvent>) returns (all: seq<DatedEvent>)
    ensures all == SortedByDate(matavfall + restavfall)
  {
    var both := matavfall + restavfall;
    var a := new DatedEvent[|both|](i requires 0 <= i < |both| => both[i]);
    assert a[..] == both;
    SortEvents(a);
    all := a[..];
  }

  // Properties of the sort

  /** Sorting rearranges the elements and keeps every one of them. */
  lemma {:induction false} SortedByIsPermutation<T>(s: seq<T>, cmp: (T, T) -> int)
    ensures multiset(SortedBy(s, cmp)) == multiset(s)
  {
    if s != [] {
      var n := |s| - 1;
      SortedByIsPermutation(s[..n], cmp);
      InsertByIsPermutation(SortedBy(s[..n], cmp), s[n], cmp);
      assert s == s[..n] + [s[n]];
      assert multiset(s) == multiset(s[..n]) + multiset{s[n]};
    }
  }

  lemma {:induction false} InsertByIsPermutation<T>(t: seq<T>, x: T, cmp: (T, T) -> int)
    ensures multiset(InsertBy(t, x, cmp)) == multiset(t) + multiset{x}
  {
    if t != [] && cmp(t[|t| - 1], x) > 0 {
      var n := |t| - 1;
      InsertByIsPermutation(t[..n], x, cmp);
      assert t == t[..n] + [t[n]];
      assert multiset(t) == multiset(t[..n]) + multiset{t[n]};
    }
  }

  /** Every start is a valid date. */
  predicate AllDated(s: seq<DatedEvent>) {
    forall i :: 0 <= i < |s| ==> s[i].start.Day?
  }

  /** Non-decreasing by date. */
  predicate DateOrdered(s: seq<DatedEvent>)
    requires AllDated(s)
  {
    forall i, j :: 0 <= i < j < |s| ==> SortKey(s[i]).value <= SortKey(s[j]).value
  }

  /** When every start is a date, the sorted events are in date order. */
  lemma {:induction false} SortedByDateIsOrdered(s: seq<DatedEvent>)
    requires AllDated(s)
    ensures AllDated(SortedByDate(s)) && DateOrdered(SortedByDate(s))
  {
    if s != [] {
      var n := |s| - 1;
      SortedByDateIsOrdered(s[..n]);
      InsertKeepsOrder(SortedByDate(s[..n]), s[n]);
      assert SortedByDate(s) == Insert(SortedByDate(s[..n]), s[n]);
    }
  }

  /** No event of s is dated after day `bound`. */
  predicate KeysAtMost(s: seq<DatedEvent>, bound: int)
    requires AllDated(s)
  {
    forall i :: 0 <= i < |s| ==> SortKey(s[i]).value <= bound
  }

  /** Inserting a dated event into events in date order keeps them in date
      order, and keeps them at or before any day both were at or before. */
  lemma {:induction false} InsertKeepsOrder(t: seq<DatedEvent>, x: DatedEvent)
    requires AllDated(t) && DateOrdered(t) && x.start.Day?
    ensures AllDated(Insert(t, x)) && DateOrdered(Insert(t, x))
    ensures forall b :: KeysAtMost(t, b) && SortKey(x).value <= b ==> KeysAtMost(Insert(t, x), b)
  {
    if t == [] {
    } else {
      var n := |t| - 1;
      var last := t[n];
      var kl := SortKey(last).value;
      assert AllDated(t[..n]) && DateOrdered(t[..n]);
      if Compare(last, x) > 0 {
        InsertKeepsOrder(t[..n], x);
        var r := Insert(t[..n], x);
        assert KeysAtMost(t[..n], kl);
        assert KeysAtMost(r, kl);
        AppendLatest(r, last);
        assert Insert(t, x) == r + [last];
        forall b | KeysAtMost(t, b) && SortKey(x).value <= b ensures KeysAtMost(Insert(t, x), b) {
          assert KeysAtMost(t[..n], b);
          assert KeysAtMost(r, b);
        }
      } else {
        assert KeysAtMost(t, kl);
        AppendLatest(t, x);
      }
    }
  }

  /** Appending a dated event no earlier than every event keeps date order. */
  lemma AppendLatest(r: seq<DatedEvent>, e: DatedEvent)
    requires AllDated(r) && DateOrdered(r) && e.start.Day? && KeysAtMost(r, SortKey(e).value)
    ensures AllDated(r + [e]) && DateOrdered(r + [e])
  {
  }

  /** The events of s whose start is the day with number k, in order. */
  function OnDay(s: seq<DatedEvent>, k: int): seq<DatedEvent> {
    if s == [] then []
    else OnDay(s[..|s| - 1], k) + (if SortKey(s[|s| - 1]) == Some(k) then [s[|s| - 1]] else [])
  }

  lemma {:induction false} OnDayConcat(a: seq<DatedEvent>, b: seq<DatedEvent>, k: int)
    ensures OnDay(a + b, k) == OnDay(a, k) + OnDay(b, k)
    decreases |b|
  {
    if b != [] {
      var n := |b| - 1;
      OnDayConcat(a, b[..n], k);
      assert (a + b)[..|a + b| - 1] == a + b[..n];
      assert (a + b)[|a + b| - 1] == b[n];
    } else {
      assert a + b == a;
    }
  }

  /** The sort is stable: the events of any one day keep their relative
      order. */
  lemma {:induction false} SortedByDateIsStable(s: seq<DatedEvent>, k: int)
    requires AllDated(s)
    ensures OnDay(SortedByDate(s), k) == OnDay(s, k)
  {
    if s != [] {
      var n := |s| - 1;
      SortedByDateIsStable(s[..n], k);
      SortedByDateKeepsDates(s[..n]);
      SortedByDateIsOrdered(s[..n]);
      InsertOnDay(SortedByDate(s[..n]), s[n], k);
      assert SortedByDate(s) == Insert(SortedByDate(s[..n]), s[n]);
      assert OnDay(s, k) == OnDay(s[..n], k) + (if SortKey(s[n]) == Some(k) then [s[n]] else []);
    }
  }

  lemma SortedByDateKeepsDates(s: seq<DatedEvent>)
    requires AllDated(s)
    ensures AllDated(SortedByDate(s))
  {
    SortedByDateIsOrdered(s);
  }

  lemma {:induction false} InsertOnDay(t: seq<DatedEvent>, x: DatedEvent, k: int)
    requires AllDated(t) && DateOrdered(t) && x.start.Day?
    ensures OnDay(Insert(t, x), k) == OnDay(t, k) + (if SortKey(x) == Some(k) then [x] else [])
  {
    if t != [] {
      var n := |t| - 1;
      var last := t[n];
      if Compare(last, x) > 0 {
        var r := Insert(t[..n], x);
        InsertOnDay(t[..n], x, k);
        assert Insert(t, x) == r + [last];
        assert OnDay(r + [last], k) == OnDay(r, k) + (if SortKey(last) == Some(k) then [last] else []) by {
          assert (r + [last])[..|r|] == r;
        }
        assert OnDay(t, k) == OnDay(t[..n], k) + (if SortKey(last) == Some(k) then [last] else []);
      } else {
        assert (t + [x])[..|t|] == t;
      }
    }
  }

  /** In the combined calendar, the events of each day are that day's
      matavfall events followed by its restavfall events. */
  lemma MatavfallFirstOnEachDay(matavfall: seq<DatedEvent>, restavfall: seq<DatedEvent>, k: int)
    requires AllDated(matavfall) && AllDated(restavfall)
    ensures OnDay(SortedByDate(matavfall + restavfall), k) == OnDay(matavfall, k) + OnDay(restavfall, k)
  {
    SortedByDateIsStable(matavfall + restavfall, k);
    OnDayConcat(matavfall, restavfall, k);
  }
  /** In the calendar merged from the dates of the two types, each day holds
      a run of events titled as matavfall, then a run titled as restavfall,
      and the two titles differ: the events of a day are told apart by
      their titles, the matavfall ones first. */
  lemma DayIsMatavfallThenRestavfall(matavfallDates: seq<string>, restavfallDates: seq<string>, k: int)
    requires AllDated(CreateEventsForType(Matavfall, matavfallDates))
    requires AllDated(CreateEventsForType(Restavfall, restavfallDates))
    ensures EventTitle(Matavfall) != EventTitle(Restavfall)
    ensures var m := CreateEventsForType(Matavfall, matavfallDates);
      var r := CreateEventsForType(Restavfall, restavfallDates);
      var day := OnDay(SortedByDate(m + r), k);
      var p := |OnDay(m, k)|;
      && p <= |day|
      && (forall i :: 0 <= i < p ==> day[i].title == EventTitle(Matavfall))
      && (forall i :: p <= i < |day| ==> day[i].title == EventTitle(Restavfall))
  {
    EventTitlesDiffer();
    var m := CreateEventsForType(Matavfall, matavfallDates);
    var r := CreateEventsForType(Restavfall, restavfallDates);
    MatavfallFirstOnEachDay(m, r, k);
    OnDayTitled(Matavfall, matavfallDates, k);
    OnDayTitled(Restavfall, restavfallDates, k);
    TitledRuns(OnDay(m, k), OnDay(r, k), EventTitle(Matavfall), EventTitle(Restavfall));
  }

  /** Every event of type t on a day carries the title of t. */
  lemma OnDayTitled(t: WasteType, dates: seq<string>, k: int)
    ensures forall e :: e in OnDay(CreateEventsForType(t, dates), k) ==> e.title == EventTitle(t)
  {
    OnDayIn(CreateEventsForType(t, dates), k);
  }

  /** Two runs of events, each of one title, side by side. */
  lemma TitledRuns(a: seq<DatedEvent>, b: seq<DatedEvent>, ta: string, tb: string)
    requires forall e :: e in a ==> e.title == ta
    requires forall e :: e in b ==> e.title == tb
    ensures forall i :: 0 <= i < |a| ==> (a + b)[i].title == ta
    ensures forall i :: |a| <= i < |a + b| ==> (a + b)[i].title == tb
  {
    forall i | |a| <= i < |a + b| ensures (a + b)[i].title == tb {
      assert (a + b)[i] == b[i - |a|];
    }
  }

  /** OnDay picks events of s. */
  lemma {:induction false} OnDayIn(s: seq<DatedEvent>, k: int)
    ensures forall e :: e in OnDay(s, k) ==> e in s
  {
    if s != [] {
      var n := |s| - 1;
      OnDayIn(s[..n], k);
      assert forall e :: e in s[..n] ==> e in s;
    }
  }
}
