/** calendar_generator.js: the events of one street's calendar, and the two
    text rewrites generateCalendar applies to the iCalendar text the `ics`
    library produces. The library itself is not part of this model: its
    result for a list of events is an input here. */
module CalendarGenerator {
  import opened Wrappers
  import opened JsString
  import opened Utils

  /** The entry of the type map for one waste type. */
  datatype TypeMeta = TypeMeta(icon: string, description: string)

  /** One entry of an area's shared week list: the ISO week, the waste type
      code, and the optional description and day offset. */
  datatype Week = Week(weekNumber: int, typeCode: string, description: Option<string>, pickupDayDiff: Option<int>)

  /** The event object handed to the ics library. */
  datatype Event = Event(uid: string, title: string, description: string, start: string, durationDays: int, status: string)

  // ---------------------------------------------------------------------
  // weekdayMap and createEventsForStreet

  /** The keys of weekdayMap, in ISO weekday order. */
  const DayNames: seq<string> := ["monday", "tuesday", "wednesday", "thursday", "friday", "saturday", "sunday"]

  /** weekdayMap[pickupDayName.toLowerCase()]; None is undefined. Only ASCII
      letters can lower-case onto the ASCII keys of the table (the Kelvin
      sign, which lower-cases to 'k', appears in no day name), so ASCII
      lower-casing decides the lookup exactly. */
  function WeekdayNumber(pickupDayName: string): (r: Option<int>)
    ensures r.Some? <==> LowerAsciiString(pickupDayName) in DayNames
    ensures r.Some? ==> 1 <= r.value <= 7 && DayNames[r.value - 1] == LowerAsciiString(pickupDayName)
  {
    var key := LowerAsciiString(pickupDayName);
    if key == "monday" then Some(1)
    else if key == "tuesday" then Some(2)
    else if key == "wednesday" then Some(3)
    else if key == "thursday" then Some(4)
    else if key == "friday" then Some(5)
    else if key == "saturday" then Some(6)
    else if key == "sunday" then Some(7)
    else None
  }

  /** The uid template `area{area}_{toFileSafeName(street)}_{year}_week{weekNumber}_{type}`,
      as the street part followed by the week part. */
  function Uid(area: string, street: string, year: int, weekNumber: int, typeCode: string): string {
    UidStreetPart(area, street, year) + UidWeekPart(weekNumber, typeCode)
  }

  function UidStreetPart(area: string, street: string, year: int): string {
    "area" + area + "_" + ToFileSafeName(street) + "_" + IntToString(year) + "_week"
  }

  function UidWeekPart(weekNumber: int, typeCode: string): string {
    IntToString(weekNumber) + "_" + typeCode
  }

  /** The event built for one week whose type is in the type map. */
  function WeekEvent(area: string, street: string, year: int, baseDay: int, week: Week, meta: TypeMeta): Event {
    Event(
      Uid(area, street, year, week.weekNumber, week.typeCode),
      meta.icon + " " + meta.description,
      match week.description case Some(d) => d case None => "",
      GetDateFromWeek(year, week.weekNumber, baseDay, match week.pickupDayDiff case Some(k) => k case None => 0),
      1,
      "CONFIRMED")
  }

  /** The flatMap over the weeks: one event per week whose type is in the
      type map, built by `build` from the week and its type entry, none for
      the others. */
  function EventsForWeeks(weeks: seq<Week>, typeMap: map<string, TypeMeta>, build: (Week, TypeMeta) -> Event): seq<Event> {
    if weeks == [] then []
    else
      var last := weeks[|weeks| - 1];
      EventsForWeeks(weeks[..|weeks| - 1], typeMap, build)
        + (if last.typeCode in typeMap then [build(last, typeMap[last.typeCode])] else [])
  }

  /** createEventsForStreet(area, street, year, weeks, typeMap, pickupDayName). */
  function CreateEventsForStreet(area: string, street: string, year: int, weeks: seq<Week>,
                                 typeMap: map<string, TypeMeta>, pickupDayName: string): seq<Event> {
    match WeekdayNumber(pickupDayName)
    case None => []
    case Some(baseDay) => EventsForWeeks(weeks, typeMap, (w, m) => WeekEvent(area, street, year, baseDay, w, m))
  }

  /** The positions of the weeks whose type is in the type map: increasing,
      and holding every such position. */
  function KnownWeekIndices(weeks: seq<Week>, typeMap: map<string, TypeMeta>): (idx: seq<nat>)
    ensures forall k :: 0 <= k < |idx| ==> idx[k] < |weeks| && weeks[idx[k]].typeCode in typeMap
    ensures forall k, l :: 0 <= k < l < |idx| ==> idx[k] < idx[l]
    ensures forall j :: 0 <= j < |weeks| && weeks[j].typeCode in typeMap ==> j in idx
  {
    if weeks == [] then []
    else
      var n := |weeks| - 1;
      var p := KnownWeekIndices(weeks[..n], typeMap);
      if weeks[n].typeCode in typeMap then p + [n] else p
  }

  /** An unrecognised pickup day empties the whole street's calendar, whatever
      the weeks. */
  lemma UnknownPickupDayGivesNoEvents(area: string, street: string, year: int, weeks: seq<Week>,
                                      typeMap: map<string, TypeMeta>, pickupDayName: string)
    requires LowerAsciiString(pickupDayName) !in DayNames
    ensures CreateEventsForStreet(area, street, year, weeks, typeMap, pickupDayName) == []
  {
  }

  /** With a recognised pickup day, the events are exactly one per week whose
      type is in the type map, in the order of the weeks: event k is built
      from the k-th such week, with the uid, title, description, start,
      one-day duration and CONFIRMED status of that week. */
  lemma {:induction false} EventsFollowKnownWeeks(area: string, street: string, year: int, weeks: seq<Week>,
                                                  typeMap: map<string, TypeMeta>, pickupDayName: string)
    requires WeekdayNumber(pickupDayName).Some?
    ensures var events := CreateEventsForStreet(area, street, year, weeks, typeMap, pickupDayName);
      var idx := KnownWeekIndices(weeks, typeMap);
      var baseDay := WeekdayNumber(pickupDayName).value;
      && |events| == |idx|
      && forall k :: 0 <= k < |idx| ==>
           events[k] == WeekEvent(area, street, year, baseDay, weeks[idx[k]], typeMap[weeks[idx[k]].typeCode])
  {
    var baseDay := WeekdayNumber(pickupDayName).value;
    var build := (w, m) => WeekEvent(area, street, year, baseDay, w, m);
    EventsMatchIndices(weeks, typeMap, build);
  }

  /** Event k of the events is built from the k-th week whose type is known. */
  predicate EventsMatch(weeks: seq<Week>, typeMap: map<string, TypeMeta>, build: (Week, TypeMeta) -> Event,
                        events: seq<Event>, idx: seq<nat>)
    requires forall k :: 0 <= k < |idx| ==> idx[k] < |weeks| && weeks[idx[k]].typeCode in typeMap
  {
    && |events| == |idx|
    && forall k :: 0 <= k < |idx| ==> events[k] == build(weeks[idx[k]], typeMap[weeks[idx[k]].typeCode])
  }

  lemma {:induction false} EventsMatchIndices(weeks: seq<Week>, typeMap: map<string, TypeMeta>, build: (Week, TypeMeta) -> Event)
    ensures EventsMatch(weeks, typeMap, build, EventsForWeeks(weeks, typeMap, build), KnownWeekIndices(weeks, typeMap))
  {
    if weeks != [] {
      var n := |weeks| - 1;
      EventsMatchIndices(weeks[..n], typeMap, build);
      EventsMatchStep(weeks, typeMap, build, EventsForWeeks(weeks[..n], typeMap, build), KnownWeekIndices(weeks[..n], typeMap));
    }
  }

  /** Appending the last week keeps the correspondence. */
  lemma EventsMatchStep(weeks: seq<Week>, typeMap: map<string, TypeMeta>, build: (Week, TypeMeta) -> Event,
                        events0: seq<Event>, idx0: seq<nat>)
    requires weeks != []
    requires forall k :: 0 <= k < |idx0| ==> idx0[k] < |weeks| - 1 && weeks[idx0[k]].typeCode in typeMap
    requires EventsMatch(weeks[..|weeks| - 1], typeMap, build, events0, idx0)
    ensures var n := |weeks| - 1;
      if weeks[n].typeCode in typeMap then
        EventsMatch(weeks, typeMap, build, events0 + [build(weeks[n], typeMap[weeks[n].typeCode])], idx0 + [n])
      else EventsMatch(weeks, typeMap, build, events0, idx0)
  {
    var n := |weeks| - 1;
    assert forall k :: 0 <= k < |idx0| ==> weeks[..n][idx0[k]] == weeks[idx0[k]];
  }

  /** The start of every event is the ISO week date of its week: with no day
      offset it lies in ISO week `weekNumber` of ISO year `year` (years 0..99
      meaning 1900..1999) on the street's pickup weekday. */
  lemma EventStartIsPickupDay(area: string, street: string, year: int, baseDay: int, week: Week, meta: TypeMeta)
    requires 1 <= baseDay <= 7 && 1 <= week.weekNumber <= Gregorian.WeeksInYear(JsFullYear(year))
    requires week.pickupDayDiff.None? || week.pickupDayDiff == Some(0)
    ensures var n := Gregorian.DayNumber(DateFromWeek(year, week.weekNumber, baseDay, 0));
      && WeekEvent(area, street, year, baseDay, week, meta).start == FormatYmd(DateFromWeek(year, week.weekNumber, baseDay, 0))
      && Gregorian.IsoWeekYearOf(n) == JsFullYear(year)
      && Gregorian.IsoWeekOf(n) == week.weekNumber
      && Gregorian.IsoWeekday(n) == baseDay
  {
    DateFromWeekIsIsoWeekDate(year, week.weekNumber, baseDay);
  }

  /** Within one street and year, the uid determines the week number and the
      type code: two events whose (week, type) pairs differ never share a
      uid. */
  lemma UidDeterminesWeekAndType(area: string, street: string, year: int, w1: int, t1: string, w2: int, t2: string)
    requires Uid(area, street, year, w1, t1) == Uid(area, street, year, w2, t2)
    ensures w1 == w2 && t1 == t2
  {
    var p := UidStreetPart(area, street, year);
    var a := UidWeekPart(w1, t1);
    var b := UidWeekPart(w2, t2);
    assert a == (p + a)[|p|..];
    assert b == (p + b)[|p|..];
    NumeralThenUnderscore(w1, t1, w2, t2);
  }

  lemma NumeralThenUnderscore(w1: int, t1: string, w2: int, t2: string)
    requires UidWeekPart(w1, t1) == UidWeekPart(w2, t2)
    ensures w1 == w2 && t1 == t2
  {
    var n1 := IntToString(w1);
    var n2 := IntToString(w2);
    NumeralHasNoUnderscore(w1);
    NumeralHasNoUnderscore(w2);
    IndexOfFirstChar(n1, '_', t1);
    IndexOfFirstChar(n2, '_', t2);
    var s := n1 + "_" + t1;
    assert |n1| == |n2|;
    assert n1 == s[..|n1|];
    assert n2 == (n2 + "_" + t2)[..|n2|];
    assert t1 == s[|n1| + 1..];
    assert t2 == (n2 + "_" + t2)[|n2| + 1..];
    ParseIntOfIntToString(w1, []);
    ParseIntOfIntToString(w2, []);
    assert n1 + [] == n1 && n2 + [] == n2;
  }

  lemma NumeralHasNoUnderscore(n: int)
    ensures '_' !in IntToString(n)
  {
    var s := IntToString(n);
    assert forall i :: 0 <= i < |s| ==> s[i] == '-' || IsDigit(s[i]);
  }

  // ---------------------------------------------------------------------
  // generateCalendar: X-WR-CALNAME and DTSTAMP

  const CalScale: string := "CALSCALE:GREGORIAN"

  /** value.replace('CALSCALE:GREGORIAN', 'CALSCALE:GREGORIAN\nX-WR-CALNAME:' + calendarName).
      The replacement is a string, so a '$' pattern in the calendar name is
      expanded as replace defines it. */
  function InsertCalName(value: string, calendarName: string): string {
    ReplaceFirst(value, CalScale, CalScale + "\nX-WR-CALNAME:" + calendarName)
  }

  /** The calendar name line goes right after the first CALSCALE:GREGORIAN
      and nowhere else (for a name without '$'); text without
      CALSCALE:GREGORIAN is left as it is. */
  lemma InsertCalNameAfterFirstCalScale(value: string, calendarName: string)
    ensures IndexOf(value, CalScale).None? ==> InsertCalName(value, calendarName) == value
    ensures IndexOf(value, CalScale).Some? && '$' !in calendarName ==>
      var i := IndexOf(value, CalScale).value;
      InsertCalName(value, calendarName) == value[..i + |CalScale|] + "\nX-WR-CALNAME:" + calendarName + value[i + |CalScale|..]
  {
    match IndexOf(value, CalScale)
    case None =>
    case Some(i) =>
      if '$' !in calendarName {
        InsertCalNameAt(value, calendarName, i);
      }
  }

  lemma InsertCalNameAt(value: string, calendarName: string, i: nat)
    requires IndexOf(value, CalScale) == Some(i) && '$' !in calendarName
    ensures InsertCalName(value, calendarName) == value[..i + |CalScale|] + "\nX-WR-CALNAME:" + calendarName + value[i + |CalScale|..]
  {
    var lead := CalScale + "\nX-WR-CALNAME:";
    assert '$' !in lead;
    NotInConcat('$', lead, calendarName);
    ReplaceFirstLiteral(value, CalScale, lead + calendarName, i);
    SpliceAfter(value, i, i + |CalScale|, CalScale, "\nX-WR-CALNAME:", calendarName);
  }

  lemma NotInConcat<T>(x: T, a: seq<T>, b: seq<T>)
    requires x !in a && x !in b
    ensures x !in a + b
  {
  }

  /** Splicing p + m1 + m2 over an occurrence of p is inserting m1 + m2
      after it. */
  lemma SpliceAfter<T>(s: seq<T>, i: nat, j: nat, p: seq<T>, m1: seq<T>, m2: seq<T>)
    requires i <= j <= |s| && s[i..j] == p
    ensures s[..i] + (p + m1 + m2) + s[j..] == s[..j] + m1 + m2 + s[j..]
  {
    assert s[..i] + p == s[..j];
  }

  /** "DTSTAMP:" as the case-insensitive pattern sees it. */
  const StampKey: string := "dtstamp:"

  /** The pattern /DTSTAMP:/i matches at i: ASCII letters in any case (the
      flag has no u, so no other character folds onto an ASCII letter). */
  predicate KeyAt(s: string, i: int) {
    0 <= i && i + |StampKey| <= |s| && FoldsTo(s[i..i + |StampKey|], StampKey)
  }

  /** w lower-cases, character by character, to key. */
  predicate FoldsTo(w: string, key: string)
    decreases |key|
  {
    |w| == |key| && (key == [] || (LowerAscii(w[0]) == key[0] && FoldsTo(w[1..], key[1..])))
  }

  lemma {:induction false} FoldsToChars(w: string, key: string)
    ensures FoldsTo(w, key) <==> |w| == |key| && forall m :: 0 <= m < |key| ==> LowerAscii(w[m]) == key[m]
    decreases |key|
  {
    if key != [] && |w| == |key| {
      FoldsToChars(w[1..], key[1..]);
      if forall m :: 0 <= m < |key| ==> LowerAscii(w[m]) == key[m] {
        assert forall m :: 0 <= m < |key| - 1 ==> LowerAscii(w[1..][m]) == key[1..][m] by {
          forall m | 0 <= m < |key| - 1 ensures LowerAscii(w[1..][m]) == key[1..][m] {
            assert w[1..][m] == w[m + 1] && key[1..][m] == key[m + 1];
          }
        }
      }
      if FoldsTo(w, key) {
        forall m | 0 <= m < |key| ensures LowerAscii(w[m]) == key[m] {
          if m > 0 {
            assert w[1..][m - 1] == w[m] && key[1..][m - 1] == key[m];
          }
        }
      }
    }
  }

  /** Position of the first line feed of s, or |s|. */
  function LineEnd(s: string): (i: nat)
    ensures i <= |s| && (i == |s| || s[i] == '\n')
    ensures forall k :: 0 <= k < i ==> s[k] != '\n'
  {
    if s == [] || s[0] == '\n' then 0 else LineEnd(s[1..]) + 1
  }

  /** The global, case-insensitive replace of "DTSTAMP:" and the rest of its
      line by the stamp value: scanning left to right,
      each match runs from a DTSTAMP: key to the end of its line and is
      replaced by stamp; the search goes on after the match. */
  function RewriteStamps(s: string, stamp: string): string
    decreases |s|
  {
    if s == [] then []
    else if KeyAt(s, 0) then
      assert s[..|StampKey|][0] == s[0];
      stamp + RewriteStamps(s[LineEnd(s)..], stamp)
    else [s[0]] + RewriteStamps(s[1..], stamp)
  }

  /** The first position of the key in s. */
  function FirstKey(s: string): (r: Option<nat>)
    ensures r.Some? ==> KeyAt(s, r.value) && forall j :: 0 <= j < r.value ==> !KeyAt(s, j)
    ensures r.None? ==> forall j :: !KeyAt(s, j)
  {
    FirstKeyFrom(s, 0)
  }

  function FirstKeyFrom(s: string, from: nat): (r: Option<nat>)
    ensures r.Some? ==> from <= r.value && KeyAt(s, r.value) && forall j :: from <= j < r.value ==> !KeyAt(s, j)
    ensures r.None? ==> forall j :: from <= j ==> !KeyAt(s, j)
    decreases |s| - from
  {
    if from + |StampKey| > |s| then None
    else if KeyAt(s, from) then Some(from)
    else FirstKeyFrom(s, from + 1)
  }

  /** The text split at its line feeds (String.prototype.split('\n')). */
  function SplitLines(s: string): (lines: seq<string>)
    ensures |lines| >= 1
    decreases |s|
  {
    var i := LineEnd(s);
    if i == |s| then [s] else [s[..i]] + SplitLines(s[i + 1..])
  }

  /** The reference meaning of the DTSTAMP rewrite, line by line: a line
      without the key stays as it is; in a line with the key, the text before
      the first key is kept and the rest of the line becomes stamp. */
  function RewriteLine(line: string, stamp: string): string {
    match FirstKey(line)
    case None => line
    case Some(i) => line[..i] + stamp
  }

  function MapRewriteLine(lines: seq<string>, stamp: string): (r: seq<string>)
    ensures |r| == |lines| && forall k :: 0 <= k < |lines| ==> r[k] == RewriteLine(lines[k], stamp)
  {
    if lines == [] then [] else [RewriteLine(lines[0], stamp)] + MapRewriteLine(lines[1..], stamp)
  }

  /** Splitting at line feeds and joining with line feeds gives the text
      back. */
  lemma {:induction false} JoinSplitLines(s: string)
    ensures Join(SplitLines(s), "\n") == s
    decreases |s|
  {
    var i := LineEnd(s);
    if i < |s| {
      JoinSplitLines(s[i + 1..]);
      var rest := SplitLines(s[i + 1..]);
      assert SplitLines(s) == [s[..i]] + rest;
      assert s == s[..i] + "\n" + s[i + 1..];
    }
  }

  /** The DTSTAMP rewrite is the line-by-line rewrite: every line of the
      result is its input line with everything from its first DTSTAMP key on
      replaced by the one stamp value, and the lines without the key are
      unchanged. */
  lemma {:induction false} RewriteStampsByLine(s: string, stamp: string)
    ensures RewriteStamps(s, stamp) == Join(MapRewriteLine(SplitLines(s), stamp), "\n")
    decreases |s|
  {
    var i := LineEnd(s);
    if i == |s| {
      RewriteOneLine(s, [], stamp);
      assert s + [] == s;
    } else {
      RewriteStampsByLine(s[i + 1..], stamp);
      RewriteStampsLineStep(s, stamp, i);
    }
  }

  /** The inductive step of RewriteStampsByLine: the first line and its line
      feed in front of the rest. */
  lemma RewriteStampsLineStep(s: string, stamp: string, i: nat)
    requires i == LineEnd(s) < |s|
    requires RewriteStamps(s[i + 1..], stamp) == Join(MapRewriteLine(SplitLines(s[i + 1..]), stamp), "\n")
    ensures RewriteStamps(s, stamp) == Join(MapRewriteLine(SplitLines(s), stamp), "\n")
  {
    var line := s[..i];
    var rest := s[i + 1..];
    SplitAt(s, i, '\n');
    RewriteOneLine(line, "\n" + rest, stamp);
    RewriteAfterLineFeed(rest, stamp);
    SeqAssoc(RewriteLine(line, stamp), "\n", RewriteStamps(rest, stamp));
    JoinRewrittenLines(s, stamp, i);
  }

  lemma SplitAt<T>(s: seq<T>, i: nat, x: T)
    requires i < |s| && s[i] == x
    ensures s == s[..i] + ([x] + s[i + 1..])
  {
    assert s == s[..i] + s[i..];
  }

  /** One step of the line-by-line rewrite: the first line, a line feed, and
      the rewrite of the remaining lines. */
  lemma JoinRewrittenLines(s: string, stamp: string, i: nat)
    requires i == LineEnd(s) < |s|
    ensures Join(MapRewriteLine(SplitLines(s), stamp), "\n")
      == RewriteLine(s[..i], stamp) + "\n" + Join(MapRewriteLine(SplitLines(s[i + 1..]), stamp), "\n")
  {
    SplitLinesStep(s, i);
    JoinMapCons(s[..i], SplitLines(s[i + 1..]), stamp);
  }

  lemma SplitLinesStep(s: string, i: nat)
    requires i == LineEnd(s) < |s|
    ensures SplitLines(s) == [s[..i]] + SplitLines(s[i + 1..])
  {
  }

  lemma JoinMapCons(line: string, rest: seq<string>, stamp: string)
    requires rest != []
    ensures Join(MapRewriteLine([line] + rest, stamp), "\n") == RewriteLine(line, stamp) + "\n" + Join(MapRewriteLine(rest, stamp), "\n")
  {
    MapRewriteLineCons(line, rest, stamp);
    JoinCons(RewriteLine(line, stamp), MapRewriteLine(rest, stamp), "\n");
  }

  lemma MapRewriteLineCons(line: string, rest: seq<string>, stamp: string)
    ensures MapRewriteLine([line] + rest, stamp) == [RewriteLine(line, stamp)] + MapRewriteLine(rest, stamp)
  {
    assert ([line] + rest)[1..] == rest;
  }

  lemma JoinCons(first: string, rest: seq<string>, sep: string)
    requires rest != []
    ensures Join([first] + rest, sep) == first + sep + Join(rest, sep)
  {
    assert ([first] + rest)[1..] == rest;
  }

  lemma RewriteAfterLineFeed(rest: string, stamp: string)
    ensures RewriteStamps("\n" + rest, stamp) == "\n" + RewriteStamps(rest, stamp)
  {
    var s := "\n" + rest;
    if |s| >= |StampKey| {
      assert s[..|StampKey|][0] == '\n';
    }
    assert !KeyAt(s, 0);
    assert s[1..] == rest;
  }

  /** Rewriting a line followed by a line feed (or by nothing) rewrites the
      line on its own. */
  lemma {:induction false} RewriteOneLine(line: string, t: string, stamp: string)
    requires forall k :: 0 <= k < |line| ==> line[k] != '\n'
    requires t == [] || t[0] == '\n'
    ensures RewriteStamps(line + t, stamp) == RewriteLine(line, stamp) + RewriteStamps(t, stamp)
    decreases |line|
  {
    if line == [] {
      assert line + t == t;
      assert FirstKey(line) == None;
    } else if KeyAt(line + t, 0) {
      RewriteLineAtKey(line, t, stamp);
    } else {
      RewriteOneLine(line[1..], t, stamp);
      RewriteStampsCons(line, t, stamp);
      KeyAtPrefix(line, t);
      FirstKeyOfTail(line);
      RewriteLineFromTail(line, t, stamp);
    }
  }

  /** A line that starts with the key is replaced whole by the stamp. */
  lemma RewriteLineAtKey(line: string, t: string, stamp: string)
    requires forall k :: 0 <= k < |line| ==> line[k] != '\n'
    requires t == [] || t[0] == '\n'
    requires line != [] && KeyAt(line + t, 0)
    ensures RewriteStamps(line + t, stamp) == RewriteLine(line, stamp) + RewriteStamps(t, stamp)
  {
    var s := line + t;
    KeyStaysInLine(line, t, 0);
    LineEndOfLine(line, t);
    assert s[|line|..] == t;
    assert FirstKey(line) == Some(0);
    assert line[..0] + stamp == stamp;
  }

  /** Past a position that holds no key, the rewrite keeps the character
      and goes on with the rest. */
  lemma RewriteStampsCons(line: string, t: string, stamp: string)
    requires line != [] && !KeyAt(line + t, 0)
    ensures RewriteStamps(line + t, stamp) == [line[0]] + RewriteStamps(line[1..] + t, stamp)
  {
    var s := line + t;
    assert s[1..] == line[1..] + t;
  }

  /** A line that does not start with the key keeps its first character and
      is rewritten from its second on. */
  lemma RewriteLineFromTail(line: string, t: string, stamp: string)
    requires line != []
    requires RewriteStamps(line + t, stamp) == [line[0]] + RewriteStamps(line[1..] + t, stamp)
    requires RewriteStamps(line[1..] + t, stamp) == RewriteLine(line[1..], stamp) + RewriteStamps(t, stamp)
    requires RewriteLine(line, stamp) == [line[0]] + RewriteLine(line[1..], stamp)
    ensures RewriteStamps(line + t, stamp) == RewriteLine(line, stamp) + RewriteStamps(t, stamp)
  {
    ConsAssoc(line[0], RewriteLine(line[1..], stamp), RewriteStamps(t, stamp));
  }

  lemma ConsAssoc<T>(x: T, a: seq<T>, b: seq<T>)
    ensures [x] + (a + b) == ([x] + a) + b
  {
  }

  /** A key at 0 in a line is a key at 0 in any extension of it. */
  lemma KeyAtPrefix(line: string, t: string)
    ensures KeyAt(line, 0) ==> KeyAt(line + t, 0)
  {
    if |line| >= |StampKey| {
      assert (line + t)[..|StampKey|] == line[..|StampKey|];
    }
  }

  lemma {:induction false} LineEndOfLine(line: string, t: string)
    requires forall k :: 0 <= k < |line| ==> line[k] != '\n'
    requires t == [] || t[0] == '\n'
    ensures LineEnd(line + t) == |line|
    decreases |line|
  {
    if line != [] {
      assert (line + t)[1..] == line[1..] + t;
      LineEndOfLine(line[1..], t);
    }
  }

  /** A key found in line + t, where t starts with a line feed, lies inside
      line: the key holds no line feed. */
  lemma KeyStaysInLine(line: string, t: string, i: nat)
    requires t == [] || t[0] == '\n'
    requires i <= |line| && KeyAt(line + t, i)
    ensures KeyAt(line, i)
  {
    var w := (line + t)[i..i + |StampKey|];
    KeyHasNoLineFeed(w);
    WindowInPrefix(line, t, i, |StampKey|, '\n', w);
  }

  lemma KeyHasNoLineFeed(w: string)
    requires FoldsTo(w, StampKey)
    ensures '\n' !in w
  {
    FoldsToChars(w, StampKey);
    assert '\n' !in StampKey;
    forall m | 0 <= m < |w| ensures w[m] != '\n' {
      assert LowerAscii(w[m]) == StampKey[m];
    }
  }

  /** A window w of a + t that holds no x, where t is empty or starts with
      x, lies inside a. */
  lemma WindowInPrefix<T>(a: seq<T>, t: seq<T>, i: nat, n: nat, x: T, w: seq<T>)
    requires t == [] || t[0] == x
    requires i <= |a| && i + n <= |a| + |t| && w == (a + t)[i..i + n] && x !in w
    ensures i + n <= |a| && w == a[i..i + n]
  {
    if t != [] {
      assert (a + t)[|a|] == x;
    }
  }

  /** When the key is not at position 0, the line is rewritten as its first
      character followed by the rewrite of the rest. */
  lemma FirstKeyOfTail(line: string)
    requires line != [] && !KeyAt(line, 0)
    ensures forall stamp :: RewriteLine(line, stamp) == [line[0]] + RewriteLine(line[1..], stamp)
  {
    match FirstKey(line[1..])
    case None =>
      NoKeyInTail(line);
      ConsTail(line);
    case Some(i) =>
      FirstKeyOfTailAt(line, i);
      ConsPrefix(line, i);
      forall stamp ensures line[..i + 1] + stamp == [line[0]] + (line[1..][..i] + stamp) {
        ConsAssoc(line[0], line[1..][..i], stamp);
      }
  }

  lemma ConsTail<T>(s: seq<T>)
    requires s != []
    ensures s == [s[0]] + s[1..]
  {
  }

  lemma ConsPrefix<T>(s: seq<T>, i: nat)
    requires i < |s|
    ensures s[..i + 1] == [s[0]] + s[1..][..i]
  {
  }

  /** The key is at j + 1 in the line exactly when it is at j in its tail. */
  lemma KeyAtTail(line: string, j: nat)
    requires line != []
    ensures KeyAt(line, j + 1) == KeyAt(line[1..], j)
  {
    if j + 1 + |StampKey| <= |line| {
      assert line[j + 1..j + 1 + |StampKey|] == line[1..][j..j + |StampKey|];
    }
  }

  lemma NoKeyInTail(line: string)
    requires line != [] && !KeyAt(line, 0) && FirstKey(line[1..]).None?
    ensures FirstKey(line).None?
  {
    forall j | 0 <= j ensures !KeyAt(line, j) {
      if j > 0 {
        KeyAtTail(line, j - 1);
      }
    }
  }

  lemma FirstKeyOfTailAt(line: string, i: nat)
    requires line != [] && !KeyAt(line, 0) && FirstKey(line[1..]) == Some(i)
    ensures FirstKey(line) == Some(i + 1)
  {
    KeyAtTail(line, i);
    NoKeyBefore(line, i);
  }

  lemma NoKeyBefore(line: string, i: nat)
    requires line != [] && !KeyAt(line, 0) && FirstKey(line[1..]) == Some(i)
    ensures forall j :: 0 <= j < i + 1 ==> !KeyAt(line, j)
  {
    forall j | 0 < j < i + 1 ensures !KeyAt(line, j) {
      KeyAtTail(line, j - 1);
    }
  }

  /** Text without the key is left exactly as it is. */
  lemma {:induction false} RewriteStampsWithoutKey(s: string, stamp: string)
    requires FirstKey(s).None?
    ensures RewriteStamps(s, stamp) == s
    decreases |s|
  {
    if s != [] {
      assert !KeyAt(s, 0);
      assert FirstKey(s[1..]).None? by {
        forall j | 0 <= j ensures !KeyAt(s[1..], j) {
          if j + |StampKey| <= |s[1..]| {
            assert s[1..][j..j + |StampKey|] == s[j + 1..j + 1 + |StampKey|];
          }
          assert !KeyAt(s, j + 1);
        }
      }
      RewriteStampsWithoutKey(s[1..], stamp);
      assert s == [s[0]] + s[1..];
    }
  }

  /** The value written after every DTSTAMP: taken from the start of the
      first event, indexed as if it were a [year, month, day] triple. The
      start is the YYYYMMDD string of getDateFromWeek, so its first three
      characters are used: "20250115" gives DTSTAMP:20002T000000Z. This is
      kept as the source has it; the value is not a well-formed date. */
  function Stamp(firstEventStart: string): string
    requires |firstEventStart| >= 3
  {
    "DTSTAMP:" + [firstEventStart[0]] + PadTwo([firstEventStart[1]]) + PadTwo([firstEventStart[2]]) + "T000000Z"
  }

  /** Every start of the 2020s, that is every text beginning "202", gives
      one and the same stamp: the month and day of the event play no part. */
  lemma StampOfTwentiesStart(firstEventStart: string)
    requires |firstEventStart| >= 3 && firstEventStart[..3] == "202"
    ensures Stamp(firstEventStart) == "DTSTAMP:20002T000000Z"
  {
    assert firstEventStart[0] == '2' && firstEventStart[1] == '0' && firstEventStart[2] == '2';
  }

  /** What generateCalendar does with one street's events. */
  datatype CalendarOutcome =
    | Written(text: string)  // the text written to the file
    | NotWritten             // the ics library reported an error
    | StampTypeError         // the DTSTAMP callback threw: there is no first event, or its start has fewer than three characters

  /** generateCalendar(filePath, events, calendarName), given the result of
      createEvents(events). Nothing is read from the clock: the only
      DTSTAMP value is computed from events[0].start. */
  function GenerateCalendar(events: seq<Event>, calendarName: string, created: Result<string, string>): CalendarOutcome {
    match created
    case Err(_) => NotWritten
    case Ok(value) =>
      var output := InsertCalName(value, calendarName);
      if FirstKey(output).None? then Written(output)
      else if events == [] || |events[0].start| < 3 then StampTypeError
      else Written(RewriteStamps(output, Stamp(events[0].start)))
  }

  /** On a library error nothing is written. Otherwise the calendar name line
      is inserted, and then every line holding a DTSTAMP key ends with the
      one stamp computed from the first event's start, all other lines
      unchanged. */
  lemma GenerateCalendarText(events: seq<Event>, calendarName: string, created: Result<string, string>)
    ensures created.Err? ==> GenerateCalendar(events, calendarName, created) == NotWritten
    ensures created.Ok? && FirstKey(InsertCalName(created.value, calendarName)).None? ==>
      GenerateCalendar(events, calendarName, created) == Written(InsertCalName(created.value, calendarName))
    ensures created.Ok? && FirstKey(InsertCalName(created.value, calendarName)).Some? && (events == [] || |events[0].start| < 3) ==>
      GenerateCalendar(events, calendarName, created) == StampTypeError
    ensures created.Ok? && events != [] && |events[0].start| >= 3 ==>
      var output := InsertCalName(created.value, calendarName);
      GenerateCalendar(events, calendarName, created)
        == Written(Join(MapRewriteLine(SplitLines(output), Stamp(events[0].start)), "\n"))
  {
    if created.Ok? && events != [] && |events[0].start| >= 3 {
      var output := InsertCalName(created.value, calendarName);
      RewriteStampsByLine(output, Stamp(events[0].start));
      if FirstKey(output).None? {
        RewriteStampsWithoutKey(output, Stamp(events[0].start));
      }
    }
  }

  /** The written text depends on the events only through the start of the
      first one. */
  lemma GenerateCalendarUsesFirstStartOnly(e1: seq<Event>, e2: seq<Event>, calendarName: string, created: Result<string, string>)
    requires e1 != [] && e2 != [] && e1[0].start == e2[0].start
    ensures GenerateCalendar(e1, calendarName, created) == GenerateCalendar(e2, calendarName, created)
  {
  }
}
