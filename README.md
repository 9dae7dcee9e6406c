# sopkalender in Dafny

A model of the calendar generator of sopkalender, a set of Node scripts that
turn waste-collection schedules into one iCalendar file per street, and
proofs about that model. The scripts and what they do:

- `utils.js` pads numbers to two digits. It resolves an ISO week date
  (year, week, weekday, day offset) to a `YYYYMMDD` text, turns a street
  name into a file-safe name, and computes the end date of a duration.
- `calendar_generator.js` maps weekday names to ISO weekday numbers and
  builds the events of one street. It then takes the iCalendar text the
  `ics` library produces and rewrites it in two ways:
  - it inserts an `X-WR-CALNAME` line after the first `CALSCALE:GREGORIAN`;
  - it replaces every `DTSTAMP:` line with one fixed value.
- `area_file_processor.js` builds the type map of an area file and the
  calendar path of each street. It then generates one calendar per street,
  in the order of the file.
- `generate.js` is the older prototype. It parses ISO date and week
  strings, with a week moved to its Tuesday. It makes the events of one
  waste type, and merges the two types' events into one list sorted by date.
- `update-readme-links.js` formats a Markdown link for each calendar file
  and puts the links between two markers of the README.

The modules are:

- `Wrappers`: `Option` and `Result`.
- `JsString`: the JavaScript built-ins the scripts rely on, namely
  `indexOf`, `replace` with a string pattern (and its `$` patterns),
  `padStart`, number-to-string, `parseInt`, `\s`, ASCII lower-casing,
  `join` and `slice`.
- `Gregorian`: the proleptic Gregorian calendar as day numbers counted from
  1970-01-01, ISO weeks, and the date-fns operations `setISOWeek`,
  `setISODay`, `addDays` and `startOfISOWeek`.
- `Utils`, `CalendarGenerator`, `AreaFileProcessor`, `Generate` and
  `UpdateReadmeLinks`: one module per script.

The methods are:

- `CreateTypeMap`: the `reduce` of `createTypeMap`, written as a loop.
- `GenerateStreets`: the `forEach` over the streets.
- `SortEvents` / `SortBy`: the in-place `Array.prototype.sort` of the
  combined events.

Each method is proved against a specification function. The properties
are proved as lemmas about those functions.

The model follows the code as written, including these behaviours:

- **The DTSTAMP value.** The replacement callback indexes the first event's
  start as if it were a `[year, month, day]` triple. In `calendar_generator.js`
  that start is the `YYYYMMDD` string, so the value comes from its first
  three characters. Every event of the 2020s gives `DTSTAMP:20002T000000Z`
  (`StampOfTwentiesStart`).
  - The callback runs only when the text holds a `DTSTAMP:`. When it runs
    with no events, it throws and ends the loop over the streets.
  - The pattern `[^\n]*` also takes the carriage return before the line
    feed, so the rewritten lines end in a bare line feed.
- **The current date.** `generateCalendarsForAreaFile` passes a current date
  on, but `generateCalendar` takes no such parameter. The value is ignored:
  no clock is read, and the stamp depends only on the first event's start.
- **Unrecognised pickup days.** The warning the code logs for a street
  whose pickup day is not recognised says the street is skipped. The code
  returns no events for it, but `generateCalendar` is still called, so an
  empty calendar is written for it (`UnknownPickupDayGivesNoEvents`,
  `GenerateStreets`).
- **No escaping.** Neither the calendar name nor the links are escaped.
- **Line splitting.** The stamp rewrite splits lines at line feeds only.

## Model

| member | source | states |
|---|---|---|
| Utils.FormatToTwoDigitsPads | utils.js:9 | a number 0..99 becomes exactly two digits that read back as the number; a number of two or more characters is unchanged |
| Utils.JsMakeDayOfDate | utils.js:85 | `new Date(y, m - 1, d)` of a valid date (year outside 0..99) is that date |
| Utils.WeekChainIsWeekDate | utils.js:20 | `setISODay(setISOWeek(new Date(year, 0, 4), w), d)` is weekday d of ISO week w of the year (0..99 read as 1900..1999), for every w and d |
| Utils.DateFromWeek | utils.js:20-21 | the date before formatting is valid and lies pickupDayDiff days after the ISO week date (year, week, weekday) |
| Utils.DateFromWeekIsIsoWeekDate | utils.js:19-21 | with no offset, the resolved date has ISO week-year `year`, ISO week `weekNumber` and ISO weekday `baseDay` |
| Utils.GetDateFromWeekOffset | utils.js:21 | the day offset is `addDays` of the offset-0 date, in both directions and across month and year ends |
| Utils.GetDateFromWeekSteps | utils.js:19-21 | one more week is 7 days later, one more weekday 1 day later |
| Utils.FormatYmdShape | utils.js:24-28 | for a four-digit year the text is 8 digits: the year, then the month and the day padded to two |
| Utils.GetDateFromWeekShape | utils.js:19-28 | for every week 1..53, weekday and offset up to 60 days, the date is in the year before, the year or the year after, and the text is 8 digits YYYYMMDD |
| Utils.FormatYmdExamples | utils.js:24-28 | 2024-12-30 prints as 20241230 and 2025-01-15 as 20250115 |
| Utils.GetDateFromWeekFirstMondayOf2025 | utils.js:19-28 | getDateFromWeek(2025, 1, 1) is "20241230": Monday of ISO week 1 of 2025 |
| Utils.GetDateFromWeekWednesdayOfWeek3 | utils.js:19-28 | getDateFromWeek(2025, 3, 3) is "20250115": Wednesday of ISO week 3 of 2025 |
| Utils.DurationDaysOfDays | utils.js:88 | "P" + n + "D" reads back as n days for every integer n |
| Utils.FormatYmdReadBack | utils.js:81-83 | the three `parseInt` slices of a printed date give back its year, month and day |
| Utils.GetEndDateForDateAddsDays | utils.js:79-98 | for a start printed with a four-digit year (1000..9999), the end date for a duration of n days is the start moved n days, for every n |
| Utils.GetEndDateForDateZeroDays | utils.js:79-98 | for a start printed with a four-digit year, a duration of P0D gives the start text back |
| Utils.GetEndDateForDateTwoDigitYear | utils.js:81-85 | a start whose year field reads 0..99 ("00yyMMDD") is taken by `new Date` as 19yy: the end date lies n days after 19yy-MM-DD |
| Utils.GetEndDateForDateOfYear50 | utils.js:81-98 | getEndDateForDate("00500101", "P0D") is "19500101", not the start |
| Utils.GetEndDateForDateUnreadableYear | utils.js:81-85 | a start whose first four characters hold no number gives the Invalid Date text NaNNaNNaN |
| Utils.GetEndDateForDateUnreadableDuration | utils.js:88-91 | a duration with no number gives the Invalid Date text |
| Utils.Decompose | utils.js:38 | NFD of one character: a decomposed Latin-1 letter becomes an ASCII letter and a combining mark; characters outside Latin-1 are unchanged |
| Utils.Nfd | utils.js:38 | NFD at most doubles the length |
| Utils.RemoveMarks | utils.js:38 | no combining mark U+0300..U+036F is left |
| Utils.DashWhitespaceRuns | utils.js:39 | no white space is left |
| Utils.KeepSafe | utils.js:40 | only [a-zA-Z0-9-_] is left |
| Utils.ToFileSafeNameIsSlug | utils.js:36-42 | every file-safe name is made of a-z, 0-9, '-' and '_' |
| Utils.ToFileSafeNameOfSlug | utils.js:36-42 | a name made of those characters is unchanged |
| Utils.ToFileSafeNameIdempotent | utils.js:36-42 | applying toFileSafeName twice is applying it once |
| Utils.WhitespaceRunBecomesOneDash | utils.js:39 | a maximal run of white space, of any length, becomes one dash between the converted text on both sides |
| Utils.AccentedLetterLosesAccent | utils.js:38-41 | a decomposable Latin-1 letter (Å, Ä, Ö, ...) becomes its lower-case base letter |
| Utils.ToFileSafeNameConcat | utils.js:36-42 | cutting the name after a kept character cuts the file-safe name at the same place |
| CalendarGenerator.WeekdayNumber | calendar_generator.js:5-13 | a day name is found exactly when its lower-cased form is one of monday..sunday, and then it maps to its ISO weekday number 1..7 |
| CalendarGenerator.KnownWeekIndices | calendar_generator.js:35-40 | the weeks whose type is in the type map, in increasing order, all of them |
| CalendarGenerator.UnknownPickupDayGivesNoEvents | calendar_generator.js:26-31 | an unrecognised pickup day gives no events at all |
| CalendarGenerator.EventsFollowKnownWeeks | calendar_generator.js:33-57 | with a recognised day, there is one event per week of a known type, in week order, with that week's uid, title, description, start, one-day duration and CONFIRMED status |
| CalendarGenerator.EventStartIsPickupDay | calendar_generator.js:46 | with no offset, an event starts on the street's pickup weekday in its ISO week of the year |
| CalendarGenerator.UidDeterminesWeekAndType | calendar_generator.js:43 | within one street and year, equal uids mean equal week numbers and type codes |
| CalendarGenerator.InsertCalNameAfterFirstCalScale | calendar_generator.js:74-77 | the X-WR-CALNAME line goes right after the first CALSCALE:GREGORIAN and nowhere else; text without it is unchanged |
| CalendarGenerator.RewriteStampsByLine | calendar_generator.js:82-85 | the global case-insensitive DTSTAMP replace rewrites line by line: each line with a key keeps the text before its first key and ends in the one stamp, and other lines are unchanged |
| CalendarGenerator.StampOfTwentiesStart | calendar_generator.js:83-84 | every start beginning "202" gives the stamp DTSTAMP:20002T000000Z |
| CalendarGenerator.GenerateCalendarText | calendar_generator.js:66-85 | a library error writes nothing; text without a DTSTAMP is written with only the calendar name added; with no usable first event the callback throws; otherwise every DTSTAMP line carries the same stamp |
| CalendarGenerator.GenerateCalendarUsesFirstStartOnly | calendar_generator.js:83 | the written calendar depends on the events only through the first event's start |
| AreaFileProcessor.CreateTypeMap | area_file_processor.js:10-15 | the loop builds the map of the reduce over the types |
| AreaFileProcessor.TypeMapKeys | area_file_processor.js:11-14 | the keys are exactly the type codes of the entries |
| AreaFileProcessor.TypeMapLastEntryWins | area_file_processor.js:12 | each code holds the icon and description of its last entry |
| AreaFileProcessor.StreetFileInAreaFolder | area_file_processor.js:23-26 | a street's file lies directly in its area folder, and is named without a separator and ending in .ics |
| AreaFileProcessor.SameFileIffSameSafeName | area_file_processor.js:24-25 | two streets of one area share a file exactly when their file-safe names agree |
| AreaFileProcessor.GenerateStreetCalendar | area_file_processor.js:56-59 | the forEach callback for one street: its file path, and the outcome of generateCalendar on its events and title |
| AreaFileProcessor.GenerateStreets | area_file_processor.js:55-60 | the loop writes the calendar of each street in order until the first thrown DTSTAMP callback, and reports whether one was thrown |
| AreaFileProcessor.GenerateCalendarsForAreaFile | area_file_processor.js:47-60 | the writes are those of all streets up to the first throw, and the current date is not used |
| AreaFileProcessor.OneWritePerStreet | area_file_processor.js:55-60 | when every calendar is generated, there is exactly one write per street, in street order, to its path with its text |
| AreaFileProcessor.WritesAreStreetFiles | area_file_processor.js:55-60 | every file written is one street's calendar file |
| Generate.DayOfIsoWeekYearIsWeekDate | generate.js:36 | the day parseISO computes for a week date is that ISO week date |
| Generate.WeekInputGivesTuesday | generate.js:35-37 | an input with 'W' that parses comes out as the Tuesday of the same ISO week |
| Generate.TuesdayOfWeek | generate.js:37 | any day of an ISO week moves to the Tuesday of that week |
| Generate.ParseDateOfWeekText | generate.js:33-41 | "YYYY-Www" and "YYYY-Www-D" give the Tuesday of that ISO week, for every week the year has and every weekday digit |
| Generate.WeekTextDate | generate.js:35-37 | the same for any digit texts with week 1..53 |
| Generate.ParseDateOfCalendarText | generate.js:38-41 | "YYYY-MM-DD" gives that date when it is one, and an invalid date otherwise |
| Generate.CalendarTextDate | generate.js:38-41 | the same for any digit texts |
| Generate.CreateEventsForType | generate.js:59-72 | one event per date in order, with that date parsed, the type's icon and title, one day and CONFIRMED |
| Generate.SortBy | generate.js:83-87 | the in-place sort leaves the array in the order of a stable insertion sort with the comparator |
| Generate.SortEvents | generate.js:83-87 | the in-place sort of the events with the date comparator |
| Generate.CombineEvents | generate.js:83-87 | the combined list is the sorted concatenation of the matavfall and restavfall events |
| Generate.SortedByIsPermutation | generate.js:83 | the sort keeps every element, as a multiset |
| Generate.SortedByDateIsOrdered | generate.js:83-87 | with every start a date, the result is in non-decreasing date order |
| Generate.SortedByDateIsStable | generate.js:83-87 | the events of each day keep their relative order |
| Generate.MatavfallFirstOnEachDay | generate.js:83 | on each day, the matavfall events come before the restavfall events |
| Generate.DayIsMatavfallThenRestavfall | generate.js:62-68 | in the calendar merged from the two types' dates, each day is a run of events titled as matavfall, then a run titled as restavfall, and the two titles differ |
| UpdateReadmeLinks.Basename | update-readme-links.js:28 | the basename is the longest separator-free suffix of the path |
| UpdateReadmeLinks.RelativePath | update-readme-links.js:26 | the file path is the directory, a separator and the relative path |
| UpdateReadmeLinks.SlashBackslashes | update-readme-links.js:26 | every backslash becomes a slash and nothing else changes |
| UpdateReadmeLinks.LinkNamesTheFile | update-readme-links.js:25-29 | the link shows the file's basename and points below the raw calendars URL at a backslash-free relative path |
| UpdateReadmeLinks.NoBackslashKept | update-readme-links.js:26 | a path without backslashes is used unchanged in the URL |
| UpdateReadmeLinks.BasenameEndsRelativePath | update-readme-links.js:26-28 | the displayed name is the end of the linked relative path |
| UpdateReadmeLinks.UpdateReadmeNeedsBothMarkers | update-readme-links.js:38-44 | the README is rewritten exactly when both markers occur |
| UpdateReadmeLinks.UpdateReadmeSplices | update-readme-links.js:46-50 | the text up to the start marker and from the end marker on is kept, with the links between blank lines in between |
| UpdateReadmeLinks.UpdateReadmeIdempotent | update-readme-links.js:32-52 | updating twice with the same links is updating once |

## Left out

- File-system I/O is not modelled: reading the area files and the README,
  `ensureFolderExists`, `writeFileSync`, the folder creation and the
  schedule loading of `generate.js`, and `findIcsFiles`. The parsed data,
  the file paths and the README text are inputs, and the writes are
  results.
- A failed write is not modelled: `writeFileSync` reports it by returning
  false, which nobody reads, and the model records every write as made.
- An unreadable area file is not modelled: `readJsonFile` returns null and
  destructuring it throws. The model starts from parsed data.
- The `ics` library's `createEvents` is a parameter of the model, from
  events to text or error.
- Console output is left out. `process.exit(1)` on missing markers is an
  `Err` result.
- The `generateCalendar` of `generate.js` and its module-level calls are
  left out. They are library serialisation, file writes and console
  output, like the orchestration of `generate.js`.
- JavaScript objects as maps: keys inherited from the prototype (such as
  `typeMap["constructor"]` or `weekdayMap["toString"]`) are not modelled.
- Dates are whole days in the proleptic Gregorian calendar. Local time zones,
  daylight saving and the limits of the Date range are not modelled. Numbers
  are unbounded integers, not doubles.
- Generate.ParseDate: strings holding a time or zone part (a 'T', a space,
  a 'Z') are not interpreted. They give `TimeOfDayNotModelled`.
- Generate.ParseDateOfWeekText, Generate.ParseDateOfCalendarText: stated for
  four-digit years and two-digit fields. The other forms `parseISO` accepts
  (six-digit years, ordinal dates, the compact forms) are in `ParseIsoDay`
  but have no lemma of their own.
- Generate.SortedByDateIsOrdered: stated for lists whose starts are all
  dates. An invalid start makes the comparator return NaN, which the sort
  treats as equal, so the order is no longer total. The model then keeps
  the insertion-sort order, whereas the engine's order is
  implementation-defined.
- Utils.Decompose: only the canonical decompositions of Latin-1 letters
  are modelled. Other characters pass NFD unchanged.
- Utils.GetEndDateForDateAddsDays: stated for starts printed with a
  four-digit year (1000..9999), the years whose printed text reads back.
  For other years the source does not give the date back:
  - a year field 00..99 becomes 1900..1999 (`GetEndDateForDateOfYear50`);
  - a year 100..999 prints as three digits, so "09990101" with P0D gives
    "9990101".
- AreaFileProcessor.GetStreetFilePath: the calendar path is taken as
  normalised, and `path.join` is modelled as joining with '/'. Its
  normalisation is not modelled: an empty calendar path, a trailing
  separator, or "." and ".." segments in the area would be normalised away
  by `path.join` and are kept by the model.
- Utils.GetDateFromWeekShape: stated for four-digit years 1001..9998,
  weeks 1..53 and offsets of up to 60 days.
- CalendarGenerator.EventStartIsPickupDay: stated for a zero day offset.
  Other offsets are covered by `Utils.GetDateFromWeekOffset`.
- CalendarGenerator.Week: `week.pickupDayDiff || 0` and
  `week.description || ''` are modelled with `Option`. Values that are
  present but falsy (0, an empty string, NaN) give the same result either
  way, and non-numeric offsets are not modelled.
- CalendarGenerator.InsertCalNameAfterFirstCalScale: the placement is
  stated for calendar names without '$'. A '$' pattern in the name is
  expanded by `replace`, and `InsertCalName` models that expansion.
- AreaFileProcessor.StreetFileInAreaFolder: stated for area names without
  '/'.
- UpdateReadmeLinks.FormatMarkdownLink: paths are '/'-separated strings.
  The file must lie below the calendars folder, as every path
  `findIcsFiles` returns does. `path.join` normalisation and relative paths
  with "..", which such files do not produce, are not modelled.
- UpdateReadmeLinks.UpdateReadmeIdempotent: stated when the start marker
  comes before the end marker and no link holds a '<'.
- AreaFileProcessor.GenerateStreets: the outcome and path of each street
  are passed as ghost sequences. The method's contract uses them, so the
  contract is not stated on the real inputs alone.
