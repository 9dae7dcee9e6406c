/** area_file_processor.js: the type map of an area file, the path of each
    street's calendar file, and the loop that generates one calendar per
    street. Reading the area file, creating folders and writing files are
    I/O: the parsed file is an input, and the writes are returned in the
    order they happen. */
module AreaFileProcessor {
  import opened Wrappers
  import opened JsString
  import opened Utils
  import opened CalendarGenerator

  /** One element of the area file's `types` array. */
  datatype TypeEntry = TypeEntry(typeCode: string, icon: string, description: string)

  /** One element of the area file's `streetPickup` array. */
  datatype StreetPickup = StreetPickup(street: string, pickupDay: string)

  /** The fields of a parsed area file that the generator reads. */
  datatype AreaFile = AreaFile(area: string, year: int, weeks: seq<Week>, types: seq<TypeEntry>,
                               streetPickup: seq<StreetPickup>, calendarTitle: string)

  /** A file written by generateCalendar. */
  datatype FileWrite = FileWrite(path: string, text: string)

  // ---------------------------------------------------------------------
  // createTypeMap

  /** The object built by the reduce over `types`: each entry stores its icon
      and description under its type code, a later entry overwriting an
      earlier one with the same code. */
  function TypeMapOf(types: seq<TypeEntry>): map<string, TypeMeta> {
    if types == [] then map[]
    else
      var t := types[|types| - 1];
      TypeMapOf(types[..|types| - 1])[t.typeCode := TypeMeta(t.icon, t.description)]
  }

  /** createTypeMap(types): the reduce, as the loop it is. */
  method CreateTypeMap(types: seq<TypeEntry>) returns (m: map<string, TypeMeta>)
    ensures m == TypeMapOf(types)
  {
    m := map[];
    var i := 0;
    while i < |types|
      invariant 0 <= i <= |types|
      invariant m == TypeMapOf(types[..i])
    {
      assert types[..i + 1][..i] == types[..i];
      m := m[types[i].typeCode := TypeMeta(types[i].icon, types[i].description)];
      i := i + 1;
    }
    assert types[..|types|] == types;
  }

  /** The type map has exactly the type codes of the entries as its keys. */
  lemma {:induction false} TypeMapKeys(types: seq<TypeEntry>)
    ensures TypeMapOf(types).Keys == set t | t in types :: t.typeCode
  {
    if types != [] {
      var n := |types| - 1;
      TypeMapKeys(types[..n]);
      assert types == types[..n] + [types[n]];
      assert forall t :: t in types <==> t in types[..n] || t == types[n];
    }
  }

  /** Under each code the type map holds the icon and description of the
      last entry with that code. */
  lemma {:induction false} TypeMapLastEntryWins(types: seq<TypeEntry>, i: nat)
    requires i < |types|
    requires forall j :: i < j < |types| ==> types[j].typeCode != types[i].typeCode
    ensures types[i].typeCode in TypeMapOf(types)
    ensures TypeMapOf(types)[types[i].typeCode] == TypeMeta(types[i].icon, types[i].description)
  {
    var n := |types| - 1;
    if i < n {
      TypeMapLastEntryWins(types[..n], i);
    }
  }

  // ---------------------------------------------------------------------
  // getStreetFilePath and the per-street title

  /** The folder of an area's calendars, path.join(calendarPath, `area_${area}`). */
  function AreaFolder(calendarPath: string, area: string): string {
    calendarPath + "/" + "area_" + area
  }

  /** The file name `area_${area}_${toFileSafeName(street)}.ics`. */
  function StreetFileName(area: string, street: string): string {
    "area_" + area + "_" + ToFileSafeName(street) + ".ics"
  }

  /** getStreetFilePath(area, street, calendarPath). */
  function GetStreetFilePath(area: string, street: string, calendarPath: string): string {
    AreaFolder(calendarPath, area) + "/" + StreetFileName(area, street)
  }

  /** A street's calendar lies directly in its area's folder: the path is
      the folder, a separator and a file name that holds no separator (for
      an area name without one). */
  lemma StreetFileInAreaFolder(area: string, street: string, calendarPath: string)
    requires '/' !in area
    ensures var name := StreetFileName(area, street);
      && GetStreetFilePath(area, street, calendarPath) == AreaFolder(calendarPath, area) + "/" + name
      && '/' !in name
      && name[|name| - 4..] == ".ics"
  {
    var safe := ToFileSafeName(street);
    ToFileSafeNameIsSlug(street);
    assert '/' !in safe by {
      assert forall k :: 0 <= k < |safe| ==> IsSlugChar(safe[k]);
    }
    var name := StreetFileName(area, street);
    assert name == "area_" + area + "_" + safe + ".ics";
    assert '/' !in "area_" + area + "_" + safe;
  }

  /** Two streets of one area share a calendar file exactly when their
      file-safe names agree; the later street's calendar then replaces the
      earlier one's. */
  lemma SameFileIffSameSafeName(area: string, s1: string, s2: string, calendarPath: string)
    ensures GetStreetFilePath(area, s1, calendarPath) == GetStreetFilePath(area, s2, calendarPath)
        <==> ToFileSafeName(s1) == ToFileSafeName(s2)
  {
    var f := AreaFolder(calendarPath, area) + "/";
    var q := "area_" + area + "_";
    Regroup(f, q, ToFileSafeName(s1), ".ics");
    Regroup(f, q, ToFileSafeName(s2), ".ics");
    FramedIff(f + q, ToFileSafeName(s1), ToFileSafeName(s2), ".ics");
  }

  lemma Regroup<T>(x: seq<T>, y: seq<T>, z: seq<T>, w: seq<T>)
    ensures x + ((y + z) + w) == ((x + y) + z) + w
  {
  }

  /** Sequences framed by the same prefix and suffix are equal exactly when
      their middles are. */
  lemma FramedIff<T>(p: seq<T>, a: seq<T>, b: seq<T>, q: seq<T>)
    ensures p + a + q == p + b + q <==> a == b
  {
    if p + a + q == p + b + q {
      assert a == (p + a + q)[|p|..|p| + |a|];
      assert b == (p + b + q)[|p|..|p| + |b|];
    }
  }

  /** `${calendarTitle} – ${street}`, with an en dash. */
  function StreetTitle(calendarTitle: string, street: string): string {
    calendarTitle + " – " + street
  }

  // ---------------------------------------------------------------------
  // generateCalendarsForAreaFile

  /** What generateCalendar does for the i-th street of the file. */
  function StreetOutcome(data: AreaFile, createEvents: seq<Event> -> Result<string, string>, i: nat): CalendarOutcome
    requires i < |data.streetPickup|
  {
    var sp := data.streetPickup[i];
    var events := CreateEventsForStreet(data.area, sp.street, data.year, data.weeks, TypeMapOf(data.types), sp.pickupDay);
    GenerateCalendar(events, StreetTitle(data.calendarTitle, sp.street), createEvents(events))
  }

  /** The outcome of every street, in street order. */
  function StreetOutcomes(data: AreaFile, createEvents: seq<Event> -> Result<string, string>): (r: seq<CalendarOutcome>)
    ensures IsStreetOutcomes(data, createEvents, r)
  {
    seq(|data.streetPickup|, i requires 0 <= i < |data.streetPickup| => StreetOutcome(data, createEvents, i))
  }

  /** outcomes holds the outcome of every street, in street order. (The
      trigger keeps the outcome of a street from being unfolded where only
      the sequence is needed.) */
  predicate IsStreetOutcomes(data: AreaFile, createEvents: seq<Event> -> Result<string, string>, outcomes: seq<CalendarOutcome>) {
    && |outcomes| == |data.streetPickup|
    && forall i {:trigger StreetOutcome(data, createEvents, i)} :: 0 <= i < |outcomes| ==> outcomes[i] == StreetOutcome(data, createEvents, i)
  }

  /** The calendar file of every street, in street order. */
  function StreetPaths(data: AreaFile, calendarPath: string): (r: seq<string>)
    ensures IsStreetPaths(data, calendarPath, r)
  {
    seq(|data.streetPickup|, i requires 0 <= i < |data.streetPickup| => GetStreetFilePath(data.area, data.streetPickup[i].street, calendarPath))
  }

  /** paths holds the calendar file of every street, in street order. */
  predicate IsStreetPaths(data: AreaFile, calendarPath: string, paths: seq<string>) {
    && |paths| == |data.streetPickup|
    && forall i {:trigger GetStreetFilePath(data.area, data.streetPickup[i].street, calendarPath)} ::
         0 <= i < |paths| ==> paths[i] == GetStreetFilePath(data.area, data.streetPickup[i].street, calendarPath)
  }

  /** The first outcome from `from` on that is a thrown DTSTAMP callback, or
      the number of outcomes. */
  function FirstThrow(outcomes: seq<CalendarOutcome>, from: nat): (k: nat)
    requires from <= |outcomes|
    ensures from <= k <= |outcomes|
    ensures k < |outcomes| ==> outcomes[k] == StampTypeError
    ensures forall i :: from <= i < k ==> outcomes[i] != StampTypeError
    decreases |outcomes| - from
  {
    if from == |outcomes| then from
    else if outcomes[from] == StampTypeError then from
    else FirstThrow(outcomes, from + 1)
  }

  /** The files written for the first n streets, in street order: one per
      street whose calendar was generated, to that street's path. */
  function WritesOf(outcomes: seq<CalendarOutcome>, paths: seq<string>, n: nat): seq<FileWrite>
    requires n <= |outcomes| == |paths|
  {
    if n == 0 then []
    else
      var prev := WritesOf(outcomes, paths, n - 1);
      match outcomes[n - 1]
      case Written(text) => prev + [FileWrite(paths[n - 1], text)]
      case _ => prev
  }

  /** The forEach callback for the i-th street: its events, its file path,
      its title, and what generateCalendar does with them. The ghost
      sequences name the specification of every street. */
  method GenerateStreetCalendar(data: AreaFile, typeMap: map<string, TypeMeta>, calendarPath: string,
                                createEvents: seq<Event> -> Result<string, string>, i: nat,
                                ghost outcomes: seq<CalendarOutcome>, ghost paths: seq<string>)
    returns (outcome: CalendarOutcome, filePath: string)
    requires i < |data.streetPickup| && typeMap == TypeMapOf(data.types)
    requires IsStreetOutcomes(data, createEvents, outcomes) && IsStreetPaths(data, calendarPath, paths)
    ensures outcome == outcomes[i] && filePath == paths[i]
  {
    var sp := data.streetPickup[i];
    var events := CreateEventsForStreet(data.area, sp.street, data.year, data.weeks, typeMap, sp.pickupDay);
    filePath := GetStreetFilePath(data.area, sp.street, calendarPath);
    var fullTitle := StreetTitle(data.calendarTitle, sp.street);
    outcome := GenerateCalendar(events, fullTitle, createEvents(events));
    assert outcome == StreetOutcome(data, createEvents, i);
  }

  /** generateCalendarsForAreaFile for a file that was read: build the type
      map, then for each street in order build its events and generate its
      calendar. An exception from the DTSTAMP callback ends the loop and
      leaves the function (threw). The current date the caller passes is
      handed on to generateCalendar, which takes no such parameter: it is
      accepted here and not used. */
  method GenerateCalendarsForAreaFile(data: AreaFile, calendarPath: string,
                                      createEvents: seq<Event> -> Result<string, string>, currentDate: string)
    returns (writes: seq<FileWrite>, threw: bool)
    ensures var outcomes := StreetOutcomes(data, createEvents);
      var k := FirstThrow(outcomes, 0);
      && (threw <==> k < |data.streetPickup|)
      && writes == WritesOf(outcomes, StreetPaths(data, calendarPath), k)
  {
    writes, threw := GenerateStreets(data, calendarPath, createEvents, StreetOutcomes(data, createEvents), StreetPaths(data, calendarPath));
  }

  /** The loop of generateCalendarsForAreaFile, against the outcome and the
      path of every street. */
  method GenerateStreets(data: AreaFile, calendarPath: string, createEvents: seq<Event> -> Result<string, string>,
                         ghost outcomes: seq<CalendarOutcome>, ghost paths: seq<string>)
    returns (writes: seq<FileWrite>, threw: bool)
    requires IsStreetOutcomes(data, createEvents, outcomes) && IsStreetPaths(data, calendarPath, paths)
    ensures var k := FirstThrow(outcomes, 0);
      && (threw <==> k < |data.streetPickup|)
      && writes == WritesOf(outcomes, paths, k)
  {
    var typeMap := CreateTypeMap(data.types);
    writes := [];
    threw := false;
    var i := 0;
    while i < |data.streetPickup|
      invariant 0 <= i <= |data.streetPickup|
      invariant FirstThrow(outcomes, 0) == FirstThrow(outcomes, i)
      invariant writes == WritesOf(outcomes, paths, i)
    {
      var outcome, filePath := GenerateStreetCalendar(data, typeMap, calendarPath, createEvents, i, outcomes, paths);
      match outcome {
        case StampTypeError =>
          threw := true;
          return;
        case NotWritten =>
        case Written(text) =>
          writes := writes + [FileWrite(filePath, text)];
      }
      i := i + 1;
    }
  }

  /** When the first n streets' calendars are all generated, there is one
      write per street, in street order, to that street's file, holding its
      calendar. */
  lemma {:induction false} OneWritePerStreet(outcomes: seq<CalendarOutcome>, paths: seq<string>, n: nat)
    requires n <= |outcomes| == |paths|
    requires forall i :: 0 <= i < n ==> outcomes[i].Written?
    ensures var writes := WritesOf(outcomes, paths, n);
      && |writes| == n
      && forall i :: 0 <= i < n ==> writes[i] == FileWrite(paths[i], outcomes[i].text)
  {
    if n > 0 {
      OneWritePerStreet(outcomes, paths, n - 1);
    }
  }

  /** Every file written is the calendar file of one of the streets, and so
      lies in the area's folder. */
  lemma {:induction false} WritesAreStreetFiles(outcomes: seq<CalendarOutcome>, paths: seq<string>, n: nat)
    requires n <= |outcomes| == |paths|
    ensures forall w :: w in WritesOf(outcomes, paths, n) ==> exists i :: 0 <= i < n && w.path == paths[i]
  {
    if n > 0 {
      WritesAreStreetFiles(outcomes, paths, n - 1);
    }
  }
}
