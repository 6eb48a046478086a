/** The row-by-row import of classrooms/management/commands/load_schedule.py:
    `import_to_dump` copies a row into ScheduleDump, `process_to_normalized`
    upserts its College, Building, Room and one Schedule per day, and
    `handle` runs both over every row, counts the rows that went through and
    rebuilds the availability grid. Python exceptions are `Err` results. */
module ScheduleImport {
  import opened Text
  import opened Models
  import opened Wrappers
  import opened LoadSchedule
  import opened ScheduleFields
  import opened AvailabilityGrid

  /** One CSV record, as `csv.DictReader` yields it. */
  datatype CsvRow = CsvRow(collegeName: string, term: string, subject: string,
                           courseCode: string, courseName: string, building: string,
                           room: string, startDate: string, endDate: string, days: string,
                           startTime: string, endTime: string)

  /** The four parsed fields in the order both import steps evaluate them
      (start date, end date, start time, end time); the first failure wins. */
  function RowFields(row: CsvRow): (r: Result<(Date, Date, Time, Time)>)
    ensures r.Ok? <==> ParseDate(row.startDate).Ok? && ParseDate(row.endDate).Ok? &&
                       ParseTime(row.startTime).Ok? && ParseTime(row.endTime).Ok?
    ensures r.Ok? ==> r.value == (ParseDate(row.startDate).value, ParseDate(row.endDate).value,
                                  ParseTime(row.startTime).value, ParseTime(row.endTime).value)
    ensures ParseDate(row.startDate).Err? ==> r == Err(ParseDate(row.startDate).message)
  {
    match ParseDate(row.startDate)
    case Err(e) => Err(e)
    case Ok(sd) =>
      match ParseDate(row.endDate)
      case Err(e) => Err(e)
      case Ok(ed) =>
        match ParseTime(row.startTime)
        case Err(e) => Err(e)
        case Ok(st) =>
          match ParseTime(row.endTime)
          case Err(e) => Err(e)
          case Ok(et) => Ok((sd, ed, st, et))
  }

  /** The ScheduleDump record of a row. */
  function DumpRowOf(row: CsvRow, f: (Date, Date, Time, Time)): DumpRow {
    DumpRow(Strip(row.collegeName), Strip(row.term), Strip(row.subject), Strip(row.courseCode),
            Strip(row.courseName), Strip(row.building), Strip(row.room), f.0, f.1,
            Strip(row.days), f.2, f.3)
  }

  /** The record `import_to_dump` creates, or the exception it raises. */
  function DumpOf(row: CsvRow): (r: Result<DumpRow>)
    ensures r.Ok? <==> RowFields(row).Ok?
  {
    match RowFields(row)
    case Err(e) => Err("Error saving to ScheduleDump: " + e)
    case Ok(f) => Ok(DumpRowOf(row, f))
  }

  /** The room a row names, in the row's college and building. */
  function RoomOf(row: CsvRow): Room {
    Room(Strip(row.room), Strip(row.collegeName), Strip(row.building))
  }

  /** What the import reads from a row: the dump record (or the error), the
      room, the days (`parse_days`) and the four parsed fields (or the first
      error). Everything the import does to the tables depends on the row
      only through this value. */
  datatype ParsedRow = ParsedRow(dump: Result<DumpRow>, room: Room, days: seq<string>,
                                 fields: Result<(Date, Date, Time, Time)>)

  function Parse(row: CsvRow): ParsedRow {
    ParsedRow(DumpOf(row), RoomOf(row), DaysOf(row.days), RowFields(row))
  }

  function ParseAll(rows: seq<CsvRow>): (ps: seq<ParsedRow>)
    ensures |ps| == |rows|
  {
    seq(|rows|, k requires 0 <= k < |rows| => Parse(rows[k]))
  }

  /** The tables after `import_to_dump`, and whether it raised. The
      IntegrityError branch cannot be taken: ScheduleDump has no unique key. */
  function ImportStep(t: Tables, p: ParsedRow): (r: (Tables, Result<()>))
    ensures r.1.Ok? <==> p.dump.Ok?
    ensures r.1.Ok? ==> r.0 == t.(dump := t.dump + [p.dump.value])
    ensures r.1.Err? ==> r.0 == t
  {
    match p.dump
    case Err(e) => (t, Err(e))
    case Ok(d) => (t.(dump := t.dump + [d]), Ok(()))
  }

  /** The Schedule records for `room` on each of `days`, in order. */
  function SchedulesFor(room: Room, days: seq<string>, f: (Date, Date, Time, Time)): (r: seq<Schedule>)
    ensures |r| == |days|
  {
    seq(|days|, k requires 0 <= k < |days| => Schedule(room, days[k], f.2, f.3, f.0, f.1))
  }

  /** The tables after the three upserts that `process_to_normalized` does
      before it looks at the days. */
  function Places(t: Tables, room: Room): Tables {
    t.(colleges := Upsert(t.colleges, room.college),
       buildings := Upsert(t.buildings, Building(room.building, room.college)),
       rooms := Upsert(t.rooms, room))
  }

  /** The tables after `process_to_normalized`, and whether it raised. */
  function NormalizedStep(t: Tables, p: ParsedRow): (r: (Tables, Result<()>))
    ensures r.0.dump == t.dump
  {
    var t1 := Places(t, p.room);
    if p.days == [] then (t1, Ok(()))
    else
      match p.fields
      case Err(e) => (t1, Err("Error processing normalized data: " + e))
      case Ok(f) => (t1.(schedules := UpsertAll(t1.schedules, SchedulesFor(p.room, p.days, f))), Ok(()))
  }

  /** `import_to_dump`. */
  method ImportToDump(cat: Catalog, row: CsvRow) returns (r: Result<()>)
    modifies cat
    ensures (cat.State(), r) == ImportStep(old(cat.State()), Parse(row))
  {
    var startDate := ParseDate(row.startDate);
    if startDate.Err? { return Err("Error saving to ScheduleDump: " + startDate.message); }
    var endDate := ParseDate(row.endDate);
    if endDate.Err? { return Err("Error saving to ScheduleDump: " + endDate.message); }
    var startTime := ParseTime(row.startTime);
    if startTime.Err? { return Err("Error saving to ScheduleDump: " + startTime.message); }
    var endTime := ParseTime(row.endTime);
    if endTime.Err? { return Err("Error saving to ScheduleDump: " + endTime.message); }
    cat.CreateDump(DumpRow(Strip(row.collegeName), Strip(row.term), Strip(row.subject),
                           Strip(row.courseCode), Strip(row.courseName), Strip(row.building),
                           Strip(row.room), startDate.value, endDate.value, Strip(row.days),
                           startTime.value, endTime.value));
    r := Ok(());
  }

  /** The College, Building and Room upserts of `process_to_normalized`. */
  method UpsertPlaces(cat: Catalog, row: CsvRow) returns (room: Room)
    modifies cat
    ensures room == RoomOf(row)
    ensures cat.State() == Places(old(cat.State()), room)
  {
    var collegeName := Strip(row.collegeName);
    cat.GetOrCreateCollege(collegeName);
    var buildingName := Strip(row.building);
    cat.GetOrCreateBuilding(Building(buildingName, collegeName));
    room := Room(Strip(row.room), collegeName, buildingName);
    cat.GetOrCreateRoom(room);
  }

  /** The `for day in days` loop of `process_to_normalized`. */
  method UpsertSchedules(cat: Catalog, room: Room, days: seq<string>, f: (Date, Date, Time, Time))
    modifies cat
    ensures cat.State() == old(cat.State()).(schedules := UpsertAll(old(cat.schedules), SchedulesFor(room, days, f)))
  {
    ghost var wanted := SchedulesFor(room, days, f);
    var (startDate, endDate, startTime, endTime) := f;
    for k := 0 to |days|
      invariant cat.State() == old(cat.State()).(schedules := UpsertAll(old(cat.schedules), wanted[..k]))
    {
      assert wanted[..k + 1][..k] == wanted[..k];
      cat.GetOrCreateSchedule(Schedule(room, days[k], startTime, endTime, startDate, endDate));
    }
    assert wanted[..|days|] == wanted;
  }

  /** `process_to_normalized`. */
  method ProcessToNormalized(cat: Catalog, row: CsvRow) returns (r: Result<()>)
    modifies cat
    ensures (cat.State(), r) == NormalizedStep(old(cat.State()), Parse(row))
  {
    var room := UpsertPlaces(cat, row);
    var days := ParseDays(row.days);
    if days == [] {
      return Ok(());
    }
    var fields := RowFields(row);
    match fields
    case Err(e) =>
      r := Err("Error processing normalized data: " + e);
    case Ok(f) =>
      UpsertSchedules(cat, room, days, f);
      r := Ok(());
  }

  // -------------------------------------------------- normalized properties

  lemma SchedulesForMembers(room: Room, days: seq<string>, f: (Date, Date, Time, Time))
    ensures forall s: Schedule :: s in SchedulesFor(room, days, f) <==>
      (s.room == room && s.day in days &&
       s.startTime == f.2 && s.endTime == f.3 && s.startDate == f.0 && s.endDate == f.1)
  {
    var wanted := SchedulesFor(room, days, f);
    forall s: Schedule | s.room == room && s.day in days &&
               s.startTime == f.2 && s.endTime == f.3 && s.startDate == f.0 && s.endDate == f.1
      ensures s in wanted
    {
      var k :| 0 <= k < |days| && days[k] == s.day;
      assert wanted[k] == s;
    }
  }

  /** A row that names days and parses creates exactly the Schedules of its
      room on those days with its dates and times, those that were missing,
      one record per day. */
  lemma NormalizedSchedules(t: Tables, p: ParsedRow)
    requires NoDuplicates(t.schedules)
    requires p.days != [] && p.fields.Ok?
    ensures var t2 := NormalizedStep(t, p).0;
      var f := p.fields.value;
      NormalizedStep(t, p).1.Ok? &&
      NoDuplicates(t2.schedules) &&
      |t2.schedules| <= |t.schedules| + |p.days| &&
      forall s :: s in t2.schedules <==>
        s in t.schedules ||
        (s.room == p.room && s.day in p.days &&
         s.startTime == f.2 && s.endTime == f.3 && s.startDate == f.0 && s.endDate == f.1)
  {
    SchedulesForMembers(p.room, p.days, p.fields.value);
  }

  /** A row whose day string yields no code creates no Schedule, and the
      call succeeds. */
  lemma NormalizedNoDays(t: Tables, p: ParsedRow)
    requires p.days == []
    ensures NormalizedStep(t, p).1.Ok?
    ensures NormalizedStep(t, p).0.schedules == t.schedules
    ensures NormalizedStep(t, p).0 == Places(t, p.room)
  {
  }

  /** A row with days whose dates or times do not parse raises, creates no
      Schedule, and keeps the College, Building and Room it upserted. */
  lemma NormalizedParseError(t: Tables, p: ParsedRow)
    requires p.days != [] && p.fields.Err?
    ensures NormalizedStep(t, p).1.Err?
    ensures NormalizedStep(t, p).0 == Places(t, p.room)
    ensures NormalizedStep(t, p).0.schedules == t.schedules
  {
  }

  /** Processing the same row twice is processing it once. */
  lemma NormalizedIdempotent(t: Tables, p: ParsedRow)
    ensures NormalizedStep(NormalizedStep(t, p).0, p) == NormalizedStep(t, p)
  {
    var t1 := Places(t, p.room);
    assert Places(t1, p.room) == t1;
    if p.days != [] && p.fields.Ok? {
      var t2 := NormalizedStep(t, p).0;
      assert Places(t2, p.room) == t2;
      UpsertAllIdempotent(t1.schedules, SchedulesFor(p.room, p.days, p.fields.value));
    }
  }

  /** The keys and references of the tables survive `process_to_normalized`. */
  lemma NormalizedConsistent(t: Tables, p: ParsedRow)
    requires Consistent(t)
    ensures Consistent(NormalizedStep(t, p).0)
  {
    var t1 := Places(t, p.room);
    assert Consistent(t1);
    if p.days != [] && p.fields.Ok? {
      SchedulesForMembers(p.room, p.days, p.fields.value);
    }
  }

  // ------------------------------------------------------------ the command

  /** A row goes through `handle`'s `try` block: its dump record is created
      unless the dump is skipped, and its normalized step does not raise
      unless it is skipped. */
  predicate Succeeds(p: ParsedRow, skipDump: bool, skipNormalized: bool) {
    (skipDump || p.dump.Ok?) && (skipNormalized || p.days == [] || p.fields.Ok?)
  }

  /** The tables after one iteration of `handle`'s loop, and whether the
      row counted as processed. */
  function RowStep(t: Tables, p: ParsedRow, skipDump: bool, skipNormalized: bool): (r: (Tables, bool))
    ensures r.1 == Succeeds(p, skipDump, skipNormalized)
  {
    var d := if skipDump then (t, Ok(())) else ImportStep(t, p);
    if d.1.Err? then (d.0, false)
    else if skipNormalized then (d.0, true)
    else
      var n := NormalizedStep(d.0, p);
      (n.0, n.1.Ok?)
  }

  /** The number of rows that go through. */
  function CountSucceeding(ps: seq<ParsedRow>, skipDump: bool, skipNormalized: bool): (n: nat)
    ensures n <= |ps|
    decreases |ps|
  {
    if ps == [] then 0
    else CountSucceeding(ps[..|ps| - 1], skipDump, skipNormalized) +
         (if Succeeds(ps[|ps| - 1], skipDump, skipNormalized) then 1 else 0)
  }

  /** The tables and `processed_rows` after `handle`'s loop. */
  function Run(t: Tables, ps: seq<ParsedRow>, skipDump: bool, skipNormalized: bool): (r: (Tables, nat))
    ensures r.1 == CountSucceeding(ps, skipDump, skipNormalized) && r.1 <= |ps|
    decreases |ps|
  {
    if ps == [] then (t, 0)
    else
      var prior := Run(t, ps[..|ps| - 1], skipDump, skipNormalized);
      var step := RowStep(prior.0, ps[|ps| - 1], skipDump, skipNormalized);
      (step.0, prior.1 + (if step.1 then 1 else 0))
  }

  function HandleEffect(t: Tables, rows: seq<CsvRow>, skipDump: bool, skipNormalized: bool): (Tables, nat) {
    Run(t, ParseAll(rows), skipDump, skipNormalized)
  }

  /** The body of `handle`'s `try` block; `p` is what the import reads from `row`. */
  method HandleRow(cat: Catalog, row: CsvRow, ghost p: ParsedRow, skipDump: bool, skipNormalized: bool)
    returns (ok: bool)
    requires p == Parse(row)
    modifies cat
    ensures (cat.State(), ok) == RowStep(old(cat.State()), p, skipDump, skipNormalized)
  {
    if !skipDump {
      var r := ImportToDump(cat, row);
      if r.Err? {
        return false;
      }
    }
    if !skipNormalized {
      var r := ProcessToNormalized(cat, row);
      if r.Err? {
        return false;
      }
    }
    ok := true;
  }

  /** `handle`'s loop: import every row and count those that went through;
      a row that raises is skipped and the loop goes on. */
  method ImportRows(cat: Catalog, rows: seq<CsvRow>, skipDump: bool, skipNormalized: bool)
    returns (processed: nat)
    modifies cat
    ensures (cat.State(), processed) == HandleEffect(old(cat.State()), rows, skipDump, skipNormalized)
  {
    processed := 0;
    ghost var parsed := ParseAll(rows);
    ghost var t0 := cat.State();
    for i := 0 to |rows|
      invariant (cat.State(), processed) == Run(t0, parsed[..i], skipDump, skipNormalized)
    {
      RunStep(t0, parsed, i, skipDump, skipNormalized);
      var ok := HandleRow(cat, rows[i], parsed[i], skipDump, skipNormalized);
      if ok {
        processed := processed + 1;
      }
    }
    assert parsed[..|rows|] == parsed;
  }

  /** `handle`: import the rows, then rebuild the availability grid
      (`call_command('populate_availabilities')`). */
  method Handle(cat: Catalog, grid: AvailabilityTable, rows: seq<CsvRow>, skipDump: bool, skipNormalized: bool)
    returns (processed: nat, total: nat)
    modifies cat, grid
    ensures total == |rows| && processed <= total
    ensures (cat.State(), processed) == HandleEffect(old(cat.State()), rows, skipDump, skipNormalized)
    ensures grid.entries == Grid(cat.rooms, cat.schedules)
  {
    total := |rows|;
    processed := ImportRows(cat, rows, skipDump, skipNormalized);
    var _ := grid.Rebuild(cat.rooms, cat.schedules);
  }

  /** One more iteration of the loop. */
  lemma RunStep(t: Tables, ps: seq<ParsedRow>, i: nat, skipDump: bool, skipNormalized: bool)
    requires i < |ps|
    ensures var prior := Run(t, ps[..i], skipDump, skipNormalized);
      var step := RowStep(prior.0, ps[i], skipDump, skipNormalized);
      Run(t, ps[..i + 1], skipDump, skipNormalized) == (step.0, prior.1 + (if step.1 then 1 else 0))
  {
    assert ps[..i + 1][..i] == ps[..i];
  }

  // -------------------------------------------------------- run properties

  /** The dump record of a row carries the values the normalized step uses,
      and exists exactly when those values parse. */
  lemma ParseAgrees(row: CsvRow)
    ensures Parse(row).dump.Ok? <==> Parse(row).fields.Ok?
    ensures Parse(row).dump.Ok? ==>
      var d, f := Parse(row).dump.value, Parse(row).fields.value;
      (d.startDate, d.endDate, d.startTime, d.endTime) == f &&
      d.collegeName == Parse(row).room.college && d.building == Parse(row).room.building &&
      d.room == Parse(row).room.name
  {
  }

  /** The keys and references of the tables survive the whole import. */
  lemma {:induction false} RunConsistent(t: Tables, ps: seq<ParsedRow>, skipDump: bool, skipNormalized: bool)
    requires Consistent(t)
    ensures Consistent(Run(t, ps, skipDump, skipNormalized).0)
    decreases |ps|
  {
    if ps != [] {
      var prior := Run(t, ps[..|ps| - 1], skipDump, skipNormalized).0;
      RunConsistent(t, ps[..|ps| - 1], skipDump, skipNormalized);
      var d := if skipDump then (prior, Ok(())) else ImportStep(prior, ps[|ps| - 1]);
      assert Consistent(d.0);
      NormalizedConsistent(d.0, ps[|ps| - 1]);
    }
  }

  /** The dump records a run appends: one per row whose dump step succeeds. */
  function DumpsOf(ps: seq<ParsedRow>, skipDump: bool): (r: seq<DumpRow>)
    ensures |r| <= |ps|
    decreases |ps|
  {
    if ps == [] then []
    else
      var last := ps[|ps| - 1];
      DumpsOf(ps[..|ps| - 1], skipDump) + (if !skipDump && last.dump.Ok? then [last.dump.value] else [])
  }

  /** The dump grows by the records of the rows whose dump step succeeded,
      whatever the tables held before. */
  lemma {:induction false} RunDump(t: Tables, ps: seq<ParsedRow>, skipDump: bool, skipNormalized: bool)
    ensures Run(t, ps, skipDump, skipNormalized).0.dump == t.dump + DumpsOf(ps, skipDump)
    decreases |ps|
  {
    if ps != [] {
      RunDump(t, ps[..|ps| - 1], skipDump, skipNormalized);
    }
  }

  /** The normalized tables, without the dump. */
  function Normal(t: Tables): Tables {
    t.(dump := [])
  }

  /** Everything the normalized step of `p` would upsert is already stored. */
  predicate Covers(t: Tables, p: ParsedRow) {
    p.room.college in t.colleges && Building(p.room.building, p.room.college) in t.buildings &&
    p.room in t.rooms &&
    (p.days != [] && p.fields.Ok? ==>
      forall s :: s in SchedulesFor(p.room, p.days, p.fields.value) ==> s in t.schedules)
  }

  /** The step of `p` leaves the normalized tables alone. */
  predicate Skipped(p: ParsedRow, skipDump: bool, skipNormalized: bool) {
    skipNormalized || (!skipDump && p.dump.Err?)
  }

  /** Every record of `t` is still in `u`. */
  predicate Grows(t: Tables, u: Tables) {
    (forall x :: x in t.colleges ==> x in u.colleges) &&
    (forall x :: x in t.buildings ==> x in u.buildings) &&
    (forall x :: x in t.rooms ==> x in u.rooms) &&
    (forall x :: x in t.schedules ==> x in u.schedules)
  }

  lemma RowStepFacts(t: Tables, p: ParsedRow, skipDump: bool, skipNormalized: bool)
    ensures Grows(t, RowStep(t, p, skipDump, skipNormalized).0)
    ensures Skipped(p, skipDump, skipNormalized) ==>
      Normal(RowStep(t, p, skipDump, skipNormalized).0) == Normal(t)
    ensures !Skipped(p, skipDump, skipNormalized) ==> Covers(RowStep(t, p, skipDump, skipNormalized).0, p)
    ensures Covers(t, p) ==> Normal(RowStep(t, p, skipDump, skipNormalized).0) == Normal(t)
  {
    if p.days != [] && p.fields.Ok? {
      var d := if skipDump then (t, Ok(())) else ImportStep(t, p);
      var t1 := Places(d.0, p.room);
      var wanted := SchedulesFor(p.room, p.days, p.fields.value);
      if Covers(t, p) {
        UpsertAllPresent(t1.schedules, wanted);
      }
    }
  }

  /** What a run has put in the tables stays there. */
  lemma {:induction false} RunCoversAll(t: Tables, ps: seq<ParsedRow>, skipDump: bool, skipNormalized: bool)
    ensures Grows(t, Run(t, ps, skipDump, skipNormalized).0)
    ensures forall i :: 0 <= i < |ps| && !Skipped(ps[i], skipDump, skipNormalized) ==>
      Covers(Run(t, ps, skipDump, skipNormalized).0, ps[i])
    decreases |ps|
  {
    if ps != [] {
      var init := ps[..|ps| - 1];
      var prior := Run(t, init, skipDump, skipNormalized).0;
      RunCoversAll(t, init, skipDump, skipNormalized);
      RowStepFacts(prior, ps[|ps| - 1], skipDump, skipNormalized);
      forall i | 0 <= i < |ps| - 1 && !Skipped(ps[i], skipDump, skipNormalized)
        ensures Covers(Run(t, ps, skipDump, skipNormalized).0, ps[i])
      {
        assert init[i] == ps[i];
      }
    }
  }

  /** A run over rows whose upserts are all stored already leaves the
      normalized tables unchanged. */
  lemma {:induction false} RunSettled(t: Tables, ps: seq<ParsedRow>, skipDump: bool, skipNormalized: bool)
    requires forall i :: 0 <= i < |ps| ==> Skipped(ps[i], skipDump, skipNormalized) || Covers(t, ps[i])
    ensures Normal(Run(t, ps, skipDump, skipNormalized).0) == Normal(t)
    decreases |ps|
  {
    if ps != [] {
      var init := ps[..|ps| - 1];
      forall i | 0 <= i < |init|
        ensures Skipped(init[i], skipDump, skipNormalized) || Covers(t, init[i])
      {
        assert init[i] == ps[i];
      }
      RunSettled(t, init, skipDump, skipNormalized);
      var prior := Run(t, init, skipDump, skipNormalized).0;
      var last := ps[|ps| - 1];
      assert Covers(t, last) ==> Covers(prior, last) by {
        assert prior.colleges == t.colleges && prior.buildings == t.buildings;
        assert prior.rooms == t.rooms && prior.schedules == t.schedules;
      }
      RowStepFacts(prior, last, skipDump, skipNormalized);
    }
  }

  /** Importing the same file again changes no College, Building, Room or
      Schedule and counts the same rows as processed; only the dump, which
      has no unique key, receives every record a second time. */
  lemma HandleRerun(t: Tables, rows: seq<CsvRow>, skipDump: bool, skipNormalized: bool)
    ensures var once := HandleEffect(t, rows, skipDump, skipNormalized);
      var twice := HandleEffect(once.0, rows, skipDump, skipNormalized);
      var added := DumpsOf(ParseAll(rows), skipDump);
      Normal(twice.0) == Normal(once.0) && twice.1 == once.1 &&
      once.0.dump == t.dump + added && twice.0.dump == once.0.dump + added
  {
    var ps := ParseAll(rows);
    var once := Run(t, ps, skipDump, skipNormalized).0;
    RunCoversAll(t, ps, skipDump, skipNormalized);
    RunSettled(once, ps, skipDump, skipNormalized);
    RunDump(t, ps, skipDump, skipNormalized);
    RunDump(once, ps, skipDump, skipNormalized);
  }

  /** One more row: the loop continues from the tables the earlier rows left. */
  lemma RunSnoc(t: Tables, ps: seq<ParsedRow>, x: ParsedRow, skipDump: bool, skipNormalized: bool)
    ensures var prior := Run(t, ps, skipDump, skipNormalized);
      var step := RowStep(prior.0, x, skipDump, skipNormalized);
      Run(t, ps + [x], skipDump, skipNormalized) == (step.0, prior.1 + (if step.1 then 1 else 0))
  {
    var q := ps + [x];
    assert q[..|q| - 1] == ps && q[|q| - 1] == x;
  }

  /** A row that raises does not stop the loop: the rows after it are
      imported as if it had not been there, from the tables it left. */
  lemma {:induction false} RunSplit(t: Tables, a: seq<ParsedRow>, b: seq<ParsedRow>, skipDump: bool, skipNormalized: bool)
    ensures var first := Run(t, a, skipDump, skipNormalized);
      var second := Run(first.0, b, skipDump, skipNormalized);
      Run(t, a + b, skipDump, skipNormalized) == (second.0, first.1 + second.1)
    decreases |b|
  {
    if b == [] {
      assert a + b == a;
    } else {
      var init, last := b[..|b| - 1], b[|b| - 1];
      assert a + b == (a + init) + [last];
      assert b == init + [last];
      RunSplit(t, a, init, skipDump, skipNormalized);
      RunSnoc(t, a + init, last, skipDump, skipNormalized);
      RunSnoc(Run(t, a, skipDump, skipNormalized).0, init, last, skipDump, skipNormalized);
    }
  }
}
