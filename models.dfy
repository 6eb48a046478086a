/** The relational records of the classroom engine (classrooms/models.py):
    colleges, buildings, rooms, recurring class schedules, the precomputed
    weekly availability grid and ad hoc room bookings, with the uniqueness
    keys the tables declare and the `time_display` rendering of a grid block. */
module Models {
  import opened Text

  /** A wall-clock time of day, in minutes since midnight (seconds dropped). */
  type Time = t: int | 0 <= t < 1440

  /** A calendar date encoded as yyyymmdd, so that `<` is chronological order. */
  type Date = int

  function DateOf(year: nat, month: nat, day: nat): Date
    requires 1 <= month <= 12 && 1 <= day <= 31
  {
    year * 10000 + month * 100 + day
  }

  /** The encoding orders dates chronologically (year, then month, then day). */
  lemma DateOfOrder(y1: nat, m1: nat, d1: nat, y2: nat, m2: nat, d2: nat)
    requires 1 <= m1 <= 12 && 1 <= d1 <= 31 && 1 <= m2 <= 12 && 1 <= d2 <= 31
    ensures DateOf(y1, m1, d1) < DateOf(y2, m2, d2) <==>
      y1 < y2 || (y1 == y2 && (m1 < m2 || (m1 == m2 && d1 < d2)))
  {
    if y1 < y2 {
      FrontDominates(y1, y2, 10000, m1 * 100 + d1, m2 * 100 + d2);
    } else if y2 < y1 {
      FrontDominates(y2, y1, 10000, m2 * 100 + d2, m1 * 100 + d1);
    } else if m1 < m2 {
      FrontDominates(m1, m2, 100, d1, d2);
    } else if m2 < m1 {
      FrontDominates(m2, m1, 100, d2, d1);
    }
  }

  /** Minutes since midnight of a clock reading `hour:minute`. */
  function ClockTime(hour: nat, minute: nat): (t: Time)
    requires hour < 24 && minute < 60
    ensures t / 60 == hour && t % 60 == minute
  {
    hour * 60 + minute
  }

  /** The canonical two-letter weekday codes, in calendar order. */
  const DayCodes: seq<string> := ["Mo", "Tu", "We", "Th", "Fr", "Sa", "Su"]

  /** The school-day codes indexed by weekday number 0 (Monday) .. 4 (Friday). */
  const WeekdayCodes: seq<string> := ["Mo", "Tu", "We", "Th", "Fr"]

  /** Building key: (name, college). */
  datatype Building = Building(name: string, college: string)

  /** Room key: (name, college, building); `building` is the building's name. */
  datatype Room = Room(name: string, college: string, building: string)

  /** A recurring weekly class meeting; every field is part of the natural key. */
  datatype Schedule = Schedule(room: Room, day: string, startTime: Time, endTime: Time,
                               startDate: Date, endDate: Date)

  /** One cell of the weekly grid; `building` and `college` are copies of the room's. */
  datatype Availability = Availability(room: Room, building: string, college: string,
                                       weekday: nat, minuteBlock: nat, isAvailable: bool)

  /** An ad hoc reservation; `id` is the table's auto-increment key. */
  datatype Booking = Booking(id: nat, user: string, room: Room, college: string, building: string,
                             date: Date, startTime: Time, endTime: Time, active: bool)

  /** A raw imported row, stripped and parsed. */
  datatype DumpRow = DumpRow(collegeName: string, term: string, subject: string,
                             courseCode: string, courseName: string, building: string,
                             room: string, startDate: Date, endDate: Date, days: string,
                             startTime: Time, endTime: Time)

  /** Whole-record uniqueness: College.name, Building (name, college), Room
      (name, college, building) and Schedule's six-field key are all of their
      records' fields. */
  predicate NoDuplicates<T(==)>(s: seq<T>) {
    forall i, j :: 0 <= i < j < |s| ==> s[i] != s[j]
  }

  /** RoomAvailability: at most one row per (room, weekday, minute_block). */
  predicate UniqueGridKeys(g: seq<Availability>) {
    forall i, j :: 0 <= i < j < |g| ==>
      (g[i].room, g[i].weekday, g[i].minuteBlock) != (g[j].room, g[j].weekday, g[j].minuteBlock)
  }

  /** RoomBooking: at most one row per (room, booking_date, start_time), and distinct ids. */
  predicate UniqueBookingKeys(b: seq<Booking>) {
    forall i, j :: 0 <= i < j < |b| ==>
      (b[i].room, b[i].date, b[i].startTime) != (b[j].room, b[j].date, b[j].startTime)
      && b[i].id != b[j].id
  }

  /** Python's `f"{n:02d}"`: at least two digits, zero-padded. */
  function PadTwo(n: nat): (s: string)
    ensures |s| >= 2 && forall k :: 0 <= k < |s| ==> IsDigit(s[k])
    ensures DecimalValue(s) == n
    ensures n < 100 ==> |s| == 2
  {
    NatToStringValue(n);
    if n < 10 then
      var s := "0" + NatToString(n);
      assert s[..1] == "0";
      s
    else NatToString(n)
  }

  /** `RoomAvailability.time_display`: the block rendered as "HH:MM". */
  function TimeDisplay(minuteBlock: nat): (s: string)
    ensures minuteBlock < 960 ==> |s| == 5 && s[2] == ':'
    ensures minuteBlock < 960 ==> forall k :: 0 <= k < 5 && k != 2 ==> IsDigit(s[k])
  {
    PadTwo(8 + minuteBlock / 60) + ":" + PadTwo(minuteBlock % 60)
  }

  /** A grid block read back from its display gives the clock time that
      classrooms/views.py derives from the same block (8 + mb // 60 : mb % 60),
      and for the grid's 0..719 blocks the hour is 08..19. */
  lemma TimeDisplayAgrees(minuteBlock: nat)
    requires minuteBlock < 720
    ensures var s := TimeDisplay(minuteBlock);
      8 <= DecimalValue(s[..2]) <= 19 &&
      DecimalValue(s[..2]) * 60 + DecimalValue(s[3..]) ==
        ClockTime(8 + minuteBlock / 60, minuteBlock % 60) &&
      ClockTime(8 + minuteBlock / 60, minuteBlock % 60) == 480 + minuteBlock
  {
    var h, m := PadTwo(8 + minuteBlock / 60), PadTwo(minuteBlock % 60);
    var s := TimeDisplay(minuteBlock);
    assert s[..2] == h;
    assert s[3..] == m;
  }

  // ------------------------------------------------------------- the tables

  /** `get_or_create` on a table whose natural key is the whole record:
      the record is appended unless an equal one is already stored. */
  function Upsert<T(==,!new)>(s: seq<T>, x: T): (r: seq<T>)
    ensures x in r
    ensures forall y :: y in r <==> y in s || y == x
    ensures |s| <= |r| <= |s| + 1 && r[..|s|] == s
    ensures x in s ==> r == s
    ensures NoDuplicates(s) ==> NoDuplicates(r)
  {
    if x in s then s else s + [x]
  }

  /** `get_or_create` of each of `xs`, in order. */
  function UpsertAll<T(==,!new)>(s: seq<T>, xs: seq<T>): (r: seq<T>)
    ensures forall y :: y in r <==> y in s || y in xs
    ensures |s| <= |r| <= |s| + |xs| && r[..|s|] == s
    ensures NoDuplicates(s) ==> NoDuplicates(r)
    decreases |xs|
  {
    if xs == [] then s
    else Upsert(UpsertAll(s, xs[..|xs| - 1]), xs[|xs| - 1])
  }

  /** Upserting records that are all stored already changes nothing. */
  lemma {:induction false} UpsertAllPresent<T(!new)>(s: seq<T>, xs: seq<T>)
    requires forall x :: x in xs ==> x in s
    ensures UpsertAll(s, xs) == s
    decreases |xs|
  {
    if xs != [] {
      assert xs[|xs| - 1] in xs;
      forall x | x in xs[..|xs| - 1] ensures x in s {
        var k :| 0 <= k < |xs| - 1 && xs[..|xs| - 1][k] == x;
        assert xs[k] == x;
      }
      UpsertAllPresent(s, xs[..|xs| - 1]);
    }
  }

  /** Repeating the same upserts leaves the table unchanged. */
  lemma UpsertAllIdempotent<T(!new)>(s: seq<T>, xs: seq<T>)
    ensures UpsertAll(UpsertAll(s, xs), xs) == UpsertAll(s, xs)
  {
    UpsertAllPresent(UpsertAll(s, xs), xs);
  }

  /** A snapshot of the normalized tables and the raw ScheduleDump table. */
  datatype Tables = Tables(colleges: seq<string>, buildings: seq<Building>, rooms: seq<Room>,
                           schedules: seq<Schedule>, dump: seq<DumpRow>)

  /** The unique keys of College, Building, Room and Schedule, and the foreign
      keys: a building's college, a room's building (of the room's college)
      and a schedule's room exist. */
  predicate Consistent(t: Tables) {
    NoDuplicates(t.colleges) && NoDuplicates(t.buildings) && NoDuplicates(t.rooms) &&
    NoDuplicates(t.schedules) &&
    (forall b :: b in t.buildings ==> b.college in t.colleges) &&
    (forall r :: r in t.rooms ==> Building(r.building, r.college) in t.buildings) &&
    (forall s :: s in t.schedules ==> s.room in t.rooms)
  }

  /** The database tables the import writes. */
  class Catalog {
    var colleges: seq<string>
    var buildings: seq<Building>
    var rooms: seq<Room>
    var schedules: seq<Schedule>
    var dump: seq<DumpRow>

    function State(): Tables
      reads this
    {
      Tables(colleges, buildings, rooms, schedules, dump)
    }

    constructor()
      ensures State() == Tables([], [], [], [], [])
    {
      colleges, buildings, rooms, schedules, dump := [], [], [], [], [];
    }

    /** `College.objects.get_or_create(name=name)`. */
    method GetOrCreateCollege(name: string)
      modifies this
      ensures State() == old(State()).(colleges := Upsert(old(colleges), name))
    {
      if name !in colleges {
        colleges := colleges + [name];
      }
    }

    /** `Building.objects.get_or_create(name=..., college=...)`. */
    method GetOrCreateBuilding(b: Building)
      modifies this
      ensures State() == old(State()).(buildings := Upsert(old(buildings), b))
    {
      if b !in buildings {
        buildings := buildings + [b];
      }
    }

    /** `Room.objects.get_or_create(name=..., college=..., building=...)`. */
    method GetOrCreateRoom(r: Room)
      modifies this
      ensures State() == old(State()).(rooms := Upsert(old(rooms), r))
    {
      if r !in rooms {
        rooms := rooms + [r];
      }
    }

    /** `Schedule.objects.get_or_create(...)` on the six-field natural key. */
    method GetOrCreateSchedule(s: Schedule)
      modifies this
      ensures State() == old(State()).(schedules := Upsert(old(schedules), s))
    {
      if s !in schedules {
        schedules := schedules + [s];
      }
    }

    /** `ScheduleDump.objects.create(...)`: the dump has no unique key. */
    method CreateDump(row: DumpRow)
      modifies this
      ensures State() == old(State()).(dump := old(dump) + [row])
    {
      dump := dump + [row];
    }
  }
}
