/** The weekly availability grid (classrooms/management/commands/populate_availabilities.py):
    for each school day Monday .. Friday and each 5-minute offset from 08:00
    to 19:55, one entry per room saying whether no class of that room is in
    session at that moment. */
module AvailabilityGrid {
  import opened Models

  /** Offsets per day: 0, 5, .., 715 minutes after 08:00. */
  const BlocksPerDay: nat := 144

  /** All blocks of the week, Monday 08:00 .. Friday 19:55. */
  const WeekBlocks: nat := 720

  /** The rooms the `Schedule.objects.filter(day=..., start_time__lte=t,
      end_time__gte=t).values_list('room_id')` query returns. */
  function ScheduledRooms(schedules: seq<Schedule>, day: string, t: int): set<Room> {
    set s | s in schedules && s.day == day && s.startTime <= t && s.endTime >= t :: s.room
  }

  /** A class of `room` meets on `day` over the closed interval that holds `t`. */
  predicate InSession(schedules: seq<Schedule>, room: Room, day: string, t: int) {
    exists s :: s in schedules && s.room == room && s.day == day && s.startTime <= t <= s.endTime
  }

  /** The entry written for `room` on weekday `wd` at offset `mb`. */
  function Cell(room: Room, schedules: seq<Schedule>, wd: nat, mb: nat): (a: Availability)
    requires wd < 5
    ensures a.room == room && a.building == room.building && a.college == room.college
    ensures a.weekday == wd && a.minuteBlock == mb
    ensures a.isAvailable <==> !InSession(schedules, room, WeekdayCodes[wd], 480 + mb)
  {
    var available := room !in ScheduledRooms(schedules, WeekdayCodes[wd], 480 + mb);
    assert !available ==> InSession(schedules, room, WeekdayCodes[wd], 480 + mb);
    Availability(room, room.building, room.college, wd, mb, available)
  }

  /** The weekday and offset of the `b`-th block of the week. */
  function BlockWeekday(b: nat): nat { b / BlocksPerDay }
  function BlockOffset(b: nat): nat { (b % BlocksPerDay) * 5 }

  /** One `bulk_create` batch: the entries of every room at one block. */
  function BlockCells(rooms: seq<Room>, schedules: seq<Schedule>, wd: nat, mb: nat): (r: seq<Availability>)
    requires wd < 5
    ensures |r| == |rooms|
  {
    seq(|rooms|, k requires 0 <= k < |rooms| => Cell(rooms[k], schedules, wd, mb))
  }

  /** The entries of the first `b` blocks, each block room by room. */
  function GridUpTo(rooms: seq<Room>, schedules: seq<Schedule>, b: nat): (g: seq<Availability>)
    requires b <= WeekBlocks
    ensures |g| == b * |rooms|
  {
    if b == 0 then []
    else GridUpTo(rooms, schedules, b - 1) +
         BlockCells(rooms, schedules, BlockWeekday(b - 1), BlockOffset(b - 1))
  }

  /** The table after `populate_availabilities`. */
  function Grid(rooms: seq<Room>, schedules: seq<Schedule>): seq<Availability> {
    GridUpTo(rooms, schedules, WeekBlocks)
  }

  /** The table `RoomAvailability`. */
  class AvailabilityTable {
    var entries: seq<Availability>

    constructor()
      ensures entries == []
    {
      entries := [];
    }

    /** `populate_availabilities`: delete every entry, then write the grid of
        `rooms` against `schedules`; returns the number of entries. */
    method Rebuild(rooms: seq<Room>, schedules: seq<Schedule>) returns (count: nat)
      modifies this
      ensures entries == Grid(rooms, schedules)
      ensures count == |rooms| * 5 * 144
    {
      entries := [];
      for weekday := 0 to 5
        invariant entries == GridUpTo(rooms, schedules, weekday * 144)
      {
        WriteDay(rooms, schedules, weekday);
      }
      count := |entries|;
    }

    /** One pass of the weekday loop: for each offset 0, 5, .., 715 the
        rooms scheduled then are queried and a `bulk_create` batch of every
        room's entry appended. */
    method WriteDay(rooms: seq<Room>, schedules: seq<Schedule>, weekday: nat)
      requires weekday < 5 && entries == GridUpTo(rooms, schedules, weekday * 144)
      modifies this
      ensures entries == GridUpTo(rooms, schedules, weekday * 144 + 144)
    {
      var dayCode := WeekdayCodes[weekday];
      var minute := 0;
      while minute < 720
        invariant minute % 5 == 0 && minute <= 720
        invariant entries == GridUpTo(rooms, schedules, weekday * 144 + minute / 5)
      {
        var scheduled := ScheduledRooms(schedules, dayCode, 480 + minute);
        var batch := seq(|rooms|, k requires 0 <= k < |rooms| =>
          Availability(rooms[k], rooms[k].building, rooms[k].college, weekday, minute,
                       rooms[k] !in scheduled));
        BatchIsBlock(rooms, schedules, weekday, minute, batch);
        GridStep(rooms, schedules, weekday, minute);
        assert weekday * 144 + (minute + 5) / 5 == weekday * BlocksPerDay + minute / 5 + 1;
        entries := entries + batch;
        minute := minute + 5;
      }
    }
  }

  /** The `bulk_create` list is the block's cells. */
  lemma BatchIsBlock(rooms: seq<Room>, schedules: seq<Schedule>, wd: nat, mb: nat, batch: seq<Availability>)
    requires wd < 5
    requires batch == seq(|rooms|, k requires 0 <= k < |rooms| =>
      Availability(rooms[k], rooms[k].building, rooms[k].college, wd, mb,
                   rooms[k] !in ScheduledRooms(schedules, WeekdayCodes[wd], 480 + mb)))
    ensures batch == BlockCells(rooms, schedules, wd, mb)
  {
  }

  /** Block `wd * 144 + mb / 5` appends the batch of weekday `wd`, offset `mb`. */
  lemma GridStep(rooms: seq<Room>, schedules: seq<Schedule>, wd: nat, mb: nat)
    requires wd < 5 && mb < 720 && mb % 5 == 0
    ensures GridUpTo(rooms, schedules, wd * BlocksPerDay + mb / 5 + 1)
         == GridUpTo(rooms, schedules, wd * BlocksPerDay + mb / 5) + BlockCells(rooms, schedules, wd, mb)
  {
    BlockOfOffset(wd, mb);
  }

  lemma BlockOfOffset(wd: nat, mb: nat)
    requires wd < 5 && mb < 720 && mb % 5 == 0
    ensures BlockWeekday(wd * BlocksPerDay + mb / 5) == wd
    ensures BlockOffset(wd * BlocksPerDay + mb / 5) == mb
  {
  }

  lemma MulBound(c: nat, b: nat, n: nat, k: nat)
    requires c < b && k < n
    ensures c * n + k < b * n
  {
    assert c * n + n == (c + 1) * n;
    assert (c + 1) * n <= b * n;
  }

  /** The entry of block `c` for room index `k` sits at `c * |rooms| + k`. */
  lemma {:induction false} GridUpToAt(rooms: seq<Room>, schedules: seq<Schedule>, b: nat, c: nat, k: nat)
    requires c < b <= WeekBlocks && k < |rooms|
    ensures c * |rooms| + k < |GridUpTo(rooms, schedules, b)|
    ensures GridUpTo(rooms, schedules, b)[c * |rooms| + k]
         == Cell(rooms[k], schedules, BlockWeekday(c), BlockOffset(c))
    decreases b
  {
    var n := |rooms|;
    var g := GridUpTo(rooms, schedules, b - 1);
    var i := c * n + k;
    MulBound(c, b, n, k);
    if c < b - 1 {
      GridUpToAt(rooms, schedules, b - 1, c, k);
      assert i < |g|;
    } else {
      assert i == |g| + k;
    }
  }

  /** The entry of room index `k` at weekday `wd` and offset `mb`. */
  lemma GridAt(rooms: seq<Room>, schedules: seq<Schedule>, wd: nat, mb: nat, k: nat)
    requires wd < 5 && mb < 720 && mb % 5 == 0 && k < |rooms|
    ensures (wd * BlocksPerDay + mb / 5) * |rooms| + k < |Grid(rooms, schedules)|
    ensures Grid(rooms, schedules)[(wd * BlocksPerDay + mb / 5) * |rooms| + k]
         == Cell(rooms[k], schedules, wd, mb)
  {
    BlockOfOffset(wd, mb);
    GridUpToAt(rooms, schedules, WeekBlocks, wd * BlocksPerDay + mb / 5, k);
  }

  /** The position of entry `i`: block `i / |rooms|`, room `i % |rooms|`. */
  lemma GridIndex(rooms: seq<Room>, schedules: seq<Schedule>, i: nat)
    requires i < |Grid(rooms, schedules)|
    ensures i / |rooms| < WeekBlocks && i % |rooms| < |rooms|
    ensures Grid(rooms, schedules)[i]
         == Cell(rooms[i % |rooms|], schedules, BlockWeekday(i / |rooms|), BlockOffset(i / |rooms|))
  {
    var n := |rooms|;
    var c, k := i / n, i % n;
    DivBelow(i, n, WeekBlocks);
    GridUpToAt(rooms, schedules, WeekBlocks, c, k);
  }

  /** The grid holds exactly the entries of every room at every weekday
      0 .. 4 and every offset 0, 5, .., 715, |rooms| * 5 * 144 in all. */
  lemma GridEntries(rooms: seq<Room>, schedules: seq<Schedule>)
    ensures |Grid(rooms, schedules)| == |rooms| * 5 * 144
    ensures forall a :: a in Grid(rooms, schedules) <==>
      exists room, wd: nat, mb: nat :: room in rooms && wd < 5 && mb < 720 && mb % 5 == 0 &&
        a == Cell(room, schedules, wd, mb)
  {
    forall a | a in Grid(rooms, schedules)
      ensures exists room, wd: nat, mb: nat ::
        (room in rooms && wd < 5 && mb < 720 && mb % 5 == 0 && a == Cell(room, schedules, wd, mb))
    {
      GridEntryIsCell(rooms, schedules, a);
    }
    forall room, wd: nat, mb: nat | room in rooms && wd < 5 && mb < 720 && mb % 5 == 0
      ensures Cell(room, schedules, wd, mb) in Grid(rooms, schedules)
    {
      CellInGrid(rooms, schedules, room, wd, mb);
    }
  }

  lemma GridEntryIsCell(rooms: seq<Room>, schedules: seq<Schedule>, a: Availability)
    requires a in Grid(rooms, schedules)
    ensures exists room, wd: nat, mb: nat ::
      room in rooms && wd < 5 && mb < 720 && mb % 5 == 0 && a == Cell(room, schedules, wd, mb)
  {
    var g := Grid(rooms, schedules);
    var i :| 0 <= i < |g| && g[i] == a;
    GridIndex(rooms, schedules, i);
    var c := i / |rooms|;
    assert a == Cell(rooms[i % |rooms|], schedules, BlockWeekday(c), BlockOffset(c));
  }

  lemma CellInGrid(rooms: seq<Room>, schedules: seq<Schedule>, room: Room, wd: nat, mb: nat)
    requires room in rooms && wd < 5 && mb < 720 && mb % 5 == 0
    ensures Cell(room, schedules, wd, mb) in Grid(rooms, schedules)
  {
    var k :| 0 <= k < |rooms| && rooms[k] == room;
    GridAt(rooms, schedules, wd, mb, k);
  }

  /** A free entry of the rebuilt grid is a room of the catalogue with no
      class in session at that weekday and offset. */
  lemma FreeEntryFree(rooms: seq<Room>, schedules: seq<Schedule>, a: Availability)
    requires a in Grid(rooms, schedules) && a.isAvailable
    ensures a.room in rooms && a.college == a.room.college && a.building == a.room.building
    ensures a.weekday < 5 && !InSession(schedules, a.room, WeekdayCodes[a.weekday], 480 + a.minuteBlock)
  {
    GridEntryIsCell(rooms, schedules, a);
  }

  /** A taken entry of the rebuilt grid lies in 08:00 .. 19:55 of a school
      day on which a class of its room is in session. */
  lemma OccupiedEntryInSession(rooms: seq<Room>, schedules: seq<Schedule>, a: Availability)
    requires a in Grid(rooms, schedules) && !a.isAvailable
    ensures a.weekday < 5 && a.minuteBlock < 720
    ensures InSession(schedules, a.room, WeekdayCodes[a.weekday], 480 + a.minuteBlock)
  {
    GridEntryIsCell(rooms, schedules, a);
  }

  /** With distinct rooms, no two entries share (room, weekday, minute_block). */
  lemma GridUnique(rooms: seq<Room>, schedules: seq<Schedule>)
    requires NoDuplicates(rooms)
    ensures UniqueGridKeys(Grid(rooms, schedules))
  {
    var g := Grid(rooms, schedules);
    var n := |rooms|;
    forall i, j | 0 <= i < j < |g|
      ensures (g[i].room, g[i].weekday, g[i].minuteBlock) != (g[j].room, g[j].weekday, g[j].minuteBlock)
    {
      GridIndex(rooms, schedules, i);
      GridIndex(rooms, schedules, j);
      if g[i].room == g[j].room && g[i].weekday == g[j].weekday && g[i].minuteBlock == g[j].minuteBlock {
        assert false;
      }
    }
  }

  lemma DivBelow(i: nat, n: nat, bound: nat)
    requires i < bound * n
    ensures n > 0 && i / n < bound
  {
    if i / n >= bound {
      MulLe(bound, i / n, n);
    }
  }

  lemma MulLe(a: nat, b: nat, n: nat)
    requires a <= b
    ensures a * n <= b * n
  {
  }

  /** Offset `mb` is the clock time `8 + mb // 60 : mb % 60`, between 08:00
      and 19:55. */
  lemma OffsetClock(mb: nat)
    requires mb < 720 && mb % 5 == 0
    ensures ClockTime(8 + mb / 60, mb % 60) == 480 + mb
    ensures ClockTime(8, 0) <= 480 + mb <= ClockTime(19, 55)
  {
  }

  /** The grid depends on the schedules only through which rooms are in
      session on the weekdays Mo .. Fr. */
  lemma {:induction false} GridSameSessions(rooms: seq<Room>, s1: seq<Schedule>, s2: seq<Schedule>, b: nat)
    requires b <= WeekBlocks
    requires forall r, wd: nat, t :: wd < 5 ==>
      (InSession(s1, r, WeekdayCodes[wd], t) <==> InSession(s2, r, WeekdayCodes[wd], t))
    ensures GridUpTo(rooms, s1, b) == GridUpTo(rooms, s2, b)
    decreases b
  {
    if b > 0 {
      GridSameSessions(rooms, s1, s2, b - 1);
      var wd, mb := BlockWeekday(b - 1), BlockOffset(b - 1);
      assert BlockCells(rooms, s1, wd, mb) == BlockCells(rooms, s2, wd, mb) by {
        forall k | 0 <= k < |rooms|
          ensures Cell(rooms[k], s1, wd, mb) == Cell(rooms[k], s2, wd, mb)
        {
          assert InSession(s1, rooms[k], WeekdayCodes[wd], 480 + mb)
             <==> InSession(s2, rooms[k], WeekdayCodes[wd], 480 + mb);
        }
      }
    }
  }

  /** Schedules on Sa or Su never change the grid. */
  lemma GridIgnoresWeekends(rooms: seq<Room>, schedules: seq<Schedule>, extra: seq<Schedule>)
    requires forall s :: s in extra ==> s.day !in WeekdayCodes
    ensures Grid(rooms, schedules + extra) == Grid(rooms, schedules)
  {
    forall r, wd: nat, t | wd < 5
      ensures InSession(schedules + extra, r, WeekdayCodes[wd], t) <==> InSession(schedules, r, WeekdayCodes[wd], t)
    {
      if InSession(schedules + extra, r, WeekdayCodes[wd], t) {
        var s :| s in schedules + extra && s.room == r && s.day == WeekdayCodes[wd] && s.startTime <= t <= s.endTime;
        assert s !in extra;
      }
    }
    GridSameSessions(rooms, schedules + extra, schedules, WeekBlocks);
  }

  /** A schedule's start and end dates never change the grid. */
  lemma GridIgnoresDates(rooms: seq<Room>, s1: seq<Schedule>, s2: seq<Schedule>)
    requires |s1| == |s2|
    requires forall i :: 0 <= i < |s1| ==>
      s2[i] == s1[i].(startDate := s2[i].startDate, endDate := s2[i].endDate)
    ensures Grid(rooms, s1) == Grid(rooms, s2)
  {
    forall r, wd: nat, t | wd < 5
      ensures InSession(s1, r, WeekdayCodes[wd], t) <==> InSession(s2, r, WeekdayCodes[wd], t)
    {
      if InSession(s1, r, WeekdayCodes[wd], t) {
        var s :| s in s1 && s.room == r && s.day == WeekdayCodes[wd] && s.startTime <= t <= s.endTime;
        var i :| 0 <= i < |s1| && s1[i] == s;
        assert s2[i] in s2;
      }
      if InSession(s2, r, WeekdayCodes[wd], t) {
        var s :| s in s2 && s.room == r && s.day == WeekdayCodes[wd] && s.startTime <= t <= s.endTime;
        var i :| 0 <= i < |s2| && s2[i] == s;
        assert s1[i] in s1;
      }
    }
    GridSameSessions(rooms, s1, s2, WeekBlocks);
  }
}
