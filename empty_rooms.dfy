/** The "available now" query (classrooms/utils/empty_rooms.py): the rooms
    whose grid entry at the current weekday and minute is free, each with the
    time until which it stays free, ordered by that time's text, latest
    first. The current date and time are parameters. */
module EmptyRooms {
  import opened Text
  import opened Wrappers
  import opened Models
  import opened Sorting
  import opened AvailabilityGrid

  /** The single element of the list returned out of hours. */
  const AllFreeMessage: string := "All rooms free! ..What are you doing here?"

  /** One result record. */
  datatype FreeRoom = FreeRoom(name: string, college: string, building: string, availableUntil: string)

  /** The returned list: the sentinel message, or the result records. */
  datatype Listing = Sentinel(message: string) | Rooms(rooms: seq<FreeRoom>)

  /** Saturday, Sunday, or outside 08:00 .. 19:59. */
  predicate OutOfHours(weekday: nat, hour: nat) {
    weekday > 4 || !(8 <= hour < 20)
  }

  /** Minutes since 08:00; not rounded down to the grid's 5-minute steps. */
  function CurrentBlock(hour: nat, minute: nat): (b: nat)
    requires 8 <= hour < 20 && minute < 60
    ensures b < 720 && b % 5 == minute % 5
  {
    (hour - 8) * 60 + minute
  }

  /** An entry the filtered `availabilities` query returns; an empty college
      or building list is no filter, as Python's truth test treats it. */
  predicate Candidate(a: Availability, weekday: nat, block: nat, college: string, buildings: seq<string>) {
    a.weekday == weekday && a.minuteBlock == block && a.isAvailable &&
    (college == "" || a.college == college) &&
    (buildings == [] || a.building in buildings)
  }

  /** The candidate entries, in table order. */
  function Candidates(grid: seq<Availability>, weekday: nat, block: nat, college: string, buildings: seq<string>)
    : (r: seq<Availability>)
    ensures forall a :: a in r <==> a in grid && Candidate(a, weekday, block, college, buildings)
    ensures (forall a :: a in grid ==> !Candidate(a, weekday, block, college, buildings)) ==> r == []
    decreases |grid|
  {
    if grid == [] then []
    else
      var init := grid[..|grid| - 1];
      var last := grid[|grid| - 1];
      assert grid == init + [last];
      Candidates(init, weekday, block, college, buildings) +
        (if Candidate(last, weekday, block, college, buildings) then [last] else [])
  }

  /** An entry saying `room` is taken on `weekday` after block `block`. */
  predicate Occupies(a: Availability, room: Room, weekday: nat, block: int) {
    a.room == room && a.weekday == weekday && a.minuteBlock > block && !a.isAvailable
  }

  /** The `next_occupied_subquery`: the smallest occupied block after
      `block`, if any. */
  function FirstOccupied(grid: seq<Availability>, room: Room, weekday: nat, block: int): (r: Option<nat>)
    ensures r.Some? ==> exists i :: 0 <= i < |grid| && Occupies(grid[i], room, weekday, block) &&
                                    grid[i].minuteBlock == r.value
    ensures forall i :: 0 <= i < |grid| && Occupies(grid[i], room, weekday, block) ==>
      r.Some? && r.value <= grid[i].minuteBlock
    decreases |grid|
  {
    if grid == [] then None
    else
      var rest := FirstOccupied(grid[1..], room, weekday, block);
      assert forall i :: 1 <= i < |grid| ==> grid[i] == grid[1..][i - 1];
      if !Occupies(grid[0], room, weekday, block) then rest
      else if rest.Some? && rest.value < grid[0].minuteBlock then rest
      else Some(grid[0].minuteBlock)
  }

  /** `Coalesce(Subquery(...), Value(959))`. */
  function NextOccupied(grid: seq<Availability>, room: Room, weekday: nat, block: int): nat {
    match FirstOccupied(grid, room, weekday, block)
    case Some(mb) => mb
    case None => 959
  }

  /** `f"{end_hour}:{end_min:02d}"` for block `n`: the hour unpadded. */
  function UntilText(n: nat): string {
    NatToString(8 + n / 60) + ":" + PadTwo(n % 60)
  }

  /** The record built for a candidate entry. */
  function Record(grid: seq<Availability>, a: Availability, weekday: nat, block: nat): FreeRoom {
    FreeRoom(a.room.name, a.college, a.building, UntilText(NextOccupied(grid, a.room, weekday, block)))
  }

  function Records(grid: seq<Availability>, cands: seq<Availability>, weekday: nat, block: nat)
    : (r: seq<FreeRoom>)
    ensures |r| == |cands|
  {
    seq(|cands|, k requires 0 <= k < |cands| => Record(grid, cands[k], weekday, block))
  }

  /** `sort(key=available_until, reverse=True)`: `a` goes ahead of `b` when
      its text is greater; equal texts keep their order. */
  predicate LaterUntil(a: FreeRoom, b: FreeRoom) {
    StrLt(b.availableUntil, a.availableUntil)
  }

  /** What `get_available_rooms` returns. */
  function AvailableRooms(grid: seq<Availability>, weekday: nat, hour: nat, minute: nat,
                          college: string, buildings: seq<string>): Listing
    requires hour < 24 && minute < 60
  {
    if OutOfHours(weekday, hour) then Sentinel(AllFreeMessage)
    else
      var block := CurrentBlock(hour, minute);
      Rooms(SortBy(Records(grid, Candidates(grid, weekday, block, college, buildings), weekday, block),
                   LaterUntil))
  }

  /** `get_available_rooms` at weekday `weekday` (0 = Monday), `hour`:`minute`. */
  method GetAvailableRooms(grid: seq<Availability>, weekday: nat, hour: nat, minute: nat,
                           college: string, buildings: seq<string>) returns (r: Listing)
    requires weekday < 7 && hour < 24 && minute < 60
    ensures r == AvailableRooms(grid, weekday, hour, minute, college, buildings)
  {
    if weekday > 4 || !(8 <= hour < 20) {
      return Sentinel(AllFreeMessage);
    }
    var block := CurrentBlock(hour, minute);
    var availabilities := Candidates(grid, weekday, block, college, buildings);
    var available: seq<FreeRoom> := [];
    for i := 0 to |availabilities|
      invariant available == Records(grid, availabilities[..i], weekday, block)
    {
      var avail := availabilities[i];
      var next := NextOccupied(grid, avail.room, weekday, block);
      RecordsSnoc(grid, availabilities, weekday, block, i);
      available := available + [FreeRoom(avail.room.name, avail.college, avail.building, UntilText(next))];
    }
    assert availabilities[..|availabilities|] == availabilities;
    r := Rooms(SortBy(available, LaterUntil));
  }

  lemma RecordsSnoc(grid: seq<Availability>, cands: seq<Availability>, weekday: nat, block: nat, i: nat)
    requires i < |cands|
    ensures Records(grid, cands[..i + 1], weekday, block)
         == Records(grid, cands[..i], weekday, block) + [Record(grid, cands[i], weekday, block)]
  {
  }

  // ------------------------------------------------------------ properties

  /** Out of hours the sentinel comes back whatever the grid holds, and only then. */
  lemma SentinelOutOfHours(grid: seq<Availability>, weekday: nat, hour: nat, minute: nat,
                           college: string, buildings: seq<string>)
    requires hour < 24 && minute < 60
    ensures AvailableRooms(grid, weekday, hour, minute, college, buildings).Sentinel? <==> OutOfHours(weekday, hour)
    ensures OutOfHours(weekday, hour) ==>
      AvailableRooms(grid, weekday, hour, minute, college, buildings) == Sentinel(AllFreeMessage)
  {
  }

  /** The next occupied block is the least occupied block after the current
      one, or 959 when the room stays free for the rest of the day. */
  lemma NextOccupiedLeast(grid: seq<Availability>, room: Room, weekday: nat, block: int)
    ensures var n := NextOccupied(grid, room, weekday, block);
      (forall i :: 0 <= i < |grid| && Occupies(grid[i], room, weekday, block) ==> n <= grid[i].minuteBlock) &&
      ((exists i :: 0 <= i < |grid| && Occupies(grid[i], room, weekday, block)) ==>
        exists i :: 0 <= i < |grid| && Occupies(grid[i], room, weekday, block) && grid[i].minuteBlock == n) &&
      ((forall i :: 0 <= i < |grid| ==> !Occupies(grid[i], room, weekday, block)) ==> n == 959)
  {
  }

  /** The default 959 renders as "23:59". */
  lemma UntilDefault()
    ensures UntilText(959) == "23:59"
  {
    assert NatToString(23) == "23" by {
      assert NatToString(2) == "2";
    }
    assert PadTwo(59) == "59" by {
      assert NatToString(5) == "5";
    }
  }

  /** Descending order by text is a strict weak order. */
  lemma LaterUntilOrder()
    ensures StrictWeakOrder(LaterUntil)
  {
    forall a, b | LaterUntil(a, b) ensures !LaterUntil(b, a) {
      if LaterUntil(b, a) {
        StrLtTransitive(b.availableUntil, a.availableUntil, b.availableUntil);
        StrLtIrreflexive(b.availableUntil);
      }
    }
    forall a, b, c | LaterUntil(a, c) ensures LaterUntil(a, b) || LaterUntil(b, c) {
      StrLtTotal(a.availableUntil, b.availableUntil);
      if StrLt(a.availableUntil, b.availableUntil) {
        StrLtTransitive(c.availableUntil, a.availableUntil, b.availableUntil);
      }
    }
  }

  /** In hours the result holds one record per candidate entry, ordered
      non-increasingly by `available_until` text, records with equal text in
      table order. */
  lemma AvailableRoomsOrdered(grid: seq<Availability>, weekday: nat, hour: nat, minute: nat,
                              college: string, buildings: seq<string>, y: FreeRoom)
    requires hour < 24 && minute < 60 && !OutOfHours(weekday, hour)
    ensures var r := AvailableRooms(grid, weekday, hour, minute, college, buildings);
      var block := CurrentBlock(hour, minute);
      var recs := Records(grid, Candidates(grid, weekday, block, college, buildings), weekday, block);
      r.Rooms? && Sorted(r.rooms, LaterUntil) && multiset(r.rooms) == multiset(recs) &&
      TiedWith(r.rooms, y, LaterUntil) == TiedWith(recs, y, LaterUntil)
  {
    LaterUntilOrder();
    var block := CurrentBlock(hour, minute);
    var recs := Records(grid, Candidates(grid, weekday, block, college, buildings), weekday, block);
    SortBySorted(recs, LaterUntil);
    SortByStable(recs, y, LaterUntil);
  }

  lemma UntilNineAndTen()
    ensures UntilText(60) == "9:00" && UntilText(120) == "10:00"
    ensures StrLt("10:00", "9:00")
  {
    assert NatToString(9) == "9";
    assert NatToString(10) == "10" by {
      assert NatToString(1) == "1";
    }
    assert PadTwo(0) == "00" by {
      assert NatToString(0) == "0";
    }
  }

  /** Text order is not time order: a room free until 9:00 is listed ahead
      of one free until 10:00. */
  lemma NineBeforeTen(a: FreeRoom, b: FreeRoom)
    requires a.availableUntil == UntilText(120) && b.availableUntil == UntilText(60)
    ensures SortBy([a, b], LaterUntil) == [b, a]
  {
    UntilNineAndTen();
    assert [a, b][1..] == [b];
    assert SortBy([b], LaterUntil) == [b];
  }

  /** On the rebuilt grid, a minute that is not a multiple of 5 finds no
      entry, so the result is an empty list. */
  lemma UnroundedMinuteFindsNothing(rooms: seq<Room>, schedules: seq<Schedule>, weekday: nat, hour: nat,
                                    minute: nat, college: string, buildings: seq<string>)
    requires minute < 60 && !OutOfHours(weekday, hour) && minute % 5 != 0
    ensures AvailableRooms(Grid(rooms, schedules), weekday, hour, minute, college, buildings) == Rooms([])
  {
    var g := Grid(rooms, schedules);
    var block := CurrentBlock(hour, minute);
    GridEntries(rooms, schedules);
    forall a | a in g ensures !Candidate(a, weekday, block, college, buildings) {
      var room, wd: nat, mb: nat :| room in rooms && wd < 5 && mb < 720 && mb % 5 == 0 &&
        a == Cell(room, schedules, wd, mb);
    }
  }

  /** On the rebuilt grid at a 5-minute step, with no filter, every room of
      the catalogue that no class occupies now is listed. */
  lemma FreeRoomListed(rooms: seq<Room>, schedules: seq<Schedule>, weekday: nat, hour: nat, minute: nat,
                       room: Room)
    requires minute < 60 && !OutOfHours(weekday, hour) && minute % 5 == 0
    requires room in rooms
    requires !InSession(schedules, room, WeekdayCodes[weekday], hour * 60 + minute)
    ensures exists fr :: (fr in AvailableRooms(Grid(rooms, schedules), weekday, hour, minute, "", []).rooms &&
      fr.name == room.name && fr.college == room.college && fr.building == room.building)
  {
    var g := Grid(rooms, schedules);
    var block := CurrentBlock(hour, minute);
    GridEntries(rooms, schedules);
    var a := Cell(room, schedules, weekday, block);
    assert a in g;
    var c := Candidates(g, weekday, block, "", []);
    assert a in c;
    var k :| 0 <= k < |c| && c[k] == a;
    var recs := Records(g, c, weekday, block);
    assert recs[k] in multiset(recs);
    AvailableRoomsOrdered(g, weekday, hour, minute, "", [], recs[k]);
    assert recs[k] in multiset(AvailableRooms(g, weekday, hour, minute, "", []).rooms);
  }

  /** Conversely, every listed record is a room of the catalogue that no
      class occupies now. */
  lemma ListedRoomFree(rooms: seq<Room>, schedules: seq<Schedule>, weekday: nat, hour: nat, minute: nat,
                       college: string, buildings: seq<string>, fr: FreeRoom)
    requires minute < 60 && !OutOfHours(weekday, hour)
    requires fr in AvailableRooms(Grid(rooms, schedules), weekday, hour, minute, college, buildings).rooms
    ensures exists room :: (room in rooms && fr.name == room.name && fr.college == room.college &&
      fr.building == room.building && !InSession(schedules, room, WeekdayCodes[weekday], hour * 60 + minute))
  {
    var block := CurrentBlock(hour, minute);
    ListedFromCandidate(Grid(rooms, schedules), weekday, hour, minute, college, buildings, fr);
    var a :| a in Grid(rooms, schedules) && Candidate(a, weekday, block, college, buildings) &&
      fr.name == a.room.name && fr.college == a.college && fr.building == a.building;
    FreeEntryFree(rooms, schedules, a);
  }

  /** Every listed record describes a candidate entry of the grid. */
  lemma ListedFromCandidate(grid: seq<Availability>, weekday: nat, hour: nat, minute: nat,
                            college: string, buildings: seq<string>, fr: FreeRoom)
    requires hour < 24 && minute < 60 && !OutOfHours(weekday, hour)
    requires fr in AvailableRooms(grid, weekday, hour, minute, college, buildings).rooms
    ensures exists a :: (a in grid && Candidate(a, weekday, CurrentBlock(hour, minute), college, buildings) &&
      fr.name == a.room.name && fr.college == a.college && fr.building == a.building)
  {
    var block := CurrentBlock(hour, minute);
    var c := Candidates(grid, weekday, block, college, buildings);
    var recs := Records(grid, c, weekday, block);
    AvailableRoomsOrdered(grid, weekday, hour, minute, college, buildings, fr);
    assert fr in multiset(recs);
    var k :| 0 <= k < |recs| && recs[k] == fr;
    assert c[k] in c;
  }
}
