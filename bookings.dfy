/** Ad hoc room bookings (classrooms/views.py): the conflict check and save
    of `room_details`, the "occupied now" and "next available" scan of
    today's bookings, the next class start and the pre-filled end time, the
    `cancel_booking` transition and the active / future / historical
    classification of the `bookings` page. The current date and time are
    parameters. */
module Bookings {
  import opened Wrappers
  import opened Models
  import opened Sorting
  import opened AvailabilityGrid
  import opened EmptyRooms

  // ------------------------------------------------------------ conflicts

  /** The three `Q` clauses of the conflict query for a new booking
      `start` .. `end`. */
  predicate ConflictClauses(b: Booking, start: Time, end: Time) {
    (b.startTime <= start && b.endTime >= start) ||
    (b.startTime <= end && b.endTime >= end) ||
    (b.startTime >= start && b.endTime <= end)
  }

  /** A stored booking the conflict query returns: same room and date, any
      `active` value. */
  predicate Conflicts(b: Booking, room: Room, date: Date, start: Time, end: Time) {
    b.room == room && b.date == date && ConflictClauses(b, start, end)
  }

  predicate HasConflict(bs: seq<Booking>, room: Room, date: Date, start: Time, end: Time) {
    exists i :: 0 <= i < |bs| && Conflicts(bs[i], room, date, start, end)
  }

  /** The RoomBooking unique key (room, booking_date, start_time) is taken. */
  predicate KeyTaken(bs: seq<Booking>, room: Room, date: Date, start: Time) {
    exists i :: 0 <= i < |bs| && bs[i].room == room && bs[i].date == date && bs[i].startTime == start
  }

  predicate WellFormed(b: Booking) {
    b.startTime <= b.endTime
  }

  /** Every closed overlap is caught by the clauses; for well-formed
      intervals the clauses catch nothing else. */
  lemma ClausesAreClosedOverlap(b: Booking, start: Time, end: Time)
    ensures b.startTime <= end && b.endTime >= start ==> ConflictClauses(b, start, end)
    ensures start <= end && WellFormed(b) && ConflictClauses(b, start, end) ==>
      b.startTime <= end && b.endTime >= start
  {
  }

  /** Intervals that only touch conflict: 10:00-10:30 blocks 10:30-11:00. */
  lemma TouchingIntervalsConflict(b: Booking)
    requires b.startTime == ClockTime(10, 0) && b.endTime == ClockTime(10, 30)
    ensures ConflictClauses(b, ClockTime(10, 30), ClockTime(11, 0))
  {
  }

  /** When the stored bookings of the room on that date are well formed, a
      request that would reuse their unique key is caught as a conflict
      first, so the save cannot violate the key. */
  lemma KeyTakenConflicts(bs: seq<Booking>, room: Room, date: Date, start: Time, end: Time)
    requires forall i :: 0 <= i < |bs| && bs[i].room == room && bs[i].date == date ==> WellFormed(bs[i])
    ensures KeyTaken(bs, room, date, start) ==> HasConflict(bs, room, date, start, end)
  {
    if KeyTaken(bs, room, date, start) {
      var i :| 0 <= i < |bs| && bs[i].room == room && bs[i].date == date && bs[i].startTime == start;
      assert Conflicts(bs[i], room, date, start, end);
    }
  }

  /** What the POST branch of `room_details` does with a valid form. */
  datatype BookOutcome = Booked(booking: Booking) | AlreadyBooked | IntegrityError

  /** What `cancel_booking` reports. */
  datatype CancelOutcome = NotFound | AlreadyCancelled | AlreadyEnded | Cancelled(room: Room, date: Date)

  /** The current instant is `now.time()`: the whole minute `now` plus,
      when `late`, some seconds past it. A stored time `t` (whole minutes)
      is before that instant exactly when it is before the minute, or is
      the minute itself and the instant is past its start. */
  predicate BeforeInstant(t: Time, now: Time, late: bool) {
    t < now || (t == now && late)
  }

  /** The booking's date is before today, or it is today and it ended before now. */
  predicate Ended(b: Booking, today: Date, now: Time, late: bool) {
    b.date < today || (b.date == today && BeforeInstant(b.endTime, now, late))
  }

  /** `cancel_booking`'s checks on the booking it found. */
  function CancelCheck(b: Booking, today: Date, now: Time, late: bool): (r: CancelOutcome)
    ensures r == AlreadyCancelled <==> !b.active
    ensures r == AlreadyEnded <==> b.active && Ended(b, today, now, late)
    ensures r.Cancelled? <==> b.active && !Ended(b, today, now, late)
    ensures r.Cancelled? ==> r.room == b.room && r.date == b.date
  {
    if !b.active then AlreadyCancelled
    else if Ended(b, today, now, late) then AlreadyEnded
    else Cancelled(b.room, b.date)
  }

  /** `RoomBooking.objects.get(id=booking_id, user=request.user)`: the
      position of the booking with that id, when it belongs to `user`. */
  function Find(bs: seq<Booking>, id: nat, user: string): (r: Option<nat>)
    ensures r.Some? ==> r.value < |bs| && bs[r.value].id == id && bs[r.value].user == user
    ensures r.None? ==> forall i :: 0 <= i < |bs| ==> !(bs[i].id == id && bs[i].user == user)
    decreases |bs|
  {
    if bs == [] then None
    else if bs[|bs| - 1].id == id && bs[|bs| - 1].user == user then Some(|bs| - 1)
    else Find(bs[..|bs| - 1], id, user)
  }

  /** Ids grow along the table: later rows were saved later. */
  predicate IdsIncrease(bs: seq<Booking>) {
    forall i, j :: 0 <= i < j < |bs| ==> bs[i].id < bs[j].id
  }

  /** The RoomBooking table; ids are handed out from `nextId` upwards. */
  class BookingStore {
    var bookings: seq<Booking>
    var nextId: nat

    ghost predicate Valid()
      reads this
    {
      1 <= nextId && UniqueBookingKeys(bookings) &&
      (forall i :: 0 <= i < |bookings| ==> 1 <= bookings[i].id < nextId) &&
      IdsIncrease(bookings)
    }

    /** An empty table; the auto-increment key starts at 1. */
    constructor()
      ensures Valid() && bookings == [] && nextId == 1
    {
      bookings, nextId := [], 1;
    }

    /** The POST branch of `room_details` with a valid form for `date`,
        `start` .. `end`: a conflicting booking of the same room and date
        (cancelled or not) rejects the request; otherwise the booking is
        saved, active, with the request's user, room, college and building.
        A save that reuses the unique key raises an IntegrityError. */
    method Book(user: string, room: Room, college: string, building: string,
                date: Date, start: Time, end: Time) returns (r: BookOutcome)
      requires Valid()
      modifies this
      ensures Valid()
      ensures HasConflict(old(bookings), room, date, start, end) ==>
        r == AlreadyBooked && bookings == old(bookings) && nextId == old(nextId)
      ensures !HasConflict(old(bookings), room, date, start, end) && KeyTaken(old(bookings), room, date, start) ==>
        r == IntegrityError && bookings == old(bookings) && nextId == old(nextId)
      ensures !HasConflict(old(bookings), room, date, start, end) && !KeyTaken(old(bookings), room, date, start) ==>
        r == Booked(Booking(old(nextId), user, room, college, building, date, start, end, true)) &&
        bookings == old(bookings) + [r.booking] && nextId == old(nextId) + 1
    {
      if HasConflict(bookings, room, date, start, end) {
        return AlreadyBooked;
      }
      if KeyTaken(bookings, room, date, start) {
        return IntegrityError;
      }
      var booking := Booking(nextId, user, room, college, building, date, start, end, true);
      bookings := bookings + [booking];
      nextId := nextId + 1;
      r := Booked(booking);
    }

    /** `cancel_booking(booking_id)` by `user` at `today`, `now`, `late`:
        only the `active` flag of the found booking changes, and only when
        it is active and has not ended. */
    method Cancel(id: nat, user: string, today: Date, now: Time, late: bool) returns (r: CancelOutcome)
      requires Valid()
      modifies this
      ensures Valid() && nextId == old(nextId)
      ensures Find(old(bookings), id, user).None? ==> r == NotFound && bookings == old(bookings)
      ensures Find(old(bookings), id, user).Some? ==>
        var i := Find(old(bookings), id, user).value;
        r == CancelCheck(old(bookings)[i], today, now, late) &&
        bookings == if r.Cancelled? then old(bookings)[i := old(bookings)[i].(active := false)] else old(bookings)
    {
      var found := Find(bookings, id, user);
      if found.None? {
        return NotFound;
      }
      var i := found.value;
      var booking := bookings[i];
      if !booking.active {
        return AlreadyCancelled;
      }
      if booking.date < today || (booking.date == today && (booking.endTime < now || (booking.endTime == now && late))) {
        return AlreadyEnded;
      }
      bookings := bookings[i := booking.(active := false)];
      r := Cancelled(booking.room, booking.date);
    }
  }

  /** An active booking of today can be cancelled exactly while its end is
      not before the instant: up to the first second of its end minute. */
  lemma EndingNowCancellable(b: Booking, today: Date, now: Time, late: bool)
    requires b.active && b.date == today
    ensures CancelCheck(b, today, now, late) == Cancelled(b.room, b.date) <==>
      b.endTime > now || (b.endTime == now && !late)
    ensures b.endTime == now && late ==> CancelCheck(b, today, now, late) == AlreadyEnded
  {
  }

  /** Cancelling twice: the second attempt reports the booking cancelled. */
  lemma CancelTwice(b: Booking, today: Date, now: Time, late: bool)
    ensures CancelCheck(b.(active := false), today, now, late) == AlreadyCancelled
  {
  }

  /** Another user's booking is not found, whatever its id. */
  lemma OthersBookingNotFound(bs: seq<Booking>, id: nat, user: string)
    requires forall i :: 0 <= i < |bs| && bs[i].id == id ==> bs[i].user != user
    ensures Find(bs, id, user) == None
  {
  }

  // ------------------------------------------------- occupied now, next free

  /** `order_by('start_time')`. */
  predicate StartBefore(a: Booking, b: Booking) {
    a.startTime < b.startTime
  }

  /** `current_bookings`: today's bookings of the room, cancelled ones
      included, by start time (ties in table order). */
  function TodaysBookings(bs: seq<Booking>, room: Room, today: Date): seq<Booking> {
    SortBy(Where(bs, (b: Booking) => b.room == room && b.date == today), StartBefore)
  }

  /** `start_time <= now.time() <= end_time`. */
  predicate InProgress(b: Booking, now: Time, late: bool) {
    b.startTime <= now && !BeforeInstant(b.endTime, now, late)
  }

  /** The end of the first booking in `bs` that ends after `now`. */
  function FirstEndAfter(bs: seq<Booking>, now: Time): (r: Option<Time>)
    ensures r.Some? ==> exists i :: (0 <= i < |bs| && bs[i].endTime > now && r.value == bs[i].endTime &&
                                     forall j :: 0 <= j < i ==> bs[j].endTime <= now)
    ensures r.None? <==> forall i :: 0 <= i < |bs| ==> bs[i].endTime <= now
    decreases |bs|
  {
    if bs == [] then None
    else if bs[0].endTime > now then Some(bs[0].endTime)
    else
      var rest := FirstEndAfter(bs[1..], now);
      assert forall i :: 1 <= i < |bs| ==> bs[i] == bs[1..][i - 1];
      if rest.Some? then
        var k :| 0 <= k < |bs[1..]| && bs[1..][k].endTime > now && rest.value == bs[1..][k].endTime &&
                 forall j :: 0 <= j < k ==> bs[1..][j].endTime <= now;
        assert bs[k + 1].endTime > now;
        rest
      else rest
  }

  /** The `is_available` and `next_available_time` loops of `room_details`
      over `current`, today's bookings in start order. */
  method RoomStatus(current: seq<Booking>, now: Time, late: bool) returns (isAvailable: bool, nextAvailable: Option<Time>)
    ensures isAvailable <==> forall i :: 0 <= i < |current| ==> !InProgress(current[i], now, late)
    ensures nextAvailable == if isAvailable then None else FirstEndAfter(current, now)
  {
    isAvailable := true;
    var i := 0;
    while i < |current|
      invariant 0 <= i <= |current|
      invariant isAvailable && forall k :: 0 <= k < i ==> !InProgress(current[k], now, late)
    {
      if current[i].startTime <= now && (current[i].endTime > now || (current[i].endTime == now && !late)) {
        isAvailable := false;
        break;
      }
      i := i + 1;
    }
    nextAvailable := None;
    if !isAvailable && |current| > 0 {
      var j := 0;
      while j < |current|
        invariant 0 <= j <= |current|
        invariant nextAvailable.None? && forall k :: 0 <= k < j ==> current[k].endTime <= now
      {
        if current[j].endTime > now {
          nextAvailable := Some(current[j].endTime);
          break;
        }
        j := j + 1;
      }
      FirstEndAfterAt(current, now, j, nextAvailable);
    }
  }

  /** `FirstEndAfter` is the end at the first position past which no earlier
      booking ends after `now`. */
  lemma {:induction false} FirstEndAfterAt(bs: seq<Booking>, now: Time, j: nat, r: Option<Time>)
    requires j <= |bs| && forall k :: 0 <= k < j ==> bs[k].endTime <= now
    requires r.None? ==> j == |bs|
    requires r.Some? ==> j < |bs| && bs[j].endTime > now && r.value == bs[j].endTime
    ensures FirstEndAfter(bs, now) == r
    decreases j
  {
    if j > 0 {
      assert forall k :: 0 <= k < j - 1 ==> bs[1..][k] == bs[k + 1];
      FirstEndAfterAt(bs[1..], now, j - 1, r);
    }
  }

  /** The room is shown occupied exactly when one of today's bookings of
      the room is in progress, even a cancelled one; the next available
      time is then later than now. */
  lemma OccupiedByAnyBooking(bs: seq<Booking>, room: Room, today: Date, now: Time, late: bool, b: Booking)
    requires b in bs && b.room == room && b.date == today
    ensures b in TodaysBookings(bs, room, today)
    ensures InProgress(b, now, late) ==> exists i :: 0 <= i < |TodaysBookings(bs, room, today)| &&
                                                    InProgress(TodaysBookings(bs, room, today)[i], now, late)
  {
    var keep := (x: Booking) => x.room == room && x.date == today;
    WhereMembers(bs, keep, b);
    var t := TodaysBookings(bs, room, today);
    assert b in multiset(Where(bs, keep));
    assert b in multiset(t);
    var i :| 0 <= i < |t| && t[i] == b;
  }

  /** The next available time follows now and is a booking's end. */
  lemma NextAvailableAfterNow(current: seq<Booking>, now: Time)
    ensures FirstEndAfter(current, now).Some? ==>
      FirstEndAfter(current, now).value > now &&
      exists i :: 0 <= i < |current| && current[i].endTime == FirstEndAfter(current, now).value
  {
  }

  // ------------------------------------------------ next class, default end

  /** `next_class_time`: the time of the first occupied grid block after
      the current, unrounded block `(hour - 8) * 60 + minute`, converted as
      `8 + mb // 60 : mb % 60`. An hour of 24 or more fails `strptime`. */
  function NextClassTime(grid: seq<Availability>, room: Room, weekday: nat, hour: nat, minute: nat)
    : (r: Result<Option<Time>>)
    requires hour < 24 && minute < 60
    ensures r.Ok? && r.value.Some? ==>
      exists i :: (0 <= i < |grid| && Occupies(grid[i], room, weekday, (hour - 8) * 60 + minute) &&
                   r.value.value == 480 + grid[i].minuteBlock)
    ensures r.Ok? && r.value.Some? ==>
      forall i :: 0 <= i < |grid| && Occupies(grid[i], room, weekday, (hour - 8) * 60 + minute) ==>
        r.value.value <= 480 + grid[i].minuteBlock
    ensures r.Ok? && r.value.None? <==>
      forall i :: 0 <= i < |grid| ==> !Occupies(grid[i], room, weekday, (hour - 8) * 60 + minute)
  {
    match FirstOccupied(grid, room, weekday, (hour - 8) * 60 + minute)
    case None => Ok(None)
    case Some(mb) =>
      var nextHour := 8 + mb / 60;
      if nextHour < 24 then Ok(Some(ClockTime(nextHour, mb % 60)))
      else Err("time data does not match format '%H:%M'")
  }

  /** On the rebuilt grid the conversion never fails, and the next class
      time is a time at which a class of the room meets. */
  lemma NextClassOnGrid(rooms: seq<Room>, schedules: seq<Schedule>, room: Room, weekday: nat, hour: nat, minute: nat)
    requires hour < 24 && minute < 60
    ensures var r := NextClassTime(Grid(rooms, schedules), room, weekday, hour, minute);
      r.Ok? &&
      (r.value.Some? ==> weekday < 5 && 480 <= r.value.value < 1200 &&
                         InSession(schedules, room, WeekdayCodes[weekday], r.value.value))
  {
    var g := Grid(rooms, schedules);
    var block := (hour - 8) * 60 + minute;
    var f := FirstOccupied(g, room, weekday, block);
    if f.Some? {
      var i :| 0 <= i < |g| && Occupies(g[i], room, weekday, block) && g[i].minuteBlock == f.value;
      OccupiedEntryInSession(rooms, schedules, g[i]);
    }
  }

  /** `(now + 1 hour).time()`. */
  function OneHourLater(start: Time): Time {
    (start + 60) % 1440
  }

  /** The pre-filled end time for a booking starting at `start` (seconds
      dropped), given the next class time. */
  function DefaultEndTime(start: Time, nextClass: Option<Time>): (r: Time)
    ensures nextClass.Some? && nextClass.value > start ==> r <= nextClass.value
    ensures nextClass.Some? && nextClass.value > start && start < 1380 ==> r == Min(start + 60, nextClass.value)
    ensures nextClass.Some? && nextClass.value > start && start >= 1380 ==> r == Min(1200, nextClass.value)
    ensures nextClass.Some? && nextClass.value <= start ==> r == OneHourLater(start)
    ensures nextClass.None? ==> r == if start >= 1380 then 1200 else start + 60
  {
    var oneHourLater := OneHourLater(start);
    HourWraps(start);
    var endTime := if oneHourLater / 60 < start / 60 then 1200 else oneHourLater;
    match nextClass
    case None => endTime
    case Some(next) =>
      HourMinuteOrder(next, start);
      if next / 60 > start / 60 || (next / 60 == start / 60 && next % 60 > start % 60) then
        Min(endTime, next)
      else oneHourLater
  }

  /** An hour later has a smaller hour exactly when it wraps past midnight. */
  lemma HourWraps(start: Time)
    ensures OneHourLater(start) / 60 < start / 60 <==> start >= 1380
    ensures start < 1380 ==> OneHourLater(start) == start + 60
  {
  }

  function Min(a: Time, b: Time): Time {
    if a <= b then a else b
  }

  /** Comparing hours, then minutes, is comparing times. */
  lemma HourMinuteOrder(a: Time, b: Time)
    ensures a > b <==> a / 60 > b / 60 || (a / 60 == b / 60 && a % 60 > b % 60)
  {
  }

  /** The 20:00 fallback applies exactly from 23:00 on, where one hour later
      wraps past midnight; it can then fall before the start. */
  lemma LateStartFallback()
    ensures DefaultEndTime(ClockTime(23, 30), None) == ClockTime(20, 0)
    ensures DefaultEndTime(ClockTime(22, 59), None) == ClockTime(23, 59)
  {
  }

  // ------------------------------------------------------- classification

  /** The `bookings` page's optional filters; empty names and absent dates
      are no filter. */
  datatype Filters = Filters(college: string, building: string, room: string,
                             dateFrom: Option<Date>, dateTo: Option<Date>)

  /** `bookings_query`: the user's active bookings passing the filters. */
  predicate InQuery(b: Booking, user: string, f: Filters) {
    b.user == user && b.active &&
    (f.college == "" || b.college == f.college) &&
    (f.building == "" || b.building == f.building) &&
    (f.room == "" || b.room.name == f.room) &&
    (f.dateFrom.None? || b.date >= f.dateFrom.value) &&
    (f.dateTo.None? || b.date <= f.dateTo.value)
  }

  predicate Current(b: Booking, today: Date, now: Time, late: bool) {
    b.date == today && InProgress(b, now, late)
  }

  /** `start_time > now.time()`: a whole-minute start after the instant is
      after its minute, whatever the seconds. */
  predicate Upcoming(b: Booking, today: Date, now: Time) {
    b.date > today || (b.date == today && b.startTime > now)
  }

  predicate Past(b: Booking, today: Date, now: Time, late: bool) {
    b.date < today || (b.date == today && BeforeInstant(b.endTime, now, late))
  }

  /** `order_by('booking_date', 'start_time')`. */
  predicate DateStartBefore(a: Booking, b: Booking) {
    a.date < b.date || (a.date == b.date && a.startTime < b.startTime)
  }

  /** `order_by('-booking_date', '-end_time')`. */
  predicate DateEndAfter(a: Booking, b: Booking) {
    a.date > b.date || (a.date == b.date && a.endTime > b.endTime)
  }

  /** `active_booking`: the first (lowest id, table order) in-progress booking. */
  function ActiveBooking(bs: seq<Booking>, user: string, f: Filters, today: Date, now: Time, late: bool): Option<Booking> {
    var cur := Where(bs, (b: Booking) => InQuery(b, user, f) && Current(b, today, now, late));
    if cur == [] then None else Some(cur[0])
  }

  function FutureBookings(bs: seq<Booking>, user: string, f: Filters, today: Date, now: Time): seq<Booking> {
    SortBy(Where(bs, (b: Booking) => InQuery(b, user, f) && Upcoming(b, today, now)), DateStartBefore)
  }

  /** `historical_query`, excluding the active booking's id (or id 0). */
  function HistoricalBookings(bs: seq<Booking>, user: string, f: Filters, today: Date, now: Time, late: bool): seq<Booking> {
    var active := ActiveBooking(bs, user, f, today, now, late);
    var excluded := if active.Some? then active.value.id else 0;
    SortBy(Where(bs, (b: Booking) => InQuery(b, user, f) && b.id != excluded && Past(b, today, now, late)), DateEndAfter)
  }

  lemma ClassificationOrders()
    ensures StrictWeakOrder(StartBefore)
    ensures StrictWeakOrder(DateStartBefore)
    ensures StrictWeakOrder(DateEndAfter)
  {
  }

  /** The active booking is an in-progress booking of the query, none
      comes before it in the table, and so, with ids growing along the
      table, it has the lowest id of them. */
  lemma ActiveBookingIsFirst(bs: seq<Booking>, user: string, f: Filters, today: Date, now: Time, late: bool)
    ensures var a := ActiveBooking(bs, user, f, today, now, late);
      (a.Some? <==> exists i :: 0 <= i < |bs| && InQuery(bs[i], user, f) && Current(bs[i], today, now, late)) &&
      (a.Some? ==> a.value in bs && InQuery(a.value, user, f) && Current(a.value, today, now, late))
    ensures var a := ActiveBooking(bs, user, f, today, now, late);
      a.Some? ==> exists k :: (0 <= k < |bs| && bs[k] == a.value &&
                              forall i :: 0 <= i < k ==> !(InQuery(bs[i], user, f) && Current(bs[i], today, now, late)))
    ensures var a := ActiveBooking(bs, user, f, today, now, late);
      IdsIncrease(bs) && a.Some? ==>
        forall i :: 0 <= i < |bs| && InQuery(bs[i], user, f) && Current(bs[i], today, now, late) ==>
          a.value.id <= bs[i].id
  {
    var keep := (b: Booking) => InQuery(b, user, f) && Current(b, today, now, late);
    var cur := Where(bs, keep);
    if cur != [] {
      WhereFirst(bs, keep);
      var k :| 0 <= k < |bs| && bs[k] == cur[0] && keep(bs[k]) && forall i :: 0 <= i < k ==> !keep(bs[i]);
      forall i | 0 <= i < |bs| && InQuery(bs[i], user, f) && Current(bs[i], today, now, late) && IdsIncrease(bs)
        ensures cur[0].id <= bs[i].id
      {
        assert keep(bs[i]);
        assert k <= i;
      }
    }
    if exists i :: 0 <= i < |bs| && InQuery(bs[i], user, f) && Current(bs[i], today, now, late) {
      var i :| 0 <= i < |bs| && InQuery(bs[i], user, f) && Current(bs[i], today, now, late);
      WhereMembers(bs, keep, bs[i]);
    }
    if cur != [] {
      WhereMembers(bs, keep, cur[0]);
    }
  }

  /** The future list holds exactly the query's bookings that have not
      started, by date and start time. */
  lemma FutureMembers(bs: seq<Booking>, user: string, f: Filters, today: Date, now: Time, b: Booking)
    ensures b in FutureBookings(bs, user, f, today, now) <==> b in bs && InQuery(b, user, f) && Upcoming(b, today, now)
    ensures Sorted(FutureBookings(bs, user, f, today, now), DateStartBefore)
  {
    var keep := (x: Booking) => InQuery(x, user, f) && Upcoming(x, today, now);
    WhereMembers(bs, keep, b);
    assert b in FutureBookings(bs, user, f, today, now) <==> b in multiset(Where(bs, keep));
    ClassificationOrders();
    SortBySorted(Where(bs, keep), DateStartBefore);
  }

  /** Excluding the active booking's id changes nothing: an in-progress
      booking has not ended. */
  lemma HistoricalIgnoresActive(bs: seq<Booking>, user: string, f: Filters, today: Date, now: Time, late: bool)
    requires forall i :: 0 <= i < |bs| ==> bs[i].id != 0
    requires UniqueBookingKeys(bs)
    ensures HistoricalBookings(bs, user, f, today, now, late) ==
      SortBy(Where(bs, (b: Booking) => InQuery(b, user, f) && Past(b, today, now, late)), DateEndAfter)
  {
    var active := ActiveBooking(bs, user, f, today, now, late);
    var excluded := if active.Some? then active.value.id else 0;
    ActiveBookingIsFirst(bs, user, f, today, now, late);
    forall i | 0 <= i < |bs| && Past(bs[i], today, now, late) ensures bs[i].id != excluded {
      if active.Some? {
        var j :| 0 <= j < |bs| && bs[j] == active.value;
        assert i != j;
      }
    }
    WhereAgree(bs, (b: Booking) => InQuery(b, user, f) && b.id != excluded && Past(b, today, now, late),
                   (b: Booking) => InQuery(b, user, f) && Past(b, today, now, late));
  }

  /** The historical list holds exactly the query's bookings that have
      ended, latest date and end first. */
  lemma HistoricalMembers(bs: seq<Booking>, user: string, f: Filters, today: Date, now: Time, late: bool, b: Booking)
    requires forall i :: 0 <= i < |bs| ==> bs[i].id != 0
    requires UniqueBookingKeys(bs)
    ensures b in HistoricalBookings(bs, user, f, today, now, late) <==> b in bs && InQuery(b, user, f) && Past(b, today, now, late)
    ensures Sorted(HistoricalBookings(bs, user, f, today, now, late), DateEndAfter)
  {
    var keep := (x: Booking) => InQuery(x, user, f) && Past(x, today, now, late);
    HistoricalIgnoresActive(bs, user, f, today, now, late);
    WhereMembers(bs, keep, b);
    assert b in HistoricalBookings(bs, user, f, today, now, late) <==> b in multiset(Where(bs, keep));
    ClassificationOrders();
    SortBySorted(Where(bs, keep), DateEndAfter);
  }

  /** A well-formed booking is never both future and historical, and an
      in-progress booking is in neither list. */
  lemma ClassificationDisjoint(bs: seq<Booking>, user: string, f: Filters, today: Date, now: Time, late: bool, b: Booking)
    requires forall i :: 0 <= i < |bs| ==> bs[i].id != 0
    requires UniqueBookingKeys(bs)
    requires WellFormed(b)
    ensures !(b in FutureBookings(bs, user, f, today, now) && b in HistoricalBookings(bs, user, f, today, now, late))
    ensures Current(b, today, now, late) ==>
      b !in FutureBookings(bs, user, f, today, now) && b !in HistoricalBookings(bs, user, f, today, now, late)
  {
    FutureMembers(bs, user, f, today, now, b);
    HistoricalMembers(bs, user, f, today, now, late, b);
  }
}
