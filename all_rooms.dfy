/** The room directory (classrooms/utils/all_rooms.py): every room of the
    catalogue, optionally narrowed to one college and a list of building
    names, as (name, college, building) records sorted by college, then
    building, then name. */
module AllRooms {
  import opened Text
  import opened Models
  import opened Sorting

  /** One result record. */
  datatype RoomListing = RoomListing(name: string, college: string, building: string)

  /** A room the filtered queryset keeps; an empty college or building list
      is no filter, as Python's truth test treats it. */
  predicate Selected(room: Room, college: string, buildings: seq<string>) {
    (college == "" || room.college == college) &&
    (buildings == [] || room.building in buildings)
  }

  /** The filtered queryset, in table order. */
  function SelectedRooms(rooms: seq<Room>, college: string, buildings: seq<string>): (r: seq<Room>)
    ensures forall room :: room in r <==> room in rooms && Selected(room, college, buildings)
    ensures |r| <= |rooms|
    ensures college == "" && buildings == [] ==> r == rooms
    decreases |rooms|
  {
    if rooms == [] then []
    else
      var init := rooms[..|rooms| - 1];
      var last := rooms[|rooms| - 1];
      assert rooms == init + [last];
      SelectedRooms(init, college, buildings) +
        (if Selected(last, college, buildings) then [last] else [])
  }

  function ListingOf(room: Room): RoomListing {
    RoomListing(room.name, room.college, room.building)
  }

  function Listings(rooms: seq<Room>): (r: seq<RoomListing>)
    ensures |r| == |rooms|
  {
    seq(|rooms|, k requires 0 <= k < |rooms| => ListingOf(rooms[k]))
  }

  /** Ascending order of the key `(college, building, name)`, as Python
      compares tuples of strings. */
  predicate KeyLt(a: RoomListing, b: RoomListing) {
    StrLt(a.college, b.college) ||
    (a.college == b.college &&
      (StrLt(a.building, b.building) || (a.building == b.building && StrLt(a.name, b.name))))
  }

  /** What `get_all_rooms` returns. */
  function AllRooms(rooms: seq<Room>, college: string, buildings: seq<string>): seq<RoomListing> {
    SortBy(Listings(SelectedRooms(rooms, college, buildings)), KeyLt)
  }

  /** `get_all_rooms(college, buildings)` over the Room table `rooms`. */
  method GetAllRooms(rooms: seq<Room>, college: string, buildings: seq<string>)
    returns (allRooms: seq<RoomListing>)
    ensures allRooms == AllRooms(rooms, college, buildings)
  {
    var selected := SelectedRooms(rooms, college, buildings);
    allRooms := [];
    for i := 0 to |selected|
      invariant |allRooms| == i
      invariant forall k :: 0 <= k < i ==> allRooms[k] == ListingOf(selected[k])
    {
      var room := selected[i];
      allRooms := allRooms + [RoomListing(room.name, room.college, room.building)];
    }
    assert allRooms == Listings(selected);
    allRooms := SortBy(allRooms, KeyLt);
  }

  // ------------------------------------------------------------ properties

  lemma KeyLtIrreflexive(a: RoomListing)
    ensures !KeyLt(a, a)
  {
    StrLtIrreflexive(a.college);
    StrLtIrreflexive(a.building);
    StrLtIrreflexive(a.name);
  }

  lemma KeyLtTransitive(a: RoomListing, b: RoomListing, c: RoomListing)
    requires KeyLt(a, b) && KeyLt(b, c)
    ensures KeyLt(a, c)
  {
    if StrLt(a.college, b.college) {
      if StrLt(b.college, c.college) {
        StrLtTransitive(a.college, b.college, c.college);
      }
    } else if !StrLt(b.college, c.college) {
      if StrLt(a.building, b.building) {
        if StrLt(b.building, c.building) {
          StrLtTransitive(a.building, b.building, c.building);
        }
      } else if !StrLt(b.building, c.building) {
        StrLtTransitive(a.name, b.name, c.name);
      }
    }
  }

  /** Two different records are always ordered one way or the other. */
  lemma KeyLtTotal(a: RoomListing, b: RoomListing)
    ensures a == b || KeyLt(a, b) || KeyLt(b, a)
  {
    StrLtTotal(a.college, b.college);
    StrLtTotal(a.building, b.building);
    StrLtTotal(a.name, b.name);
  }

  /** The key order is a strict weak order (indeed total on records). */
  lemma KeyOrder()
    ensures StrictWeakOrder(KeyLt)
  {
    forall a, b | KeyLt(a, b) ensures !KeyLt(b, a) {
      if KeyLt(b, a) {
        KeyLtTransitive(a, b, a);
        KeyLtIrreflexive(a);
      }
    }
    forall a, b, c | KeyLt(a, c) ensures KeyLt(a, b) || KeyLt(b, c) {
      KeyLtTotal(a, b);
      if KeyLt(b, a) {
        KeyLtTransitive(b, a, c);
      }
    }
  }

  /** The result lists exactly the selected rooms, one record per room, in
      ascending (college, building, name) order. */
  lemma AllRoomsSorted(rooms: seq<Room>, college: string, buildings: seq<string>)
    ensures var r := AllRooms(rooms, college, buildings);
      Sorted(r, KeyLt) && multiset(r) == multiset(Listings(SelectedRooms(rooms, college, buildings)))
  {
    KeyOrder();
    SortBySorted(Listings(SelectedRooms(rooms, college, buildings)), KeyLt);
  }

  /** A record is listed exactly when it describes a room of the table that
      passes both filters. */
  lemma AllRoomsMembers(rooms: seq<Room>, college: string, buildings: seq<string>, x: RoomListing)
    ensures x in AllRooms(rooms, college, buildings) <==>
      Room(x.name, x.college, x.building) in rooms && Selected(Room(x.name, x.college, x.building), college, buildings)
  {
    var sel := SelectedRooms(rooms, college, buildings);
    var ls := Listings(sel);
    var room := Room(x.name, x.college, x.building);
    assert x in AllRooms(rooms, college, buildings) <==> x in multiset(ls);
    if x in ls {
      var k :| 0 <= k < |ls| && ls[k] == x;
      assert sel[k] == room;
    }
    if room in sel {
      var k :| 0 <= k < |sel| && sel[k] == room;
      assert ls[k] == x;
    }
  }

  /** Distinct rooms give distinct records. */
  lemma ListingsDistinct(rooms: seq<Room>)
    requires NoDuplicates(rooms)
    ensures NoDuplicates(Listings(rooms))
  {
    var ls := Listings(rooms);
    forall i, j | 0 <= i < j < |ls| ensures ls[i] != ls[j] {
      assert rooms[i] != rooms[j];
    }
  }

  /** With no filter every room of the table is listed exactly once (the
      Room table's key makes its records distinct). */
  lemma UnfilteredListsEveryRoom(rooms: seq<Room>)
    requires NoDuplicates(rooms)
    ensures var r := AllRooms(rooms, "", []);
      |r| == |rooms| && multiset(r) == multiset(Listings(rooms)) && NoDuplicates(r)
  {
    AllRoomsSorted(rooms, "", []);
    var r := AllRooms(rooms, "", []);
    assert |r| == |multiset(r)| == |Listings(rooms)|;
    ListingsDistinct(rooms);
    SortByDistinct(Listings(rooms), KeyLt);
  }
}
