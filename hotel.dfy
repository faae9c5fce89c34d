/** The room pools the application starts from: initializeRooms and
    loadTestCase in src/utils/roomUtils.js. */
module Hotel {
  import opened Rooms
  import opened Booking

  /** The number of rooms in the hotel. */
  const RoomCount := 97

  /** Floors 1 to 9 have ten rooms each; floor 10 has seven. */
  function RoomsOnFloor(floor: int): nat {
    if 1 <= floor <= 9 then 10 else if floor == 10 then 7 else 0
  }

  /** The place of room `roomNumber` of `floor` in the list initializeRooms builds. */
  function Position(floor: int, roomNumber: int): int {
    10 * (floor - 1) + (roomNumber - 1)
  }

  /** The room at position `i` of the fresh hotel: its id is the floor
      followed by the two-digit room number, and it is free. */
  function HotelRoom(i: nat): (r: Room)
    requires i < RoomCount
    ensures 1 <= r.floor <= 10 && 1 <= r.roomNumber <= RoomsOnFloor(r.floor)
    ensures r.id == 100 * r.floor + r.roomNumber && !r.booked
    ensures Position(r.floor, r.roomNumber) == i
  {
    if i < 90 then Room(100 * (i / 10 + 1) + (i % 10 + 1), i / 10 + 1, i % 10 + 1, false)
    else Room(1000 + (i - 89), 10, i - 89, false)
  }

  /** The list initializeRooms returns. */
  function FreshHotel(): (h: seq<Room>)
    ensures |h| == RoomCount
  {
    seq(RoomCount, i requires 0 <= i < RoomCount => HotelRoom(i))
  }

  /** Every room of every floor is in the hotel, at its position. */
  lemma HotelHasEveryRoom(floor: int, roomNumber: int)
    requires 1 <= floor <= 10 && 1 <= roomNumber <= RoomsOnFloor(floor)
    ensures 0 <= Position(floor, roomNumber) < RoomCount
    ensures FreshHotel()[Position(floor, roomNumber)] == Room(100 * floor + roomNumber, floor, roomNumber, false)
  {
    var p := Position(floor, roomNumber);
    var r := HotelRoom(p);
    PositionInjective(r.floor, r.roomNumber, floor, roomNumber);
    assert FreshHotel()[p] == r;
  }

  /** Distinct rooms have distinct positions, and the positions follow the room order. */
  lemma PositionInjective(f1: int, n1: int, f2: int, n2: int)
    requires 1 <= n1 <= 10 && 1 <= n2 <= 10
    ensures Position(f1, n1) == Position(f2, n2) ==> f1 == f2 && n1 == n2
    ensures Position(f1, n1) < Position(f2, n2) ==> f1 < f2 || (f1 == f2 && n1 < n2)
  {
  }

  /** The hotel lists its rooms floor by floor, each floor in room order. */
  lemma HotelStrictlySorted()
    ensures StrictlySorted(FreshHotel())
  {
    var h := FreshHotel();
    forall i, j | 0 <= i < j < |h| ensures RoomLt(h[i], h[j]) {
      var a, b := HotelRoom(i), HotelRoom(j);
      PositionInjective(a.floor, a.roomNumber, b.floor, b.roomNumber);
    }
  }

  /** initializeRooms: floors 1 to 9 with rooms 1 to 10, then floor 10 with
      rooms 1 to 7, all free. */
  method InitializeRooms() returns (rooms: seq<Room>)
    ensures rooms == FreshHotel()
  {
    rooms := [];
    for floor := 1 to 10
      invariant |rooms| == 10 * (floor - 1)
      invariant forall j :: 0 <= j < |rooms| ==> rooms[j] == HotelRoom(j)
    {
      for room := 1 to 11
        invariant |rooms| == 10 * (floor - 1) + (room - 1)
        invariant forall j :: 0 <= j < |rooms| ==> rooms[j] == HotelRoom(j)
      {
        HotelHasEveryRoom(floor, room);
        rooms := rooms + [Room(floor * 100 + room, floor, room, false)];
      }
    }
    for room := 1 to 8
      invariant |rooms| == 90 + (room - 1)
      invariant forall j :: 0 <= j < |rooms| ==> rooms[j] == HotelRoom(j)
    {
      HotelHasEveryRoom(10, room);
      rooms := rooms + [Room(1000 + room, 10, room, false)];
    }
  }

  /** The ids of the rooms loadTestCase leaves free. */
  const TestCaseIds: seq<int> := [101, 102, 105, 106, 201, 202, 203, 210, 301, 302]

  /** The pool loadTestCase returns: the hotel with exactly the listed rooms free. */
  function TestCasePool(): (p: seq<Room>)
    ensures |p| == RoomCount
  {
    seq(RoomCount, i requires 0 <= i < RoomCount => FreshHotel()[i].(booked := FreshHotel()[i].id !in TestCaseIds))
  }

  /** The first pass of loadTestCase: mark every room booked. */
  method BookAll(a: array<Room>)
    modifies a
    ensures forall j :: 0 <= j < a.Length ==> a[j] == old(a[j]).(booked := true)
  {
    for i := 0 to a.Length
      invariant forall j :: 0 <= j < i ==> a[j] == old(a[j]).(booked := true)
      invariant forall j :: i <= j < a.Length ==> a[j] == old(a[j])
    {
      a[i] := a[i].(booked := true);
    }
  }

  /** The second pass of loadTestCase: free the rooms whose ids are listed. */
  method FreeListed(a: array<Room>, availableRooms: seq<int>)
    modifies a
    ensures forall j :: 0 <= j < a.Length ==>
              a[j] == if old(a[j]).id in availableRooms then old(a[j]).(booked := false) else old(a[j])
  {
    for i := 0 to a.Length
      invariant forall j :: 0 <= j < i ==>
                  a[j] == if old(a[j]).id in availableRooms then old(a[j]).(booked := false) else old(a[j])
      invariant forall j :: i <= j < a.Length ==> a[j] == old(a[j])
    {
      if a[i].id in availableRooms {
        a[i] := a[i].(booked := false);
      }
    }
  }

  /** loadTestCase: book every room, then free the listed ones. The rooms
      are records the code updates in place; here they sit in an array
      whose elements the two passes replace. */
  method LoadTestCase() returns (rooms: seq<Room>)
    ensures rooms == TestCasePool()
  {
    var initial := InitializeRooms();
    var a := new Room[|initial|](j requires 0 <= j < |initial| => initial[j]);
    BookAll(a);
    var availableRooms := TestCaseIds;
    FreeListed(a, availableRooms);
    rooms := a[..];
  }

  /** Floor and room number of the i-th free room of the test case. */
  function TestFloor(i: int): int {
    if i < 4 then 1 else if i < 8 then 2 else 3
  }

  function TestNumber(i: int): int {
    if i == 0 then 1 else if i == 1 then 2 else if i == 2 then 5 else if i == 3 then 6
    else if i == 4 then 1 else if i == 5 then 2 else if i == 6 then 3 else if i == 7 then 10
    else if i == 8 then 1 else 2
  }

  /** The i-th free room of the test case. */
  function TestRoom(i: int): Room {
    Room(100 * TestFloor(i) + TestNumber(i), TestFloor(i), TestNumber(i), false)
  }

  /** The free rooms of the test case, in hotel order. */
  function TestCaseRooms(): (r: seq<Room>)
    ensures |r| == |TestCaseIds|
    ensures forall i :: 0 <= i < |r| ==> r[i].id == TestCaseIds[i] && !r[i].booked
  {
    seq(10, i requires 0 <= i < 10 => TestRoom(i))
  }

  /** A room's id determines its floor and room number. */
  lemma IdInjective(f1: int, n1: int, f2: int, n2: int)
    requires 1 <= n1 <= 10 && 1 <= n2 <= 10
    requires 100 * f1 + n1 == 100 * f2 + n2
    ensures f1 == f2 && n1 == n2
  {
  }

  /** The ten free rooms are listed in hotel order. */
  lemma TestCaseRoomsSorted()
    ensures StrictlySorted(TestCaseRooms())
  {
    var free := TestCaseRooms();
    forall i, j | 0 <= i < j < |free| ensures RoomLt(free[i], free[j]) {
      assert TestFloor(i) <= TestFloor(j);
    }
  }

  /** The test pool keeps the hotel order. */
  lemma TestCasePoolSorted()
    ensures StrictlySorted(TestCasePool())
  {
    var pool := TestCasePool();
    HotelStrictlySorted();
    forall i, j | 0 <= i < j < |pool| ensures RoomLt(pool[i], pool[j]) {
      assert RoomLt(FreshHotel()[i], FreshHotel()[j]);
    }
  }

  /** A room of the test pool is free exactly when it is one of the ten listed. */
  lemma TestCaseFreeRooms()
    ensures forall x :: x in TestCasePool() && !x.booked <==> x in TestCaseRooms()
  {
    forall x | x in TestCasePool() && !x.booked ensures x in TestCaseRooms() {
      FreeIsListed(x);
    }
    forall m | 0 <= m < 10 ensures TestCaseRooms()[m] in TestCasePool() && !TestCaseRooms()[m].booked {
      ListedIsFree(m);
    }
  }

  lemma FreeIsListed(x: Room)
    requires x in TestCasePool() && !x.booked
    ensures x in TestCaseRooms()
  {
    var i :| 0 <= i < RoomCount && TestCasePool()[i] == x;
    var h := HotelRoom(i);
    PoolRoom(i);
    var m := ListedIndex(h.id);
    IdInjective(h.floor, h.roomNumber, TestFloor(m), TestNumber(m));
    assert x == TestRoom(m) == TestCaseRooms()[m];
  }

  /** The i-th room of the test pool is the hotel's, booked unless listed. */
  lemma PoolRoom(i: nat)
    requires i < RoomCount
    ensures TestCasePool()[i] == HotelRoom(i).(booked := HotelRoom(i).id !in TestCaseIds)
  {
    assert FreshHotel()[i] == HotelRoom(i);
  }

  /** A listed id belongs to one of the ten free rooms. */
  lemma ListedIndex(id: int) returns (m: nat)
    requires id in TestCaseIds
    ensures m < 10 && TestRoom(m).id == id && 1 <= TestNumber(m) <= 10
  {
    m :| 0 <= m < 10 && TestCaseIds[m] == id;
    assert TestCaseRooms()[m] == TestRoom(m);
  }

  lemma ListedIsFree(m: nat)
    requires m < 10
    ensures TestCaseRooms()[m] in TestCasePool() && !TestCaseRooms()[m].booked
  {
    HotelHasEveryRoom(TestFloor(m), TestNumber(m));
    var p := Position(TestFloor(m), TestNumber(m));
    assert TestCaseIds[m] in TestCaseIds;
    assert TestCasePool()[p] == TestCaseRooms()[m];
  }

  /** The free rooms of the test pool are exactly the ten listed ones, in
      hotel order: what getAvailableRooms hands to bookOptimalRooms. */
  lemma TestCaseAvailable(pool: seq<Room>)
    requires pool == TestCasePool()
    ensures GetAvailableRooms(pool) == TestCaseRooms()
  {
    TestCasePoolSorted();
    TestCaseRoomsSorted();
    TestCaseFreeRooms();
    StrictlySortedUnique(GetAvailableRooms(pool), TestCaseRooms());
  }
}
