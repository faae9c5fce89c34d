/** The travel-time cost model: calculateTravelTime and
    calculateTotalTravelTime in src/utils/roomUtils.js. */
module Travel {
  import opened Rooms

  /** A travel time split into its horizontal and vertical components. */
  datatype TravelTime = TravelTime(horizontal: int, vertical: int, total: int)

  const Zero := TravelTime(0, 0, 0)

  function Abs(x: int): (r: nat)
    ensures r == x || r == -x
  {
    if x < 0 then -x else x
  }

  /** calculateTravelTime: one minute per room along a corridor, two per floor. */
  function CalculateTravelTime(room1: Room, room2: Room): (t: TravelTime)
    ensures t.total == t.horizontal + t.vertical
    ensures t.horizontal >= 0 && t.vertical >= 0 && t.vertical % 2 == 0
    ensures t.horizontal == 0 <==> room1.roomNumber == room2.roomNumber
    ensures t.vertical == 0 <==> room1.floor == room2.floor
  {
    var horizontalTravel := Abs(room1.roomNumber - room2.roomNumber) * 1;
    var verticalTravel := Abs(room1.floor - room2.floor) * 2;
    TravelTime(horizontalTravel, verticalTravel, horizontalTravel + verticalTravel)
  }

  /** The travel time between two rooms does not depend on the direction. */
  lemma TravelTimeSymmetric(room1: Room, room2: Room)
    ensures CalculateTravelTime(room1, room2) == CalculateTravelTime(room2, room1)
  {
  }

  /** The travel time is zero exactly between rooms at the same place. */
  lemma TravelTimeZeroIff(room1: Room, room2: Room)
    ensures CalculateTravelTime(room1, room2).total == 0 <==> SameKey(room1, room2)
  {
  }

  function Add(a: TravelTime, b: TravelTime): TravelTime {
    TravelTime(a.horizontal + b.horizontal, a.vertical + b.vertical, a.total + b.total)
  }

  /** The cost of walking the rooms in the given order: the pair costs of
      consecutive rooms, added up from the front. */
  function PathCost(rooms: seq<Room>): (t: TravelTime)
    ensures t.total == t.horizontal + t.vertical
    ensures t.horizontal >= 0 && t.vertical >= 0
    ensures |rooms| <= 1 ==> t == Zero
  {
    if |rooms| <= 1 then Zero
    else Add(PathCost(rooms[..|rooms| - 1]), CalculateTravelTime(rooms[|rooms| - 2], rooms[|rooms| - 1]))
  }

  /** The path cost depends only on the floors and room numbers along the path. */
  lemma {:induction false} PathCostRespectsKeys(a: seq<Room>, b: seq<Room>)
    requires SameKeys(a, b)
    ensures PathCost(a) == PathCost(b)
    decreases |a|
  {
    if |a| > 1 {
      PathCostRespectsKeys(a[..|a| - 1], b[..|b| - 1]);
    }
  }

  /** The total travel time of a selection: the path cost of the selection
      in canonical order (what calculateTotalTravelTime returns). */
  function TotalTravel(selectedRooms: seq<Room>): (t: TravelTime)
    ensures t.total == t.horizontal + t.vertical
    ensures t.horizontal >= 0 && t.vertical >= 0
    ensures |selectedRooms| <= 1 ==> t == Zero
  {
    if |selectedRooms| <= 1 then Zero else PathCost(SortRooms(selectedRooms))
  }

  /** calculateTotalTravelTime: sort a copy, then accumulate the horizontal
      and vertical travel between consecutive rooms. */
  method CalculateTotalTravelTime(selectedRooms: seq<Room>) returns (t: TravelTime)
    ensures t == TotalTravel(selectedRooms)
  {
    if |selectedRooms| <= 1 {
      return Zero;
    }
    var sorted := SortRooms(selectedRooms);
    var totalHorizontal := 0;
    var totalVertical := 0;
    var i := 1;
    while i < |sorted|
      invariant 1 <= i <= |sorted|
      invariant PathCost(sorted[..i]) == TravelTime(totalHorizontal, totalVertical, totalHorizontal + totalVertical)
    {
      var travel := CalculateTravelTime(sorted[i - 1], sorted[i]);
      totalHorizontal := totalHorizontal + travel.horizontal;
      totalVertical := totalVertical + travel.vertical;
      i := i + 1;
      assert sorted[..i][..i - 1] == sorted[..i - 1];
    }
    assert sorted[..i] == sorted;
    t := TravelTime(totalHorizontal, totalVertical, totalHorizontal + totalVertical);
  }

  /** The total travel time is a function of the set of rooms chosen: any
      reordering of the selection gives the same result. */
  lemma TotalTravelIgnoresOrder(a: seq<Room>, b: seq<Room>)
    requires multiset(a) == multiset(b)
    ensures TotalTravel(a) == TotalTravel(b)
  {
    assert |a| == |multiset(a)| == |multiset(b)| == |b|;
    SortedPermutationsSameKeys(SortRooms(a), SortRooms(b));
    PathCostRespectsKeys(SortRooms(a), SortRooms(b));
  }

  /** For a selection already in canonical order the total is its own path cost. */
  lemma TotalTravelOfSorted(rooms: seq<Room>)
    requires Sorted(rooms)
    ensures TotalTravel(rooms) == PathCost(rooms)
  {
    SortRoomsOfSorted(rooms);
  }
}
