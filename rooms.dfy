/** Rooms of the hotel and the canonical (floor, roomNumber) order used both
    to aggregate travel time and to break ties between combinations
    (sortRoomsDeterministic and compareCombinations in src/utils/roomUtils.js). */
module Rooms {

  /** One room record: `booked` is the only field callers change. */
  datatype Room = Room(id: int, floor: int, roomNumber: int, booked: bool)

  /** Two rooms occupy the same place: the only fields the comparator looks at agree. */
  predicate SameKey(a: Room, b: Room) {
    a.floor == b.floor && a.roomNumber == b.roomNumber
  }

  /** `a` sorts no later than `b`: lower floor first, then lower room number. */
  predicate RoomLe(a: Room, b: Room) {
    a.floor < b.floor || (a.floor == b.floor && a.roomNumber <= b.roomNumber)
  }

  /** `a` sorts strictly before `b`. */
  predicate RoomLt(a: Room, b: Room) {
    a.floor < b.floor || (a.floor == b.floor && a.roomNumber < b.roomNumber)
  }

  predicate Sorted(s: seq<Room>) {
    forall i, j :: 0 <= i < j < |s| ==> RoomLe(s[i], s[j])
  }

  predicate StrictlySorted(s: seq<Room>) {
    forall i, j :: 0 <= i < j < |s| ==> RoomLt(s[i], s[j])
  }

  /** The two sequences agree on floor and room number at every position. */
  predicate SameKeys(a: seq<Room>, b: seq<Room>) {
    |a| == |b| && forall i :: 0 <= i < |a| ==> SameKey(a[i], b[i])
  }

  /** The head of a strictly sorted list sorts before every other member. */
  lemma HeadLeast(a: seq<Room>, x: Room)
    requires StrictlySorted(a) && x in a
    ensures x == a[0] || RoomLt(a[0], x)
  {
    var p :| 0 <= p < |a| && a[p] == x;
  }

  /** A strictly sorted list is determined by the rooms it contains. */
  lemma {:induction false} StrictlySortedUnique(a: seq<Room>, b: seq<Room>)
    requires StrictlySorted(a) && StrictlySorted(b)
    requires forall x :: x in a <==> x in b
    ensures a == b
    decreases |a|
  {
    if a != [] && b != [] {
      HeadLeast(a, b[0]);
      HeadLeast(b, a[0]);
      forall x ensures x in a[1..] <==> x in b[1..] {
        if x in a[1..] {
          var p :| 1 <= p < |a| && a[p] == x;
          assert RoomLt(a[0], a[p]);
          assert x in a && x in b;
          var q :| 0 <= q < |b| && b[q] == x;
          assert q != 0;
          assert b[1..][q - 1] == x;
        }
        if x in b[1..] {
          var q :| 1 <= q < |b| && b[q] == x;
          assert RoomLt(b[0], b[q]);
          assert x in b && x in a;
          var p :| 0 <= p < |a| && a[p] == x;
          assert p != 0;
          assert a[1..][p - 1] == x;
        }
      }
      StrictlySortedUnique(a[1..], b[1..]);
      assert a == [a[0]] + a[1..] && b == [b[0]] + b[1..];
    } else {
      HeadMember(a);
      HeadMember(b);
    }
  }

  lemma HeadMember(a: seq<Room>)
    ensures a == [] || a[0] in a
  {
  }

  /** Inserts `x` in front of the first room it does not sort after, so `x`
      stays ahead of rooms with the same key that came later in the input. */
  function Insert(x: Room, s: seq<Room>): (r: seq<Room>)
    ensures |r| == |s| + 1
    ensures multiset(r) == multiset(s) + multiset{x}
    ensures forall y :: y in r <==> y == x || y in s
    ensures Sorted(s) ==> Sorted(r)
  {
    if s == [] then [x]
    else if RoomLe(x, s[0]) then [x] + s
    else
      var rest := Insert(x, s[1..]);
      assert Sorted(s) ==> Sorted([s[0]] + rest) by {
        if Sorted(s) {
          forall k | 0 <= k < |rest| ensures RoomLe(s[0], rest[k]) {
            assert rest[k] in rest;
          }
        }
      }
      assert s == [s[0]] + s[1..];
      [s[0]] + rest
  }

  /** sortRoomsDeterministic: a sorted copy of `rooms`, by insertion, stable
      like Array.prototype.sort. */
  function SortRooms(rooms: seq<Room>): (r: seq<Room>)
    ensures |r| == |rooms|
    ensures Sorted(r)
    ensures multiset(r) == multiset(rooms)
  {
    if rooms == [] then []
    else
      assert rooms == [rooms[0]] + rooms[1..];
      Insert(rooms[0], SortRooms(rooms[1..]))
  }

  /** Sorting a sequence that is already in canonical order gives it back unchanged. */
  lemma {:induction false} SortRoomsOfSorted(rooms: seq<Room>)
    requires Sorted(rooms)
    ensures SortRooms(rooms) == rooms
  {
    if rooms != [] {
      SortRoomsOfSorted(rooms[1..]);
      assert rooms == [rooms[0]] + rooms[1..];
    }
  }

  /** Any two sorted arrangements of the same rooms agree on floor and room
      number position by position (they can only differ in the order of
      rooms that share a key). */
  lemma {:induction false} SortedPermutationsSameKeys(a: seq<Room>, b: seq<Room>)
    requires Sorted(a) && Sorted(b)
    requires multiset(a) == multiset(b)
    ensures SameKeys(a, b)
    decreases |a|
  {
    assert |a| == |multiset(a)| == |multiset(b)| == |b|;
    if a != [] {
      var j := HeadPosition(a, b);
      SortedPrefixSameKey(b, j);
      var b' := b[..j] + b[j + 1..];
      SortedRemove(b, j);
      assert a == [a[0]] + a[1..];
      assert multiset(a) == multiset{a[0]} + multiset(a[1..]);
      SortedPermutationsSameKeys(a[1..], b');
      SameKeysAfterRemove(a, b, j);
    }
  }

  /** The first room of `a` sits in `b` at a position whose key is b's first key. */
  lemma HeadPosition(a: seq<Room>, b: seq<Room>) returns (j: nat)
    requires Sorted(a) && Sorted(b) && multiset(a) == multiset(b) && a != []
    ensures j < |b| && b[j] == a[0] && SameKey(b[0], b[j])
  {
    assert a[0] in multiset(b);
    j :| 0 <= j < |b| && b[j] == a[0];
    assert b[0] in multiset(a);
    var i :| 0 <= i < |a| && a[i] == b[0];
    assert RoomLe(b[0], b[j]) || j == 0;
    assert RoomLe(a[0], a[i]) || i == 0;
  }

  /** Removing position `j` of `b`, whose key is shared by every earlier
      room, and pairing the rest with the tail of `a` pairs equal keys. */
  lemma SameKeysAfterRemove(a: seq<Room>, b: seq<Room>, j: nat)
    requires |a| == |b| && j < |b| && b[j] == a[0]
    requires forall k :: 0 <= k <= j ==> SameKey(b[k], b[0])
    requires SameKeys(a[1..], b[..j] + b[j + 1..])
    ensures SameKeys(a, b)
  {
    var b' := b[..j] + b[j + 1..];
    forall k | 0 <= k < |a| ensures SameKey(a[k], b[k]) {
      if k > 0 {
        assert a[k] == a[1..][k - 1];
        assert b'[k - 1] == if k <= j then b[k - 1] else b[k];
      }
    }
  }

  /** In a sorted sequence, every room up to one with the first room's key shares that key. */
  lemma SortedPrefixSameKey(b: seq<Room>, j: int)
    requires Sorted(b) && 0 <= j < |b| && SameKey(b[0], b[j])
    ensures forall k :: 0 <= k <= j ==> SameKey(b[k], b[0])
  {
    forall k | 0 < k <= j ensures SameKey(b[k], b[0]) {
      assert RoomLe(b[0], b[k]);
      assert k == j || RoomLe(b[k], b[j]);
    }
  }

  /** Removing one room keeps a sequence sorted and removes exactly that room. */
  lemma SortedRemove(b: seq<Room>, j: int)
    requires Sorted(b) && 0 <= j < |b|
    ensures Sorted(b[..j] + b[j + 1..])
    ensures multiset(b[..j] + b[j + 1..]) == multiset(b) - multiset{b[j]}
  {
    var b' := b[..j] + b[j + 1..];
    assert b == b[..j] + [b[j]] + b[j + 1..];
    assert multiset(b) == multiset(b[..j]) + multiset{b[j]} + multiset(b[j + 1..]);
    forall p, q | 0 <= p < q < |b'| ensures RoomLe(b'[p], b'[q]) {
      var p' := if p < j then p else p + 1;
      var q' := if q < j then q else q + 1;
      assert b'[p] == b[p'] && b'[q] == b[q'] && p' < q';
    }
  }

  /** The loop of compareCombinations over two already sorted sequences: the
      floor difference, else the room-number difference, at the first
      position where they differ; 0 if `s1` agrees with `s2` throughout.
      `s2` must be at least as long as `s1`: with a longer `s1` the code
      returns the first difference within `s2`'s length, and fails reading
      past the end of `s2` when that whole prefix agrees. */
  function CompareSorted(s1: seq<Room>, s2: seq<Room>): (r: int)
    requires |s1| <= |s2|
    ensures r == 0 <==> AgreeOnPrefix(s1, s2)
    ensures r < 0 <==> exists i :: FirstDifference(s1, s2, i) && RoomLt(s1[i], s2[i])
    ensures r > 0 <==> exists i :: FirstDifference(s1, s2, i) && RoomLt(s2[i], s1[i])
  {
    if |s1| == 0 then 0
    else if s1[0].floor != s2[0].floor then
      assert FirstDifference(s1, s2, 0);
      s1[0].floor - s2[0].floor
    else if s1[0].roomNumber != s2[0].roomNumber then
      assert FirstDifference(s1, s2, 0);
      s1[0].roomNumber - s2[0].roomNumber
    else
      var r := CompareSorted(s1[1..], s2[1..]);
      FirstDifferenceShift(s1, s2);
      r
  }

  /** `s1` agrees with the start of `s2` in floor and room number at every position. */
  predicate AgreeOnPrefix(s1: seq<Room>, s2: seq<Room>) {
    |s1| <= |s2| && forall i :: 0 <= i < |s1| ==> SameKey(s1[i], s2[i])
  }

  /** Position `i` is the first at which `s1` and `s2` differ in floor or room number. */
  predicate FirstDifference(s1: seq<Room>, s2: seq<Room>, i: int) {
    0 <= i < |s1| && i < |s2| && !SameKey(s1[i], s2[i])
    && forall j :: 0 <= j < i ==> SameKey(s1[j], s2[j])
  }

  lemma FirstDifferenceShift(s1: seq<Room>, s2: seq<Room>)
    requires 0 < |s1| <= |s2| && SameKey(s1[0], s2[0])
    ensures forall i :: FirstDifference(s1, s2, i) <==> i > 0 && FirstDifference(s1[1..], s2[1..], i - 1)
  {
    forall i | FirstDifference(s1[1..], s2[1..], i - 1) && i > 0 ensures FirstDifference(s1, s2, i) {
      forall j | 0 <= j < i ensures SameKey(s1[j], s2[j]) {
        if j > 0 { assert s1[j] == s1[1..][j - 1] && s2[j] == s2[1..][j - 1]; }
      }
    }
  }

  /** compareCombinations: compares two combinations by their sorted forms. */
  function CompareCombinations(combo1: seq<Room>, combo2: seq<Room>): (r: int)
    requires |combo1| <= |combo2|
    ensures r == 0 <==> AgreeOnPrefix(SortRooms(combo1), SortRooms(combo2))
  {
    var sorted1 := SortRooms(combo1);
    var sorted2 := SortRooms(combo2);
    CompareSorted(sorted1, sorted2)
  }

  /** Swapping the arguments flips the sign of the comparison. */
  lemma {:induction false} CompareSortedAntisymmetric(s1: seq<Room>, s2: seq<Room>)
    requires |s1| == |s2|
    ensures CompareSorted(s1, s2) < 0 <==> CompareSorted(s2, s1) > 0
    ensures CompareSorted(s1, s2) == 0 <==> CompareSorted(s2, s1) == 0
  {
    if |s1| > 0 && SameKey(s1[0], s2[0]) {
      CompareSortedAntisymmetric(s1[1..], s2[1..]);
    }
  }

  /** The comparison is a total preorder on sequences of one length: transitive. */
  lemma {:induction false} CompareSortedTransitive(s1: seq<Room>, s2: seq<Room>, s3: seq<Room>)
    requires |s1| == |s2| == |s3|
    requires CompareSorted(s1, s2) <= 0 && CompareSorted(s2, s3) <= 0
    ensures CompareSorted(s1, s3) <= 0
  {
    if |s1| > 0 && SameKey(s1[0], s2[0]) && SameKey(s2[0], s3[0]) {
      CompareSortedTransitive(s1[1..], s2[1..], s3[1..]);
    }
  }

  /** The comparison sees only floors and room numbers. */
  lemma {:induction false} CompareSortedRespectsKeys(s1: seq<Room>, t1: seq<Room>, s2: seq<Room>)
    requires SameKeys(s1, t1) && |s1| <= |s2|
    ensures CompareSorted(s1, s2) == CompareSorted(t1, s2)
  {
    if |s1| > 0 {
      CompareSortedRespectsKeys(s1[1..], t1[1..], s2[1..]);
    }
  }

  /** compareCombinations is antisymmetric on combinations of one size. */
  lemma CompareCombinationsAntisymmetric(combo1: seq<Room>, combo2: seq<Room>)
    requires |combo1| == |combo2|
    ensures CompareCombinations(combo1, combo2) < 0 <==> CompareCombinations(combo2, combo1) > 0
    ensures CompareCombinations(combo1, combo2) == 0 <==> CompareCombinations(combo2, combo1) == 0
  {
    CompareSortedAntisymmetric(SortRooms(combo1), SortRooms(combo2));
  }

  /** compareCombinations is transitive on combinations of one size. */
  lemma CompareCombinationsTransitive(combo1: seq<Room>, combo2: seq<Room>, combo3: seq<Room>)
    requires |combo1| == |combo2| == |combo3|
    requires CompareCombinations(combo1, combo2) <= 0 && CompareCombinations(combo2, combo3) <= 0
    ensures CompareCombinations(combo1, combo3) <= 0
  {
    CompareSortedTransitive(SortRooms(combo1), SortRooms(combo2), SortRooms(combo3));
  }

  /** The comparison sees only floors and room numbers of the second list either. */
  lemma {:induction false} CompareSortedRespectsKeysRight(s1: seq<Room>, s2: seq<Room>, t2: seq<Room>)
    requires SameKeys(s2, t2) && |s1| <= |s2|
    ensures CompareSorted(s1, s2) == CompareSorted(s1, t2)
  {
    if |s1| > 0 {
      CompareSortedRespectsKeysRight(s1[1..], s2[1..], t2[1..]);
    }
  }

  /** Reordering the rooms of either combination does not change the
      outcome: combinations are compared as multisets of rooms. */
  lemma CompareCombinationsIgnoresOrder(combo1: seq<Room>, other1: seq<Room>, combo2: seq<Room>, other2: seq<Room>)
    requires multiset(combo1) == multiset(other1) && multiset(combo2) == multiset(other2)
    requires |combo1| <= |combo2| && |other1| <= |other2|
    ensures CompareCombinations(combo1, combo2) == CompareCombinations(other1, other2)
  {
    assert |other2| == |combo2| by {
      assert |multiset(other2)| == |multiset(combo2)|;
    }
    SortedPermutationsSameKeys(SortRooms(combo1), SortRooms(other1));
    SortedPermutationsSameKeys(SortRooms(combo2), SortRooms(other2));
    CompareSortedRespectsKeys(SortRooms(combo1), SortRooms(other1), SortRooms(combo2));
    CompareSortedRespectsKeysRight(SortRooms(other1), SortRooms(combo2), SortRooms(other2));
  }
}
