/** The test case loadTestCase sets up, booked for four rooms: what
    bookOptimalRooms answers on it under the travel-time metric. */
module Scenario {
  import opened Rooms
  import opened Travel
  import opened Combinations
  import opened Booking
  import opened Hotel

  /** The travel time between the i-th and j-th free rooms of the test case. */
  function Step(i: int, j: int): int {
    var dn := TestNumber(i) - TestNumber(j);
    var df := TestFloor(i) - TestFloor(j);
    (if dn < 0 then -dn else dn) + 2 * (if df < 0 then -df else df)
  }

  function Steps(c: seq<nat>): int
    requires |c| == 4
  {
    Step(c[0], c[1]) + Step(c[1], c[2]) + Step(c[2], c[3])
  }

  /** Walking four of the ten free rooms in order costs at least four minutes,
      and exactly four only for 101, 102, 202, 203 and for 101, 201, 202, 203. */
  lemma FourRoomCost(c: seq<nat>)
    requires |c| == 4 && IsChoice(c, 10, 0)
    ensures Steps(c) >= 4
    ensures Steps(c) == 4 ==> c == [0, 1, 5, 6] || c == [0, 4, 5, 6]
  {
    assert c == [c[0], c[1], c[2], c[3]];
    assert c[0] < c[1] < c[2] < c[3];
    StepBounds(c[0], c[1], c[2], c[3]);
  }

  lemma StepBounds(p: int, q: int, s: int, t: int)
    requires 0 <= p < q < s < t < 10
    ensures Step(p, q) + Step(q, s) + Step(s, t) >= 4
    ensures Step(p, q) + Step(q, s) + Step(s, t) == 4 ==>
              (p, q, s, t) == (0, 1, 5, 6) || (p, q, s, t) == (0, 4, 5, 6)
  {
  }

  /** The path cost of four rooms is the sum of the three steps between them. */
  lemma PathCostOfFour(rooms: seq<Room>)
    requires |rooms| == 4
    ensures PathCost(rooms) == Add(Add(CalculateTravelTime(rooms[0], rooms[1]),
                                       CalculateTravelTime(rooms[1], rooms[2])),
                                   CalculateTravelTime(rooms[2], rooms[3]))
  {
    assert rooms[..3][..2] == rooms[..2];
    assert rooms[..2][..1] == rooms[..1];
    assert PathCost(rooms[..2]) == Add(Zero, CalculateTravelTime(rooms[0], rooms[1]));
  }

  /** `free` lists the ten free rooms of the test case, in hotel order. */
  predicate IsTestCaseFree(free: seq<Room>) {
    |free| == 10 && forall i :: 0 <= i < 10 ==> free[i] == TestRoom(i)
  }

  lemma TestCaseRoomsFree(free: seq<Room>)
    requires free == TestCaseRooms()
    ensures IsTestCaseFree(free)
  {
  }

  lemma TestCaseFreeSorted(free: seq<Room>)
    requires IsTestCaseFree(free)
    ensures StrictlySorted(free)
  {
    forall i, j | 0 <= i < j < |free| ensures RoomLt(free[i], free[j]) {
      assert TestFloor(i) <= TestFloor(j);
    }
  }

  /** The total travel time of four free rooms of the test case, picked at
      increasing positions, is the sum of the steps between them. */
  lemma ChoiceCost(free: seq<Room>, c: seq<nat>)
    requires IsTestCaseFree(free)
    requires |c| == 4 && IsChoice(c, 10, 0)
    ensures TotalTravel(Pick(free, c)).total == Steps(c)
  {
    var r := Pick(free, c);
    TestCaseFreeSorted(free);
    PickStrictlySorted(free, c);
    TotalTravelOfSorted(r);
    PathCostOfFour(r);
    assert r[0] == TestRoom(c[0]) && r[1] == TestRoom(c[1]) && r[2] == TestRoom(c[2]) && r[3] == TestRoom(c[3]);
    StepCost(c[0], c[1]);
    StepCost(c[1], c[2]);
    StepCost(c[2], c[3]);
  }

  lemma StepCost(i: int, j: int)
    ensures CalculateTravelTime(TestRoom(i), TestRoom(j)).total == Step(i, j)
  {
  }

  lemma ChoiceBounds(free: seq<Room>, c: seq<nat>)
    requires IsTestCaseFree(free)
    requires |c| == 4 && IsChoice(c, |free|, 0)
    ensures TotalTravel(Pick(free, c)).total >= 4
    ensures TotalTravel(Pick(free, c)).total == 4 ==> c == Winner || c == RunnerUp
  {
    ChoiceCost(free, c);
    FourRoomCost(c);
  }

  /** The four first-floor rooms 101, 102, 105, 106 total five minutes, one
      more than the selection the booking returns on this pool. */
  lemma FirstFloorCost(free: seq<Room>)
    requires IsTestCaseFree(free)
    ensures var r := Pick(free, [0, 1, 2, 3]);
            |r| == 4 && r[0].id == 101 && r[1].id == 102 && r[2].id == 105 && r[3].id == 106
    ensures TotalTravel(Pick(free, [0, 1, 2, 3])).total == 5
  {
    ChoiceCost(free, [0, 1, 2, 3]);
  }

  /** The cheapest four rooms of the test case, by position, and the other
      combination with the same total. */
  const Winner: seq<nat> := [0, 1, 5, 6]
  const RunnerUp: seq<nat> := [0, 4, 5, 6]

  /** The rooms the worked example books: 101, 102, 202, 203. */
  const WinnerRooms := [Room(101, 1, 1, false), Room(102, 1, 2, false), Room(202, 2, 2, false), Room(203, 2, 3, false)]

  predicate IsWinner(w: seq<Room>) {
    && |w| == 4
    && w[0] == Room(101, 1, 1, false) && w[1] == Room(102, 1, 2, false)
    && w[2] == Room(202, 2, 2, false) && w[3] == Room(203, 2, 3, false)
  }

  /** The other combination totalling four minutes: 101, 201, 202, 203. */
  predicate IsRunnerUp(u: seq<Room>) {
    && |u| == 4
    && u[0] == Room(101, 1, 1, false) && u[1] == Room(201, 2, 1, false)
    && u[2] == Room(202, 2, 2, false) && u[3] == Room(203, 2, 3, false)
  }

  lemma WinnerIs(w: seq<Room>)
    requires IsWinner(w)
    ensures w == WinnerRooms
  {
  }

  lemma PickWinner(free: seq<Room>)
    requires IsTestCaseFree(free)
    ensures IsWinner(Pick(free, Winner))
    ensures IsRunnerUp(Pick(free, RunnerUp))
  {
    assert Pick(free, Winner) == [TestRoom(0), TestRoom(1), TestRoom(5), TestRoom(6)];
    assert Pick(free, RunnerUp) == [TestRoom(0), TestRoom(4), TestRoom(5), TestRoom(6)];
  }

  /** Walking 101, 102, 202, 203: one minute, a floor change, one minute. */
  lemma WinnerSteps(w: seq<Room>)
    requires |w| == 4
    requires w[0].floor == 1 && w[0].roomNumber == 1 && w[1].floor == 1 && w[1].roomNumber == 2
    requires w[2].floor == 2 && w[2].roomNumber == 2 && w[3].floor == 2 && w[3].roomNumber == 3
    ensures Add(Add(CalculateTravelTime(w[0], w[1]), CalculateTravelTime(w[1], w[2])),
                CalculateTravelTime(w[2], w[3])) == TravelTime(2, 2, 4)
  {
  }

  /** 101, 102, 202, 203 is in canonical order and costs two minutes along
      corridors plus two for the one floor change. */
  lemma WinnerCost(w: seq<Room>)
    requires IsWinner(w)
    ensures SortRooms(w) == w
    ensures TotalTravel(w) == TravelTime(2, 2, 4)
  {
    assert StrictlySorted(w);
    SortRoomsOfSorted(w);
    TotalTravelOfSorted(w);
    PathCostOfFour(w);
    WinnerSteps(w);
  }

  /** Of the two cheapest combinations, 101, 201, 202, 203 compares after
      101, 102, 202, 203: their second rooms differ and 102 is on the lower floor. */
  lemma TieBreak(u: seq<Room>, w: seq<Room>)
    requires IsRunnerUp(u) && IsWinner(w)
    ensures CompareCombinations(u, w) > 0
  {
    assert StrictlySorted(u) && StrictlySorted(w);
    SortRoomsOfSorted(u);
    SortRoomsOfSorted(w);
    assert FirstDifference(u, w, 1) && RoomLt(w[1], u[1]);
  }

  /** Every four-room choice of the test case costs at least four minutes,
      and only Winner and RunnerUp cost exactly four. */
  lemma TestCaseBounds(free: seq<Room>)
    requires IsTestCaseFree(free)
    ensures forall c :: |c| == 4 && IsChoice(c, |free|, 0) ==> TotalTravel(Pick(free, c)).total >= 4
    ensures forall c :: |c| == 4 && IsChoice(c, |free|, 0) && TotalTravel(Pick(free, c)).total == 4 ==>
              c == Winner || c == RunnerUp
  {
    forall c | |c| == 4 && IsChoice(c, |free|, 0)
      ensures TotalTravel(Pick(free, c)).total >= 4
      ensures TotalTravel(Pick(free, c)).total == 4 ==> c == Winner || c == RunnerUp
    {
      ChoiceBounds(free, c);
    }
  }

  /** The position in the combination list of the rooms an index choice picks. */
  lemma CandidateOf(avail: seq<Room>, k: nat, c: seq<nat>) returns (j: nat)
    requires |c| == k && IsChoice(c, |avail|, 0)
    ensures j < |AllCombinations(avail, k)| && AllCombinations(avail, k)[j] == Pick(avail, c)
  {
    PickIsCandidate(avail, k, c);
    j :| 0 <= j < |AllCombinations(avail, k)| && AllCombinations(avail, k)[j] == Pick(avail, c);
  }

  /** Every k-choice of `avail` costs at least `t`, only `cw` and `cu` cost
      exactly `t`, and `cu` compares after `cw`. */
  ghost predicate Forced(avail: seq<Room>, k: nat, cw: seq<nat>, cu: seq<nat>, t: int) {
    && |cw| == k && IsChoice(cw, |avail|, 0) && |cu| == k && IsChoice(cu, |avail|, 0)
    && (forall c :: |c| == k && IsChoice(c, |avail|, 0) ==> TotalTravel(Pick(avail, c)).total >= t)
    && (forall c :: |c| == k && IsChoice(c, |avail|, 0) && TotalTravel(Pick(avail, c)).total == t ==>
          c == cw || c == cu)
    && TotalTravel(Pick(avail, cw)).total == t && TotalTravel(Pick(avail, cu)).total == t
    && CompareCombinations(Pick(avail, cu), Pick(avail, cw)) > 0
  }

  /** Under Forced, the best-ranked combination is the one `cw` picks. */
  lemma ForcedBest(avail: seq<Room>, k: nat, b: nat, cw: seq<nat>, cu: seq<nat>, t: int)
    requires Forced(avail, k, cw, cu, t)
    requires IsBestIndex(AllCombinations(avail, k), b)
    ensures AllCombinations(avail, k)[b] == Pick(avail, cw)
  {
    var cands := AllCombinations(avail, k);
    CandidateIsPick(avail, k, b);
    var w := CandidateOf(avail, k, cw);
    assert RankLe(cands[b], cands[w]);
  }

  /** Under Forced, the runner-up total is `t`: `cu` is another candidate at `t`. */
  lemma ForcedNext(avail: seq<Room>, k: nat, b: nat, v: int, cw: seq<nat>, cu: seq<nat>, t: int)
    requires Forced(avail, k, cw, cu, t)
    requires b < |AllCombinations(avail, k)| && AllCombinations(avail, k)[b] == Pick(avail, cw)
    requires IsNextBest(AllCombinations(avail, k), b, v)
    ensures v == t
  {
    var u := CandidateOf(avail, k, cu);
    ComparedDiffer(Pick(avail, cu), Pick(avail, cw));
    CandidatesAtLeast(avail, k, t);
    NextBestIs(AllCombinations(avail, k), b, v, u, t);
  }

  /** Combinations that do not compare equal are different. */
  lemma ComparedDiffer(x: seq<Room>, y: seq<Room>)
    requires |x| <= |y| && CompareCombinations(x, y) != 0
    ensures x != y
  {
    assert AgreeOnPrefix(SortRooms(x), SortRooms(x));
  }

  /** A lower bound on the totals of all k-choices bounds every candidate. */
  lemma CandidatesAtLeast(avail: seq<Room>, k: nat, t: int)
    requires forall c :: |c| == k && IsChoice(c, |avail|, 0) ==> TotalTravel(Pick(avail, c)).total >= t
    ensures forall j :: 0 <= j < |AllCombinations(avail, k)| ==> TotalTravel(AllCombinations(avail, k)[j]).total >= t
  {
    forall j | 0 <= j < |AllCombinations(avail, k)|
      ensures TotalTravel(AllCombinations(avail, k)[j]).total >= t
    {
      CandidateIsPick(avail, k, j);
    }
  }

  /** When every candidate costs at least `t` and another one than the best
      costs exactly `t`, the runner-up total is `t`. */
  lemma NextBestIs(cands: seq<seq<Room>>, b: nat, v: int, u: nat, t: int)
    requires IsNextBest(cands, b, v)
    requires u < |cands| && u != b && TotalTravel(cands[u]).total == t
    requires forall j :: 0 <= j < |cands| ==> TotalTravel(cands[j]).total >= t
    ensures v == t
  {
  }

  /** When Forced holds, bookOptimalRooms books `cw` and reports `t` as the
      runner-up total. */
  lemma ForcedOutcome(avail: seq<Room>, k: nat, r: BookingResult, cw: seq<nat>, cu: seq<nat>, t: int)
    requires OptimalBooking(avail, k, r)
    requires Forced(avail, k, cw, cu, t)
    ensures r.selectedRooms == SortRooms(Pick(avail, cw))
    ensures r.travelTime == TotalTravel(Pick(avail, cw))
    ensures r.nextBestTravelTime == t
  {
    var cands := AllCombinations(avail, k);
    var b :| IsBestIndex(cands, b) && r.selectedRooms == SortRooms(cands[b])
             && r.travelTime == TotalTravel(cands[b]) && IsNextBest(cands, b, r.nextBestTravelTime);
    ForcedBest(avail, k, b, cw, cu, t);
    ForcedNext(avail, k, b, r.nextBestTravelTime, cw, cu, t);
  }

  /** The ten free rooms of the test case force Winner over RunnerUp at four minutes. */
  lemma TestCaseForced(free: seq<Room>)
    requires IsTestCaseFree(free)
    ensures Forced(free, 4, Winner, RunnerUp, 4)
  {
    assert IsChoice(Winner, |free|, 0) && IsChoice(RunnerUp, |free|, 0);
    TestCaseBounds(free);
    TestCasePair(free);
  }

  /** Winner and RunnerUp both total four minutes, and RunnerUp compares after Winner. */
  lemma TestCasePair(free: seq<Room>)
    requires IsTestCaseFree(free)
    ensures TotalTravel(Pick(free, Winner)).total == 4
    ensures TotalTravel(Pick(free, RunnerUp)).total == 4
    ensures CompareCombinations(Pick(free, RunnerUp), Pick(free, Winner)) > 0
  {
    PickWinner(free);
    WinnerCost(Pick(free, Winner));
    RunnerUpCost(Pick(free, RunnerUp));
    TieBreak(Pick(free, RunnerUp), Pick(free, Winner));
  }

  /** 101, 201, 202, 203 costs two minutes along corridors plus two for the floor change. */
  lemma RunnerUpCost(u: seq<Room>)
    requires IsRunnerUp(u)
    ensures TotalTravel(u).total == 4
  {
    assert StrictlySorted(u);
    TotalTravelOfSorted(u);
    PathCostOfFour(u);
    RunnerUpSteps(u);
  }

  /** Walking 101, 201, 202, 203: a floor change, then one minute twice. */
  lemma RunnerUpSteps(u: seq<Room>)
    requires |u| == 4
    requires u[0].floor == 1 && u[0].roomNumber == 1 && u[1].floor == 2 && u[1].roomNumber == 1
    requires u[2].floor == 2 && u[2].roomNumber == 2 && u[3].floor == 2 && u[3].roomNumber == 3
    ensures Add(Add(CalculateTravelTime(u[0], u[1]), CalculateTravelTime(u[1], u[2])),
                CalculateTravelTime(u[2], u[3])).total == 4
  {
  }

  /** Booking four rooms on the pool loadTestCase returns: bookOptimalRooms
      evaluates all C(10, 4) = 210 combinations and selects 101, 102, 202,
      203 (two minutes along corridors, two for the floor change); 101, 201,
      202, 203 also totals four minutes but compares later, so the runner-up
      total is four as well. */
  lemma WorkedExample(pool: seq<Room>, r: BookingResult)
    requires pool == TestCasePool()
    requires OptimalBooking(GetAvailableRooms(pool), 4, r)
    ensures r.selectedRooms == WinnerRooms
    ensures r.travelTime == TravelTime(2, 2, 4)
    ensures r.nextBestTravelTime == 4
    ensures r.combinationsEvaluated == 210
  {
    var free := GetAvailableRooms(pool);
    TestCaseAvailable(pool);
    TestCaseRoomsFree(free);
    BookedOnFree(free, r);
    CountOnFree(free, r);
  }

  /** loadTestCase followed by bookOptimalRooms(rooms, 4), end to end. */
  method BookTestCase() returns (r: BookingResult)
    ensures r.selectedRooms == WinnerRooms
    ensures r.travelTime == TravelTime(2, 2, 4)
    ensures r.nextBestTravelTime == 4
    ensures r.combinationsEvaluated == 210
    ensures r.error == None
  {
    var pool := LoadTestCase();
    TestCaseAvailable(pool);
    r := BookOptimalRooms(pool, 4);
    WorkedExample(pool, r);
  }

  /** The rooms and times bookOptimalRooms reports on the ten free rooms. */
  lemma BookedOnFree(free: seq<Room>, r: BookingResult)
    requires IsTestCaseFree(free) && OptimalBooking(free, 4, r)
    ensures r.selectedRooms == WinnerRooms
    ensures r.travelTime == TravelTime(2, 2, 4)
    ensures r.nextBestTravelTime == 4
  {
    TestCaseForced(free);
    ForcedOutcome(free, 4, r, Winner, RunnerUp, 4);
    PickWinner(free);
    WinnerCost(Pick(free, Winner));
    WinnerIs(Pick(free, Winner));
  }

  /** bookOptimalRooms scores C(10, 4) = 210 combinations of the ten free rooms. */
  lemma CountOnFree(free: seq<Room>, r: BookingResult)
    requires IsTestCaseFree(free) && OptimalBooking(free, 4, r)
    ensures r.combinationsEvaluated == 210
  {
    CombinationsOfFour(free);
    var n := |free|;
    assert n * (n - 1) * (n - 2) * (n - 3) == 5040;
  }

  /** Twenty-four times the number of four-room combinations of `avail` is
      n(n-1)(n-2)(n-3), for n available rooms. */
  lemma CombinationsOfFour(avail: seq<Room>)
    ensures 24 * |AllCombinations(avail, 4)| == |avail| * (|avail| - 1) * (|avail| - 2) * (|avail| - 3)
  {
    AllCombinationsCount(avail, 4);
    BinomFour(|avail|);
  }
}
