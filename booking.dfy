/** Selection of the rooms to book: getAvailableRooms and bookOptimalRooms
    in src/utils/roomUtils.js. */
module Booking {
  import opened Rooms
  import opened Travel
  import opened Combinations

  datatype Option<T> = None | Some(value: T)

  /** The failures bookOptimalRooms reports in its `error` field (as text in the code). */
  datatype BookingError =
    | InsufficientRooms(available: nat, requested: int)

  /** The record bookOptimalRooms returns. */
  datatype BookingResult = BookingResult(
    selectedRooms: seq<Room>,
    travelTime: TravelTime,
    combinationsEvaluated: nat,
    nextBestTravelTime: int,
    error: Option<BookingError>)

  /** The largest request bookOptimalRooms serves. */
  const MaxRooms := 5

  /** getAvailableRooms: the unbooked rooms, in pool order. */
  function GetAvailableRooms(allRooms: seq<Room>): (r: seq<Room>)
    ensures forall x :: x in r <==> x in allRooms && !x.booked
    ensures |r| <= |allRooms|
    ensures StrictlySorted(allRooms) ==> StrictlySorted(r)
  {
    if allRooms == [] then []
    else
      var rest := GetAvailableRooms(allRooms[1..]);
      assert allRooms == [allRooms[0]] + allRooms[1..];
      assert StrictlySorted(allRooms) ==> StrictlySorted(allRooms[1..]) && forall x :: x in rest ==> RoomLt(allRooms[0], x);
      if allRooms[0].booked then rest else [allRooms[0]] + rest
  }

  /** Position `i` holds the first unbooked room of the pool. */
  predicate IsFirstAvailable(allRooms: seq<Room>, i: int) {
    0 <= i < |allRooms| && !allRooms[i].booked && forall j :: 0 <= j < i ==> allRooms[j].booked
  }

  /** The first available room is the first unbooked room in pool order. */
  lemma {:induction false} AvailableHead(allRooms: seq<Room>)
    requires GetAvailableRooms(allRooms) != []
    ensures exists i :: IsFirstAvailable(allRooms, i) && GetAvailableRooms(allRooms)[0] == allRooms[i]
  {
    if allRooms[0].booked {
      AvailableHead(allRooms[1..]);
      var i :| IsFirstAvailable(allRooms[1..], i) && GetAvailableRooms(allRooms[1..])[0] == allRooms[1..][i];
      assert IsFirstAvailable(allRooms, i + 1);
    } else {
      assert IsFirstAvailable(allRooms, 0);
    }
  }

  /** The order the code sorts scored combinations into: by total travel
      time, ties by compareCombinations. It only compares combinations of
      one size. */
  predicate RankLe(combo1: seq<Room>, combo2: seq<Room>) {
    && |combo1| == |combo2|
    && var t1, t2 := TotalTravel(combo1).total, TotalTravel(combo2).total;
       t1 < t2 || (t1 == t2 && CompareCombinations(combo1, combo2) <= 0)
  }

  lemma RankLeTotal(combo1: seq<Room>, combo2: seq<Room>)
    requires |combo1| == |combo2|
    ensures RankLe(combo1, combo2) || RankLe(combo2, combo1)
  {
    CompareCombinationsAntisymmetric(combo1, combo2);
  }

  lemma RankLeTransitive(combo1: seq<Room>, combo2: seq<Room>, combo3: seq<Room>)
    requires RankLe(combo1, combo2) && RankLe(combo2, combo3)
    ensures RankLe(combo1, combo3)
  {
    if TotalTravel(combo1).total == TotalTravel(combo2).total == TotalTravel(combo3).total {
      CompareCombinationsTransitive(combo1, combo2, combo3);
    }
  }

  /** `b` is the combination a stable sort by RankLe puts first: no
      combination ranks below it, and none before it ranks as low. */
  predicate IsBestIndex(cands: seq<seq<Room>>, b: int) {
    && 0 <= b < |cands|
    && (forall j :: 0 <= j < |cands| ==> RankLe(cands[b], cands[j]))
    && (forall j :: 0 <= j < b ==> !RankLe(cands[j], cands[b]))
  }

  /** `v` is the total of the combination ranked second, or the winner's own
      total when there is only one. */
  predicate IsNextBest(cands: seq<seq<Room>>, b: int, v: int) {
    && 0 <= b < |cands|
    && (|cands| == 1 ==> v == TotalTravel(cands[b]).total)
    && (|cands| > 1 ==>
          && (exists j :: 0 <= j < |cands| && j != b && v == TotalTravel(cands[j]).total)
          && (forall j :: 0 <= j < |cands| && j != b ==> v <= TotalTravel(cands[j]).total))
  }

  /** The outcome bookOptimalRooms promises once 2 <= k <= 5 rooms are available. */
  ghost predicate OptimalBooking(availableRooms: seq<Room>, k: nat, r: BookingResult) {
    var cands := AllCombinations(availableRooms, k);
    && (exists b :: IsBestIndex(cands, b)
         && r.selectedRooms == SortRooms(cands[b])
         && r.travelTime == TotalTravel(cands[b])
         && IsNextBest(cands, b, r.nextBestTravelTime))
    && r.combinationsEvaluated == |cands|
    && r.error == None
  }

  /** bookOptimalRooms: validate the request, then score every combination
      of available rooms and keep the best one and the runner-up's total. */
  method BookOptimalRooms(allRooms: seq<Room>, numRooms: int) returns (r: BookingResult)
    ensures numRooms <= 0 || numRooms > MaxRooms ==> r == BookingResult([], Zero, 0, 0, None)
    ensures 1 <= numRooms <= MaxRooms && |GetAvailableRooms(allRooms)| < numRooms ==>
              r == BookingResult([], Zero, 0, 0,
                                 Some(InsufficientRooms(|GetAvailableRooms(allRooms)|, numRooms)))
    ensures numRooms == 1 && |GetAvailableRooms(allRooms)| >= 1 ==>
              r == BookingResult([GetAvailableRooms(allRooms)[0]], Zero, |GetAvailableRooms(allRooms)|, 0, None)
    ensures 2 <= numRooms <= MaxRooms && |GetAvailableRooms(allRooms)| >= numRooms ==>
              OptimalBooking(GetAvailableRooms(allRooms), numRooms, r)
  {
    if numRooms <= 0 || numRooms > MaxRooms {
      return BookingResult([], Zero, 0, 0, None);
    }
    var availableRooms := GetAvailableRooms(allRooms);
    if |availableRooms| < numRooms {
      return BookingResult([], Zero, 0, 0, Some(InsufficientRooms(|availableRooms|, numRooms)));
    }
    if numRooms == 1 {
      return BookingResult([availableRooms[0]], Zero, |availableRooms|, 0, None);
    }
    r := BookAmongCombinations(availableRooms, numRooms);
  }

  /** roomUtils.js:174-209, the rest of bookOptimalRooms once 2 <= numRooms
      <= the number of available rooms: generate every combination, rank them, and report the
      best one sorted, its travel time, the runner-up's total and the count. */
  method BookAmongCombinations(availableRooms: seq<Room>, numRooms: nat) returns (r: BookingResult)
    requires 2 <= numRooms <= |availableRooms|
    ensures OptimalBooking(availableRooms, numRooms, r)
  {
    var allCombinations := GenerateCombinations(availableRooms, numRooms, 0, []);
    assert allCombinations == AllCombinations(availableRooms, numRooms);
    AllCombinationsCount(availableRooms, numRooms);
    BinomPositive(|availableRooms|, numRooms);
    // The code answers NoValidCombinations when this list is empty; with
    // 2 <= numRooms <= |availableRooms| that cannot happen.
    assert |allCombinations| > 0;
    var best, bestTime, nextBest := RankCombinations(allCombinations, numRooms);
    r := BookingResult(SortRooms(allCombinations[best]), bestTime, |allCombinations|, nextBest, None);
    assert IsBestIndex(allCombinations, best) && r.selectedRooms == SortRooms(allCombinations[best]);
  }

  /** `le` totally preorders the combinations of `cands`, and the totals `ts`
      never decrease along it. RankLe is such an order (RankLePreorder); the
      scan below is proved for any of them, so its proof never has to look
      inside travel times or the tie-break. */
  ghost predicate Preorder(cands: seq<seq<Room>>, le: (seq<Room>, seq<Room>) -> bool, ts: seq<int>) {
    && |ts| == |cands|
    && (forall p, q :: 0 <= p < |cands| && 0 <= q < |cands| ==> le(cands[p], cands[q]) || le(cands[q], cands[p]))
    && (forall p, q, r ::
          0 <= p < |cands| && 0 <= q < |cands| && 0 <= r < |cands| && le(cands[p], cands[q]) && le(cands[q], cands[r])
          ==> le(cands[p], cands[r]))
    && (forall p, q :: 0 <= p < |cands| && 0 <= q < |cands| && le(cands[p], cands[q]) ==> ts[p] <= ts[q])
  }

  /** Among the first `n` combinations, `b` is the one a stable sort by `le`
      puts first. */
  ghost predicate BestOf(cands: seq<seq<Room>>, le: (seq<Room>, seq<Room>) -> bool, n: int, b: int) {
    && 0 <= b < n <= |cands|
    && (forall j :: 0 <= j < n ==> le(cands[b], cands[j]))
    && (forall j :: 0 <= j < b ==> !le(cands[j], cands[b]))
  }

  /** The total travel time of each combination, in order. */
  function Totals(cands: seq<seq<Room>>): (ts: seq<int>)
    ensures |ts| == |cands|
    ensures forall j :: 0 <= j < |cands| ==> ts[j] == TotalTravel(cands[j]).total
  {
    if cands == [] then [] else [TotalTravel(cands[0]).total] + Totals(cands[1..])
  }

  /** Among the first `n` totals, `v` is the least of those other than the one at `b`. */
  predicate RunnerUpOf(ts: seq<int>, n: int, b: int, v: int) {
    && n <= |ts|
    && (exists j :: 0 <= j < n && j != b && v == ts[j])
    && (forall j :: 0 <= j < n && j != b ==> v <= ts[j])
  }

  /** What the scan knows after the first `n` combinations: `b` is the best
      of them and, once there are two, `v` is the least total of the others. */
  ghost predicate Scanned(cands: seq<seq<Room>>, le: (seq<Room>, seq<Room>) -> bool, ts: seq<int>,
                          n: int, b: int, hasNext: bool, v: int) {
    && BestOf(cands, le, n, b)
    && (hasNext <==> n > 1)
    && (hasNext ==> RunnerUpOf(ts, n, b, v))
  }

  /** roomUtils.js:186-202, in bookOptimalRooms: score every combination, order them
      by RankLe with a stable sort and read off the first one and the total
      of the second. Only those two ranks are observable, so one pass that
      keeps the best so far and the runner-up's total replaces the sort. */
  method RankCombinations(allCombinations: seq<seq<Room>>, ghost k: nat)
    returns (best: nat, bestTime: TravelTime, nextBest: int)
    requires |allCombinations| > 0
    requires forall j :: 0 <= j < |allCombinations| ==> |allCombinations[j]| == k
    ensures IsBestIndex(allCombinations, best)
    ensures bestTime == TotalTravel(allCombinations[best])
    ensures IsNextBest(allCombinations, best, nextBest)
  {
    ghost var ts := Totals(allCombinations);
    RankLePreorder(allCombinations, k);
    best := 0;
    bestTime := CalculateTotalTravelTime(allCombinations[0]);
    var hasNext := false;
    nextBest := 0;
    ScanStart(allCombinations, RankLe, ts);
    var i := 1;
    while i < |allCombinations|
      invariant 1 <= i <= |allCombinations|
      invariant Scanned(allCombinations, RankLe, ts, i, best, hasNext, nextBest)
      invariant bestTime == TotalTravel(allCombinations[best])
    {
      best, bestTime, nextBest := ScanNext(allCombinations, ts, k, i, best, bestTime, hasNext, nextBest);
      hasNext := true;
      i := i + 1;
    }
    if !hasNext {
      nextBest := bestTime.total;
    }
    RankingDone(allCombinations, ts, best, nextBest);
  }

  /** One step of the scan: combination `i` either sorts strictly ahead of the
      best so far and takes its place, the old best's total becoming the
      runner-up's, or it competes for the runner-up's total. */
  method ScanNext(allCombinations: seq<seq<Room>>, ghost ts: seq<int>, ghost k: nat, i: nat,
                  best: nat, bestTime: TravelTime, hasNext: bool, nextBest: int)
    returns (best': nat, bestTime': TravelTime, nextBest': int)
    requires forall j :: 0 <= j < |allCombinations| ==> |allCombinations[j]| == k
    requires ts == Totals(allCombinations) && Preorder(allCombinations, RankLe, ts)
    requires i < |allCombinations| && Scanned(allCombinations, RankLe, ts, i, best, hasNext, nextBest)
    requires bestTime == TotalTravel(allCombinations[best])
    ensures Scanned(allCombinations, RankLe, ts, i + 1, best', true, nextBest')
    ensures bestTime' == TotalTravel(allCombinations[best'])
  {
    var t := CalculateTotalTravelTime(allCombinations[i]);
    // Does combination i sort strictly ahead of the best one so far?
    var ahead := t.total < bestTime.total
                 || (t.total == bestTime.total && CompareCombinations(allCombinations[best], allCombinations[i]) > 0);
    AheadIff(allCombinations[best], allCombinations[i], bestTime, t);
    if ahead {
      ScanAhead(allCombinations, RankLe, ts, i, best, hasNext, nextBest);
      best', bestTime', nextBest' := i, t, bestTime.total;
    } else {
      nextBest' := if !hasNext || t.total < nextBest then t.total else nextBest;
      ScanBehind(allCombinations, RankLe, ts, i, best, hasNext, nextBest, nextBest');
      best', bestTime' := best, bestTime;
    }
  }

  /** The test the scan makes on each combination decides exactly whether it
      sorts strictly ahead of the best one so far. */
  lemma AheadIff(best: seq<Room>, cand: seq<Room>, bestTime: TravelTime, t: TravelTime)
    requires |best| == |cand|
    requires bestTime == TotalTravel(best) && t == TotalTravel(cand)
    ensures (t.total < bestTime.total || (t.total == bestTime.total && CompareCombinations(best, cand) > 0))
            <==> !RankLe(best, cand)
  {
  }

  /** RankLe totally preorders combinations of one size, consistently with their totals. */
  lemma RankLePreorder(cands: seq<seq<Room>>, k: nat)
    requires forall j :: 0 <= j < |cands| ==> |cands[j]| == k
    ensures Preorder(cands, RankLe, Totals(cands))
  {
    forall p, q | 0 <= p < |cands| && 0 <= q < |cands|
      ensures RankLe(cands[p], cands[q]) || RankLe(cands[q], cands[p])
    {
      RankLeTotal(cands[p], cands[q]);
    }
    forall p, q, r | 0 <= p < |cands| && 0 <= q < |cands| && 0 <= r < |cands|
                     && RankLe(cands[p], cands[q]) && RankLe(cands[q], cands[r])
      ensures RankLe(cands[p], cands[r])
    {
      RankLeTransitive(cands[p], cands[q], cands[r]);
    }
    var ts := Totals(cands);
    forall p, q | 0 <= p < |cands| && 0 <= q < |cands| && RankLe(cands[p], cands[q])
      ensures ts[p] <= ts[q]
    {
      assert ts[p] == TotalTravel(cands[p]).total && ts[q] == TotalTravel(cands[q]).total;
    }
  }

  /** After the last combination the scan's bookkeeping is the sorted order's
      first element and second total. */
  lemma RankingDone(cands: seq<seq<Room>>, ts: seq<int>, best: nat, v: int)
    requires ts == Totals(cands)
    requires BestOf(cands, RankLe, |cands|, best)
    requires |cands| > 1 ==> RunnerUpOf(ts, |cands|, best, v)
    requires |cands| == 1 ==> v == TotalTravel(cands[best]).total
    ensures IsBestIndex(cands, best)
    ensures IsNextBest(cands, best, v)
  {
  }

  /** Before the scan the first combination is the best of itself. */
  lemma ScanStart(cands: seq<seq<Room>>, le: (seq<Room>, seq<Room>) -> bool, ts: seq<int>)
    requires |cands| > 0 && Preorder(cands, le, ts)
    ensures Scanned(cands, le, ts, 1, 0, false, 0)
  {
    assert le(cands[0], cands[0]);
  }

  /** A combination that sorts strictly ahead of the best so far takes its
      place, and the old best's total becomes the runner-up's. */
  lemma ScanAhead(cands: seq<seq<Room>>, le: (seq<Room>, seq<Room>) -> bool, ts: seq<int>,
                  i: nat, best: nat, hasNext: bool, v: int)
    requires Preorder(cands, le, ts)
    requires i < |cands| && Scanned(cands, le, ts, i, best, hasNext, v)
    requires !le(cands[best], cands[i])
    ensures Scanned(cands, le, ts, i + 1, i, true, ts[best])
  {
    NewBest(cands, le, ts, best, i);
    forall j | 0 <= j < i ensures ts[best] <= ts[j] {
      assert le(cands[best], cands[j]);
    }
    RunnerUpAhead(ts, best, i);
  }

  /** Otherwise the best stays, and the runner-up's total is the smaller of
      the old one and the newcomer's. */
  lemma ScanBehind(cands: seq<seq<Room>>, le: (seq<Room>, seq<Room>) -> bool, ts: seq<int>,
                   i: nat, best: nat, hasNext: bool, v: int, v': int)
    requires Preorder(cands, le, ts)
    requires i < |cands| && Scanned(cands, le, ts, i, best, hasNext, v)
    requires le(cands[best], cands[i])
    requires v' == if !hasNext || ts[i] < v then ts[i] else v
    ensures Scanned(cands, le, ts, i + 1, best, true, v')
  {
    RunnerUpBehind(ts, best, i, hasNext, v, v');
  }

  /** When a new best arrives, the old best's total is the least of the others. */
  lemma RunnerUpAhead(ts: seq<int>, best: nat, i: nat)
    requires best < i < |ts|
    requires forall j :: 0 <= j < i ==> ts[best] <= ts[j]
    ensures RunnerUpOf(ts, i + 1, i, ts[best])
  {
    assert 0 <= best < i + 1 && best != i && ts[best] == ts[best];
  }

  /** Otherwise the runner-up's total is the smaller of the old one and the newcomer's. */
  lemma RunnerUpBehind(ts: seq<int>, best: nat, i: nat, hasNext: bool, v: int, v': int)
    requires best < i < |ts|
    requires hasNext ==> RunnerUpOf(ts, i, best, v)
    requires !hasNext ==> i == 1
    requires v' == if !hasNext || ts[i] < v then ts[i] else v
    ensures RunnerUpOf(ts, i + 1, best, v')
  {
    if hasNext && v' == v {
      var w :| 0 <= w < i && w != best && v == ts[w];
      assert 0 <= w < i + 1 && w != best && v' == ts[w];
    } else {
      assert 0 <= i < i + 1 && i != best && v' == ts[i];
    }
  }

  /** When combination `i` ranks strictly below the best of the first `i`,
      it is the best of the first `i + 1`. */
  lemma NewBest(cands: seq<seq<Room>>, le: (seq<Room>, seq<Room>) -> bool, ts: seq<int>, best: nat, i: nat)
    requires Preorder(cands, le, ts)
    requires i < |cands| && BestOf(cands, le, i, best)
    requires !le(cands[best], cands[i])
    ensures BestOf(cands, le, i + 1, i)
  {
    assert le(cands[i], cands[best]);
    forall j | 0 <= j < i ensures le(cands[i], cands[j]) && !le(cands[j], cands[i]) {
      assert le(cands[best], cands[j]);
    }
    assert le(cands[i], cands[i]);
  }

  /** Position `j` of the combination list holds the rooms of the j-th index choice. */
  lemma CandidateIsPick(availableRooms: seq<Room>, k: nat, j: nat)
    requires j < |AllCombinations(availableRooms, k)|
    ensures var c := Combos(|availableRooms|, k, 0)[j];
            && |c| == k && IsChoice(c, |availableRooms|, 0)
            && AllCombinations(availableRooms, k)[j] == Pick(availableRooms, c)
  {
    AllCombinationsExactly(availableRooms, k);
    CombosCount(|availableRooms|, k, 0);
    assert Combos(|availableRooms|, k, 0)[j] in Combos(|availableRooms|, k, 0);
  }

  /** Every k-choice of positions appears in the combination list. */
  lemma PickIsCandidate(availableRooms: seq<Room>, k: nat, c: seq<nat>)
    requires |c| == k && IsChoice(c, |availableRooms|, 0)
    ensures exists j :: 0 <= j < |AllCombinations(availableRooms, k)|
                        && AllCombinations(availableRooms, k)[j] == Pick(availableRooms, c)
  {
    AllCombinationsExactly(availableRooms, k);
    CombosCount(|availableRooms|, k, 0);
    var cs := Combos(|availableRooms|, k, 0);
    var j :| 0 <= j < |cs| && cs[j] == c;
    assert AllCombinations(availableRooms, k)[j] == Pick(availableRooms, c);
  }

  lemma PickWithin(rooms: seq<Room>, c: seq<nat>)
    requires forall j :: 0 <= j < |c| ==> c[j] < |rooms|
    ensures forall x :: x in Pick(rooms, c) ==> x in rooms
  {
    forall x | x in Pick(rooms, c) ensures x in rooms {
      var p :| 0 <= p < |c| && Pick(rooms, c)[p] == x;
      assert rooms[c[p]] == x;
    }
  }

  /** The booked rooms are k distinct available rooms (a k-choice of
      positions), listed in canonical order, and the reported travel time is
      theirs. The count of combinations evaluated is C(|availableRooms|, k). */
  lemma OptimalBookingSelection(availableRooms: seq<Room>, k: nat, r: BookingResult)
    requires OptimalBooking(availableRooms, k, r)
    ensures |r.selectedRooms| == k && Sorted(r.selectedRooms)
    ensures exists c :: |c| == k && IsChoice(c, |availableRooms|, 0)
                        && multiset(r.selectedRooms) == multiset(Pick(availableRooms, c))
    ensures r.travelTime == TotalTravel(r.selectedRooms)
    ensures forall x :: x in r.selectedRooms ==> x in availableRooms
    ensures r.combinationsEvaluated == Binom(|availableRooms|, k)
  {
    var cands := AllCombinations(availableRooms, k);
    var b :| IsBestIndex(cands, b) && r.selectedRooms == SortRooms(cands[b])
             && r.travelTime == TotalTravel(cands[b]) && IsNextBest(cands, b, r.nextBestTravelTime);
    CandidateIsPick(availableRooms, k, b);
    AllCombinationsCount(availableRooms, k);
    var c := Combos(|availableRooms|, k, 0)[b];
    TotalTravelIgnoresOrder(cands[b], r.selectedRooms);
    PickWithin(availableRooms, c);
    assert forall x :: x in r.selectedRooms ==> x in multiset(cands[b]);
  }

  /** No k-choice of available rooms has a smaller total than the booking,
      and among those with the same total none compares before it. */
  lemma OptimalBookingIsMinimal(availableRooms: seq<Room>, k: nat, r: BookingResult, c: seq<nat>)
    requires OptimalBooking(availableRooms, k, r)
    requires |c| == k && IsChoice(c, |availableRooms|, 0)
    ensures r.travelTime.total <= TotalTravel(Pick(availableRooms, c)).total
    ensures r.travelTime.total == TotalTravel(Pick(availableRooms, c)).total ==>
              CompareCombinations(r.selectedRooms, Pick(availableRooms, c)) <= 0
  {
    var cands := AllCombinations(availableRooms, k);
    var b :| IsBestIndex(cands, b) && r.selectedRooms == SortRooms(cands[b])
             && r.travelTime == TotalTravel(cands[b]) && IsNextBest(cands, b, r.nextBestTravelTime);
    PickIsCandidate(availableRooms, k, c);
    var j :| 0 <= j < |cands| && cands[j] == Pick(availableRooms, c);
    assert RankLe(cands[b], cands[j]);
    CompareCombinationsIgnoresOrder(cands[b], r.selectedRooms, cands[j], cands[j]);
  }

  /** On a pool whose rooms have distinct places (strictly ordered, as every
      pool getAvailableRooms returns from the hotel is), the tie-break leaves
      no ties: two k-choices that compare equal are the same choice. */
  lemma NoTies(availableRooms: seq<Room>, k: nat, c1: seq<nat>, c2: seq<nat>)
    requires StrictlySorted(availableRooms)
    requires |c1| == k && IsChoice(c1, |availableRooms|, 0)
    requires |c2| == k && IsChoice(c2, |availableRooms|, 0)
    requires CompareCombinations(Pick(availableRooms, c1), Pick(availableRooms, c2)) == 0
    ensures c1 == c2
  {
    var p1, p2 := Pick(availableRooms, c1), Pick(availableRooms, c2);
    PickStrictlySorted(availableRooms, c1);
    PickStrictlySorted(availableRooms, c2);
    SortRoomsOfSorted(p1);
    SortRoomsOfSorted(p2);
    forall i | 0 <= i < k ensures c1[i] == c2[i] {
      assert SameKey(availableRooms[c1[i]], availableRooms[c2[i]]) by {
        assert SameKey(p1[i], p2[i]);
      }
      SamePlaceSamePosition(availableRooms, c1[i], c2[i]);
    }
  }

  /** Rooms picked at increasing positions of a strictly sorted list are strictly sorted. */
  lemma PickStrictlySorted(rooms: seq<Room>, c: seq<nat>)
    requires StrictlySorted(rooms) && IsChoice(c, |rooms|, 0)
    ensures StrictlySorted(Pick(rooms, c))
  {
    var r := Pick(rooms, c);
    forall i, j | 0 <= i < j < |r| ensures RoomLt(r[i], r[j]) {
      assert r[i] == rooms[c[i]] && r[j] == rooms[c[j]] && c[i] < c[j];
    }
  }

  /** In a strictly ordered list, two positions holding rooms at the same place are one. */
  lemma SamePlaceSamePosition(rooms: seq<Room>, x: nat, y: nat)
    requires StrictlySorted(rooms) && x < |rooms| && y < |rooms|
    requires SameKey(rooms[x], rooms[y])
    ensures x == y
  {
  }

  /** On such a pool the booked rooms are the unique optimum: any other
      k-choice either costs more or ties and loses the tie-break strictly. */
  lemma OptimalBookingStrict(availableRooms: seq<Room>, k: nat, r: BookingResult, c: seq<nat>)
    requires OptimalBooking(availableRooms, k, r) && StrictlySorted(availableRooms)
    requires |c| == k && IsChoice(c, |availableRooms|, 0)
    requires multiset(r.selectedRooms) != multiset(Pick(availableRooms, c))
    ensures |r.selectedRooms| == k
    ensures r.travelTime.total < TotalTravel(Pick(availableRooms, c)).total
            || CompareCombinations(r.selectedRooms, Pick(availableRooms, c)) < 0
  {
    OptimalBookingSelection(availableRooms, k, r);
    OptimalBookingIsMinimal(availableRooms, k, r, c);
    var c0 :| |c0| == k && IsChoice(c0, |availableRooms|, 0)
              && multiset(r.selectedRooms) == multiset(Pick(availableRooms, c0));
    if CompareCombinations(r.selectedRooms, Pick(availableRooms, c)) == 0 {
      CompareCombinationsIgnoresOrder(r.selectedRooms, Pick(availableRooms, c0), Pick(availableRooms, c), Pick(availableRooms, c));
      NoTies(availableRooms, k, c0, c);
    }
  }

  /** The runner-up's total is never below the winner's, and when there is
      more than one combination it is the total of another k-choice than the
      one booked. */
  lemma OptimalBookingRunnerUp(availableRooms: seq<Room>, k: nat, r: BookingResult)
    requires OptimalBooking(availableRooms, k, r)
    ensures r.travelTime.total <= r.nextBestTravelTime
    ensures r.combinationsEvaluated > 1 ==>
              exists c1, c2 :: && c1 != c2
                               && |c1| == k && IsChoice(c1, |availableRooms|, 0)
                               && |c2| == k && IsChoice(c2, |availableRooms|, 0)
                               && multiset(r.selectedRooms) == multiset(Pick(availableRooms, c1))
                               && r.nextBestTravelTime == TotalTravel(Pick(availableRooms, c2)).total
  {
    var cands := AllCombinations(availableRooms, k);
    var b :| IsBestIndex(cands, b) && r.selectedRooms == SortRooms(cands[b])
             && r.travelTime == TotalTravel(cands[b]) && IsNextBest(cands, b, r.nextBestTravelTime);
    if |cands| > 1 {
      var j :| 0 <= j < |cands| && j != b && r.nextBestTravelTime == TotalTravel(cands[j]).total;
      assert RankLe(cands[b], cands[j]);
      CandidateIsPick(availableRooms, k, j);
      CandidateIsPick(availableRooms, k, b);
      AllCombinationsExactly(availableRooms, k);
      var cs := Combos(|availableRooms|, k, 0);
      assert cs[b] != cs[j];
      assert multiset(r.selectedRooms) == multiset(Pick(availableRooms, cs[b]));
    }
  }

  /** bookOptimalRooms is a function of its inputs: two outcomes that both
      meet OptimalBooking are the same record. */
  lemma OptimalBookingUnique(availableRooms: seq<Room>, k: nat, r1: BookingResult, r2: BookingResult)
    requires OptimalBooking(availableRooms, k, r1) && OptimalBooking(availableRooms, k, r2)
    ensures r1 == r2
  {
    var cands := AllCombinations(availableRooms, k);
    var b1 :| IsBestIndex(cands, b1) && r1.selectedRooms == SortRooms(cands[b1])
              && r1.travelTime == TotalTravel(cands[b1]) && IsNextBest(cands, b1, r1.nextBestTravelTime);
    var b2 :| IsBestIndex(cands, b2) && r2.selectedRooms == SortRooms(cands[b2])
              && r2.travelTime == TotalTravel(cands[b2]) && IsNextBest(cands, b2, r2.nextBestTravelTime);
    // Each ranks no worse than the other, so neither can lie before the other.
    assert RankLe(cands[b1], cands[b2]) && RankLe(cands[b2], cands[b1]);
    if |cands| > 1 {
      var j1 :| 0 <= j1 < |cands| && j1 != b1 && r1.nextBestTravelTime == TotalTravel(cands[j1]).total;
      var j2 :| 0 <= j2 < |cands| && j2 != b1 && r2.nextBestTravelTime == TotalTravel(cands[j2]).total;
    }
  }
}
