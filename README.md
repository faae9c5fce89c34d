# Hotel room reservation: optimal booking, modelled in Dafny

The modelled system books rooms in a hotel of 97 rooms. Floors 1 to 9 have rooms
1 to 10 each (ids 101-110 … 901-910), and floor 10 has rooms 1 to 7 (1001-1007).
Walking between two rooms costs one minute per room position along a corridor and
two minutes per floor. A guest asks for 1 to 5 rooms. The booking code scores
every combination of available rooms of that size. It scores a combination by
walking its rooms in (floor, room number) order. It returns the cheapest
combination, breaks ties by comparing the sorted rooms, and also reports the
runner-up's total and the number of combinations scored.

The model covers `src/utils/roomUtils.js`, module by module:

- `Rooms` (rooms.dfy): the room record; the deterministic sort by (floor, room
  number), given as an insertion-sort function; and `compareCombinations`.
- `Travel` (travel.dfy): `calculateTravelTime`, and `calculateTotalTravelTime`
  as a method with a loop, proved against the function `TotalTravel`.
- `Combinations` (combinations.dfy): `generateCombinations`, as the recursive
  method with its loop. It is proved against an enumeration of strictly
  increasing position choices (`Combos`). That enumeration is complete, has no
  duplicates, and has C(n, k) elements.
- `Booking` (booking.dfy): `getAvailableRooms` and `bookOptimalRooms`. The sort
  of scored combinations is modelled by a scan that finds the element a stable
  sort puts first and the total of the one it puts second.
- `Hotel` (hotel.dfy): `initializeRooms` and `loadTestCase`, as loops over the
  room list.
- `Scenario` (scenario.dfy): what `bookOptimalRooms` answers for four rooms on
  the pool `loadTestCase` builds.

On that pool the code evaluates 210 combinations. It selects 101, 102, 202 and
203, with a total of 4 (2 horizontal, 2 vertical); the runner-up total is also 4.
101, 201, 202, 203 costs the same but compares later. The text the test-case
screen displays (`src/components/TestCaseMode.jsx:25`) expects 101, 102, 105 and 106. That set
costs 5 under the code's own metric (`Scenario.FirstFloorCost`). The model
follows the code.

## Model

| member | source | states |
|---|---|---|
| Rooms.SortRooms | src/utils/roomUtils.js:110-115 | the result is ordered by floor, then room number, and is a permutation of the input |
| Rooms.SortRoomsOfSorted | src/utils/roomUtils.js:110-115 | a list already in (floor, room number) order comes back unchanged |
| Rooms.SortedPermutationsSameKeys | src/utils/roomUtils.js:110-115 | any two ordered arrangements of the same rooms agree on floor and room number at every position, so the output does not depend on which stable sort is used |
| Rooms.StrictlySortedUnique | src/utils/roomUtils.js:79-81 | two strictly ordered room lists with the same members are equal |
| Rooms.CompareSorted | src/utils/roomUtils.js:123-132 | zero iff every room of the first list has the floor and number of the room at the same position in the second; negative (positive) iff at the first differing position the first list's room comes earlier (later) |
| Rooms.CompareCombinations | src/utils/roomUtils.js:119-133 | zero iff both combinations, once sorted, agree on floor and room number position by position |
| Rooms.CompareCombinationsAntisymmetric | src/utils/roomUtils.js:119-133 | swapping two equal-sized combinations flips the sign of the comparison, and zero stays zero |
| Rooms.CompareCombinationsTransitive | src/utils/roomUtils.js:119-133 | the tie-break order is transitive |
| Rooms.CompareCombinationsIgnoresOrder | src/utils/roomUtils.js:119-121 | the comparison depends only on which rooms each of the two combinations holds, not on their order |
| Travel.CalculateTravelTime | src/utils/roomUtils.js:33-42 | total is horizontal plus vertical; both are non-negative; vertical is even; horizontal is zero iff the room numbers match, vertical is zero iff the floors match |
| Travel.TravelTimeSymmetric | src/utils/roomUtils.js:33-42 | the travel time from a to b equals that from b to a |
| Travel.TravelTimeZeroIff | src/utils/roomUtils.js:33-42 | the travel time is zero iff the two rooms share floor and room number |
| Travel.PathCostRespectsKeys | src/utils/roomUtils.js:64-69 | the consecutive-step sum depends only on the floors and room numbers along the path |
| Travel.PathCost | src/utils/roomUtils.js:61-69 | the sum of the consecutive-step travel times along the rooms in the given order: zero for at most one room, total is horizontal plus vertical, both non-negative |
| Travel.TotalTravel | src/utils/roomUtils.js:46-53 | zero for at most one room; total is horizontal plus vertical, both non-negative |
| Travel.CalculateTotalTravelTime | src/utils/roomUtils.js:46-76 | the loop computes TotalTravel: the step sum along the rooms in (floor, room number) order |
| Travel.TotalTravelIgnoresOrder | src/utils/roomUtils.js:55-59 | any reordering of the selection has the same travel time |
| Travel.TotalTravelOfSorted | src/utils/roomUtils.js:55-69 | for an already ordered selection, the travel time is the step sum in the given order |
| Combinations.Combos | src/utils/roomUtils.js:85-106 | every element picks strictly increasing positions at or after startIndex, as many as still needed |
| Combinations.LoopFrom | src/utils/roomUtils.js:99-103 | the loop from position i on: every element picks strictly increasing positions from i on, as many as still needed |
| Combinations.CombosExactly | src/utils/roomUtils.js:85-106 | the recursion yields exactly the strictly increasing choices of the needed size from startIndex on, in both directions |
| Combinations.CombosDistinct | src/utils/roomUtils.js:85-106 | no combination is produced twice |
| Combinations.CombosCount | src/utils/roomUtils.js:85-106 | the number of combinations is C(n - startIndex, needed) |
| Combinations.GenerateCombinations | src/utils/roomUtils.js:85-106 | the method returns `current` extended by the rooms of each such choice, in the order the recursion produces them |
| Combinations.AllCombinations | src/utils/roomUtils.js:174 | every generated combination has exactly numRooms rooms |
| Combinations.AllCombinationsCount | src/utils/roomUtils.js:174 | C(n, k) combinations of k out of n available rooms are generated, the figure reported as combinationsEvaluated |
| Combinations.AllCombinationsExactly | src/utils/roomUtils.js:174 | the generated combinations are the rooms at every strictly increasing position choice of size k, each choice exactly once |
| Booking.GetAvailableRooms | src/utils/roomUtils.js:79-81 | a room is in the result iff it is in the pool and unbooked; no longer than the pool; an ordered pool gives an ordered result |
| Booking.AvailableHead | src/utils/roomUtils.js:162-163 | the room booked for a one-room request is the first unbooked room of the pool |
| Booking.RankLeTotal | src/utils/roomUtils.js:193-199 | any two equal-sized combinations are comparable by (total, tie-break) |
| Booking.RankLeTransitive | src/utils/roomUtils.js:193-199 | the ranking order is transitive |
| Booking.RankLePreorder | src/utils/roomUtils.js:193-199 | on combinations of one size the sort comparator RankLe (total first, then compareCombinations) is a total preorder, and totals never decrease along it |
| Booking.AheadIff | src/utils/roomUtils.js:193-199 | the scan's test (lower total, or equal total and the best so far compares later) holds exactly when the comparator does not rank the best so far first |
| Booking.ScanNext | src/utils/roomUtils.js:193-202 | one step of the scan keeps the best of the combinations seen so far, as a stable sort orders them, and the least total among the others |
| Booking.RankCombinations | src/utils/roomUtils.js:186-202 | the scan returns the combination a stable sort places first (ranked no worse than all, strictly better than every earlier one), its travel time, and the smallest total among the other combinations |
| Booking.BookOptimalRooms | src/utils/roomUtils.js:137-210 | requests outside 1..5 give an empty result; too few free rooms give InsufficientRooms with both counts; one room gives the first free room and count n; otherwise the result is the sorted best combination, its time, the runner-up total and C(n, k) |
| Booking.BookAmongCombinations | src/utils/roomUtils.js:174-209 | with 2 ≤ numRooms ≤ available rooms, the result is the sorted best-ranked combination, its travel time, the runner-up total, the combination count and no error |
| Booking.OptimalBookingSelection | src/utils/roomUtils.js:201-206 | the selection has k rooms, is sorted, consists of rooms at k distinct available positions, and its reported time is its own travel time |
| Booking.OptimalBookingIsMinimal | src/utils/roomUtils.js:193-201 | no k-room combination of available rooms has a lower total, and among equal totals the selection wins the tie-break |
| Booking.NoTies | src/utils/roomUtils.js:119-133 | on a strictly ordered pool, two k-choices whose rooms compare equal under the tie-break are the same choice: the tie-break is a total order there |
| Booking.OptimalBookingStrict | src/utils/roomUtils.js:193-205 | on a strictly ordered pool the booked rooms are the unique optimum: every k-choice with other rooms costs more, or costs the same and compares strictly later |
| Booking.OptimalBookingRunnerUp | src/utils/roomUtils.js:202-208 | the runner-up total is at least the best total and belongs to a different combination when more than one exists |
| Booking.OptimalBookingUnique | src/utils/roomUtils.js:193-209 | the result is determined by the available rooms and k |
| Hotel.HotelRoom | src/utils/roomUtils.js:2-28 | the i-th room lies on floors 1-10 within that floor's room count, has id 100·floor + room number, is unbooked, and sits at its own position |
| Hotel.HotelHasEveryRoom | src/utils/roomUtils.js:5-25 | every floor/room pair of the hotel appears, at the position the loops give it |
| Hotel.HotelStrictlySorted | src/utils/roomUtils.js:2-28 | the initial room list is strictly ordered by floor, then room number |
| Hotel.InitializeRooms | src/utils/roomUtils.js:2-28 | the nested loops build exactly the 97-room hotel |
| Hotel.BookAll | src/utils/roomUtils.js:232-235 | every room is marked booked and nothing else about it changes |
| Hotel.FreeListed | src/utils/roomUtils.js:240-244 | exactly the rooms whose id is listed are marked free; the others are untouched |
| Hotel.LoadTestCase | src/utils/roomUtils.js:229-247 | the result is the hotel with only rooms 101, 102, 105, 106, 201, 202, 203, 210, 301, 302 free |
| Hotel.TestCaseRooms | src/utils/roomUtils.js:238 | ten rooms carrying the listed ids, in order, all free |
| Hotel.TestCaseFreeRooms | src/utils/roomUtils.js:237-244 | a room of the test pool is free iff it is one of the ten listed rooms |
| Hotel.TestCaseAvailable | src/utils/roomUtils.js:229-247 | the available rooms of the test pool are the ten listed rooms, in hotel order |
| Scenario.ChoiceBounds | src/utils/roomUtils.js:46-76 | every four-room choice from the test pool costs at least 4, and exactly 4 only for 101, 102, 202, 203 or 101, 201, 202, 203 |
| Scenario.WinnerCost | src/utils/roomUtils.js:46-76 | 101, 102, 202, 203 is already ordered and costs 2 horizontal plus 2 vertical |
| Scenario.TieBreak | src/utils/roomUtils.js:119-133 | 101, 201, 202, 203 compares after 101, 102, 202, 203 |
| Scenario.ForcedOutcome | src/utils/roomUtils.js:193-208 | when exactly two combinations share the lowest total t and the first wins the tie-break, the booking returns the first and reports t as the runner-up total |
| Scenario.FirstFloorCost | src/components/TestCaseMode.jsx:25 | the first-floor rooms 101, 102, 105, 106 cost 5 |
| Scenario.BookTestCase | src/utils/roomUtils.js:229-247 | running loadTestCase and then bookOptimalRooms for four rooms selects 101, 102, 202, 203 with time (2, 2, 4), runner-up total 4, 210 combinations and no error |
| Scenario.WorkedExample | src/utils/roomUtils.js:137-247 | four rooms on the test pool: the booking selects 101, 102, 202, 203 with time (2, 2, 4), runner-up total 4, and evaluates 210 combinations |

## Left out

- The React components, the app shell and styling are not modelled. Only the logic in `src/utils/roomUtils.js` is.
- `generateRandomOccupancy` is left out because it draws from `Math.random`.
- The error message is modelled as the tag `InsufficientRooms(available, requested)` instead of its text.
- Booking.BookAmongCombinations: the "No valid room combinations found." branch (lines 176-184) is not a result of the model, because it is proved unreachable: with 2 ≤ numRooms ≤ number of available rooms there is always at least one combination. The code does reach that branch with a non-integer numRooms (2.5 with three free rooms: no partial combination ever has exactly 2.5 rooms, so generateCombinations returns an empty list), which is exactly the input left out below.
- Booking.RankCombinations: the in-place sort of all scored combinations is replaced by a scan that yields the first element and the second total. Those are the only parts of the sorted array the code reads.
- JavaScript numbers are modelled as unbounded integers. A non-integer numRooms such as 2.5 is not modelled; `numRooms` is an `int`.
- Rooms.CompareCombinations: requires |combo1| ≤ |combo2|. With a longer first combination the code returns the first difference within the shorter length, and throws when the shorter length agrees throughout. The model excludes both cases, because the code only compares combinations of one size.
- Combinations.GenerateCombinations: requires startIndex ≤ number of available rooms and |current| ≤ roomsNeeded. The code only makes calls that meet both; other calls would recurse into cases it never reaches.
- Hotel.LoadTestCase: the code flips the `booked` flag of shared room objects. The model replaces whole array elements with updated records, so object identity and aliasing are not modelled.
- Booking.GetAvailableRooms: that the filter keeps pool order is stated through membership, ordered-input preservation and AvailableHead, not as an explicit subsequence relation.
