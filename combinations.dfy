/** Exhaustive enumeration of k-room combinations (generateCombinations in
    src/utils/roomUtils.js). A combination is described by the strictly
    increasing positions it picks in the list of available rooms. */
module Combinations {
  import opened Rooms

  /** The binomial coefficient C(a, b), by Pascal's rule. */
  function Binom(a: nat, b: nat): nat {
    if b == 0 then 1 else if a == 0 then 0 else Binom(a - 1, b - 1) + Binom(a - 1, b)
  }

  lemma {:induction false} BinomZero(a: nat, b: nat)
    requires a < b
    ensures Binom(a, b) == 0
  {
    if a > 0 {
      BinomZero(a - 1, b - 1);
      BinomZero(a - 1, b);
    }
  }

  lemma {:induction false} BinomPositive(a: nat, b: nat)
    requires b <= a
    ensures Binom(a, b) > 0
  {
    if b > 0 {
      BinomPositive(a - 1, b - 1);
    }
  }

  /** The closed forms of C(a, 1) to C(a, 4), each through the one before;
      C(a, 4) gives the count of four-room bookings. */
  lemma {:induction false} BinomOne(a: nat)
    ensures Binom(a, 1) == a
  {
    if a > 0 {
      BinomOne(a - 1);
    }
  }

  lemma {:induction false} BinomTwo(a: nat)
    ensures 2 * Binom(a, 2) == a * (a - 1)
  {
    if a > 0 {
      BinomOne(a - 1);
      BinomTwo(a - 1);
    }
  }

  lemma {:induction false} BinomThree(a: nat)
    ensures 6 * Binom(a, 3) == a * (a - 1) * (a - 2)
  {
    if a > 0 {
      BinomTwo(a - 1);
      BinomThree(a - 1);
      PascalThree(a, Binom(a - 1, 2), Binom(a - 1, 3));
    }
  }

  lemma {:induction false} BinomFour(a: nat)
    ensures 24 * Binom(a, 4) == a * (a - 1) * (a - 2) * (a - 3)
  {
    if a > 0 {
      BinomThree(a - 1);
      BinomFour(a - 1);
      PascalFour(a, Binom(a - 1, 3), Binom(a - 1, 4));
    }
  }

  /** Pascal's rule in closed form, one row up: the arithmetic of BinomThree. */
  lemma PascalThree(a: int, c2: int, c3: int)
    requires 2 * c2 == (a - 1) * (a - 2) && 6 * c3 == (a - 1) * (a - 2) * (a - 3)
    ensures 6 * (c2 + c3) == a * (a - 1) * (a - 2)
  {
  }

  /** The arithmetic of BinomFour. */
  lemma PascalFour(a: int, c3: int, c4: int)
    requires 6 * c3 == (a - 1) * (a - 2) * (a - 3) && 24 * c4 == (a - 1) * (a - 2) * (a - 3) * (a - 4)
    ensures 24 * (c3 + c4) == a * (a - 1) * (a - 2) * (a - 3)
  {
  }

  /** `c` picks positions in [start, n) in strictly increasing order. */
  predicate IsChoice(c: seq<nat>, n: nat, start: nat) {
    && (forall j :: 0 <= j < |c| ==> start <= c[j] < n)
    && (forall p, q :: 0 <= p < q < |c| ==> c[p] < c[q])
  }

  /** Every element of `cs` picks `m` positions of [start, n), increasing. */
  predicate AllChoices(cs: seq<seq<nat>>, n: nat, m: nat, start: nat) {
    forall j :: 0 <= j < |cs| ==> |cs[j]| == m && IsChoice(cs[j], n, start)
  }

  function Prepend(i: nat, cs: seq<seq<nat>>): seq<seq<nat>> {
    seq(|cs|, j requires 0 <= j < |cs| => [i] + cs[j])
  }

  lemma PrependChoices(i: nat, cs: seq<seq<nat>>, n: nat, m: nat)
    requires i < n && AllChoices(cs, n, m, i + 1)
    ensures AllChoices(Prepend(i, cs), n, m + 1, i)
  {
    var p := Prepend(i, cs);
    forall j | 0 <= j < |p| ensures |p[j]| == m + 1 && IsChoice(p[j], n, i) {
      assert p[j] == [i] + cs[j];
      assert IsChoice(cs[j], n, i + 1);
    }
  }

  lemma ConcatChoices(a: seq<seq<nat>>, b: seq<seq<nat>>, n: nat, m: nat, i: nat)
    requires AllChoices(a, n, m, i) && AllChoices(b, n, m, i + 1)
    ensures AllChoices(a + b, n, m, i)
  {
    var ab := a + b;
    forall j | 0 <= j < |ab| ensures |ab[j]| == m && IsChoice(ab[j], n, i) {
      if j >= |a| {
        assert ab[j] == b[j - |a|];
        assert IsChoice(b[j - |a|], n, i + 1);
      }
    }
  }

  /** The recursive call of generateCombinations, on positions: every way to
      pick `m` more positions from [start, n), in the order the code
      produces them. `m == 0` is the "found enough rooms" base case, and
      `n - start < m` the "not enough rooms left" one. */
  function Combos(n: nat, m: nat, start: nat): (r: seq<seq<nat>>)
    requires start <= n
    ensures AllChoices(r, n, m, start)
    decreases n - start, 1
  {
    if m == 0 then [[]]
    else if n - start < m then []
    else LoopFrom(n, m, start)
  }

  /** The loop of generateCombinations from position `i` on: for each `i`,
      the combinations that pick `i` next, then those of the later positions. */
  function LoopFrom(n: nat, m: nat, i: nat): (r: seq<seq<nat>>)
    requires 1 <= m && i <= n
    ensures AllChoices(r, n, m, i)
    decreases n - i, 0
  {
    if i == n then []
    else
      var tails := Combos(n, m - 1, i + 1);
      var rest := LoopFrom(n, m, i + 1);
      PrependChoices(i, tails, n, m - 1);
      ConcatChoices(Prepend(i, tails), rest, n, m, i);
      Prepend(i, tails) + rest
  }

  lemma {:induction false} ChoiceBound(c: seq<nat>, n: nat, start: nat, j: nat)
    requires IsChoice(c, n, start) && j < |c|
    ensures start + j <= c[j]
  {
    if j > 0 {
      ChoiceBound(c, n, start, j - 1);
    }
  }

  /** A strictly increasing choice from [start, n) has at most n - start positions. */
  lemma ChoiceFits(c: seq<nat>, n: nat, start: nat)
    requires start <= n && IsChoice(c, n, start)
    ensures start + |c| <= n
  {
    if |c| > 0 {
      ChoiceBound(c, n, start, |c| - 1);
    }
  }

  /** Completeness and soundness: the enumeration lists exactly the
      strictly increasing choices of `m` positions from [start, n). */
  lemma CombosExactly(n: nat, m: nat, start: nat)
    requires start <= n
    ensures forall c :: c in Combos(n, m, start) <==> |c| == m && IsChoice(c, n, start)
  {
    var cs := Combos(n, m, start);
    forall c | c in cs ensures |c| == m && IsChoice(c, n, start) {
      var j :| 0 <= j < |cs| && cs[j] == c;
    }
    CombosComplete(n, m, start);
  }

  lemma {:induction false} CombosComplete(n: nat, m: nat, start: nat)
    requires start <= n
    ensures forall c :: |c| == m && IsChoice(c, n, start) ==> c in Combos(n, m, start)
    decreases n - start, 1
  {
    if m == 0 {
    } else if n - start < m {
      forall c | |c| == m && IsChoice(c, n, start) ensures false {
        ChoiceFits(c, n, start);
      }
    } else {
      LoopFromComplete(n, m, start);
    }
  }

  lemma {:induction false} LoopFromComplete(n: nat, m: nat, i: nat)
    requires 1 <= m && i <= n
    ensures forall c :: |c| == m && IsChoice(c, n, i) ==> c in LoopFrom(n, m, i)
    decreases n - i, 0
  {
    if i == n {
      forall c | |c| == m && IsChoice(c, n, i) ensures false {
        ChoiceFits(c, n, i);
      }
    } else {
      CombosComplete(n, m - 1, i + 1);
      LoopFromComplete(n, m, i + 1);
      forall c | |c| == m && IsChoice(c, n, i) ensures c in LoopFrom(n, m, i) {
        LoopFromStep(n, m, i, c);
      }
    }
  }

  /** One step of the completeness proof: a choice from [i, n) either starts
      at `i` and is found among the combinations through `i`, or is a
      choice from [i + 1, n). */
  lemma LoopFromStep(n: nat, m: nat, i: nat, c: seq<nat>)
    requires 1 <= m && i < n && |c| == m && IsChoice(c, n, i)
    requires forall d :: |d| == m - 1 && IsChoice(d, n, i + 1) ==> d in Combos(n, m - 1, i + 1)
    requires forall d :: |d| == m && IsChoice(d, n, i + 1) ==> d in LoopFrom(n, m, i + 1)
    ensures c in LoopFrom(n, m, i)
  {
    var tails := Combos(n, m - 1, i + 1);
    assert LoopFrom(n, m, i) == Prepend(i, tails) + LoopFrom(n, m, i + 1);
    if c[0] == i {
      ChoiceTail(c, n, i);
      PrependContains(i, tails, c[1..]);
    } else {
      ChoiceSkip(c, n, i);
    }
  }

  lemma PrependContains(i: nat, tails: seq<seq<nat>>, d: seq<nat>)
    requires d in tails
    ensures [i] + d in Prepend(i, tails)
  {
    var j :| 0 <= j < |tails| && tails[j] == d;
    assert Prepend(i, tails)[j] == [i] + d;
  }

  /** A choice that starts at `i` is `i` followed by a choice from [i + 1, n). */
  lemma ChoiceTail(c: seq<nat>, n: nat, i: nat)
    requires IsChoice(c, n, i) && |c| > 0 && c[0] == i
    ensures IsChoice(c[1..], n, i + 1) && c == [i] + c[1..]
  {
    var d := c[1..];
    forall j | 0 <= j < |d| ensures i + 1 <= d[j] < n {
      assert d[j] == c[j + 1] && c[0] < c[j + 1];
    }
    forall p, q | 0 <= p < q < |d| ensures d[p] < d[q] {
      assert d[p] == c[p + 1] && d[q] == c[q + 1];
    }
  }

  /** A choice that does not start at `i` is a choice from [i + 1, n). */
  lemma ChoiceSkip(c: seq<nat>, n: nat, i: nat)
    requires IsChoice(c, n, i) && |c| > 0 && c[0] != i
    ensures IsChoice(c, n, i + 1)
  {
    forall j | 0 <= j < |c| ensures i + 1 <= c[j] {
      assert j == 0 || c[0] < c[j];
    }
  }

  /** Two index sequences are never listed twice. */
  predicate Distinct<T(==)>(s: seq<T>) {
    forall p, q :: 0 <= p < q < |s| ==> s[p] != s[q]
  }

  /** No combination is produced twice. */
  lemma {:induction false} CombosDistinct(n: nat, m: nat, start: nat)
    requires start <= n
    ensures Distinct(Combos(n, m, start))
    decreases n - start, 1
  {
    if m != 0 && n - start >= m {
      LoopFromDistinct(n, m, start);
    }
  }

  lemma {:induction false} LoopFromDistinct(n: nat, m: nat, i: nat)
    requires 1 <= m && i <= n
    ensures Distinct(LoopFrom(n, m, i))
    decreases n - i, 0
  {
    if i < n {
      var tails := Combos(n, m - 1, i + 1);
      var head := Prepend(i, tails);
      var rest := LoopFrom(n, m, i + 1);
      CombosDistinct(n, m - 1, i + 1);
      LoopFromDistinct(n, m, i + 1);
      var all := head + rest;
      assert all == LoopFrom(n, m, i);
      forall p, q | 0 <= p < q < |all| ensures all[p] != all[q] {
        if q < |head| {
          assert head[p][1..] == tails[p] && head[q][1..] == tails[q];
        } else if p >= |head| {
          assert all[p] == rest[p - |head|] && all[q] == rest[q - |head|];
        } else {
          assert all[p][0] == i;
          assert all[q] == rest[q - |head|] && i + 1 <= all[q][0];
        }
      }
    }
  }

  /** The enumeration has exactly C(n - start, m) elements. */
  lemma {:induction false} CombosCount(n: nat, m: nat, start: nat)
    requires start <= n
    ensures |Combos(n, m, start)| == Binom(n - start, m)
    decreases n - start, 1
  {
    if m == 0 {
    } else if n - start < m {
      BinomZero(n - start, m);
    } else {
      LoopFromCount(n, m, start);
    }
  }

  lemma {:induction false} LoopFromCount(n: nat, m: nat, i: nat)
    requires 1 <= m && i <= n
    ensures |LoopFrom(n, m, i)| == Binom(n - i, m)
    decreases n - i, 0
  {
    if i < n {
      CombosCount(n, m - 1, i + 1);
      LoopFromCount(n, m, i + 1);
    }
  }

  /** The rooms at the positions `c` picks. */
  function Pick(rooms: seq<Room>, c: seq<nat>): (r: seq<Room>)
    requires forall j :: 0 <= j < |c| ==> c[j] < |rooms|
  {
    seq(|c|, j requires 0 <= j < |c| => rooms[c[j]])
  }

  /** `current` followed by the rooms each index choice picks. */
  function Extend(current: seq<Room>, rooms: seq<Room>, cs: seq<seq<nat>>): seq<seq<Room>>
    requires forall j, k :: 0 <= j < |cs| && 0 <= k < |cs[j]| ==> cs[j][k] < |rooms|
  {
    seq(|cs|, j requires 0 <= j < |cs| => current + Pick(rooms, cs[j]))
  }

  /** What generateCombinations(availableRooms, k) returns: the rooms of
      every k-choice of positions, in the code's order. */
  function AllCombinations(availableRooms: seq<Room>, k: nat): (r: seq<seq<Room>>)
    ensures forall j :: 0 <= j < |r| ==> |r[j]| == k
  {
    Extend([], availableRooms, Combos(|availableRooms|, k, 0))
  }

  /** generateCombinations(availableRooms, k) lists C(|availableRooms|, k) combinations. */
  lemma AllCombinationsCount(availableRooms: seq<Room>, k: nat)
    ensures |AllCombinations(availableRooms, k)| == Binom(|availableRooms|, k)
  {
    CombosCount(|availableRooms|, k, 0);
  }

  lemma ExtendConcat(current: seq<Room>, rooms: seq<Room>, a: seq<seq<nat>>, b: seq<seq<nat>>)
    requires forall j, k :: 0 <= j < |a| && 0 <= k < |a[j]| ==> a[j][k] < |rooms|
    requires forall j, k :: 0 <= j < |b| && 0 <= k < |b[j]| ==> b[j][k] < |rooms|
    ensures Extend(current, rooms, a + b) == Extend(current, rooms, a) + Extend(current, rooms, b)
  {
    var ab := a + b;
    assert forall j :: 0 <= j < |ab| ==> ab[j] == if j < |a| then a[j] else b[j - |a|];
  }

  lemma ExtendPrepend(current: seq<Room>, rooms: seq<Room>, i: nat, cs: seq<seq<nat>>)
    requires i < |rooms|
    requires forall j, k :: 0 <= j < |cs| && 0 <= k < |cs[j]| ==> cs[j][k] < |rooms|
    ensures Extend(current, rooms, Prepend(i, cs)) == Extend(current + [rooms[i]], rooms, cs)
  {
    var p := Prepend(i, cs);
    forall j | 0 <= j < |cs|
      ensures current + Pick(rooms, p[j]) == current + [rooms[i]] + Pick(rooms, cs[j])
    {
      assert Pick(rooms, p[j]) == [rooms[i]] + Pick(rooms, cs[j]);
    }
  }

  /** One iteration of the loop: the combinations that pick position `i`
      next, followed by those of the later positions. */
  lemma ExtendLoopStep(current: seq<Room>, rooms: seq<Room>, m: nat, i: nat)
    requires 1 <= m && i < |rooms|
    ensures Extend(current, rooms, LoopFrom(|rooms|, m, i))
         == Extend(current + [rooms[i]], rooms, Combos(|rooms|, m - 1, i + 1))
            + Extend(current, rooms, LoopFrom(|rooms|, m, i + 1))
  {
    var n := |rooms|;
    var tails := Combos(n, m - 1, i + 1);
    var rest := LoopFrom(n, m, i + 1);
    assert LoopFrom(n, m, i) == Prepend(i, tails) + rest;
    PrependChoices(i, tails, n, m - 1);
    ExtendPrepend(current, rooms, i, tails);
    ExtendConcat(current, rooms, Prepend(i, tails), rest);
  }

  /** generateCombinations(availableRooms, roomsNeeded, startIndex, current):
      backtracking over increasing positions, extending `current`. */
  method GenerateCombinations(availableRooms: seq<Room>, roomsNeeded: nat, startIndex: nat, current: seq<Room>)
    returns (combinations: seq<seq<Room>>)
    requires startIndex <= |availableRooms| && |current| <= roomsNeeded
    ensures combinations == Extend(current, availableRooms,
                                   Combos(|availableRooms|, roomsNeeded - |current|, startIndex))
    decreases |availableRooms| - startIndex
  {
    var n, m := |availableRooms|, roomsNeeded - |current|;
    if |current| == roomsNeeded {
      assert Combos(n, m, startIndex) == [[]];
      var e := Extend(current, availableRooms, [[]]);
      assert Pick(availableRooms, []) == [];
      assert |e| == 1 && e[0] == current + [] == current;
      assert e == [current];
      return [current];
    }
    if |availableRooms| - startIndex < roomsNeeded - |current| {
      return [];
    }
    combinations := [];
    var i := startIndex;
    while i < |availableRooms|
      invariant startIndex <= i <= n
      invariant combinations + Extend(current, availableRooms, LoopFrom(n, m, i))
             == Extend(current, availableRooms, LoopFrom(n, m, startIndex))
    {
      var newCurrent := current + [availableRooms[i]];
      var subCombinations := GenerateCombinations(availableRooms, roomsNeeded, i + 1, newCurrent);
      ExtendLoopStep(current, availableRooms, m, i);
      combinations := combinations + subCombinations;
      i := i + 1;
    }
  }

  /** The top-level call generateCombinations(availableRooms, k) lists the
      rooms of every k-choice of positions, without repetition. */
  lemma AllCombinationsExactly(availableRooms: seq<Room>, k: nat)
    ensures forall c :: c in Combos(|availableRooms|, k, 0) <==> |c| == k && IsChoice(c, |availableRooms|, 0)
    ensures Distinct(Combos(|availableRooms|, k, 0))
    ensures forall j :: 0 <= j < |AllCombinations(availableRooms, k)| ==>
              AllCombinations(availableRooms, k)[j] == Pick(availableRooms, Combos(|availableRooms|, k, 0)[j])
  {
    CombosExactly(|availableRooms|, k, 0);
    CombosDistinct(|availableRooms|, k, 0);
    CombosCount(|availableRooms|, k, 0);
  }
}
