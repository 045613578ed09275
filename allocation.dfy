/**
 The allocation engine, `findOptimalRooms`: for a requested number of rooms
 it first looks for one floor that can hold the whole group; only when no
 floor can, it searches across floors, exhaustively for up to three rooms and
 by taking the first rooms in number order for four or five.

 The engine keeps no state of its own: it reads the `rooms` table it is given.
 */
module Allocation {
  import opened Seqs
  import opened Layout
  import opened Travel

  predicate IsAvailable(rooms: map<int, Room>, n: int)
  {
    n in rooms && rooms[n].status == Available
  }

  function AvailableTest(rooms: map<int, Room>): int -> bool
  {
    n => IsAvailable(rooms, n)
  }

  function FloorTest(rooms: map<int, Room>, floor: int): int -> bool
  {
    n => n in rooms && rooms[n].floor == floor
  }

  /**
   `availableRooms`: the available rooms in ascending number order. The source
   filters the table's values and sorts them by number; here the ascending
   list of room numbers is filtered, which gives the same list for a
   well-formed table (see AvailableRoomsFacts).
   */
  function AvailableRooms(rooms: map<int, Room>): seq<int>
  {
    Filter(RoomNumbers(), AvailableTest(rooms))
  }

  /** The available rooms are listed in strictly ascending order, each available room once. */
  lemma AvailableRoomsFacts(rooms: map<int, Room>)
    ensures StrictlyIncreasing(AvailableRooms(rooms))
    ensures forall n :: n in AvailableRooms(rooms) <==> IsRoomNumber(n) && IsAvailable(rooms, n)
    ensures WellFormed(rooms) ==> forall n :: n in AvailableRooms(rooms) <==> IsAvailable(rooms, n)
  {
    RoomNumbersFacts();
    FilterIncreasing(RoomNumbers(), AvailableTest(rooms));
  }

  /** `floorRooms`: the available rooms of one floor, in ascending order. */
  function FloorRooms(rooms: map<int, Room>, avail: seq<int>, floor: int): seq<int>
  {
    Filter(avail, FloorTest(rooms, floor))
  }

  /** A floor qualifies when it has at least `count` available rooms. */
  predicate FloorQualifies(rooms: map<int, Room>, avail: seq<int>, floor: int, count: nat)
  {
    |FloorRooms(rooms, avail, floor)| >= count
  }

  /** The first `count` available rooms of a qualifying floor (closest to the stairs). */
  function FloorCandidate(rooms: map<int, Room>, avail: seq<int>, floor: int, count: nat): seq<int>
    requires FloorQualifies(rooms, avail, floor, count)
  {
    FloorRooms(rooms, avail, floor)[..count]
  }

  /**
   A floor's candidate is made of `count` available rooms of that floor, and
   every available room of that floor left out of it has a higher position
   than every room in it.
   */
  lemma FloorCandidateLowest(rooms: map<int, Room>, floor: int, count: nat)
    requires WellFormed(rooms)
    requires FloorQualifies(rooms, AvailableRooms(rooms), floor, count)
    ensures var c := FloorCandidate(rooms, AvailableRooms(rooms), floor, count);
      && |c| == count
      && (forall n :: n in c ==> IsAvailable(rooms, n) && rooms[n].floor == floor)
      && (forall n, m ::
            n in c && IsAvailable(rooms, m) && rooms[m].floor == floor && m !in c ==>
            rooms[n].position < rooms[m].position)
  {
    var avail := AvailableRooms(rooms);
    AvailableRoomsFacts(rooms);
    var here := FloorRooms(rooms, avail, floor);
    FilterIncreasing(avail, FloorTest(rooms, floor));
    var c := here[..count];
    PrefixMembers(here, count);
    forall n, m | n in c && IsAvailable(rooms, m) && rooms[m].floor == floor && m !in c
      ensures rooms[n].position < rooms[m].position
    {
      LowerInCandidate(here, count, n, m);
      assert rooms[n] == Room(n, n / 100, n % 100, rooms[n].status);
      assert rooms[m] == Room(m, m / 100, m % 100, rooms[m].status);
      SameFloorOrder(n, m);
    }
  }

  lemma PrefixMembers(s: seq<int>, count: nat)
    requires count <= |s|
    ensures forall x :: x in s[..count] ==> x in s
  {
    forall x | x in s[..count] ensures x in s {
      var i :| 0 <= i < count && s[..count][i] == x;
      assert s[i] == x;
    }
  }

  /** In an ascending list, an element of the first `count` is below every later element. */
  lemma LowerInCandidate(here: seq<int>, count: nat, n: int, m: int)
    requires StrictlyIncreasing(here) && count <= |here|
    requires n in here[..count] && m in here && m !in here[..count]
    ensures n < m
  {
    var i :| 0 <= i < count && here[..count][i] == n;
    var j :| 0 <= j < |here| && here[j] == m;
  }

  /** On one floor, a lower room number is a lower position. */
  lemma SameFloorOrder(n: int, m: int)
    requires n / 100 == m / 100 && n < m
    ensures n % 100 < m % 100
  {
    assert n == 100 * (n / 100) + n % 100 && m == 100 * (m / 100) + m % 100;
  }

  /**
   The state `findOptimalRooms` keeps while it searches: `minTravelTime`, absent
   (`found` false) while the source still holds `Infinity`, and `bestCombination`.
   */
  datatype Best = Best(found: bool, time: nat, combination: seq<int>)

  const NoneFound := Best(false, 0, [])

  /** One candidate meets the search: it replaces the best so far only if strictly cheaper. */
  function Consider(rooms: map<int, Room>, b: Best, candidate: seq<int>): Best
  {
    var t := TotalTravelTime(rooms, candidate);
    if !b.found || t < b.time then Best(true, t, candidate) else b
  }

  /** The search state after the candidates `cs` meet it in order. */
  function Scan(rooms: map<int, Room>, b: Best, cs: seq<seq<int>>): Best
    decreases |cs|
  {
    if cs == [] then b else Scan(rooms, Consider(rooms, b, cs[0]), cs[1..])
  }

  lemma {:induction false} ScanConcat(rooms: map<int, Room>, b: Best, xs: seq<seq<int>>, ys: seq<seq<int>>)
    ensures Scan(rooms, b, xs + ys) == Scan(rooms, Scan(rooms, b, xs), ys)
    decreases |xs|
  {
    if xs != [] {
      var b' := Consider(rooms, b, xs[0]);
      assert (xs + ys)[0] == xs[0];
      assert (xs + ys)[1..] == xs[1..] + ys;
      assert Scan(rooms, b, xs + ys) == Scan(rooms, b', xs[1..] + ys);
      assert Scan(rooms, b, xs) == Scan(rooms, b', xs[1..]);
      ScanConcat(rooms, b', xs[1..], ys);
    } else {
      assert xs + ys == ys;
    }
  }

  /**
   What the strict `<` comparison delivers: the final state is either the
   initial one (k = -1) or the candidate at index k, which is no dearer than
   any candidate, strictly cheaper than every earlier one, and strictly cheaper
   than the initial best.
   */
  lemma {:induction false} ScanChoice(rooms: map<int, Room>, b: Best, cs: seq<seq<int>>) returns (k: int)
    ensures -1 <= k < |cs|
    ensures Scan(rooms, b, cs).found == (b.found || cs != [])
    ensures k == -1 ==> Scan(rooms, b, cs) == b
    ensures k >= 0 ==>
      && Scan(rooms, b, cs) == Best(true, TotalTravelTime(rooms, cs[k]), cs[k])
      && (b.found ==> TotalTravelTime(rooms, cs[k]) < b.time)
      && (forall j :: 0 <= j < k ==> TotalTravelTime(rooms, cs[k]) < TotalTravelTime(rooms, cs[j]))
    ensures forall j :: 0 <= j < |cs| ==> Scan(rooms, b, cs).time <= TotalTravelTime(rooms, cs[j])
    ensures b.found ==> Scan(rooms, b, cs).time <= b.time
    decreases |cs|
  {
    if cs == [] {
      k := -1;
    } else {
      var b' := Consider(rooms, b, cs[0]);
      var k' := ScanChoice(rooms, b', cs[1..]);
      if k' == -1 {
        k := if b' == b then -1 else 0;
      } else {
        k := k' + 1;
        assert cs[k] == cs[1..][k'];
        forall j | 0 <= j < k
          ensures TotalTravelTime(rooms, cs[k]) < TotalTravelTime(rooms, cs[j])
        {
          if j > 0 {
            assert cs[j] == cs[1..][j - 1];
          }
        }
      }
      forall j | 0 <= j < |cs| ensures Scan(rooms, b, cs).time <= TotalTravelTime(rooms, cs[j]) {
        if j > 0 {
          assert cs[j] == cs[1..][j - 1];
        }
      }
    }
  }

  /**
   The combinations `findBestCombination(rooms, cur, start)` visits, in the
   order it visits them: `cur` itself once it has `count` rooms, otherwise
   the visits of the loop over `i = start, ..., |avail| - 1`.
   */
  function Visits(avail: seq<int>, count: nat, cur: seq<int>, start: nat): seq<seq<int>>
    requires start <= |avail|
    decreases |avail| - start, 1, 0
  {
    if |cur| == count then [cur] else Branches(avail, count, cur, start, |avail|)
  }

  /** The visits of the loop iterations `i = lo, ..., hi - 1`, each of which extends `cur` by `avail[i]`. */
  function Branches(avail: seq<int>, count: nat, cur: seq<int>, lo: nat, hi: nat): seq<seq<int>>
    requires lo <= hi <= |avail|
    decreases |avail| - lo, 0, hi - lo
  {
    if hi == lo then []
    else Branches(avail, count, cur, lo, hi - 1) + Visits(avail, count, cur + [avail[hi - 1]], hi)
  }

  /**
   `findBestCombination`. The source pushes `rooms[i]` onto a shared array
   before the recursive call and pops it afterwards; here the extended
   combination is the value `cur + [avail[i]]`. The closure variables
   `minTravelTime` and `bestCombination` are passed in and out as `b`.
   */
  method FindBestCombination(rooms: map<int, Room>, avail: seq<int>, count: nat,
                             cur: seq<int>, start: nat, b: Best) returns (best: Best)
    requires start <= |avail|
    ensures best == Scan(rooms, b, Visits(avail, count, cur, start))
    decreases |avail| - start
  {
    if |cur| == count {
      var travelTime := TotalTravelTime(rooms, cur);
      if !b.found || travelTime < b.time {
        best := Best(true, travelTime, cur);
      } else {
        best := b;
      }
      return;
    }
    best := b;
    for i := start to |avail|
      invariant best == Scan(rooms, b, Branches(avail, count, cur, start, i))
    {
      ScanConcat(rooms, b, Branches(avail, count, cur, start, i), Visits(avail, count, cur + [avail[i]], i + 1));
      best := FindBestCombination(rooms, avail, count, cur + [avail[i]], i + 1, best);
    }
  }

  /** `count` distinct available rooms, listed in ascending order. */
  predicate IsCombination(avail: seq<int>, c: seq<int>, count: nat)
  {
    |c| == count && StrictlyIncreasing(c) && forall x :: x in c ==> x in avail
  }

  /**
   What the search visits: combinations that start with `cur` and continue
   with rooms from `avail[start..]`, in strictly increasing lexicographic order.
   */
  lemma {:induction false} VisitsShape(avail: seq<int>, count: nat, cur: seq<int>, start: nat)
    requires StrictlyIncreasing(avail) && start <= |avail| && |cur| <= count
    requires StrictlyIncreasing(cur) && forall x :: x in cur ==> x in avail[..start]
    ensures forall e :: e in Visits(avail, count, cur, start) ==>
      && IsCombination(avail, e, count)
      && e[..|cur|] == cur
      && (|cur| < count ==> e[|cur|] in avail[start..])
    ensures LexSorted(Visits(avail, count, cur, start))
    decreases |avail| - start, 1, 0
  {
    if |cur| < count {
      BranchesShape(avail, count, cur, start, |avail|);
      assert avail[start..|avail|] == avail[start..];
    } else {
      forall x | x in cur ensures x in avail {
        var k :| 0 <= k < start && avail[..start][k] == x;
        assert avail[k] == x;
      }
      assert cur[..|cur|] == cur;
    }
  }

  /** Appending an element above every element keeps a sequence strictly increasing. */
  lemma ExtendIncreasing(cur: seq<int>, top: int)
    requires StrictlyIncreasing(cur) && forall x :: x in cur ==> x < top
    ensures StrictlyIncreasing(cur + [top])
  {
    var next := cur + [top];
    forall i, j | 0 <= i < j < |next| ensures next[i] < next[j] {
      if j < |cur| {
        assert next[i] == cur[i] && next[j] == cur[j];
      } else {
        assert next[i] == cur[i] && cur[i] in cur;
      }
    }
  }

  /**
   Two lexicographically sorted lists of sequences that share the prefix
   `cur`, where those of the first continue below `top` and those of the
   second with `top`, concatenate to a lexicographically sorted list.
   */
  lemma AppendLexSorted(left: seq<seq<int>>, right: seq<seq<int>>, cur: seq<int>, top: int)
    requires LexSorted(left) && LexSorted(right)
    requires forall e :: e in left ==> |e| > |cur| && e[..|cur|] == cur && e[|cur|] < top
    requires forall f :: f in right ==> |f| > |cur| && f[..|cur|] == cur && f[|cur|] == top
    ensures LexSorted(left + right)
  {
    var all := left + right;
    forall i, j | 0 <= i < j < |all| ensures LexLess(all[i], all[j]) {
      if j < |left| {
        assert all[i] == left[i] && all[j] == left[j];
      } else if i >= |left| {
        assert all[i] == right[i - |left|] && all[j] == right[j - |left|];
      } else {
        var e, f := all[i], all[j];
        assert e == left[i] && e in left;
        assert f == right[j - |left|] && f in right;
        LexLessAt(e, f, |cur|);
      }
    }
  }

  /** The rooms of `cur`, all from `avail[..lo]`, lie below `avail[hi - 1]` and in `avail[..hi]`. */
  lemma CurBelow(avail: seq<int>, cur: seq<int>, lo: nat, hi: nat)
    requires StrictlyIncreasing(avail) && lo < hi <= |avail|
    requires forall x :: x in cur ==> x in avail[..lo]
    ensures forall x :: x in cur ==> x < avail[hi - 1] && x in avail[..hi]
    ensures avail[hi - 1] in avail[..hi]
  {
    forall x | x in cur ensures x < avail[hi - 1] && x in avail[..hi] {
      var k :| 0 <= k < lo && avail[..lo][k] == x;
      assert avail[k] == x;
      assert avail[..hi][k] == x;
    }
    assert avail[..hi][hi - 1] == avail[hi - 1];
  }

  lemma {:induction false} BranchesShape(avail: seq<int>, count: nat, cur: seq<int>, lo: nat, hi: nat)
    requires StrictlyIncreasing(avail) && lo <= hi <= |avail| && |cur| < count
    requires StrictlyIncreasing(cur) && forall x :: x in cur ==> x in avail[..lo]
    ensures forall e :: e in Branches(avail, count, cur, lo, hi) ==>
      && IsCombination(avail, e, count)
      && e[..|cur|] == cur
      && e[|cur|] in avail[lo..hi]
    ensures LexSorted(Branches(avail, count, cur, lo, hi))
    decreases |avail| - lo, 0, hi - lo
  {
    if hi > lo {
      var left := Branches(avail, count, cur, lo, hi - 1);
      var top := avail[hi - 1];
      var next := cur + [top];
      var right := Visits(avail, count, next, hi);
      BranchesShape(avail, count, cur, lo, hi - 1);
      CurBelow(avail, cur, lo, hi);
      ExtendIncreasing(cur, top);
      VisitsShape(avail, count, next, hi);
      forall e | e in right ensures e[..|cur|] == cur && e[|cur|] == top && e[|cur|] in avail[lo..hi] {
        assert e[..|cur|] == e[..|next|][..|cur|];
        assert e[|cur|] == e[..|next|][|cur|];
        assert avail[lo..hi][hi - 1 - lo] == top;
      }
      forall e | e in left ensures e[|cur|] < top && e[|cur|] in avail[lo..hi] {
        var k :| 0 <= k < hi - 1 - lo && avail[lo..hi - 1][k] == e[|cur|];
        assert avail[lo + k] == e[|cur|];
        assert avail[lo..hi][k] == e[|cur|];
      }
      AppendLexSorted(left, right, cur, top);
    }
  }

  lemma {:induction false} BranchesContain(avail: seq<int>, count: nat, cur: seq<int>, lo: nat, hi: nat, m: nat)
    requires lo <= m < hi <= |avail|
    ensures forall e :: e in Visits(avail, count, cur + [avail[m]], m + 1) ==>
      e in Branches(avail, count, cur, lo, hi)
    decreases hi
  {
    if m < hi - 1 {
      BranchesContain(avail, count, cur, lo, hi - 1, m);
    }
  }

  /** Every extension of `cur` by rooms from `avail[start..]`, in ascending order, is visited. */
  lemma {:induction false} VisitsComplete(avail: seq<int>, count: nat, cur: seq<int>, start: nat, d: seq<int>)
    requires StrictlyIncreasing(avail) && start <= |avail| && |cur| + |d| == count
    requires StrictlyIncreasing(d) && forall x :: x in d ==> x in avail[start..]
    ensures cur + d in Visits(avail, count, cur, start)
    decreases |avail| - start, 1, 0
  {
    if |cur| == count {
      assert cur + d == cur;
    } else {
      assert d[0] in d;
      var k :| 0 <= k < |avail[start..]| && avail[start..][k] == d[0];
      var m := start + k;
      assert avail[m] == d[0];
      var rest := d[1..];
      forall x | x in rest ensures x in avail[m + 1..] {
        var i :| 0 <= i < |rest| && rest[i] == x;
        assert d[i + 1] == x && d[0] < x;
        assert x in d;
        var p :| 0 <= p < |avail[start..]| && avail[start..][p] == x;
        assert avail[start + p] == x;
        assert start + p > m;
        assert avail[m + 1..][start + p - m - 1] == x;
      }
      assert StrictlyIncreasing(rest) by {
        forall i, j | 0 <= i < j < |rest| ensures rest[i] < rest[j] {
          assert rest[i] == d[i + 1] && rest[j] == d[j + 1];
        }
      }
      VisitsComplete(avail, count, cur + [avail[m]], m + 1, rest);
      assert cur + d == (cur + [avail[m]]) + rest;
      BranchesContain(avail, count, cur, start, |avail|, m);
    }
  }

  /**
   A combination no combination beats, and the first of those in the search
   order: every lexicographically smaller combination costs strictly more.
   */
  ghost predicate CheapestCombination(rooms: map<int, Room>, avail: seq<int>, count: nat, r: seq<int>)
  {
    && IsCombination(avail, r, count)
    && (forall c :: IsCombination(avail, c, count) ==>
          TotalTravelTime(rooms, r) <= TotalTravelTime(rooms, c))
    && (forall c :: IsCombination(avail, c, count) && LexLess(c, r) ==>
          TotalTravelTime(rooms, r) < TotalTravelTime(rooms, c))
  }

  /** The first `count` available rooms form a combination. */
  lemma FirstCombination(avail: seq<int>, count: nat)
    requires StrictlyIncreasing(avail) && count <= |avail|
    ensures IsCombination(avail, avail[..count], count)
  {
    PrefixMembers(avail, count);
  }

  /** The search from nothing visits every combination, in lexicographic order. */
  lemma AllVisited(avail: seq<int>, count: nat)
    requires StrictlyIncreasing(avail) && 1 <= count <= |avail|
    ensures forall c :: IsCombination(avail, c, count) ==> c in Visits(avail, count, [], 0)
    ensures forall e :: e in Visits(avail, count, [], 0) ==> IsCombination(avail, e, count)
    ensures LexSorted(Visits(avail, count, [], 0))
  {
    VisitsShape(avail, count, [], 0);
    assert avail[0..] == avail;
    forall c | IsCombination(avail, c, count) ensures c in Visits(avail, count, [], 0) {
      VisitsComplete(avail, count, [], 0, c);
      assert [] + c == c;
    }
  }

  /** The exhaustive search started from nothing ends at the cheapest combination. */
  lemma CombinationSearch(rooms: map<int, Room>, avail: seq<int>, count: nat)
    requires StrictlyIncreasing(avail) && 1 <= count <= |avail|
    ensures Scan(rooms, NoneFound, Visits(avail, count, [], 0)).found
    ensures CheapestCombination(rooms, avail, count, Scan(rooms, NoneFound, Visits(avail, count, [], 0)).combination)
  {
    var vs := Visits(avail, count, [], 0);
    AllVisited(avail, count);
    FirstCombination(avail, count);
    assert avail[..count] in vs;
    var k := ScanChoice(rooms, NoneFound, vs);
    var r := vs[k];
    assert Scan(rooms, NoneFound, vs).combination == r;
    forall c | IsCombination(avail, c, count) ensures TotalTravelTime(rooms, r) <= TotalTravelTime(rooms, c) {
      var j :| 0 <= j < |vs| && vs[j] == c;
    }
    forall c | IsCombination(avail, c, count) && LexLess(c, r)
      ensures TotalTravelTime(rooms, r) < TotalTravelTime(rooms, c)
    {
      var j :| 0 <= j < |vs| && vs[j] == c;
      if j >= k {
        LexLessAsymmetric(c, r);
        assert false;
      }
    }
  }

  /** The search state after the floor loop has looked at floors 1 to `floor - 1`. */
  function FloorScan(rooms: map<int, Room>, avail: seq<int>, count: nat, floor: int): Best
    requires floor >= 1
    decreases floor
  {
    if floor == 1 then NoneFound
    else
      var b := FloorScan(rooms, avail, count, floor - 1);
      if FloorQualifies(rooms, avail, floor - 1, count)
      then Consider(rooms, b, FloorCandidate(rooms, avail, floor - 1, count))
      else b
  }

  /** The floor loop has found something after floors 1 to `floor - 1` exactly when one of them qualifies. */
  lemma {:induction false} FloorScanFound(rooms: map<int, Room>, avail: seq<int>, count: nat, floor: int)
    requires floor >= 1
    ensures var b := FloorScan(rooms, avail, count, floor);
      && (b.found <==> exists g :: 1 <= g < floor && FloorQualifies(rooms, avail, g, count))
      && (!b.found ==> b == NoneFound)
    decreases floor
  {
    if floor > 1 {
      FloorScanFound(rooms, avail, count, floor - 1);
      if FloorQualifies(rooms, avail, floor - 1, count) {
        assert FloorScan(rooms, avail, count, floor).found;
      }
    }
  }

  /** Once a qualifying floor has been looked at, the floor loop has found something. */
  lemma {:induction false} FoundStays(rooms: map<int, Room>, avail: seq<int>, count: nat, g: int, floor: int)
    requires 1 <= g < floor && FloorQualifies(rooms, avail, g, count)
    ensures FloorScan(rooms, avail, count, floor).found
    decreases floor
  {
    if g < floor - 1 {
      FoundStays(rooms, avail, count, g, floor - 1);
    }
  }

  /**
   What the floor loop has found after floors 1 to `floor - 1`, once it has
   found something: the candidate of a qualifying floor that no earlier floor
   beats and every lower floor exceeds.
   */
  lemma {:induction false} FloorScanChoice(rooms: map<int, Room>, avail: seq<int>, count: nat, floor: int)
    returns (bestFloor: int)
    requires floor >= 1
    ensures var b := FloorScan(rooms, avail, count, floor);
      b.found ==>
        && 1 <= bestFloor < floor
        && FloorQualifies(rooms, avail, bestFloor, count)
        && b.combination == FloorCandidate(rooms, avail, bestFloor, count)
        && b.time == TotalTravelTime(rooms, b.combination)
        && (forall g :: 1 <= g < floor && FloorQualifies(rooms, avail, g, count) ==>
              b.time <= TotalTravelTime(rooms, FloorCandidate(rooms, avail, g, count)))
        && (forall g :: 1 <= g < bestFloor && FloorQualifies(rooms, avail, g, count) ==>
              b.time < TotalTravelTime(rooms, FloorCandidate(rooms, avail, g, count)))
    decreases floor
  {
    if floor == 1 {
      bestFloor := 0;
    } else {
      var before := FloorScanChoice(rooms, avail, count, floor - 1);
      var b := FloorScan(rooms, avail, count, floor - 1);
      var f := floor - 1;
      var b' := FloorScan(rooms, avail, count, floor);
      if FloorQualifies(rooms, avail, f, count) &&
         (!b.found || TotalTravelTime(rooms, FloorCandidate(rooms, avail, f, count)) < b.time) {
        bestFloor := f;
        var c := FloorCandidate(rooms, avail, f, count);
        assert b' == Best(true, TotalTravelTime(rooms, c), c);
        forall g | 1 <= g < f && FloorQualifies(rooms, avail, g, count)
          ensures TotalTravelTime(rooms, c) < TotalTravelTime(rooms, FloorCandidate(rooms, avail, g, count))
        {
          FoundStays(rooms, avail, count, g, f);
        }
      } else {
        bestFloor := before;
        assert b' == b;
      }
    }
  }

  /** A floor found by the floor loop gives `count` available rooms in ascending order, chosen by the same-floor rule. */
  lemma SameFloorOutcome(rooms: map<int, Room>, avail: seq<int>, count: nat)
    requires StrictlyIncreasing(avail)
    requires FloorScan(rooms, avail, count, TopFloor + 1).found
    ensures var r := FloorScan(rooms, avail, count, TopFloor + 1).combination;
      && |r| == count
      && StrictlyIncreasing(r)
      && (forall n :: n in r ==> n in avail)
      && HasQualifyingFloor(rooms, avail, count)
      && SameFloorChoice(rooms, avail, count, r)
  {
    var bestFloor := FloorScanChoice(rooms, avail, count, TopFloor + 1);
    var here := FloorRooms(rooms, avail, bestFloor);
    FilterIncreasing(avail, FloorTest(rooms, bestFloor));
    PrefixMembers(here, count);
  }

  /** When the floor loop finds nothing, no floor qualifies and the group is not empty. */
  lemma NoFloorOutcome(rooms: map<int, Room>, avail: seq<int>, count: nat)
    requires !FloorScan(rooms, avail, count, TopFloor + 1).found
    ensures FloorScan(rooms, avail, count, TopFloor + 1) == NoneFound
    ensures !HasQualifyingFloor(rooms, avail, count)
    ensures count >= 1
  {
    FloorScanFound(rooms, avail, count, TopFloor + 1);
  }

  /** Some floor has room for the whole group. */
  ghost predicate HasQualifyingFloor(rooms: map<int, Room>, avail: seq<int>, count: nat)
  {
    exists floor :: 1 <= floor <= TopFloor && FloorQualifies(rooms, avail, floor, count)
  }

  /**
   The same-floor rule: the candidate of a qualifying floor whose group cost no
   qualifying floor beats, and which every lower qualifying floor exceeds.
   */
  ghost predicate SameFloorChoice(rooms: map<int, Room>, avail: seq<int>, count: nat, r: seq<int>)
  {
    exists floor :: 1 <= floor <= TopFloor && FloorQualifies(rooms, avail, floor, count)
      && r == FloorCandidate(rooms, avail, floor, count)
      && (forall g :: 1 <= g <= TopFloor && FloorQualifies(rooms, avail, g, count) ==>
            TotalTravelTime(rooms, r) <= TotalTravelTime(rooms, FloorCandidate(rooms, avail, g, count)))
      && (forall g :: 1 <= g < floor && FloorQualifies(rooms, avail, g, count) ==>
            TotalTravelTime(rooms, r) < TotalTravelTime(rooms, FloorCandidate(rooms, avail, g, count)))
  }

  /**
   The choice `findOptimalRooms` makes when there are enough available rooms:
   the same-floor rule when some floor can hold the group; otherwise the
   cheapest combination, first in search order, for up to three rooms, and
   the first `count` available rooms by number for more.
   */
  ghost predicate ChosenByRules(rooms: map<int, Room>, count: nat, r: seq<int>)
  {
    var avail := AvailableRooms(rooms);
    && (HasQualifyingFloor(rooms, avail, count) ==> SameFloorChoice(rooms, avail, count, r))
    && (!HasQualifyingFloor(rooms, avail, count) && count <= |avail| ==>
          if count <= 3 then CheapestCombination(rooms, avail, count, r)
          else r == avail[..count])
  }

  /**
   `findOptimalRooms(count)`. Its only caller checks that `count` is 1 to 5;
   the model accepts any non-negative count.
   */
  method FindOptimalRooms(rooms: map<int, Room>, count: nat) returns (r: seq<int>)
    ensures |AvailableRooms(rooms)| < count ==> r == []
    ensures |AvailableRooms(rooms)| >= count ==>
      && |r| == count
      && StrictlyIncreasing(r)
      && (forall n :: n in r ==> IsAvailable(rooms, n))
    ensures |AvailableRooms(rooms)| >= count ==> ChosenByRules(rooms, count, r)
  {
    var availableRooms := AvailableRooms(rooms);
    if |availableRooms| < count {
      return [];
    }

    var best := SameFloorSearch(rooms, availableRooms, count);
    AvailableRoomsFacts(rooms);
    if best.found {
      SameFloorOutcome(rooms, availableRooms, count);
    } else {
      NoFloorOutcome(rooms, availableRooms, count);
    }
    // a full combination means a floor was found: it is the same-floor choice
    if |best.combination| == count {
      return best.combination;
    }
    // no floor holds the group: `best` is still NoneFound
    r := CrossFloorSearch(rooms, availableRooms, count);
  }

  /** The floor loop of `findOptimalRooms`: floors 1 to 10 in turn, keeping a strictly cheaper candidate. */
  method SameFloorSearch(rooms: map<int, Room>, availableRooms: seq<int>, count: nat) returns (best: Best)
    ensures best == FloorScan(rooms, availableRooms, count, TopFloor + 1)
  {
    best := NoneFound;
    for floor := 1 to TopFloor + 1
      invariant best == FloorScan(rooms, availableRooms, count, floor)
    {
      var floorRooms := FloorRooms(rooms, availableRooms, floor);
      if |floorRooms| >= count {
        var roomNumbers := floorRooms[..count];
        var travelTime := TotalTravelTime(rooms, roomNumbers);
        if !best.found || travelTime < best.time {
          best := Best(true, travelTime, roomNumbers);
        }
      }
    }
  }

  /**
   The cross-floor fallback of `findOptimalRooms` (reached with the search
   state still empty): the exhaustive search for up to three rooms, the first
   `count` rooms by number for more.
   */
  method CrossFloorSearch(rooms: map<int, Room>, availableRooms: seq<int>, count: nat) returns (r: seq<int>)
    requires StrictlyIncreasing(availableRooms) && 1 <= count <= |availableRooms|
    ensures IsCombination(availableRooms, r, count)
    ensures count <= 3 ==> CheapestCombination(rooms, availableRooms, count, r)
    ensures count > 3 ==> r == availableRooms[..count]
  {
    var best := NoneFound;
    if count <= 3 {
      // up to three rooms: the exhaustive search, from the empty combination
      best := FindBestCombination(rooms, availableRooms, count, [], 0, best);
      CombinationSearch(rooms, availableRooms, count);
    } else {
      // four or more rooms: the first `count` rooms by number
      best := best.(combination := availableRooms[..count]);
      PrefixMembers(availableRooms, count);
    }
    r := best.combination;
  }
}
