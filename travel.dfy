/**
 The travel-time metric: a cost for a pair of rooms (`calculateTravelTime`)
 and a cost for a group of rooms (`calculateTotalTravelTime`), which is the
 pair cost between the group's smallest and largest room numbers.
 */
module Travel {
  import opened Seqs
  import opened Layout

  function Abs(x: int): nat
  {
    if x < 0 then -x else x
  }

  /**
   `calculateTravelTime`: two minutes per floor between the rooms, plus one
   minute per position when they are on the same floor; 0 when either number
   is not in the table.
   */
  function TravelTime(rooms: map<int, Room>, room1: int, room2: int): (t: nat)
    ensures room1 == room2 ==> t == 0
  {
    if room1 !in rooms || room2 !in rooms then 0
    else
      var r1, r2 := rooms[room1], rooms[room2];
      var vertical := Abs(r1.floor - r2.floor) * 2;
      var horizontal := if r1.floor == r2.floor then Abs(r1.position - r2.position) else 0;
      vertical + horizontal
  }

  /** The pair cost does not depend on the direction of travel. */
  lemma TravelTimeSymmetric(rooms: map<int, Room>, room1: int, room2: int)
    ensures TravelTime(rooms, room1, room2) == TravelTime(rooms, room2, room1)
  {
  }

  /**
   In the building's table the pair cost can be read off the room numbers:
   on one floor it is the difference of the numbers, across floors twice the
   difference of the floors; and it is 0 only from a room to itself.
   */
  lemma TravelTimeInBuilding(rooms: map<int, Room>, room1: int, room2: int)
    requires WellFormed(rooms) && room1 in rooms && room2 in rooms
    ensures TravelTime(rooms, room1, room2) ==
      if room1 / 100 == room2 / 100 then Abs(room1 - room2) else 2 * Abs(room1 / 100 - room2 / 100)
    ensures TravelTime(rooms, room1, room2) == 0 <==> room1 == room2
  {
    assert room1 == 100 * (room1 / 100) + room1 % 100;
    assert room2 == 100 * (room2 / 100) + room2 % 100;
  }

  /** Inserts `x` into an ascending sequence, before the first element not smaller. */
  function Insert(x: int, s: seq<int>): (r: seq<int>)
    ensures |r| == |s| + 1
  {
    if s == [] || x <= s[0] then [x] + s else [s[0]] + Insert(x, s[1..])
  }

  /** An ascending sort (insertion sort stands for JavaScript's numeric `sort`). */
  function Sort(s: seq<int>): (r: seq<int>)
    ensures |r| == |s|
  {
    if s == [] then [] else Insert(s[0], Sort(s[1..]))
  }

  lemma {:induction false} InsertPermutes(x: int, s: seq<int>)
    ensures multiset(Insert(x, s)) == multiset(s) + multiset{x}
  {
    if s != [] && x > s[0] {
      InsertPermutes(x, s[1..]);
      assert s == [s[0]] + s[1..];
    }
  }

  /** The head of an ascending sequence bounds everything its tail turns into by an insertion of a larger element. */
  lemma InsertBound(x: int, s: seq<int>)
    requires Sorted(s) && s != [] && x > s[0]
    ensures forall y :: y in Insert(x, s[1..]) ==> s[0] <= y
  {
    var tail := s[1..];
    var r := Insert(x, tail);
    InsertPermutes(x, tail);
    forall y | y in r ensures s[0] <= y {
      assert y in multiset(r);
      if y != x {
        assert y in multiset(tail);
        var k :| 0 <= k < |tail| && tail[k] == y;
        assert s[k + 1] == y;
      }
    }
  }

  lemma {:induction false} InsertFacts(x: int, s: seq<int>)
    requires Sorted(s)
    ensures multiset(Insert(x, s)) == multiset(s) + multiset{x}
    ensures Sorted(Insert(x, s))
  {
    InsertPermutes(x, s);
    if s == [] || x <= s[0] {
      ConsSorted(x, s);
    } else {
      SortedTail(s);
      InsertFacts(x, s[1..]);
      InsertBound(x, s);
      ConsSorted(s[0], Insert(x, s[1..]));
    }
  }

  /** `Sort` returns an ascending permutation of its input. */
  lemma {:induction false} SortFacts(s: seq<int>)
    ensures multiset(Sort(s)) == multiset(s)
    ensures Sorted(Sort(s))
  {
    if s != [] {
      SortFacts(s[1..]);
      InsertFacts(s[0], Sort(s[1..]));
      assert s == [s[0]] + s[1..];
    }
  }

  /**
   `calculateTotalTravelTime`: 0 for no room or one room; otherwise the pair
   cost between the first and the last room of the ascending sort.
   */
  function TotalTravelTime(rooms: map<int, Room>, roomNumbers: seq<int>): nat
  {
    if |roomNumbers| <= 1 then 0
    else
      var sorted := Sort(roomNumbers);
      TravelTime(rooms, sorted[0], sorted[|sorted| - 1])
  }

  /** The group cost depends only on which rooms are in the group, not on their order. */
  lemma TotalTravelTimeOrderFree(rooms: map<int, Room>, a: seq<int>, b: seq<int>)
    requires multiset(a) == multiset(b)
    ensures TotalTravelTime(rooms, a) == TotalTravelTime(rooms, b)
  {
    assert |a| == |multiset(a)| == |multiset(b)| == |b|;
    SortFacts(a);
    SortFacts(b);
    SortedUnique(Sort(a), Sort(b));
  }

  /**
   The group cost of two or more rooms is the pair cost between the smallest
   and the largest room number; the rooms in between do not contribute.
   */
  lemma TotalTravelTimeSpan(rooms: map<int, Room>, s: seq<int>, lo: int, hi: int)
    requires |s| >= 2 && lo in s && hi in s
    requires forall x :: x in s ==> lo <= x <= hi
    ensures TotalTravelTime(rooms, s) == TravelTime(rooms, lo, hi)
  {
    SortFacts(s);
    var sorted := Sort(s);
    var last := |sorted| - 1;
    assert sorted[0] in multiset(s) && sorted[last] in multiset(s);
    assert lo in multiset(sorted) && hi in multiset(sorted);
    var i :| 0 <= i < |sorted| && sorted[i] == lo;
    var j :| 0 <= j < |sorted| && sorted[j] == hi;
    assert sorted[0] in s && sorted[last] in s;
    assert sorted[0] == lo && sorted[last] == hi;
  }

  /**
   In the building's table the group cost is 0 exactly when the group has at
   most one distinct room: no room, one room, or the same room repeated.
   */
  lemma TotalTravelTimeZero(rooms: map<int, Room>, s: seq<int>)
    requires WellFormed(rooms) && forall x :: x in s ==> x in rooms
    ensures TotalTravelTime(rooms, s) == 0 <==> forall x, y :: x in s && y in s ==> x == y
  {
    if |s| >= 2 {
      SortFacts(s);
      var sorted := Sort(s);
      var last := |sorted| - 1;
      assert sorted[0] in multiset(s) && sorted[last] in multiset(s);
      assert sorted[0] in s && sorted[last] in s;
      TravelTimeInBuilding(rooms, sorted[0], sorted[last]);
      forall x | x in s ensures sorted[0] <= x <= sorted[last] {
        assert x in multiset(sorted);
        var k :| 0 <= k < |sorted| && sorted[k] == x;
      }
    } else if |s| == 1 {
      assert forall x :: x in s ==> x == s[0];
    }
  }
}
