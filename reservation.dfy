/**
 The reservation system's state and the operations a guest triggers: a
 `rooms` table, the set of selected rooms, suggesting rooms, selecting and
 deselecting one room, booking the selection, resetting every booking and
 generating random bookings.
 */
module Reservation {
  import opened Seqs
  import opened Layout
  import opened Travel
  import opened Allocation

  /** The most rooms one guest may select or book at a time. */
  const MaxRooms := 5

  /** What `suggestRooms` does with a requested count. */
  datatype Suggestion =
    | InvalidCount                            // the count is not 1 to 5
    | NotEnoughRooms                          // fewer rooms are available than requested
    | Suggested(roomNumbers: seq<int>)        // these rooms become the selection after the delay

  /** What `bookRooms` reports. */
  datatype BookingOutcome =
    | NoSelection
    | TooManyRooms
    | Confirmed(count: nat, travelTime: nat)

  /** What `toggleRoom` does with a clicked room. */
  datatype ToggleOutcome = AlreadyBooked | Deselected | Selected | SelectionFull

  /** The table with the rooms of `sel` given status `status`, every other entry unchanged. */
  function SetStatus(rooms: map<int, Room>, sel: set<int>, status: Status): map<int, Room>
  {
    map n | n in rooms :: if n in sel then rooms[n].(status := status) else rooms[n]
  }

  function OutsideTest(sel: set<int>): int -> bool
  {
    n => n !in sel
  }

  /** Changing statuses keeps the shape of the table. */
  lemma SetStatusWellFormed(rooms: map<int, Room>, sel: set<int>, status: Status)
    requires WellFormed(rooms)
    ensures WellFormed(SetStatus(rooms, sel, status))
    ensures SetStatus(rooms, sel, status).Keys == rooms.Keys
  {
    var r := SetStatus(rooms, sel, status);
    forall n | n in r ensures r[n] == Room(n, n / 100, n % 100, r[n].status) {
      assert rooms[n] == Room(n, n / 100, n % 100, rooms[n].status);
    }
  }

  /** Changing the status of one more room extends the set of changed rooms by it. */
  lemma SetStatusStep(rooms: map<int, Room>, done: set<int>, status: Status, n: int)
    requires n in rooms
    ensures var m := SetStatus(rooms, done, status);
      m[n := m[n].(status := status)] == SetStatus(rooms, done + {n}, status)
  {
    var m := SetStatus(rooms, done, status);
    var stepped := m[n := m[n].(status := status)];
    assert stepped.Keys == SetStatus(rooms, done + {n}, status).Keys;
  }

  /** Travel times read only floors and positions, which a status change leaves alone. */
  lemma SetStatusTravel(rooms: map<int, Room>, sel: set<int>, status: Status, xs: seq<int>)
    ensures TotalTravelTime(SetStatus(rooms, sel, status), xs) == TotalTravelTime(rooms, xs)
  {
  }

  /** After booking `sel`, a room is available exactly when it was available and is not in `sel`. */
  lemma BookedRoomAvailable(rooms: map<int, Room>, sel: set<int>, n: int)
    ensures IsAvailable(SetStatus(rooms, sel, Booked), n) <==> IsAvailable(rooms, n) && n !in sel
  {
  }

  /**
   After booking `sel`, the list of available rooms is the old list without
   the rooms of `sel`, in the same order.
   */
  lemma BookedAvailability(rooms: map<int, Room>, sel: set<int>)
    ensures AvailableRooms(SetStatus(rooms, sel, Booked)) == Filter(AvailableRooms(rooms), OutsideTest(sel))
  {
    var after := SetStatus(rooms, sel, Booked);
    var kept := Filter(AvailableRooms(rooms), OutsideTest(sel));
    AvailableRoomsFacts(rooms);
    AvailableRoomsFacts(after);
    FilterIncreasing(AvailableRooms(rooms), OutsideTest(sel));
    forall n ensures n in AvailableRooms(after) <==> n in kept {
      BookedRoomAvailable(rooms, sel, n);
    }
    IncreasingUnique(AvailableRooms(after), kept);
  }

  /** Booking one more room of a table keeps its shape and makes exactly that room unavailable. */
  lemma BookOne(rooms: map<int, Room>, n: int)
    requires WellFormed(rooms) && n in rooms
    ensures var after := rooms[n := rooms[n].(status := Booked)];
      && WellFormed(after)
      && after.Keys == rooms.Keys
      && forall m :: IsAvailable(after, m) <==> IsAvailable(rooms, m) && m != n
  {
    var after := rooms[n := rooms[n].(status := Booked)];
    forall m | m in after ensures after[m] == Room(m, m / 100, m % 100, after[m].status) {
      assert rooms[m] == Room(m, m / 100, m % 100, rooms[m].status);
    }
  }

  /** The table after `resetAllBookings`. */
  function AllAvailable(rooms: map<int, Room>): map<int, Room>
  {
    SetStatus(rooms, rooms.Keys, Available)
  }

  /** After a reset every room of the building is available, in number order. */
  lemma ResetAvailability(rooms: map<int, Room>)
    requires WellFormed(rooms)
    ensures WellFormed(AllAvailable(rooms))
    ensures AvailableRooms(AllAvailable(rooms)) == RoomNumbers()
    ensures |AvailableRooms(AllAvailable(rooms))| == TotalRooms
  {
    var after := AllAvailable(rooms);
    SetStatusWellFormed(rooms, rooms.Keys, Available);
    RoomNumbersFacts();
    forall i | 0 <= i < |RoomNumbers()| ensures AvailableTest(after)(RoomNumbers()[i]) {
      assert RoomNumbers()[i] in RoomNumbers();
    }
    FilterAll(RoomNumbers(), AvailableTest(after));
  }

  /** Every room number is a key of a well-formed table. */
  lemma NumbersInTable(rooms: map<int, Room>)
    requires WellFormed(rooms)
    ensures forall n :: n in RoomNumbers() ==> n in rooms
  {
    RoomNumbersFacts();
  }

  /** Setting every listed room number available resets a well-formed table. */
  lemma ResetByNumbers(rooms: map<int, Room>, after: map<int, Room>)
    requires WellFormed(rooms)
    requires after == SetStatus(rooms, Elements(RoomNumbers()), Available)
    ensures after == AllAvailable(rooms)
    ensures WellFormed(after)
    ensures AvailableRooms(after) == RoomNumbers()
  {
    WellFormedKeys(rooms);
    ResetAvailability(rooms);
  }

  /** Resetting twice is the same as resetting once. */
  lemma ResetIdempotent(rooms: map<int, Room>)
    ensures AllAvailable(AllAvailable(rooms)) == AllAvailable(rooms)
  {
    var once := AllAvailable(rooms);
    assert once.Keys == rooms.Keys;
    assert forall n :: n in once ==> once[n].(status := Available) == once[n];
  }

  /**
   Index draws valid for a pool of `size` entries that loses one entry per
   draw: `generateRandomBookings` draws index `i` below the pool's size then.
   */
  predicate ValidDraws(size: int, draws: seq<int>)
  {
    forall i :: 0 <= i < |draws| ==> 0 <= draws[i] < size - i
  }

  /** The pool left once the entries at the indices `draws` are taken out one after the other. */
  function Remaining(pool: seq<int>, draws: seq<int>): (r: seq<int>)
    requires ValidDraws(|pool|, draws)
    ensures |r| == |pool| - |draws|
    decreases |draws|
  {
    if draws == [] then pool
    else
      var last := |draws| - 1;
      assert forall i :: 0 <= i < last ==> draws[..last][i] == draws[i];
      RemoveAt(Remaining(pool, draws[..last]), draws[last])
  }

  /** One more draw takes one more entry out of the pool. */
  lemma DrawStep(pool: seq<int>, draws: seq<int>, i: nat)
    requires ValidDraws(|pool|, draws) && i < |draws|
    ensures ValidDraws(|pool|, draws[..i]) && ValidDraws(|pool|, draws[..i + 1])
    ensures 0 <= draws[i] < |Remaining(pool, draws[..i])|
    ensures Remaining(pool, draws[..i + 1]) == RemoveAt(Remaining(pool, draws[..i]), draws[i])
  {
    assert forall k :: 0 <= k < i ==> draws[..i][k] == draws[k];
    assert forall k :: 0 <= k <= i ==> draws[..i + 1][k] == draws[k];
    assert draws[..i + 1][..i] == draws[..i];
  }

  /**
   Drawing from a strictly increasing pool leaves a strictly increasing pool
   of entries of the original pool.
   */
  lemma {:induction false} RemainingFacts(pool: seq<int>, draws: seq<int>)
    requires StrictlyIncreasing(pool)
    requires ValidDraws(|pool|, draws)
    ensures StrictlyIncreasing(Remaining(pool, draws))
    ensures forall x :: x in Remaining(pool, draws) ==> x in pool
    decreases |draws|
  {
    if draws != [] {
      var last := |draws| - 1;
      assert forall i :: 0 <= i < last ==> draws[..last][i] == draws[i];
      RemainingFacts(pool, draws[..last]);
      RemoveAtFacts(Remaining(pool, draws[..last]), draws[last]);
    }
  }

  /** `pool` lists, in ascending order, exactly the available rooms of a well-formed table. */
  ghost predicate PoolMatches(rooms: map<int, Room>, pool: seq<int>)
  {
    && WellFormed(rooms)
    && StrictlyIncreasing(pool)
    && forall n :: IsAvailable(rooms, n) <==> n in pool
  }

  /** A reset table matches the full list of room numbers. */
  lemma PoolStart(rooms: map<int, Room>)
    requires WellFormed(rooms) && AvailableRooms(rooms) == RoomNumbers()
    ensures PoolMatches(rooms, RoomNumbers())
  {
    AvailableRoomsFacts(rooms);
  }

  /** A matching pool is the list of available rooms. */
  lemma PoolEnd(rooms: map<int, Room>, pool: seq<int>)
    requires PoolMatches(rooms, pool)
    ensures AvailableRooms(rooms) == pool
  {
    AvailableRoomsFacts(rooms);
    IncreasingUnique(AvailableRooms(rooms), pool);
  }

  /** Booking the room at index `k` of the pool and taking it out of the pool keeps them matched. */
  lemma DrawBooking(rooms: map<int, Room>, pool: seq<int>, k: nat)
    requires PoolMatches(rooms, pool) && k < |pool|
    ensures pool[k] in rooms
    ensures PoolMatches(rooms[pool[k] := rooms[pool[k]].(status := Booked)], RemoveAt(pool, k))
  {
    assert IsAvailable(rooms, pool[k]);
    BookOne(rooms, pool[k]);
    RemoveAtFacts(pool, k);
  }

  /** One pass of the drawing loop keeps the pool equal to Remaining and matched to the table. */
  lemma DrawInvariant(draws: seq<int>, i: nat, table: map<int, Room>, pool: seq<int>)
    requires ValidDraws(TotalRooms, draws) && i < |draws|
    requires ValidDraws(|RoomNumbers()|, draws[..i]) && pool == Remaining(RoomNumbers(), draws[..i])
    requires PoolMatches(table, pool)
    ensures 0 <= draws[i] < |pool| && pool[draws[i]] in table
    ensures ValidDraws(|RoomNumbers()|, draws[..i + 1])
    ensures RemoveAt(pool, draws[i]) == Remaining(RoomNumbers(), draws[..i + 1])
    ensures PoolMatches(table[pool[draws[i]] := table[pool[draws[i]]].(status := Booked)], RemoveAt(pool, draws[i]))
  {
    DrawStep(RoomNumbers(), draws, i);
    DrawBooking(table, pool, draws[i]);
  }

  /** `Set.prototype.add`: an element already present stays where it is. */
  function AddToSet(s: seq<int>, x: int): (r: seq<int>)
    ensures Distinct(s) ==> Distinct(r)
    ensures forall y :: y in r <==> y in s || y == x
    ensures |r| <= |s| + 1
  {
    if x in s then s else s + [x]
  }

  function OtherThan(x: int): int -> bool
  {
    y => y != x
  }

  /** `Set.prototype.delete`: the other elements keep their order. */
  function DeleteFromSet(s: seq<int>, x: int): (r: seq<int>)
    ensures forall y :: y in r <==> y in s && y != x
    ensures |r| <= |s|
  {
    Filter(s, OtherThan(x))
  }

  /** Deleting from a duplicate-free sequence keeps it duplicate-free. */
  lemma DeleteKeepsDistinct(s: seq<int>, x: int)
    ensures Distinct(s) ==> Distinct(DeleteFromSet(s, x))
  {
    if Distinct(s) {
      FilterDistinct(s, OtherThan(x));
    }
  }

  class HotelReservationSystem {
    /** The room table, keyed by room number. */
    var rooms: map<int, Room>
    /** The selected rooms, in the order they were added (a JavaScript `Set`). */
    var selectedRooms: seq<int>

    /** The table has its 97 rooms; the selection holds rooms of it, each once. */
    ghost predicate Valid()
      reads this
    {
      && WellFormed(rooms)
      && (forall n :: n in selectedRooms ==> n in rooms)
      && Distinct(selectedRooms)
    }

    /** The selection rule `toggleRoom` enforces: available rooms only, at most five. */
    predicate SelectionOk()
      reads this
    {
      (forall n :: n in selectedRooms ==> IsAvailable(rooms, n)) && |selectedRooms| <= MaxRooms
    }

    /** The constructor: every room available, nothing selected. */
    constructor ()
      ensures Valid() && SelectionOk()
      ensures selectedRooms == []
      ensures forall n :: n in rooms ==> rooms[n].status == Available
    {
      var table := InitializeRooms();
      rooms := table;
      selectedRooms := [];
    }

    /** `clearSelections`, without its display updates. */
    method ClearSelections()
      modifies this
      ensures selectedRooms == [] && rooms == old(rooms)
    {
      selectedRooms := [];
    }

    /**
     `suggestRooms(count)`: a count outside 1 to 5 is refused and nothing
     changes; otherwise the selection is cleared and the engine's choice is
     returned, or NotEnoughRooms when it returns no room.
     */
    method SuggestRooms(count: int) returns (s: Suggestion)
      modifies this
      ensures rooms == old(rooms)
      ensures count < 1 || count > MaxRooms ==> s == InvalidCount && selectedRooms == old(selectedRooms)
      ensures 1 <= count <= MaxRooms ==>
        && selectedRooms == []
        && (s == NotEnoughRooms <==> |AvailableRooms(rooms)| < count)
        && s != InvalidCount
      ensures s.Suggested? ==>
        && |s.roomNumbers| == count
        && StrictlyIncreasing(s.roomNumbers)
        && (forall n :: n in s.roomNumbers ==> IsAvailable(rooms, n))
        && ChosenByRules(rooms, count, s.roomNumbers)
    {
      if count < 1 || count > MaxRooms {
        return InvalidCount;
      }
      ClearSelections();
      var suggestedRooms := FindOptimalRooms(rooms, count);
      if |suggestedRooms| == 0 {
        return NotEnoughRooms;
      }
      s := Suggested(suggestedRooms);
    }

    /**
     The delayed callbacks of `suggestRooms`, run in order: each suggested
     number that is a room of the table joins the selection. Nothing is
     re-checked, so a room the guest selected or booked meanwhile stays or
     becomes selected too.
     */
    method AcceptSuggestion(suggested: seq<int>)
      modifies this
      ensures rooms == old(rooms)
      ensures forall n :: n in selectedRooms <==> n in old(selectedRooms) || (n in suggested && n in rooms)
      ensures |selectedRooms| <= |old(selectedRooms)| + |suggested|
      ensures old(Valid()) ==> Valid()
      ensures (old(selectedRooms) == [] && |suggested| <= MaxRooms &&
               (forall n :: n in suggested ==> IsAvailable(rooms, n))) ==> SelectionOk()
    {
      for i := 0 to |suggested|
        invariant rooms == old(rooms)
        invariant forall n :: n in selectedRooms <==>
          n in old(selectedRooms) || (n in suggested[..i] && n in rooms)
        invariant |selectedRooms| <= |old(selectedRooms)| + i
        invariant Distinct(old(selectedRooms)) ==> Distinct(selectedRooms)
      {
        var roomNumber := suggested[i];
        assert suggested[..i + 1] == suggested[..i] + [roomNumber];
        if roomNumber in rooms {
          selectedRooms := AddToSet(selectedRooms, roomNumber);
        }
      }
      assert suggested[..|suggested|] == suggested;
    }

    /**
     `toggleRoom(roomNumber)`: a booked room is refused; a selected room is
     deselected; another room is selected unless five already are.
     */
    method ToggleRoom(roomNumber: int) returns (t: ToggleOutcome)
      requires roomNumber in rooms
      modifies this
      ensures rooms == old(rooms)
      ensures rooms[roomNumber].status == Booked ==>
        t == AlreadyBooked && selectedRooms == old(selectedRooms)
      ensures rooms[roomNumber].status == Available && roomNumber in old(selectedRooms) ==>
        t == Deselected && selectedRooms == DeleteFromSet(old(selectedRooms), roomNumber)
      ensures (rooms[roomNumber].status == Available && roomNumber !in old(selectedRooms) &&
               |old(selectedRooms)| >= MaxRooms) ==>
        t == SelectionFull && selectedRooms == old(selectedRooms)
      ensures (rooms[roomNumber].status == Available && roomNumber !in old(selectedRooms) &&
               |old(selectedRooms)| < MaxRooms) ==>
        t == Selected && selectedRooms == old(selectedRooms) + [roomNumber]
      ensures old(Valid()) ==> Valid()
      ensures old(SelectionOk()) ==> SelectionOk()
    {
      if rooms[roomNumber].status == Booked {
        return AlreadyBooked;
      }
      if roomNumber in selectedRooms {
        DeleteKeepsDistinct(selectedRooms, roomNumber);
        selectedRooms := DeleteFromSet(selectedRooms, roomNumber);
        return Deselected;
      }
      if |selectedRooms| >= MaxRooms {
        return SelectionFull;
      }
      selectedRooms := AddToSet(selectedRooms, roomNumber);
      t := Selected;
    }

    /**
     `bookRooms`: an empty selection or one of more than five rooms changes
     nothing; otherwise every selected room becomes booked (its status is not
     re-checked), the group's travel time is reported, and the selection is
     cleared.
     */
    method BookRooms() returns (b: BookingOutcome)
      requires Valid()
      modifies this
      ensures Valid()
      ensures |old(selectedRooms)| == 0 ==>
        b == NoSelection && rooms == old(rooms) && selectedRooms == old(selectedRooms)
      ensures |old(selectedRooms)| > MaxRooms ==>
        b == TooManyRooms && rooms == old(rooms) && selectedRooms == old(selectedRooms)
      ensures 1 <= |old(selectedRooms)| <= MaxRooms ==>
        && b == Confirmed(|old(selectedRooms)|, TotalTravelTime(old(rooms), old(selectedRooms)))
        && rooms == SetStatus(old(rooms), Elements(old(selectedRooms)), Booked)
        && selectedRooms == []
    {
      if |selectedRooms| == 0 {
        return NoSelection;
      }
      if |selectedRooms| > MaxRooms {
        return TooManyRooms;
      }
      ghost var before := rooms;
      var selection := selectedRooms;
      SetStatuses(selection, Booked);
      SetStatusWellFormed(before, Elements(selection), Booked);
      SetStatusTravel(before, Elements(selection), Booked, selection);
      var travelTime := TotalTravelTime(rooms, selection);
      b := Confirmed(|selection|, travelTime);
      ClearSelections();
    }

    /**
     The `forEach` loops of `bookRooms` and `resetAllBookings`: each listed
     room in turn gets status `status`.
     */
    method SetStatuses(roomNumbers: seq<int>, status: Status)
      requires forall n :: n in roomNumbers ==> n in rooms
      modifies this
      ensures rooms == SetStatus(old(rooms), Elements(roomNumbers), status)
      ensures selectedRooms == old(selectedRooms)
    {
      for i := 0 to |roomNumbers|
        invariant selectedRooms == old(selectedRooms)
        invariant rooms == SetStatus(old(rooms), Elements(roomNumbers[..i]), status)
      {
        var roomNumber := roomNumbers[i];
        assert Elements(roomNumbers[..i + 1]) == Elements(roomNumbers[..i]) + {roomNumber} by {
          assert roomNumbers[..i + 1] == roomNumbers[..i] + [roomNumber];
        }
        SetStatusStep(old(rooms), Elements(roomNumbers[..i]), status, roomNumber);
        rooms := rooms[roomNumber := rooms[roomNumber].(status := status)];
      }
      assert roomNumbers[..|roomNumbers|] == roomNumbers;
    }

    /** `resetAllBookings`: every room becomes available and the selection is cleared. */
    method ResetAllBookings()
      requires Valid()
      modifies this
      ensures rooms == AllAvailable(old(rooms))
      ensures selectedRooms == []
      ensures Valid() && SelectionOk() && AvailableRooms(rooms) == RoomNumbers()
    {
      ghost var before := rooms;
      NumbersInTable(rooms);
      SetStatuses(RoomNumbers(), Available);
      ResetByNumbers(before, rooms);
      ClearSelections();
      assert WellFormed(rooms) && (forall n :: n in selectedRooms ==> n in rooms) && Distinct(selectedRooms);
    }

    /**
     `generateRandomBookings`, with the random draws as a parameter: after a
     reset, `|draws|` rooms (20 to 30) are booked, each taken out of the pool
     of room numbers at the drawn index so that no room is drawn twice.
     */
    method GenerateRandomBookings(draws: seq<int>)
      requires Valid()
      requires 20 <= |draws| <= 30 && ValidDraws(TotalRooms, draws)
      modifies this
      ensures Valid() && selectedRooms == []
      ensures |RoomNumbers()| == TotalRooms && AvailableRooms(rooms) == Remaining(RoomNumbers(), draws)
      ensures |AvailableRooms(rooms)| == TotalRooms - |draws|
    {
      ResetAllBookings();
      PoolStart(rooms);
      BookDraws(draws);
    }

    /** The drawing loop of `generateRandomBookings`, started on a reset table. */
    method BookDraws(draws: seq<int>)
      requires selectedRooms == [] && PoolMatches(rooms, RoomNumbers())
      requires ValidDraws(TotalRooms, draws)
      modifies this
      ensures WellFormed(rooms) && selectedRooms == []
      ensures |RoomNumbers()| == TotalRooms && AvailableRooms(rooms) == Remaining(RoomNumbers(), draws)
    {
      var availableRooms := RoomNumbers();
      assert draws[..0] == [];
      for i := 0 to |draws|
        invariant selectedRooms == []
        invariant ValidDraws(|RoomNumbers()|, draws[..i])
        invariant availableRooms == Remaining(RoomNumbers(), draws[..i])
        invariant PoolMatches(rooms, availableRooms)
      {
        DrawInvariant(draws, i, rooms, availableRooms);
        var randomIndex := draws[i];
        var roomNumber := availableRooms[randomIndex];
        rooms := rooms[roomNumber := rooms[roomNumber].(status := Booked)];
        availableRooms := RemoveAt(availableRooms, randomIndex);
      }
      assert draws[..|draws|] == draws;
      PoolEnd(rooms, availableRooms);
    }
  }
}
