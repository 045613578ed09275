/**
 The building: ten floors, floors 1 to 9 with ten rooms each and floor 10 with
 seven, 97 rooms in all. A room is numbered `floor * 100 + position`
 (for floor 10 the source writes `1000 + position`, the same number).
 */
module Layout {
  import opened Seqs

  datatype Status = Available | Booked

  /** One entry of the reservation system's `rooms` table. */
  datatype Room = Room(number: int, floor: int, position: int, status: Status)

  const TopFloor := 10
  const TotalRooms := 97

  /** How many rooms a floor has. */
  function RoomsOnFloor(floor: int): nat
  {
    if floor == TopFloor then 7 else 10
  }

  function RoomNumber(floor: int, position: int): int
  {
    floor * 100 + position
  }

  /** `n` is the number of one of the building's rooms. */
  predicate IsRoomNumber(n: int)
  {
    1 <= n / 100 <= TopFloor && 1 <= n % 100 <= RoomsOnFloor(n / 100)
  }

  /** The numbering is a bijection between (floor, position) slots and room numbers. */
  lemma RoomNumberParts(floor: int, position: int)
    requires 1 <= floor <= TopFloor && 1 <= position <= RoomsOnFloor(floor)
    ensures IsRoomNumber(RoomNumber(floor, position))
    ensures RoomNumber(floor, position) / 100 == floor
    ensures RoomNumber(floor, position) % 100 == position
  {
  }

  /**
   The shape of the `rooms` table in every reachable state: exactly the 97
   room numbers are keys, and each entry carries its own number, floor and
   position; only the status varies.
   */
  ghost predicate WellFormed(rooms: map<int, Room>)
  {
    && (forall n :: n in rooms <==> IsRoomNumber(n))
    && (forall n :: n in rooms ==> rooms[n] == Room(n, n / 100, n % 100, rooms[n].status))
  }

  /**
   All room numbers in ascending order, ten per floor: the order in which the
   source creates the rooms, which is also the order `Object.values` and
   `Object.keys` list the integer keys of the table.
   */
  function RoomNumbers(): seq<int>
  {
    seq(TotalRooms, i => RoomNumber(i / 10 + 1, i % 10 + 1))
  }

  /** Entry `i` of the list is on floor `i / 10 + 1` at position `i % 10 + 1`. */
  lemma RoomNumbersEntry(i: int)
    requires 0 <= i < TotalRooms
    ensures IsRoomNumber(RoomNumbers()[i])
    ensures RoomNumbers()[i] / 100 == i / 10 + 1
    ensures RoomNumbers()[i] % 100 == i % 10 + 1
  {
    RoomNumberParts(i / 10 + 1, i % 10 + 1);
  }

  /** The list is in ascending order: floor by floor, position by position. */
  lemma RoomNumbersIncreasing()
    ensures StrictlyIncreasing(RoomNumbers())
  {
    var s := RoomNumbers();
    forall i, j | 0 <= i < j < |s| ensures s[i] < s[j] {
      assert s[i] == 100 * (i / 10) + i % 10 + 101;
      assert s[j] == 100 * (j / 10) + j % 10 + 101;
    }
  }

  /** Every room number is in the list, at index `10 * (floor - 1) + position - 1`. */
  lemma RoomNumberListed(n: int)
    requires IsRoomNumber(n)
    ensures n in RoomNumbers()
  {
    var i := (n / 100 - 1) * 10 + n % 100 - 1;
    assert i / 10 == n / 100 - 1 && i % 10 == n % 100 - 1;
    assert RoomNumbers()[i] == n;
  }

  /** The ascending list of room numbers has the 97 room numbers, each once. */
  lemma RoomNumbersFacts()
    ensures StrictlyIncreasing(RoomNumbers())
    ensures forall n :: n in RoomNumbers() <==> IsRoomNumber(n)
    ensures |RoomNumbers()| == TotalRooms
  {
    RoomNumbersIncreasing();
    forall n ensures n in RoomNumbers() <==> IsRoomNumber(n) {
      if IsRoomNumber(n) {
        RoomNumberListed(n);
      }
      if n in RoomNumbers() {
        var i :| 0 <= i < |RoomNumbers()| && RoomNumbers()[i] == n;
        RoomNumbersEntry(i);
      }
    }
  }

  /** The keys of a well-formed table are the room numbers. */
  lemma WellFormedKeys(rooms: map<int, Room>)
    requires WellFormed(rooms)
    ensures rooms.Keys == Elements(RoomNumbers())
  {
    RoomNumbersFacts();
    assert forall n :: n in rooms.Keys <==> n in Elements(RoomNumbers());
  }

  /** A well-formed table has exactly 97 rooms. */
  lemma WellFormedSize(rooms: map<int, Room>)
    requires WellFormed(rooms)
    ensures |rooms| == TotalRooms
  {
    RoomNumbersFacts();
    IncreasingCard(RoomNumbers());
    WellFormedKeys(rooms);
  }

  /** Room `n` comes before slot (`floor`, `position`) in the order the rooms are created. */
  predicate CreatedBefore(n: int, floor: int, position: int)
  {
    IsRoomNumber(n) && (n / 100 < floor || (n / 100 == floor && n % 100 < position))
  }

  /** Creating the room at one slot moves on to the next position. */
  lemma NextPosition(floor: int, position: int)
    requires 1 <= floor <= TopFloor && 1 <= position <= RoomsOnFloor(floor)
    ensures forall n :: CreatedBefore(n, floor, position + 1) <==>
      CreatedBefore(n, floor, position) || n == RoomNumber(floor, position)
  {
    RoomNumberParts(floor, position);
  }

  /** After the last position of a floor comes the first of the next floor. */
  lemma NextFloor(floor: int, next: int, end: int)
    requires 1 <= floor <= TopFloor && next == floor + 1 && end == RoomsOnFloor(floor) + 1
    ensures forall n :: CreatedBefore(n, floor, end) <==> CreatedBefore(n, next, 1)
  {
  }

  /** After the last position of the top floor every room has been created. */
  lemma AllCreated()
    ensures forall n :: CreatedBefore(n, TopFloor, RoomsOnFloor(TopFloor) + 1) <==> IsRoomNumber(n)
  {
  }

  /**
   `initializeRooms`: floors 1 to 9 with positions 1 to 10, then floor 10 with
   positions 1 to 7, every room available.
   */
  method InitializeRooms() returns (rooms: map<int, Room>)
    ensures WellFormed(rooms)
    ensures forall n :: n in rooms ==> rooms[n].status == Available
    ensures |rooms| == TotalRooms
  {
    rooms := map[];
    for floor := 1 to TopFloor
      invariant forall n :: n in rooms <==> CreatedBefore(n, floor, 1)
      invariant forall n :: n in rooms ==> rooms[n] == Room(n, n / 100, n % 100, Available)
    {
      for room := 1 to 11
        invariant forall n :: n in rooms <==> CreatedBefore(n, floor, room)
        invariant forall n :: n in rooms ==> rooms[n] == Room(n, n / 100, n % 100, Available)
      {
        var roomNumber := floor * 100 + room;
        NextPosition(floor, room);
        RoomNumberParts(floor, room);
        rooms := rooms[roomNumber := Room(roomNumber, floor, room, Available)];
      }
      NextFloor(floor, floor + 1, 11);
    }
    for room := 1 to 8
      invariant forall n :: n in rooms <==> CreatedBefore(n, TopFloor, room)
      invariant forall n :: n in rooms ==> rooms[n] == Room(n, n / 100, n % 100, Available)
    {
      var roomNumber := 1000 + room;
      NextPosition(TopFloor, room);
      RoomNumberParts(TopFloor, room);
      rooms := rooms[roomNumber := Room(roomNumber, TopFloor, room, Available)];
    }
    AllCreated();
    WellFormedSize(rooms);
  }
}
