# Hotel room reservation: a verified model of the allocation core

This Dafny project models the room-allocation logic of the browser-based
`HotelReservationSystem` (`scripts.js`) and proves what it does.

**The building.** It has ten floors.
- Floors 1 to 9 have ten rooms each; floor 10 has seven. That is 97 rooms.
- Each room is numbered `floor * 100 + position`.
- Each room is available or booked.

**The reservation system.** It keeps a `rooms` table keyed by room number, and the set of rooms the guest has selected.
- **Suggest.** The guest asks for 1 to 5 rooms. The allocation engine (`findOptimalRooms`) first tries to place the whole group on one floor. It takes the first available rooms of each floor that has enough of them, and keeps the cheapest floor. Because the comparison is strict, the lowest floor wins a tie. When no floor can hold the group, it searches across floors:
  - for up to three rooms, every combination of available rooms, in lexicographic order, keeping the first cheapest;
  - for four or five rooms, the first rooms in number order.
- **Select.** The guest can select and deselect rooms, at most five.
- **Book.** The guest can book the selection.
- **Reset.** All bookings can be reset.
- **Random bookings.** The system can book 20 to 30 random rooms.

**The travel-time metric.**
- Two rooms on different floors cost two minutes per floor between them.
- Two rooms on one floor cost one minute per position between them.
- A group costs the pair cost between its smallest and largest room numbers.

**Modules.**
- `Seqs`: sequence helpers. Ordering and the facts about ascending sequences, the elements of a sequence as a set, a filter, removal at an index, lexicographic order.
- `Layout`: the room numbering, the shape of a valid table (`WellFormed`) and `initializeRooms`.
- `Travel`: the pair cost, the group cost, and the sort that the group cost uses.
- `Allocation`: `findOptimalRooms` and its recursive `findBestCombination`. The engine reads the table it is given. The loops are methods. Each is proved equal to a specification function:
  - `FloorScan` for the floor loop;
  - `Scan` over `Visits` for the backtracking search.

  The lemmas then show what those functions choose.
- `Reservation`: the class `HotelReservationSystem`. It has the `rooms` map and the `selectedRooms` sequence, and methods for the guest's actions.

**Two behaviours of the code worth knowing.**
- `bookRooms` does not re-check that each selected room is still available (scripts.js:202-203). `BookRooms` books every selected room whatever its status.
- The suggested rooms join the selection through delayed callbacks (scripts.js:100-104). These callbacks re-check nothing, so the selection can exceed five rooms or include a booked room. `AcceptSuggestion` models them that way. This is why `bookRooms` needs its own over-five check (scripts.js:196). An example:
  1. The guest suggests room 101.
  2. Before the delay ends, the guest selects 101 and books it.
  3. The callback then puts the booked room 101 back into the selection.

## Model

| member | source | states |
|---|---|---|
| Layout.InitializeRooms | scripts.js:10-34 | the new table is well formed: exactly the 97 room numbers (floors 1-9 with positions 1-10, floor 10 with positions 1-7), each entry carrying its number, its floor and its position; every room is available; there are 97 entries |
| Layout.RoomNumbersFacts | scripts.js:10-34 | the creation order of the rooms is strictly ascending, lists exactly the 97 room numbers, and is 97 long |
| Reservation.HotelReservationSystem.constructor | scripts.js:2-5 | a new system has a well-formed table with every room available and an empty selection |
| Travel.TravelTime | scripts.js:225-241 | the pair cost is a natural number and is 0 from a room to itself |
| Travel.TravelTimeSymmetric | scripts.js:225-241 | the pair cost is symmetric |
| Travel.TravelTimeInBuilding | scripts.js:225-241 | in a valid table the pair cost is the difference of the numbers on one floor, twice the floor difference across floors, and 0 only from a room to itself |
| Travel.Insert | scripts.js:217 | defines insertion of a number into an ascending list, before the first element not smaller; the result is one longer |
| Travel.Sort | scripts.js:217 | defines the ascending numeric sort (`sort((a, b) => a - b)`) as an insertion sort; the result has the input's length, and SortFacts shows it is an ascending permutation |
| Travel.SortFacts | scripts.js:217 | the numeric sort returns an ascending permutation of its input |
| Seqs.SortedUnique | scripts.js:217 | an ascending permutation is unique, so every correct sort gives the same list |
| Travel.TotalTravelTime | scripts.js:214-222 | defines `calculateTotalTravelTime`: 0 for no room or one room, otherwise the pair cost between the first and the last element of the ascending sort; its properties are in the three lemmas below |
| Travel.TotalTravelTimeOrderFree | scripts.js:214-222 | the group cost depends only on the multiset of rooms, not on their order |
| Travel.TotalTravelTimeSpan | scripts.js:214-222 | for two or more rooms the group cost is the pair cost between the least and the greatest room |
| Travel.TotalTravelTimeZero | scripts.js:214-222 | in a valid table the group cost is 0 exactly when the group has at most one distinct room (so always for 0 or 1 rooms) |
| Allocation.AvailableRooms | scripts.js:112-114 | defines `availableRooms`: the room numbers, in ascending order, filtered to the available rooms |
| Allocation.AvailableRoomsFacts | scripts.js:112-114 | the available-room list is strictly ascending and holds exactly the available rooms |
| Allocation.FloorRooms | scripts.js:125 | defines `floorRooms`: the available rooms of one floor, in the order of the available-room list |
| Allocation.FloorCandidate | scripts.js:126-128 | defines the candidate of a floor with at least `count` available rooms: the first `count` of them |
| Allocation.FloorCandidateLowest | scripts.js:125-128 | a floor's candidate is `count` available rooms of that floor at lower positions than every available room of that floor left out |
| Allocation.Consider | scripts.js:129-133 | defines one comparison of the search: a candidate replaces the best so far when nothing was found yet (`Infinity`) or its group cost is strictly lower |
| Allocation.Scan | scripts.js:146-150 | defines the search state after a list of candidates meets `Consider` one after the other, in order |
| Allocation.ScanChoice | scripts.js:146-150 | a strict-`<` scan ends at the initial state or at a candidate no dearer than any candidate and strictly cheaper than every earlier one |
| Allocation.SameFloorSearch | scripts.js:124-135 | the floor loop computes `FloorScan` over floors 1 to 10 |
| Allocation.FloorScan | scripts.js:124-135 | defines the state of the floor loop after floors 1 to `floor - 1`: each floor that has `count` available rooms offers its candidate to `Consider` |
| Allocation.FloorScanFound | scripts.js:124-135 | the floor loop finds something exactly when some floor has `count` available rooms, and otherwise the state is still empty |
| Allocation.FloorScanChoice | scripts.js:124-135 | once it has found something, the floor loop holds the candidate of a qualifying floor. No qualifying floor is cheaper, and every lower qualifying floor is strictly dearer |
| Allocation.SameFloorOutcome | scripts.js:137-140 | a same-floor result is `count` available rooms in ascending order, chosen by the same-floor rule |
| Allocation.NoFloorOutcome | scripts.js:137-140 | when the floor loop finds nothing, no floor qualifies and the search state is still empty |
| Allocation.Visits | scripts.js:145-158 | defines the combinations `findBestCombination(rooms, cur, start)` reaches, in visiting order: `cur` itself once it has `count` rooms, otherwise the visits of the loop from `start` to the end |
| Allocation.Branches | scripts.js:154-158 | defines the visits of the loop iterations `i = lo` to `hi - 1`, iteration `i` extending the combination by the `i`-th available room and recursing from `i + 1` |
| Allocation.FindBestCombination | scripts.js:144-159 | the backtracking search leaves the scan of the combinations `Visits` enumerates |
| Allocation.VisitsShape | scripts.js:154-158 | the search visits only combinations of `count` distinct available rooms in ascending order that extend the current prefix, in strictly increasing lexicographic order |
| Allocation.VisitsComplete | scripts.js:154-158 | every ascending extension of the current prefix by later available rooms is visited |
| Allocation.CombinationSearch | scripts.js:161-163 | the exhaustive search from nothing finds a combination no combination beats, and every lexicographically earlier combination is strictly dearer |
| Allocation.CrossFloorSearch | scripts.js:161-167 | the cross-floor result has `count` distinct available rooms; it is the cheapest and first in search order for up to 3 rooms, and otherwise the first `count` rooms by number |
| Allocation.FindOptimalRooms | scripts.js:111-170 | empty exactly when fewer than `count` rooms are available; otherwise `count` distinct available rooms in ascending order. The result follows the same-floor rule when a floor qualifies, and the cross-floor rule otherwise |
| Reservation.HotelReservationSystem.SuggestRooms | scripts.js:80-93 | a count outside 1-5 is refused with nothing changed. Otherwise the selection is cleared and the table is untouched, and the reply is NotEnoughRooms exactly when too few rooms are available. A suggestion is the engine's choice |
| Reservation.HotelReservationSystem.AcceptSuggestion | scripts.js:96-106 | the suggested numbers that are rooms join the selection and nothing else changes. The selection stays valid, and obeys the selection rule when it started empty and all suggested rooms are available |
| Reservation.AddToSet | scripts.js:291 | adding to a set keeps it duplicate-free and adds exactly that element |
| Reservation.DeleteFromSet | scripts.js:284 | deleting from a set removes exactly that element and keeps the others |
| Reservation.DeleteKeepsDistinct | scripts.js:284 | deleting from a duplicate-free selection leaves it duplicate-free |
| Reservation.HotelReservationSystem.ToggleRoom | scripts.js:274-296 | a booked room is refused; a selected room is deselected; otherwise the room is appended unless five are selected. The table is unchanged, and validity and the selection rule (no booked room, at most five) are preserved |
| Reservation.HotelReservationSystem.BookRooms | scripts.js:190-212 | an empty selection or one over five changes nothing. Otherwise exactly the selected rooms become booked, every other entry is unchanged, the group cost is reported and the selection is cleared |
| Reservation.HotelReservationSystem.SetStatuses | scripts.js:202-206 | the status loop sets exactly the listed rooms to the given status and leaves the selection alone |
| Reservation.SetStatus | scripts.js:202-203 | defines the table after the rooms of a set get a given status: those entries change only their status, every other entry stays as it was, and the keys are the same |
| Reservation.SetStatusWellFormed | scripts.js:202-203 | changing statuses keeps the table well formed with the same keys |
| Reservation.BookedAvailability | scripts.js:202-206 | after booking a set of rooms the available-room list is the old list without those rooms, in the same order |
| Reservation.HotelReservationSystem.ClearSelections | scripts.js:298-299 | the selection becomes empty and the table is unchanged |
| Reservation.HotelReservationSystem.ResetAllBookings | scripts.js:243-254 | every room becomes available, the selection is cleared, and the available-room list is all 97 rooms |
| Reservation.AllAvailable | scripts.js:244-246 | defines the table after a reset: every entry with status available, nothing else changed |
| Reservation.ResetAvailability | scripts.js:244-246 | a reset table is well formed and lists all 97 rooms as available, in number order |
| Reservation.ResetIdempotent | scripts.js:243-254 | resetting twice gives the same table as resetting once |
| Reservation.HotelReservationSystem.GenerateRandomBookings | scripts.js:256-272 | after a reset, the rooms at the drawn pool indices are booked. The available rooms are exactly the pool that remains, which is 97 minus the number of draws |
| Reservation.HotelReservationSystem.BookDraws | scripts.js:263-268 | the drawing loop leaves as available exactly the pool that remains after the draws |
| Seqs.RemoveAt | scripts.js:267 | defines `splice(k, 1)`: the list without the entry at index `k`, one shorter |
| Reservation.Remaining | scripts.js:263-267 | defines the pool left after taking out, one draw after another, the entry at each drawn index; it is shorter by the number of draws |
| Reservation.RemainingFacts | scripts.js:263-268 | removing drawn entries keeps the pool strictly ascending and made of original entries, so no room is drawn twice |
| Reservation.DrawBooking | scripts.js:264-267 | booking the drawn room and removing it from the pool keeps the pool equal to the list of available rooms |

## Left out

- Rendering and event wiring are presentation only and are not modelled. This covers `renderBuilding`, `attachEventListeners`, the `classList`/`className` updates, `updateBookingSummary` and the display part of `clearSelections` (scripts.js:36-78, 172-188, 300-303).
- `alert` messages are not modelled. Each refusal or confirmation is a returned value instead: `Suggestion`, `BookingOutcome`, `ToggleOutcome`.
- The two-second `setTimeout` callbacks of `suggestRooms` are not scheduled. `AcceptSuggestion` runs them all at once and in order, so other actions interleaving with the pending callbacks are not modelled.
- The `if (roomElement)` guard (scripts.js:98), which decides whether a callback is scheduled at all, is modelled as "the number is a room of the table", the condition under which the element exists.
- `parseInt` of the input field, including `NaN`: the count is an integer parameter.
- `Math.random` in `generateRandomBookings`: it becomes the `draws` parameter, one valid pool index per booking. The number of draws is given by the length of `draws`.
- The `Infinity` sentinel of `minTravelTime`: modelled as the `found` flag of `Best`.
- JavaScript's `sort` is modelled by an insertion sort. `SortedUnique` shows every correct ascending sort gives the same list.
- `Object.values(...).filter(...).sort(...)` becomes a filter of the ascending room-number list. For a well-formed table this gives the same list (`AvailableRoomsFacts`).
- The source's `Set` becomes a duplicate-free sequence in insertion order.
- The shared `currentCombination` array that is pushed and popped becomes the value `cur + [avail[i]]`.
- Layout.InitializeRooms: it returns the table instead of writing the `rooms` field; the constructor stores the result.
- Reservation.HotelReservationSystem.ToggleRoom: requires a room number of the table. For any other number the source dereferences `undefined` and throws.
- Reservation.HotelReservationSystem.BookRooms: requires `Valid()`. Every number in the selection must be a room of the table; for any other number the source would throw.
- Reservation.HotelReservationSystem.ResetAllBookings: requires `Valid()`. The proof that every room becomes available uses the table's shape.
- Reservation.HotelReservationSystem.GenerateRandomBookings: requires `Valid()` and 20 to 30 valid draws, the range `Math.floor(Math.random() * 11) + 20` produces. The final re-render and alert are not modelled.
- Allocation.FindOptimalRooms: accepts any natural count. Its only caller passes 1 to 5.
