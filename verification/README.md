# Hotel booking decision layer, modelled in Dafny

This project models the booking part of a conference back end: an
authenticated user may read their booking, book a hotel room, or move
their booking to another room. The model covers three layers:

- the booking store (booking and room tables with their `where` queries, an insert and an update by id);
- the booking service (the ticket rule, the room-capacity rule and the "my booking" lookup);
- the controller sequence that decides which error wins and writes the store only as its last step.

Layout, one module per source component:

- `outcomes.dfy` (`Outcomes`): the error kinds `BadRequest | Forbidden | NotFound`, their HTTP codes, `Option`, `Result`, `Outcome`.
- `entities.dfy` (`Entities`): `Booking {id, roomId, userId}`, `Room {id, hotelId, capacity}`, `Enrollment`, `Ticket`, `TicketType`.
- `tables.dfy` (`Tables`): the two query shapes, `findMany` with a filter (`Filter`) and `findFirst` with a filter (`FirstWhere`), and how counts change under append and replace.
- `booking_repository.dfy` (`BookingRepository`): the queries as functions over a snapshot of the tables. Class `BookingStore` holds the tables and changes them in place (`CreateBooking` appends, `EditBooking` rewrites the row with a given id).
- `booking_service.dfy` (`BookingService`): the guards as functions, the capacity lemmas, and the two delegating writes.
- `booking_controller.dfy` (`BookingController`): `ListBooking`, `CreateBooking` and `EditBooking` as methods over a `BookingStore`.
- `edit_argument_binding.dfy` (`EditArgumentBinding`): how the service's edit call binds to the store's update parameters (see Findings).

The store keeps these invariants in `BookingStore.Valid`:

- booking ids are unique and below the next autoincrement id;
- room ids are unique;
- every booking references an existing room (the database's foreign key).

`WithinCapacity` says that no room holds more bookings than its capacity. The store does not enforce it. The controller's create and edit preserve it.

The enrollment and ticket repositories are not part of this model. Their answers come in as a `Registry`:

- the enrollment of a user, keyed by userId;
- the ticket of an enrollment, keyed by enrollment id.

The model follows the code, also where the tests or the intended behaviour say otherwise:

- Ticket status: the code refuses only `RESERVED` (src/services/booking-service/index.ts:23). It does not require `PAID`.
- Edit by a user without a booking: `getBookingByUserId` throws NotFound (404) first. It is not a 403.
- Owner check in edit: the found booking always belongs to the caller, so the 403 owner-mismatch branch (src/controllers/booking-controller.ts:59-62) never fires.
- Create with a missing `roomId`: the code has no check for it, so there is no 400 on create, although tests/unit/booking-unit.ts:145-154 expects one.

## Model

| member | source | states |
|---|---|---|
| `Outcomes.StatusCode` | src/controllers/booking-controller.ts:49-62 | BadRequest, Forbidden and NotFound map to 400, 403 and 404, one code per kind |
| `BookingRepository.ListByRoomId` | src/repositories/booking-repository/index.ts:20-29 | returns exactly the bookings whose roomId matches: each result row is a table row of that room, and every such table row is in the result |
| `BookingRepository.OccupancyCountsRows` | src/repositories/booking-repository/index.ts:20-29 | the length of the room listing (the occupancy) equals the number of table positions holding a booking of that room |
| `BookingRepository.List1ByRoomId` | src/repositories/booking-repository/index.ts:31-37 | none iff no booking has the roomId; otherwise the earliest table row with that roomId |
| `BookingRepository.ListByUserId` | src/repositories/booking-repository/index.ts:40-49 | none iff no booking has the userId; otherwise the earliest table row with that userId |
| `BookingRepository.ListByHotelId` | src/repositories/booking-repository/index.ts:66-72 | returns exactly the rooms whose hotelId matches |
| `BookingRepository.HotelListingCountsRows` | src/repositories/booking-repository/index.ts:66-72 | the hotel listing has exactly one entry per table position holding a room of that hotel, so no room is repeated or dropped |
| `BookingRepository.ListByIdRoom` | src/repositories/booking-repository/index.ts:75-81 | none iff no room has the id; otherwise a room of the table with that id |
| `BookingRepository.ListByIdRoomUnique` | src/repositories/booking-repository/index.ts:75-81 | with unique room ids, looking up a room's id yields that very room |
| `BookingRepository.OccupancyAfterInsert` | src/repositories/booking-repository/index.ts:10-17 | an inserted booking adds one to its own room's occupancy and nothing to any other room's |
| `BookingRepository.OccupancyAfterReplace` | src/repositories/booking-repository/index.ts:52-63 | rewriting one row moves one unit of occupancy from the old row's room to the new row's room |
| `BookingRepository.UpdateByIdIsReplace` | src/repositories/booking-repository/index.ts:52-63 | with unique booking ids, an update selected by a row's id rewrites that row and no other |
| `BookingRepository.BookingStore.CreateBooking` | src/repositories/booking-repository/index.ts:10-17 | appends one booking carrying the given roomId and userId under an id no existing booking has; existing rows and rooms are unchanged; refused with no change when the room does not exist |
| `BookingRepository.BookingStore.EditBooking` | src/repositories/booking-repository/index.ts:52-63 | the row whose id is bookingId gets the given roomId and userId and keeps its id; all other rows are untouched; refused with no change when no row has that id or the room does not exist |
| `BookingService.GetBookingByUserId` | src/services/booking-service/index.ts:8-13 | NotFound iff no booking has the userId; otherwise the earliest booking of the table whose userId is the caller's |
| `BookingService.VerifyEnrollmentTicket` | src/services/booking-service/index.ts:16-26 | only error is Forbidden; Forbidden without an enrollment; passes iff the enrollment has a ticket that is not RESERVED, not remote and includes the hotel |
| `BookingService.NoEnrollmentIgnoresTickets` | src/services/booking-service/index.ts:17-20 | without an enrollment the answer is Forbidden whatever the ticket table holds, so no ticket lookup decides it |
| `BookingService.CheckBookingValidity` | src/services/booking-service/index.ts:29-35 | NotFound iff no room has the id, whatever the bookings; Forbidden iff the room exists and its capacity is at most its occupancy; a pass means the room exists with occupancy below capacity |
| `BookingService.RoomRuleByIndex` | src/services/booking-service/index.ts:34 | for a room of the table: passes iff occupancy is below capacity, and a room with exactly capacity bookings is refused Forbidden |
| `BookingService.LastPlaceThenFull` | src/services/booking-service/index.ts:29-35 | a room one booking short of capacity accepts the next booking, is then exactly full, and refuses a further booking with Forbidden |
| `BookingService.InsertKeepsWithinCapacity` | src/controllers/booking-controller.ts:32-34 | inserting into a room that passed the room rule keeps every room within capacity |
| `BookingService.MoveKeepsWithinCapacity` | src/controllers/booking-controller.ts:64-71 | moving one booking to a room that passed the room rule keeps every room within capacity |
| `BookingService.CreateBooking` | src/services/booking-service/index.ts:38-40 | hands {roomId, userId} to the store's insert with no check of its own; the outcome is the store's |
| `BookingService.EditBooking` | src/services/booking-service/index.ts:43-45 | updates booking id with roomId and userId by calling the store's update with (userId, roomId, id); only that row changes |
| `BookingController.ListBooking` | src/controllers/booking-controller.ts:12-23 | NotFound iff the caller has no booking; otherwise the id of the caller's earliest booking (the one edit moves) and the room that booking references, a room of the table |
| `BookingController.CreateBooking` | src/controllers/booking-controller.ts:27-42 | ticket rule first (Forbidden), then room rule (its NotFound or Forbidden), with no write on either failure; success iff both pass, appending {new id, roomId, userId}, raising the room's occupancy by one and keeping every room within capacity |
| `BookingController.EditBooking` | src/controllers/booking-controller.ts:45-97 | a path id of 0 or NaN is BadRequest whatever the store holds; then NotFound when the caller has no booking; then the room rule's error; no write on any failure; on success the caller's booking (not the path id) keeps its id and user, gets the new roomId, its id is returned, and capacity is kept (with the service's call in parameter order; see Findings) |
| `EditArgumentBinding.AsWrittenEditIsRejected` | src/services/booking-service/index.ts:43-45 | the call as written binds the object to userId and leaves bookingId undefined, so the update is rejected for every input |
| `EditArgumentBinding.MissingRoomIdLeavesRoom` | src/controllers/booking-controller.ts:55-71 | an update whose roomId is undefined is accepted with the id filter and userId, and leaves the room column unchanged |
| `EditArgumentBinding.IntendedEditReachesUpdate` | src/repositories/booking-repository/index.ts:52-63 | the call in parameter order delivers (userId, roomId, booking id) to the update |

## Findings

| source | as written | input that shows it | evidently intended | confidence | as-written member | corrected member |
|---|---|---|---|---|---|---|
| src/services/booking-service/index.ts:44 | `editBooking({ id, roomId, userId })` passes one object to the store's `editBooking(userId, roomId, bookingId)` (src/repositories/booking-repository/index.ts:52); the object lands in `userId`, and `roomId` and `bookingId` are undefined | any edit, e.g. id 1, roomId 2, userId 3: the update's id filter is undefined and the database client rejects the query | update booking `id` with `roomId` and `userId` | not executed; high | `EditArgumentBinding.AsWrittenEditIsRejected` | `BookingService.EditBooking` |

## Left out

- HTTP routing, middleware, token authentication and response writing: `userId` is an input, and outcomes are error kinds with their status codes.
- The database client: the tables are sequences in memory. Not modelled: timestamps (`updatedAt`), room names and other columns, the `include: { Room }` join beyond the room record, and database failures other than the foreign-key and missing-row refusals.
- The user foreign key of a booking: users are not modelled.
- The enrollment and ticket repositories are not part of this model. Their answers are the `Registry` maps.
- Concurrency: each operation runs atomically on one snapshot of the store, so the race between the capacity read and the insert is not modelled.
- BookingController.CreateBooking: `roomId` is taken as a number. A request body without `roomId` is not modelled: the database client then ignores the `undefined` filter, so the room lookup returns the first room and the occupancy counts all bookings.
- BookingController.EditBooking: `roomId` is taken as a number, as for create. A body without `roomId` is not modelled: the room rule then runs on the first room and all bookings, and the update leaves the booking's room unchanged.
- BookingController.EditBooking: the path id is reduced to NaN or a real number. `Infinity` is not distinguished, because only "0 or NaN" matters to the code.
- The unit tests of the service's edit (tests/unit/booking-unit.ts:191-266) expect lookups and capacity checks that the service does not perform. They are not modelled.
- Row order: `findFirst`/`findMany` return rows in sequence order, an insert goes at the end and an update keeps its row's position; the database leaves this order unspecified without `orderBy`, so for a user with several bookings the model fixes which one is listed and moved where the database does not.
- Idempotence of a failed create or edit has no lemma of its own: the outcome is fixed by the prior store, as the method contracts say.
