/**
 * The booking service: the guards that decide whether a booking may be
 * created or moved, and the two writes it passes on to the store. The
 * guards only read a snapshot of the tables and of the enrollment and
 * ticket lookups, so they are functions.
 */
module BookingService {
  import opened Outcomes
  import opened Entities
  import opened Tables
  import opened BookingRepository

  /**
   * What the enrollment and ticket repositories answer: the enrollment of
   * a user, by userId, and the ticket of an enrollment, by enrollment id.
   */
  datatype Registry = Registry(enrollments: map<int, Enrollment>, tickets: map<int, Ticket>)

  /** The user's booking (`getBookingByUserId`); NotFound when the user has none. */
  function GetBookingByUserId(bookings: seq<Booking>, userId: int): (r: Result<Booking>)
    ensures r.Err? <==> forall i | 0 <= i < |bookings| :: bookings[i].userId != userId
    ensures r.Err? ==> r.error == NotFound
    ensures r.Ok? ==> exists i | 0 <= i < |bookings| ::
      bookings[i] == r.value && r.value.userId == userId && forall j | 0 <= j < i :: bookings[j].userId != userId
  {
    match ListByUserId(bookings, userId)
    case None => Err(NotFound)
    case Some(b) => Ok(b)
  }

  /**
   * The ticket rule (`verifyEnrollmentTicket`): Forbidden without an
   * enrollment, in which case no ticket is looked up; otherwise Forbidden
   * when there is no ticket, or it is RESERVED, or remote, or without hotel.
   */
  function VerifyEnrollmentTicket(registry: Registry, userId: int): (r: Outcome)
    ensures r.Fail? ==> r.error == Forbidden
    ensures userId !in registry.enrollments ==> r.Fail?
    ensures r.Pass? <==>
      && userId in registry.enrollments
      && registry.enrollments[userId].id in registry.tickets
      && registry.tickets[registry.enrollments[userId].id].status != Reserved
      && !registry.tickets[registry.enrollments[userId].id].ticketType.isRemote
      && registry.tickets[registry.enrollments[userId].id].ticketType.includesHotel
  {
    if userId !in registry.enrollments then Fail(Forbidden)
    else
      var enrollment := registry.enrollments[userId];
      if enrollment.id !in registry.tickets then Fail(Forbidden)
      else
        var ticket := registry.tickets[enrollment.id];
        if ticket.status == Reserved || ticket.ticketType.isRemote || !ticket.ticketType.includesHotel then
          Fail(Forbidden)
        else
          Pass
  }

  /** Without an enrollment the answer does not depend on any ticket. */
  lemma NoEnrollmentIgnoresTickets(registry: Registry, tickets: map<int, Ticket>, userId: int)
    requires userId !in registry.enrollments
    ensures VerifyEnrollmentTicket(registry, userId) == Fail(Forbidden)
    ensures VerifyEnrollmentTicket(registry.(tickets := tickets), userId) == Fail(Forbidden)
  {
  }

  /**
   * The room rule (`checkBookingValidity`): NotFound when no room has the
   * id, whatever the bookings; otherwise Forbidden when the room already
   * holds `capacity` bookings or more.
   */
  function CheckBookingValidity(bookings: seq<Booking>, rooms: seq<Room>, roomId: int): (r: Outcome)
    ensures r == Fail(NotFound) <==> forall i | 0 <= i < |rooms| :: rooms[i].id != roomId
    ensures r == Fail(Forbidden) <==>
      exists i | 0 <= i < |rooms| :: rooms[i].id == roomId && ListByIdRoom(rooms, roomId).value.capacity <= Occupancy(bookings, roomId)
    ensures r.Pass? ==> exists i | 0 <= i < |rooms| :: rooms[i].id == roomId && Occupancy(bookings, roomId) < rooms[i].capacity
  {
    var room := ListByIdRoom(rooms, roomId);
    var occupants := ListByRoomId(bookings, roomId);
    if room.None? then Fail(NotFound)
    else if room.value.capacity <= |occupants| then Fail(Forbidden)
    else Pass
  }

  /**
   * With unique room ids the room rule reads as: the room exists and its
   * occupancy is below its capacity. A room holding exactly `capacity`
   * bookings is full; one holding `capacity - 1` is not.
   */
  lemma {:induction false} RoomRuleByIndex(bookings: seq<Booking>, rooms: seq<Room>, k: nat)
    requires UniqueRoomIds(rooms) && k < |rooms|
    ensures CheckBookingValidity(bookings, rooms, rooms[k].id).Pass? <==> Occupancy(bookings, rooms[k].id) < rooms[k].capacity
    ensures Occupancy(bookings, rooms[k].id) == rooms[k].capacity ==> CheckBookingValidity(bookings, rooms, rooms[k].id) == Fail(Forbidden)
  {
    ListByIdRoomUnique(rooms, k);
  }

  /**
   * Filling the last place: a room one booking short of its capacity
   * accepts the next booking, is then exactly full, and refuses the one
   * after it.
   */
  lemma {:induction false} LastPlaceThenFull(bookings: seq<Booking>, rooms: seq<Room>, k: nat, b: Booking)
    requires UniqueRoomIds(rooms) && k < |rooms|
    requires Occupancy(bookings, rooms[k].id) == rooms[k].capacity - 1
    requires b.roomId == rooms[k].id
    ensures CheckBookingValidity(bookings, rooms, b.roomId).Pass?
    ensures Occupancy(bookings + [b], b.roomId) == rooms[k].capacity
    ensures CheckBookingValidity(bookings + [b], rooms, b.roomId) == Fail(Forbidden)
  {
    RoomRuleByIndex(bookings, rooms, k);
    OccupancyAfterInsert(bookings, b, b.roomId);
    RoomRuleByIndex(bookings + [b], rooms, k);
  }

  /** Adding a booking to a room that passed the room rule keeps every room within capacity. */
  lemma {:induction false} InsertKeepsWithinCapacity(bookings: seq<Booking>, rooms: seq<Room>, b: Booking)
    requires UniqueRoomIds(rooms) && WithinCapacity(bookings, rooms)
    requires CheckBookingValidity(bookings, rooms, b.roomId).Pass?
    ensures WithinCapacity(bookings + [b], rooms)
  {
    forall i | 0 <= i < |rooms|
      ensures Occupancy(bookings + [b], rooms[i].id) <= rooms[i].capacity
    {
      OccupancyAfterInsert(bookings, b, rooms[i].id);
      if rooms[i].id == b.roomId {
        RoomRuleByIndex(bookings, rooms, i);
      }
    }
  }

  /**
   * Moving the booking at position k to a room that passed the room rule
   * keeps every room within capacity: the target room gains at most one
   * booking and no other room gains any.
   */
  lemma {:induction false} MoveKeepsWithinCapacity(bookings: seq<Booking>, rooms: seq<Room>, k: nat, roomId: int)
    requires UniqueRoomIds(rooms) && WithinCapacity(bookings, rooms)
    requires k < |bookings|
    requires CheckBookingValidity(bookings, rooms, roomId).Pass?
    ensures WithinCapacity(bookings[k := bookings[k].(roomId := roomId)], rooms)
  {
    var moved := bookings[k].(roomId := roomId);
    forall i | 0 <= i < |rooms|
      ensures Occupancy(bookings[k := moved], rooms[i].id) <= rooms[i].capacity
    {
      OccupancyAfterReplace(bookings, k, moved, rooms[i].id);
      if rooms[i].id == roomId {
        RoomRuleByIndex(bookings, rooms, i);
      }
    }
  }

  /** Inserts the booking {roomId, userId} without any check of its own (`createBooking`). */
  method CreateBooking(store: BookingStore, roomId: int, userId: int) returns (r: Option<Booking>)
    requires store.Valid()
    modifies store
    ensures store.Valid() && store.rooms == old(store.rooms)
    ensures r.Some? <==> RoomExists(store.rooms, roomId)
    ensures r.None? ==> store.bookings == old(store.bookings)
    ensures r.Some? ==> r.value.roomId == roomId && r.value.userId == userId
    ensures r.Some? ==> store.bookings == old(store.bookings) + [r.value]
  {
    r := store.CreateBooking(roomId, userId);
  }

  /**
   * Updates booking `id` to the given roomId and userId (`editBooking`),
   * passing the three values to the store's update in the order of its
   * parameters (userId, roomId, bookingId).
   */
  method EditBooking(store: BookingStore, id: int, roomId: int, userId: int) returns (r: Option<Booking>)
    requires store.Valid()
    modifies store
    ensures store.Valid() && store.rooms == old(store.rooms)
    ensures r.Some? <==>
      RoomExists(store.rooms, roomId) && exists i | 0 <= i < |old(store.bookings)| :: old(store.bookings)[i].id == id
    ensures r.None? ==> store.bookings == old(store.bookings)
    ensures r.Some? ==> r.value == Booking(id, roomId, userId)
    ensures r.Some? ==> |store.bookings| == |old(store.bookings)| && forall i | 0 <= i < |store.bookings| ::
      store.bookings[i] == if old(store.bookings)[i].id == id then r.value else old(store.bookings)[i]
  {
    r := store.EditBooking(userId, roomId, id);
  }
}
