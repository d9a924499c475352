/**
 * The three booking requests (read, create, move) as step-by-step methods
 * over the store. Each returns the booking id (or the user's booking and
 * its room) or the error kind that stopped it; the store is written only
 * by the last step, so a request that fails changes nothing.
 */
module BookingController {
  import opened Outcomes
  import opened Entities
  import opened BookingRepository
  import BookingService

  /** What the path parameter converts to: a number, or NaN when it is not one. */
  datatype JsNumber = NaN | Num(value: real)

  /** The values a JavaScript `if (!n)` rejects: 0 and NaN. */
  predicate Falsy(n: JsNumber)
  {
    n.NaN? || n.value == 0.0
  }

  /** The answer to a read: the booking id and the room it is in. */
  datatype BookingView = BookingView(id: int, room: Room)

  /** GET: the caller's booking and its room (`listBooking`); NotFound when the caller has none. */
  method ListBooking(store: BookingStore, userId: int) returns (r: Result<BookingView>)
    requires store.Valid()
    ensures r.Err? <==> forall i | 0 <= i < |store.bookings| :: store.bookings[i].userId != userId
    ensures r.Err? ==> r.error == NotFound
    ensures r.Ok? ==> exists i | 0 <= i < |store.bookings| ::
      && store.bookings[i].id == r.value.id
      && store.bookings[i].userId == userId
      && store.bookings[i].roomId == r.value.room.id
      && forall j | 0 <= j < i :: store.bookings[j].userId != userId
    ensures r.Ok? ==> r.value.room in store.rooms
  {
    var found := BookingService.GetBookingByUserId(store.bookings, userId);
    if found.Err? {
      return Err(found.error);
    }
    var booking := found.value;
    var i :| 0 <= i < |store.bookings| && store.bookings[i] == booking;
    assert RoomExists(store.rooms, store.bookings[i].roomId);
    var room := ListByIdRoom(store.rooms, booking.roomId);
    r := Ok(BookingView(booking.id, room.value));
  }

  /**
   * POST: ticket rule, then room rule, then insert (`createBooking`). The
   * first rule that fails decides the error and nothing is written; on
   * success the new booking {roomId, userId} is appended and its id returned.
   */
  method CreateBooking(store: BookingStore, registry: BookingService.Registry, userId: int, roomId: int)
    returns (r: Result<int>)
    requires store.Valid()
    modifies store
    ensures store.Valid() && store.rooms == old(store.rooms)
    ensures BookingService.VerifyEnrollmentTicket(registry, userId).Fail? ==>
      r == Err(Forbidden) && store.bookings == old(store.bookings)
    ensures var valid := BookingService.CheckBookingValidity(old(store.bookings), store.rooms, roomId);
      BookingService.VerifyEnrollmentTicket(registry, userId).Pass? && valid.Fail? ==>
        r == Err(valid.error) && store.bookings == old(store.bookings)
    ensures r.Ok? <==>
      && BookingService.VerifyEnrollmentTicket(registry, userId).Pass?
      && BookingService.CheckBookingValidity(old(store.bookings), store.rooms, roomId).Pass?
    ensures r.Ok? ==> store.bookings == old(store.bookings) + [Booking(r.value, roomId, userId)]
    ensures r.Ok? ==> Occupancy(store.bookings, roomId) == Occupancy(old(store.bookings), roomId) + 1
    ensures old(WithinCapacity(store.bookings, store.rooms)) ==> WithinCapacity(store.bookings, store.rooms)
  {
    var eligible := BookingService.VerifyEnrollmentTicket(registry, userId);
    if eligible.Fail? {
      return Err(eligible.error);
    }
    var valid := BookingService.CheckBookingValidity(store.bookings, store.rooms, roomId);
    if valid.Fail? {
      return Err(valid.error);
    }
    ghost var before := store.bookings;
    var created := BookingService.CreateBooking(store, roomId, userId);
    var booking := created.value;
    OccupancyAfterInsert(before, booking, roomId);
    if WithinCapacity(before, store.rooms) {
      BookingService.InsertKeepsWithinCapacity(before, store.rooms, booking);
    }
    r := Ok(booking.id);
  }

  /**
   * PUT: move the caller's booking to another room (`editBooking`). A path
   * id that converts to 0 or NaN is a BadRequest before the store is read;
   * then the caller's booking is looked up (NotFound when there is none),
   * then the room rule is applied, and only then is the booking updated.
   * The booking moved is the caller's own, whatever the path id: it keeps
   * its id and its user and only its roomId changes. No ticket is checked.
   */
  method EditBooking(store: BookingStore, userId: int, bookingId: JsNumber, roomId: int)
    returns (r: Result<int>)
    requires store.Valid()
    modifies store
    ensures store.Valid() && store.rooms == old(store.rooms)
    ensures r.Err? ==> store.bookings == old(store.bookings)
    ensures Falsy(bookingId) ==> r == Err(BadRequest)
    ensures !Falsy(bookingId) && (forall i | 0 <= i < |old(store.bookings)| :: old(store.bookings)[i].userId != userId) ==>
      r == Err(NotFound)
    ensures var found := ListByUserId(old(store.bookings), userId);
      var valid := BookingService.CheckBookingValidity(old(store.bookings), store.rooms, roomId);
      !Falsy(bookingId) && found.Some? ==>
        r == if valid.Fail? then Err(valid.error) else Ok(found.value.id)
    ensures r.Ok? ==> exists k | 0 <= k < |old(store.bookings)| ::
      && old(store.bookings)[k].userId == userId
      && old(store.bookings)[k].id == r.value
      && store.bookings == old(store.bookings)[k := old(store.bookings)[k].(roomId := roomId)]
    ensures old(WithinCapacity(store.bookings, store.rooms)) ==> WithinCapacity(store.bookings, store.rooms)
  {
    if Falsy(bookingId) {
      return Err(BadRequest);
    }
    var found := BookingService.GetBookingByUserId(store.bookings, userId);
    if found.Err? {
      return Err(found.error);
    }
    var booking := found.value;
    if booking.userId != userId {
      return Err(Forbidden);
    }
    var valid := BookingService.CheckBookingValidity(store.bookings, store.rooms, roomId);
    if valid.Fail? {
      return Err(valid.error);
    }
    ghost var before := store.bookings;
    ghost var k :| 0 <= k < |before| && before[k] == booking;
    var updated := BookingService.EditBooking(store, booking.id, roomId, booking.userId);
    assert updated.Some?;
    UpdateByIdIsReplace(before, store.bookings, k, updated.value);
    if WithinCapacity(before, store.rooms) {
      BookingService.MoveKeepsWithinCapacity(before, store.rooms, k, roomId);
    }
    r := Ok(updated.value.id);
  }
}
