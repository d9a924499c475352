/**
 * The booking store: the booking table and the room table held in memory.
 * The `where` filters of the queries are functions over a snapshot of the
 * tables; the two writes (insert and update by id) are methods of
 * BookingStore, which changes its booking table in place.
 */
module BookingRepository {
  import opened Outcomes
  import opened Entities
  import opened Tables

  /** All bookings of room `roomId`, in table order (`listByRoomId`). */
  function ListByRoomId(bookings: seq<Booking>, roomId: int): (r: seq<Booking>)
    ensures forall i | 0 <= i < |r| :: r[i] in bookings && r[i].roomId == roomId
    ensures forall i | 0 <= i < |bookings| && bookings[i].roomId == roomId :: bookings[i] in r
  {
    Filter(bookings, (b: Booking) => b.roomId == roomId)
  }

  /** Number of bookings that reference room `roomId`. */
  function Occupancy(bookings: seq<Booking>, roomId: int): (n: nat)
  {
    |ListByRoomId(bookings, roomId)|
  }

  /** The occupancy of a room is the number of table positions holding one of its bookings. */
  lemma OccupancyCountsRows(bookings: seq<Booking>, roomId: int)
    ensures Occupancy(bookings, roomId) == |set i: nat | i < |bookings| && bookings[i].roomId == roomId|
  {
    var p := (b: Booking) => b.roomId == roomId;
    FilterCountsMatches(bookings, p);
    assert Matching(bookings, p) == set i: nat | i < |bookings| && bookings[i].roomId == roomId;
  }

  /** Appending a booking adds one to the occupancy of its own room and to no other. */
  lemma OccupancyAfterInsert(bookings: seq<Booking>, b: Booking, roomId: int)
    ensures Occupancy(bookings + [b], roomId) == Occupancy(bookings, roomId) + (if b.roomId == roomId then 1 else 0)
  {
    FilterAppend(bookings, b, (x: Booking) => x.roomId == roomId);
  }

  /**
   * Replacing the booking at position k moves one unit of occupancy from
   * the old row's room to the new row's room.
   */
  lemma OccupancyAfterReplace(bookings: seq<Booking>, k: nat, b: Booking, roomId: int)
    requires k < |bookings|
    ensures Occupancy(bookings[k := b], roomId) + (if bookings[k].roomId == roomId then 1 else 0)
         == Occupancy(bookings, roomId) + (if b.roomId == roomId then 1 else 0)
  {
    FilterReplace(bookings, k, b, (x: Booking) => x.roomId == roomId);
  }

  /** The first booking of room `roomId` (`list1ByRoomId`). */
  function List1ByRoomId(bookings: seq<Booking>, roomId: int): (r: Option<Booking>)
    ensures r.None? <==> forall i | 0 <= i < |bookings| :: bookings[i].roomId != roomId
    ensures r.Some? ==> exists i | 0 <= i < |bookings| ::
      bookings[i] == r.value && r.value.roomId == roomId && forall j | 0 <= j < i :: bookings[j].roomId != roomId
  {
    FirstWhere(bookings, (b: Booking) => b.roomId == roomId)
  }

  /** The first booking of user `userId` (`listByUserId`). */
  function ListByUserId(bookings: seq<Booking>, userId: int): (r: Option<Booking>)
    ensures r.None? <==> forall i | 0 <= i < |bookings| :: bookings[i].userId != userId
    ensures r.Some? ==> exists i | 0 <= i < |bookings| ::
      bookings[i] == r.value && r.value.userId == userId && forall j | 0 <= j < i :: bookings[j].userId != userId
  {
    FirstWhere(bookings, (b: Booking) => b.userId == userId)
  }

  /** All rooms of hotel `hotelId`, in table order (`listByHotelId`). */
  function ListByHotelId(rooms: seq<Room>, hotelId: int): (r: seq<Room>)
    ensures forall i | 0 <= i < |r| :: r[i] in rooms && r[i].hotelId == hotelId
    ensures forall i | 0 <= i < |rooms| && rooms[i].hotelId == hotelId :: rooms[i] in r
  {
    Filter(rooms, (room: Room) => room.hotelId == hotelId)
  }

  /** The hotel listing holds one room per table position of that hotel: no room is repeated or dropped. */
  lemma HotelListingCountsRows(rooms: seq<Room>, hotelId: int)
    ensures |ListByHotelId(rooms, hotelId)| == |set i: nat | i < |rooms| && rooms[i].hotelId == hotelId|
  {
    var p := (room: Room) => room.hotelId == hotelId;
    FilterCountsMatches(rooms, p);
    assert Matching(rooms, p) == set i: nat | i < |rooms| && rooms[i].hotelId == hotelId;
  }

  /** The room whose id is `roomId` (`listByIdRoom`). */
  function ListByIdRoom(rooms: seq<Room>, roomId: int): (r: Option<Room>)
    ensures r.None? <==> forall i | 0 <= i < |rooms| :: rooms[i].id != roomId
    ensures r.Some? ==> r.value in rooms && r.value.id == roomId
  {
    FirstWhere(rooms, (room: Room) => room.id == roomId)
  }

  ghost predicate RoomExists(rooms: seq<Room>, roomId: int)
  {
    exists j | 0 <= j < |rooms| :: rooms[j].id == roomId
  }

  /** Room ids are a primary key. */
  ghost predicate UniqueRoomIds(rooms: seq<Room>)
  {
    forall i, j | 0 <= i < j < |rooms| :: rooms[i].id != rooms[j].id
  }

  /** Booking ids are a primary key. */
  ghost predicate UniqueBookingIds(bookings: seq<Booking>)
  {
    forall i, j | 0 <= i < j < |bookings| :: bookings[i].id != bookings[j].id
  }

  /** No room holds more bookings than its capacity. */
  ghost predicate WithinCapacity(bookings: seq<Booking>, rooms: seq<Room>)
  {
    forall i | 0 <= i < |rooms| :: Occupancy(bookings, rooms[i].id) <= rooms[i].capacity
  }

  /** With unique booking ids, updating by the id of row k rewrites row k alone. */
  lemma UpdateByIdIsReplace(before: seq<Booking>, after: seq<Booking>, k: nat, row: Booking)
    requires UniqueBookingIds(before) && k < |before|
    requires |after| == |before|
    requires forall i | 0 <= i < |after| :: after[i] == if before[i].id == before[k].id then row else before[i]
    ensures after == before[k := row]
  {
    forall i | 0 <= i < |before|
      ensures after[i] == before[k := row][i]
    {
      assert before[i].id == before[k].id ==> i == k;
    }
  }

  /** With unique room ids, the room found for an id is the one at its position. */
  lemma ListByIdRoomUnique(rooms: seq<Room>, k: nat)
    requires UniqueRoomIds(rooms) && k < |rooms|
    ensures ListByIdRoom(rooms, rooms[k].id) == Some(rooms[k])
  {
    var r := ListByIdRoom(rooms, rooms[k].id);
    var i :| 0 <= i < |rooms| && rooms[i] == r.value && rooms[i].id == rooms[k].id;
    assert !(i < k) && !(k < i);
  }

  /**
   * The booking and room tables. Ids are assigned from `nextId` as an
   * autoincrement column does; every booking references an existing room,
   * as the foreign key of the database demands.
   */
  class BookingStore {
    var bookings: seq<Booking>
    var rooms: seq<Room>
    var nextId: int

    ghost predicate Valid()
      reads this
    {
      && UniqueBookingIds(bookings)
      && (forall i | 0 <= i < |bookings| :: bookings[i].id < nextId)
      && UniqueRoomIds(rooms)
      && (forall i | 0 <= i < |bookings| :: RoomExists(rooms, bookings[i].roomId))
    }

    /** An empty booking table over the given rooms. */
    constructor (rooms: seq<Room>)
      requires UniqueRoomIds(rooms)
      ensures Valid()
      ensures this.bookings == [] && this.rooms == rooms
    {
      this.bookings := [];
      this.rooms := rooms;
      this.nextId := 1;
    }

    /**
     * Inserts the booking {roomId, userId} under a fresh id (`createBooking`).
     * The insert is refused, and nothing changes, when no room has that id.
     */
    method CreateBooking(roomId: int, userId: int) returns (r: Option<Booking>)
      requires Valid()
      modifies this
      ensures Valid() && rooms == old(rooms)
      ensures r.Some? <==> RoomExists(rooms, roomId)
      ensures r.None? ==> bookings == old(bookings)
      ensures r.Some? ==> r.value.roomId == roomId && r.value.userId == userId
      ensures r.Some? ==> bookings == old(bookings) + [r.value]
      ensures r.Some? ==> forall i | 0 <= i < |old(bookings)| :: old(bookings)[i].id != r.value.id
    {
      var room := ListByIdRoom(rooms, roomId);
      if room.None? {
        return None;
      }
      var b := Booking(nextId, roomId, userId);
      bookings := bookings + [b];
      nextId := nextId + 1;
      r := Some(b);
    }

    /**
     * Sets the roomId and userId of the booking whose id is `bookingId`
     * (`editBooking`); every other booking is left as it was. The update
     * is refused, and nothing changes, when no booking has that id or when
     * no room has the new roomId.
     */
    method EditBooking(userId: int, roomId: int, bookingId: int) returns (r: Option<Booking>)
      requires Valid()
      modifies this
      ensures Valid() && rooms == old(rooms) && nextId == old(nextId)
      ensures r.Some? <==>
        RoomExists(rooms, roomId) && exists i | 0 <= i < |old(bookings)| :: old(bookings)[i].id == bookingId
      ensures r.None? ==> bookings == old(bookings)
      ensures r.Some? ==> r.value == Booking(bookingId, roomId, userId)
      ensures r.Some? ==> |bookings| == |old(bookings)| && forall i | 0 <= i < |bookings| ::
        bookings[i] == if old(bookings)[i].id == bookingId then r.value else old(bookings)[i]
    {
      var room := ListByIdRoom(rooms, roomId);
      var found := FirstWhere(bookings, (b: Booking) => b.id == bookingId);
      if room.None? || found.None? {
        return None;
      }
      var updated := Booking(bookingId, roomId, userId);
      bookings := seq(|bookings|, i requires 0 <= i < |bookings| reads this =>
        if bookings[i].id == bookingId then updated else bookings[i]);
      r := Some(updated);
    }
  }
}
