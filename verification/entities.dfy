/**
 * The records the booking layer reads and writes. Timestamps, names and the
 * other columns that no rule looks at are left out.
 */
module Entities {

  /** A row of the booking table: one user assigned to one room. */
  datatype Booking = Booking(id: int, roomId: int, userId: int)

  /** A row of the room table; `capacity` is the most bookings it may hold. */
  datatype Room = Room(id: int, hotelId: int, capacity: int)

  /** The user's conference registration; only its id is used. */
  datatype Enrollment = Enrollment(id: int)

  datatype TicketStatus = Reserved | Paid

  datatype TicketType = TicketType(isRemote: bool, includesHotel: bool)

  datatype Ticket = Ticket(status: TicketStatus, ticketType: TicketType)
}
