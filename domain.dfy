/**
 * The domain types of the desk booker: the request, the booking record that
 * is persisted, the result returned to the caller and the desk. In C# the
 * first three share a base class that carries FirstName, LastName, Email and
 * Date; here each datatype carries those four fields itself.
 */
module Domain {
  import opened Wrappers

  /** A calendar date (C#'s DateTime), used only as an opaque comparable value. */
  datatype Date = Date(ticks: int)

  /** A desk of the inventory. */
  datatype Desk = Desk(id: int)

  /** What a person asks for: a desk on `date`. */
  datatype DeskBookingRequest = DeskBookingRequest(
    firstName: string,
    lastName: string,
    email: string,
    date: Date)

  /** The booking record handed to the booking store; `id` is assigned by the store. */
  datatype DeskBooking = DeskBooking(
    firstName: string,
    lastName: string,
    email: string,
    date: Date,
    deskId: int,
    id: int)

  datatype DeskBookingResultCode = Success | NoDeskAvailable

  /** What the processor reports back for one request. */
  datatype DeskBookingResult = DeskBookingResult(
    firstName: string,
    lastName: string,
    email: string,
    date: Date,
    code: DeskBookingResultCode,
    deskBookingId: Option<int>)

  /** `b` carries the person and date of `request` unchanged. */
  predicate BookingCarries(b: DeskBooking, request: DeskBookingRequest)
  {
    && b.firstName == request.firstName
    && b.lastName == request.lastName
    && b.email == request.email
    && b.date == request.date
  }

  /** `r` carries the person and date of `request` unchanged. */
  predicate ResultCarries(r: DeskBookingResult, request: DeskBookingRequest)
  {
    && r.firstName == request.firstName
    && r.lastName == request.lastName
    && r.email == request.email
    && r.date == request.date
  }
}
