/**
 * The processor's unit-test scenarios, replayed against the model: a fresh
 * store, an inventory whose answer for the request's date is fixed, and one
 * BookDesk call. Each method's postcondition is what its scenario asserts.
 */
module ProcessorTests {
  import opened Wrappers
  import opened Domain
  import opened Inventory
  import opened BookingStore
  import opened Processor

  const Today := Date(0)
  const Pinky := DeskBookingRequest("Pinky", "Baring", "pinky.baring@customer.com", Today)

  /** Runs one BookDesk call on a fresh processor whose inventory yields
      `desks` for `Today` and nothing for any other date. */
  method RunOnce(request: Option<DeskBookingRequest>, desks: seq<Desk>)
    returns (r: Result<DeskBookingResult, ArgumentError>, bookings: seq<DeskBooking>, ghost queried: seq<Date>)
    ensures request.None? ==> r == Err(ArgumentNullException("request")) && bookings == [] && queried == []
    ensures request.Some? ==>
      && queried == [request.value.date]
      && var o := Book(request.value, if request.value.date == Today then desks else [], EmptyStore());
         r == Ok(o.result) && bookings == o.store.bookings
  {
    var store := new DeskBookingRepository();
    var inventory := new DeskRepository(date => if date == Today then desks else []);
    var processor := new DeskBookingRequestProcessor(store, inventory);
    r := processor.BookDesk(request);
    bookings := store.bookings;
    queried := inventory.queried;
  }

  /** With a desk free, the result carries the request's values, the code
      Success and the id of the single booking saved, which is for the first
      desk offered (7, not 9). */
  method BookingWithDeskFree() returns (r: Result<DeskBookingResult, ArgumentError>, bookings: seq<DeskBooking>)
    ensures r.Ok? && ResultCarries(r.value, Pinky)
    ensures r.value.code == Success
    ensures |bookings| == 1
    ensures BookingCarries(bookings[0], Pinky) && bookings[0].deskId == 7
    ensures r.value.deskBookingId == Some(bookings[0].id) && bookings[0].id != 0
  {
    ghost var queried;
    r, bookings, queried := RunOnce(Some(Pinky), [Desk(7), Desk(9)]);
  }

  /** With no desk free, nothing is saved, the code is NoDeskAvailable and
      there is no booking id. */
  method BookingWithNoDeskFree() returns (r: Result<DeskBookingResult, ArgumentError>, bookings: seq<DeskBooking>)
    ensures r.Ok? && ResultCarries(r.value, Pinky)
    ensures r.value.code == NoDeskAvailable
    ensures r.value.deskBookingId == None
    ensures bookings == []
  {
    ghost var queried;
    r, bookings, queried := RunOnce(Some(Pinky), []);
  }

  /** A missing request is an ArgumentNullException for "request". */
  method BookingWithNullRequest() returns (r: Result<DeskBookingResult, ArgumentError>, bookings: seq<DeskBooking>)
    ensures r == Err(ArgumentNullException("request"))
    ensures bookings == []
  {
    ghost var queried;
    r, bookings, queried := RunOnce(None, [Desk(7)]);
  }
}
