/**
 * DeskBookingRequestProcessor: books the first desk available on the
 * requested date, or reports that none was available.
 *
 * `Book` states the outcome of one request as a function of the request, the
 * desks the inventory yields for its date and the booking store beforehand;
 * the method `BookDesk` performs it step by step against the two
 * repositories and is proved to agree with it.
 */
module Processor {
  import opened Wrappers
  import opened Domain
  import opened Inventory
  import opened BookingStore

  /** C#'s ArgumentNullException, with the name of the offending parameter. */
  datatype ArgumentError = ArgumentNullException(paramName: string)

  /** The code a freshly created result holds (C#'s default for the enum);
      BookDesk overwrites it on both paths. */
  const DefaultCode := Success

  /** The outcome of one request: the result returned and the store afterwards. */
  datatype Outcome = Outcome(result: DeskBookingResult, store: StoreState)

  /** Create<DeskBooking>: a booking for the request's person and date, with
      no desk and no id yet (C#'s int defaults). */
  function CreateBooking(request: DeskBookingRequest): (b: DeskBooking)
    ensures BookingCarries(b, request)
    ensures b.deskId == 0 && b.id == 0
  {
    DeskBooking(request.firstName, request.lastName, request.email, request.date, 0, 0)
  }

  /** Create<DeskBookingResult>: a result for the request's person and date,
      with no booking id yet. */
  function CreateResult(request: DeskBookingRequest): (r: DeskBookingResult)
    ensures ResultCarries(r, request)
    ensures r.deskBookingId == None
  {
    DeskBookingResult(request.firstName, request.lastName, request.email, request.date, DefaultCode, None)
  }

  /**
   * The outcome of booking for `request` when the inventory yields `available`
   * for its date and the store is `s`: with a desk, one booking for the first
   * desk is saved and its id reported; without one, nothing is saved.
   */
  function Book(request: DeskBookingRequest, available: seq<Desk>, s: StoreState): (o: Outcome)
    ensures ResultCarries(o.result, request)
    ensures o.result.code == Success <==> |available| > 0
    ensures |available| == 0 ==> o.result.code == NoDeskAvailable && o.result.deskBookingId == None && o.store == s
    ensures |available| > 0 ==>
      && |o.store.bookings| == |s.bookings| + 1
      && o.store.bookings[..|s.bookings|] == s.bookings
      && var b := o.store.bookings[|s.bookings|];
         && BookingCarries(b, request)
         && b.deskId == available[0].id
         && o.result.deskBookingId == Some(b.id)
    ensures ValidState(s) ==> ValidState(o.store)
    ensures ValidState(s) && o.result.code == Success ==>
      forall j :: 0 <= j < |o.store.bookings| && o.store.bookings[j].id == o.result.deskBookingId.value ==> j == |s.bookings|
  {
    var result := CreateResult(request);
    if |available| > 0 then
      var booking := CreateBooking(request).(deskId := available[0].id);
      var saved := SaveBooking(s, booking);
      Outcome(result.(deskBookingId := Some(saved.booking.id), code := Success), saved.store)
    else
      Outcome(result.(code := NoDeskAvailable), s)
  }

  class DeskBookingRequestProcessor {
    const deskBookingRepository: DeskBookingRepository
    const deskRepository: DeskRepository

    constructor (deskBookingRepository: DeskBookingRepository, deskRepository: DeskRepository)
      ensures this.deskBookingRepository == deskBookingRepository
      ensures this.deskRepository == deskRepository
    {
      this.deskBookingRepository := deskBookingRepository;
      this.deskRepository := deskRepository;
    }

    /**
     * BookDesk: a missing request is an ArgumentNullException naming
     * "request", and nothing is looked up or saved. Otherwise the inventory
     * is asked once, for the request's date, and the result and the new
     * store are those `Book` gives.
     */
    method BookDesk(request: Option<DeskBookingRequest>) returns (r: Result<DeskBookingResult, ArgumentError>)
      requires deskBookingRepository.Valid()
      modifies deskBookingRepository, deskRepository
      ensures deskBookingRepository.Valid()
      ensures request.None? ==>
        && r == Err(ArgumentNullException("request"))
        && unchanged(deskBookingRepository)
        && unchanged(deskRepository)
      ensures request.Some? ==>
        && deskRepository.queried == old(deskRepository.queried) + [request.value.date]
        && var o := Book(request.value, deskRepository.availability(request.value.date), old(deskBookingRepository.State()));
           && r == Ok(o.result)
           && deskBookingRepository.State() == o.store
    {
      if request.None? {
        return Err(ArgumentNullException("request"));
      }
      var req := request.value;

      var availableDesks := deskRepository.GetAvailableDesks(req.date);
      var result := CreateResult(req);

      if |availableDesks| > 0 {
        var availableDesk := availableDesks[0];
        var deskBooking := CreateBooking(req);
        deskBooking := deskBooking.(deskId := availableDesk.id);

        deskBooking := deskBookingRepository.Save(deskBooking);
        result := result.(deskBookingId := Some(deskBooking.id));
        result := result.(code := Success);
      } else {
        result := result.(code := NoDeskAvailable);
      }

      r := Ok(result);
    }
  }
}
