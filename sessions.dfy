/**
 * Successive requests handled against one booking store. Each call is a
 * request together with the desks the inventory yielded for its date at that
 * moment; `Replay` threads the store through `Book` call after call.
 */
module Sessions {
  import opened Wrappers
  import opened Domain
  import opened BookingStore
  import opened Processor

  /** One BookDesk call: the request and the desks available for its date. */
  datatype Call = Call(request: DeskBookingRequest, available: seq<Desk>)

  /** The results of the calls in order, and the store after the last one.
      Earlier bookings are never changed or removed. */
  function Replay(calls: seq<Call>, s: StoreState): (out: (seq<DeskBookingResult>, StoreState))
    ensures |out.0| == |calls|
    ensures |s.bookings| <= |out.1.bookings|
    ensures out.1.bookings[..|s.bookings|] == s.bookings
    ensures ValidState(s) ==> ValidState(out.1)
    ensures forall i :: 0 <= i < |calls| ==>
      && ResultCarries(out.0[i], calls[i].request)
      && (out.0[i].code == Success <==> |calls[i].available| > 0)
    decreases |calls|
  {
    if calls == [] then ([], s)
    else
      var first := Book(calls[0].request, calls[0].available, s);
      var rest := Replay(calls[1..], first.store);
      ([first.result] + rest.0, rest.1)
  }

  /** The result that reports booking `b` as made. */
  function Confirmation(b: DeskBooking): DeskBookingResult
  {
    DeskBookingResult(b.firstName, b.lastName, b.email, b.date, Success, Some(b.id))
  }

  /** The confirmations of `bs`, in the same order. */
  function Confirmations(bs: seq<DeskBooking>): (rs: seq<DeskBookingResult>)
    ensures |rs| == |bs|
    ensures forall i :: 0 <= i < |bs| ==> rs[i] == Confirmation(bs[i])
  {
    if bs == [] then [] else [Confirmation(bs[0])] + Confirmations(bs[1..])
  }

  /** The results with code Success, in their original order. */
  function Successes(rs: seq<DeskBookingResult>): (ss: seq<DeskBookingResult>)
    ensures |ss| <= |rs|
    ensures forall i :: 0 <= i < |ss| ==> ss[i].code == Success && ss[i] in rs
  {
    if rs == [] then []
    else if rs[0].code == Success then [rs[0]] + Successes(rs[1..])
    else Successes(rs[1..])
  }

  /**
   * Save happens exactly once per Success: the bookings a run of calls adds
   * to the store correspond one to one, in order, to the Success results,
   * and each such result carries the id and the person and date of its
   * booking.
   */
  lemma {:induction false} ReplaySavesOncePerSuccess(calls: seq<Call>, s: StoreState)
    ensures var out := Replay(calls, s);
      Confirmations(out.1.bookings[|s.bookings|..]) == Successes(out.0)
    decreases |calls|
  {
    var out := Replay(calls, s);
    if calls == [] {
      assert out.1.bookings[|s.bookings|..] == [];
    } else {
      var first := Book(calls[0].request, calls[0].available, s);
      var rest := Replay(calls[1..], first.store);
      ReplaySavesOncePerSuccess(calls[1..], first.store);
      assert out == ([first.result] + rest.0, rest.1);
      SuccessesCons(first.result, rest.0);
      if |calls[0].available| > 0 {
        StepAddsItsConfirmation(calls[0], s, rest.1.bookings);
      } else {
        assert first.store == s;
      }
    }
  }

  /** Successes of a result followed by more results. */
  lemma SuccessesCons(r: DeskBookingResult, rs: seq<DeskBookingResult>)
    ensures Successes([r] + rs) == (if r.code == Success then [r] + Successes(rs) else Successes(rs))
  {
    assert ([r] + rs)[1..] == rs;
  }

  /** A call that finds a desk adds one booking, whose confirmation is the
      call's result; whatever is appended after it is left as it was. */
  lemma StepAddsItsConfirmation(call: Call, s: StoreState, later: seq<DeskBooking>)
    requires |call.available| > 0
    requires var first := Book(call.request, call.available, s);
      |first.store.bookings| <= |later| && later[..|first.store.bookings|] == first.store.bookings
    ensures var first := Book(call.request, call.available, s);
      Confirmations(later[|s.bookings|..]) == [first.result] + Confirmations(later[|first.store.bookings|..])
  {
    var first := Book(call.request, call.available, s);
    var n := |s.bookings|;
    var b := first.store.bookings[n];
    var added := later[n..];
    assert added[0] == b;
    assert added[1..] == later[n + 1..];
    assert Confirmation(b) == first.result;
  }

  /** The number of bookings a run of calls adds is the number of Success results. */
  lemma {:induction false} ReplayGrowsByOnePerSuccess(calls: seq<Call>, s: StoreState)
    ensures var out := Replay(calls, s);
      |out.1.bookings| == |s.bookings| + |Successes(out.0)|
  {
    ReplaySavesOncePerSuccess(calls, s);
  }
}
