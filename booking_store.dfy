/**
 * The booking store (IDeskBookingRepository). Its implementation is not part
 * of this model; what the processor relies on is that Save persists the
 * booking and assigns it an id. The store here appends the booking and hands
 * out ids from a counter, so that every saved booking has an id of its own.
 */
module BookingStore {
  import opened Domain

  /** The id given to the first booking saved; 0 is the id of an unsaved booking. */
  const FirstId := 1

  /** The store's contents: the saved bookings, oldest first, and the next id to assign. */
  datatype StoreState = StoreState(bookings: seq<DeskBooking>, nextId: int)

  /** A saved booking together with the store after saving it. */
  datatype Saved = Saved(booking: DeskBooking, store: StoreState)

  /** Every saved booking has an id below `nextId`, never the unsaved id 0,
      and ids grow strictly in the order of saving (so no two are equal). */
  predicate ValidState(s: StoreState)
  {
    && FirstId <= s.nextId
    && (forall i :: 0 <= i < |s.bookings| ==> FirstId <= s.bookings[i].id < s.nextId)
    && (forall i, j :: 0 <= i < j < |s.bookings| ==> s.bookings[i].id < s.bookings[j].id)
  }

  /** The empty store satisfies the invariant. */
  function EmptyStore(): (s: StoreState)
    ensures ValidState(s) && s.bookings == []
  {
    StoreState([], FirstId)
  }

  /** Saving appends `booking` with a freshly assigned id and changes nothing else. */
  function SaveBooking(s: StoreState, booking: DeskBooking): (out: Saved)
    ensures out.booking.(id := booking.id) == booking
    ensures out.store.bookings == s.bookings + [out.booking]
    ensures ValidState(s) ==> ValidState(out.store)
    ensures ValidState(s) ==> forall i :: 0 <= i < |s.bookings| ==> s.bookings[i].id != out.booking.id
  {
    var saved := booking.(id := s.nextId);
    Saved(saved, StoreState(s.bookings + [saved], s.nextId + 1))
  }

  class DeskBookingRepository {
    var bookings: seq<DeskBooking>
    var nextId: int

    function State(): StoreState
      reads this
    {
      StoreState(bookings, nextId)
    }

    ghost predicate Valid()
      reads this
    {
      ValidState(State())
    }

    constructor ()
      ensures Valid()
      ensures State() == EmptyStore()
    {
      bookings := [];
      nextId := FirstId;
    }

    /** Save: persists `booking` and returns it with the id the store assigned. */
    method Save(booking: DeskBooking) returns (saved: DeskBooking)
      requires Valid()
      modifies this
      ensures Valid()
      ensures Saved(saved, State()) == SaveBooking(old(State()), booking)
    {
      saved := booking.(id := nextId);
      bookings := bookings + [saved];
      nextId := nextId + 1;
    }
  }
}
