/**
 * The desk inventory (IDeskRepository). Its implementation is not part of
 * this model: availability is an arbitrary function from a date to the
 * finite sequence of desks free on that date.
 */
module Inventory {
  import opened Domain

  class DeskRepository {
    /** The desks available on each date, in the order the inventory yields them. */
    const availability: Date -> seq<Desk>
    /** Every date the inventory was asked about, oldest first. */
    ghost var queried: seq<Date>

    constructor (availability: Date -> seq<Desk>)
      ensures this.availability == availability
      ensures queried == []
    {
      this.availability := availability;
      queried := [];
    }

    /** GetAvailableDesks: the desks free on `date`; the lookup is recorded. */
    method GetAvailableDesks(date: Date) returns (desks: seq<Desk>)
      modifies this
      ensures desks == availability(date)
      ensures queried == old(queried) + [date]
    {
      desks := availability(date);
      queried := queried + [date];
    }
  }
}
