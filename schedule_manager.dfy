/**
 * The server-side booking ledger: one record, created empty when the
 * module loads, that the three actions read and update in place. The
 * actions are asynchronous in form only; each runs to completion before
 * the next starts.
 */
module ScheduleManager {
  import opened LexOrder
  import opened Ledger

  class SlotLedger {
    /** Date (`yyyy-MM-dd`) to the times (`HH:mm`) booked on it, in booking order. */
    var bookedSlots: Bookings

    ghost predicate Valid()
      reads this
    {
      NoDoubleBooking(bookedSlots)
    }

    /** The record as the module creates it: empty. */
    constructor ()
      ensures Valid()
      ensures bookedSlots == map[]
    {
      bookedSlots := map[];
    }

    /** The times booked on `dateISO`, or none when the date has no entry. */
    method GetBookedSlots(dateISO: string) returns (times: seq<string>)
      requires Valid()
      ensures dateISO in bookedSlots ==> times == bookedSlots[dateISO]
      ensures dateISO !in bookedSlots ==> times == []
      ensures Distinct(times)
    {
      times := if dateISO in bookedSlots then bookedSlots[dateISO] else [];
    }

    /**
     * Books `time` on `dateISO` unless it is already booked there. The
     * time is not checked against any schedule or rule: any time not yet
     * listed for the date is accepted, and appended at the end.
     */
    method AttemptToBookSlot(dateISO: string, time: string) returns (ok: bool)
      requires Valid()
      modifies this
      ensures Valid()
      ensures ok <==> time !in old(BookedOn(bookedSlots, dateISO))
      // AfterAttempt appends `time` to the date's list when ok, and leaves the map as it was otherwise
      ensures bookedSlots == AfterAttempt(old(bookedSlots), dateISO, time)
      ensures forall d | d != dateISO :: BookedOn(bookedSlots, d) == old(BookedOn(bookedSlots, d))
    {
      ghost var before := bookedSlots;
      if dateISO !in bookedSlots {
        bookedSlots := bookedSlots[dateISO := []];
      }
      if time in bookedSlots[dateISO] {
        ok := false;
        return;
      }
      bookedSlots := bookedSlots[dateISO := bookedSlots[dateISO] + [time]];
      ok := true;
      AttemptKeepsNoDoubleBooking(before, dateISO, time);
    }

    /** Forgets every booking. */
    method ResetBookedSlots()
      modifies this
      ensures Valid()
      ensures bookedSlots == map[]
      ensures forall d :: BookedOn(bookedSlots, d) == []
    {
      bookedSlots := map[];
    }
  }

  /**
   * One caller's view: two attempts on the same date and time, with a
   * read of the ledger between them, book it at most once.
   */
  method BookTwice(manager: SlotLedger, dateISO: string, time: string) returns (first: bool, second: bool)
    requires manager.Valid()
    modifies manager
    ensures manager.Valid()
    ensures first <==> time !in old(BookedOn(manager.bookedSlots, dateISO))
    ensures !second
  {
    first := manager.AttemptToBookSlot(dateISO, time);
    var _ := manager.GetBookedSlots(dateISO);
    second := manager.AttemptToBookSlot(dateISO, time);
  }
}
