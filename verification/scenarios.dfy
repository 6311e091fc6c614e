/**
Properties that span several operations: the day-book-cancel round trip, a
booked slot refused to every later batch, and cancellation of a booking
whose slot the owner has blocked.
*/
module Scenarios {
  import opened Types
  import Slots
  import Bookings

  /**
  Generate a fresh day, book its 10:00 slot for user `u`, then cancel that
  booking: the booking is listed for `u` in between, and afterwards the slot
  is available again and `u` holds exactly the bookings it held before.
  */
  lemma DayBookCancel(st: Store, d: Date, u: int)
    requires Valid(st) && !HasDay(st, d)
    ensures var st1 := Slots.GetAvailableSlots(st, d).0;
      var id := |st.slots| + 11;
      var st2 := Bookings.Book(st1, u, [id]).0;
      && Bookings.Book(st1, u, [id]).1 == [id]
      && SlotExists(st2, id) && SlotAt(st2, id).startHour == 10 && SlotAt(st2, id).endHour == 11
      && BookingsOf(st2, u) == BookingsOf(st, u) + {st.nextBookingId}
      && BookingsReferToSlots(st2)
      && Bookings.Cancel(st2, st.nextBookingId).1
      && Available(Bookings.Cancel(st2, st.nextBookingId).0, id)
      && BookingsOf(Bookings.Cancel(st2, st.nextBookingId).0, u) == BookingsOf(st, u)
  {
  }

  /**
  In a store that keeps the invariant, the slot of an existing booking is
  skipped by every batch, whoever requests it. Every operation keeps the
  invariant and only cancellation removes a booking, so a booked slot is not
  booked again until its booking is cancelled.
  */
  lemma BookedSlotNotRebooked(st: Store, k: nat, v: int, more: seq<int>)
    requires Valid(st) && k in st.bookings
    ensures st.bookings[k].slotId !in Bookings.Book(st, v, more).1
  {
    Bookings.BookedIdsExact(st, v, more);
  }

  /**
  Blocking is not one-way for a booked slot: cancelling its booking makes the
  blocked slot available again.
  */
  lemma CancelReopensBlockedSlot(st: Store, bookingId: nat)
    requires Valid(st) && bookingId in st.bookings
    ensures var sid := st.bookings[bookingId].slotId;
      var st1 := Slots.BlockSlot(st, sid);
      && !Available(st1, sid)
      && BookingsReferToSlots(st1)
      && Available(Bookings.Cancel(st1, bookingId).0, sid)
  {
  }
}
