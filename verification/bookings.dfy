/**
The booking service: batch booking with silent skipping of slots that are
taken or missing, and cancellation by booking id.
*/
module Bookings {
  import opened Types

  /** The position of the first occurrence of `x` in `s`. */
  function FirstIndex(s: seq<int>, x: int): (i: nat)
    requires x in s
    ensures i < |s| && s[i] == x && x !in s[..i]
  {
    if s[0] == x then 0
    else
      var j := FirstIndex(s[1..], x);
      assert s[..j + 1] == [s[0]] + s[1..][..j];
      j + 1
  }

  /** No id occurs twice. */
  predicate NoRepeats(s: seq<int>) {
    forall a, b :: 0 <= a < b < |s| ==> s[a] != s[b]
  }

  /** The ids of `res` appear in the order of their first occurrence in `ids`. */
  predicate InRequestOrder(res: seq<int>, ids: seq<int>)
    requires forall x :: x in res ==> x in ids
  {
    forall a, b :: 0 <= a < b < |res| ==> FirstIndex(ids, res[a]) < FirstIndex(ids, res[b])
  }

  /**
  The slots after a booking: each slot whose id is in `res` has turned
  unavailable, and every other slot is as it was.
  */
  predicate SlotsAfterBooking(before: seq<Slot>, after: seq<Slot>, res: seq<int>) {
    && |after| == |before|
    && forall k :: 0 <= k < |before| ==>
         after[k] == if k + 1 in res then before[k].(available := false) else before[k]
  }

  /**
  The bookings after a booking: the old ones are kept and the i-th booked id
  is recorded as `(user, res[i])` under the i-th fresh booking id.
  */
  ghost predicate RecordsAfterBooking(before: Store, after: Store, user: int, res: seq<int>) {
    && after.nextBookingId == before.nextBookingId + |res|
    && (forall k :: k in after.bookings <==> k in before.bookings || before.nextBookingId <= k < after.nextBookingId)
    && (forall k :: k in before.bookings ==> after.bookings[k] == before.bookings[k])
    && (forall i :: 0 <= i < |res| ==> before.nextBookingId + i in after.bookings
                                       && after.bookings[before.nextBookingId + i] == Booking(user, res[i]))
  }

  /**
  Books one slot the availability query found: the slot becomes unavailable
  and a booking with the next free id links it to `user`.
  */
  function Reserve(st: Store, user: int, id: int): Store
    requires Available(st, id)
  {
    st.(slots := st.slots[id - 1 := st.slots[id - 1].(available := false)],
        bookings := st.bookings[st.nextBookingId := Booking(user, id)],
        nextBookingId := st.nextBookingId + 1)
  }

  /**
  Books the requested slot ids for `user`, one after the other: an id is
  booked when its slot exists and is available in the state left by the ids
  before it, and is skipped silently otherwise. Returns the new store and the
  booked ids in request order. The user id is not checked.
  */
  function Book(st: Store, user: int, ids: seq<int>): (r: (Store, seq<int>))
    ensures r.0.users == st.users
    ensures |r.0.slots| == |st.slots|
    ensures r.0.nextBookingId == st.nextBookingId + |r.1|
    ensures |r.1| <= |ids|
    ensures forall x :: x in r.1 ==> x in ids
    decreases |ids|
  {
    if ids == [] then (st, [])
    else if Available(st, ids[0]) then
      var (st', rest) := Book(Reserve(st, user, ids[0]), user, ids[1..]);
      (st', [ids[0]] + rest)
    else Book(st, user, ids[1..])
  }

  /** What reserving slot `id` does to the availability of every slot id. */
  lemma ReserveAvailability(st: Store, user: int, id: int, y: int)
    requires Available(st, id)
    ensures Available(Reserve(st, user, id), y) <==> y != id && Available(st, y)
  {
  }

  /**
  An id is booked exactly when it was requested and its slot was available
  before the call.
  */
  lemma {:induction false} BookedIdsExact(st: Store, user: int, ids: seq<int>)
    ensures forall x :: x in Book(st, user, ids).1 <==> x in ids && Available(st, x)
    decreases |ids|
  {
    if ids != [] {
      var x, tail := ids[0], ids[1..];
      assert ids == [x] + tail;
      if Available(st, x) {
        var st1 := Reserve(st, user, x);
        BookedIdsExact(st1, user, tail);
        forall y ensures Available(st1, y) <==> y != x && Available(st, y) {
          ReserveAvailability(st, user, x, y);
        }
      } else {
        BookedIdsExact(st, user, tail);
      }
    }
  }

  /**
  The booked ids come each once, in the order of their first request: a
  repeated id is booked at most once.
  */
  lemma {:induction false} BookedIdsInRequestOrder(st: Store, user: int, ids: seq<int>)
    ensures NoRepeats(Book(st, user, ids).1)
    ensures InRequestOrder(Book(st, user, ids).1, ids)
    decreases |ids|
  {
    if ids != [] {
      var x, tail := ids[0], ids[1..];
      var res := Book(st, user, ids).1;
      BookedIdsExact(st, user, ids);
      if Available(st, x) {
        var st1 := Reserve(st, user, x);
        BookedIdsInRequestOrder(st1, user, tail);
        BookedIdsExact(st1, user, tail);
        var rest := Book(st1, user, tail).1;
        assert res == [x] + rest;
        assert !Available(st1, x);
        forall a, b | 0 <= a < b < |res|
          ensures FirstIndex(ids, res[a]) < FirstIndex(ids, res[b]) && res[a] != res[b]
        {
          var yb := rest[b - 1];
          assert res[b] == yb && yb in rest && yb != x;
          assert FirstIndex(ids, yb) == FirstIndex(tail, yb) + 1;
          if a > 0 {
            var ya := rest[a - 1];
            assert res[a] == ya && ya in rest && ya != x;
            assert FirstIndex(ids, ya) == FirstIndex(tail, ya) + 1;
            assert FirstIndex(tail, rest[a - 1]) < FirstIndex(tail, rest[b - 1]);
          }
        }
      } else {
        BookedIdsInRequestOrder(st, user, tail);
        BookedIdsExact(st, user, tail);
        var rest := Book(st, user, tail).1;
        assert res == rest;
        forall a, b | 0 <= a < b < |res|
          ensures FirstIndex(ids, res[a]) < FirstIndex(ids, res[b]) && res[a] != res[b]
        {
          assert res[a] in rest && res[a] != x;
          assert res[b] in rest && res[b] != x;
          assert FirstIndex(ids, res[a]) == FirstIndex(tail, res[a]) + 1;
          assert FirstIndex(ids, res[b]) == FirstIndex(tail, res[b]) + 1;
          assert FirstIndex(tail, rest[a]) < FirstIndex(tail, rest[b]);
        }
      }
    }
  }

  /**
  Every slot whose id `Book` returns is now unavailable and otherwise
  unchanged; every other slot, requested or not, is left exactly as it was.
  */
  lemma {:induction false} BookSlotEffect(st: Store, user: int, ids: seq<int>)
    ensures SlotsAfterBooking(st.slots, Book(st, user, ids).0.slots, Book(st, user, ids).1)
    decreases |ids|
  {
    if ids != [] {
      var x, tail := ids[0], ids[1..];
      if Available(st, x) {
        var st1 := Reserve(st, user, x);
        BookSlotEffect(st1, user, tail);
        BookedIdsExact(st1, user, tail);
        assert !Available(st1, x);
      } else {
        BookSlotEffect(st, user, tail);
      }
    }
  }

  /**
  `Book` creates exactly one booking `(user, id)` per booked id, under
  consecutive fresh booking ids, and keeps every existing booking.
  */
  lemma {:induction false} BookRecords(st: Store, user: int, ids: seq<int>)
    requires BookingIdsFresh(st)
    ensures RecordsAfterBooking(st, Book(st, user, ids).0, user, Book(st, user, ids).1)
    decreases |ids|
  {
    if ids != [] {
      var x, tail := ids[0], ids[1..];
      if Available(st, x) {
        var st1 := Reserve(st, user, x);
        BookRecords(st1, user, tail);
        var (st', res) := Book(st, user, ids);
        var rest := Book(st1, user, tail).1;
        assert res == [x] + rest;
        forall i | 0 <= i < |res| ensures st'.bookings[st.nextBookingId + i] == Booking(user, res[i]) {
          if i > 0 {
            assert st.nextBookingId + i == st1.nextBookingId + (i - 1);
            assert res[i] == rest[i - 1];
          }
        }
      } else {
        BookRecords(st, user, tail);
      }
    }
  }

  lemma ReservePreservesValid(st: Store, user: int, id: int)
    requires Valid(st) && Available(st, id)
    ensures Valid(Reserve(st, user, id))
  {
  }

  /** Booking keeps the global invariant. */
  lemma {:induction false} BookPreservesValid(st: Store, user: int, ids: seq<int>)
    requires Valid(st)
    ensures Valid(Book(st, user, ids).0)
    decreases |ids|
  {
    if ids != [] {
      if Available(st, ids[0]) {
        ReservePreservesValid(st, user, ids[0]);
        BookPreservesValid(Reserve(st, user, ids[0]), user, ids[1..]);
      } else {
        BookPreservesValid(st, user, ids[1..]);
      }
    }
  }

  /**
  Cancels a booking by id, whoever holds it: an existing booking is deleted
  and its slot becomes available again; a missing id leaves the store as it
  is. The boolean says whether a booking was cancelled.
  */
  function Cancel(st: Store, bookingId: nat): (r: (Store, bool))
    requires BookingsReferToSlots(st)
    ensures r.1 <==> bookingId in st.bookings
    ensures !r.1 ==> r.0 == st
    ensures r.1 ==>
      var sid := st.bookings[bookingId].slotId;
      && bookingId !in r.0.bookings
      && r.0.bookings == st.bookings - {bookingId}
      && r.0.users == st.users && r.0.nextBookingId == st.nextBookingId
      && |r.0.slots| == |st.slots|
      && Available(r.0, sid)
      && r.0.slots[sid - 1] == st.slots[sid - 1].(available := true)
      && forall k :: 0 <= k < |st.slots| && k != sid - 1 ==> r.0.slots[k] == st.slots[k]
  {
    if bookingId in st.bookings then
      var sid := st.bookings[bookingId].slotId;
      (st.(slots := st.slots[sid - 1 := st.slots[sid - 1].(available := true)],
           bookings := st.bookings - {bookingId}), true)
    else (st, false)
  }

  /** Cancellation keeps the global invariant. */
  lemma CancelPreservesValid(st: Store, bookingId: nat)
    requires Valid(st)
    ensures Valid(Cancel(st, bookingId).0)
  {
  }

  /**
  Cancelling the booking just made for an available slot undoes it: the store
  is the one before booking, except that the booking id is used up.
  */
  lemma CancelUndoesBook(st: Store, user: int, id: int)
    requires Valid(st) && Available(st, id)
    ensures var (st1, res) := Book(st, user, [id]);
      && res == [id]
      && BookingsReferToSlots(st1)
      && Cancel(st1, st.nextBookingId) == (st.(nextBookingId := st.nextBookingId + 1), true)
  {
    var (st1, res) := Book(st, user, [id]);
    assert [id][1..] == [];
    assert Book(Reserve(st, user, id), user, []) == (Reserve(st, user, id), []);
    assert st1 == Reserve(st, user, id);
    var st2 := Cancel(st1, st.nextBookingId).0;
    assert st2.slots == st.slots;
    assert st.nextBookingId !in st.bookings;
    assert st2.bookings == st.bookings;
  }
}
