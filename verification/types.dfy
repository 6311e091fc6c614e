/**
The persistent state of the turf booking application as one immutable value.

The three tables of the relational schema become:
- `slots`, a sequence: slots are never deleted and their ids are assigned by
  auto-increment from 1, so the slot with id `k` sits at position `k - 1`;
- `users`, a sequence for the same reason (there is no deletion path);
- `bookings`, a map from booking id to booking, because bookings are
  hard-deleted on cancellation; fresh ids come from `nextBookingId`.
*/
module Types {

  datatype Option<+T> = None | Some(value: T)

  /** Calendar dates are opaque day numbers: only equality between them matters. */
  type Date = int

  /** A whole hour of the day; every stored time has zero minutes. */
  type Hour = h: int | 0 <= h < 24

  /** The two account kinds ("user" and "owner" in the stored role column). */
  datatype Role = Customer | Owner

  datatype User = User(name: string, email: string, phone: string, passwordHash: string, role: Role)

  /** A one-hour window on a date; `available` defaults to true on creation. */
  datatype Slot = Slot(date: Date, startHour: Hour, endHour: Hour, available: bool)

  /**
  A booking links a user id to a slot id. The confirmation flag is always true
  once a booking exists, so it is not represented.
  */
  datatype Booking = Booking(userId: int, slotId: int)

  datatype Store = Store(users: seq<User>, slots: seq<Slot>, bookings: map<nat, Booking>, nextBookingId: nat)

  /** The freshly created database: three empty tables, ids start at 1. */
  const Empty: Store := Store([], [], map[], 1)

  predicate SlotExists(st: Store, id: int) {
    1 <= id <= |st.slots|
  }

  /** The slot row with the given id. */
  function SlotAt(st: Store, id: int): Slot
    requires SlotExists(st, id)
  {
    st.slots[id - 1]
  }

  /** The row the booking query finds: the slot exists and is available. */
  predicate Available(st: Store, id: int) {
    SlotExists(st, id) && st.slots[id - 1].available
  }

  /** Some slot, of any availability, is stored for date `d`. */
  predicate HasDay(st: Store, d: Date) {
    exists i :: 0 <= i < |st.slots| && st.slots[i].date == d
  }

  /** Some slot is stored for date `d` starting at hour `h`. */
  predicate HasSlotAt(st: Store, d: Date, h: Hour) {
    exists i :: 0 <= i < |st.slots| && st.slots[i].date == d && st.slots[i].startHour == h
  }

  predicate BookingIdsFresh(st: Store) {
    forall k :: k in st.bookings ==> k < st.nextBookingId
  }

  predicate BookingsReferToSlots(st: Store) {
    forall k :: k in st.bookings ==> SlotExists(st, st.bookings[k].slotId)
  }

  /** The shape every reachable store has: the id counter and the slot foreign key. */
  predicate Wf(st: Store) {
    BookingIdsFresh(st) && BookingsReferToSlots(st)
  }

  predicate AtMostOneBookingPerSlot(st: Store) {
    forall k1, k2 :: k1 in st.bookings && k2 in st.bookings && k1 != k2 ==>
      st.bookings[k1].slotId != st.bookings[k2].slotId
  }

  predicate BookedSlotsUnavailable(st: Store)
    requires BookingsReferToSlots(st)
  {
    forall k :: k in st.bookings ==> !SlotAt(st, st.bookings[k].slotId).available
  }

  predicate EmailsUnique(users: seq<User>) {
    forall i, j :: 0 <= i < j < |users| ==> users[i].email != users[j].email
  }

  /** No two slots share a date and a start hour. */
  predicate SlotTimesUnique(slots: seq<Slot>) {
    forall i, j :: 0 <= i < j < |slots| ==>
      slots[i].date != slots[j].date || slots[i].startHour != slots[j].startHour
  }

  /**
  The global invariant every transition keeps: each slot has at most one
  booking, a slot with a booking is unavailable, emails are unique and a
  (date, start hour) pair names at most one slot.
  */
  predicate Valid(st: Store) {
    && Wf(st)
    && AtMostOneBookingPerSlot(st)
    && BookedSlotsUnavailable(st)
    && EmailsUnique(st.users)
    && SlotTimesUnique(st.slots)
  }

  /** The ids of the bookings held by user `u`. */
  function BookingsOf(st: Store, u: int): set<nat> {
    set k | k in st.bookings && st.bookings[k].userId == u
  }

  lemma EmptyIsValid()
    ensures Valid(Empty)
    ensures forall d :: !HasDay(Empty, d)
  {
  }
}
