/**
The slot allocator: lazy generation of a day's 24 hourly slots, the listing of
a day's slots, and the owner's "Create Slot" and "Block Slot" actions.
*/
module Slots {
  import opened Types

  /** One row of a day's listing: the slot id together with the stored slot. */
  datatype Listed = Listed(id: int, slot: Slot)

  /**
  The slot generated or created for hour `h`: it ends one hour later, and the
  23:00 slot ends at 00:00 on the same date.
  */
  function HourSlot(d: Date, h: Hour): Slot {
    Slot(d, h, (h + 1) % 24, true)
  }

  /** The 24 slots of a day, in the order the generator inserts them. */
  function DaySlots(d: Date): seq<Slot> {
    seq(24, h requires 0 <= h < 24 => HourSlot(d, h))
  }

  /**
  Materialises a day on first access: when no slot exists for `d`, the 24
  hourly slots are appended; otherwise nothing happens.
  */
  function Generate(st: Store, d: Date): (r: Store)
    ensures r.users == st.users && r.bookings == st.bookings && r.nextBookingId == st.nextBookingId
    ensures |st.slots| <= |r.slots| && r.slots[..|st.slots|] == st.slots
    ensures HasDay(r, d)
    ensures HasDay(st, d) ==> r == st
    ensures !HasDay(st, d) ==>
      && |r.slots| == |st.slots| + 24
      && forall h :: 0 <= h < 24 ==> r.slots[|st.slots| + h] == HourSlot(d, h)
  {
    if HasDay(st, d) then st
    else
      var r := st.(slots := st.slots + DaySlots(d));
      assert r.slots[|st.slots|].date == d;
      r
  }

  /** The slots from position `i` on whose date is `d`, in id order. */
  function ListFrom(slots: seq<Slot>, d: Date, i: nat): seq<Listed>
    requires i <= |slots|
    decreases |slots| - i
  {
    if i == |slots| then []
    else if slots[i].date == d then [Listed(i + 1, slots[i])] + ListFrom(slots, d, i + 1)
    else ListFrom(slots, d, i + 1)
  }

  /** Every row of the suffix listing is a stored slot of date `d` from position `i` on. */
  lemma {:induction false} ListFromSound(slots: seq<Slot>, d: Date, i: nat)
    requires i <= |slots|
    ensures forall e :: e in ListFrom(slots, d, i) ==>
      i < e.id <= |slots| && slots[e.id - 1] == e.slot && e.slot.date == d
    decreases |slots| - i
  {
    if i < |slots| {
      ListFromSound(slots, d, i + 1);
    }
  }

  /** Every stored slot of date `d` from position `i` on is a row of the suffix listing. */
  lemma {:induction false} ListFromComplete(slots: seq<Slot>, d: Date, i: nat)
    requires i <= |slots|
    ensures forall k :: i <= k < |slots| && slots[k].date == d ==> Listed(k + 1, slots[k]) in ListFrom(slots, d, i)
    decreases |slots| - i
  {
    if i < |slots| {
      ListFromComplete(slots, d, i + 1);
    }
  }

  /** The rows of the suffix listing are in strictly increasing id order. */
  lemma {:induction false} ListFromSorted(slots: seq<Slot>, d: Date, i: nat)
    requires i <= |slots|
    ensures IdsIncreasing(ListFrom(slots, d, i))
    decreases |slots| - i
  {
    if i < |slots| {
      ListFromSorted(slots, d, i + 1);
      if slots[i].date == d {
        var rest := ListFrom(slots, d, i + 1);
        ListFromSound(slots, d, i + 1);
        var r := [Listed(i + 1, slots[i])] + rest;
        forall a, b | 0 <= a < b < |r| ensures r[a].id < r[b].id {
          assert r[b] == rest[b - 1] && r[b] in rest;
          if a > 0 {
            assert r[a] == rest[a - 1];
          }
        }
      }
    }
  }

  /** Rows in strictly increasing slot-id order. */
  predicate IdsIncreasing(r: seq<Listed>) {
    forall a, b :: 0 <= a < b < |r| ==> r[a].id < r[b].id
  }

  /**
  All slots of date `d`, available or not, in slot-id order: exactly the
  stored slots with that date, each once.
  */
  function ListDay(st: Store, d: Date): (r: seq<Listed>)
    ensures forall e :: e in r ==> SlotExists(st, e.id) && SlotAt(st, e.id) == e.slot && e.slot.date == d
    ensures forall id :: SlotExists(st, id) && SlotAt(st, id).date == d ==> Listed(id, SlotAt(st, id)) in r
    ensures IdsIncreasing(r)
  {
    var r := ListFrom(st.slots, d, 0);
    ListFromSound(st.slots, d, 0);
    ListFromComplete(st.slots, d, 0);
    ListFromSorted(st.slots, d, 0);
    assert forall id :: SlotExists(st, id) && SlotAt(st, id).date == d ==> Listed(id, SlotAt(st, id)) in r by {
      forall id | SlotExists(st, id) && SlotAt(st, id).date == d
        ensures Listed(id, SlotAt(st, id)) in r
      {
        assert st.slots[id - 1].date == d;
      }
    }
    r
  }

  /**
  The slot query of the booking page: generate the day if needed, then list
  every slot of that day, each once, in id order. The listing is never empty.
  */
  function GetAvailableSlots(st: Store, d: Date): (r: (Store, seq<Listed>))
    ensures r.0 == Generate(st, d)
    ensures |r.1| > 0
    ensures forall e :: e in r.1 ==> SlotExists(r.0, e.id) && SlotAt(r.0, e.id) == e.slot && e.slot.date == d
    ensures forall id :: SlotExists(r.0, id) && SlotAt(r.0, id).date == d ==> Listed(id, SlotAt(r.0, id)) in r.1
    ensures IdsIncreasing(r.1)
  {
    var st' := Generate(st, d);
    var i :| 0 <= i < |st'.slots| && st'.slots[i].date == d;
    assert SlotExists(st', i + 1) && SlotAt(st', i + 1).date == d;
    (st', ListDay(st', d))
  }

  /**
  The owner's "Create Slot": adds one available slot at (`d`, `h`) ending at
  `(h + 1) % 24`, unless a slot with that date and start hour exists. The
  boolean says whether the slot was created.
  */
  function CreateSlot(st: Store, d: Date, h: Hour): (r: (Store, bool))
    ensures r.1 <==> !HasSlotAt(st, d, h)
    ensures HasSlotAt(r.0, d, h)
    ensures !r.1 ==> r.0 == st
    ensures r.1 ==>
      && r.0.users == st.users && r.0.bookings == st.bookings && r.0.nextBookingId == st.nextBookingId
      && |r.0.slots| == |st.slots| + 1 && r.0.slots[..|st.slots|] == st.slots
      && var s := SlotAt(r.0, |st.slots| + 1);
         s.date == d && s.startHour == h && s.endHour == (h + 1) % 24 && s.available
  {
    if HasSlotAt(st, d, h) then (st, false)
    else
      var st' := st.(slots := st.slots + [HourSlot(d, h)]);
      assert st'.slots[|st.slots|] == HourSlot(d, h);
      (st', true)
  }

  /**
  The owner's "Block Slot": the chosen slot becomes unavailable, whether or
  not it is booked, and nothing else changes.
  */
  function BlockSlot(st: Store, id: int): (r: Store)
    requires SlotExists(st, id)
    ensures r.users == st.users && r.bookings == st.bookings && r.nextBookingId == st.nextBookingId
    ensures |r.slots| == |st.slots|
    ensures !Available(r, id)
    ensures forall k :: 0 <= k < |st.slots| ==>
      r.slots[k] == if k == id - 1 then st.slots[k].(available := false) else st.slots[k]
  {
    st.(slots := st.slots[id - 1 := st.slots[id - 1].(available := false)])
  }

  // ---------------------------------------------------------------------------
  // Lemmas about the listing
  // ---------------------------------------------------------------------------

  /** Slots of other dates between `i` and `j` do not contribute to the listing. */
  lemma {:induction false} ListSkipsOtherDates(slots: seq<Slot>, d: Date, i: nat, j: nat)
    requires i <= j <= |slots|
    requires forall k :: i <= k < j ==> slots[k].date != d
    ensures ListFrom(slots, d, i) == ListFrom(slots, d, j)
    decreases j - i
  {
    if i < j {
      ListSkipsOtherDates(slots, d, i + 1, j);
    }
  }

  /** When every slot from `i` on has date `d`, the listing is that suffix, numbered. */
  lemma {:induction false} ListOfOneDay(slots: seq<Slot>, d: Date, i: nat)
    requires i <= |slots|
    requires forall k :: i <= k < |slots| ==> slots[k].date == d
    ensures |ListFrom(slots, d, i)| == |slots| - i
    ensures forall t :: 0 <= t < |slots| - i ==> ListFrom(slots, d, i)[t] == Listed(i + t + 1, slots[i + t])
    decreases |slots| - i
  {
    if i < |slots| {
      ListOfOneDay(slots, d, i + 1);
      var r := ListFrom(slots, d, i);
      assert r == [Listed(i + 1, slots[i])] + ListFrom(slots, d, i + 1);
      forall t | 0 <= t < |slots| - i
        ensures r[t] == Listed(i + t + 1, slots[i + t])
      {
        if t > 0 {
          assert r[t] == ListFrom(slots, d, i + 1)[t - 1];
        }
      }
    }
  }

  /**
  A listing of one freshly generated day: 24 rows with consecutive ids from
  `firstId`, row `h` being the available slot from hour `h` to `(h + 1) % 24`.
  */
  predicate ListsFreshDay(l: seq<Listed>, d: Date, firstId: int) {
    && |l| == 24
    && forall h :: 0 <= h < 24 ==> l[h].id == firstId + h && l[h].slot == HourSlot(d, h)
  }

  /**
  On a date with no slots, the booking page lists exactly the 24 generated
  slots: hours 0 to 23 in order, each ending at the next hour modulo 24, all
  available, with the next 24 slot ids.
  */
  lemma FreshDayListing(st: Store, d: Date)
    requires !HasDay(st, d)
    ensures ListsFreshDay(GetAvailableSlots(st, d).1, d, |st.slots| + 1)
  {
    var st' := Generate(st, d);
    var n := |st.slots|;
    assert forall k :: 0 <= k < n ==> st'.slots[k].date != d by {
      forall k | 0 <= k < n ensures st'.slots[k].date != d {
        assert st'.slots[k] == st'.slots[..n][k];
      }
    }
    ListSkipsOtherDates(st'.slots, d, 0, n);
    ListOfOneDay(st'.slots, d, n);
  }

  /**
  Generation is idempotent: the second call on the same date changes nothing,
  so listing a day twice yields the same store and the same slots.
  */
  lemma GetAvailableSlotsIdempotent(st: Store, d: Date)
    ensures var (st1, l1) := GetAvailableSlots(st, d);
      GetAvailableSlots(st1, d) == (st1, l1)
  {
  }

  /** Once a fresh day has been generated, "Create Slot" rejects every hour of it. */
  lemma GeneratedDayRejectsCreate(st: Store, d: Date, h: Hour)
    requires !HasDay(st, d)
    ensures !CreateSlot(Generate(st, d), d, h).1
  {
  }

  /**
  A slot the owner creates on an untouched date counts as the day having been
  generated: the booking page then lists that one slot and not 24.
  */
  lemma CreateSuppressesGeneration(st: Store, d: Date, h: Hour)
    requires !HasDay(st, d)
    ensures var st1 := CreateSlot(st, d, h).0;
      |GetAvailableSlots(st1, d).1| == 1
  {
    var st1 := CreateSlot(st, d, h).0;
    assert !HasSlotAt(st, d, h);
    assert HasDay(st1, d) by {
      assert st1.slots[|st.slots|].date == d;
    }
    var n := |st.slots|;
    assert forall k :: 0 <= k < n ==> st1.slots[k].date != d by {
      forall k | 0 <= k < n ensures st1.slots[k].date != d {
        assert st1.slots[k] == st1.slots[..n][k];
      }
    }
    ListSkipsOtherDates(st1.slots, d, 0, n);
    ListOfOneDay(st1.slots, d, n);
  }

  // ---------------------------------------------------------------------------
  // The global invariant
  // ---------------------------------------------------------------------------

  lemma GeneratePreservesValid(st: Store, d: Date)
    requires Valid(st)
    ensures Valid(Generate(st, d))
  {
  }

  lemma CreateSlotPreservesValid(st: Store, d: Date, h: Hour)
    requires Valid(st)
    ensures Valid(CreateSlot(st, d, h).0)
  {
  }

  lemma BlockSlotPreservesValid(st: Store, id: int)
    requires Valid(st) && SlotExists(st, id)
    ensures Valid(BlockSlot(st, id))
  {
  }
}
