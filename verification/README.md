# Turf booking: a Dafny model of the booking core

This project models the booking domain of a single-facility turf booking web
application. Users register, log in, view a day's hourly slots and book or
cancel them. Owners create and block slots and page through bookings.

The relational store (users, slots, bookings) is one immutable `Store` value.
Each service call is a pure transition from one store to the next:

- `types.dfy` (`Types`) holds the entities, the store and the global invariant
  `Valid`. `Valid` says booking ids are fresh and every booking references an
  existing slot. It also says each slot has at most one booking, a booked slot
  is unavailable, emails are unique, and no two slots share a date and start
  hour.
- `slots.dfy` (`Slots`) holds lazy generation of a day's 24 slots, the day
  listing, and the owner's "Create Slot" and "Block Slot".
- `bookings.dfy` (`Bookings`) holds batch booking with silent skipping, and
  cancellation.
- `accounts.dfy` (`Accounts`) holds registration with a unique email, and
  login.
- `paging.dfy` (`Paging`) holds the page count and the page slices of the
  booking lists.
- `scenarios.dfy` (`Scenarios`) holds properties spanning several operations.

Slots and users are never deleted, and their ids are auto-incremented from 1.
So the slot table is a sequence, with slot id `k` at position `k - 1`, and the
same holds for users. Bookings are hard-deleted, so they are a map from booking
id to booking, with a counter for fresh ids. A listing in slot-id order is the
order of the sequence.

Behaviour worth noting:

- Blocking is not one-way. If a booked slot is blocked and its booking is then
  cancelled, the cancellation makes the slot available again
  (`Scenarios.CancelReopensBlockedSlot`).
- A slot the owner creates on a date nobody has viewed makes that date count
  as generated. The booking page then lists that single slot, not 24
  (`Slots.CreateSuppressesGeneration`).
- The day query has no ordering clause. The model lists slots in id order,
  which is insertion order for this table.

## Model

| member | source | states |
|---|---|---|
| `Types.EmptyIsValid` | turf_chatot.py:47-48 | The freshly created, empty database satisfies the global invariant. |
| `Slots.Generate` | turf_chatot.py:74-82 | If the date already has a slot, the store is unchanged. Otherwise exactly 24 slots are appended for hours 0 to 23, each ending at `(h + 1) % 24` and available. Existing slots, bookings and users are untouched, and afterwards the date has slots. |
| `Slots.GeneratePreservesValid` | turf_chatot.py:74-82 | Generation keeps the invariant: the new day's slots have distinct hours on a date no earlier slot had. |
| `Slots.ListFromSound` | turf_chatot.py:86 | Every row the day filter returns, from a position on, is a stored slot of that date under its own id. |
| `Slots.ListFromComplete` | turf_chatot.py:86 | Every stored slot of the date, from a position on, is returned by the day filter under its own id. |
| `Slots.ListFromSorted` | turf_chatot.py:86 | The rows the day filter returns are in strictly increasing slot-id order. |
| `Slots.ListDay` | turf_chatot.py:86 | The day query returns every stored slot of that date, available or not. Each appears with its own id, in increasing id order, and nothing else appears. |
| `Slots.GetAvailableSlots` | turf_chatot.py:84-86 | The booking page's query generates the day if needed, then lists that day's slots from the generated store. The list is never empty. |
| `Slots.FreshDayListing` | turf_chatot.py:74-86 | On a date with no slots, the query lists exactly 24 slots with the next 24 ids. Row `h` starts at hour `h`, ends at `(h + 1) % 24` and is available. |
| `Slots.GetAvailableSlotsIdempotent` | turf_chatot.py:75-86 | Querying a day twice gives the same store and the same listing as querying once, so no slot is duplicated. |
| `Slots.CreateSlot` | turf_chatot.py:351-361 | Creation succeeds exactly when no slot has that date and start hour. It then appends one available slot ending at `(h + 1) % 24`. On failure the store is unchanged, and either way such a slot exists afterwards. |
| `Slots.CreateSlotPreservesValid` | turf_chatot.py:354-358 | Creating a slot keeps the invariant, in particular the uniqueness of (date, start hour). |
| `Slots.GeneratedDayRejectsCreate` | turf_chatot.py:355-361 | After a fresh day is generated, creating a slot at any hour of it is rejected. |
| `Slots.CreateSuppressesGeneration` | turf_chatot.py:74-86 | If the owner creates one slot on an untouched date, the booking page later lists only that slot for the date. |
| `Slots.BlockSlot` | turf_chatot.py:371-373 | Blocking makes the chosen slot unavailable, booked or not. Every other slot and all users and bookings are unchanged. |
| `Slots.BlockSlotPreservesValid` | turf_chatot.py:371-373 | Blocking keeps the invariant. |
| `Bookings.Book` | turf_chatot.py:88-97 | Booking leaves users and the number of slots alone. It returns no more ids than requested, all of them requested, and advances the booking-id counter by the number booked. |
| `Bookings.ReserveAvailability` | turf_chatot.py:91-93 | Booking one slot makes exactly that slot unavailable and leaves every other slot's availability as it was. |
| `Bookings.BookedIdsExact` | turf_chatot.py:90-96 | An id is in the result exactly when it was requested and its slot existed and was available before the call. Taken and missing ids are skipped. |
| `Bookings.BookedIdsInRequestOrder` | turf_chatot.py:89-96 | The result has no repeated id, and its ids are in the order of their first request. A repeated request is booked at most once. |
| `Bookings.BookSlotEffect` | turf_chatot.py:90-93 | Each booked slot is now unavailable and otherwise unchanged. Every other slot, requested or not, is unchanged. |
| `Bookings.BookRecords` | turf_chatot.py:93-96 | Exactly one booking `(user, id)` is created per booked id, under consecutive fresh booking ids. Every existing booking is kept. |
| `Bookings.ReservePreservesValid` | turf_chatot.py:91-95 | Booking one available slot keeps the invariant: no other booking references it, and it becomes unavailable. |
| `Bookings.BookPreservesValid` | turf_chatot.py:88-97 | A whole batch booking keeps the invariant. |
| `Bookings.Cancel` | turf_chatot.py:103-110 | Cancelling succeeds exactly when the booking id exists. The booking is then removed and its slot becomes available. Every other booking, slot and user is unchanged. A missing id returns false and leaves the store as it is. |
| `Bookings.CancelPreservesValid` | turf_chatot.py:103-109 | Cancellation keeps the invariant. |
| `Bookings.CancelUndoesBook` | turf_chatot.py:88-109 | Booking an available slot and then cancelling that booking restores the store, except that the booking id is used up. |
| `Accounts.FindByEmail` | turf_chatot.py:69 | The lookup returns the position of the first user with that email, or none when no user has it. |
| `Accounts.Register` | turf_chatot.py:57-66 | Registration succeeds exactly when the email is unused. It then appends one user with the given fields. On failure the store is unchanged. Unique emails stay unique. |
| `Accounts.Authenticate` | turf_chatot.py:68-72 | Login returns a user (with its id) only if it has that email and the password checks against its stored hash. It returns none exactly when the email is unknown or the check fails. |
| `Accounts.AuthenticateFailsExactly` | turf_chatot.py:68-72 | With unique emails, login fails exactly when no account with that email has a hash the password checks against. An unknown email and a wrong password give the same answer. |
| `Accounts.RegisterThenAuthenticate` | turf_chatot.py:57-72 | After registering with an unused email, logging in with a password the hash check accepts returns the new account under the next user id. |
| `Accounts.RegisterPreservesValid` | turf_chatot.py:57-66 | Registration keeps the invariant, including email uniqueness. |
| `Paging.TotalPages` | turf_chatot.py:332 | The page count `(n - 1) // k + 1` is the ceiling of `n / k`: `(r - 1) * k < n <= r * k`. It is 0 for an empty list. |
| `Paging.Page` | turf_chatot.py:120-123 | A page has at most `k` items. They are the consecutive items from `p * k`, clamped to the end of the list, and the page is empty past the end. |
| `Paging.JoinPagesIsPrefix` | turf_chatot.py:120-123 | The first `c` pages, concatenated, are the prefix of the list of length `min(c * k, n)`. |
| `Paging.PagesPartition` | turf_chatot.py:332-334 | Pages `0` to `total_pages - 1` concatenate to the whole list, none of them is empty, and every later page is empty. |
| `Scenarios.DayBookCancel` | turf_chatot.py:84-110 | Generate a fresh day, book its 10:00-11:00 slot, then cancel the booking. In between, the user holds one more booking. Afterwards the slot is available again and the user's bookings are as before. |
| `Scenarios.BookedSlotNotRebooked` | turf_chatot.py:90-93 | In any store satisfying the invariant, the slot of an existing booking is skipped by every batch, from any user. Since every operation keeps the invariant and only cancellation removes a booking, a booked slot is never booked again until its booking is cancelled. |
| `Scenarios.CancelReopensBlockedSlot` | turf_chatot.py:103-109 | Cancelling the booking of a slot the owner has since blocked makes the slot available again. |

## Left out

- The Streamlit interface is not modelled. This covers the sidebar, the
  login/sign-up/Google buttons, the dashboards, styling, images, the Google
  sign-in stub and the card layout in `render_bookings_as_cards`. It is
  presentation only.
- The input checks before registration and login are not modelled. These are
  non-empty fields and a password of at least 6 characters. They belong to
  the form, not to `register_user`, which accepts any strings.
- bcrypt salting and hashing are not modelled. The salt is random, so
  `hash_password` is not a function. `Accounts.Register` receives the hash
  already computed, and `Accounts.Authenticate` receives the hash check as a
  function parameter. The round-trip property `check(p, hash(p))` is a
  precondition of `Accounts.RegisterThenAuthenticate`.
- `send_notification` is not modelled, and neither is the user lookup before
  it in `book_slot`. The lookup only reads the user table; `send_notification`
  only formats text and writes it on screen. For an
  unknown user id the real code raises only after committing, so the store
  change is still the one modelled.
- SQLAlchemy sessions, commit and rollback are not modelled. Each service call
  is one atomic transition. The email uniqueness constraint is modelled as an
  explicit check in `Accounts.Register`.
- Concurrency is not modelled. This includes the races between checking and
  acting in generation and booking. A sequential model cannot express them.
- Calendar dates are opaque integers, and times are whole hours 0 to 23 (every
  stored time has zero minutes).
- Booking ids come from a counter. SQLite may hand out the id of the
  highest-numbered booking again once that booking is deleted. The model only
  relies on ids being fresh when they are assigned.
- The booking confirmation flag is always true, so it is not represented.
- The role strings "user" and "owner" become the two variants of `Role`. The
  dashboards that branch on them are presentation.
- The booking lists by user and by date (lines 313, 328 and 380) are not
  modelled as ordered queries. `BookingsOf` gives the set of a user's booking
  ids. Pagination is modelled over any list.
- `Slots.BlockSlot`: requires the slot id to exist. In the source the owner
  picks the slot from the listing of a date, so it always exists.
- `Slots.CreateSlot`: takes the start hour as an hour 0 to 23. The number
  input in the source enforces this range.
- `Bookings.Cancel`: requires every booking to reference an existing slot.
  Every reachable store satisfies this, because bookings are only made for
  existing slots and slots are never deleted.
