# Slot capacity, reservations and bookings — a Dafny model

This project models the booking core of a Laravel booking application. Offerings have days, and each day has time slots. A slot has a capacity, a running `booked_count` and an optional price override.

**Holds.** A customer first takes a temporary hold on a slot. The hold is a Redis key that expires after the configured time to live (600 seconds by default). The hold's id is also added to a per-slot index set.

**Availability.** A slot is available while its capacity exceeds two things added together:
- the bookings that hold a place (`confirmed` or `completed`);
- the holds the index still finds live.

Counting the holds also prunes stale index entries.

**Payment.** A payment signal turns a hold into a confirmed, paid booking. It also increments the slot's counter and drops the hold. The newer listener additionally writes a `reservation_paid:{id}` marker that makes redelivery harmless.

**Other operations.** Bookings can be:
- viewed by their customer or the offering's owner;
- cancelled by either of them, which records a refund and releases one place;
- marked as no-show by the owner once the start time has passed.

Booking references read `PREFIX-YYYYMMDD-RANDOM`.

## How the model is built

**Values and state**
- Each source file is one module.
- Plain data are datatypes.
- Things the source updates in place are classes:
  - the Redis connection (`Redis.Store`);
  - the two repositories;
  - the reservation service;
  - the booking service;
  - the two listeners;
  - the request.

**Class methods**
- Each method's `ensures` equates the new state, and the outcome, with a function of the old state: `AfterCreate`, `AfterRemove`, `AfterCount`, `CancelRows`, `Reserve`, `Cancel`, `MarkNoShow`, `Finalize`, …
- The properties are then proved about those functions.

**The Redis store**
- It is a map from key to (value, optional expiry) plus an integer clock. A key is live while the clock is below its expiry.
- SADD creates a set with no expiry.
- SREM of the last member deletes the key.

**Tables**
- The two tables are sequences whose row ids are positions + 1.
- Their unique keys are part of their well-formedness:
  - slot: day, start and end;
  - booking: reference.

**Invariants**
- `Reservations.Consistent` is the store invariant. Every live hold:
  - carries its own id;
  - expires within one time to live;
  - is listed in its slot's index, which lives at least as long.
- `BookingWorld.CapacityRespected` is the capacity invariant. On every slot, bookings holding a place plus live holds never exceed the capacity.
- Every booking operation (reserve, cancel, no-show and both payment listeners) is proved to keep both invariants. Slot management is not (see Left out).

**Environment**
- Money is integer cents.
- The application clock (`now()`) is a `DateTime` parameter.
- Reservation ids, random reference suffixes and generated references are parameters too.
- A fresh reservation id is a precondition (`FreshId`) where the invariant needs it.
- The catalog (`BookingWorld.Catalog`) holds the offerings (price and owner) and the offering days' dates. An offering, slot or day that is absent stands for a soft-deleted (or otherwise missing) row: its relation loads as null.
- Reading a field of such a row fails with `MissingRelation`, which stands for the `ErrorException` Laravel raises for an array access on null or on an empty result. This happens for `$offering['price']` without a price override, `$booking['offering']['user_id']` and `$booking['time_slot'][…]`.

## Model

| member | source | states |
|---|---|---|
| Slots.IsFullyBooked | app/Models/OfferingTimeSlot.php:66-69 | fully booked is exactly the negation of `isAvailable` (`booked_count < capacity`) |
| Slots.AvailableSpots | app/Models/OfferingTimeSlot.php:58-77 | never negative, at least capacity − booked, equal to 0 or to capacity − booked, positive iff the slot is available |
| Reservations.KeysDistinct | app/Services/Booking/TemporaryReservationService.php:10-12 | main keys and slot-index keys are injective in their argument, never equal each other, and both lie in the `temp_booking` name space |
| Reservations.CreateKeepsConsistent | app/Services/Booking/TemporaryReservationService.php:17-46 | creating a hold with a fresh id keeps the store invariant, makes the hold readable under its id, and adds exactly that id to its slot's live holds; other slots are unchanged |
| Reservations.HoldLifetime | app/Services/Booking/TemporaryReservationService.php:37-57 | a hold created now reads back unchanged at any later time below now + ttl and reads as absent from then on |
| Reservations.HoldOfIndexed | app/Services/Booking/TemporaryReservationService.php:38-43 | under the invariant a hold read under an id carries that id and is a member of its slot's index |
| Reservations.LiveHoldIdsExact | app/Services/Booking/TemporaryReservationService.php:38-43 | under the invariant, the live holds of a slot are exactly the holds naming it, and equal the index members whose main key exists |
| Reservations.RemoveKeepsConsistent | app/Services/Booking/TemporaryReservationService.php:62-80 | remove returns true iff a hold was readable, changes nothing when false, leaves the hold unreadable, keeps other holds and the invariant, takes the id out of every slot's live holds, and a second remove returns false |
| Reservations.CountPrunesStale | app/Services/Booking/TemporaryReservationService.php:85-103 | counting leaves exactly the index members whose main key exists, changes no hold and no other slot's index, and is idempotent |
| Reservations.CountKeepsConsistent | app/Services/Booking/TemporaryReservationService.php:85-103 | counting keeps the store invariant and every slot's live holds |
| Reservations.CountValid | app/Services/Booking/TemporaryReservationService.php:85-103 | under the invariant the count equals the number of live holds on the slot and the pruned store is consistent |
| Reservations.HasHoldForExact | app/Services/Booking/TemporaryReservationService.php:108-121 | `hasReservation` holds iff some live hold of the slot belongs to the user |
| Reservations.AdvanceKeepsConsistent | app/Services/Booking/TemporaryReservationService.php:37-43 | time passing keeps the invariant; a slot's live holds can only shrink |
| Reservations.ForeignWriteKeepsConsistent | app/Booking/Listeners/PaymentSuccessListener.php:96-101 | a SETEX on a key outside the reservation name space keeps the invariant, every hold, every index and every slot's live holds |
| Reservations.EmptyStoreConsistent | app/Services/Booking/TemporaryReservationService.php:8-12 | an empty store satisfies the invariant for any positive ttl |
| Reservations.TemporaryReservationService.GetTTL | app/Services/Booking/TemporaryReservationService.php:142-145 | the configured time to live, positive under the invariant |
| Reservations.TemporaryReservationService.GetReservation | app/Services/Booking/TemporaryReservationService.php:51-57 | the hold document under the main key if it is live; under the invariant it carries the id and is indexed |
| Reservations.TemporaryReservationService.CreateReservation | app/Services/Booking/TemporaryReservationService.php:17-46 | the store becomes `AfterCreate` (SETEX, SADD, EXPIRE), the id is returned and the hold reads back |
| Reservations.TemporaryReservationService.RemoveReservation | app/Services/Booking/TemporaryReservationService.php:62-80 | the store and flag are `AfterRemove` (DEL, then SREM from the hold's slot index) and the hold no longer reads |
| Reservations.TemporaryReservationService.CountReservationsForSlot | app/Services/Booking/TemporaryReservationService.php:85-103 | the loop returns the number of index members with a live main key and SREMs exactly the others; under the invariant that is the number of live holds |
| Reservations.TemporaryReservationService.HasReservation | app/Services/Booking/TemporaryReservationService.php:108-121 | the loop's answer is `HasHoldFor` and nothing is changed |
| SlotRepository.CreateRows | app/Offering/Repositories/Eloquent/OfferingTimeSlotEloquentRepository.php:10-22 | fails iff the (day, start, end) key exists; otherwise appends one row with the next id, capacity defaulting to 1, `booked_count` 0, the given price override |
| SlotRepository.FindByKey | app/Offering/Repositories/Eloquent/OfferingTimeSlotEloquentRepository.php:38-41 | the first row with the key, or none when no row has it |
| SlotRepository.UpsertSpec | app/Offering/Repositories/Eloquent/OfferingTimeSlotEloquentRepository.php:35-55 | upsert keeps the table well formed (one row per key), leaves every booked count and id alone, and the written row has the input's key |
| SlotRepository.UpsertExisting | app/Offering/Repositories/Eloquent/OfferingTimeSlotEloquentRepository.php:43-50 | on a matching row only capacity and price override change, each keeping the stored value when the input omits it (`??`); other rows unchanged |
| SlotRepository.UpsertCreates | app/Offering/Repositories/Eloquent/OfferingTimeSlotEloquentRepository.php:53-54 | without a match upsert is a create that cannot fail, with the create defaults |
| SlotRepository.BulkSpec | app/Offering/Repositories/Eloquent/OfferingTimeSlotEloquentRepository.php:24-33 | one result per input, in input order, each with its input's key; the table stays well formed |
| SlotRepository.IncrementSpec | app/Offering/Repositories/Eloquent/OfferingTimeSlotEloquentRepository.php:83-86 | the named slot's count goes up by exactly one, every other slot is unchanged |
| SlotRepository.DecrementSpec | app/Offering/Repositories/Eloquent/OfferingTimeSlotEloquentRepository.php:88-93 | the named slot's count goes down by one only when positive (never below 0), every other slot is unchanged |
| SlotRepository.DecrementUndoesIncrement | app/Offering/Repositories/Eloquent/OfferingTimeSlotEloquentRepository.php:83-93 | a decrement after an increment restores the table |
| SlotRepository.TimeSlotRepository.FindById | app/Offering/Repositories/Eloquent/OfferingTimeSlotEloquentRepository.php:57-62 | the row with that id, present iff some row has the id |
| SlotRepository.TimeSlotRepository.Create | app/Offering/Repositories/Eloquent/OfferingTimeSlotEloquentRepository.php:10-22 | the table becomes `CreateRows` of the old one, or stays and reports the duplicate |
| SlotRepository.TimeSlotRepository.Upsert | app/Offering/Repositories/Eloquent/OfferingTimeSlotEloquentRepository.php:35-55 | table and written row are `UpsertRows` of the old table |
| SlotRepository.TimeSlotRepository.BulkCreate | app/Offering/Repositories/Eloquent/OfferingTimeSlotEloquentRepository.php:24-33 | the loop's table and results are `BulkRows` of the old table and the inputs |
| SlotRepository.TimeSlotRepository.IncrementBookedCount | app/Offering/Repositories/Eloquent/OfferingTimeSlotEloquentRepository.php:83-86 | the table becomes `IncrementRows` of the old one |
| SlotRepository.TimeSlotRepository.DecrementBookedCount | app/Offering/Repositories/Eloquent/OfferingTimeSlotEloquentRepository.php:88-93 | the table becomes `DecrementRows` of the old one |
| Bookings.CountConfirmedIsSize | app/Booking/Repositories/Eloquent/BookingEloquentRepository.php:66-71 | the count equals the number of the slot's rows whose status is `confirmed` or `completed` |
| Bookings.CountConfirmedUpdate | app/Booking/Repositories/Eloquent/BookingEloquentRepository.php:66-76 | replacing one row changes the count by what the new row holds minus what the old one held |
| Bookings.InsertRows | app/Booking/Repositories/Eloquent/BookingEloquentRepository.php:16-21 | fails iff the reference is taken; otherwise appends one row with the next id, the given fields, no cancellation data and `created_at = now` |
| Bookings.CancelSpec | app/Booking/Repositories/Eloquent/BookingEloquentRepository.php:78-90 | the booking becomes `cancelled` at now, its reason replaced only by a truthy one, nothing else in it or in other bookings changes |
| Bookings.UpdateSpec | app/Booking/Repositories/Eloquent/BookingEloquentRepository.php:73-76 | only the listed fields of the one booking change; every other booking is unchanged |
| Bookings.ChangeIsPointUpdate | app/Booking/Repositories/Eloquent/BookingEloquentRepository.php:73-90 | cancel and update replace exactly the row with that id |
| Bookings.QuerySpec | app/Booking/Repositories/Eloquent/BookingEloquentRepository.php:30-64 | a query returns exactly the owner's bookings passing the filters, each once, newest first |
| Bookings.BookingRepository.Create | app/Booking/Repositories/Eloquent/BookingEloquentRepository.php:16-21 | the table becomes `InsertRows` of the old one and the new row is returned, or the duplicate is reported |
| Bookings.BookingRepository.FindById | app/Booking/Repositories/Eloquent/BookingEloquentRepository.php:23-28 | a booking is returned iff some row has that id, and the returned booking is that row |
| Bookings.BookingRepository.FindByUser | app/Booking/Repositories/Eloquent/BookingEloquentRepository.php:30-46 | newest first; a booking is in the result iff it is the user's and passes the status and payment-status filters, and it occurs as often as in the table |
| Bookings.BookingRepository.FindByOffering | app/Booking/Repositories/Eloquent/BookingEloquentRepository.php:48-64 | the same for an offering id |
| Bookings.BookingRepository.CountConfirmedForSlot | app/Booking/Repositories/Eloquent/BookingEloquentRepository.php:66-71 | the number of the slot's `confirmed`/`completed` rows |
| Bookings.BookingRepository.Update | app/Booking/Repositories/Eloquent/BookingEloquentRepository.php:73-76 | the table becomes `UpdateRows` of the old one |
| Bookings.BookingRepository.Cancel | app/Booking/Repositories/Eloquent/BookingEloquentRepository.php:78-90 | the table becomes `CancelRows` of the old one |
| BookingWorld.CapacityKept | app/Services/Booking/BookingService.php:84-86 | any step that keeps slots and capacities and adds no claim on any slot keeps the capacity invariant |
| BookingServices.AvailabilitySpec | app/Services/Booking/BookingService.php:69-87 | available iff the slot exists and confirmed/completed bookings plus live holds are below its capacity; the pruning changes no claim and keeps the invariant |
| BookingServices.AvailabilityIgnoresBookedCount | app/Services/Booking/BookingService.php:69-87 | the answer does not depend on any slot's `booked_count` |
| BookingServices.ReserveMissingSlot | app/Services/Booking/BookingService.php:32-36 | a missing slot fails with slot-not-found before any availability check and changes nothing |
| BookingServices.ReserveFull | app/Services/Booking/BookingService.php:39-41 | a slot whose claims reach capacity is refused as fully booked and gets no hold; no slot's live holds change |
| BookingServices.ReservePriceMissing | app/Services/Booking/BookingService.php:43-45 | with room, a slot without a price override whose offering is gone fails with `MissingRelation` after the availability check; no hold is written and no slot's live holds change |
| BookingServices.ReserveSucceeds | app/Services/Booking/BookingService.php:43-63 | with room and a readable price, exactly one hold is added to that slot only; it and the response carry the override price or else the offering's, the configured ttl and expiry one ttl ahead |
| BookingServices.ReserveKeepsCapacity | app/Services/Booking/BookingService.php:30-87 | reserving keeps the store invariant and the capacity invariant |
| BookingServices.ViewBooking | app/Services/Booking/BookingService.php:135-152 | the booking is returned iff it exists, its offering exists and the actor is its customer or the offering's owner; otherwise not-found, then `MissingRelation` (the owner is read even for the customer), then unauthenticated |
| BookingServices.CancelFailures | app/Services/Booking/BookingService.php:157-175 | not found, then already cancelled (before authorisation), then the offering gone (`MissingRelation`, even for the customer), then neither customer nor owner; each failure changes nothing |
| BookingServices.CancelSucceeds | app/Services/Booking/BookingService.php:165-184 | any status but `cancelled` is cancelled by the customer or the owner of an existing offering: status `cancelled`, payment `refunded`, `cancelled_at` now, reason only if truthy, others untouched, the slot's count decremented once (floor 0) |
| BookingServices.CancelTwice | app/Services/Booking/BookingService.php:165-167 | a second cancel of the same booking fails as already cancelled and changes nothing |
| BookingServices.CancelKeepsCapacity | app/Services/Booking/BookingService.php:157-185 | cancelling keeps the tables well formed and the capacity invariant |
| BookingServices.CancelIsRelease | app/Services/Booking/BookingService.php:177-184 | a cancel that passes replaces exactly that booking's row by one holding no place (cancelled, refunded), leaves the store alone and decrements the booking's slot counter |
| BookingServices.NoShowFailures | app/Services/Booking/BookingService.php:190-220 | not found, then the offering gone (`MissingRelation`), then not the owner, then status not `confirmed` (message "Cannot mark a {status} booking as no-show"), then the slot or its day gone (`MissingRelation`), then start strictly in the future; each changes nothing |
| BookingServices.NoShowSucceeds | app/Services/Booking/BookingService.php:190-229 | a pass means the booking was confirmed, the actor owns its offering and its start exists and is not in the future; status becomes `no_show`, payment status and every other field kept, other bookings untouched, the slot's count decremented once (floor 0) |
| BookingServices.NoShowKeepsCapacity | app/Services/Booking/BookingService.php:190-230 | marking a no-show keeps the tables well formed and the capacity invariant |
| BookingServices.DateStampFormat | app/Services/Booking/BookingService.php:240 | `Ymd` is eight digits that read back as year, month and day |
| BookingServices.ReferenceFormat | app/Services/Booking/BookingService.php:235-241 | the reference is prefix, dash, the date stamp, dash, the random part upper-cased; its length and each part read back, and the suffix has no lower-case letter |
| BookingServices.BookingService.IsSlotAvailable | app/Services/Booking/BookingService.php:69-87 | state and answer are `Availability` of the old state |
| BookingServices.BookingService.CreateReservation | app/Services/Booking/BookingService.php:30-64 | state and result are `Reserve` of the old state |
| BookingServices.BookingService.GetBooking | app/Services/Booking/BookingService.php:135-152 | the result is `ViewBooking` |
| BookingServices.BookingService.UserBookings | app/Services/Booking/BookingService.php:92-95 | newest first, exactly the user's bookings passing the filters, each as often as in the table |
| BookingServices.BookingService.OfferingBookings | app/Services/Booking/BookingService.php:100-114 | missing offering, then a different owner, fail; otherwise exactly the offering's bookings passing the filters, each as often as in the table, newest first |
| BookingServices.BookingService.CancelBooking | app/Services/Booking/BookingService.php:157-185 | state and outcome are `Cancel` of the old state |
| BookingServices.BookingService.MarkAsNoShow | app/Services/Booking/BookingService.php:190-230 | state and outcome are `MarkNoShow` of the old state |
| BookingServices.BookingService.GenerateBookingReference | app/Services/Booking/BookingService.php:235-241 | `PREFIX-YYYYMMDD-RANDOM`: the configured prefix, a dash, today's `Ymd` stamp (eight digits, see `DateStampFormat`), a dash, the random part upper-cased; the length is prefix + 10 + the configured random length |
| PaymentFinalization.PaidKeyForeign | app/Booking/Listeners/PaymentSuccessListener.php:35 | the marker key never lies among the reservation keys |
| PaymentFinalization.FinalizeAlreadyPaid | app/Booking/Listeners/PaymentSuccessListener.php:34-44 | a live marker refuses the signal before the hold is looked up, with no effect |
| PaymentFinalization.FinalizeExpired | app/Booking/Listeners/PaymentSuccessListener.php:46-60 | no hold: refused as expired, nothing created, counted or marked |
| PaymentFinalization.FinalizeInsertFails | app/Booking/Listeners/PaymentSuccessListener.php:80-117 | a failed insert is passed on and no later step runs: no increment, the hold stays, no marker |
| PaymentFinalization.FinalizeSucceeds | app/Booking/Listeners/PaymentSuccessListener.php:62-101 | one booking appended, confirmed and paid with the event's payment id, the hold's slot, offering, user and price and the event's notes else the hold's; slot count +1; hold gone; marker with reference and payment id expiring in 86400 s |
| PaymentFinalization.ConversionKeepsClaims | app/Booking/Listeners/PaymentSuccessListener.php:80-90 | moving a live hold into a place-holding booking plus the increment leaves every slot's claims and capacity unchanged |
| PaymentFinalization.FinalizeKeepsCapacity | app/Booking/Listeners/PaymentSuccessListener.php:27-118 | finalisation keeps the tables, the store invariant and the capacity invariant |
| PaymentFinalization.FinalizeOnce | app/Booking/Listeners/PaymentSuccessListener.php:35-44 | after a success, the same reservation again, with any payment id at any later time, fails without effect, as already paid within the marker's day |
| PaymentFinalization.PaymentSuccessListener.Handle | app/Booking/Listeners/PaymentSuccessListener.php:27-118 | state and outcome are `Finalize` of the old state |
| LegacyPaymentFinalization.LegacyExpired | app/Listeners/PaymentSuccessListener.php:28-37 | no hold: refused as expired with no side effect |
| LegacyPaymentFinalization.LegacySucceeds | app/Listeners/PaymentSuccessListener.php:39-60 | one confirmed, paid booking with the event's notes only; slot count +1; the hold removed; the store changes by nothing else (no marker) |
| LegacyPaymentFinalization.LegacyKeepsCapacity | app/Listeners/PaymentSuccessListener.php:26-76 | finalisation keeps the tables, the store invariant and the capacity invariant |
| LegacyPaymentFinalization.LegacyRedelivery | app/Listeners/PaymentSuccessListener.php:29-37 | after a success, a redelivery at any later time finds no hold and fails as expired without effect |
| LegacyPaymentFinalization.LegacyPaymentSuccessListener.Handle | app/Listeners/PaymentSuccessListener.php:26-76 | state and outcome are `LegacyFinalize` of the old state |
| OfferingUpdateRequest.FilterIsStrict | app/Http/Requests/Offering/UpdateOfferingRequest.php:24-26 | a field is dropped iff it is exactly null or `''`; whitespace, `0` and `false` are kept |
| OfferingUpdateRequest.OtherKeysDoNotCount | app/Http/Requests/Offering/UpdateOfferingRequest.php:29-37 | keys other than title, description, price and address_info never satisfy the rule |
| OfferingUpdateRequest.HasUpdatableField | app/Http/Requests/Offering/UpdateOfferingRequest.php:29-37 | the scan with `break` is true iff one of the four fields survived the filter |
| OfferingUpdateRequest.MergeKeepsDroppedFields | app/Http/Requests/Offering/UpdateOfferingRequest.php:43 | as written, merging the survivors back leaves the input exactly as it was, so `title: null` stays |
| OfferingUpdateRequest.PreparedLeavesNoEmpty | app/Http/Requests/Offering/UpdateOfferingRequest.php:21-44 | fails iff no updatable field survives, changing nothing; otherwise no null or `''` remains and every other field is kept with its value |
| OfferingUpdateRequest.UpdateOfferingRequest.PrepareForValidation | app/Http/Requests/Offering/UpdateOfferingRequest.php:21-44 | as written: input and outcome are `PreparedAsWritten` of the old input, so the input is unchanged and only the outcome agrees with the intended `Prepared` (see Findings) |

## Left out

- HTTP layer, exception rendering and logging: only the error kinds are kept, as `Common.Error`.
- JSON encoding of holds and markers: the store holds the documents as values.
- Concurrency: every operation is atomic and sequential. This excludes the race between the availability check and the hold write, and the non-transactional mix of Redis and SQL writes.
- UUID and `Str::random` generation: their results are parameters, and a fresh reservation id is a precondition.
- Floating point: prices are integer cents and the `(float)` cast of the price is the identity. A null offering price is not modelled: the offerings table is not part of this model, and the catalog gives every present offering an integer price.
- `expires_at` in the reservation response is `now()` plus the ttl as an ISO-8601 string. The model gives it on the store's integer clock instead.
- The booking service's pipeline-filtered, paginated listings (`getAgencyBookingsWithFilters`, `getCustomerBookingsWithFilters`) are query-builder wrappers.
- The repositories' other members (`findByOfferingDay`, `update`, `delete` of slots) are not part of this model.
- Bookings.BookingRepository.Update: `update` writes any columns it is given; the model's `Patch` carries only status and payment status, the two columns the core writes.
- Soft deletes themselves are not table operations of the model: a row absent from the catalog or the slot table stands for one that was soft-deleted.
- Insert failures: the only database error modelled is the unique key. For bookings this is the reference; for slots it is (day, start, end). The 50-character reference column limit is not modelled.
- The newer listener's `App\Booking\Services` classes are not part of this model. The shown `app/Services/Booking` services stand in for them.
- BookingServices.Reserve requires that the slot table is well formed and the reservation index keys hold sets. The table's unique key and the store invariant give both.
- Reservations.TemporaryReservationService.CountReservationsForSlot requires only that index keys hold sets. The count equals the live holds only under the full invariant.
- `SlotRepository.UpsertRows` may lower a slot's capacity below its bookings. The source allows this, so the capacity invariant is proved for the booking operations only, not for slot management.
- The SQL order among bookings with equal `created_at` is unspecified. The model's sort is stable on row order.

## Findings

| source | as written | input that shows it | evidently intended | confidence | as-written member | corrected member |
|---|---|---|---|---|---|---|
| app/Http/Requests/Offering/UpdateOfferingRequest.php:43 | `merge($filtered)` only overwrites keys of `$filtered`, so the null or `''` fields the filter dropped remain in the request input, and the `required` rule then rejects them | `{"title": null, "price": 10}` passes the field check and keeps `title: null` | the input after preparation holds only the kept fields, so that a partial update with an empty field succeeds | not executed | OfferingUpdateRequest.MergeKeepsDroppedFields | OfferingUpdateRequest.PreparedLeavesNoEmpty |
