/** The booking orchestrator (BookingService): availability, reservation
    with price resolution, viewing, cancellation, the no-show transition and
    booking-reference formatting. Each operation is first a function from the
    state before to the state after and the outcome, with the ordered checks
    of the source; the class at the end runs the same steps against the
    repositories and is proved equal to those functions. */
module BookingServices {
  import opened Common
  import opened Redis
  import opened Reservations
  import opened Slots
  import SlotRepository
  import opened Bookings
  import opened BookingWorld
  import Text

  /** `booking.reference.prefix` and `booking.reference.random_length`. */
  datatype ReferenceConfig = ReferenceConfig(prefix: string, randomLength: nat)

  const DefaultReferenceConfig: ReferenceConfig := ReferenceConfig("BOOK", 6)

  /** What `createReservation` returns. `expiresAt` is read on the store's
      clock. */
  datatype ReservationResponse = ReservationResponse(
    reservationId: string,
    slotId: int,
    offeringId: int,
    totalPrice: int,
    expiresAt: int,
    ttlSeconds: int)

  // ------------------------------------------------------------ availability

  /** `isSlotAvailable`: false for a missing slot; otherwise the capacity
      minus bookings holding a place minus the holds the count finds must be
      positive. Counting prunes the slot's index. */
  function Availability(w: World, slotId: int): (World, bool)
    requires IndexesTyped(w.redis)
  {
    var slot := SlotRepository.RowById(w.slots, slotId);
    if slot.None? then (w, false)
    else
      var permanent := CountConfirmed(w.bookings, slotId);
      var temporary := |ValidIds(w.redis, slotId)|;
      (w.(redis := AfterCount(w.redis, slotId)), slot.value.capacity - (permanent + temporary) > 0)
  }

  /** Availability is exactly "the slot exists and its claims are below its
      capacity"; the check changes no claim and keeps the state valid. */
  lemma AvailabilitySpec(w: World, ttl: int, slotId: int)
    requires Valid(w, ttl)
    ensures var (w', available) := Availability(w, slotId);
      && Valid(w', ttl) && w'.slots == w.slots && w'.bookings == w.bookings
      && (forall s :: Claims(w', s) == Claims(w, s))
      && (available <==>
            SlotRepository.RowById(w.slots, slotId).Some?
            && Claims(w, slotId) < SlotRepository.RowById(w.slots, slotId).value.capacity)
  {
    if SlotRepository.RowById(w.slots, slotId).Some? {
      LiveHoldIdsExact(w.redis, ttl, slotId, "");
      CountKeepsConsistent(w.redis, ttl, slotId);
    }
  }

  /** The availability check never reads `booked_count`: two tables that
      differ only in one slot's booked count give the same answer. */
  lemma AvailabilityIgnoresBookedCount(w: World, i: nat, n: nat, slotId: int)
    requires i < |w.slots| && IndexesTyped(w.redis)
    ensures Availability(w.(slots := w.slots[i := w.slots[i].(bookedCount := n)]), slotId).1 == Availability(w, slotId).1
  {
  }

  // ------------------------------------------------------------- reserving

  /** The hold `createReservation` writes, at the slot's price (its
      override, else its offering's price). */
  function HoldFor(cat: Catalog, slot: Slot, userId: int, notes: Option<string>, now: DateTime, rid: string): Hold
    requires PriceKnown(cat, slot)
  {
    Hold(slot.id, slot.offeringId, userId, SlotPrice(cat, slot), notes, now, rid)
  }

  /** `createReservation(slot, user, notes)`, with the clock reading and the
      fresh reservation id passed in. A slot without override whose offering
      is gone fails reading the offering's price, after the availability
      check has pruned the index and before any hold is written. */
  function Reserve(w: World, cat: Catalog, ttl: int, slotId: int, userId: int, notes: Option<string>,
                   now: DateTime, rid: string): (World, Result<ReservationResponse, Error>)
    requires ttl > 0 && SlotRepository.WellFormed(w.slots) && IndexesTyped(w.redis)
  {
    var slot := SlotRepository.RowById(w.slots, slotId);
    if slot.None? then (w, Err(OfferingTimeSlotNotFound))
    else
      var (w1, available) := Availability(w, slotId);
      if !available then (w1, Err(SlotFullyBooked))
      else if !PriceKnown(cat, slot.value) then (w1, Err(MissingRelation))
      else
        var hold := HoldFor(cat, slot.value, userId, notes, now, rid);
        (w1.(redis := AfterCreate(w1.redis, ttl, hold)),
         Ok(ReservationResponse(rid, slotId, slot.value.offeringId, SlotPrice(cat, slot.value), w.redis.clock + ttl, ttl)))
  }

  /** A missing slot fails first, before any availability check, and
      changes nothing. */
  lemma ReserveMissingSlot(w: World, cat: Catalog, ttl: int, slotId: int, userId: int, notes: Option<string>,
                           now: DateTime, rid: string)
    requires ttl > 0 && SlotRepository.WellFormed(w.slots) && IndexesTyped(w.redis)
    requires forall i :: 0 <= i < |w.slots| ==> w.slots[i].id != slotId
    ensures Reserve(w, cat, ttl, slotId, userId, notes, now, rid) == (w, Err(OfferingTimeSlotNotFound))
  {
  }

  /** A slot whose claims reach its capacity is refused and gets no hold;
      the only change is the pruning of its index. */
  lemma ReserveFull(w: World, cat: Catalog, ttl: int, slotId: int, userId: int, notes: Option<string>,
                    now: DateTime, rid: string)
    requires Valid(w, ttl)
    requires SlotRepository.RowById(w.slots, slotId).Some?
    requires Claims(w, slotId) >= SlotRepository.RowById(w.slots, slotId).value.capacity
    ensures var (w', r) := Reserve(w, cat, ttl, slotId, userId, notes, now, rid);
      && r == Err(SlotFullyBooked) && Valid(w', ttl) && w'.slots == w.slots && w'.bookings == w.bookings
      && (forall s :: LiveHoldIds(w'.redis, s) == LiveHoldIds(w.redis, s))
      && HoldOf(w'.redis, rid) == HoldOf(w.redis, rid)
  {
    AvailabilitySpec(w, ttl, slotId);
    CountKeepsConsistent(w.redis, ttl, slotId);
    CountPrunesStale(w.redis, slotId);
  }

  /** A slot with room whose offering is gone and which has no override is
      refused when its price is read: no hold is written, and the only
      change is the pruning of its index. */
  lemma ReservePriceMissing(w: World, cat: Catalog, ttl: int, slotId: int, userId: int, notes: Option<string>,
                            now: DateTime, rid: string)
    requires Valid(w, ttl)
    requires SlotRepository.RowById(w.slots, slotId).Some?
    requires Claims(w, slotId) < SlotRepository.RowById(w.slots, slotId).value.capacity
    requires SlotRepository.RowById(w.slots, slotId).value.priceOverride.None?
    requires SlotRepository.RowById(w.slots, slotId).value.offeringId !in cat.offerings
    ensures var (w', r) := Reserve(w, cat, ttl, slotId, userId, notes, now, rid);
      && r == Err(MissingRelation) && Valid(w', ttl) && w'.slots == w.slots && w'.bookings == w.bookings
      && (forall s :: LiveHoldIds(w'.redis, s) == LiveHoldIds(w.redis, s))
      && HoldOf(w'.redis, rid) == HoldOf(w.redis, rid)
  {
    AvailabilitySpec(w, ttl, slotId);
    assert Availability(w, slotId).1;
    assert Reserve(w, cat, ttl, slotId, userId, notes, now, rid) == (w.(redis := AfterCount(w.redis, slotId)), Err(MissingRelation));
    CountKeepsConsistent(w.redis, ttl, slotId);
    CountPrunesStale(w.redis, slotId);
  }

  /** A slot with room and a readable price gets exactly one new hold,
      readable under the fresh id, priced at the override or else at the
      offering's price; the response carries that price and the configured
      time to live. */
  lemma ReserveSucceeds(w: World, cat: Catalog, ttl: int, slotId: int, userId: int, notes: Option<string>,
                        now: DateTime, rid: string)
    requires Valid(w, ttl) && FreshId(w.redis, rid)
    requires SlotRepository.RowById(w.slots, slotId).Some?
    requires Claims(w, slotId) < SlotRepository.RowById(w.slots, slotId).value.capacity
    requires PriceKnown(cat, SlotRepository.RowById(w.slots, slotId).value)
    ensures var slot := SlotRepository.RowById(w.slots, slotId).value;
      var price := if slot.priceOverride.Some? then slot.priceOverride.value else cat.offerings[slot.offeringId].price;
      var (w', r) := Reserve(w, cat, ttl, slotId, userId, notes, now, rid);
      && r == Ok(ReservationResponse(rid, slotId, slot.offeringId, price, w.redis.clock + ttl, ttl))
      && Valid(w', ttl) && w'.slots == w.slots && w'.bookings == w.bookings
      && HoldOf(w'.redis, rid) == Some(Hold(slotId, slot.offeringId, userId, price, notes, now, rid))
      && LiveHoldIds(w'.redis, slotId) == LiveHoldIds(w.redis, slotId) + {rid}
      && (forall s :: s != slotId ==> LiveHoldIds(w'.redis, s) == LiveHoldIds(w.redis, s))
  {
    var slot := SlotRepository.RowById(w.slots, slotId).value;
    var db1 := AfterCount(w.redis, slotId);
    var hold := HoldFor(cat, slot, userId, notes, now, rid);
    ReserveWrites(w, cat, ttl, slotId, userId, notes, now, rid);
    CountKeepsConsistent(w.redis, ttl, slotId);
    CountKeepsFresh(w.redis, slotId, rid);
    CreateKeepsConsistent(db1, ttl, hold);
  }

  /** On a slot with room and a readable price, `Reserve` prunes the index,
      then writes the hold. */
  lemma ReserveWrites(w: World, cat: Catalog, ttl: int, slotId: int, userId: int, notes: Option<string>,
                      now: DateTime, rid: string)
    requires Valid(w, ttl)
    requires SlotRepository.RowById(w.slots, slotId).Some?
    requires Claims(w, slotId) < SlotRepository.RowById(w.slots, slotId).value.capacity
    requires PriceKnown(cat, SlotRepository.RowById(w.slots, slotId).value)
    ensures var slot := SlotRepository.RowById(w.slots, slotId).value;
      && slot.id == slotId
      && Reserve(w, cat, ttl, slotId, userId, notes, now, rid)
         == (w.(redis := AfterCreate(AfterCount(w.redis, slotId), ttl, HoldFor(cat, slot, userId, notes, now, rid))),
             Ok(ReservationResponse(rid, slotId, slot.offeringId, SlotPrice(cat, slot), w.redis.clock + ttl, ttl)))
  {
    AvailabilitySpec(w, ttl, slotId);
    ReserveAccepted(w, cat, ttl, slotId, userId, notes, now, rid);
  }

  /** Once the check has found room and the price can be read, `Reserve`
      writes the hold into the store the check left behind. */
  lemma ReserveAccepted(w: World, cat: Catalog, ttl: int, slotId: int, userId: int, notes: Option<string>,
                        now: DateTime, rid: string)
    requires ttl > 0 && SlotRepository.WellFormed(w.slots) && IndexesTyped(w.redis)
    requires SlotRepository.RowById(w.slots, slotId).Some? && Availability(w, slotId).1
    requires PriceKnown(cat, SlotRepository.RowById(w.slots, slotId).value)
    ensures var slot := SlotRepository.RowById(w.slots, slotId).value;
      Reserve(w, cat, ttl, slotId, userId, notes, now, rid)
        == (w.(redis := AfterCreate(AfterCount(w.redis, slotId), ttl, HoldFor(cat, slot, userId, notes, now, rid))),
            Ok(ReservationResponse(rid, slotId, slot.offeringId, SlotPrice(cat, slot), w.redis.clock + ttl, ttl)))
  {
  }

  /** Past the slot lookup, a refusal (no room, or no price to read) leaves
      the world as the availability check left it. */
  lemma ReserveRefused(w: World, cat: Catalog, ttl: int, slotId: int, userId: int, notes: Option<string>,
                       now: DateTime, rid: string)
    requires ttl > 0 && SlotRepository.WellFormed(w.slots) && IndexesTyped(w.redis)
    requires SlotRepository.RowById(w.slots, slotId).Some?
    requires !Availability(w, slotId).1 || !PriceKnown(cat, SlotRepository.RowById(w.slots, slotId).value)
    ensures Reserve(w, cat, ttl, slotId, userId, notes, now, rid)
         == (Availability(w, slotId).0, if !Availability(w, slotId).1 then Err(SlotFullyBooked) else Err(MissingRelation))
  {
  }

  /** Reserving never breaks the capacity invariant: a hold is only added
      when the slot's claims are below its capacity. */
  lemma ReserveKeepsCapacity(w: World, cat: Catalog, ttl: int, slotId: int, userId: int, notes: Option<string>,
                             now: DateTime, rid: string)
    requires Valid(w, ttl) && FreshId(w.redis, rid) && CapacityRespected(w)
    ensures var w' := Reserve(w, cat, ttl, slotId, userId, notes, now, rid).0;
      Valid(w', ttl) && CapacityRespected(w')
  {
    var (w', r) := Reserve(w, cat, ttl, slotId, userId, notes, now, rid);
    var found := SlotRepository.RowById(w.slots, slotId);
    if found.None? {
    } else if Claims(w, slotId) >= found.value.capacity {
      ReserveFull(w, cat, ttl, slotId, userId, notes, now, rid);
      CapacityKept(w, w');
    } else if !PriceKnown(cat, found.value) {
      ReservePriceMissing(w, cat, ttl, slotId, userId, notes, now, rid);
      CapacityKept(w, w');
    } else {
      ReserveSucceeds(w, cat, ttl, slotId, userId, notes, now, rid);
      HoldKeepsCapacity(w, w', slotId, rid);
    }
  }

  /** One more live hold on a slot whose claims were below its capacity
      keeps every slot within its capacity. */
  lemma HoldKeepsCapacity(w: World, w': World, slotId: int, rid: string)
    requires CapacityRespected(w) && SlotRepository.WellFormed(w.slots)
    requires w'.slots == w.slots && w'.bookings == w.bookings
    requires SlotRepository.RowById(w.slots, slotId).Some?
    requires Claims(w, slotId) < SlotRepository.RowById(w.slots, slotId).value.capacity
    requires LiveHoldIds(w'.redis, slotId) == LiveHoldIds(w.redis, slotId) + {rid}
    requires forall s :: s != slotId ==> LiveHoldIds(w'.redis, s) == LiveHoldIds(w.redis, s)
    ensures CapacityRespected(w')
  {
    var holds := LiveHoldIds(w.redis, slotId);
    assert |holds + {rid}| <= |holds| + 1;
    forall s | s in w'.slots ensures Claims(w', s.id) <= s.capacity {
      var i :| 0 <= i < |w.slots| && w.slots[i] == s;
      if s.id != slotId {
        assert Claims(w', s.id) == Claims(w, s.id);
      }
    }
  }

  // ---------------------------------------------------------------- viewing

  /** `getBooking`: the booking, to its customer or the offering's owner.
      Both sides of the check are computed before it, so a booking whose
      offering is gone fails reading the owner, even for its customer. */
  function ViewBooking(w: World, cat: Catalog, id: int, actor: int): (r: Result<Booking, Error>)
    ensures var b := Bookings.RowById(w.bookings, id);
      r.Ok? <==> b.Some? && b.value.offeringId in cat.offerings
                 && (b.value.userId == actor || cat.offerings[b.value.offeringId].ownerId == actor)
    ensures r.Ok? ==> r.value in w.bookings && (Bookings.WellFormed(w.bookings) ==> r.value.id == id)
    ensures var b := Bookings.RowById(w.bookings, id);
      r.Err? ==> r.error == (if b.None? then BookingNotFound
                             else if b.value.offeringId !in cat.offerings then MissingRelation
                             else Unauthenticated)
  {
    var b := Bookings.RowById(w.bookings, id);
    if b.None? then Err(BookingNotFound)
    else if b.value.offeringId !in cat.offerings then Err(MissingRelation)
    else if !(b.value.userId == actor || OwnerMatches(cat, b.value.offeringId, actor)) then Err(Unauthenticated)
    else Ok(b.value)
  }

  // ------------------------------------------------------------- cancelling

  /** `cancelBooking`: not found, then already cancelled, then the offering
      gone (its owner cannot be read), then not the customer nor the owner;
      otherwise cancel, release one place on the slot, and record the
      refund. */
  function Cancel(w: World, cat: Catalog, id: int, actor: int, reason: Option<string>, now: DateTime): (World, Outcome<Error>) {
    var b := Bookings.RowById(w.bookings, id);
    if b.None? then (w, Fail(BookingNotFound))
    else if b.value.status == Cancelled then (w, Fail(BookingAlreadyCancelled(AlreadyCancelledMessage)))
    else if b.value.offeringId !in cat.offerings then (w, Fail(MissingRelation))
    else if !(b.value.userId == actor || OwnerMatches(cat, b.value.offeringId, actor)) then (w, Fail(Unauthenticated))
    else
      var cancelled := CancelRows(w.bookings, id, reason, now);
      (w.(bookings := UpdateRows(cancelled, id, Patch(None, Some(Refunded))),
          slots := SlotRepository.DecrementRows(w.slots, b.value.slotId)),
       Pass)
  }

  /** The failures of `cancelBooking`, in the source's order; each leaves the
      state unchanged. The status check comes before the owner is read, and
      a booking whose offering is gone cannot be cancelled, even by its
      customer. */
  lemma CancelFailures(w: World, cat: Catalog, id: int, actor: int, reason: Option<string>, now: DateTime)
    ensures var (w', o) := Cancel(w, cat, id, actor, reason, now);
      var b := Bookings.RowById(w.bookings, id);
      && (b.None? ==> o == Fail(BookingNotFound))
      && (b.Some? && b.value.status == Cancelled ==> o == Fail(BookingAlreadyCancelled(AlreadyCancelledMessage)))
      && ((b.Some? && b.value.status != Cancelled && b.value.offeringId !in cat.offerings) ==> o == Fail(MissingRelation))
      && ((b.Some? && b.value.status != Cancelled && b.value.offeringId in cat.offerings
             && b.value.userId != actor && cat.offerings[b.value.offeringId].ownerId != actor)
            ==> o == Fail(Unauthenticated))
      && (o.Fail? ==> w' == w)
  {
  }

  /** A successful cancel: the booking is cancelled at `now`, refunded, keeps
      its old reason unless given a truthy one, every other booking is
      unchanged, and the slot's booked count drops by one unless already 0.
      Any status but `cancelled` may be cancelled. */
  lemma CancelSucceeds(w: World, cat: Catalog, id: int, actor: int, reason: Option<string>, now: DateTime)
    requires SlotRepository.WellFormed(w.slots) && Bookings.WellFormed(w.bookings)
    requires Bookings.RowById(w.bookings, id).Some?
    requires Bookings.RowById(w.bookings, id).value.status != Cancelled
    requires Bookings.RowById(w.bookings, id).value.offeringId in cat.offerings
    requires Bookings.RowById(w.bookings, id).value.userId == actor
             || OwnerMatches(cat, Bookings.RowById(w.bookings, id).value.offeringId, actor)
    ensures var b := Bookings.RowById(w.bookings, id).value;
      var (w', o) := Cancel(w, cat, id, actor, reason, now);
      && o == Pass
      && Bookings.RowById(w'.bookings, id) == Some(b.(status := Cancelled, paymentStatus := Refunded, cancelledAt := Some(now),
                                                       cancellationReason := if Truthy(reason) then reason else b.cancellationReason))
      && (forall other :: other != id ==> Bookings.RowById(w'.bookings, other) == Bookings.RowById(w.bookings, other))
      && SlotRepository.WellFormed(w'.slots) && Bookings.WellFormed(w'.bookings) && w'.redis == w.redis
      && (var before := SlotRepository.RowById(w.slots, b.slotId);
          SlotRepository.RowById(w'.slots, b.slotId) ==
            if before.Some? && before.value.bookedCount > 0 then Some(before.value.(bookedCount := before.value.bookedCount - 1))
            else before)
  {
    var b := Bookings.RowById(w.bookings, id).value;
    CancelSpec(w.bookings, id, reason, now);
    UpdateSpec(CancelRows(w.bookings, id, reason, now), id, Patch(None, Some(Refunded)));
    SlotRepository.DecrementSpec(w.slots, b.slotId);
  }

  /** A cancelled booking cannot be cancelled again. */
  lemma CancelTwice(w: World, cat: Catalog, id: int, actor: int, reason: Option<string>, now: DateTime,
                    actor2: int, reason2: Option<string>, now2: DateTime)
    requires SlotRepository.WellFormed(w.slots) && Bookings.WellFormed(w.bookings)
    requires Cancel(w, cat, id, actor, reason, now).1 == Pass
    ensures var w' := Cancel(w, cat, id, actor, reason, now).0;
      Cancel(w', cat, id, actor2, reason2, now2) == (w', Fail(BookingAlreadyCancelled(AlreadyCancelledMessage)))
  {
    CancelSucceeds(w, cat, id, actor, reason, now);
  }

  /** Cancelling releases claims and never adds any, so the capacity
      invariant survives. */
  lemma CancelKeepsCapacity(w: World, cat: Catalog, ttl: int, id: int, actor: int, reason: Option<string>, now: DateTime)
    requires Valid(w, ttl) && CapacityRespected(w)
    ensures var w' := Cancel(w, cat, id, actor, reason, now).0;
      Valid(w', ttl) && CapacityRespected(w')
  {
    var (w', o) := Cancel(w, cat, id, actor, reason, now);
    if o == Pass {
      CancelSucceeds(w, cat, id, actor, reason, now);
      CancelIsRelease(w, cat, id, actor, reason, now);
      var cancelled := Patched(WithCancellation(w.bookings[id - 1], reason, now), Patch(None, Some(Refunded)));
      ReleaseKeepsCapacity(w, w', id, cancelled, w.bookings[id - 1].slotId);
    }
  }

  /** A cancel that passes replaces exactly the booking's row by one that
      holds no place, and decrements its slot's counter. */
  lemma CancelIsRelease(w: World, cat: Catalog, id: int, actor: int, reason: Option<string>, now: DateTime)
    requires Bookings.WellFormed(w.bookings) && Cancel(w, cat, id, actor, reason, now).1 == Pass
    ensures 1 <= id <= |w.bookings|
    ensures var w' := Cancel(w, cat, id, actor, reason, now).0;
      var cancelled := Patched(WithCancellation(w.bookings[id - 1], reason, now), Patch(None, Some(Refunded)));
      && !Occupies(cancelled) && w'.redis == w.redis
      && w'.bookings == w.bookings[id - 1 := cancelled]
      && w'.slots == SlotRepository.DecrementRows(w.slots, w.bookings[id - 1].slotId)
  {
    var p := Patch(None, Some(Refunded));
    var rows1 := CancelRows(w.bookings, id, reason, now);
    var cancelled := WithCancellation(w.bookings[id - 1], reason, now);
    ChangeIsPointUpdate(w.bookings, id, reason, now, p);
    CancelSpec(w.bookings, id, reason, now);
    ChangeIsPointUpdate(rows1, id, reason, now, p);
    assert rows1[id - 1] == cancelled;
  }

  /** Replacing one booking by one that holds no place, and decrementing a
      slot's counter, adds no claim anywhere. */
  lemma ReleaseKeepsCapacity(w: World, w': World, id: int, b: Booking, slotId: int)
    requires CapacityRespected(w) && Bookings.WellFormed(w.bookings) && 1 <= id <= |w.bookings|
    requires !Occupies(b)
    requires w'.bookings == w.bookings[id - 1 := b] && w'.redis == w.redis
    requires w'.slots == SlotRepository.DecrementRows(w.slots, slotId)
    ensures CapacityRespected(w')
  {
    CountersKeepCapacities(w.slots, slotId);
    forall i | 0 <= i < |w.slots| ensures Claims(w', w.slots[i].id) <= Claims(w, w.slots[i].id) {
      CountAfterChange(w.bookings, id, b, w.slots[i].id);
    }
    CapacityKept(w, w');
  }

  // --------------------------------------------------------------- no-show

  /** The scheduled start of a booking: its slot's day date and start
      time. */
  function StartOf(w: World, cat: Catalog, b: Booking): Option<DateTime> {
    var slot := SlotRepository.RowById(w.slots, b.slotId);
    if slot.Some? && slot.value.dayId in cat.dayDates then Some(DateTime(cat.dayDates[slot.value.dayId], slot.value.startTime))
    else None
  }

  function NoShowMessage(s: Status): string {
    "Cannot mark a " + StatusName(s) + " booking as no-show"
  }

  /** `markAsNoShow`: not found, then the offering gone, then not the
      owner, then not confirmed, then the slot or its day gone, then a start
      still in the future; otherwise the status becomes `no_show` and one
      place is released, payment untouched. A gone related row fails where
      the source reads a field of it. */
  function MarkNoShow(w: World, cat: Catalog, id: int, actor: int, now: DateTime): (World, Outcome<Error>) {
    var b := Bookings.RowById(w.bookings, id);
    if b.None? then (w, Fail(BookingNotFound))
    else if b.value.offeringId !in cat.offerings then (w, Fail(MissingRelation))
    else if !OwnerMatches(cat, b.value.offeringId, actor) then (w, Fail(Unauthenticated))
    else if b.value.status != Confirmed then (w, Fail(BookingAlreadyCancelled(NoShowMessage(b.value.status))))
    else if StartOf(w, cat, b.value).None? then (w, Fail(MissingRelation))
    else if Before(now, StartOf(w, cat, b.value).value) then (w, Fail(BookingTimeNotPassed))
    else
      (w.(bookings := UpdateRows(w.bookings, id, Patch(Some(NoShow), None)),
          slots := SlotRepository.DecrementRows(w.slots, b.value.slotId)),
       Pass)
  }

  /** The failures of `markAsNoShow`, in the source's order, each leaving
      the state unchanged; the customer alone may not mark a no-show. */
  lemma NoShowFailures(w: World, cat: Catalog, id: int, actor: int, now: DateTime)
    ensures var (w', o) := MarkNoShow(w, cat, id, actor, now);
      var b := Bookings.RowById(w.bookings, id);
      && (b.None? ==> o == Fail(BookingNotFound))
      && (b.Some? && b.value.offeringId !in cat.offerings ==> o == Fail(MissingRelation))
      && ((b.Some? && b.value.offeringId in cat.offerings && cat.offerings[b.value.offeringId].ownerId != actor)
            ==> o == Fail(Unauthenticated))
      && ((b.Some? && OwnerMatches(cat, b.value.offeringId, actor) && b.value.status != Confirmed)
            ==> o == Fail(BookingAlreadyCancelled("Cannot mark a " + StatusName(b.value.status) + " booking as no-show")))
      && ((b.Some? && OwnerMatches(cat, b.value.offeringId, actor) && b.value.status == Confirmed
             && StartOf(w, cat, b.value).None?) ==> o == Fail(MissingRelation))
      && ((b.Some? && OwnerMatches(cat, b.value.offeringId, actor) && b.value.status == Confirmed
             && StartOf(w, cat, b.value).Some? && Before(now, StartOf(w, cat, b.value).value)) ==> o == Fail(BookingTimeNotPassed))
      && (o.Fail? ==> w' == w)
  {
  }

  /** A successful no-show: status `no_show`, payment status and every other
      field unchanged, other bookings unchanged, one place released. */
  lemma NoShowSucceeds(w: World, cat: Catalog, id: int, actor: int, now: DateTime)
    requires SlotRepository.WellFormed(w.slots) && Bookings.WellFormed(w.bookings)
    requires Bookings.RowById(w.bookings, id).Some?
    requires MarkNoShow(w, cat, id, actor, now).1 == Pass
    ensures var b := Bookings.RowById(w.bookings, id).value;
      var w' := MarkNoShow(w, cat, id, actor, now).0;
      && b.status == Confirmed && OwnerMatches(cat, b.offeringId, actor)
      && StartOf(w, cat, b).Some? && !Before(now, StartOf(w, cat, b).value)
      && Bookings.RowById(w'.bookings, id) == Some(b.(status := NoShow))
      && (forall other :: other != id ==> Bookings.RowById(w'.bookings, other) == Bookings.RowById(w.bookings, other))
      && SlotRepository.WellFormed(w'.slots) && Bookings.WellFormed(w'.bookings) && w'.redis == w.redis
      && (var before := SlotRepository.RowById(w.slots, b.slotId);
          SlotRepository.RowById(w'.slots, b.slotId) ==
            if before.Some? && before.value.bookedCount > 0 then Some(before.value.(bookedCount := before.value.bookedCount - 1))
            else before)
  {
    var b := Bookings.RowById(w.bookings, id).value;
    UpdateSpec(w.bookings, id, Patch(Some(NoShow), None));
    SlotRepository.DecrementSpec(w.slots, b.slotId);
  }

  /** A no-show takes a confirmed booking off the slot, so the capacity
      invariant survives. */
  lemma NoShowKeepsCapacity(w: World, cat: Catalog, ttl: int, id: int, actor: int, now: DateTime)
    requires Valid(w, ttl) && CapacityRespected(w)
    ensures var w' := MarkNoShow(w, cat, id, actor, now).0;
      Valid(w', ttl) && CapacityRespected(w')
  {
    var (w', o) := MarkNoShow(w, cat, id, actor, now);
    if o == Pass {
      var b := Bookings.RowById(w.bookings, id).value;
      NoShowSucceeds(w, cat, id, actor, now);
      ChangeIsPointUpdate(w.bookings, id, None, now, Patch(Some(NoShow), None));
      ReleaseKeepsCapacity(w, w', id, Patched(w.bookings[id - 1], Patch(Some(NoShow), None)), b.slotId);
    }
  }

  // ------------------------------------------------------------- references

  /** `now()->format('Ymd')`. */
  function DateStamp(d: Date): string {
    Text.PadNat(d.year, 4) + Text.PadNat(d.month, 2) + Text.PadNat(d.day, 2)
  }

  /** `generateBookingReference`: prefix, the date, and the random string
      upper-cased, joined by dashes. */
  function BookingReference(cfg: ReferenceConfig, today: Date, random: string): string {
    cfg.prefix + "-" + DateStamp(today) + "-" + Text.Upper(random)
  }

  /** The date stamp is eight digits reading back as year, month, day. */
  lemma DateStampFormat(d: Date)
    requires d.year < 10000 && 1 <= d.month <= 12 && 1 <= d.day <= 31
    ensures var t := DateStamp(d);
      && |t| == 8 && Text.AllDigits(t)
      && Text.ParseNat(t[..4]) == d.year && Text.ParseNat(t[4..6]) == d.month && Text.ParseNat(t[6..]) == d.day
  {
    var y, m, dd := Text.PadNat(d.year, 4), Text.PadNat(d.month, 2), Text.PadNat(d.day, 2);
    Text.PadNatWidth(d.year, 4);
    Text.PadNatWidth(d.month, 2);
    Text.PadNatWidth(d.day, 2);
    Text.ParsePadNat(d.year, 4);
    Text.ParsePadNat(d.month, 2);
    Text.ParsePadNat(d.day, 2);
    var t := DateStamp(d);
    assert t[..4] == y && t[4..6] == m && t[6..] == dd;
  }

  /** Upper-casing letters and digits leaves digits and capitals only. */
  lemma UpperAlphanumeric(random: string)
    requires forall i :: 0 <= i < |random| ==> Text.IsLetterOrDigit(random[i])
    ensures forall i :: 0 <= i < |random| ==> Text.IsDigit(Text.Upper(random)[i]) || 'A' <= Text.Upper(random)[i] <= 'Z'
  {
  }

  /** A reference reads back: the prefix, a dash, four digits of year and two
      each of month and day, a dash, and the random part in upper case with
      no lower-case letter left. */
  lemma ReferenceFormat(cfg: ReferenceConfig, today: Date, random: string)
    requires today.year < 10000 && 1 <= today.month <= 12 && 1 <= today.day <= 31
    requires forall i :: 0 <= i < |random| ==> Text.IsLetterOrDigit(random[i])
    ensures var r := BookingReference(cfg, today, random);
      var p := |cfg.prefix|;
      && |r| == p + 10 + |random|
      && r[..p] == cfg.prefix && r[p] == '-' && r[p + 9] == '-'
      && Text.AllDigits(r[p + 1..p + 9])
      && Text.ParseNat(r[p + 1..p + 5]) == today.year
      && Text.ParseNat(r[p + 5..p + 7]) == today.month
      && Text.ParseNat(r[p + 7..p + 9]) == today.day
      && r[p + 10..] == Text.Upper(random)
      && (forall i :: p + 10 <= i < |r| ==> Text.IsDigit(r[i]) || 'A' <= r[i] <= 'Z')
  {
    var t := DateStamp(today);
    var u := Text.Upper(random);
    DateStampFormat(today);
    UpperAlphanumeric(random);
    var r := BookingReference(cfg, today, random);
    var p := |cfg.prefix|;
    assert r == cfg.prefix + "-" + t + "-" + u;
    assert r[p + 1..p + 9] == t;
    assert r[p + 1..p + 5] == t[..4];
    assert r[p + 5..p + 7] == t[4..6];
    assert r[p + 7..p + 9] == t[6..];
    assert r[p + 10..] == u;
  }

  // ---------------------------------------------------------------- service

  /** The service over the two repositories, the reservation service and
      the read-only catalog. Each method runs the source's steps against the
      repositories and ends in the state, and with the outcome, its function
      above computes. */
  class BookingService {
    const bookings: BookingRepository
    const slots: SlotRepository.TimeSlotRepository
    const reservations: TemporaryReservationService
    const catalog: Catalog
    const reference: ReferenceConfig

    ghost predicate Valid()
      reads this, bookings, slots, reservations, reservations.store
    {
      bookings.Valid() && slots.Valid() && reservations.Valid()
    }

    /** Everything the service reads, as one value. */
    function State(): World
      reads this, bookings, slots, reservations, reservations.store
    {
      World(slots.rows, bookings.rows, reservations.store.Contents())
    }

    constructor (bookings: BookingRepository, slots: SlotRepository.TimeSlotRepository,
                 reservations: TemporaryReservationService, catalog: Catalog, reference: ReferenceConfig)
      requires bookings.Valid() && slots.Valid() && reservations.Valid()
      ensures this.bookings == bookings && this.slots == slots && this.reservations == reservations
      ensures this.catalog == catalog && this.reference == reference
      ensures Valid() && BookingWorld.Valid(State(), reservations.ttl)
    {
      this.bookings := bookings;
      this.slots := slots;
      this.reservations := reservations;
      this.catalog := catalog;
      this.reference := reference;
    }

    method IsSlotAvailable(slotId: int) returns (available: bool)
      requires Valid()
      modifies reservations.store
      ensures Valid()
      ensures (State(), available) == Availability(old(State()), slotId)
    {
      var slot := slots.FindById(slotId);
      if slot.None? {
        return false;
      }
      var permanent := bookings.CountConfirmedForSlot(slotId);
      CountConfirmedIsSize(bookings.rows, slotId);
      var temporary := reservations.CountReservationsForSlot(slotId);
      available := slot.value.capacity - (permanent + temporary) > 0;
    }

    method CreateReservation(slotId: int, userId: int, notes: Option<string>, now: DateTime, rid: string)
      returns (r: Result<ReservationResponse, Error>)
      requires Valid() && FreshId(reservations.store.Contents(), rid)
      modifies reservations.store
      ensures Valid()
      ensures (State(), r) == Reserve(old(State()), catalog, reservations.ttl, slotId, userId, notes, now, rid)
    {
      var clock := reservations.store.clock;
      ghost var w0 := State();
      var slot := slots.FindById(slotId);
      assert slot == SlotRepository.RowById(w0.slots, slotId);
      if slot.None? {
        assert Reserve(w0, catalog, reservations.ttl, slotId, userId, notes, now, rid) == (w0, Err(OfferingTimeSlotNotFound));
        return Err(OfferingTimeSlotNotFound);
      }
      var available := IsSlotAvailable(slotId);
      if !available {
        ReserveRefused(w0, catalog, reservations.ttl, slotId, userId, notes, now, rid);
        return Err(SlotFullyBooked);
      }
      if !PriceKnown(catalog, slot.value) {
        ReserveRefused(w0, catalog, reservations.ttl, slotId, userId, notes, now, rid);
        return Err(MissingRelation);
      }
      var price := SlotPrice(catalog, slot.value);
      ReserveAccepted(w0, catalog, reservations.ttl, slotId, userId, notes, now, rid);
      CountKeepsFresh(w0.redis, slotId, rid);
      ghost var hold := HoldFor(catalog, slot.value, userId, notes, now, rid);
      assert hold == Hold(slotId, slot.value.offeringId, userId, price, notes, now, rid);
      ghost var w1 := State();
      assert w1 == w0.(redis := AfterCount(w0.redis, slotId));
      var id := reservations.CreateReservation(slotId, slot.value.offeringId, userId, price, notes, now, rid);
      assert State() == w1.(redis := AfterCreate(w1.redis, reservations.ttl, hold));
      var ttl := reservations.GetTTL();
      r := Ok(ReservationResponse(id, slotId, slot.value.offeringId, price, clock + ttl, ttl));
      // the expiry is read on the store's clock as it was before the check
      assert r.value.expiresAt == Reserve(w0, catalog, reservations.ttl, slotId, userId, notes, now, rid).1.value.expiresAt;
    }

    /** `getBooking`. */
    function GetBooking(id: int, actor: int): (r: Result<Booking, Error>)
      reads this, bookings
      ensures r == ViewBooking(World(slots.rows, bookings.rows, reservations.store.Contents()), catalog, id, actor)
    {
      var b := bookings.FindById(id);
      if b.None? then Err(BookingNotFound)
      else if b.value.offeringId !in catalog.offerings then Err(MissingRelation)
      else if !(b.value.userId == actor || OwnerMatches(catalog, b.value.offeringId, actor)) then Err(Unauthenticated)
      else Ok(b.value)
    }

    /** `getUserBookings`: the user's bookings matching the filters, newest
        first. */
    function UserBookings(userId: int, f: Filters): (r: seq<Booking>)
      reads this, bookings
      ensures NewestFirst(r) && forall b :: b in r <==> b in bookings.rows && b.userId == userId && Matches(b, f)
      ensures forall b :: multiset(r)[b] == if b.userId == userId && Matches(b, f) then multiset(bookings.rows)[b] else 0
    {
      bookings.FindByUser(userId, f)
    }

    /** `getOfferingBookings`: a missing offering, then a foreign owner, fail;
        otherwise the offering's bookings matching the filters, newest
        first. */
    function OfferingBookings(offeringId: int, actor: int, f: Filters): (r: Result<seq<Booking>, Error>)
      reads this, bookings
      ensures offeringId !in catalog.offerings ==> r == Err(OfferingTimeSlotNotFound)
      ensures offeringId in catalog.offerings && catalog.offerings[offeringId].ownerId != actor ==> r == Err(Unauthenticated)
      ensures r.Ok? <==> offeringId in catalog.offerings && catalog.offerings[offeringId].ownerId == actor
      ensures r.Ok? ==> NewestFirst(r.value)
                        && (forall b :: b in r.value <==> b in bookings.rows && b.offeringId == offeringId && Matches(b, f))
                        && forall b :: multiset(r.value)[b] == if b.offeringId == offeringId && Matches(b, f) then multiset(bookings.rows)[b] else 0
    {
      if offeringId !in catalog.offerings then Err(OfferingTimeSlotNotFound)
      else if catalog.offerings[offeringId].ownerId != actor then Err(Unauthenticated)
      else Ok(bookings.FindByOffering(offeringId, f))
    }

    method CancelBooking(id: int, actor: int, reason: Option<string>, now: DateTime) returns (o: Outcome<Error>)
      requires Valid()
      modifies bookings, slots
      ensures Valid()
      ensures (State(), o) == Cancel(old(State()), catalog, id, actor, reason, now)
    {
      var b := bookings.FindById(id);
      if b.None? {
        return Fail(BookingNotFound);
      }
      if b.value.status == Cancelled {
        return Fail(BookingAlreadyCancelled(AlreadyCancelledMessage));
      }
      if b.value.offeringId !in catalog.offerings {
        return Fail(MissingRelation);
      }
      if !(b.value.userId == actor || OwnerMatches(catalog, b.value.offeringId, actor)) {
        return Fail(Unauthenticated);
      }
      bookings.Cancel(id, reason, now);
      slots.DecrementBookedCount(b.value.slotId);
      bookings.Update(id, Patch(None, Some(Refunded)));
      o := Pass;
    }

    method MarkAsNoShow(id: int, actor: int, now: DateTime) returns (o: Outcome<Error>)
      requires Valid()
      modifies bookings, slots
      ensures Valid()
      ensures (State(), o) == MarkNoShow(old(State()), catalog, id, actor, now)
    {
      var b := bookings.FindById(id);
      if b.None? {
        return Fail(BookingNotFound);
      }
      if b.value.offeringId !in catalog.offerings {
        return Fail(MissingRelation);
      }
      if !OwnerMatches(catalog, b.value.offeringId, actor) {
        return Fail(Unauthenticated);
      }
      if b.value.status != Confirmed {
        return Fail(BookingAlreadyCancelled(NoShowMessage(b.value.status)));
      }
      var slot := slots.FindById(b.value.slotId);
      if slot.None? || slot.value.dayId !in catalog.dayDates {
        return Fail(MissingRelation);
      }
      var start := DateTime(catalog.dayDates[slot.value.dayId], slot.value.startTime);
      if Before(now, start) {
        return Fail(BookingTimeNotPassed);
      }
      bookings.Update(id, Patch(Some(NoShow), None));
      slots.DecrementBookedCount(b.value.slotId);
      o := Pass;
    }

    /** `generateBookingReference`, with today's date and the random string
        passed in. */
    function GenerateBookingReference(today: Date, random: string): (r: string)
      reads this
      requires |random| == reference.randomLength
      requires today.year < 10000 && 1 <= today.month <= 12 && 1 <= today.day <= 31
      requires forall i :: 0 <= i < |random| ==> Text.IsLetterOrDigit(random[i])
      ensures var p := |reference.prefix|;
        && |r| == p + 10 + reference.randomLength
        && r[..p] == reference.prefix && r[p] == '-' && r[p + 9] == '-'
        && r[p + 1..p + 9] == DateStamp(today) && Text.AllDigits(r[p + 1..p + 9])
        && r[p + 10..] == Text.Upper(random)
    {
      ReferenceFormat(reference, today, random);
      BookingReference(reference, today, random)
    }
  }
}
