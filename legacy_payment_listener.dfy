/** Payment finalisation without the paid marker (the older
    PaymentSuccessListener): a live hold becomes a confirmed, paid booking
    with the event's notes only, the slot's counter goes up and the hold is
    removed. A redelivery is refused only because the hold is gone. */
module LegacyPaymentFinalization {
  import opened Common
  import opened Redis
  import opened Reservations
  import SlotRepository
  import opened Bookings
  import opened BookingWorld
  import opened PaymentFinalization

  /** `handle(event)`, with the generated booking reference and the clock
      reading passed in. */
  function LegacyFinalize(w: World, e: PaymentEvent, reference: string, now: DateTime): (World, Outcome<Error>)
    requires IndexesTyped(w.redis)
  {
    var h := HoldOf(w.redis, e.reservationId);
    if h.None? then (w, Fail(ReservationExpired))
    else
      var inserted := InsertRows(w.bookings, FieldsFor(h.value, e.paymentId, e.customerNotes, reference, now), now);
      if inserted.Err? then (w, Fail(inserted.error))
      else
        (World(SlotRepository.IncrementRows(w.slots, h.value.slotId), inserted.value, AfterRemove(w.redis, e.reservationId).0),
         Pass)
  }

  /** A missing or expired hold is refused with no side effect. */
  lemma LegacyExpired(w: World, e: PaymentEvent, reference: string, now: DateTime)
    requires IndexesTyped(w.redis) && HoldOf(w.redis, e.reservationId).None?
    ensures LegacyFinalize(w, e, reference, now) == (w, Fail(ReservationExpired))
  {
  }

  /** A successful finalisation appends one confirmed, paid booking whose
      notes are the event's, ignoring the hold's; the slot's count goes up by
      one and the hold is removed. No marker is written: the store changes
      only by the removal. */
  lemma LegacySucceeds(w: World, ttl: int, e: PaymentEvent, reference: string, now: DateTime)
    requires Valid(w, ttl) && HoldOf(w.redis, e.reservationId).Some?
    requires forall i :: 0 <= i < |w.bookings| ==> w.bookings[i].reference != reference
    ensures var h := HoldOf(w.redis, e.reservationId).value;
      var (w', o) := LegacyFinalize(w, e, reference, now);
      && o == Pass && Valid(w', ttl)
      && |w'.bookings| == |w.bookings| + 1 && w'.bookings[..|w.bookings|] == w.bookings
      && (var b := w'.bookings[|w.bookings|];
          && b.id == |w.bookings| + 1 && b.status == Confirmed && b.paymentStatus == Paid
          && b.paymentId == Some(e.paymentId) && b.reference == reference
          && b.slotId == h.slotId && b.offeringId == h.offeringId && b.userId == h.userId && b.totalPrice == h.totalPrice
          && b.customerNotes == e.customerNotes && b.confirmedAt == Some(now))
      && (var before := SlotRepository.RowById(w.slots, h.slotId);
          SlotRepository.RowById(w'.slots, h.slotId) ==
            if before.Some? then Some(before.value.(bookedCount := before.value.bookedCount + 1)) else None)
      && (forall other :: other != h.slotId ==> SlotRepository.RowById(w'.slots, other) == SlotRepository.RowById(w.slots, other))
      && w'.redis == AfterRemove(w.redis, e.reservationId).0
      && HoldOf(w'.redis, e.reservationId).None?
      && (forall s :: LiveHoldIds(w'.redis, s) == LiveHoldIds(w.redis, s) - {e.reservationId})
  {
    LegacyBookingSide(w, e, reference, now);
    LegacyStoreSide(w, ttl, e, reference, now);
    LegacySlotCounted(w, e, reference, now);
  }

  /** A live hold and a free reference make the insert succeed: one booking
      is appended, confirmed and paid, with the event's notes. */
  lemma LegacyBookingSide(w: World, e: PaymentEvent, reference: string, now: DateTime)
    requires IndexesTyped(w.redis) && HoldOf(w.redis, e.reservationId).Some?
    requires Bookings.WellFormed(w.bookings)
    requires forall i :: 0 <= i < |w.bookings| ==> w.bookings[i].reference != reference
    ensures var h := HoldOf(w.redis, e.reservationId).value;
      var (w', o) := LegacyFinalize(w, e, reference, now);
      && o == Pass && Bookings.WellFormed(w'.bookings)
      && |w'.bookings| == |w.bookings| + 1 && w'.bookings[..|w.bookings|] == w.bookings
      && (var b := w'.bookings[|w.bookings|];
          && b.id == |w.bookings| + 1 && b.status == Confirmed && b.paymentStatus == Paid
          && b.paymentId == Some(e.paymentId) && b.reference == reference
          && b.slotId == h.slotId && b.offeringId == h.offeringId && b.userId == h.userId && b.totalPrice == h.totalPrice
          && b.customerNotes == e.customerNotes && b.confirmedAt == Some(now))
  {
  }

  /** The store and slot side of a legacy finalisation: the hold is removed,
      nothing else is written to the store, and only the hold's slot is
      counted. */
  lemma LegacyStoreSide(w: World, ttl: int, e: PaymentEvent, reference: string, now: DateTime)
    requires Valid(w, ttl) && HoldOf(w.redis, e.reservationId).Some?
    requires forall i :: 0 <= i < |w.bookings| ==> w.bookings[i].reference != reference
    ensures var h := HoldOf(w.redis, e.reservationId).value;
      var w' := LegacyFinalize(w, e, reference, now).0;
      && Consistent(w'.redis, ttl) && SlotRepository.WellFormed(w'.slots)
      && (forall other :: other != h.slotId ==> SlotRepository.RowById(w'.slots, other) == SlotRepository.RowById(w.slots, other))
      && w'.redis == AfterRemove(w.redis, e.reservationId).0
      && HoldOf(w'.redis, e.reservationId).None?
      && (forall s :: LiveHoldIds(w'.redis, s) == LiveHoldIds(w.redis, s) - {e.reservationId})
  {
    var h := HoldOf(w.redis, e.reservationId).value;
    LegacyShape(w, e, reference, now);
    LegacyRemoval(w.redis, ttl, e.reservationId);
    SlotRepository.IncrementSpec(w.slots, h.slotId);
  }

  /** The hold's slot is counted once. */
  lemma LegacySlotCounted(w: World, e: PaymentEvent, reference: string, now: DateTime)
    requires IndexesTyped(w.redis) && HoldOf(w.redis, e.reservationId).Some? && SlotRepository.WellFormed(w.slots)
    requires forall i :: 0 <= i < |w.bookings| ==> w.bookings[i].reference != reference
    ensures var h := HoldOf(w.redis, e.reservationId).value;
      var w' := LegacyFinalize(w, e, reference, now).0;
      var before := SlotRepository.RowById(w.slots, h.slotId);
      SlotRepository.RowById(w'.slots, h.slotId) ==
        if before.Some? then Some(before.value.(bookedCount := before.value.bookedCount + 1)) else None
  {
    var h := HoldOf(w.redis, e.reservationId).value;
    LegacyShape(w, e, reference, now);
    SlotRepository.IncrementSpec(w.slots, h.slotId);
  }

  /** A live hold and a free reference make the insert succeed: the result
      is the three writes, in the tables' and the store's own terms. */
  lemma LegacyShape(w: World, e: PaymentEvent, reference: string, now: DateTime)
    requires IndexesTyped(w.redis) && HoldOf(w.redis, e.reservationId).Some?
    requires forall i :: 0 <= i < |w.bookings| ==> w.bookings[i].reference != reference
    ensures var h := HoldOf(w.redis, e.reservationId).value;
      var inserted := InsertRows(w.bookings, FieldsFor(h, e.paymentId, e.customerNotes, reference, now), now);
      && inserted.Ok?
      && LegacyFinalize(w, e, reference, now)
         == (World(SlotRepository.IncrementRows(w.slots, h.slotId), inserted.value, AfterRemove(w.redis, e.reservationId).0), Pass)
  {
  }

  /** The store write on its own: removing the hold keeps the store
      consistent and takes exactly that hold out of every slot's live holds. */
  lemma LegacyRemoval(store: Snapshot, ttl: int, id: string)
    requires Consistent(store, ttl) && HoldOf(store, id).Some?
    ensures var r := AfterRemove(store, id).0;
      && Consistent(r, ttl) && HoldOf(r, id).None?
      && (forall s :: LiveHoldIds(r, s) == LiveHoldIds(store, s) - {id})
  {
    RemoveKeepsConsistent(store, ttl, id);
  }

  /** Finalisation keeps the state valid and the capacity invariant. */
  lemma LegacyKeepsCapacity(w: World, ttl: int, e: PaymentEvent, reference: string, now: DateTime)
    requires Valid(w, ttl) && CapacityRespected(w)
    ensures var w' := LegacyFinalize(w, e, reference, now).0;
      Valid(w', ttl) && CapacityRespected(w')
  {
    var (w', o) := LegacyFinalize(w, e, reference, now);
    if o == Pass {
      LegacySucceeds(w, ttl, e, reference, now);
      var b := w'.bookings[|w.bookings|];
      assert w'.bookings == w.bookings + [b];
      ConversionKeepsClaims(w, w', ttl, e.reservationId, b);
      CapacityKept(w, w');
    }
  }

  /** Without a marker, a redelivery after success, with any payment id and
      at any later store time, finds no hold: it is refused as expired and
      creates no second booking. */
  lemma LegacyRedelivery(w: World, ttl: int, e: PaymentEvent, reference: string, now: DateTime,
                         e2: PaymentEvent, reference2: string, now2: DateTime, t: int)
    requires Valid(w, ttl) && e2.reservationId == e.reservationId
    requires LegacyFinalize(w, e, reference, now).1 == Pass
    requires t >= w.redis.clock
    ensures var w1 := LegacyFinalize(w, e, reference, now).0;
      var later := w1.(redis := Advance(w1.redis, t));
      && IndexesTyped(later.redis)
      && LegacyFinalize(later, e2, reference2, now2) == (later, Fail(ReservationExpired))
  {
    var w1 := LegacyFinalize(w, e, reference, now).0;
    LegacySucceeds(w, ttl, e, reference, now);
    AdvanceKeepsConsistent(w1.redis, ttl, t);
    assert HoldOf(Advance(w1.redis, t), e.reservationId).None?;
  }

  // ---------------------------------------------------------------- listener

  class LegacyPaymentSuccessListener {
    const reservations: TemporaryReservationService
    const bookings: BookingRepository
    const slots: SlotRepository.TimeSlotRepository

    ghost predicate Valid()
      reads this, bookings, slots, reservations, reservations.store
    {
      bookings.Valid() && slots.Valid() && reservations.Valid()
    }

    function State(): World
      reads this, bookings, slots, reservations, reservations.store
    {
      World(slots.rows, bookings.rows, reservations.store.Contents())
    }

    constructor (reservations: TemporaryReservationService, bookings: BookingRepository,
                 slots: SlotRepository.TimeSlotRepository)
      requires bookings.Valid() && slots.Valid() && reservations.Valid()
      ensures this.reservations == reservations && this.bookings == bookings && this.slots == slots
      ensures Valid()
    {
      this.reservations := reservations;
      this.bookings := bookings;
      this.slots := slots;
    }

    /** `handle(event)`. */
    method Handle(e: PaymentEvent, reference: string, now: DateTime) returns (o: Outcome<Error>)
      requires Valid()
      modifies bookings, slots, reservations.store
      ensures Valid()
      ensures (State(), o) == LegacyFinalize(old(State()), e, reference, now)
    {
      var h := reservations.GetReservation(e.reservationId);
      if h.None? {
        return Fail(ReservationExpired);
      }
      var created := bookings.Create(FieldsFor(h.value, e.paymentId, e.customerNotes, reference, now), now);
      if created.Err? {
        return Fail(created.error);
      }
      slots.IncrementBookedCount(h.value.slotId);
      var removed := reservations.RemoveReservation(e.reservationId);
      o := Pass;
    }
  }
}
