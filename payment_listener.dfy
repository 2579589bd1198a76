/** Payment finalisation with the paid marker (the newer
    PaymentSuccessListener): on a payment signal for a reservation, refuse
    one already paid, refuse an expired hold, otherwise turn the hold into a
    confirmed, paid booking, take one place on the slot's counter, drop the
    hold and leave a `reservation_paid:{id}` marker for a day. */
module PaymentFinalization {
  import opened Common
  import opened Redis
  import opened Reservations
  import SlotRepository
  import opened Bookings
  import opened BookingWorld

  const PaidPrefix: string := "reservation_paid"

  /** How long the paid marker lives, in seconds. */
  const PaidMarkerTtl: int := 86400

  /** `reservation_paid:{id}`. */
  function PaidKey(id: string): string {
    PaidPrefix + ":" + id
  }

  /** The marker key never falls among the reservation service's own keys. */
  lemma PaidKeyForeign(id: string)
    ensures !OwnKey(PaidKey(id))
  {
    assert PaidKey(id)[0] == 'r';
    assert KeyPrefix[0] == 't';
  }

  /** The payment signal: reservation, payment id and optional notes. */
  datatype PaymentEvent = PaymentEvent(reservationId: string, paymentId: string, customerNotes: Option<string>)

  /** The row `handle` inserts for a hold: confirmed and paid, with the
      hold's slot, offering, user and price and the given notes. */
  function FieldsFor(h: Hold, paymentId: string, notes: Option<string>, reference: string, now: DateTime): BookingFields {
    BookingFields(h.slotId, h.offeringId, h.userId, reference, Confirmed, h.totalPrice, Paid, Some(paymentId), notes, Some(now))
  }

  /** `handle(event)`, with the generated booking reference and the clock
      reading passed in. */
  function Finalize(w: World, e: PaymentEvent, reference: string, now: DateTime): (World, Outcome<Error>)
    requires IndexesTyped(w.redis)
  {
    if Get(w.redis, PaidKey(e.reservationId)).Some? then (w, Fail(ReservationAlreadyPaid))
    else
      var h := HoldOf(w.redis, e.reservationId);
      if h.None? then (w, Fail(ReservationExpired))
      else
        var notes := Coalesce(e.customerNotes, h.value.customerNotes);
        var inserted := InsertRows(w.bookings, FieldsFor(h.value, e.paymentId, notes, reference, now), now);
        if inserted.Err? then (w, Fail(inserted.error))
        else
          var removed := AfterRemove(w.redis, e.reservationId).0;
          (World(SlotRepository.IncrementRows(w.slots, h.value.slotId), inserted.value,
                 AfterSetEx(removed, PaidKey(e.reservationId), PaidMarkerTtl, PaidDoc(reference, e.paymentId, now))),
           Pass)
  }

  /** The marker is looked at first: a paid reservation is refused, whatever
      the store holds for it, and nothing changes. */
  lemma FinalizeAlreadyPaid(w: World, e: PaymentEvent, reference: string, now: DateTime)
    requires IndexesTyped(w.redis) && Get(w.redis, PaidKey(e.reservationId)).Some?
    ensures Finalize(w, e, reference, now) == (w, Fail(ReservationAlreadyPaid))
  {
  }

  /** Without marker and without a live hold the signal is refused as
      expired: no booking, no count change, no marker. */
  lemma FinalizeExpired(w: World, e: PaymentEvent, reference: string, now: DateTime)
    requires IndexesTyped(w.redis) && Get(w.redis, PaidKey(e.reservationId)).None?
    requires HoldOf(w.redis, e.reservationId).None?
    ensures Finalize(w, e, reference, now) == (w, Fail(ReservationExpired))
    ensures Get(Finalize(w, e, reference, now).0.redis, PaidKey(e.reservationId)).None?
  {
  }

  /** When the booking insert fails (the reference is taken) the failure is
      passed on and no later step runs: no increment, the hold stays, no
      marker. */
  lemma FinalizeInsertFails(w: World, e: PaymentEvent, reference: string, now: DateTime)
    requires IndexesTyped(w.redis) && Get(w.redis, PaidKey(e.reservationId)).None?
    requires HoldOf(w.redis, e.reservationId).Some?
    requires exists i :: 0 <= i < |w.bookings| && w.bookings[i].reference == reference
    ensures Finalize(w, e, reference, now) == (w, Fail(DuplicateBookingReference))
  {
  }

  /** A successful finalisation: exactly one booking is appended, confirmed
      and paid, with the hold's slot, offering, user and price, the event's
      payment id, and the event's notes or else the hold's; the slot's count
      goes up by one; the hold is gone; the marker holds the reference and
      payment id for a day. */
  lemma FinalizeSucceeds(w: World, ttl: int, e: PaymentEvent, reference: string, now: DateTime)
    requires Valid(w, ttl) && Get(w.redis, PaidKey(e.reservationId)).None?
    requires HoldOf(w.redis, e.reservationId).Some?
    requires forall i :: 0 <= i < |w.bookings| ==> w.bookings[i].reference != reference
    ensures var h := HoldOf(w.redis, e.reservationId).value;
      var (w', o) := Finalize(w, e, reference, now);
      && o == Pass && Valid(w', ttl)
      && |w'.bookings| == |w.bookings| + 1 && w'.bookings[..|w.bookings|] == w.bookings
      && (var b := w'.bookings[|w.bookings|];
          && b.id == |w.bookings| + 1 && b.status == Confirmed && b.paymentStatus == Paid
          && b.paymentId == Some(e.paymentId) && b.reference == reference
          && b.slotId == h.slotId && b.offeringId == h.offeringId && b.userId == h.userId && b.totalPrice == h.totalPrice
          && b.customerNotes == (if e.customerNotes.Some? then e.customerNotes else h.customerNotes)
          && b.confirmedAt == Some(now))
      && (var before := SlotRepository.RowById(w.slots, h.slotId);
          SlotRepository.RowById(w'.slots, h.slotId) ==
            if before.Some? then Some(before.value.(bookedCount := before.value.bookedCount + 1)) else None)
      && (forall other :: other != h.slotId ==> SlotRepository.RowById(w'.slots, other) == SlotRepository.RowById(w.slots, other))
      && HoldOf(w'.redis, e.reservationId).None?
      && (forall s :: LiveHoldIds(w'.redis, s) == LiveHoldIds(w.redis, s) - {e.reservationId})
      && Get(w'.redis, PaidKey(e.reservationId)) == Some(PaidDoc(reference, e.paymentId, now))
      && w'.redis.entries[PaidKey(e.reservationId)].expiresAt == Some(w.redis.clock + PaidMarkerTtl)
  {
    FinalizeEffects(w, ttl, e, reference, now);
  }

  /** The store and slot side of a successful finalisation: the hold is
      removed, the marker written beside it, and the hold's slot counted. */
  lemma FinalizeEffects(w: World, ttl: int, e: PaymentEvent, reference: string, now: DateTime)
    requires Valid(w, ttl) && HoldOf(w.redis, e.reservationId).Some?
    ensures var h := HoldOf(w.redis, e.reservationId).value;
      var removed := AfterRemove(w.redis, e.reservationId).0;
      var r := AfterSetEx(removed, PaidKey(e.reservationId), PaidMarkerTtl, PaidDoc(reference, e.paymentId, now));
      var slots := SlotRepository.IncrementRows(w.slots, h.slotId);
      && Consistent(r, ttl) && SlotRepository.WellFormed(slots)
      && (var before := SlotRepository.RowById(w.slots, h.slotId);
          SlotRepository.RowById(slots, h.slotId) ==
            if before.Some? then Some(before.value.(bookedCount := before.value.bookedCount + 1)) else None)
      && (forall other :: other != h.slotId ==> SlotRepository.RowById(slots, other) == SlotRepository.RowById(w.slots, other))
      && HoldOf(r, e.reservationId).None?
      && (forall s :: LiveHoldIds(r, s) == LiveHoldIds(w.redis, s) - {e.reservationId})
      && Get(r, PaidKey(e.reservationId)) == Some(PaidDoc(reference, e.paymentId, now))
      && r.entries[PaidKey(e.reservationId)].expiresAt == Some(w.redis.clock + PaidMarkerTtl)
  {
    var h := HoldOf(w.redis, e.reservationId).value;
    var removed := AfterRemove(w.redis, e.reservationId).0;
    RemoveKeepsConsistent(w.redis, ttl, e.reservationId);
    PaidKeyForeign(e.reservationId);
    ForeignWriteKeepsConsistent(removed, ttl, PaidKey(e.reservationId), PaidMarkerTtl, PaidDoc(reference, e.paymentId, now));
    SlotRepository.IncrementSpec(w.slots, h.slotId);
  }

  /** Turning a live hold into a booking that holds a place moves one claim
      from the hold to the booking, and the counter increment keeps every
      capacity: no slot's claims change. */
  lemma ConversionKeepsClaims(w: World, w': World, ttl: int, id: string, b: Booking)
    requires Consistent(w.redis, ttl) && HoldOf(w.redis, id).Some?
    requires Occupies(b) && b.slotId == HoldOf(w.redis, id).value.slotId
    requires w'.bookings == w.bookings + [b]
    requires w'.slots == SlotRepository.IncrementRows(w.slots, b.slotId)
    requires forall s :: LiveHoldIds(w'.redis, s) == LiveHoldIds(w.redis, s) - {id}
    ensures SameCapacities(w.slots, w'.slots)
    ensures forall s :: Claims(w', s) == Claims(w, s)
  {
    CountersKeepCapacities(w.slots, b.slotId);
    forall s ensures Claims(w', s) == Claims(w, s) {
      CountConfirmedAppend(w.bookings, b, s);
      LiveHoldIdsExact(w.redis, ttl, s, id);
    }
  }

  /** Finalisation keeps the state valid and the capacity invariant: the
      place a hold had claimed passes to the booking. */
  lemma FinalizeKeepsCapacity(w: World, ttl: int, e: PaymentEvent, reference: string, now: DateTime)
    requires Valid(w, ttl) && CapacityRespected(w)
    ensures var w' := Finalize(w, e, reference, now).0;
      Valid(w', ttl) && CapacityRespected(w')
  {
    var (w', o) := Finalize(w, e, reference, now);
    if o == Pass {
      var h := HoldOf(w.redis, e.reservationId).value;
      FinalizeSucceeds(w, ttl, e, reference, now);
      var b := w'.bookings[|w.bookings|];
      assert w'.bookings == w.bookings + [b];
      ConversionKeepsClaims(w, w', ttl, e.reservationId, b);
      CapacityKept(w, w');
    }
  }

  /** Redelivery: after a successful finalisation, the same reservation
      signalled again, with any payment id and at any later store time, is
      refused without effect; within the marker's day it is refused as
      already paid. So one reservation yields one booking and one
      increment. */
  lemma FinalizeOnce(w: World, ttl: int, e: PaymentEvent, reference: string, now: DateTime,
                     e2: PaymentEvent, reference2: string, now2: DateTime, t: int)
    requires Valid(w, ttl) && e2.reservationId == e.reservationId
    requires Finalize(w, e, reference, now).1 == Pass
    requires t >= w.redis.clock
    ensures var w1 := Finalize(w, e, reference, now).0;
      var later := w1.(redis := Advance(w1.redis, t));
      && IndexesTyped(later.redis)
      && Finalize(later, e2, reference2, now2).0 == later
      && Finalize(later, e2, reference2, now2).1.Fail?
      && (t < w.redis.clock + PaidMarkerTtl ==> Finalize(later, e2, reference2, now2).1 == Fail(ReservationAlreadyPaid))
  {
    var w1 := Finalize(w, e, reference, now).0;
    FinalizeSucceeds(w, ttl, e, reference, now);
    AdvanceKeepsConsistent(w1.redis, ttl, t);
    var later := w1.(redis := Advance(w1.redis, t));
    if t < w.redis.clock + PaidMarkerTtl {
      assert Live(later.redis, PaidKey(e.reservationId));
    } else {
      assert HoldOf(later.redis, e.reservationId).None?;
    }
  }

  // ---------------------------------------------------------------- listener

  /** The listener over the reservation service, the two repositories and
      the `bookings` Redis connection (the reservation service's store). */
  class PaymentSuccessListener {
    const reservations: TemporaryReservationService
    const bookings: BookingRepository
    const slots: SlotRepository.TimeSlotRepository

    ghost predicate Valid()
      reads this, bookings, slots, reservations, reservations.store
    {
      bookings.Valid() && slots.Valid() && reservations.Valid()
    }

    function State(): World
      reads this, bookings, slots, reservations, reservations.store
    {
      World(slots.rows, bookings.rows, reservations.store.Contents())
    }

    constructor (reservations: TemporaryReservationService, bookings: BookingRepository,
                 slots: SlotRepository.TimeSlotRepository)
      requires bookings.Valid() && slots.Valid() && reservations.Valid()
      ensures this.reservations == reservations && this.bookings == bookings && this.slots == slots
      ensures Valid()
    {
      this.reservations := reservations;
      this.bookings := bookings;
      this.slots := slots;
    }

    /** `handle(event)`. */
    method Handle(e: PaymentEvent, reference: string, now: DateTime) returns (o: Outcome<Error>)
      requires Valid()
      modifies bookings, slots, reservations.store
      ensures Valid()
      ensures (State(), o) == Finalize(old(State()), e, reference, now)
    {
      var paid := Get(reservations.store.Contents(), PaidKey(e.reservationId));
      if paid.Some? {
        return Fail(ReservationAlreadyPaid);
      }
      var h := reservations.GetReservation(e.reservationId);
      if h.None? {
        return Fail(ReservationExpired);
      }
      var notes := Coalesce(e.customerNotes, h.value.customerNotes);
      var created := bookings.Create(FieldsFor(h.value, e.paymentId, notes, reference, now), now);
      if created.Err? {
        return Fail(created.error);
      }
      slots.IncrementBookedCount(h.value.slotId);
      var removed := reservations.RemoveReservation(e.reservationId);
      PaidKeyForeign(e.reservationId);
      ForeignWriteKeepsConsistent(reservations.store.Contents(), reservations.ttl, PaidKey(e.reservationId),
                                  PaidMarkerTtl, PaidDoc(reference, e.paymentId, now));
      reservations.store.SetEx(PaidKey(e.reservationId), PaidMarkerTtl, PaidDoc(reference, e.paymentId, now));
      o := Pass;
    }
  }
}
