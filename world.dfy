/** The state the booking core works on, as one value: the slot table, the
    booking table and the bookings Redis connection, plus the read-only
    catalog (offerings and offering days) it consults. The capacity
    invariant is stated here: on every slot, bookings that hold a place plus
    live holds never exceed the capacity. */
module BookingWorld {
  import opened Common
  import opened Redis
  import opened Reservations
  import opened Slots
  import SlotRepository
  import opened Bookings

  /** An offering: its base price (cents) and the agency user owning it. */
  datatype Offering = Offering(price: int, ownerId: int)

  /** The offerings by id and the date of each offering day by id. An id
      missing from a map is a row that is gone (soft-deleted): reading a
      field of it fails with `MissingRelation`. */
  datatype Catalog = Catalog(offerings: map<int, Offering>, dayDates: map<int, Date>)

  datatype World = World(slots: seq<Slot>, bookings: seq<Booking>, redis: Snapshot)

  /** Both tables are well formed and the reservation store is consistent. */
  ghost predicate Valid(w: World, ttl: int) {
    SlotRepository.WellFormed(w.slots) && Bookings.WellFormed(w.bookings) && Consistent(w.redis, ttl)
  }

  /** What occupies a slot: confirmed or completed bookings plus live holds. */
  function Claims(w: World, slot: int): nat {
    CountConfirmed(w.bookings, slot) + |LiveHoldIds(w.redis, slot)|
  }

  ghost predicate CapacityRespected(w: World) {
    forall s :: s in w.slots ==> Claims(w, s.id) <= s.capacity
  }

  /** `$booking['offering']['user_id'] == $actor`, for an offering that is
      there; a missing offering makes the read itself fail, so callers check
      `offeringId in cat.offerings` first. */
  predicate OwnerMatches(cat: Catalog, offeringId: int, actor: int) {
    offeringId in cat.offerings && cat.offerings[offeringId].ownerId == actor
  }

  /** `$timeSlot['price_override'] ?? $offering['price']` can be read: `??`
      skips the offering when there is an override. */
  predicate PriceKnown(cat: Catalog, slot: Slot) {
    slot.priceOverride.Some? || slot.offeringId in cat.offerings
  }

  /** The slot's price: its override, else its offering's price. */
  function SlotPrice(cat: Catalog, slot: Slot): int
    requires PriceKnown(cat, slot)
  {
    if slot.priceOverride.Some? then slot.priceOverride.value else cat.offerings[slot.offeringId].price
  }

  /** Two slot tables with the same slots and capacities; only booked counts
      may differ. */
  ghost predicate SameCapacities(a: seq<Slot>, b: seq<Slot>) {
    |a| == |b| && forall i :: 0 <= i < |a| ==> a[i].id == b[i].id && a[i].capacity == b[i].capacity
  }

  lemma CountersKeepCapacities(rows: seq<Slot>, id: int)
    ensures SameCapacities(rows, SlotRepository.IncrementRows(rows, id))
    ensures SameCapacities(rows, SlotRepository.DecrementRows(rows, id))
  {
  }

  /** The invariant survives any step that keeps the slots and their
      capacities and does not add claims on any slot. */
  lemma CapacityKept(w: World, w': World)
    requires CapacityRespected(w) && SameCapacities(w.slots, w'.slots)
    requires forall i :: 0 <= i < |w.slots| ==> Claims(w', w.slots[i].id) <= Claims(w, w.slots[i].id)
    ensures CapacityRespected(w')
  {
    forall s | s in w'.slots ensures Claims(w', s.id) <= s.capacity {
      var i :| 0 <= i < |w'.slots| && w'.slots[i] == s;
      assert w.slots[i] in w.slots;
    }
  }
}
