/** An offering time slot (OfferingTimeSlot): a bookable interval of an
    offering day with a capacity, a running `booked_count` and an optional
    price override, together with the model's availability helpers. */
module Slots {
  import opened Common

  /** One row of `offering_time_slots`. Capacity and booked count are
      unsigned columns; prices are in cents. */
  datatype Slot = Slot(
    id: nat,
    dayId: int,
    offeringId: int,
    startTime: TimeOfDay,
    endTime: TimeOfDay,
    capacity: nat,
    bookedCount: nat,
    priceOverride: Option<int>)

  /** `isAvailable`: fewer spots booked than the capacity. */
  predicate IsAvailable(s: Slot) {
    s.bookedCount < s.capacity
  }

  /** `isFullyBooked`: the exact negation of `isAvailable`. */
  function IsFullyBooked(s: Slot): (full: bool)
    ensures full <==> !IsAvailable(s)
  {
    s.bookedCount >= s.capacity
  }

  /** `availableSpots`: `max(0, capacity - booked_count)`. */
  function AvailableSpots(s: Slot): (n: int)
    ensures n >= 0 && n >= s.capacity - s.bookedCount
    ensures n == 0 || n == s.capacity - s.bookedCount
    ensures n > 0 <==> IsAvailable(s)
  {
    var free := s.capacity - s.bookedCount;
    if free > 0 then free else 0
  }
}
