/** Shared value types of the booking core: optional values, outcomes, the
    domain error taxonomy and the application clock's calendar values. */
module Common {

  datatype Option<+T> = None | Some(value: T) {
    function GetOr(default: T): T {
      if Some? then value else default
    }
  }

  /** PHP's null-coalescing `a ?? b`: the left value unless it is null. */
  function Coalesce<T>(a: Option<T>, b: Option<T>): (r: Option<T>)
    ensures a.Some? ==> r == a
    ensures a.None? ==> r == b
  {
    if a.Some? then a else b
  }

  /** Result of an operation that returns nothing but may throw. */
  datatype Outcome<+E> = Pass | Fail(error: E)

  /** Result of an operation that returns a value or throws. */
  datatype Result<+T, +E> = Ok(value: T) | Err(error: E)

  /** The exceptions the core throws, one constructor per exception class.
      `BookingAlreadyCancelled` carries its message, because the no-show
      transition reuses it with a message naming the booking's status.
      `MissingRelation` is the `ErrorException` Laravel raises when the code
      reads a field of a related row that is gone (soft-deleted): the
      relation loads as null, or `findWhere` returns an empty array. */
  datatype Error =
    | OfferingTimeSlotNotFound
    | SlotFullyBooked
    | ReservationExpired
    | ReservationAlreadyPaid
    | BookingNotFound
    | BookingAlreadyCancelled(message: string)
    | BookingTimeNotPassed
    | Unauthenticated
    | InvalidRequest
    | DuplicateBookingReference
    | DuplicateTimeSlot
    | MissingRelation

  const AlreadyCancelledMessage: string := "This booking has already been cancelled"

  /** Calendar values of the application clock (`now()`), in the
      application's time zone. */
  datatype Date = Date(year: nat, month: nat, day: nat)
  datatype TimeOfDay = TimeOfDay(hour: nat, minute: nat, second: nat)
  datatype DateTime = DateTime(date: Date, time: TimeOfDay)

  /** Strict chronological order of two clock readings (lexicographic on
      year, month, day, hour, minute, second). */
  predicate Before(a: DateTime, b: DateTime) {
    var x, y := a.date, b.date;
    var s, t := a.time, b.time;
    || x.year < y.year
    || (x.year == y.year && x.month < y.month)
    || (x.year == y.year && x.month == y.month && x.day < y.day)
    || (x == y && s.hour < t.hour)
    || (x == y && s.hour == t.hour && s.minute < t.minute)
    || (x == y && s.hour == t.hour && s.minute == t.minute && s.second < t.second)
  }

  /** `Before` is a strict total order, which the descending sort of the
      booking queries relies on. */
  lemma BeforeIsStrictTotalOrder(a: DateTime, b: DateTime, c: DateTime)
    ensures !Before(a, a)
    ensures Before(a, b) ==> !Before(b, a)
    ensures Before(a, b) && Before(b, c) ==> Before(a, c)
    ensures a == b || Before(a, b) || Before(b, a)
  {
  }
}
