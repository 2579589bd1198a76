/** The booking ledger (BookingEloquentRepository) over the `bookings` table:
    rows with auto-increment ids (row `i` has id `i + 1`) and a unique
    `booking_reference`. Rows are never hard-deleted by the core. */
module Bookings {
  import opened Common

  datatype Status = Confirmed | Cancelled | Completed | NoShow
  datatype PaymentStatus = Pending | Paid | Refunded

  /** The enum value stored in the `status` column. */
  function StatusName(s: Status): string {
    match s
    case Confirmed => "confirmed"
    case Cancelled => "cancelled"
    case Completed => "completed"
    case NoShow => "no_show"
  }

  /** One row of `bookings`; prices are in cents. */
  datatype Booking = Booking(
    id: nat,
    slotId: int,
    offeringId: int,
    userId: int,
    reference: string,
    status: Status,
    totalPrice: int,
    paymentStatus: PaymentStatus,
    paymentId: Option<string>,
    customerNotes: Option<string>,
    cancellationReason: Option<string>,
    cancelledAt: Option<DateTime>,
    confirmedAt: Option<DateTime>,
    createdAt: DateTime)

  /** The attributes passed to `create`. */
  datatype BookingFields = BookingFields(
    slotId: int,
    offeringId: int,
    userId: int,
    reference: string,
    status: Status,
    totalPrice: int,
    paymentStatus: PaymentStatus,
    paymentId: Option<string>,
    customerNotes: Option<string>,
    confirmedAt: Option<DateTime>)

  /** The fields `update` may set; `None` leaves a field as it is. */
  datatype Patch = Patch(status: Option<Status>, paymentStatus: Option<PaymentStatus>)

  /** The optional `status` and `payment_status` filters of the queries. */
  datatype Filters = Filters(status: Option<Status>, paymentStatus: Option<PaymentStatus>)

  /** Ids are auto-increment and references unique. */
  ghost predicate WellFormed(rows: seq<Booking>) {
    && (forall i :: 0 <= i < |rows| ==> rows[i].id == i + 1)
    && (forall i, j :: 0 <= i < j < |rows| ==> rows[i].reference != rows[j].reference)
  }

  /** `findById`. */
  function RowById(rows: seq<Booking>, id: int): (r: Option<Booking>)
    ensures r.Some? ==> r.value in rows
    ensures WellFormed(rows) ==> (r.Some? <==> exists i :: 0 <= i < |rows| && rows[i].id == id)
    ensures WellFormed(rows) && r.Some? ==> r.value.id == id
  {
    if 1 <= id <= |rows| then Some(rows[id - 1]) else None
  }

  /** The statuses that hold a place on the slot: `whereIn('status',
      ['confirmed', 'completed'])`. */
  predicate Occupies(b: Booking) {
    b.status == Confirmed || b.status == Completed
  }

  function Occupying(b: Booking, slot: int): nat {
    if b.slotId == slot && Occupies(b) then 1 else 0
  }

  /** `countConfirmedForSlot`. */
  function CountConfirmed(rows: seq<Booking>, slot: int): (n: nat)
    ensures n <= |rows|
    ensures n == 0 <== forall i :: 0 <= i < |rows| ==> !(rows[i].slotId == slot && Occupies(rows[i]))
  {
    if rows == [] then 0
    else CountConfirmed(rows[..|rows| - 1], slot) + Occupying(rows[|rows| - 1], slot)
  }

  /** The indices of the rows `countConfirmedForSlot` counts. */
  function CountedRows(rows: seq<Booking>, slot: int): set<nat> {
    set i: nat | i < |rows| && rows[i].slotId == slot && Occupies(rows[i])
  }

  /** `create`: the insert fails on the unique reference; otherwise the new
      row gets the next id, no cancellation data and `created_at = now`. */
  function InsertRows(rows: seq<Booking>, f: BookingFields, now: DateTime): (r: Result<seq<Booking>, Error>)
    ensures r.Err? <==> exists i :: 0 <= i < |rows| && rows[i].reference == f.reference
    ensures r.Err? ==> r.error == DuplicateBookingReference
    ensures r.Ok? ==> |r.value| == |rows| + 1 && r.value[..|rows|] == rows
    ensures r.Ok? ==> var b := r.value[|rows|];
      && b.id == |rows| + 1 && b.slotId == f.slotId && b.offeringId == f.offeringId && b.userId == f.userId
      && b.reference == f.reference && b.status == f.status && b.totalPrice == f.totalPrice
      && b.paymentStatus == f.paymentStatus && b.paymentId == f.paymentId && b.customerNotes == f.customerNotes
      && b.cancellationReason.None? && b.cancelledAt.None? && b.confirmedAt == f.confirmedAt && b.createdAt == now
    ensures r.Ok? && WellFormed(rows) ==> WellFormed(r.value)
  {
    if exists i :: 0 <= i < |rows| && rows[i].reference == f.reference then Err(DuplicateBookingReference)
    else
      Ok(rows + [Booking(|rows| + 1, f.slotId, f.offeringId, f.userId, f.reference, f.status, f.totalPrice,
                         f.paymentStatus, f.paymentId, f.customerNotes, None, None, f.confirmedAt, now)])
  }

  /** PHP truthiness of a nullable string: null, `""` and `"0"` are false. */
  predicate Truthy(s: Option<string>) {
    s.Some? && s.value != "" && s.value != "0"
  }

  function WithCancellation(b: Booking, reason: Option<string>, now: DateTime): Booking {
    b.(status := Cancelled, cancelledAt := Some(now),
       cancellationReason := if Truthy(reason) then reason else b.cancellationReason)
  }

  function Patched(b: Booking, p: Patch): Booking {
    b.(status := p.status.GetOr(b.status), paymentStatus := p.paymentStatus.GetOr(b.paymentStatus))
  }

  /** `cancel`: one `update` on the rows with that id. */
  function CancelRows(rows: seq<Booking>, id: int, reason: Option<string>, now: DateTime): (r: seq<Booking>)
    ensures |r| == |rows|
  {
    seq(|rows|, i requires 0 <= i < |rows| => if rows[i].id == id then WithCancellation(rows[i], reason, now) else rows[i])
  }

  /** `update`: one `update` on the rows with that id. */
  function UpdateRows(rows: seq<Booking>, id: int, p: Patch): (r: seq<Booking>)
    ensures |r| == |rows|
  {
    seq(|rows|, i requires 0 <= i < |rows| => if rows[i].id == id then Patched(rows[i], p) else rows[i])
  }

  // ---------------------------------------------------------------- queries

  predicate Matches(b: Booking, f: Filters) {
    (f.status.None? || b.status == f.status.value) && (f.paymentStatus.None? || b.paymentStatus == f.paymentStatus.value)
  }

  /** Whose bookings a query asks for. */
  datatype Owner = ByUser(userId: int) | ByOffering(offeringId: int)

  predicate Selected(b: Booking, who: Owner, f: Filters) {
    (match who
     case ByUser(u) => b.userId == u
     case ByOffering(o) => b.offeringId == o)
    && Matches(b, f)
  }

  /** The `where` clauses of `findByUser` / `findByOffering`, in table order. */
  function Select(rows: seq<Booking>, who: Owner, f: Filters): (r: seq<Booking>)
    ensures forall b :: b in r <==> b in rows && Selected(b, who, f)
    ensures forall b :: multiset(r)[b] == if Selected(b, who, f) then multiset(rows)[b] else 0
  {
    if rows == [] then []
    else
      var rest := Select(rows[..|rows| - 1], who, f);
      assert rows == rows[..|rows| - 1] + [rows[|rows| - 1]];
      if Selected(rows[|rows| - 1], who, f) then rest + [rows[|rows| - 1]] else rest
  }

  /** `orderBy('created_at', 'desc')`: no row is created before a later
      one. */
  predicate NewestFirst(s: seq<Booking>) {
    forall i, j :: 0 <= i < j < |s| ==> !Before(s[i].createdAt, s[j].createdAt)
  }

  function InsertNewestFirst(b: Booking, s: seq<Booking>): (r: seq<Booking>)
    requires NewestFirst(s)
    ensures NewestFirst(r) && multiset(r) == multiset(s) + multiset{b}
  {
    if s == [] then [b]
    else if !Before(b.createdAt, s[0].createdAt) then
      forall j | 0 <= j < |s| ensures !Before(b.createdAt, s[j].createdAt) {
        if j > 0 {
          BeforeIsStrictTotalOrder(b.createdAt, s[0].createdAt, s[j].createdAt);
          BeforeIsStrictTotalOrder(s[0].createdAt, b.createdAt, s[j].createdAt);
        }
      }
      [b] + s
    else
      var tail := InsertNewestFirst(b, s[1..]);
      assert s == [s[0]] + s[1..];
      assert forall x :: x in tail ==> x in s[1..] || x == b by {
        forall x | x in tail ensures x in s[1..] || x == b {
          assert x in multiset(tail);
        }
      }
      forall j | 0 <= j < |tail| ensures !Before(s[0].createdAt, tail[j].createdAt) {
        assert tail[j] in tail;
        if tail[j] == b {
          BeforeIsStrictTotalOrder(b.createdAt, s[0].createdAt, s[0].createdAt);
        } else {
          var k :| 0 <= k < |s[1..]| && s[1..][k] == tail[j];
          assert s[k + 1] == tail[j];
        }
      }
      [s[0]] + tail
  }

  /** Insertion sort by `created_at`, newest first. */
  function SortNewestFirst(s: seq<Booking>): (r: seq<Booking>)
    ensures NewestFirst(r) && multiset(r) == multiset(s)
  {
    if s == [] then []
    else
      assert s == [s[0]] + s[1..];
      InsertNewestFirst(s[0], SortNewestFirst(s[1..]))
  }

  /** `findByUser` / `findByOffering`. */
  function Query(rows: seq<Booking>, who: Owner, f: Filters): seq<Booking> {
    SortNewestFirst(Select(rows, who, f))
  }

  // ----------------------------------------------------------------- lemmas

  /** The recursive count equals the number of rows that are on the slot and
      confirmed or completed. */
  lemma {:induction false} CountConfirmedIsSize(rows: seq<Booking>, slot: int)
    ensures CountConfirmed(rows, slot) == |CountedRows(rows, slot)|
  {
    if rows != [] {
      var prefix := rows[..|rows| - 1];
      CountConfirmedIsSize(prefix, slot);
      var last := |rows| - 1;
      if rows[last].slotId == slot && Occupies(rows[last]) {
        assert CountedRows(rows, slot) == CountedRows(prefix, slot) + {last};
      } else {
        assert CountedRows(rows, slot) == CountedRows(prefix, slot);
      }
    }
  }

  /** Replacing one row changes the count by the difference of the two
      rows' contributions. */
  lemma {:induction false} CountConfirmedUpdate(rows: seq<Booking>, i: nat, b: Booking, slot: int)
    requires i < |rows|
    ensures CountConfirmed(rows[i := b], slot) + Occupying(rows[i], slot) == CountConfirmed(rows, slot) + Occupying(b, slot)
  {
    var n := |rows| - 1;
    var changed := rows[i := b];
    assert CountConfirmed(rows, slot) == CountConfirmed(rows[..n], slot) + Occupying(rows[n], slot);
    assert CountConfirmed(changed, slot) == CountConfirmed(changed[..n], slot) + Occupying(changed[n], slot);
    if i == n {
      assert changed[..n] == rows[..n];
    } else {
      assert changed[..n] == rows[..n][i := b];
      CountConfirmedUpdate(rows[..n], i, b, slot);
    }
  }

  /** Appending a row adds its contribution. */
  lemma CountConfirmedAppend(rows: seq<Booking>, b: Booking, slot: int)
    ensures CountConfirmed(rows + [b], slot) == CountConfirmed(rows, slot) + Occupying(b, slot)
  {
    assert (rows + [b])[..|rows|] == rows;
  }

  /** The queries return exactly the selected bookings, each as often as in
      the table, newest first. */
  lemma QuerySpec(rows: seq<Booking>, who: Owner, f: Filters)
    ensures NewestFirst(Query(rows, who, f))
    ensures multiset(Query(rows, who, f)) == multiset(Select(rows, who, f))
    ensures forall b :: b in Query(rows, who, f) <==> b in rows && Selected(b, who, f)
  {
    var r := Query(rows, who, f);
    forall b ensures b in r <==> b in Select(rows, who, f) {
      assert b in r <==> b in multiset(r);
    }
  }

  /** `cancel` sets status and `cancelled_at` on the named booking only, and
      overwrites the reason only with a truthy one. */
  lemma CancelSpec(rows: seq<Booking>, id: int, reason: Option<string>, now: DateTime)
    requires WellFormed(rows)
    ensures WellFormed(CancelRows(rows, id, reason, now))
    ensures var before := RowById(rows, id);
      var after := RowById(CancelRows(rows, id, reason, now), id);
      && (before.None? <==> after.None?)
      && (before.Some? ==>
            && after.value.status == Cancelled && after.value.cancelledAt == Some(now)
            && after.value.cancellationReason == (if Truthy(reason) then reason else before.value.cancellationReason)
            && after.value == before.value.(status := Cancelled, cancelledAt := Some(now),
                                            cancellationReason := after.value.cancellationReason))
    ensures forall other :: other != id ==> RowById(CancelRows(rows, id, reason, now), other) == RowById(rows, other)
  {
  }

  /** `update` sets the given fields of the named booking only. */
  lemma UpdateSpec(rows: seq<Booking>, id: int, p: Patch)
    requires WellFormed(rows)
    ensures WellFormed(UpdateRows(rows, id, p))
    ensures var before := RowById(rows, id);
      var after := RowById(UpdateRows(rows, id, p), id);
      && (before.None? <==> after.None?)
      && (before.Some? ==>
            && (p.status.Some? ==> after.value.status == p.status.value)
            && (p.status.None? ==> after.value.status == before.value.status)
            && (p.paymentStatus.Some? ==> after.value.paymentStatus == p.paymentStatus.value)
            && (p.paymentStatus.None? ==> after.value.paymentStatus == before.value.paymentStatus)
            && after.value == before.value.(status := after.value.status, paymentStatus := after.value.paymentStatus))
    ensures forall other :: other != id ==> RowById(UpdateRows(rows, id, p), other) == RowById(rows, other)
  {
  }

  /** Counts after `cancel` and `update` on a well-formed table: only the
      named booking's contribution changes. */
  lemma CountAfterChange(rows: seq<Booking>, id: int, b: Booking, slot: int)
    requires WellFormed(rows) && 1 <= id <= |rows|
    ensures CountConfirmed(rows[id - 1 := b], slot) + Occupying(rows[id - 1], slot) == CountConfirmed(rows, slot) + Occupying(b, slot)
  {
    CountConfirmedUpdate(rows, id - 1, b, slot);
  }

  /** On a well-formed table `cancel` and `update` replace exactly the row
      with that id. */
  lemma ChangeIsPointUpdate(rows: seq<Booking>, id: int, reason: Option<string>, now: DateTime, p: Patch)
    requires WellFormed(rows) && 1 <= id <= |rows|
    ensures CancelRows(rows, id, reason, now) == rows[id - 1 := WithCancellation(rows[id - 1], reason, now)]
    ensures UpdateRows(rows, id, p) == rows[id - 1 := Patched(rows[id - 1], p)]
  {
  }

  // ------------------------------------------------------------ repository

  class BookingRepository {
    var rows: seq<Booking>

    ghost predicate Valid()
      reads this
    {
      WellFormed(rows)
    }

    constructor ()
      ensures rows == [] && Valid()
    {
      rows := [];
    }

    method Create(f: BookingFields, now: DateTime) returns (r: Result<Booking, Error>)
      requires Valid()
      modifies this
      ensures Valid()
      ensures InsertRows(old(rows), f, now).Err? ==> rows == old(rows) && r == Err(DuplicateBookingReference)
      ensures InsertRows(old(rows), f, now).Ok? ==> rows == InsertRows(old(rows), f, now).value && r == Ok(rows[|old(rows)|])
    {
      var inserted := InsertRows(rows, f, now);
      if inserted.Err? {
        return Err(DuplicateBookingReference);
      }
      rows := inserted.value;
      r := Ok(rows[|rows| - 1]);
    }

    function FindById(id: int): (r: Option<Booking>)
      reads this
      ensures Valid() && r.Some? ==> r.value.id == id && r.value in rows
      ensures Valid() ==> (r.Some? <==> exists i :: 0 <= i < |rows| && rows[i].id == id)
    {
      RowById(rows, id)
    }

    function FindByUser(userId: int, f: Filters): (r: seq<Booking>)
      reads this
      ensures NewestFirst(r) && forall b :: b in r <==> b in rows && b.userId == userId && Matches(b, f)
      ensures forall b :: multiset(r)[b] == if b.userId == userId && Matches(b, f) then multiset(rows)[b] else 0
    {
      QuerySpec(rows, ByUser(userId), f);
      Query(rows, ByUser(userId), f)
    }

    function FindByOffering(offeringId: int, f: Filters): (r: seq<Booking>)
      reads this
      ensures NewestFirst(r) && forall b :: b in r <==> b in rows && b.offeringId == offeringId && Matches(b, f)
      ensures forall b :: multiset(r)[b] == if b.offeringId == offeringId && Matches(b, f) then multiset(rows)[b] else 0
    {
      QuerySpec(rows, ByOffering(offeringId), f);
      Query(rows, ByOffering(offeringId), f)
    }

    function CountConfirmedForSlot(slot: int): (n: nat)
      reads this
      ensures n == |CountedRows(rows, slot)|
    {
      CountConfirmedIsSize(rows, slot);
      CountConfirmed(rows, slot)
    }

    method Update(id: int, p: Patch)
      requires Valid()
      modifies this
      ensures Valid() && rows == UpdateRows(old(rows), id, p)
    {
      UpdateSpec(rows, id, p);
      rows := UpdateRows(rows, id, p);
    }

    method Cancel(id: int, reason: Option<string>, now: DateTime)
      requires Valid()
      modifies this
      ensures Valid() && rows == CancelRows(old(rows), id, reason, now)
    {
      CancelSpec(rows, id, reason, now);
      rows := CancelRows(rows, id, reason, now);
    }
  }
}
