/** The time slot repository (OfferingTimeSlotEloquentRepository) over the
    `offering_time_slots` table. The table is a sequence of rows whose ids are
    auto-increment (row `i` has id `i + 1`); `(offering_day_id, start_time,
    end_time)` is a unique key. */
module SlotRepository {
  import opened Common
  import opened Slots

  /** The attributes a caller passes to `create` and `upsert`; an absent
      capacity or price override is `None`. */
  datatype SlotInput = SlotInput(
    dayId: int,
    offeringId: int,
    startTime: TimeOfDay,
    endTime: TimeOfDay,
    capacity: Option<nat>,
    priceOverride: Option<int>)

  predicate SameKey(s: Slot, input: SlotInput) {
    s.dayId == input.dayId && s.startTime == input.startTime && s.endTime == input.endTime
  }

  /** Ids are auto-increment and the unique key holds. */
  ghost predicate WellFormed(rows: seq<Slot>) {
    && (forall i :: 0 <= i < |rows| ==> rows[i].id == i + 1)
    && (forall i, j :: 0 <= i < j < |rows| ==>
          !(rows[i].dayId == rows[j].dayId && rows[i].startTime == rows[j].startTime && rows[i].endTime == rows[j].endTime))
  }

  /** `findById`: the row with that id, if any. */
  function RowById(rows: seq<Slot>, id: int): (r: Option<Slot>)
    ensures r.Some? ==> r.value in rows
    ensures WellFormed(rows) ==> (r.Some? <==> exists i :: 0 <= i < |rows| && rows[i].id == id)
    ensures WellFormed(rows) && r.Some? ==> r.value.id == id
  {
    if 1 <= id <= |rows| then Some(rows[id - 1]) else None
  }

  /** The query `where(day, start, end)->first()`: the index of the first row
      with the input's key, scanning from `from`. */
  function FindByKey(rows: seq<Slot>, input: SlotInput, from: nat): (r: Option<nat>)
    requires from <= |rows|
    ensures r.Some? ==> from <= r.value < |rows| && SameKey(rows[r.value], input)
    ensures r.Some? ==> forall j :: from <= j < r.value ==> !SameKey(rows[j], input)
    ensures r.None? ==> forall j :: from <= j < |rows| ==> !SameKey(rows[j], input)
    decreases |rows| - from
  {
    if from == |rows| then None
    else if SameKey(rows[from], input) then Some(from)
    else FindByKey(rows, input, from + 1)
  }

  /** The row `create` inserts: capacity defaults to 1, the price override to
      null, and `booked_count` starts at its column default 0. */
  function NewSlot(rows: seq<Slot>, input: SlotInput): Slot {
    Slot(|rows| + 1, input.dayId, input.offeringId, input.startTime, input.endTime,
         input.capacity.GetOr(1), 0, input.priceOverride)
  }

  /** `create`: the insert fails on the unique key when a row with the same
      day, start and end exists. */
  function CreateRows(rows: seq<Slot>, input: SlotInput): (r: Result<seq<Slot>, Error>)
    ensures r.Err? <==> exists i :: 0 <= i < |rows| && SameKey(rows[i], input)
    ensures r.Err? ==> r.error == DuplicateTimeSlot
    ensures r.Ok? ==> |r.value| == |rows| + 1 && r.value[..|rows|] == rows
    ensures r.Ok? ==> var s := r.value[|rows|];
      && s.id == |rows| + 1 && SameKey(s, input) && s.offeringId == input.offeringId
      && s.capacity == (if input.capacity.Some? then input.capacity.value else 1)
      && s.bookedCount == 0 && s.priceOverride == input.priceOverride
  {
    if FindByKey(rows, input, 0).Some? then Err(DuplicateTimeSlot) else Ok(rows + [NewSlot(rows, input)])
  }

  /** `upsert`: an existing row with the key gets the input's capacity and
      price override where given (`??` keeps the stored value) and keeps its
      booked count; otherwise a new row is created. Returns the new table and
      the written row. */
  function UpsertRows(rows: seq<Slot>, input: SlotInput): (seq<Slot>, Slot) {
    var found := FindByKey(rows, input, 0);
    if found.Some? then
      var stored := rows[found.value];
      var updated := stored.(capacity := input.capacity.GetOr(stored.capacity),
                             priceOverride := Coalesce(input.priceOverride, stored.priceOverride));
      (rows[found.value := updated], updated)
    else
      (rows + [NewSlot(rows, input)], NewSlot(rows, input))
  }

  /** `bulkCreate`: upserts the inputs in order, collecting each written row. */
  function BulkRows(rows: seq<Slot>, inputs: seq<SlotInput>): (seq<Slot>, seq<Slot>)
    decreases |inputs|
  {
    if inputs == [] then (rows, [])
    else
      var (before, created) := BulkRows(rows, inputs[..|inputs| - 1]);
      var (after, slot) := UpsertRows(before, inputs[|inputs| - 1]);
      (after, created + [slot])
  }

  /** `incrementBookedCount`: `where id` then `increment`. */
  function IncrementRows(rows: seq<Slot>, id: int): (r: seq<Slot>)
    ensures |r| == |rows|
  {
    seq(|rows|, i requires 0 <= i < |rows| =>
      if rows[i].id == id then rows[i].(bookedCount := rows[i].bookedCount + 1) else rows[i])
  }

  /** `decrementBookedCount`: `where id`, `where booked_count > 0`, then
      `decrement`. */
  function DecrementRows(rows: seq<Slot>, id: int): (r: seq<Slot>)
    ensures |r| == |rows|
  {
    seq(|rows|, i requires 0 <= i < |rows| =>
      if rows[i].id == id && rows[i].bookedCount > 0 then rows[i].(bookedCount := rows[i].bookedCount - 1) else rows[i])
  }

  // ----------------------------------------------------------------- lemmas

  /** `upsert` keeps the table well formed, never touches a booked count,
      writes exactly one row with the input's key, and either updates the
      matching row with `??` semantics or appends a fresh row. */
  lemma UpsertSpec(rows: seq<Slot>, input: SlotInput)
    requires WellFormed(rows)
    ensures var (after, slot) := UpsertRows(rows, input);
      && WellFormed(after)
      && slot in after && SameKey(slot, input)
      && (forall i, j :: 0 <= i < j < |after| && SameKey(after[i], input) ==> !SameKey(after[j], input))
      && |after| >= |rows|
      && (forall i :: 0 <= i < |rows| ==>
            after[i].bookedCount == rows[i].bookedCount && after[i].id == rows[i].id
            && after[i].dayId == rows[i].dayId && after[i].startTime == rows[i].startTime
            && after[i].endTime == rows[i].endTime && after[i].offeringId == rows[i].offeringId)
  {
    var found := FindByKey(rows, input, 0);
    var (after, slot) := UpsertRows(rows, input);
    if found.None? {
      assert after == rows + [slot];
      assert after[|rows|] == slot;
    } else {
      assert after[found.value] == slot;
    }
  }

  /** Updating an existing row: the table keeps its length, the row takes the
      given capacity and price override or keeps its own. */
  lemma UpsertExisting(rows: seq<Slot>, input: SlotInput, i: nat)
    requires WellFormed(rows) && i < |rows| && SameKey(rows[i], input)
    ensures var (after, slot) := UpsertRows(rows, input);
      && |after| == |rows| && after[i] == slot
      && slot.id == rows[i].id && slot.bookedCount == rows[i].bookedCount
      && slot.capacity == (if input.capacity.Some? then input.capacity.value else rows[i].capacity)
      && slot.priceOverride == (if input.priceOverride.Some? then input.priceOverride else rows[i].priceOverride)
      && (forall j :: 0 <= j < |rows| && j != i ==> after[j] == rows[j])
  {
    var found := FindByKey(rows, input, 0);
    assert found.Some?;
    assert found.value == i;
  }

  /** No matching row: `upsert` is `create`, which cannot then fail. */
  lemma UpsertCreates(rows: seq<Slot>, input: SlotInput)
    requires forall i :: 0 <= i < |rows| ==> !SameKey(rows[i], input)
    ensures CreateRows(rows, input).Ok?
    ensures UpsertRows(rows, input).0 == CreateRows(rows, input).value
    ensures var slot := UpsertRows(rows, input).1;
      slot.capacity == input.capacity.GetOr(1) && slot.bookedCount == 0 && slot.priceOverride == input.priceOverride
  {
  }

  /** `bulkCreate` returns one row per input, in input order, each carrying
      its input's key, and keeps the table well formed. */
  lemma {:induction false} BulkSpec(rows: seq<Slot>, inputs: seq<SlotInput>)
    requires WellFormed(rows)
    ensures WellFormed(BulkRows(rows, inputs).0)
    ensures |BulkRows(rows, inputs).1| == |inputs|
    ensures forall i :: 0 <= i < |inputs| ==> SameKey(BulkRows(rows, inputs).1[i], inputs[i])
    decreases |inputs|
  {
    if inputs != [] {
      var prefix := inputs[..|inputs| - 1];
      BulkSpec(rows, prefix);
      var (before, created) := BulkRows(rows, prefix);
      UpsertSpec(before, inputs[|inputs| - 1]);
      forall i | 0 <= i < |inputs| ensures SameKey(BulkRows(rows, inputs).1[i], inputs[i]) {
        if i < |prefix| {
          assert inputs[i] == prefix[i];
        }
      }
    }
  }

  /** `incrementBookedCount` adds exactly one to the named slot and leaves
      every other slot as it was. */
  lemma IncrementSpec(rows: seq<Slot>, id: int)
    requires WellFormed(rows)
    ensures WellFormed(IncrementRows(rows, id))
    ensures var before := RowById(rows, id);
      RowById(IncrementRows(rows, id), id) ==
        if before.Some? then Some(before.value.(bookedCount := before.value.bookedCount + 1)) else None
    ensures forall other :: other != id ==> RowById(IncrementRows(rows, id), other) == RowById(rows, other)
  {
  }

  /** `decrementBookedCount` takes one from the named slot only when its
      count is positive, and leaves every other slot as it was. */
  lemma DecrementSpec(rows: seq<Slot>, id: int)
    requires WellFormed(rows)
    ensures WellFormed(DecrementRows(rows, id))
    ensures var before := RowById(rows, id);
      RowById(DecrementRows(rows, id), id) ==
        if before.Some? && before.value.bookedCount > 0 then Some(before.value.(bookedCount := before.value.bookedCount - 1))
        else before
    ensures forall other :: other != id ==> RowById(DecrementRows(rows, id), other) == RowById(rows, other)
  {
  }

  /** A decrement undoes an increment. */
  lemma DecrementUndoesIncrement(rows: seq<Slot>, id: int)
    ensures DecrementRows(IncrementRows(rows, id), id) == rows
  {
  }

  // ------------------------------------------------------------ repository

  class TimeSlotRepository {
    var rows: seq<Slot>

    ghost predicate Valid()
      reads this
    {
      WellFormed(rows)
    }

    constructor ()
      ensures rows == [] && Valid()
    {
      rows := [];
    }

    function FindById(id: int): (r: Option<Slot>)
      reads this
      ensures Valid() && r.Some? ==> r.value.id == id && r.value in rows
      ensures Valid() ==> (r.Some? <==> exists i :: 0 <= i < |rows| && rows[i].id == id)
    {
      RowById(rows, id)
    }

    method Create(input: SlotInput) returns (r: Result<Slot, Error>)
      requires Valid()
      modifies this
      ensures Valid()
      ensures CreateRows(old(rows), input).Err? ==> rows == old(rows) && r == Err(DuplicateTimeSlot)
      ensures CreateRows(old(rows), input).Ok? ==> rows == CreateRows(old(rows), input).value && r == Ok(rows[|old(rows)|])
    {
      var found := FindByKey(rows, input, 0);
      if found.Some? {
        return Err(DuplicateTimeSlot);
      }
      var slot := NewSlot(rows, input);
      rows := rows + [slot];
      r := Ok(slot);
    }

    method Upsert(input: SlotInput) returns (slot: Slot)
      requires Valid()
      modifies this
      ensures Valid()
      ensures (rows, slot) == UpsertRows(old(rows), input)
    {
      UpsertSpec(rows, input);
      var found := FindByKey(rows, input, 0);
      if found.Some? {
        var existing := rows[found.value];
        slot := existing.(capacity := input.capacity.GetOr(existing.capacity),
                          priceOverride := Coalesce(input.priceOverride, existing.priceOverride));
        rows := rows[found.value := slot];
        return;
      }
      UpsertCreates(rows, input);
      var created := Create(input);
      slot := created.value;
    }

    method BulkCreate(inputs: seq<SlotInput>) returns (created: seq<Slot>)
      requires Valid()
      modifies this
      ensures Valid()
      ensures (rows, created) == BulkRows(old(rows), inputs)
    {
      created := [];
      for i := 0 to |inputs|
        invariant (rows, created) == BulkRows(old(rows), inputs[..i])
        invariant Valid()
      {
        BulkSpec(old(rows), inputs[..i]);
        var slot := Upsert(inputs[i]);
        created := created + [slot];
        assert inputs[..i + 1][..i] == inputs[..i];
      }
      assert inputs[..|inputs|] == inputs;
    }

    method IncrementBookedCount(id: int)
      requires Valid()
      modifies this
      ensures Valid() && rows == IncrementRows(old(rows), id)
    {
      IncrementSpec(rows, id);
      rows := IncrementRows(rows, id);
    }

    method DecrementBookedCount(id: int)
      requires Valid()
      modifies this
      ensures Valid() && rows == DecrementRows(old(rows), id)
    {
      DecrementSpec(rows, id);
      rows := DecrementRows(rows, id);
    }
  }
}
