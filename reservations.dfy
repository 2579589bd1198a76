/** The temporary reservation store (TemporaryReservationService): holds
    written to Redis with a time to live under `temp_booking:{id}`, and per
    slot an index set `temp_booking_slot_index:{slot}` of hold ids, refreshed
    to the full time to live on each write and pruned lazily while counting.

    The first part states each operation as a function of the store's
    contents (`Db<Document>`) together with the invariant `Consistent` that
    every operation keeps; the class at the end issues the same Redis
    commands in the source's order and is proved equal to those functions. */
module Reservations {
  import opened Common
  import opened Redis
  import Text

  /** Default of `booking.reservation.ttl`, in seconds. */
  const DefaultReservationTtl: int := 600

  const KeyPrefix: string := "temp_booking"
  const SlotIndexPrefix: string := "temp_booking_slot_index"

  /** The hold document, as serialized under the main key. */
  datatype Hold = Hold(
    slotId: int,
    offeringId: int,
    userId: int,
    totalPrice: int,
    customerNotes: Option<string>,
    reservedAt: DateTime,
    reservationId: string)

  /** The documents stored as strings on the bookings connection: holds, and
      the payment markers written by the finalisation listener. */
  datatype Document =
    | HoldDoc(hold: Hold)
    | PaidDoc(bookingReference: string, paymentId: string, paidAt: DateTime)

  type Snapshot = Db<Document>

  // ---------------------------------------------------------------- keys

  function MainKey(id: string): string {
    KeyPrefix + ":" + id
  }

  function SlotIndexKey(slot: int): string {
    SlotIndexPrefix + ":" + Text.IntToString(slot)
  }

  /** A key of this store's name space: both key families start with
      `temp_booking`. */
  predicate OwnKey(k: string) {
    |k| >= |KeyPrefix| && k[..|KeyPrefix|] == KeyPrefix
  }

  lemma MainKeyShape(id: string)
    ensures |MainKey(id)| == 13 + |id| && MainKey(id)[13..] == id
    ensures MainKey(id)[..12] == KeyPrefix && MainKey(id)[12] == ':'
  {
    var p := KeyPrefix + ":";
    assert |p| == 13 && p[12] == ':' && p[..12] == KeyPrefix;
    assert MainKey(id) == p + id;
  }

  lemma SlotIndexKeyShape(slot: int)
    ensures |SlotIndexKey(slot)| >= 24 && SlotIndexKey(slot)[24..] == Text.IntToString(slot)
    ensures SlotIndexKey(slot)[..12] == KeyPrefix && SlotIndexKey(slot)[12] == '_'
  {
    var p := SlotIndexPrefix + ":";
    assert |p| == 24 && p[12] == '_' && p[..12] == KeyPrefix;
    assert SlotIndexKey(slot) == p + Text.IntToString(slot);
  }

  /** Main keys and index keys are injective in their argument, never equal
      each other, and both belong to the `temp_booking` name space. */
  lemma KeysDistinct(a: string, b: string, s: int, t: int)
    ensures MainKey(a) == MainKey(b) ==> a == b
    ensures SlotIndexKey(s) == SlotIndexKey(t) ==> s == t
    ensures MainKey(a) != SlotIndexKey(s)
    ensures OwnKey(MainKey(a)) && OwnKey(SlotIndexKey(s))
  {
    MainKeyShape(a);
    MainKeyShape(b);
    SlotIndexKeyShape(s);
    SlotIndexKeyShape(t);
    if SlotIndexKey(s) == SlotIndexKey(t) {
      Text.IntToStringInjective(s, t);
    }
  }

  // ---------------------------------------------------------- read views

  /** `getReservation`: the hold stored under the main key, if still live. */
  function HoldOf(db: Snapshot, id: string): Option<Hold> {
    var doc := Get(db, MainKey(id));
    if doc.Some? && doc.value.HoldDoc? then Some(doc.value.hold) else None
  }

  function IndexMembers(db: Snapshot, slot: int): set<string> {
    SMembers(db, SlotIndexKey(slot))
  }

  /** The index members whose main key still exists: what the counting loop
      counts. */
  function ValidIds(db: Snapshot, slot: int): (r: set<string>)
    ensures r <= IndexMembers(db, slot)
  {
    set m | m in IndexMembers(db, slot) && Live(db, MainKey(m))
  }

  /** The live holds on a slot. Under `Consistent` these are all the live
      holds whose document names the slot (`LiveHoldIdsExact`). */
  function LiveHoldIds(db: Snapshot, slot: int): (r: set<string>)
    ensures r <= IndexMembers(db, slot)
  {
    set m | m in IndexMembers(db, slot) && HoldOf(db, m).Some? && HoldOf(db, m).value.slotId == slot
  }

  // ----------------------------------------------------------- invariant

  /** A live hold is a hold document carrying its own id, expiring at most
      one time to live from now, and listed in its slot's index, which lives
      at least as long as the hold. */
  predicate HoldIndexed(db: Snapshot, ttl: int, id: string)
    requires Live(db, MainKey(id))
  {
    var e := db.entries[MainKey(id)];
    && e.value.Text? && e.value.payload.HoldDoc?
    && e.value.payload.hold.reservationId == id
    && e.expiresAt.Some? && e.expiresAt.value <= db.clock + ttl
    && var ik := SlotIndexKey(e.value.payload.hold.slotId);
    && Live(db, ik) && db.entries[ik].value.Members? && id in db.entries[ik].value.ids
    && (db.entries[ik].expiresAt.None? || e.expiresAt.value <= db.entries[ik].expiresAt.value)
  }

  ghost predicate IndexesTyped(db: Snapshot) {
    forall s {:trigger SlotIndexKey(s)} :: SetTyped(db, SlotIndexKey(s))
  }

  /** The store invariant every operation of the service keeps. */
  ghost predicate Consistent(db: Snapshot, ttl: int) {
    && ttl > 0
    && IndexesTyped(db)
    && (forall id {:trigger MainKey(id)} :: Live(db, MainKey(id)) ==> HoldIndexed(db, ttl, id))
    && (forall s, m {:trigger m in IndexMembers(db, s)} ::
          m in IndexMembers(db, s) && HoldOf(db, m).Some? ==> HoldOf(db, m).value.slotId == s)
  }

  /** A reservation id never used before (a fresh UUID): no hold under it and
      no index lists it. */
  ghost predicate FreshId(db: Snapshot, id: string) {
    !Live(db, MainKey(id)) && forall s {:trigger IndexMembers(db, s)} :: id !in IndexMembers(db, s)
  }

  /** Under the invariant, the slot's live holds are exactly the live hold
      documents naming that slot, and the count loop's set equals them. */
  lemma LiveHoldIdsExact(db: Snapshot, ttl: int, slot: int, id: string)
    requires Consistent(db, ttl)
    ensures id in LiveHoldIds(db, slot) <==> HoldOf(db, id).Some? && HoldOf(db, id).value.slotId == slot
    ensures ValidIds(db, slot) == LiveHoldIds(db, slot)
  {
    if HoldOf(db, id).Some? && HoldOf(db, id).value.slotId == slot {
      assert Live(db, MainKey(id)) && HoldIndexed(db, ttl, id);
    }
    forall m | m in ValidIds(db, slot) ensures m in LiveHoldIds(db, slot) {
      assert HoldIndexed(db, ttl, m);
    }
  }

  // ----------------------------------------------------------- operations

  /** `createReservation`: SETEX the hold document, SADD its id to the slot's
      index, then EXPIRE the index to the full time to live. */
  function AfterCreate(db: Snapshot, ttl: int, h: Hold): (r: Snapshot)
    requires ttl > 0 && SetTyped(db, SlotIndexKey(h.slotId))
    ensures r.clock == db.clock
  {
    KeysDistinct(h.reservationId, h.reservationId, h.slotId, h.slotId);
    var d1 := AfterSetEx(db, MainKey(h.reservationId), ttl, HoldDoc(h));
    var d2 := AfterSAdd(d1, SlotIndexKey(h.slotId), h.reservationId);
    AfterExpire(d2, SlotIndexKey(h.slotId), ttl)
  }

  /** `removeReservation`: when a hold is found, DEL its main key and SREM
      its id from the index of the slot the hold names; the flag says
      whether a hold was found. */
  function AfterRemove(db: Snapshot, id: string): (Snapshot, bool)
    requires IndexesTyped(db)
  {
    var h := HoldOf(db, id);
    if h.None? then (db, false)
    else
      var d1 := AfterDel(db, MainKey(id));
      KeysDistinct(id, id, h.value.slotId, h.value.slotId);
      (AfterSRem(d1, SlotIndexKey(h.value.slotId), id), true)
  }

  /** The set key `k` with the members `ms` taken out by successive SREMs:
      deleted when nothing is left. */
  function RemoveMembers(db: Snapshot, k: string, ms: set<string>): (r: Snapshot)
    requires SetTyped(db, k)
    ensures SMembers(r, k) == SMembers(db, k) - ms && SetTyped(r, k)
    ensures SameElsewhere(db, r, k)
    ensures Live(r, k) ==> Live(db, k) && r.entries[k].expiresAt == db.entries[k].expiresAt
  {
    if !Live(db, k) then db
    else if db.entries[k].value.ids !! ms then
      assert db.entries[k].value.ids - ms == db.entries[k].value.ids;
      db
    else if db.entries[k].value.ids - ms == {} then db.(entries := db.entries - {k})
    else db.(entries := db.entries[k := Entry(Members(db.entries[k].value.ids - ms), db.entries[k].expiresAt)])
  }

  /** One more SREM extends the removed set by one member. */
  lemma RemoveMembersStep(db: Snapshot, k: string, ms: set<string>, m: string)
    requires SetTyped(db, k)
    ensures SetTyped(RemoveMembers(db, k, ms), k)
    ensures AfterSRem(RemoveMembers(db, k, ms), k, m) == RemoveMembers(db, k, ms + {m})
  {
    var r := RemoveMembers(db, k, ms);
    var r' := RemoveMembers(db, k, ms + {m});
    var s := AfterSRem(r, k, m);
    if Live(db, k) {
      var ids := db.entries[k].value.ids;
      var e := db.entries[k].expiresAt;
      if m !in ids || m in ms {
        assert (ids !! (ms + {m})) == (ids !! ms) && ids - (ms + {m}) == ids - ms;
        assert s == r == r';
      } else {
        assert (ids - ms) - {m} == ids - (ms + {m});
        if ids !! ms {
          assert ids - ms == ids && r == db;
        }
        assert m in SMembers(r, k) && Live(r, k);
        if ids - (ms + {m}) == {} {
          assert s.entries == db.entries - {k} == r'.entries;
        } else {
          assert s.entries == db.entries[k := Entry(Members(ids - (ms + {m})), e)] == r'.entries;
        }
      }
    }
  }

  /** What `countReservationsForSlot` leaves behind: the index without the
      members whose main key no longer exists. */
  function AfterCount(db: Snapshot, slot: int): (r: Snapshot)
    requires IndexesTyped(db)
  {
    RemoveMembers(db, SlotIndexKey(slot), IndexMembers(db, slot) - ValidIds(db, slot))
  }

  /** `hasReservation`: some hold listed in the slot's index belongs to the
      user. */
  predicate HasHoldFor(db: Snapshot, slot: int, userId: int) {
    exists m :: m in IndexMembers(db, slot) && HoldOf(db, m).Some? && HoldOf(db, m).value.userId == userId
  }

  // --------------------------------------------------------------- lemmas

  lemma EmptyStoreConsistent(clock: int, ttl: int)
    requires ttl > 0
    ensures Consistent(Db(map[], clock), ttl)
  {
  }

  /** Two snapshots at the same instant that differ at most at keys `a`
      and `b`. */
  ghost predicate SameOutside(db: Snapshot, r: Snapshot, a: string, b: string) {
    && r.clock == db.clock
    && (forall k :: k != a && k != b ==> (k in r.entries <==> k in db.entries))
    && (forall k :: k != a && k != b && k in r.entries ==> r.entries[k] == db.entries[k])
  }

  /** The store right after `createReservation`, key by key. */
  ghost predicate CreatedFrom(db: Snapshot, r: Snapshot, ttl: int, h: Hold) {
    var mk, ik := MainKey(h.reservationId), SlotIndexKey(h.slotId);
    && ttl > 0
    && SameOutside(db, r, mk, ik)
    && mk in r.entries && r.entries[mk] == Entry(Text(HoldDoc(h)), Some(db.clock + ttl))
    && ik in r.entries
    && r.entries[ik] == Entry(Members(IndexMembers(db, h.slotId) + {h.reservationId}), Some(db.clock + ttl))
  }

  lemma CreateShape(db: Snapshot, ttl: int, h: Hold)
    requires ttl > 0 && SetTyped(db, SlotIndexKey(h.slotId))
    ensures CreatedFrom(db, AfterCreate(db, ttl, h), ttl, h)
  {
    var id, slot := h.reservationId, h.slotId;
    var mk, ik := MainKey(id), SlotIndexKey(slot);
    KeysDistinct(id, id, slot, slot);
    var d1 := AfterSetEx(db, mk, ttl, HoldDoc(h));
    var d2 := AfterSAdd(d1, ik, id);
    assert AfterCreate(db, ttl, h) == AfterExpire(d2, ik, ttl);
    assert SMembers(d1, ik) == IndexMembers(db, slot);
  }

  lemma CreatedTyped(db: Snapshot, r: Snapshot, ttl: int, h: Hold)
    requires Consistent(db, ttl) && CreatedFrom(db, r, ttl, h)
    ensures IndexesTyped(r)
  {
    forall s ensures SetTyped(r, SlotIndexKey(s)) {
      KeysDistinct(h.reservationId, h.reservationId, s, h.slotId);
    }
  }

  lemma CreatedReads(db: Snapshot, r: Snapshot, ttl: int, h: Hold)
    requires CreatedFrom(db, r, ttl, h)
    ensures HoldOf(r, h.reservationId) == Some(h)
    ensures IndexMembers(r, h.slotId) == IndexMembers(db, h.slotId) + {h.reservationId}
    ensures forall s :: s != h.slotId ==> IndexMembers(r, s) == IndexMembers(db, s)
    ensures forall other :: other != h.reservationId ==>
      HoldOf(r, other) == HoldOf(db, other) && (Live(r, MainKey(other)) <==> Live(db, MainKey(other)))
  {
    var id, slot := h.reservationId, h.slotId;
    KeysDistinct(id, id, slot, slot);
    forall s | s != slot ensures IndexMembers(r, s) == IndexMembers(db, s) {
      KeysDistinct(id, id, s, slot);
    }
    forall other | other != id
      ensures HoldOf(r, other) == HoldOf(db, other) && (Live(r, MainKey(other)) <==> Live(db, MainKey(other)))
    {
      KeysDistinct(other, id, slot, slot);
    }
  }

  lemma CreatedIndexed(db: Snapshot, r: Snapshot, ttl: int, h: Hold)
    requires Consistent(db, ttl) && FreshId(db, h.reservationId) && CreatedFrom(db, r, ttl, h)
    ensures forall other {:trigger MainKey(other)} :: Live(r, MainKey(other)) ==> HoldIndexed(r, ttl, other)
  {
    var id, slot := h.reservationId, h.slotId;
    KeysDistinct(id, id, slot, slot);
    forall other {:trigger MainKey(other)} | Live(r, MainKey(other)) ensures HoldIndexed(r, ttl, other) {
      if other != id {
        KeysDistinct(other, id, slot, slot);
        assert Live(db, MainKey(other)) && HoldIndexed(db, ttl, other);
        var e := db.entries[MainKey(other)];
        var s := e.value.payload.hold.slotId;
        KeysDistinct(other, id, s, slot);
        assert r.entries[MainKey(other)] == e;
      }
    }
  }

  lemma CreatedMembers(db: Snapshot, r: Snapshot, ttl: int, h: Hold)
    requires Consistent(db, ttl) && FreshId(db, h.reservationId) && CreatedFrom(db, r, ttl, h)
    ensures forall s, m {:trigger m in IndexMembers(r, s)} ::
      m in IndexMembers(r, s) && HoldOf(r, m).Some? ==> HoldOf(r, m).value.slotId == s
    ensures LiveHoldIds(r, h.slotId) == LiveHoldIds(db, h.slotId) + {h.reservationId}
    ensures forall s :: s != h.slotId ==> LiveHoldIds(r, s) == LiveHoldIds(db, s)
  {
    var id, slot := h.reservationId, h.slotId;
    CreatedReads(db, r, ttl, h);
    forall s, m | m in IndexMembers(r, s) && HoldOf(r, m).Some? ensures HoldOf(r, m).value.slotId == s {
      if m != id || s != slot {
        assert m in IndexMembers(db, s);
      }
    }
    forall s ensures LiveHoldIds(r, s) == LiveHoldIds(db, s) + (if s == slot then {id} else {}) {
      assert id !in IndexMembers(db, s);
    }
  }

  /** A fresh hold is readable under its id, listed in exactly its slot's
      index, and the invariant still holds. */
  lemma CreateKeepsConsistent(db: Snapshot, ttl: int, h: Hold)
    requires Consistent(db, ttl) && FreshId(db, h.reservationId)
    ensures Consistent(AfterCreate(db, ttl, h), ttl)
    ensures HoldOf(AfterCreate(db, ttl, h), h.reservationId) == Some(h)
    ensures LiveHoldIds(AfterCreate(db, ttl, h), h.slotId) == LiveHoldIds(db, h.slotId) + {h.reservationId}
    ensures forall s :: s != h.slotId ==> LiveHoldIds(AfterCreate(db, ttl, h), s) == LiveHoldIds(db, s)
  {
    var r := AfterCreate(db, ttl, h);
    CreateShape(db, ttl, h);
    CreatedTyped(db, r, ttl, h);
    CreatedReads(db, r, ttl, h);
    CreatedIndexed(db, r, ttl, h);
    CreatedMembers(db, r, ttl, h);
  }

  /** The store right after `removeReservation` found the hold `h`. */
  ghost predicate RemovedFrom(db: Snapshot, r: Snapshot, h: Hold) {
    var mk, ik := MainKey(h.reservationId), SlotIndexKey(h.slotId);
    && SameOutside(db, r, mk, ik)
    && mk !in r.entries
    && IndexMembers(r, h.slotId) == IndexMembers(db, h.slotId) - {h.reservationId}
    && (ik in r.entries ==> ik in db.entries && r.entries[ik].expiresAt == db.entries[ik].expiresAt
                            && r.entries[ik].value.Members?)
  }

  lemma RemoveShape(db: Snapshot, ttl: int, id: string)
    requires Consistent(db, ttl) && HoldOf(db, id).Some?
    ensures HoldOf(db, id).value.reservationId == id
    ensures RemovedFrom(db, AfterRemove(db, id).0, HoldOf(db, id).value)
  {
    var h := HoldOf(db, id).value;
    var mk, ik := MainKey(id), SlotIndexKey(h.slotId);
    assert Live(db, mk) && HoldIndexed(db, ttl, id);
    KeysDistinct(id, id, h.slotId, h.slotId);
    var d1 := AfterDel(db, mk);
    assert AfterRemove(db, id).0 == AfterSRem(d1, ik, id);
    assert SMembers(d1, ik) == IndexMembers(db, h.slotId);
  }

  lemma RemovedReads(db: Snapshot, r: Snapshot, h: Hold)
    requires IndexesTyped(db) && RemovedFrom(db, r, h)
    ensures HoldOf(r, h.reservationId).None? && IndexesTyped(r)
    ensures forall s :: s != h.slotId ==> IndexMembers(r, s) == IndexMembers(db, s)
    ensures forall other :: other != h.reservationId ==>
      HoldOf(r, other) == HoldOf(db, other) && (Live(r, MainKey(other)) <==> Live(db, MainKey(other)))
  {
    var id, slot := h.reservationId, h.slotId;
    KeysDistinct(id, id, slot, slot);
    forall s ensures SetTyped(r, SlotIndexKey(s)) && (s != slot ==> IndexMembers(r, s) == IndexMembers(db, s)) {
      KeysDistinct(id, id, s, slot);
    }
    forall other | other != id
      ensures HoldOf(r, other) == HoldOf(db, other) && (Live(r, MainKey(other)) <==> Live(db, MainKey(other)))
    {
      KeysDistinct(other, id, slot, slot);
    }
  }

  lemma RemovedIndexed(db: Snapshot, r: Snapshot, ttl: int, h: Hold)
    requires Consistent(db, ttl) && RemovedFrom(db, r, h)
    ensures forall other {:trigger MainKey(other)} :: Live(r, MainKey(other)) ==> HoldIndexed(r, ttl, other)
  {
    var id, slot := h.reservationId, h.slotId;
    RemovedReads(db, r, h);
    forall other {:trigger MainKey(other)} | Live(r, MainKey(other)) ensures HoldIndexed(r, ttl, other) {
      KeysDistinct(other, id, slot, slot);
      assert other != id;
      assert Live(db, MainKey(other)) && HoldIndexed(db, ttl, other);
      var e := db.entries[MainKey(other)];
      var s := e.value.payload.hold.slotId;
      KeysDistinct(other, id, s, slot);
      assert r.entries[MainKey(other)] == e;
      if s == slot {
        assert other in IndexMembers(r, slot);
      }
    }
  }

  /** Removing a found hold takes its id out of every slot's live holds and
      keeps the invariant; a second removal finds nothing. */
  lemma RemoveKeepsConsistent(db: Snapshot, ttl: int, id: string)
    requires Consistent(db, ttl)
    ensures Consistent(AfterRemove(db, id).0, ttl)
    ensures AfterRemove(db, id).1 <==> HoldOf(db, id).Some?
    ensures !AfterRemove(db, id).1 ==> AfterRemove(db, id).0 == db
    ensures HoldOf(AfterRemove(db, id).0, id).None?
    ensures forall other :: other != id ==> HoldOf(AfterRemove(db, id).0, other) == HoldOf(db, other)
    ensures forall s :: LiveHoldIds(AfterRemove(db, id).0, s) == LiveHoldIds(db, s) - {id}
    ensures !AfterRemove(AfterRemove(db, id).0, id).1
  {
    var r := AfterRemove(db, id).0;
    if HoldOf(db, id).Some? {
      var h := HoldOf(db, id).value;
      RemoveShape(db, ttl, id);
      RemovedReads(db, r, h);
      RemovedIndexed(db, r, ttl, h);
      forall s, m | m in IndexMembers(r, s) && HoldOf(r, m).Some? ensures HoldOf(r, m).value.slotId == s {
        assert m in IndexMembers(db, s);
      }
      forall s ensures LiveHoldIds(r, s) == LiveHoldIds(db, s) - {id} {
        if s != h.slotId {
          assert id !in LiveHoldIds(db, s);
        }
      }
    } else {
      forall s ensures id !in LiveHoldIds(db, s) { }
    }
  }

  /** Counting leaves exactly the members with a live main key in the index,
      touches nothing else, and a second count finds nothing to prune. */
  lemma CountPrunesStale(db: Snapshot, slot: int)
    requires IndexesTyped(db)
    ensures IndexesTyped(AfterCount(db, slot))
    ensures IndexMembers(AfterCount(db, slot), slot) == ValidIds(db, slot)
    ensures ValidIds(AfterCount(db, slot), slot) == ValidIds(db, slot)
    ensures forall id :: HoldOf(AfterCount(db, slot), id) == HoldOf(db, id)
    ensures forall s :: s != slot ==> IndexMembers(AfterCount(db, slot), s) == IndexMembers(db, s)
    ensures AfterCount(AfterCount(db, slot), slot) == AfterCount(db, slot)
  {
    var ik := SlotIndexKey(slot);
    var r := AfterCount(db, slot);
    forall s ensures SetTyped(r, SlotIndexKey(s)) && (s != slot ==> IndexMembers(r, s) == IndexMembers(db, s)) {
      KeysDistinct("", "", s, slot);
    }
    forall id ensures HoldOf(r, id) == HoldOf(db, id) && (Live(r, MainKey(id)) <==> Live(db, MainKey(id))) {
      KeysDistinct(id, id, slot, slot);
    }
    assert ValidIds(r, slot) == ValidIds(db, slot);
    assert IndexMembers(r, slot) - ValidIds(r, slot) == {};
  }

  /** Under the invariant counting keeps it and changes no slot's live
      holds. */
  lemma CountKeepsConsistent(db: Snapshot, ttl: int, slot: int)
    requires Consistent(db, ttl)
    ensures Consistent(AfterCount(db, slot), ttl)
    ensures forall s :: LiveHoldIds(AfterCount(db, slot), s) == LiveHoldIds(db, s)
  {
    var r := AfterCount(db, slot);
    var ik := SlotIndexKey(slot);
    CountPrunesStale(db, slot);
    forall other {:trigger MainKey(other)} | Live(r, MainKey(other)) ensures HoldIndexed(r, ttl, other) {
      KeysDistinct(other, other, slot, slot);
      assert Live(db, MainKey(other)) && HoldIndexed(db, ttl, other);
      var e := db.entries[MainKey(other)];
      var s := e.value.payload.hold.slotId;
      KeysDistinct(other, other, s, slot);
      assert r.entries[MainKey(other)] == e;
      if s == slot {
        assert other in ValidIds(db, slot);
      }
    }
    forall s ensures LiveHoldIds(r, s) == LiveHoldIds(db, s) {
      if s == slot {
        LiveHoldIdsExact(db, ttl, slot, "");
      }
    }
  }

  /** Time passing keeps the invariant; holds only ever disappear. */
  lemma AdvanceKeepsConsistent(db: Snapshot, ttl: int, t: int)
    requires Consistent(db, ttl) && t >= db.clock
    ensures Consistent(Advance(db, t), ttl)
    ensures forall s :: LiveHoldIds(Advance(db, t), s) <= LiveHoldIds(db, s)
  {
    var r := Advance(db, t);
    forall other {:trigger MainKey(other)} | Live(r, MainKey(other)) ensures HoldIndexed(r, ttl, other) {
      assert HoldIndexed(db, ttl, other);
    }
    forall s, m | m in IndexMembers(r, s) && HoldOf(r, m).Some? ensures HoldOf(r, m).value.slotId == s {
      assert m in IndexMembers(db, s);
    }
  }

  /** A hold created now reads back until `ttl` seconds have passed, and
      not from then on. */
  lemma HoldLifetime(db: Snapshot, ttl: int, h: Hold, t: int)
    requires ttl > 0 && SetTyped(db, SlotIndexKey(h.slotId)) && t >= db.clock
    ensures HoldOf(Advance(AfterCreate(db, ttl, h), t), h.reservationId) == if t < db.clock + ttl then Some(h) else None
  {
    CreateShape(db, ttl, h);
  }

  /** `hasReservation` is true exactly when the slot has a live hold of the
      user's. */
  lemma HasHoldForExact(db: Snapshot, ttl: int, slot: int, userId: int)
    requires Consistent(db, ttl)
    ensures HasHoldFor(db, slot, userId) <==>
      exists m :: m in LiveHoldIds(db, slot) && HoldOf(db, m).value.userId == userId
  {
    if HasHoldFor(db, slot, userId) {
      var m :| m in IndexMembers(db, slot) && HoldOf(db, m).Some? && HoldOf(db, m).value.userId == userId;
      assert m in LiveHoldIds(db, slot);
    }
  }

  /** Under the invariant a hold read under `id` carries `id` and is listed
      in its slot's index. */
  lemma HoldOfIndexed(db: Snapshot, ttl: int, id: string)
    ensures Consistent(db, ttl) && HoldOf(db, id).Some? ==>
      HoldOf(db, id).value.reservationId == id && id in IndexMembers(db, HoldOf(db, id).value.slotId)
  {
    if Consistent(db, ttl) && HoldOf(db, id).Some? {
      assert Live(db, MainKey(id)) && HoldIndexed(db, ttl, id);
    }
  }

  /** Bookkeeping of one iteration of the counting loop. */
  lemma CountStep(ids: set<string>, rest: set<string>, valid: set<string>, m: string)
    requires m in rest && rest <= ids
    ensures m in valid ==> (ids - (rest - {m})) * valid == (ids - rest) * valid + {m}
    ensures m in valid ==> (ids - (rest - {m})) - valid == (ids - rest) - valid
    ensures m !in valid ==> (ids - (rest - {m})) * valid == (ids - rest) * valid
    ensures m !in valid ==> (ids - (rest - {m})) - valid == (ids - rest) - valid + {m}
    ensures m !in (ids - rest) * valid
  {
  }

  /** Pruning the index never changes whether a main key exists. */
  lemma PrunedMainKeys(db: Snapshot, slot: int, stale: set<string>, m: string)
    requires SetTyped(db, SlotIndexKey(slot))
    ensures Live(RemoveMembers(db, SlotIndexKey(slot), stale), MainKey(m)) == Live(db, MainKey(m))
  {
    KeysDistinct(m, m, slot, slot);
  }

  lemma CountValid(db: Snapshot, ttl: int, slot: int)
    requires IndexesTyped(db)
    ensures Consistent(db, ttl) ==> Consistent(AfterCount(db, slot), ttl) && ValidIds(db, slot) == LiveHoldIds(db, slot)
  {
    if Consistent(db, ttl) {
      LiveHoldIdsExact(db, ttl, slot, "");
      CountKeepsConsistent(db, ttl, slot);
    }
  }

  /** A SETEX outside the `temp_booking` name space (the payment markers)
      changes no hold, no index and not the invariant. */
  lemma ForeignWriteKeepsConsistent(db: Snapshot, ttl: int, k: string, t: int, p: Document)
    requires Consistent(db, ttl) && !OwnKey(k) && t > 0
    ensures Consistent(AfterSetEx(db, k, t, p), ttl)
    ensures forall id :: HoldOf(AfterSetEx(db, k, t, p), id) == HoldOf(db, id)
    ensures forall s :: IndexMembers(AfterSetEx(db, k, t, p), s) == IndexMembers(db, s)
    ensures forall s :: LiveHoldIds(AfterSetEx(db, k, t, p), s) == LiveHoldIds(db, s)
  {
    var r := AfterSetEx(db, k, t, p);
    forall id ensures k != MainKey(id) {
      KeysDistinct(id, id, 0, 0);
    }
    forall s ensures k != SlotIndexKey(s) {
      KeysDistinct("", "", s, s);
    }
    forall other {:trigger MainKey(other)} | Live(r, MainKey(other)) ensures HoldIndexed(r, ttl, other) {
      assert HoldIndexed(db, ttl, other);
    }
    forall s, m | m in IndexMembers(r, s) && HoldOf(r, m).Some? ensures HoldOf(r, m).value.slotId == s {
      assert m in IndexMembers(db, s);
    }
  }

  /** Counting prunes only index members, so an unused id stays unused. */
  lemma CountKeepsFresh(db: Snapshot, slot: int, id: string)
    requires IndexesTyped(db) && FreshId(db, id)
    ensures FreshId(AfterCount(db, slot), id)
  {
    CountPrunesStale(db, slot);
    KeysDistinct(id, id, slot, slot);
  }

  // -------------------------------------------------------------- service

  /** The service over the `bookings` Redis connection, with the configured
      time to live `booking.reservation.ttl`. */
  class TemporaryReservationService {
    const store: Store<Document>
    const ttl: int

    ghost predicate Valid()
      reads this, store
    {
      Consistent(store.Contents(), ttl)
    }

    constructor (store: Store<Document>, ttl: int)
      requires Consistent(store.Contents(), ttl)
      ensures this.store == store && this.ttl == ttl && Valid()
    {
      this.store := store;
      this.ttl := ttl;
    }

    /** `getTTL`: the configured lifetime of a hold, in seconds. */
    function GetTTL(): (t: int)
      reads this, store
      ensures t == ttl && (Valid() ==> t > 0)
    {
      ttl
    }

    /** `getReservation`: the live hold under `id`, which carries `id`. */
    function GetReservation(id: string): (r: Option<Hold>)
      reads this, store
      ensures r == HoldOf(store.Contents(), id)
      ensures Valid() && r.Some? ==> r.value.reservationId == id && id in IndexMembers(store.Contents(), r.value.slotId)
    {
      HoldOfIndexed(store.Contents(), ttl, id);
      HoldOf(store.Contents(), id)
    }

    /** `createReservation`, with the fresh UUID and the clock reading passed
        in. */
    method CreateReservation(slotId: int, offeringId: int, userId: int, totalPrice: int,
                             customerNotes: Option<string>, now: DateTime, reservationId: string)
      returns (id: string)
      requires Valid() && FreshId(store.Contents(), reservationId)
      modifies store
      ensures Valid() && id == reservationId
      ensures store.Contents() == AfterCreate(old(store.Contents()), ttl,
        Hold(slotId, offeringId, userId, totalPrice, customerNotes, now, reservationId))
      ensures GetReservation(id) == Some(Hold(slotId, offeringId, userId, totalPrice, customerNotes, now, reservationId))
    {
      var h := Hold(slotId, offeringId, userId, totalPrice, customerNotes, now, reservationId);
      CreateKeepsConsistent(store.Contents(), ttl, h);
      KeysDistinct(reservationId, reservationId, slotId, slotId);
      id := reservationId;
      store.SetEx(MainKey(id), ttl, HoldDoc(h));
      store.SAdd(SlotIndexKey(slotId), id);
      store.Expire(SlotIndexKey(slotId), ttl);
    }

    /** `removeReservation`: false, with nothing changed, when no hold is
        found. */
    method RemoveReservation(id: string) returns (removed: bool)
      requires Valid()
      modifies store
      ensures Valid()
      ensures (store.Contents(), removed) == AfterRemove(old(store.Contents()), id)
      ensures GetReservation(id).None?
    {
      RemoveKeepsConsistent(store.Contents(), ttl, id);
      var h := GetReservation(id);
      if h.None? {
        return false;
      }
      KeysDistinct(id, id, h.value.slotId, h.value.slotId);
      store.Del(MainKey(id));
      store.SRem(SlotIndexKey(h.value.slotId), id);
      return true;
    }

    /** `countReservationsForSlot`: counts the index members whose main key
        exists and SREMs the others, one member at a time. */
    method CountReservationsForSlot(slot: int) returns (count: int)
      requires IndexesTyped(store.Contents())
      modifies store
      ensures count == |ValidIds(old(store.Contents()), slot)|
      ensures store.Contents() == AfterCount(old(store.Contents()), slot)
      ensures old(Valid()) ==> Valid() && count == |LiveHoldIds(old(store.Contents()), slot)|
    {
      ghost var db := store.Contents();
      ghost var valid := ValidIds(db, slot);
      var ik := SlotIndexKey(slot);
      var ids := SMembers(store.Contents(), ik);
      count := 0;
      var rest := ids;
      ghost var stale: set<string> := {};
      while rest != {}
        invariant rest <= ids && stale <= ids
        invariant stale == (ids - rest) - valid
        invariant count == |(ids - rest) * valid|
        invariant store.Contents() == RemoveMembers(db, ik, stale)
        decreases |rest|
      {
        var m :| m in rest;
        CountStep(ids, rest, valid, m);
        PrunedMainKeys(db, slot, stale, m);
        if Live(store.Contents(), MainKey(m)) {
          count := count + 1;
        } else {
          RemoveMembersStep(db, ik, stale, m);
          store.SRem(ik, m);
          stale := stale + {m};
        }
        rest := rest - {m};
      }
      assert ids * valid == valid;
      CountValid(db, ttl, slot);
    }

    /** `hasReservation`: scans the slot's index for a hold of the user's;
        changes nothing. */
    method HasReservation(slot: int, userId: int) returns (found: bool)
      ensures found == HasHoldFor(store.Contents(), slot, userId)
    {
      var ids := SMembers(store.Contents(), SlotIndexKey(slot));
      var rest := ids;
      while rest != {}
        invariant rest <= ids
        invariant forall m :: m in ids - rest ==> !(HoldOf(store.Contents(), m).Some? && HoldOf(store.Contents(), m).value.userId == userId)
        decreases |rest|
      {
        var m :| m in rest;
        var h := GetReservation(m);
        if h.Some? && h.value.userId == userId {
          return true;
        }
        rest := rest - {m};
      }
      return false;
    }
  }
}
