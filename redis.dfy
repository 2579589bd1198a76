/** The Redis connection ("bookings") the reservation core writes to: a map
    from key to value and optional expiry instant, read against the store's
    own integer clock (seconds). A key is absent once the clock reaches its
    expiry, whether or not Redis has reclaimed it yet. Only the commands the
    core issues are modelled: GET, SETEX, SADD, SMEMBERS, SREM, EXISTS,
    EXPIRE and DEL. */
module Redis {
  import opened Common

  /** A string value (a serialized document) or a set of members. */
  datatype Value<P> = Text(payload: P) | Members(ids: set<string>)

  datatype Entry<P> = Entry(value: Value<P>, expiresAt: Option<int>)

  /** The store's contents at one instant of its clock. */
  datatype Db<P> = Db(entries: map<string, Entry<P>>, clock: int)

  predicate Live<P>(db: Db<P>, k: string) {
    k in db.entries && (db.entries[k].expiresAt.None? || db.clock < db.entries[k].expiresAt.value)
  }

  /** GET: the document under a live string key. */
  function Get<P>(db: Db<P>, k: string): Option<P> {
    if Live(db, k) && db.entries[k].value.Text? then Some(db.entries[k].value.payload) else None
  }

  /** SMEMBERS: the members of a live set key; an absent key reads as empty. */
  function SMembers<P>(db: Db<P>, k: string): set<string> {
    if Live(db, k) && db.entries[k].value.Members? then db.entries[k].value.ids else {}
  }

  /** A key that is absent or holds a set, so that SADD and SREM apply. */
  predicate SetTyped<P>(db: Db<P>, k: string) {
    !Live(db, k) || db.entries[k].value.Members?
  }

  /** Two snapshots at the same instant that agree on every key but `k`. */
  ghost predicate SameElsewhere<P>(db: Db<P>, r: Db<P>, k: string) {
    && r.clock == db.clock
    && (forall k' :: k' != k ==> (k' in r.entries <==> k' in db.entries))
    && (forall k' :: k' != k && k' in r.entries ==> r.entries[k'] == db.entries[k'])
  }

  /** SETEX: store a string value that expires `ttl` seconds from now. */
  function AfterSetEx<P>(db: Db<P>, k: string, ttl: int, p: P): (r: Db<P>)
    requires ttl > 0
    ensures Get(r, k) == Some(p) && r.clock == db.clock
    ensures forall k' :: k' != k ==> Live(r, k') == Live(db, k') && Get(r, k') == Get(db, k') && SMembers(r, k') == SMembers(db, k')
    ensures SameElsewhere(db, r, k)
  {
    db.(entries := db.entries[k := Entry(Text(p), Some(db.clock + ttl))])
  }

  /** SADD: add a member; an absent key becomes a new set without expiry. */
  function AfterSAdd<P>(db: Db<P>, k: string, m: string): (r: Db<P>)
    requires SetTyped(db, k)
    ensures SMembers(r, k) == SMembers(db, k) + {m} && Live(r, k) && r.clock == db.clock
    ensures forall k' :: k' != k ==> Live(r, k') == Live(db, k') && Get(r, k') == Get(db, k') && SMembers(r, k') == SMembers(db, k')
    ensures SameElsewhere(db, r, k)
  {
    if Live(db, k) then
      db.(entries := db.entries[k := Entry(Members(db.entries[k].value.ids + {m}), db.entries[k].expiresAt)])
    else
      db.(entries := db.entries[k := Entry(Members({m}), None)])
  }

  /** SREM: remove a member; a set left empty is deleted, and removing a
      non-member changes nothing. */
  function AfterSRem<P>(db: Db<P>, k: string, m: string): (r: Db<P>)
    requires SetTyped(db, k)
    ensures SMembers(r, k) == SMembers(db, k) - {m} && r.clock == db.clock
    ensures forall k' :: k' != k ==> Live(r, k') == Live(db, k') && Get(r, k') == Get(db, k') && SMembers(r, k') == SMembers(db, k')
    ensures SameElsewhere(db, r, k)
  {
    if !Live(db, k) || m !in db.entries[k].value.ids then db
    else if db.entries[k].value.ids - {m} == {} then db.(entries := db.entries - {k})
    else db.(entries := db.entries[k := Entry(Members(db.entries[k].value.ids - {m}), db.entries[k].expiresAt)])
  }

  /** EXPIRE: reset the time to live of a live key; an absent key is left
      absent. */
  function AfterExpire<P>(db: Db<P>, k: string, ttl: int): (r: Db<P>)
    requires ttl > 0
    ensures Get(r, k) == Get(db, k) && SMembers(r, k) == SMembers(db, k) && Live(r, k) == Live(db, k)
    ensures forall k' :: k' != k ==> Live(r, k') == Live(db, k') && Get(r, k') == Get(db, k') && SMembers(r, k') == SMembers(db, k')
    ensures SameElsewhere(db, r, k)
  {
    if Live(db, k) then db.(entries := db.entries[k := db.entries[k].(expiresAt := Some(db.clock + ttl))]) else db
  }

  /** DEL: remove a key. */
  function AfterDel<P>(db: Db<P>, k: string): (r: Db<P>)
    ensures !Live(r, k) && Get(r, k) == None && SMembers(r, k) == {} && r.clock == db.clock
    ensures forall k' :: k' != k ==> Live(r, k') == Live(db, k') && Get(r, k') == Get(db, k') && SMembers(r, k') == SMembers(db, k')
    ensures SameElsewhere(db, r, k)
  {
    db.(entries := db.entries - {k})
  }

  /** The passage of time: entries are untouched, only liveness changes. */
  function Advance<P>(db: Db<P>, t: int): (r: Db<P>)
    requires t >= db.clock
    ensures forall k :: Live(r, k) ==> Live(db, k)
  {
    db.(clock := t)
  }

  /** The Redis connection as a mutable object. Each method issues one
      command; its postcondition ties the new contents to the command's
      function above. */
  class Store<P> {
    var entries: map<string, Entry<P>>
    var clock: int

    constructor (start: int)
      ensures Contents() == Db(map[], start)
    {
      entries := map[];
      clock := start;
    }

    function Contents(): Db<P>
      reads this
    {
      Db(entries, clock)
    }

    method SetEx(k: string, ttl: int, p: P)
      requires ttl > 0
      modifies this
      ensures Contents() == AfterSetEx(old(Contents()), k, ttl, p)
    {
      entries := entries[k := Entry(Text(p), Some(clock + ttl))];
    }

    method SAdd(k: string, m: string)
      requires SetTyped(Contents(), k)
      modifies this
      ensures Contents() == AfterSAdd(old(Contents()), k, m)
    {
      if Live(Contents(), k) {
        entries := entries[k := Entry(Members(entries[k].value.ids + {m}), entries[k].expiresAt)];
      } else {
        entries := entries[k := Entry(Members({m}), None)];
      }
    }

    method SRem(k: string, m: string)
      requires SetTyped(Contents(), k)
      modifies this
      ensures Contents() == AfterSRem(old(Contents()), k, m)
    {
      if Live(Contents(), k) && m in entries[k].value.ids {
        var rest := entries[k].value.ids - {m};
        if rest == {} {
          entries := entries - {k};
        } else {
          entries := entries[k := Entry(Members(rest), entries[k].expiresAt)];
        }
      }
    }

    method Expire(k: string, ttl: int)
      requires ttl > 0
      modifies this
      ensures Contents() == AfterExpire(old(Contents()), k, ttl)
    {
      if Live(Contents(), k) {
        entries := entries[k := entries[k].(expiresAt := Some(clock + ttl))];
      }
    }

    method Del(k: string)
      modifies this
      ensures Contents() == AfterDel(old(Contents()), k)
    {
      entries := entries - {k};
    }

    /** Time passes on the store's clock. */
    method Tick(t: int)
      requires t >= clock
      modifies this
      ensures Contents() == Advance(old(Contents()), t)
    {
      clock := t;
    }
  }
}
