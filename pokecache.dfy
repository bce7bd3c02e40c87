/**
  The expiring key/value store of the Pokédex command-line explorer.

  A cache maps a string key (in practice the full request URL) to an entry
  holding the response body and the time it was stored. `Add` stores,
  `Get` looks up without looking at the age, and every tick of the
  background sweeper deletes the entries older than the interval the cache
  was built with. Time is an explicit integer: `now` is an argument of
  `Add` and the tick time an argument of `Sweep`.
 */
module PokeCache {

  /** A response body: an immutable sequence of bytes. */
  type Bytes = seq<bv8>

  /** One stored payload with the time it was stored. */
  datatype Entry = Entry(createdAt: int, val: Bytes)

  /** An entry is expired at `tick` when its age is strictly greater than `interval`. */
  predicate Expired(e: Entry, tick: int, interval: int)
  {
    tick - e.createdAt > interval
  }

  /** The map after storing `val` under `key` at time `now`: the new entry
      replaces any old one under `key`, and no other key is touched. */
  function Inserted(m: map<string, Entry>, key: string, val: Bytes, now: int): (r: map<string, Entry>)
    ensures r.Keys == m.Keys + {key}
    ensures r[key] == Entry(now, val)
    ensures forall k :: k in m && k != key ==> r[k] == m[k]
  {
    m[key := Entry(now, val)]
  }

  /** What a lookup reports: the stored payload and `true` on a hit, the
      empty payload and `false` on a miss. Age plays no part. */
  function Lookup(m: map<string, Entry>, key: string): (r: (Bytes, bool))
    ensures r.1 <==> key in m
    ensures key in m ==> r.0 == m[key].val
    ensures key !in m ==> r.0 == []
  {
    if key in m then (m[key].val, true) else ([], false)
  }

  /** The map after one sweep at `tick`: exactly the entries that are not
      expired survive, each unchanged. */
  function Swept(m: map<string, Entry>, tick: int, interval: int): (r: map<string, Entry>)
    ensures r.Keys <= m.Keys
    ensures forall k :: k in m ==> (k in r <==> tick - m[k].createdAt <= interval)
    ensures forall k :: k in r ==> r[k] == m[k]
  {
    map k | k in m && !Expired(m[k], tick, interval) :: m[k]
  }

  /** A sweep never grows the cache. */
  lemma SweptShrinks(m: map<string, Entry>, tick: int, interval: int)
    ensures |Swept(m, tick, interval)| <= |m|
  {
    var r := Swept(m, tick, interval);
    assert r.Keys <= m.Keys;
    SubsetCardinality(r.Keys, m.Keys);
  }

  lemma {:induction false} SubsetCardinality(a: set<string>, b: set<string>)
    requires a <= b
    ensures |a| <= |b|
  {
    if a != {} {
      var x :| x in a;
      SubsetCardinality(a - {x}, b - {x});
    }
  }

  /** Sweeping twice at the same tick leaves what one sweep left. */
  lemma SweptIdempotent(m: map<string, Entry>, tick: int, interval: int)
    ensures Swept(Swept(m, tick, interval), tick, interval) == Swept(m, tick, interval)
  {
  }

  /** A sweep at a later tick removes everything an earlier one did, so the
      earlier sweep adds nothing once the later one has run. */
  lemma SweptLaterSubsumes(m: map<string, Entry>, t1: int, t2: int, interval: int)
    requires t1 <= t2
    ensures Swept(Swept(m, t1, interval), t2, interval) == Swept(m, t2, interval)
  {
  }

  /** An entry exactly `interval` old survives a sweep; one time unit older it does not. */
  lemma SweepBoundary(m: map<string, Entry>, key: string, interval: int)
    requires key in m
    ensures key in Swept(m, m[key].createdAt + interval, interval)
    ensures key !in Swept(m, m[key].createdAt + interval + 1, interval)
  {
  }

  /** A lookup ignores age: an expired entry is still a hit until a sweep removes it. */
  lemma StaleEntryIsHit(m: map<string, Entry>, key: string, tick: int, interval: int)
    requires key in m && Expired(m[key], tick, interval)
    ensures Lookup(m, key) == (m[key].val, true)
    ensures Lookup(Swept(m, tick, interval), key) == ([], false)
  {
  }

  /** A second store under the same key replaces the first entirely. */
  lemma LastWriteWins(m: map<string, Entry>, key: string, v1: Bytes, n1: int, v2: Bytes, n2: int)
    ensures Inserted(Inserted(m, key, v1, n1), key, v2, n2) == Inserted(m, key, v2, n2)
    ensures Lookup(Inserted(Inserted(m, key, v1, n1), key, v2, n2), key) == (v2, true)
  {
  }

  class Cache {
    /** The stored entries, one per key. */
    var entries: map<string, Entry>
    /** The period of the sweeper and the age beyond which it deletes. */
    const interval: int

    /** `NewCache`: an empty cache whose sweeper will use `interval`. */
    constructor (interval: int)
      ensures entries == map[]
      ensures this.interval == interval
    {
      entries := map[];
      this.interval := interval;
    }

    /** Store `val` under `key`, stamped with `now`. */
    method Add(key: string, val: Bytes, now: int)
      modifies this
      ensures entries == Inserted(old(entries), key, val, now)
    {
      entries := entries[key := Entry(now, val)];
    }

    /** Plain lookup; the entries are not changed and the age is not checked. */
    method Get(key: string) returns (val: Bytes, found: bool)
      ensures (val, found) == Lookup(entries, key)
    {
      if key in entries {
        val, found := entries[key].val, true;
      } else {
        val, found := [], false;
      }
    }

    /** One tick of the sweeper at time `tick`: visit every key and delete
        the entry under it when it is expired. */
    method Sweep(tick: int)
      requires interval > 0
      modifies this
      ensures entries == Swept(old(entries), tick, interval)
    {
      var pending := entries.Keys;
      while pending != {}
        invariant pending <= entries.Keys <= old(entries).Keys
        invariant forall k :: k in entries ==> entries[k] == old(entries)[k]
        invariant forall k :: k in old(entries) ==>
                    (k in entries <==> k in pending || !Expired(old(entries)[k], tick, interval))
        decreases pending
      {
        var key :| key in pending;
        if Expired(entries[key], tick, interval) {
          entries := entries - {key};
        }
        pending := pending - {key};
      }
    }
  }

  /** A miss on a new cache, a store, an overwrite, then a sweep at the
      boundary age of the overwritten entry and one a unit past it. */
  method Scenarios(key: string, other: string, v1: Bytes, v2: Bytes)
    requires key != other
  {
    var c := new Cache(30);
    var val, found := c.Get(key);
    assert !found && val == [];

    c.Add(key, v1, 100);
    val, found := c.Get(key);
    assert found && val == v1;

    c.Add(key, v2, 110);
    val, found := c.Get(key);
    assert found && val == v2;

    c.Add(other, v1, 125);
    c.Sweep(140);
    val, found := c.Get(key);
    assert found && val == v2;

    c.Sweep(141);
    val, found := c.Get(key);
    assert !found;
    val, found := c.Get(other);
    assert found && val == v1;
  }
}
