/**
  Sequences of cache operations as seen from one thread: the stores made by
  the request layer and the sweeper's ticks, interleaved in some total
  order. Each step is one of the cache's own operations, a whole sweep
  counting as one step; the lemmas relate what a whole run does to what
  each step promises.
 */
module PokeCacheRuns {
  import opened PokeCache

  /** A state-changing operation on the cache. */
  datatype Op =
    | Insert(key: string, val: Bytes, now: int)
    | Tick(t: int)

  /** The map after one operation, `interval` being the sweeper's. */
  function Step(m: map<string, Entry>, op: Op, interval: int): (r: map<string, Entry>)
  {
    match op
    case Insert(key, val, now) => Inserted(m, key, val, now)
    case Tick(t) => Swept(m, t, interval)
  }

  /** The keys a run stores under. */
  function InsertedKeys(ops: seq<Op>): (r: set<string>)
  {
    if ops == [] then {}
    else (if ops[0].Insert? then {ops[0].key} else {}) + InsertedKeys(ops[1..])
  }

  /** The map after a whole run. It only ever holds keys that were there
      before or were stored during the run. */
  function Run(m: map<string, Entry>, ops: seq<Op>, interval: int): (r: map<string, Entry>)
    ensures r.Keys <= m.Keys + InsertedKeys(ops)
    decreases |ops|
  {
    if ops == [] then m else Run(Step(m, ops[0], interval), ops[1..], interval)
  }

  /** Running one run after another is running their concatenation. */
  lemma {:induction false} RunAppend(m: map<string, Entry>, a: seq<Op>, b: seq<Op>, interval: int)
    ensures Run(m, a + b, interval) == Run(Run(m, a, interval), b, interval)
    decreases |a|
  {
    if a == [] {
      assert a + b == b;
    } else {
      assert (a + b)[0] == a[0];
      assert (a + b)[1..] == a[1..] + b;
      RunAppend(Step(m, a[0], interval), a[1..], b, interval);
    }
  }

  /** The map after the operations `a`, then a store of `val` under `key` at `now`. */
  lemma StoreAfter(m: map<string, Entry>, a: seq<Op>, interval: int, key: string, val: Bytes, now: int)
    ensures Run(m, a + [Insert(key, val, now)], interval) == Inserted(Run(m, a, interval), key, val, now)
  {
    RunAppend(m, a, [Insert(key, val, now)], interval);
    assert [Insert(key, val, now)][1..] == [];
  }

  /** The part of a map under one key. */
  function Project(m: map<string, Entry>, key: string): (r: map<string, Entry>)
    ensures r.Keys == m.Keys * {key}
    ensures key in m ==> r[key] == m[key]
  {
    if key in m then map[key := m[key]] else map[]
  }

  /** The operations of a run that can influence `key`: the stores under it and every tick. */
  function ConcerningKey(ops: seq<Op>, key: string): (r: seq<Op>)
    ensures InsertedKeys(r) <= {key}
  {
    if ops == [] then []
    else if ops[0].Insert? && ops[0].key != key then ConcerningKey(ops[1..], key)
    else [ops[0]] + ConcerningKey(ops[1..], key)
  }

  /** One step seen through one key. */
  lemma ProjectStep(m: map<string, Entry>, op: Op, interval: int, key: string)
    ensures Project(Step(m, op, interval), key) ==
            if op.Insert? && op.key != key then Project(m, key)
            else Step(Project(m, key), op, interval)
  {
  }

  /** Independent keys: what a run leaves under `key` depends only on the
      entry under `key` at the start, the stores under `key` and the ticks. */
  lemma {:induction false} RunIndependentKeys(m: map<string, Entry>, ops: seq<Op>, interval: int, key: string)
    ensures Project(Run(m, ops, interval), key) ==
            Run(Project(m, key), ConcerningKey(ops, key), interval)
    ensures Lookup(Run(m, ops, interval), key) ==
            Lookup(Run(Project(m, key), ConcerningKey(ops, key), interval), key)
    decreases |ops|
  {
    if ops != [] {
      var m' := Step(m, ops[0], interval);
      ProjectStep(m, ops[0], interval, key);
      RunIndependentKeys(m', ops[1..], interval, key);
      if !(ops[0].Insert? && ops[0].key != key) {
        assert ConcerningKey(ops, key)[1..] == ConcerningKey(ops[1..], key);
      }
    }
    var r := Run(m, ops, interval);
    assert key in r <==> key in Project(r, key);
  }

  /** The run restricted to one key, started from that key's entry, never
      holds any other key. */
  lemma {:induction false} RestrictedRunHoldsOnlyKey(m: map<string, Entry>, ops: seq<Op>, interval: int, key: string)
    ensures Run(Project(m, key), ConcerningKey(ops, key), interval).Keys <= {key}
  {
  }

  /** A tick removes every entry that is expired at it, and an entry that is
      gone stays gone unless it is stored again. */
  lemma {:induction false} RunEventualRemoval(m: map<string, Entry>, ops: seq<Op>, interval: int, key: string, t: int)
    requires key in m && key !in InsertedKeys(ops)
    requires Tick(t) in ops && t - m[key].createdAt > interval
    ensures key !in Run(m, ops, interval)
    ensures Lookup(Run(m, ops, interval), key) == ([], false)
    decreases |ops|
  {
    var m' := Step(m, ops[0], interval);
    assert key !in InsertedKeys(ops[1..]);
    if ops[0] == Tick(t) {
      assert key !in m';
    } else if key in m' {
      assert m'[key] == m[key];
      RunEventualRemoval(m', ops[1..], interval, key, t);
    } else {
      assert key !in m'.Keys + InsertedKeys(ops[1..]);
    }
  }

  /** An entry no tick of the run finds expired, and that is not stored
      over, is still there, unchanged, at the end. */
  lemma {:induction false} RunKeepsFresh(m: map<string, Entry>, ops: seq<Op>, interval: int, key: string)
    requires key in m && key !in InsertedKeys(ops)
    requires forall i :: 0 <= i < |ops| && ops[i].Tick? ==> ops[i].t - m[key].createdAt <= interval
    ensures key in Run(m, ops, interval) && Run(m, ops, interval)[key] == m[key]
    ensures Lookup(Run(m, ops, interval), key) == (m[key].val, true)
    decreases |ops|
  {
    if ops != [] {
      var m' := Step(m, ops[0], interval);
      assert ops[0].Tick? ==> ops[0].t - m[key].createdAt <= interval;
      assert key in m' && m'[key] == m[key];
      assert key !in InsertedKeys(ops[1..]);
      forall i | 0 <= i < |ops[1..]| && ops[1..][i].Tick?
        ensures ops[1..][i].t - m'[key].createdAt <= interval
      {
        assert ops[1..][i] == ops[i + 1];
      }
      RunKeepsFresh(m', ops[1..], interval, key);
    }
  }

  /** Every store of the run is stamped no earlier than the last tick
      handled before it, `lastTick` if there is none. A tick itself may be
      handled after a store with a later stamp: the sweeper can receive a
      tick late, and a store can take the lock in between. */
  predicate StoresAfterTicks(ops: seq<Op>, lastTick: int)
    decreases |ops|
  {
    ops == [] ||
    ((ops[0].Insert? ==> lastTick <= ops[0].now) &&
     StoresAfterTicks(ops[1..], if ops[0].Tick? then ops[0].t else lastTick))
  }

  /** The time of the last tick of a run, `since` if it has none. */
  function LastTick(ops: seq<Op>, since: int): (r: int)
    decreases |ops|
  {
    if ops == [] then since
    else LastTick(ops[1..], if ops[0].Tick? then ops[0].t else since)
  }

  /** Every entry of `m` was stored at `bound` or later. */
  predicate StoredSince(m: map<string, Entry>, bound: int)
  {
    forall k :: k in m ==> m[k].createdAt >= bound
  }

  /** Bounded staleness: in a run whose stores are stamped no earlier than
      the tick handled before them, every entry left was stored no earlier
      than `interval` before the last tick. So a hit at time `now` is at most
      `interval` plus the time since the last tick old. */
  lemma {:induction false} RunStaleReadBound(m: map<string, Entry>, ops: seq<Op>, interval: int, lastTick: int)
    requires interval >= 0
    requires StoredSince(m, lastTick - interval)
    requires StoresAfterTicks(ops, lastTick)
    ensures StoredSince(Run(m, ops, interval), LastTick(ops, lastTick) - interval)
    decreases |ops|
  {
    if ops != [] {
      var op := ops[0];
      var m' := Step(m, op, interval);
      var lastTick' := if op.Tick? then op.t else lastTick;
      assert StoredSince(m', lastTick' - interval) by {
        forall k | k in m' ensures m'[k].createdAt >= lastTick' - interval {
          if op.Insert? && k == op.key {
            assert m'[k].createdAt == op.now;
          } else {
            assert k in m && m'[k] == m[k];
          }
        }
      }
      RunStaleReadBound(m', ops[1..], interval, lastTick');
    }
  }

  /** Stored, then swept too late: a body stored under `key` at `now`
      anywhere in a run is gone after a later tick that finds it more than
      `interval` old, unless `key` is stored again in between. */
  lemma StoredThenExpired(m: map<string, Entry>, a: seq<Op>, b: seq<Op>, interval: int,
                          key: string, val: Bytes, now: int, t: int)
    requires key !in InsertedKeys(b)
    requires Tick(t) in b && t - now > interval
    ensures Lookup(Run(m, a + [Insert(key, val, now)] + b, interval), key) == ([], false)
  {
    RunAppend(m, a + [Insert(key, val, now)], b, interval);
    StoreAfter(m, a, interval, key, val, now);
    var stored := Inserted(Run(m, a, interval), key, val, now);
    RunEventualRemoval(stored, b, interval, key, t);
  }

  /** Stored, and every later tick finds it young enough: the lookup at
      the end returns the stored body, unless `key` is stored again. */
  lemma StoredThenHit(m: map<string, Entry>, a: seq<Op>, b: seq<Op>, interval: int,
                      key: string, val: Bytes, now: int)
    requires key !in InsertedKeys(b)
    requires forall i :: 0 <= i < |b| && b[i].Tick? ==> b[i].t - now <= interval
    ensures Lookup(Run(m, a + [Insert(key, val, now)] + b, interval), key) == (val, true)
  {
    RunAppend(m, a + [Insert(key, val, now)], b, interval);
    StoreAfter(m, a, interval, key, val, now);
    var stored := Inserted(Run(m, a, interval), key, val, now);
    RunKeepsFresh(stored, b, interval, key);
  }
}
