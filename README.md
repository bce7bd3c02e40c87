# Expiring response cache of the Pokédex explorer

This project models the expiring key/value store the command-line Pokédex
explorer keeps between its command layer and the remote API
(`internal/pokecache/pokecache.go`). The store maps a request URL to an entry
holding the raw response body and the time the body was stored.

- `Add` stores a body under a key, stamped with the current time. It replaces
  any earlier entry under that key.
- `Get` is a plain lookup. It returns the body and a found flag, and it never
  looks at the entry's age.
- `NewCache(interval)` makes an empty cache and starts a sweeper. Every
  `interval`, the sweeper deletes each entry whose age at the tick is strictly
  greater than `interval`.

The model runs sequentially. Time is an integer. `now` is an argument of
`Add`, and each tick of the sweeper is an explicit `Sweep(tick)` call.

- `pokecache.dfy` (module `PokeCache`):
  - the `Entry` datatype;
  - three specification functions on maps: `Inserted`, `Lookup` and `Swept`;
  - the lemmas about those functions;
  - the class `Cache`. Its `entries` map is updated in place by `Add`, read by
    `Get`, and shrunk by `Sweep`, whose loop visits the keys and deletes the
    expired ones one at a time.

  The Go `Cache` struct has no interval field: the interval is only the
  argument that `readLoop` receives from `NewCache`. The model keeps that
  argument as the constant field `Cache.interval`, so every sweep uses the
  interval the cache was built with.
- `runs.dfy` (module `PokeCacheRuns`) looks at sequences of operations. A run
  is a sequence of stores and ticks in some total order. The lock makes each
  `Add`, each `Get` and each single delete of a sweep atomic. It does not make
  a whole sweep atomic, but the model treats each sweep as one step. The
  lemmas in this module state what a whole run guarantees:
  - keys are independent of each other;
  - an expired entry is gone after the next tick;
  - an entry that is still fresh survives every tick;
  - in a run whose stores are stamped no earlier than the tick handled
    before them, starting from a map that meets the bound (an empty map
    does), every entry left was stored at most `interval` before the last
    tick, so a hit is at most `interval` plus the time since that tick old.

A lookup on a missing key returns the empty body. This is the Go zero value
of `cacheEntry`, whose `val` is a nil slice.

## Model

| member | source | states |
|---|---|---|
| PokeCache.Inserted | internal/pokecache/pokecache.go:18-25 | storing under a key adds that key, its entry is exactly (now, val), and every other key keeps its entry |
| PokeCache.Lookup | internal/pokecache/pokecache.go:27-32 | found exactly when the key is present, whatever the entry's age; the stored body on a hit, the empty body on a miss |
| PokeCache.Swept | internal/pokecache/pokecache.go:41-46 | a sweep at tick t keeps exactly the keys with t - createdAt <= interval, adds no key, and leaves each surviving entry unchanged |
| PokeCache.SweptShrinks | internal/pokecache/pokecache.go:41-46 | a sweep never makes the cache larger |
| PokeCache.SweptIdempotent | internal/pokecache/pokecache.go:42-44 | sweeping twice at the same tick gives the same map as sweeping once |
| PokeCache.SweptLaterSubsumes | internal/pokecache/pokecache.go:36-47 | after a sweep at t1, a sweep at any later t2 leaves the same map as the sweep at t2 alone |
| PokeCache.SweepBoundary | internal/pokecache/pokecache.go:42 | an entry exactly interval old survives a sweep (strict >), and one a unit older is deleted |
| PokeCache.StaleEntryIsHit | internal/pokecache/pokecache.go:27-46 | an expired entry is still a hit for Get until a sweep deletes it; after that sweep Get misses |
| PokeCache.LastWriteWins | internal/pokecache/pokecache.go:21-24 | two stores under one key leave the same map as the second store alone, and the lookup returns the second body |
| PokeCache.Cache.constructor | internal/pokecache/pokecache.go:51-58 | a new cache has no entries and keeps the interval it is given for its sweeper |
| PokeCache.Cache.Add | internal/pokecache/pokecache.go:18-25 | the new entries are the old ones with (now, val) stored under key |
| PokeCache.Cache.Get | internal/pokecache/pokecache.go:27-32 | returns exactly what Lookup reports on the current entries: found exactly when the key is present, whatever its age, with its body, or the empty body on a miss; changes nothing |
| PokeCache.Cache.Sweep | internal/pokecache/pokecache.go:41-47 | the key-by-key delete loop leaves exactly the sweep of the entries at the tick |
| PokeCacheRuns.Run | internal/pokecache/pokecache.go:18-49 | after any sequence of stores and ticks, the keys are among those present at the start or stored during the run |
| PokeCacheRuns.RunAppend | internal/pokecache/pokecache.go:18-49 | running one sequence of stores and ticks and then another is the same as running the two one after the other |
| PokeCacheRuns.StoreAfter | internal/pokecache/pokecache.go:18-25 | a store at the end of a run leaves the run's map with that store applied |
| PokeCacheRuns.StoredThenExpired | internal/pokecache/pokecache.go:18-48 | a body stored anywhere in a run, and not stored over, makes Get miss after any later tick at which it is more than interval old |
| PokeCacheRuns.StoredThenHit | internal/pokecache/pokecache.go:18-48 | a body stored anywhere in a run, and not stored over, is returned by Get at the end if no later tick finds it more than interval old |
| PokeCacheRuns.ProjectStep | internal/pokecache/pokecache.go:18-46 | a store under another key leaves a key's entry alone, and a store under the key or a tick acts on that key alone |
| PokeCacheRuns.RunIndependentKeys | internal/pokecache/pokecache.go:18-46 | what a run leaves under a key, and what Get then reports, depends only on the stores under that key and on the ticks |
| PokeCacheRuns.RestrictedRunHoldsOnlyKey | internal/pokecache/pokecache.go:18-46 | the run restricted to one key's stores and the ticks, started from that key's entry, never holds any other key |
| PokeCacheRuns.RunEventualRemoval | internal/pokecache/pokecache.go:34-48 | an entry that is not stored over is gone after any tick at which its age exceeds the interval, and Get then misses |
| PokeCacheRuns.RunKeepsFresh | internal/pokecache/pokecache.go:18-48 | an entry that is not stored over and that no tick finds too old is still returned unchanged |
| PokeCacheRuns.RunStaleReadBound | internal/pokecache/pokecache.go:34-48 | in a run whose stores are stamped no earlier than the tick handled before them (a tick may be handled after a store with a later stamp), starting from a map whose entries were all stored at most interval before the starting tick, every remaining entry was stored at most interval before the last tick, so a hit is at most interval plus the time since that tick old |

## Left out

- The sweeper goroutine, the ticker and its channel (`go cache.readLoop`, `time.NewTicker`, the channel receive and its close check) are left out, because they are scheduling. Each tick is an explicit `Sweep(tick)` call, and runs are sequences of stores and ticks.
- The read/write lock is left out. The lock makes `Add`, `Get` and each single delete atomic. The model goes further and treats a whole sweep as one atomic step.
- PokeCacheRuns.RunKeepsFresh: in the source, the sweep tests an entry's age (pokecache.go:42) on the value the unlocked range yielded. It then takes the lock and deletes by key without testing again (lines 43-45). A store that lands between that test and the delete is deleted with it. Take an entry stored at 0, interval 30 and a tick at 100: a store under the same key at 105 that lands in that window is lost. No order of whole stores and whole sweeps loses it. The runs do not capture this race, so this lemma promises a hit that the source can miss.
- PokeCacheRuns.StoredThenHit: for the same reason, this lemma promises a hit that the source misses when the store lands between a sweep's age test and its delete.
- The sweep loop in the source ranges over the map without holding the lock, which is a data race. It has no sequential meaning, so it is not modelled. `Sweep` visits a snapshot of the keys. Its loop keeps every key still to be visited in the live map, adds no key and changes no entry, and the live map loses each expired key as it is deleted.
- `time.Now()`, `time.Time` and `time.Duration` are replaced by unbounded integers. The saturation of `Time.Sub` at the 64-bit nanosecond range is not modelled.
- A non-positive interval makes `time.NewTicker` panic inside the sweeper goroutine. `readLoop` has no `recover`, so the panic ends the whole program. The model does not model that crash: the constructor, like `NewCache`, accepts any interval and returns a usable cache, and `Cache.Sweep` requires `interval > 0` because no tick can happen otherwise.
- Byte slices are stored without a copy in the source. The model keeps bodies as immutable `seq<bv8>`, so aliasing is not modelled.
- The REPL, command table, pagination, output and random catch logic in `main.go` are left out. They are I/O and randomness. They use the cache only through `pokecache.NewCache(30 * time.Second)`.
- The HTTP client, the JSON decoding and the cache-aside wrapper `request` in `internal/pokeapi/pokeapi.go` are left out. They are network I/O. Their only contact with the cache is `Get` and `Add` with the full URL as the key.
