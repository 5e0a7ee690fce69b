# DefaultCache: a verified model

This project models `DefaultCache<K, V>` of casbin-rs (`src/cache/default_cache.rs`). It is a bounded
key/value cache that memoises enforcement decisions, keyed by request tuples such as
`["alice", "/data1", "read"]`. Each entry expires a fixed time after it was set. The cache
keeps a mutable TTL, which starts at 120 seconds, and delegates storage, expiry and capacity
eviction to a time-to-live table (`ttl_cache::TtlCache`).

The project has four modules:

- `Wrappers` (`wrappers.dfy`) defines `Option`, the result type of a lookup.
- `TtlTable` (`ttl_table.dfy`) models the observable behaviour of the time-to-live table.
  - The table is a sequence of `Entry(key, value, expiresAt)`, oldest insertion first.
  - `Get`/`ContainsKey` are lookups that change nothing.
  - `Remove` drops a key.
  - `Trim` evicts the oldest entries down to a capacity.
  - `Insert` removes the key, appends the new entry as the newest, and trims to the capacity.
  - Lemmas state what insertion does to the table's invariant and to later lookups.
- `Cache` (`default_cache.dfy`) has the class `DefaultCache`.
  - Its fields are `ttl`, `capacity` and `entries`.
  - Its object invariant `Valid()` says: the capacity is positive, the table respects it, and no key is stored twice.
  - Its methods `SetCapacity`, `SetTtl`, `Set` and `Clear` update the fields in place.
  - `Get` and `Has` are read-only functions of the state and the current instant.
- `CacheTests` (`cache_tests.dfy`) restates the four unit tests of `default_cache.rs` as methods. Each method's postconditions are that test's assertions. `SetAndGet` also states that `has` holds for the key just set (`has`, default_cache.rs:49-51).

Time is a natural number of seconds, passed explicitly as `now`. An entry set at `now` with
TTL `ttl` expires at `now + ttl`. It is live up to and including that instant and absent strictly after it.

## Model

| member | source | states |
|---|---|---|
| Cache.DefaultCache.constructor | src/cache/default_cache.rs:23-28 | a new cache is empty, has the requested capacity and a TTL of 120 seconds, and satisfies the object invariant |
| Cache.DefaultCache.SetCapacity | src/cache/default_cache.rs:37-39 | the capacity becomes `cap`; the table keeps its newest `cap` entries, oldest evicted first; TTL unchanged; invariant preserved |
| Cache.DefaultCache.SetTtl | src/cache/default_cache.rs:41-43 | only `ttl` changes; the stored entries, with the expiries they were given, and the capacity stay as they were |
| Cache.DefaultCache.Get | src/cache/default_cache.rs:45-47 | a value is found exactly when a live entry for the key is stored, and a found value is the one stored under that key; the state is only read |
| Cache.DefaultCache.Has | src/cache/default_cache.rs:49-51 | true exactly when `Get` finds a value; the state is only read |
| Cache.DefaultCache.Set | src/cache/default_cache.rs:53-58 | the new table is the old one with any entry for `k` removed and `Entry(k, v, now + ttl)` appended as newest, trimmed to the capacity; the invariant (count within capacity, unique keys) is preserved |
| Cache.DefaultCache.Clear | src/cache/default_cache.rs:60-62 | the table becomes empty, so no key is present at any instant; TTL and capacity are outside the method's frame |
| TtlTable.IndexOf | src/cache/default_cache.rs:54-55 | the position of the first entry holding the key, or none when no entry holds it |
| TtlTable.Get | src/cache/default_cache.rs:45-47 | a found value is stored under the key in an entry that is live at `now` |
| TtlTable.ContainsKey | src/cache/default_cache.rs:49-51 | the table's `contains_key`: a live entry for the key is stored; when it holds, a lookup position for the key exists |
| TtlTable.Insert | src/cache/default_cache.rs:57 | the table's `insert`: the result holds at most `cap` entries and at most one more than before; its full effect is stated by the insertion lemmas below |
| TtlTable.Remove | src/cache/default_cache.rs:54-56 | the result is no longer than the input and holds no entry for the key |
| TtlTable.Trim | src/cache/default_cache.rs:37-39 | at most `cap` entries remain: all of them when there were no more than `cap` |
| TtlTable.GetStored | src/cache/default_cache.rs:45-47 | with unique keys, the lookup of a stored key returns that entry's value exactly while it is live |
| TtlTable.ContainsKeyIffGet | src/cache/default_cache.rs:45-51 | `contains_key` holds exactly when `get` finds a value |
| TtlTable.ExpiredStaysAbsent | src/cache/default_cache.rs:82-95 | with `Live` (live up to and including the expiry instant), a key absent at one instant stays absent at every later one |
| TtlTable.GetSameEntries | src/cache/default_cache.rs:45-47 | two tables holding the same entries for a key answer the same lookup for it |
| TtlTable.RemoveAbsent | src/cache/default_cache.rs:54-56 | removing a key that is not stored changes nothing |
| TtlTable.RemoveAt | src/cache/default_cache.rs:54-56 | with unique keys, removing a stored key cuts out exactly its entry and keeps the others in order |
| TtlTable.RemovePreservesUnique | src/cache/default_cache.rs:54-56 | removal keeps keys unique |
| TtlTable.RemoveSubset | src/cache/default_cache.rs:54-56 | removal adds no entry |
| TtlTable.RemoveKeeps | src/cache/default_cache.rs:54-56 | removal keeps every entry of another key |
| TtlTable.RemoveIdempotent | src/cache/default_cache.rs:54-56 | removing a key twice equals removing it once |
| TtlTable.InsertAfterRemove | src/cache/default_cache.rs:53-58 | removing the key before inserting it changes nothing, so `set`'s conditional remove agrees with a bare insert |
| TtlTable.RemoveLength | src/cache/default_cache.rs:54-56 | with unique keys, removal shortens the table by one exactly when the key is stored |
| TtlTable.TrimKeepsUnique | src/cache/default_cache.rs:37-39 | evicting the oldest entries keeps keys unique and adds no entry |
| TtlTable.InsertInvariant | src/cache/default_cache.rs:53-58 | after `set` the table is non-empty and within capacity, keys are unique, the new entry is the newest and the only one for its key, and every other entry was already stored, with its own expiry |
| TtlTable.InsertThenGet | src/cache/default_cache.rs:53-58 | right after `set(k, v)`, `get(k)` returns `v` up to the new expiry and nothing after it |
| TtlTable.InsertKeepsOthers | src/cache/default_cache.rs:53-58 | a `set` that evicts nothing (the key was stored, or there was room) leaves the lookup of every other key unchanged |
| TtlTable.InsertIntoFullEvictsOldest | src/cache/default_cache.rs:53-58 | setting a new key in a full table evicts exactly the oldest entry |
| TtlTable.ReinsertMovesToNewest | src/cache/default_cache.rs:54-57 | re-setting a stored key evicts nothing: the other entries keep their order and the key moves to the newest position with its new value and expiry |
| CacheTests.SetAndGet | src/cache/default_cache.rs:72-79 | in a fresh cache of capacity 1, `set` then `get` of the same key returns the value, and `has` holds |
| CacheTests.SetTtl | src/cache/default_cache.rs:82-95 | with TTL 2 set at instant 0, the entry is returned at instant 1 and absent at instant 3 |
| CacheTests.Capacity | src/cache/default_cache.rs:98-107 | with capacity 1, setting a second key evicts the first |
| CacheTests.SetCapacity | src/cache/default_cache.rs:110-124 | after `set_capacity(2)`, setting three keys leaves the second and third and evicts the first |

## Left out

- Asynchrony and sharing: `async fn`, `async_trait`, `task::block_on` and the `Send`/`Sync` bounds. Every operation is a synchronous method on one object.
- `Box<dyn Cache<K, V>>` packaging: the constructor returns the object itself.
- Wall-clock time (`Duration`, `Instant`, `sleep`): time is an explicit natural number of seconds.
  - The boundary choice is live while `now <= expiresAt`. It is consistent with the TTL test (live at +1, absent at +3 with TTL 2).
  - Sub-second durations and `Duration`'s overflow are not modelled.
  - `usize` capacity limits are not modelled either.
- The internals of `ttl_cache::TtlCache`: hashing, the linked hash map, and the physical purging of expired entries.
  - The model keeps expired entries in the table until they are evicted or replaced. They are invisible to `Get` and `Has`.
  - If the library purges expired entries when the table overflows, it may keep a live entry that the model evicts as the oldest.
- Cache.DefaultCache.SetCapacity: the shrink policy of the library is not visible. The model evicts the oldest insertions first, the same policy as overflow on insertion.
- Cache.DefaultCache.constructor: requires a positive capacity. Zero capacity is neither rejected nor tested by the source and is treated as a configuration error.
- Cache.DefaultCache.SetCapacity: requires a positive capacity, so `set_capacity(0)`, which the source accepts, is not modelled, for the same reason.
- Cache.DefaultCache.Set: its contract states the new table, not the lookups. What `Get`/`Has` answer afterwards is proved about that table by `InsertThenGet`, `InsertKeepsOthers`, `InsertIntoFullEvictsOldest` and `ReinsertMovesToNewest`.
- The value `insert` returns (the previous live value) is discarded by `set` and is not modelled.
