/**
 * `DefaultCache`: a bounded key/value cache whose entries expire a fixed time after they
 * were set. It owns a time-to-live table (see module TtlTable) and the TTL that `Set`
 * stamps on new entries. The current time is passed in explicitly, in seconds.
 */
module Cache {
  import opened Wrappers
  import opened TtlTable

  /** The TTL a new cache starts with: 120 seconds. */
  const DefaultTtl: nat := 120

  class DefaultCache<K(==), V> {
    /** The TTL given to entries set from now on. */
    var ttl: nat
    /** The largest number of entries the table holds. */
    var capacity: nat
    /** The stored entries, oldest insertion first. */
    var entries: seq<Entry<K, V>>

    /** The object invariant: a positive capacity that is respected, and one entry per key. */
    ghost predicate Valid()
      reads this
    {
      0 < capacity && |entries| <= capacity && KeysUnique(entries)
    }

    /** A new, empty cache with the requested capacity and the default TTL. */
    constructor (cap: nat)
      requires 0 < cap
      ensures Valid()
      ensures entries == [] && capacity == cap && ttl == DefaultTtl
    {
      ttl := DefaultTtl;
      capacity := cap;
      entries := [];
    }

    /**
     * Changes the capacity. When the cache holds more entries than the new capacity the oldest
     * are evicted; no entry is added and no expiry changes.
     */
    method SetCapacity(cap: nat)
      requires Valid() && 0 < cap
      modifies this
      ensures Valid()
      ensures capacity == cap && ttl == old(ttl)
      ensures entries == Trim(old(entries), cap)
    {
      TrimKeepsUnique(entries, cap);
      entries := Trim(entries, cap);
      capacity := cap;
    }

    /** Changes the TTL used by later `Set`s; the stored entries keep the expiry they were given. */
    method SetTtl(t: nat)
      requires Valid()
      modifies this`ttl
      ensures Valid()
      ensures ttl == t
      ensures entries == old(entries) && capacity == old(capacity)
    {
      ttl := t;
    }

    /** The value stored for `k`, when its entry is still live at `now`; reading changes nothing. */
    function Get(k: K, now: nat): (r: Option<V>)
      reads this
      requires Valid()
      ensures r.Some? <==> exists i :: 0 <= i < |entries| && entries[i].key == k && Live(entries[i], now)
      ensures r.Some? ==> exists i :: 0 <= i < |entries| && entries[i] == Entry(k, r.value, entries[i].expiresAt)
    {
      ContainsKeyIffGet(entries, k, now);
      TtlTable.Get(entries, k, now)
    }

    /** Whether a live entry is stored for `k` at `now`: exactly when `Get` finds a value. */
    predicate Has(k: K, now: nat)
      reads this
      requires Valid()
      ensures Has(k, now) <==> Get(k, now).Some?
    {
      ContainsKeyIffGet(entries, k, now);
      ContainsKey(entries, k, now)
    }

    /**
     * Stores `v` under `k`, expiring `ttl` seconds after `now`. An entry already live for `k`
     * is removed first; the new entry then takes the newest position, evicting the oldest
     * entry when the table is full. What this means for later lookups is stated by the
     * lemmas `InsertInvariant`, `InsertThenGet`, `InsertKeepsOthers`,
     * `InsertIntoFullEvictsOldest` and `ReinsertMovesToNewest` of module TtlTable.
     */
    method Set(k: K, v: V, now: nat)
      requires Valid()
      modifies this`entries
      ensures entries == Insert(old(entries), capacity, k, v, now + ttl)
      ensures Valid()
    {
      var table := entries;
      if Has(k, now) {
        InsertAfterRemove(table, capacity, k, v, now + ttl);
        table := Remove(table, k);
      }
      table := Insert(table, capacity, k, v, now + ttl);
      InsertInvariant(entries, capacity, k, v, now + ttl);
      entries := table;
    }

    /** Removes every entry; the TTL and capacity stay as they are. */
    method Clear()
      requires Valid()
      modifies this`entries
      ensures Valid()
      ensures entries == []
      ensures forall k, now :: !Has(k, now)
    {
      entries := [];
    }
  }
}
