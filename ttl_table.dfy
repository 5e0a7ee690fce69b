/**
 * The observable contract of the time-to-live table that `DefaultCache` delegates to
 * (`ttl_cache::TtlCache`): an insertion-ordered sequence of entries, oldest first, each
 * carrying the absolute instant at which it expires. Reads never reorder or prune the
 * sequence; `Insert` replaces the entry for its key by a new newest one and evicts the
 * oldest entry when the table would hold more than its capacity.
 *
 * Time is a natural number of seconds supplied by the caller.
 */
module TtlTable {
  import opened Wrappers

  datatype Entry<K, V> = Entry(key: K, value: V, expiresAt: nat)

  /** An entry is live up to and including its expiry instant, and expired strictly after it. */
  predicate Live<K, V>(e: Entry<K, V>, now: nat) {
    now <= e.expiresAt
  }

  /** The entries at positions `i` and `j` hold different keys. */
  predicate KeysDiffer<K(==), V>(s: seq<Entry<K, V>>, i: nat, j: nat)
    requires i < |s| && j < |s|
  {
    s[i].key != s[j].key
  }

  /** No key is stored twice. */
  predicate KeysUnique<K(==), V>(s: seq<Entry<K, V>>) {
    forall i, j :: 0 <= i < j < |s| ==> KeysDiffer(s, i, j)
  }

  /** Every suffix of a table with unique keys has unique keys. */
  lemma UniqueSuffix<K, V>(s: seq<Entry<K, V>>, a: nat)
    requires KeysUnique(s) && a <= |s|
    ensures KeysUnique(s[a..])
  {
    forall i, j | 0 <= i < j < |s| - a ensures KeysDiffer(s[a..], i, j) {
      assert KeysDiffer(s, a + i, a + j);
    }
  }

  /** The position of the oldest entry stored for `k`, if any. */
  function IndexOf<K(==), V>(s: seq<Entry<K, V>>, k: K): (r: Option<nat>)
    ensures r.Some? ==> r.value < |s| && s[r.value].key == k
    ensures r.Some? ==> forall j :: 0 <= j < r.value ==> s[j].key != k
    ensures r.None? ==> forall j :: 0 <= j < |s| ==> s[j].key != k
  {
    if |s| == 0 then None
    else if s[0].key == k then Some(0)
    else match IndexOf(s[1..], k)
      case None => None
      case Some(i) => Some(i + 1)
  }

  /** The table's `get`: the value stored for `k` when its entry is still live at `now`. */
  function Get<K(==), V>(s: seq<Entry<K, V>>, k: K, now: nat): (r: Option<V>)
    ensures r.Some? ==> exists i :: 0 <= i < |s| && s[i] == Entry(k, r.value, s[i].expiresAt) && Live(s[i], now)
  {
    match IndexOf(s, k)
    case None => None
    case Some(i) => if Live(s[i], now) then Some(s[i].value) else None
  }

  /** The table's `contains_key`: some live entry is stored for `k`. */
  predicate ContainsKey<K(==), V>(s: seq<Entry<K, V>>, k: K, now: nat)
    ensures ContainsKey(s, k, now) ==> IndexOf(s, k).Some?
  {
    exists i :: 0 <= i < |s| && s[i].key == k && Live(s[i], now)
  }

  /** The table's `remove`: drops every entry stored for `k` and keeps the others in order. */
  function Remove<K(==), V>(s: seq<Entry<K, V>>, k: K): (r: seq<Entry<K, V>>)
    ensures |r| <= |s|
    ensures forall i :: 0 <= i < |r| ==> r[i].key != k
  {
    if |s| == 0 then []
    else if s[0].key == k then Remove(s[1..], k)
    else [s[0]] + Remove(s[1..], k)
  }

  /** Evicts the oldest entries until at most `cap` remain. */
  function Trim<K, V>(s: seq<Entry<K, V>>, cap: nat): (r: seq<Entry<K, V>>)
    ensures |r| == if |s| <= cap then |s| else cap
  {
    if |s| <= cap then s else s[|s| - cap..]
  }

  /**
   * The table's `insert`: the entry for `k` (if any) is replaced by a new entry in the
   * newest position, and if the table then holds more than `cap` entries the oldest goes.
   */
  function Insert<K(==), V>(s: seq<Entry<K, V>>, cap: nat, k: K, v: V, expiresAt: nat): (r: seq<Entry<K, V>>)
    ensures |r| <= cap && |r| <= |s| + 1
  {
    Trim(Remove(s, k) + [Entry(k, v, expiresAt)], cap)
  }

  // ---------------------------------------------------------------------------------------
  // Lookups

  /** With unique keys, the lookup of a stored key is decided by that key's one entry. */
  lemma GetStored<K, V>(s: seq<Entry<K, V>>, i: nat, now: nat)
    requires KeysUnique(s) && i < |s|
    ensures Get(s, s[i].key, now) == if Live(s[i], now) then Some(s[i].value) else None
  {
    var j := IndexOf(s, s[i].key);
    assert j.Some?;
    assert j.value < i ==> !KeysDiffer(s, j.value, i);
  }

  /** `contains_key` holds exactly when `get` finds a value. */
  lemma ContainsKeyIffGet<K, V>(s: seq<Entry<K, V>>, k: K, now: nat)
    requires KeysUnique(s)
    ensures ContainsKey(s, k, now) <==> Get(s, k, now).Some?
  {
    if ContainsKey(s, k, now) {
      var i :| 0 <= i < |s| && s[i].key == k && Live(s[i], now);
      GetStored(s, i, now);
    }
  }

  /** Once an entry has expired it stays absent: lookups never come back to life as time passes. */
  lemma ExpiredStaysAbsent<K, V>(s: seq<Entry<K, V>>, k: K, t1: nat, t2: nat)
    requires t1 <= t2 && Get(s, k, t1).None?
    ensures Get(s, k, t2).None?
  {
  }

  /** Two tables that hold the same entries for `k` answer the same for `k`. */
  lemma GetSameEntries<K, V>(s1: seq<Entry<K, V>>, s2: seq<Entry<K, V>>, k: K, now: nat)
    requires KeysUnique(s1) && KeysUnique(s2)
    requires forall e: Entry<K, V> :: e.key == k ==> (e in s1 <==> e in s2)
    ensures Get(s1, k, now) == Get(s2, k, now)
  {
    if i :| 0 <= i < |s1| && s1[i].key == k {
      assert s1[i] in s2;
      var j :| 0 <= j < |s2| && s2[j] == s1[i];
      GetStored(s1, i, now);
      GetStored(s2, j, now);
    }
  }

  // ---------------------------------------------------------------------------------------
  // Removal

  /** Removing a key that is not stored changes nothing. */
  lemma {:induction false} RemoveAbsent<K, V>(s: seq<Entry<K, V>>, k: K)
    requires forall j :: 0 <= j < |s| ==> s[j].key != k
    ensures Remove(s, k) == s
  {
    if |s| > 0 {
      RemoveAbsent(s[1..], k);
      assert s == [s[0]] + s[1..];
    }
  }

  /** With unique keys, removing a stored key cuts exactly its one entry out, keeping the order. */
  lemma {:induction false} RemoveAt<K, V>(s: seq<Entry<K, V>>, i: nat)
    requires KeysUnique(s) && i < |s|
    ensures Remove(s, s[i].key) == s[..i] + s[i + 1..]
  {
    var k := s[i].key;
    if i == 0 {
      forall j | 0 <= j < |s| - 1 ensures s[1..][j].key != k {
        assert KeysDiffer(s, 0, j + 1);
      }
      RemoveAbsent(s[1..], k);
    } else {
      assert KeysDiffer(s, 0, i);
      UniqueSuffix(s, 1);
      RemoveAt(s[1..], i - 1);
      assert s[1..][i - 1].key == k;
      assert s[1..][..i - 1] + s[1..][i..] == s[1..i] + s[i + 1..];
      assert [s[0]] + s[1..i] == s[..i];
    }
  }

  /** Removal keeps the keys unique. */
  lemma {:induction false} RemovePreservesUnique<K, V>(s: seq<Entry<K, V>>, k: K)
    requires KeysUnique(s)
    ensures KeysUnique(Remove(s, k))
  {
    if |s| > 0 {
      UniqueSuffix(s, 1);
      RemovePreservesUnique(s[1..], k);
      var rest := Remove(s[1..], k);
      if s[0].key != k {
        var r := [s[0]] + rest;
        forall i, j | 0 <= i < j < |r| ensures KeysDiffer(r, i, j) {
          if i == 0 {
            RemoveSubset(s[1..], k, j - 1);
            var m :| 0 <= m < |s| - 1 && s[1..][m] == rest[j - 1];
            assert KeysDiffer(s, 0, m + 1);
          } else {
            assert KeysDiffer(rest, i - 1, j - 1);
          }
        }
      }
    }
  }

  /** Removal adds no entry. */
  lemma {:induction false} RemoveSubset<K, V>(s: seq<Entry<K, V>>, k: K, i: nat)
    requires i < |Remove(s, k)|
    ensures Remove(s, k)[i] in s
  {
    if s[0].key == k {
      RemoveSubset(s[1..], k, i);
    } else if i > 0 {
      RemoveSubset(s[1..], k, i - 1);
    }
  }

  /** Removal keeps every entry stored for another key. */
  lemma {:induction false} RemoveKeeps<K, V>(s: seq<Entry<K, V>>, k: K, i: nat)
    requires i < |s| && s[i].key != k
    ensures s[i] in Remove(s, k)
  {
    if i > 0 {
      RemoveKeeps(s[1..], k, i - 1);
    }
  }

  /** Removing a key twice is the same as removing it once. */
  lemma RemoveIdempotent<K, V>(s: seq<Entry<K, V>>, k: K)
    ensures Remove(Remove(s, k), k) == Remove(s, k)
  {
    var r := Remove(s, k);
    RemoveAbsent(r, k);
  }

  /** Removing a key before inserting it makes no difference to the insertion. */
  lemma InsertAfterRemove<K, V>(s: seq<Entry<K, V>>, cap: nat, k: K, v: V, expiresAt: nat)
    ensures Insert(Remove(s, k), cap, k, v, expiresAt) == Insert(s, cap, k, v, expiresAt)
  {
    RemoveIdempotent(s, k);
  }

  /** With unique keys, removal shortens the table by one exactly when the key is stored. */
  lemma RemoveLength<K, V>(s: seq<Entry<K, V>>, k: K)
    requires KeysUnique(s)
    ensures |Remove(s, k)| == if IndexOf(s, k).Some? then |s| - 1 else |s|
  {
    match IndexOf(s, k)
    case Some(i) => RemoveAt(s, i);
    case None => RemoveAbsent(s, k);
  }

  // ---------------------------------------------------------------------------------------
  // Insertion

  /** Evicting the oldest entries keeps the keys unique and adds no entry. */
  lemma TrimKeepsUnique<K, V>(s: seq<Entry<K, V>>, cap: nat)
    requires KeysUnique(s)
    ensures KeysUnique(Trim(s, cap))
    ensures forall i :: 0 <= i < |Trim(s, cap)| ==> Trim(s, cap)[i] in s
  {
    UniqueSuffix(s, |s| - |Trim(s, cap)|);
  }

  /**
   * After an insertion into a table that respects its capacity, the table still respects it,
   * keys stay unique, the new entry is the newest and the only one for its key, and every
   * other entry is one that was already stored (with the expiry it was stored with).
   */
  lemma InsertInvariant<K, V>(s: seq<Entry<K, V>>, cap: nat, k: K, v: V, expiresAt: nat)
    requires 0 < cap && |s| <= cap && KeysUnique(s)
    ensures var r := Insert(s, cap, k, v, expiresAt);
      && 0 < |r| <= cap
      && KeysUnique(r)
      && r[|r| - 1] == Entry(k, v, expiresAt)
      && (forall i :: 0 <= i < |r| - 1 ==> r[i].key != k)
      && (forall i :: 0 <= i < |r| - 1 ==> r[i] in s)
  {
    var removed := Remove(s, k);
    var t := removed + [Entry(k, v, expiresAt)];
    RemovePreservesUnique(s, k);
    forall i, j | 0 <= i < j < |t| ensures KeysDiffer(t, i, j) {
      if j < |t| - 1 {
        assert KeysDiffer(removed, i, j);
      }
    }
    TrimKeepsUnique(t, cap);
    var r := Trim(t, cap);
    forall i | 0 <= i < |r| - 1 ensures r[i] in s {
      RemoveSubset(s, k, |t| - |r| + i);
    }
  }

  /** Right after an insertion the key reads as the new value until its expiry, and absent after. */
  lemma InsertThenGet<K, V>(s: seq<Entry<K, V>>, cap: nat, k: K, v: V, expiresAt: nat, now: nat)
    requires 0 < cap && |s| <= cap && KeysUnique(s)
    ensures Get(Insert(s, cap, k, v, expiresAt), k, now) == if now <= expiresAt then Some(v) else None
  {
    var r := Insert(s, cap, k, v, expiresAt);
    InsertInvariant(s, cap, k, v, expiresAt);
    GetStored(r, |r| - 1, now);
  }

  /**
   * An insertion that evicts nothing (the key was stored, or there was room) leaves the
   * lookup of every other key as it was.
   */
  lemma InsertKeepsOthers<K, V>(s: seq<Entry<K, V>>, cap: nat, k: K, v: V, expiresAt: nat, k': K, now: nat)
    requires 0 < cap && |s| <= cap && KeysUnique(s)
    requires IndexOf(s, k).Some? || |s| < cap
    requires k' != k
    ensures Get(Insert(s, cap, k, v, expiresAt), k', now) == Get(s, k', now)
  {
    var r := Insert(s, cap, k, v, expiresAt);
    var removed := Remove(s, k);
    RemoveLength(s, k);
    assert r == removed + [Entry(k, v, expiresAt)];
    match IndexOf(s, k')
    case None =>
      forall i | 0 <= i < |r| ensures r[i].key != k' {
        if i < |removed| {
          RemoveSubset(s, k, i);
        }
      }
    case Some(j) =>
      InsertInvariant(s, cap, k, v, expiresAt);
      RemoveKeeps(s, k, j);
      var m :| 0 <= m < |removed| && removed[m] == s[j];
      assert r[m] == s[j];
      GetStored(r, m, now);
      GetStored(s, j, now);
  }

  /** Inserting a new key into a full table evicts exactly the oldest entry. */
  lemma InsertIntoFullEvictsOldest<K, V>(s: seq<Entry<K, V>>, cap: nat, k: K, v: V, expiresAt: nat)
    requires 0 < cap && |s| == cap && KeysUnique(s)
    requires IndexOf(s, k).None?
    ensures Insert(s, cap, k, v, expiresAt) == s[1..] + [Entry(k, v, expiresAt)]
  {
    RemoveAbsent(s, k);
    var t := s + [Entry(k, v, expiresAt)];
    assert Trim(t, cap) == t[1..];
    assert t[1..] == s[1..] + [Entry(k, v, expiresAt)];
  }

  /** Re-inserting a stored key never evicts: the table keeps its size and its other entries in order. */
  lemma ReinsertMovesToNewest<K, V>(s: seq<Entry<K, V>>, cap: nat, i: nat, v: V, expiresAt: nat)
    requires 0 < cap && |s| <= cap && KeysUnique(s) && i < |s|
    ensures Insert(s, cap, s[i].key, v, expiresAt) == s[..i] + s[i + 1..] + [Entry(s[i].key, v, expiresAt)]
  {
    RemoveAt(s, i);
  }
}
