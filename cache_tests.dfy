/**
 * The scenarios of `DefaultCache`'s unit tests, stated as methods whose postconditions are
 * the tests' assertions. A request key is the list of strings of an enforcement request.
 * Sleeping is modelled by passing a later instant to the next call.
 */
module CacheTests {
  import opened Wrappers
  import opened TtlTable
  import opened Cache

  const Alice: seq<string> := ["alice", "/data1", "read"]
  const Bob: seq<string> := ["bob", "/data2", "write"]
  const Unknow: seq<string> := ["unknow", "/data3", "read_write"]

  /** A value set into a fresh cache of capacity 1 reads back at once, and its key is present. */
  method SetAndGet() returns (got: Option<bool>, has: bool)
    ensures got == Some(false) && has
  {
    var c := new DefaultCache<seq<string>, bool>(1);
    c.Set(Alice, false, 0);
    InsertThenGet([], 1, Alice, false, DefaultTtl, 0);
    got := c.Get(Alice, 0);
    has := c.Has(Alice, 0);
  }

  /**
   * With a TTL of 2 seconds, an entry set at instant 0 still reads back at instant 1 and is
   * gone at instant 3.
   */
  method SetTtl() returns (early: Option<bool>, lateHas: bool)
    ensures early == Some(false)
    ensures !lateHas
  {
    var c := new DefaultCache<seq<string>, bool>(1);
    c.SetTtl(2);
    c.Set(Alice, false, 0);
    InsertThenGet([], 1, Alice, false, 2, 1);
    InsertThenGet([], 1, Alice, false, 2, 3);
    early := c.Get(Alice, 1);
    lateHas := c.Has(Alice, 3);
  }

  /** In a cache of capacity 1, setting a second key evicts the first. */
  method Capacity() returns (hasAlice: bool, hasBob: bool)
    ensures !hasAlice && hasBob
  {
    var c := new DefaultCache<seq<string>, bool>(1);
    c.Set(Alice, false, 0);
    var one := c.entries;
    assert Alice != Bob by { assert Alice[0] != Bob[0]; }
    InsertIntoFullEvictsOldest(one, 1, Bob, false, DefaultTtl);
    c.Set(Bob, false, 0);
    assert c.entries == [Entry(Bob, false, DefaultTtl)];
    hasAlice := c.Has(Alice, 0);
    hasBob := c.Has(Bob, 0);
  }

  /**
   * After the capacity is raised to 2, three distinct keys are set: the oldest is evicted and
   * the two newest are kept.
   */
  method SetCapacity() returns (hasAlice: bool, hasBob: bool, hasUnknow: bool)
    ensures !hasAlice && hasBob && hasUnknow
  {
    var c := new DefaultCache<seq<string>, bool>(1);
    c.SetCapacity(2);
    assert Alice != Bob by { assert Alice[0] != Bob[0]; }
    assert Alice != Unknow by { assert Alice[0] != Unknow[0]; }
    assert Bob != Unknow by { assert Bob[0] != Unknow[0]; }
    c.Set(Alice, false, 0);
    c.Set(Bob, false, 0);
    var two := c.entries;
    assert two == [Entry(Alice, false, DefaultTtl), Entry(Bob, false, DefaultTtl)];
    InsertIntoFullEvictsOldest(two, 2, Unknow, false, DefaultTtl);
    c.Set(Unknow, false, 0);
    assert c.entries == [Entry(Bob, false, DefaultTtl), Entry(Unknow, false, DefaultTtl)];
    hasAlice := c.Has(Alice, 0);
    hasBob := c.Has(Bob, 0);
    hasUnknow := c.Has(Unknow, 0);
    assert c.entries[1].key == Unknow && Live(c.entries[1], 0);
  }
}
