/**
 * Clients of `HashMapJC` that replay the unit tests of the original, for any
 * hash function: each test method's postcondition is what the test asserts,
 * proved from the table's contracts alone. The tests use a table of 10 slots;
 * the test of one key stored three times is proved for every capacity of at
 * least 4.
 */
module Scenarios {
  import opened Probing
  import TableFacts
  import opened HashMap

  /** `set(key, value)` followed by `get(key)`. */
  method SetThenGet(table: HashMapJC<int>, key: string, value: int) returns (ok: bool, got: Option<int>)
    requires table.Valid()
    modifies table, table.values, table.keys, table.zombieIndicator
    ensures table.Valid()
    ensures ok <==> old(Count(table.slots)) < table.capacity
    ensures ok ==> table.slots == Inserted(old(table.slots), table.hash, key, value)
    ensures table.numElements == old(table.numElements) + if ok then 1 else 0
    ensures got == Lookup(table.slots, table.hash, key)
  {
    ok := table.Set(key, value);
    got := table.Get(key);
  }

  /** `contains(key)`, then `delete(key)`, then `get(key)`. */
  method DeleteStep(table: HashMapJC<int>, key: string) returns (contained: bool, got: Option<int>)
    requires table.Valid()
    modifies table, table.values, table.keys, table.zombieIndicator
    ensures table.Valid()
    ensures table.slots == Removed(old(table.slots), table.hash, key)
    ensures contained <==> old(Lookup(table.slots, table.hash, key)).Some?
    ensures table.numElements == old(table.numElements) - if contained then 1 else 0
    ensures got == Lookup(table.slots, table.hash, key)
  {
    ghost var probes: nat;
    contained, probes := table.Contains(key);
    var removed := table.Delete(key);
    got := table.Get(key);
  }

  /** Calls `set(key, value)` `times` times on a table with room for them all. */
  method SetRepeatedly(table: HashMapJC<int>, key: string, value: int, times: nat)
    requires table.Valid() && table.numElements + times <= table.capacity
    modifies table, table.values, table.keys, table.zombieIndicator
    ensures table.Valid() && table.numElements == old(table.numElements) + times
  {
    for k := 0 to times
      invariant table.Valid() && table.numElements == old(table.numElements) + k
    {
      var ok := table.Set(key, value);
    }
  }

  /** A new table is empty. */
  method NewEmpty(hash: string -> int) returns (empty: bool)
    ensures empty
  {
    var table := new HashMapJC<int>(10, hash);
    empty := table.IsEmpty();
  }

  /** After one `set` the table is not empty; deleting that key empties it again. */
  method SetDeleteEmpty(hash: string -> int) returns (emptyAfterSet: bool, emptyAfterDelete: bool)
    ensures !emptyAfterSet && emptyAfterDelete
  {
    var table := new HashMapJC<int>(10, hash);
    TableFacts.UnusedTable<int>(10, hash, "first");
    var ok := table.Set("first", 1);
    emptyAfterSet := table.IsEmpty();
    TableFacts.LookupAfterInsertFresh(Unused<int>(10), hash, "first", 1);
    var removed := table.Delete("first");
    emptyAfterDelete := table.IsEmpty();
  }

  /** The value just stored under a fresh key is what `get` returns. */
  method SetGetEqual(hash: string -> int) returns (a: Option<int>, b: Option<int>, c: Option<int>)
    ensures a == Some(1) && b == Some(2) && c == Some(3)
  {
    var table := new HashMapJC<int>(10, hash);
    ghost var s0 := table.slots;
    TableFacts.UnusedTable<int>(10, hash, "first");
    TableFacts.UnusedTable<int>(10, hash, "second");
    TableFacts.UnusedTable<int>(10, hash, "third");
    var ok;
    ok, a := SetThenGet(table, "first", 1);
    TableFacts.LookupAfterInsertFresh(s0, hash, "first", 1);

    ghost var s1 := table.slots;
    TableFacts.InsertedLive(s0, hash, "first", 1, "second");
    ok, b := SetThenGet(table, "second", 2);
    TableFacts.LookupAfterInsertFresh(s1, hash, "second", 2);

    ghost var s2 := table.slots;
    TableFacts.InsertedLive(s0, hash, "first", 1, "third");
    TableFacts.InsertedLive(s1, hash, "second", 2, "third");
    ok, c := SetThenGet(table, "third", 3);
    TableFacts.LookupAfterInsertFresh(s2, hash, "third", 3);
  }

  /** A key that was never stored is neither returned nor deleted. */
  method NotContains(hash: string -> int) returns (got: Option<int>, removed: Option<int>)
    ensures got == None && removed == None
  {
    var table := new HashMapJC<int>(10, hash);
    TableFacts.UnusedTable<int>(10, hash, "first");
    var ok := table.Set("second", 2);
    TableFacts.LookupAfterInsertOther(Unused<int>(10), hash, "second", 2, "first");
    got := table.Get("first");
    removed := table.Delete("first");
  }

  /** The opening of the test of one key stored three times: `contains`, `set`, `get`, `contains`. */
  method SameKeyFirst(hash: string -> int, capacity: nat)
    returns (table: HashMapJC<int>, got: Option<int>, contained: seq<bool>)
    requires capacity >= 4
    ensures fresh(table) && fresh(table.values) && fresh(table.keys) && fresh(table.zombieIndicator)
    ensures table.Valid() && table.capacity == capacity && table.hash == hash && table.numElements == 1
    ensures table.slots == Inserted(Unused(capacity), hash, "first", 1)
    ensures got == Some(1) && contained == [false, true]
  {
    table := new HashMapJC<int>(capacity, hash);
    TableFacts.UnusedTable<int>(capacity, hash, "first");
    var c1: bool;
    ghost var probes: nat;
    c1, probes := table.Contains("first");
    var ok;
    ok, got := SetThenGet(table, "first", 1);
    TableFacts.LookupAfterInsertFresh(Unused<int>(capacity), hash, "first", 1);
    var c2;
    c2, probes := table.Contains("first");
    contained := [c1, c2];
  }

  /** The first part of the test of one key stored three times: `contains`, three `set`s, `get`s. */
  method SameKeyStore(hash: string -> int, capacity: nat)
    returns (table: HashMapJC<int>, gets: seq<Option<int>>, contained: seq<bool>, count: int,
             ghost f1: nat, ghost f2: nat, ghost f3: nat)
    requires capacity >= 4
    ensures fresh(table) && fresh(table.values) && fresh(table.keys) && fresh(table.zombieIndicator)
    ensures table.Valid() && table.capacity == capacity && table.hash == hash && table.numElements == 3
    ensures TableFacts.ThreeInProbeOrder(table.slots, hash, "first", f1, f2, f3)
    ensures
      var b := Home(hash, "first", capacity);
      At(table.slots, b, f1).value == 1 && At(table.slots, b, f2).value == 11 &&
      At(table.slots, b, f3).value == 111
    ensures !Live(table.slots, "second")
    ensures gets == [Some(1), Some(1), Some(1)] && contained == [false, true] && count == 3
  {
    ghost var s0: seq<Slot<int>> := Unused(capacity);
    var g1;
    table, g1, contained := SameKeyFirst(hash, capacity);
    ghost var s1 := table.slots;
    var ok, g2 := SetThenGet(table, "first", 11);
    ghost var s2 := table.slots;
    assert Zombie !in s1;
    TableFacts.LookupAfterInsertDuplicate(s1, hash, "first", 11);

    var g3;
    ok, g3 := SetThenGet(table, "first", 111);
    f1, f2, f3 := TableFacts.ThreeInsertsInProbeOrder(s0, hash, "first", 1, 11, 111);
    TableFacts.DeletesInProbeOrder(table.slots, hash, "first", f1, f2, f3);
    gets := [g1, g2, g3];
    count := table.GetNumElements();
    TableFacts.UnusedTable<int>(capacity, hash, "second");
    TableFacts.InsertedLive(s0, hash, "first", 1, "second");
    TableFacts.InsertedLive(s1, hash, "first", 11, "second");
    TableFacts.InsertedLive(s2, hash, "first", 111, "second");
  }

  /** The middle part: a `set` and a `delete` of another key leave the three entries as they were. */
  method SameKeyOther(table: HashMapJC<int>, ghost f1: nat, ghost f2: nat, ghost f3: nat)
    returns (gets: seq<Option<int>>, counts: seq<int>)
    requires table.Valid() && table.capacity >= 4 && table.numElements == 3
    requires TableFacts.ThreeInProbeOrder(table.slots, table.hash, "first", f1, f2, f3)
    requires
      var b := Home(table.hash, "first", table.capacity);
      At(table.slots, b, f1).value == 1 && At(table.slots, b, f2).value == 11 &&
      At(table.slots, b, f3).value == 111
    requires !Live(table.slots, "second")
    modifies table, table.values, table.keys, table.zombieIndicator
    ensures table.Valid() && table.numElements == 3
    ensures TableFacts.ThreeInProbeOrder(table.slots, table.hash, "first", f1, f2, f3)
    ensures
      var b := Home(table.hash, "first", table.capacity);
      At(table.slots, b, f1).value == 1 && At(table.slots, b, f2).value == 11 &&
      At(table.slots, b, f3).value == 111
    ensures gets == [Some(2), Some(1), Some(1)] && counts == [4, 3]
  {
    ghost var hash := table.hash;
    ghost var s3 := table.slots;
    var ok, g1 := SetThenGet(table, "second", 2);
    ghost var s4 := table.slots;
    var n1 := table.GetNumElements();
    TableFacts.LookupAfterInsertFresh(s3, hash, "second", 2);
    TableFacts.InsertKeepsOrder(s3, hash, "first", f1, f2, f3, "second", 2);
    TableFacts.DeletesInProbeOrder(s4, hash, "first", f1, f2, f3);
    var g2 := table.Get("first");

    var removed := table.Delete("second");
    var n2 := table.GetNumElements();
    TableFacts.RemoveKeepsOrder(s4, hash, "first", f1, f2, f3, "second");
    TableFacts.DeletesInProbeOrder(table.slots, hash, "first", f1, f2, f3);
    var g3 := table.Get("first");
    gets := [g1, g2, g3];
    counts := [n1, n2];
  }

  /** The last part: successive `delete`s expose 11, then 111, then nothing, and empty the table. */
  method SameKeyDelete(table: HashMapJC<int>, ghost f1: nat, ghost f2: nat, ghost f3: nat)
    returns (gets: seq<Option<int>>, contained: seq<bool>, emptyAtEnd: bool)
    requires table.Valid() && table.numElements == 3
    requires TableFacts.ThreeInProbeOrder(table.slots, table.hash, "first", f1, f2, f3)
    requires
      var b := Home(table.hash, "first", table.capacity);
      At(table.slots, b, f1).value == 1 && At(table.slots, b, f2).value == 11 &&
      At(table.slots, b, f3).value == 111
    modifies table, table.values, table.keys, table.zombieIndicator
    ensures gets == [Some(11), Some(111)] && contained == [true, true, true, false] && emptyAtEnd
  {
    TableFacts.DeletesInProbeOrder(table.slots, table.hash, "first", f1, f2, f3);
    var c1, g1 := DeleteStep(table, "first");
    var c2, g2 := DeleteStep(table, "first");
    var c3, g3 := DeleteStep(table, "first");
    var c4: bool;
    ghost var probes: nat;
    c4, probes := table.Contains("first");
    emptyAtEnd := table.IsEmpty();
    gets := [g1, g2];
    contained := [c1, c2, c3, c4];
  }

  /**
   * Three values under one key come back nearest-first through `get` and
   * successive `delete`s, and a `set` and `delete` of another key in between
   * changes none of that.
   */
  method SameKey(hash: string -> int, capacity: nat)
    returns (gets: seq<Option<int>>, contained: seq<bool>, counts: seq<int>, emptyAtEnd: bool)
    requires capacity >= 4
    ensures gets == [Some(1), Some(1), Some(1), Some(2), Some(1), Some(1), Some(11), Some(111)]
    ensures contained == [false, true, true, true, true, false]
    ensures counts == [3, 4, 3]
    ensures emptyAtEnd
  {
    var table, gets1, contained1, count, f1, f2, f3 := SameKeyStore(hash, capacity);
    var gets2, counts2 := SameKeyOther(table, f1, f2, f3);
    var gets3, contained3;
    gets3, contained3, emptyAtEnd := SameKeyDelete(table, f1, f2, f3);
    gets := gets1 + gets2 + gets3;
    contained := contained1 + contained3;
    counts := [count] + counts2;
  }

  /** The table is full after ten `set`s of one key, and not after one, three or six. */
  method Full(hash: string -> int) returns (fullAfter: seq<bool>)
    ensures fullAfter == [false, false, false, true]
  {
    var table := new HashMapJC<int>(10, hash);
    SetRepeatedly(table, "first", 1, 1);
    var f1 := table.IsFull();
    SetRepeatedly(table, "first", 1, 2);
    var f2 := table.IsFull();
    SetRepeatedly(table, "first", 1, 3);
    var f3 := table.IsFull();
    SetRepeatedly(table, "first", 1, 4);
    var f4 := table.IsFull();
    fullAfter := [f1, f2, f3, f4];
  }

  /** The load factor is 0, then 0.5 after five `set`s, then 1 after ten. */
  method LoadFactor(hash: string -> int) returns (loads: seq<real>)
    ensures loads == [0.0, 0.5, 1.0]
  {
    var table := new HashMapJC<int>(10, hash);
    var l1 := table.Load();
    SetRepeatedly(table, "first", 1, 5);
    var l2 := table.Load();
    SetRepeatedly(table, "first", 1, 5);
    var l3 := table.Load();
    loads := [l1, l2, l3];
  }

  /** `get` and `delete` on an empty table return nothing. */
  method GetDeleteEmpty(hash: string -> int) returns (got: Option<int>, removed: Option<int>)
    ensures got == None && removed == None
  {
    var table := new HashMapJC<int>(10, hash);
    TableFacts.UnusedTable<int>(10, hash, "first");
    got := table.Get("first");
    removed := table.Delete("first");
  }

  /** Ten `set`s of one key fill a table of ten slots; the eleventh fails. */
  method SetLimit(hash: string -> int) returns (tenth: bool, eleventh: bool)
    ensures tenth && !eleventh
  {
    var table := new HashMapJC<int>(10, hash);
    SetRepeatedly(table, "first", 1, 9);
    tenth := table.Set("first", 1);
    eleventh := table.Set("first", 1);
  }
}
