/**
 * The fixed-capacity, string-keyed table itself: three parallel arrays that
 * the operations update in place, an element count, and linear probing with
 * zombie flags. The ghost field `slots` is the table as the `Probing` module
 * sees it; `Valid()` ties it to the arrays.
 */
module HashMap {
  import opened Probing
  import TableFacts

  /** How one abstract slot is laid out in the value, key and zombie arrays. */
  ghost predicate Stores<T>(x: Slot<T>, v: Option<T>, k: Option<string>, z: bool)
    ensures Stores(x, v, k, z) ==> (v.Some? <==> k.Some?) && (v.Some? ==> !z) && (x.Occupied? <==> v.Some?)
  {
    match x
    case Empty => v.None? && k.None? && !z
    case Zombie => v.None? && k.None? && z
    case Occupied(key, value) => v == Some(value) && k == Some(key) && !z
  }

  /** A fraction of a positive whole that is at most the whole lies in [0, 1]. */
  lemma Fraction(part: nat, whole: nat)
    requires 0 < whole && part <= whole
    ensures 0.0 <= part as real / whole as real <= 1.0
    ensures (part as real / whole as real) * whole as real == part as real
  {
  }

  class HashMapJC<T> {
    /** The number of slots; the table never grows. */
    const capacity: nat
    /** The keys' hash codes (`String.hashCode` in the original). */
    const hash: string -> int
    /** The number of live entries. */
    var numElements: int
    /** The stored values; `None` where the original holds null. */
    const values: array<Option<T>>
    /** The key of each stored value; `None` where the original holds null. */
    const keys: array<Option<string>>
    /** Whether a slot without a value once held one. */
    const zombieIndicator: array<bool>

    /** The abstract table. */
    ghost var slots: seq<Slot<T>>

    /**
     * The three arrays hold the abstract table slot by slot, the count is its
     * number of live entries, and every live entry is reachable.
     */
    ghost predicate Valid()
      reads this, values, keys, zombieIndicator
      ensures Valid() ==> 0 <= numElements <= capacity
      ensures Valid() ==>
        values.Length == capacity && keys.Length == capacity && zombieIndicator.Length == capacity &&
        forall i :: 0 <= i < capacity ==>
          (values[i].Some? <==> keys[i].Some?) && (values[i].Some? ==> !zombieIndicator[i])
    {
      values.Length == capacity && keys.Length == capacity && zombieIndicator.Length == capacity &&
      values as object != keys as object &&
      |slots| == capacity &&
      (forall i :: 0 <= i < capacity ==> Stores(slots[i], values[i], keys[i], zombieIndicator[i])) &&
      numElements == Count(slots) &&
      Chains(slots, hash)
    }

    /** A table of `size` slots, none of them ever used. */
    constructor (size: nat, hashCode: string -> int)
      ensures Valid() && fresh(values) && fresh(keys) && fresh(zombieIndicator)
      ensures capacity == size && hash == hashCode
      ensures slots == Unused(size) && numElements == 0
    {
      numElements := 0;
      capacity := size;
      hash := hashCode;
      values := new Option<T>[size](_ => None);
      keys := new Option<string>[size](_ => None);
      zombieIndicator := new bool[size](_ => false);
      slots := Unused(size);
      UnusedCount<T>(size);
    }

    /** Whether the slot at `code` held an entry that was deleted. */
    function IsZombie(code: nat): (r: bool)
      reads this, values, keys, zombieIndicator
      requires Valid() && code < capacity
      ensures r <==> slots[code] == Zombie
    {
      zombieIndicator[code]
    }

    /** Whether the table has no live entry. */
    function IsEmpty(): (r: bool)
      reads this, values, keys, zombieIndicator
      requires Valid()
      ensures r <==> forall i :: 0 <= i < capacity ==> !slots[i].Occupied?
    {
      CountZero(slots);
      numElements == 0
    }

    /** Whether every slot holds a live entry. */
    function IsFull(): (r: bool)
      reads this, values, keys, zombieIndicator
      requires Valid()
      ensures r <==> forall i :: 0 <= i < capacity ==> slots[i].Occupied?
    {
      CountFull(slots);
      capacity == numElements
    }

    /** The number of live entries. */
    function GetNumElements(): (r: int)
      reads this, values, keys, zombieIndicator
      requires Valid()
      ensures r == Count(slots) && 0 <= r <= capacity
    {
      numElements
    }

    /** The load factor: the fraction of slots that hold a live entry. */
    function Load(): (r: real)
      reads this, values, keys, zombieIndicator
      requires Valid() && capacity > 0
      ensures 0.0 <= r <= 1.0
      ensures r * capacity as real == Count(slots) as real
    {
      Fraction(numElements, capacity);
      numElements as real / capacity as real
    }

    /**
     * Stores `value` under `key` in the first slot without a value on the
     * key's probe, which may be a zombie slot. Fails, changing nothing, when
     * the table is full. Duplicate keys are stored as further entries.
     */
    method Set(key: string, value: T) returns (ok: bool)
      requires Valid()
      modifies this, values, keys, zombieIndicator
      ensures Valid()
      ensures ok <==> old(Count(slots)) < capacity
      ensures ok ==> slots == Inserted(old(slots), hash, key, value) && numElements == old(numElements) + 1
      ensures ok ==>
        var b := Home(hash, key, capacity);
        var p := Pos(b, FreeOffset(old(slots), b, 0), capacity);
        !old(slots)[p].Occupied? && values[p] == Some(value) && keys[p] == Some(key) && !zombieIndicator[p]
      ensures !ok ==> slots == old(slots) && numElements == old(numElements)
      ensures !ok ==> unchanged(values, keys, zombieIndicator)
    {
      if IsFull() {
        return false;
      }
      var code: int := Home(hash, key, capacity);
      ghost var b: nat := code;
      ghost var d: nat := 0;
      FreeExists(slots, b);
      ghost var f := FreeOffset(slots, b, 0);
      while values[code].Some?
        invariant d <= f && code == Pos(b, d, capacity)
        decreases f - d
      {
        if code == capacity - 1 {
          code := -1;
        }
        code := code + 1;
        d := d + 1;
      }
      assert Stores(slots[code], values[code], keys[code], zombieIndicator[code]);
      assert !At(slots, b, d).Occupied?;
      assert d == f;
      ghost var s0 := slots;
      TableFacts.InsertedAt(s0, hash, key, value);
      CountUpdate(s0, code, Occupied(key, value));
      TableFacts.InsertedChains(s0, hash, key, value);
      values[code] := Some(value);
      keys[code] := Some(key);
      zombieIndicator[code] := false;
      numElements := numElements + 1;
      slots := s0[code := Occupied(key, value)];
      forall i | 0 <= i < capacity
        ensures Stores(slots[i], values[i], keys[i], zombieIndicator[i])
      {
        if i != code {
          assert values[i] == old(values[i]) && keys[i] == old(keys[i]);
        }
      }
      return true;
    }

    /**
     * Whether some live entry has key `key`. The probe passes over occupied
     * and zombie slots and stops at a never-used one; `probes` counts its
     * steps, which the loop guard caps at capacity + 1.
     */
    method Contains(key: string) returns (r: bool, ghost probes: nat)
      requires Valid()
      ensures r <==> Live(slots, key)
      ensures capacity > 0 ==> (r <==> Search(slots, key, Home(hash, key, capacity), 0).Some?)
      ensures probes <= capacity + 1
    {
      if IsEmpty() {
        return false, 0;
      }
      var code: int := Home(hash, key, capacity);
      ghost var b: nat := code;
      SearchComplete(slots, hash, key);
      var loopCount := 0;
      while values[code].Some? || IsZombie(code)
        invariant 0 <= loopCount <= capacity && code == Pos(b, loopCount, capacity)
        invariant Search(slots, key, b, 0) == Search(slots, key, b, loopCount)
        decreases capacity - loopCount
      {
        assert Stores(slots[code], values[code], keys[code], zombieIndicator[code]);
        if values[code].Some? {
          if keys[code] == Some(key) {
            assert Holds(slots[code], key);
            return true, loopCount + 1;
          }
        }
        if code == capacity - 1 {
          code := -1;
        }
        code := code + 1;
        loopCount := loopCount + 1;
        if loopCount > capacity {
          break;
        }
      }
      return false, loopCount;
    }

    /**
     * The index of the first live entry with key `key` on the key's probe, or
     * -1 when a never-used slot ends the probe first. The loop has no guard of
     * its own: it ends because the key is live or a never-used slot exists.
     */
    method Find(key: string) returns (r: int)
      requires Valid()
      requires Live(slots, key) || Empty in slots
      ensures r == Locate(slots, hash, key)
      ensures Live(slots, key) ==> 0 <= r < capacity && Holds(slots[r], key)
      ensures !Live(slots, key) ==> r == -1
    {
      var code: int := Home(hash, key, capacity);
      var result := -1;
      ghost var b: nat := code;
      ghost var d: nat := 0;
      ghost var stop := TableFacts.ProbeEnd(slots, hash, key);
      while values[code].Some? || IsZombie(code)
        invariant d <= stop && code == Pos(b, d, capacity)
        invariant Cleared(slots, key, b, d)
        decreases stop - d
      {
        assert Stores(slots[code], values[code], keys[code], zombieIndicator[code]);
        if values[code].Some? {
          if keys[code] == Some(key) {
            result := code;
            break;
          }
        }
        ClearedStep(slots, key, b, d);
        if code == capacity - 1 {
          code := -1;
        }
        code := code + 1;
        d := d + 1;
      }
      if result == -1 {
        assert Stores(slots[code], values[code], keys[code], zombieIndicator[code]);
        SearchStops(slots, key, b, 0, d);
      } else {
        SearchIs(slots, key, b, 0, d);
      }
      TableFacts.LocateFound(slots, hash, key);
      return result;
    }

    /**
     * The value of the first live entry with key `key` on the key's probe,
     * that is the duplicate nearest the key's base index; `None` when the
     * key is not live.
     */
    method Get(key: string) returns (r: Option<T>)
      requires Valid()
      ensures r == Lookup(slots, hash, key)
      ensures r.Some? <==> Live(slots, key)
    {
      var found, _ := Contains(key);
      if found {
        var code := Find(key);
        return values[code];
      } else {
        return None;
      }
    }

    /**
     * Deletes the entry `Get` would return, turning its slot into a zombie,
     * and returns its value; returns `None` and changes nothing when the key
     * is not live.
     */
    method Delete(key: string) returns (r: Option<T>)
      requires Valid()
      modifies this, values, keys, zombieIndicator
      ensures Valid()
      ensures r == old(Lookup(slots, hash, key))
      ensures slots == Removed(old(slots), hash, key)
      ensures numElements == if r.Some? then old(numElements) - 1 else old(numElements)
      ensures r.Some? ==>
        var i := old(Locate(slots, hash, key));
        0 <= i < capacity && values[i].None? && keys[i].None? && zombieIndicator[i]
      ensures r.None? ==> unchanged(values, keys, zombieIndicator)
    {
      var found, _ := Contains(key);
      if found {
        var code := Find(key);
        var result := values[code];
        values[code] := None;
        keys[code] := None;
        zombieIndicator[code] := true;
        numElements := numElements - 1;
        CountUpdate(slots, code, Zombie);
        TableFacts.RemovedChains(slots, hash, key);
        slots := slots[code := Zombie];
        return result;
      } else {
        return None;
      }
    }
  }
}
