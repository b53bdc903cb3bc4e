/**
 * What `set` and `delete` do to the abstract table: the live count, the
 * probing invariant, and what later lookups of the same and of other keys
 * return.
 */
module TableFacts {
  import opened Probing

  /** The search depends only on which slots are never-used and which hold the key. */
  lemma {:induction false} SearchCongruent<T>(s: seq<Slot<T>>, t: seq<Slot<T>>, key: string, b: nat, d: nat)
    requires |s| == |t| && b < |s| && d <= |s|
    requires forall i :: 0 <= i < |s| ==> (s[i].Empty? <==> t[i].Empty?) && (Holds(s[i], key) <==> Holds(t[i], key))
    ensures Search(s, key, b, d) == Search(t, key, b, d)
    decreases |s| - d
  {
    if d < |s| {
      SearchCongruent(s, t, key, b, d + 1);
    }
  }

  /** The search from `d` finds nothing when no live match is reachable from `d`. */
  lemma SearchNone<T>(s: seq<Slot<T>>, key: string, b: nat, d: nat)
    requires b < |s| && d <= |s|
    requires forall j :: d <= j < |s| && Passable(s, b, d, j) ==> !Holds(At(s, b, j), key)
    ensures Search(s, key, b, d) == None
  {
  }

  /**
   * When the key is live or some slot was never used, the key's probe reaches
   * a match or a never-used slot within one round.
   */
  lemma ProbeEnd<T>(s: seq<Slot<T>>, hash: string -> int, key: string) returns (stop: nat)
    requires |s| > 0 && Chains(s, hash) && (Live(s, key) || Empty in s)
    ensures stop < |s|
    ensures Holds(At(s, Home(hash, key, |s|), stop), key) || At(s, Home(hash, key, |s|), stop).Empty?
  {
    var b := Home(hash, key, |s|);
    SearchComplete(s, hash, key);
    if Live(s, key) {
      stop := Search(s, key, b, 0).value;
    } else {
      EmptyReached(s, b);
      stop :| stop < |s| && At(s, b, stop) == Empty;
    }
  }

  /**
   * Under the table invariant, `find` yields an index holding the key exactly
   * when the key is live, and -1 otherwise.
   */
  lemma LocateFound<T>(s: seq<Slot<T>>, hash: string -> int, key: string)
    requires |s| > 0 && Chains(s, hash)
    ensures Live(s, key) ==> 0 <= Locate(s, hash, key) < |s| && Holds(s[Locate(s, hash, key)], key)
    ensures !Live(s, key) ==> Locate(s, hash, key) == -1
  {
    SearchComplete(s, hash, key);
  }

  /** Turning no slot into a never-used one keeps every reachable stretch reachable. */
  lemma PassableMono<T>(s: seq<Slot<T>>, t: seq<Slot<T>>, b: nat, lo: nat, hi: nat)
    requires |s| == |t| && b < |s| && hi <= |s|
    requires forall i :: 0 <= i < |s| && t[i].Empty? ==> s[i].Empty?
    requires Passable(s, b, lo, hi)
    ensures Passable(t, b, lo, hi)
  {
    forall j | lo <= j < hi ensures !At(t, b, j).Empty? {
      assert !At(s, b, j).Empty?;
    }
  }

  /** A new table satisfies the probing invariant, and no key is found in it. */
  lemma UnusedTable<T>(n: nat, hash: string -> int, key: string)
    ensures Chains(Unused<T>(n), hash) && Count(Unused<T>(n)) == 0 && !Live(Unused<T>(n), key)
    ensures Lookup(Unused<T>(n), hash, key) == None && Locate(Unused<T>(n), hash, key) == -1
    ensures Removed(Unused<T>(n), hash, key) == Unused<T>(n)
  {
    UnusedCount<T>(n);
    if n > 0 {
      var b := Home(hash, key, n);
      assert Search(Unused<T>(n), key, b, 0) == None;
    }
  }

  /**
   * Where a successful `set` puts the new entry: in the slot at the first
   * offset of the key's probe that holds no value, every earlier offset being
   * occupied. That slot now holds the entry and every other slot is as it was.
   */
  lemma InsertedAt<T>(s: seq<Slot<T>>, hash: string -> int, key: string, value: T)
    requires Count(s) < |s|
    ensures FreeOffset(s, Home(hash, key, |s|), 0) < |s|
    ensures
      var b := Home(hash, key, |s|);
      var f := FreeOffset(s, b, 0);
      var p := Pos(b, f, |s|);
      var t := Inserted(s, hash, key, value);
      f < |s| && t[p] == Occupied(key, value) && !s[p].Occupied? &&
      (forall i :: 0 <= i < |s| && i != p ==> t[i] == s[i]) &&
      (forall j :: 0 <= j < f ==> At(s, b, j).Occupied?)
    ensures Inserted(s, hash, key, value) ==
      s[Pos(Home(hash, key, |s|), FreeOffset(s, Home(hash, key, |s|), 0), |s|) := Occupied(key, value)]
  {
    FreeExists(s, Home(hash, key, |s|));
  }

  /** `set` keeps every live entry reachable from its base index, the new one included. */
  lemma InsertedChains<T>(s: seq<Slot<T>>, hash: string -> int, key: string, value: T)
    requires Count(s) < |s| && Chains(s, hash)
    ensures Chains(Inserted(s, hash, key, value), hash)
  {
    var n := |s|;
    var b := Home(hash, key, n);
    FreeExists(s, b);
    var p := Pos(b, FreeOffset(s, b, 0), n);
    var t := Inserted(s, hash, key, value);
    NewEntryReachable(s, b, key, value);
    assert t == s[p := Occupied(key, value)];
    forall i | 0 <= i < n ensures Reachable(t, hash, i) {
      if i == p {
        assert t[i].key == key;
      } else if t[i].Occupied? {
        assert Reachable(s, hash, i);
        var h := Home(hash, s[i].key, n);
        PassableMono(s, t, h, 0, OffsetOf(h, i, n));
      }
    }
  }

  /** The slot `set` fills is reached from the base index without crossing a never-used slot. */
  lemma NewEntryReachable<T>(s: seq<Slot<T>>, b: nat, key: string, value: T)
    requires b < |s| && FreeOffset(s, b, 0) < |s|
    ensures
      var p := Pos(b, FreeOffset(s, b, 0), |s|);
      Passable(s[p := Occupied(key, value)], b, 0, OffsetOf(b, p, |s|))
  {
    var n := |s|;
    var f := FreeOffset(s, b, 0);
    var p := Pos(b, f, n);
    var t := s[p := Occupied(key, value)];
    forall j | 0 <= j < f ensures !At(t, b, j).Empty? {
      assert At(s, b, j).Occupied?;
      assert Pos(b, j, n) != p;
      assert At(t, b, j) == At(s, b, j);
    }
  }

  /** After `set`, the live keys are the old ones and the key just stored. */
  lemma InsertedLive<T>(s: seq<Slot<T>>, hash: string -> int, key: string, value: T, k: string)
    requires Count(s) < |s|
    ensures Live(Inserted(s, hash, key, value), k) <==> k == key || Live(s, k)
  {
    var n := |s|;
    var b := Home(hash, key, n);
    FreeExists(s, b);
    var p := Pos(b, FreeOffset(s, b, 0), n);
    var t := Inserted(s, hash, key, value);
    assert Holds(t[p], key);
    if Live(s, k) {
      var i :| 0 <= i < n && Holds(s[i], k);
      assert Holds(t[i], k);
    }
    if Live(t, k) && k != key {
      var i :| 0 <= i < n && Holds(t[i], k);
      assert Holds(s[i], k);
    }
  }

  /**
   * After `set(key, v)` the search for `key` stops at the nearer of the old
   * first match and the slot just filled: the new entry wins when it went into
   * a zombie slot ahead of the old one.
   */
  lemma SearchAfterInsert<T>(s: seq<Slot<T>>, hash: string -> int, key: string, value: T)
    requires Count(s) < |s|
    ensures
      var b := Home(hash, key, |s|);
      var f := FreeOffset(s, b, 0);
      Search(Inserted(s, hash, key, value), key, b, 0) ==
        match Search(s, key, b, 0)
        case Some(d) => Some(if d < f then d else f)
        case None => Some(f)
  {
    var n := |s|;
    var b := Home(hash, key, n);
    FreeExists(s, b);
    var f := FreeOffset(s, b, 0);
    var t := Inserted(s, hash, key, value);
    var f' := InsertStep(s, hash, key, value);
    match Search(s, key, b, 0)
    case None =>
      forall j | 0 <= j < f ensures !Holds(At(s, b, j), key) {
        assert Passable(s, b, 0, j);
      }
      SearchIs(t, key, b, 0, f);
    case Some(d) =>
      if d < f {
        SearchIs(t, key, b, 0, d);
      } else {
        SearchIs(t, key, b, 0, f);
      }
  }

  /** If no live entry has the key, `get` right after `set(key, v)` returns `v`. */
  lemma LookupAfterInsertFresh<T>(s: seq<Slot<T>>, hash: string -> int, key: string, value: T)
    requires Count(s) < |s| && Chains(s, hash) && !Live(s, key)
    ensures Lookup(Inserted(s, hash, key, value), hash, key) == Some(value)
  {
    SearchComplete(s, hash, key);
    SearchAfterInsert(s, hash, key, value);
  }

  /**
   * In a table without zombies, storing a duplicate does not change what `get`
   * returns for a key that is already there.
   */
  lemma LookupAfterInsertDuplicate<T>(s: seq<Slot<T>>, hash: string -> int, key: string, value: T)
    requires Count(s) < |s| && Zombie !in s && Lookup(s, hash, key).Some?
    ensures Lookup(Inserted(s, hash, key, value), hash, key) == Lookup(s, hash, key)
  {
    var n := |s|;
    var b := Home(hash, key, n);
    FreeExists(s, b);
    var f := FreeOffset(s, b, 0);
    var d := Search(s, key, b, 0).value;
    forall j | 0 <= j <= d ensures At(s, b, j).Occupied? {
      var i := Pos(b, j, n);
      assert s[i] in s;
      assert j < d ==> !At(s, b, j).Empty?;
    }
    assert d < f;
    SearchAfterInsert(s, hash, key, value);
    var t := Inserted(s, hash, key, value);
    assert At(t, b, d) == At(s, b, d);
  }

  /** `set` of one key does not change what `get` returns for another. */
  lemma LookupAfterInsertOther<T>(s: seq<Slot<T>>, hash: string -> int, key: string, value: T, k: string)
    requires Count(s) < |s| && Chains(s, hash) && k != key
    ensures Lookup(Inserted(s, hash, key, value), hash, k) == Lookup(s, hash, k)
  {
    var n := |s|;
    var b := Home(hash, key, n);
    FreeExists(s, b);
    var p := Pos(b, FreeOffset(s, b, 0), n);
    var t := Inserted(s, hash, key, value);
    var c := Home(hash, k, n);
    match Search(s, k, c, 0)
    case None =>
      SearchComplete(s, hash, k);
      InsertedLive(s, hash, key, value, k);
      InsertedChains(s, hash, key, value);
      SearchComplete(t, hash, k);
    case Some(e) =>
      assert Pos(c, e, n) != p;
      forall j | 0 <= j < e ensures !At(t, c, j).Empty? && !Holds(At(t, c, j), k) {
        if Pos(c, j, n) != p {
          assert At(t, c, j) == At(s, c, j);
        }
      }
      SearchIs(t, k, c, 0, e);
  }

  /** `delete` of a key that is found removes exactly one live entry; otherwise nothing. */
  lemma RemovedCount<T>(s: seq<Slot<T>>, hash: string -> int, key: string)
    ensures Count(Removed(s, hash, key)) ==
      if Lookup(s, hash, key).Some? then Count(s) - 1 else Count(s)
    ensures Lookup(s, hash, key).None? ==> Removed(s, hash, key) == s
  {
    if |s| > 0 {
      var b := Home(hash, key, |s|);
      match Search(s, key, b, 0)
      case Some(d) => CountUpdate(s, Pos(b, d, |s|), Zombie);
      case None =>
    }
  }

  /** `delete` keeps every remaining live entry reachable from its base index. */
  lemma RemovedChains<T>(s: seq<Slot<T>>, hash: string -> int, key: string)
    requires Chains(s, hash)
    ensures Chains(Removed(s, hash, key), hash)
  {
    var n := |s|;
    var t := Removed(s, hash, key);
    forall i | 0 <= i < n ensures Reachable(t, hash, i) {
      if t[i].Occupied? {
        assert Reachable(s, hash, i);
        var h := Home(hash, s[i].key, n);
        PassableMono(s, t, h, 0, OffsetOf(h, i, n));
      }
    }
  }

  /** After `delete`, the live entries of other keys are those there were before. */
  lemma RemovedLive<T>(s: seq<Slot<T>>, hash: string -> int, key: string, k: string)
    requires k != key
    ensures forall i :: 0 <= i < |s| && Holds(s[i], k) ==> Removed(s, hash, key)[i] == s[i]
    ensures forall i :: 0 <= i < |s| && Holds(Removed(s, hash, key)[i], k) ==> Holds(s[i], k)
    ensures Live(Removed(s, hash, key), k) <==> Live(s, k)
  {
    var t := Removed(s, hash, key);
    if Live(s, k) {
      var i :| 0 <= i < |s| && Holds(s[i], k);
      assert Holds(t[i], k);
    }
    if Live(t, k) {
      var i :| 0 <= i < |t| && Holds(t[i], k);
      assert Holds(s[i], k);
    }
  }

  /**
   * Deleting the first match of `key` exposes the next one: the search of the
   * new table is the old search resumed just past the deleted slot.
   */
  lemma SearchAfterRemove<T>(s: seq<Slot<T>>, hash: string -> int, key: string)
    requires |s| > 0 && Search(s, key, Home(hash, key, |s|), 0).Some?
    ensures
      var b := Home(hash, key, |s|);
      var d := Search(s, key, b, 0).value;
      Search(Removed(s, hash, key), key, b, 0) == Search(s, key, b, d + 1)
  {
    var n := |s|;
    var b := Home(hash, key, n);
    var d := Search(s, key, b, 0).value;
    var t := Removed(s, hash, key);
    RemovedAt(s, hash, key, d);
    match Search(s, key, b, d + 1)
    case Some(e) =>
      SearchIs(t, key, b, 0, e);
    case None =>
      forall j | 0 <= j < n && Passable(t, b, 0, j) ensures !Holds(At(t, b, j), key) {
        if d < j {
          assert Passable(s, b, d + 1, j);
        }
      }
      SearchNone(t, key, b, 0);
  }

  /** `delete` of one key does not change what `get` returns for another. */
  lemma LookupAfterRemoveOther<T>(s: seq<Slot<T>>, hash: string -> int, key: string, k: string)
    requires k != key
    ensures Lookup(Removed(s, hash, key), hash, k) == Lookup(s, hash, k)
  {
    var t := Removed(s, hash, key);
    if |s| > 0 {
      var c := Home(hash, k, |s|);
      SearchCongruent(s, t, k, c, 0);
      match Search(s, k, c, 0)
      case Some(e) => assert At(t, c, e) == At(s, c, e);
      case None =>
    }
  }

  /** Seen along the key's probe, `set` changes only the slot at the first free offset. */
  lemma InsertStep<T>(s: seq<Slot<T>>, hash: string -> int, key: string, value: T) returns (f: nat)
    requires Count(s) < |s|
    ensures f == FreeOffset(s, Home(hash, key, |s|), 0) && f < |s|
    ensures
      var b := Home(hash, key, |s|);
      var t := Inserted(s, hash, key, value);
      At(t, b, f) == Occupied(key, value) &&
      (forall j :: 0 <= j < |s| && j != f ==> At(t, b, j) == At(s, b, j)) &&
      (forall j :: 0 <= j < f ==> At(s, b, j).Occupied?)
  {
    var n := |s|;
    var b := Home(hash, key, n);
    InsertedAt(s, hash, key, value);
    f := FreeOffset(s, b, 0);
    var t := Inserted(s, hash, key, value);
    forall j | 0 <= j < n && j != f ensures At(t, b, j) == At(s, b, j) {
      assert Pos(b, j, n) != Pos(b, f, n);
    }
  }

  /** Where three successive `set`s of one key put their entries. */
  lemma ThreeInserts<T>(s0: seq<Slot<T>>, hash: string -> int, key: string, v1: T, v2: T, v3: T)
    returns (f1: nat, f2: nat, f3: nat)
    requires Count(s0) + 3 <= |s0|
    ensures f1 < f2 < f3 < |s0|
    ensures
      var b := Home(hash, key, |s0|);
      var s3 := Inserted(Inserted(Inserted(s0, hash, key, v1), hash, key, v2), hash, key, v3);
      At(s3, b, f1) == Occupied(key, v1) && At(s3, b, f2) == Occupied(key, v2) &&
      At(s3, b, f3) == Occupied(key, v3) &&
      (forall j :: 0 <= j < |s0| && j != f1 && j != f2 && j != f3 ==> At(s3, b, j) == At(s0, b, j)) &&
      (forall j :: 0 <= j < f3 && j != f1 && j != f2 ==> At(s0, b, j).Occupied?)
  {
    var s1 := Inserted(s0, hash, key, v1);
    var s2 := Inserted(s1, hash, key, v2);
    f1 := InsertStep(s0, hash, key, v1);
    f2 := InsertStep(s1, hash, key, v2);
    f3 := InsertStep(s2, hash, key, v3);
  }

  /** Where `delete` leaves a zombie when the key is found. */
  lemma RemovedAt<T>(s: seq<Slot<T>>, hash: string -> int, key: string, d: nat)
    requires |s| > 0 && Search(s, key, Home(hash, key, |s|), 0) == Some(d)
    ensures
      var b := Home(hash, key, |s|);
      At(Removed(s, hash, key), b, d) == Zombie &&
      forall j :: 0 <= j < |s| && j != d ==> At(Removed(s, hash, key), b, j) == At(s, b, j)
  {
  }

  /**
   * When the first match of `key` is at offset d and the next one at e,
   * `delete` makes `get` return the value at e.
   */
  lemma RemoveExposes<T>(s: seq<Slot<T>>, hash: string -> int, key: string, d: nat, e: nat)
    requires |s| > 0 && Search(s, key, Home(hash, key, |s|), 0) == Some(d) && d < e < |s|
    requires Holds(At(s, Home(hash, key, |s|), e), key)
    requires forall j :: d < j < e ==>
      !At(s, Home(hash, key, |s|), j).Empty? && !Holds(At(s, Home(hash, key, |s|), j), key)
    ensures Search(Removed(s, hash, key), key, Home(hash, key, |s|), 0) == Some(e)
    ensures Lookup(Removed(s, hash, key), hash, key) == Some(At(s, Home(hash, key, |s|), e).value)
  {
    var b := Home(hash, key, |s|);
    SearchAfterRemove(s, hash, key);
    SearchIs(s, key, b, d + 1, e);
    RemovedAt(s, hash, key, d);
  }

  /** When the first match of `key` is its last one, `get` finds nothing after `delete`. */
  lemma RemoveLast<T>(s: seq<Slot<T>>, hash: string -> int, key: string, d: nat)
    requires |s| > 0 && Search(s, key, Home(hash, key, |s|), 0) == Some(d)
    requires forall j :: d < j < |s| ==> !Holds(At(s, Home(hash, key, |s|), j), key)
    ensures Lookup(Removed(s, hash, key), hash, key) == None
  {
    SearchAfterRemove(s, hash, key);
    SearchNone(s, key, Home(hash, key, |s|), d + 1);
  }

  /**
   * Along the probe of `key`, exactly three live entries have that key, at
   * offsets f1 < f2 < f3, and no never-used slot comes before the third.
   */
  ghost predicate ThreeInProbeOrder<T>(u: seq<Slot<T>>, hash: string -> int, key: string, f1: nat, f2: nat, f3: nat) {
    |u| > 0 && f1 < f2 < f3 < |u| &&
    var b := Home(hash, key, |u|);
    Holds(At(u, b, f1), key) && Holds(At(u, b, f2), key) && Holds(At(u, b, f3), key) &&
    Passable(u, b, 0, f3) &&
    forall j :: 0 <= j < |u| && j != f1 && j != f2 && j != f3 ==> !Holds(At(u, b, j), key)
  }

  /**
   * With three entries of `key` in probe order, `get` and successive
   * `delete`s yield their values nearest-first, and then nothing.
   */
  lemma DeletesInProbeOrder<T>(u: seq<Slot<T>>, hash: string -> int, key: string, f1: nat, f2: nat, f3: nat)
    requires ThreeInProbeOrder(u, hash, key, f1, f2, f3)
    ensures
      var b := Home(hash, key, |u|);
      var d1 := Removed(u, hash, key);
      var d2 := Removed(d1, hash, key);
      Lookup(u, hash, key) == Some(At(u, b, f1).value) &&
      Lookup(d1, hash, key) == Some(At(u, b, f2).value) &&
      Lookup(d2, hash, key) == Some(At(u, b, f3).value) &&
      Lookup(Removed(d2, hash, key), hash, key) == None
  {
    var b := Home(hash, key, |u|);
    SearchIs(u, key, b, 0, f1);
    RemoveExposes(u, hash, key, f1, f2);
    var d1 := Removed(u, hash, key);
    RemovedAt(u, hash, key, f1);
    RemoveExposes(d1, hash, key, f2, f3);
    var d2 := Removed(d1, hash, key);
    RemovedAt(d1, hash, key, f2);
    RemoveLast(d2, hash, key, f3);
  }

  /** Three `set`s of a key that was not live put its entries in probe order. */
  lemma ThreeInsertsInProbeOrder<T>(s0: seq<Slot<T>>, hash: string -> int, key: string, v1: T, v2: T, v3: T)
    returns (f1: nat, f2: nat, f3: nat)
    requires !Live(s0, key) && Count(s0) + 3 <= |s0|
    ensures
      var s3 := Inserted(Inserted(Inserted(s0, hash, key, v1), hash, key, v2), hash, key, v3);
      var b := Home(hash, key, |s0|);
      ThreeInProbeOrder(s3, hash, key, f1, f2, f3) &&
      At(s3, b, f1).value == v1 && At(s3, b, f2).value == v2 && At(s3, b, f3).value == v3
  {
    var n := |s0|;
    var b := Home(hash, key, n);
    f1, f2, f3 := ThreeInserts(s0, hash, key, v1, v2, v3);
    forall j | 0 <= j < n ensures !Holds(At(s0, b, j), key) {
      assert s0[Pos(b, j, n)] in s0;
    }
  }

  /**
   * Overwriting one slot that holds no entry of `key` with something that is
   * neither a never-used slot nor an entry of `key` leaves the three entries
   * of `key` where they are.
   */
  lemma ReplaceKeepsOrder<T>(u: seq<Slot<T>>, hash: string -> int, key: string, f1: nat, f2: nat, f3: nat, p: nat, x: Slot<T>)
    requires ThreeInProbeOrder(u, hash, key, f1, f2, f3) && p < |u|
    requires !Holds(u[p], key) && !x.Empty? && !Holds(x, key)
    ensures ThreeInProbeOrder(u[p := x], hash, key, f1, f2, f3)
    ensures
      var b := Home(hash, key, |u|);
      At(u[p := x], b, f1) == At(u, b, f1) && At(u[p := x], b, f2) == At(u, b, f2) && At(u[p := x], b, f3) == At(u, b, f3)
  {
    var n := |u|;
    var b := Home(hash, key, n);
    var t := u[p := x];
    forall j | 0 <= j < n
      ensures !At(u, b, j).Empty? ==> !At(t, b, j).Empty?
      ensures Holds(At(t, b, j), key) ==> Holds(At(u, b, j), key)
      ensures Holds(At(u, b, j), key) ==> At(t, b, j) == At(u, b, j)
    {
      if Pos(b, j, n) != p {
        assert At(t, b, j) == u[Pos(b, j, n)];
      }
    }
  }

  /** A `set` of another key leaves the three entries of `key` where they are. */
  lemma InsertKeepsOrder<T>(u: seq<Slot<T>>, hash: string -> int, key: string, f1: nat, f2: nat, f3: nat, k: string, v: T)
    requires ThreeInProbeOrder(u, hash, key, f1, f2, f3) && k != key && Count(u) < |u|
    ensures ThreeInProbeOrder(Inserted(u, hash, k, v), hash, key, f1, f2, f3)
    ensures
      var b := Home(hash, key, |u|);
      var t := Inserted(u, hash, k, v);
      At(t, b, f1) == At(u, b, f1) && At(t, b, f2) == At(u, b, f2) && At(t, b, f3) == At(u, b, f3)
  {
    InsertedAt(u, hash, k, v);
    var c := Home(hash, k, |u|);
    ReplaceKeepsOrder(u, hash, key, f1, f2, f3, Pos(c, FreeOffset(u, c, 0), |u|), Occupied(k, v));
  }

  /** A `delete` of another key leaves the three entries of `key` where they are. */
  lemma RemoveKeepsOrder<T>(u: seq<Slot<T>>, hash: string -> int, key: string, f1: nat, f2: nat, f3: nat, k: string)
    requires ThreeInProbeOrder(u, hash, key, f1, f2, f3) && k != key
    ensures ThreeInProbeOrder(Removed(u, hash, k), hash, key, f1, f2, f3)
    ensures
      var b := Home(hash, key, |u|);
      var t := Removed(u, hash, k);
      At(t, b, f1) == At(u, b, f1) && At(t, b, f2) == At(u, b, f2) && At(t, b, f3) == At(u, b, f3)
  {
    var n := |u|;
    var b := Home(hash, key, n);
    var t := Removed(u, hash, k);
    forall j | 0 <= j < n ensures !At(u, b, j).Empty? ==> !At(t, b, j).Empty?
      ensures Holds(At(t, b, j), key) <==> Holds(At(u, b, j), key)
      ensures Holds(At(u, b, j), key) ==> At(t, b, j) == At(u, b, j)
    {
    }
  }

  /**
   * Three values stored under a key that was not live come back out of `get`
   * and successive `delete`s in the order they were stored, because each
   * later one lands further along the key's probe; after the third delete
   * the key is not found.
   */
  lemma DuplicatesInProbeOrder<T>(s0: seq<Slot<T>>, hash: string -> int, key: string, v1: T, v2: T, v3: T)
    requires !Live(s0, key) && Count(s0) + 3 <= |s0|
    ensures
      var s3 := Inserted(Inserted(Inserted(s0, hash, key, v1), hash, key, v2), hash, key, v3);
      var d1 := Removed(s3, hash, key);
      var d2 := Removed(d1, hash, key);
      Lookup(s3, hash, key) == Some(v1) &&
      Lookup(d1, hash, key) == Some(v2) &&
      Lookup(d2, hash, key) == Some(v3) &&
      Lookup(Removed(d2, hash, key), hash, key) == None
  {
    var s3 := Inserted(Inserted(Inserted(s0, hash, key, v1), hash, key, v2), hash, key, v3);
    var f1, f2, f3 := ThreeInsertsInProbeOrder(s0, hash, key, v1, v2, v3);
    DeletesInProbeOrder(s3, hash, key, f1, f2, f3);
  }
}
