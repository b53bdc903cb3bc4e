/**
 * The abstract state of a linear-probing table with tombstones ("zombies"),
 * and the probe walks that the table's operations perform over it.
 *
 * A table of n slots is a sequence of n `Slot`s. A probe for a key starts at
 * the key's base index b and visits the slots at offsets 0, 1, 2, ... from b,
 * wrapping from the last index back to 0; `Pos(b, d, n)` is the index visited
 * at offset d. All the walks are stated over offsets, so that "before" and
 * "after" in probe order are plain comparisons of offsets.
 */
module Probing {

  datatype Option<T> = None | Some(value: T)

  /** One slot: never used since construction, deleted, or holding one entry. */
  datatype Slot<T> = Empty | Zombie | Occupied(key: string, value: T)

  /** The slot holds a live entry whose key is `key`. */
  predicate Holds<T>(x: Slot<T>, key: string) {
    x.Occupied? && x.key == key
  }

  /** Some live entry of the table has key `key`. */
  ghost predicate Live<T>(s: seq<Slot<T>>, key: string) {
    exists i :: 0 <= i < |s| && Holds(s[i], key)
  }

  function Abs(x: int): nat {
    if x < 0 then -x else x
  }

  /** The base index of `key`: the absolute value of its hash code, modulo the capacity. */
  function Home(hash: string -> int, key: string, n: nat): (b: nat)
    requires n > 0
    ensures b < n
  {
    Abs(hash(key)) % n
  }

  /** The index visited at offset `d` of a probe that starts at `b`. */
  function Pos(b: nat, d: nat, n: nat): (i: nat)
    requires b < n && d <= n
    ensures i < n
  {
    if b + d < n then b + d else b + d - n
  }

  /** The offset at which a probe starting at `b` visits index `i`; the inverse of `Pos`. */
  function OffsetOf(b: nat, i: nat, n: nat): (d: nat)
    requires b < n && i < n
    ensures d < n && Pos(b, d, n) == i
    ensures forall e :: 0 <= e < n && Pos(b, e, n) == i ==> e == d
  {
    if b <= i then i - b else i + n - b
  }

  /** The slot visited at offset `d` of a probe that starts at `b`. */
  function At<T>(s: seq<Slot<T>>, b: nat, d: nat): Slot<T>
    requires b < |s| && d <= |s|
  {
    s[Pos(b, d, |s|)]
  }

  /** The number of live entries. */
  function Count<T>(s: seq<Slot<T>>): (c: nat)
    ensures c <= |s|
    ensures c == 0 ==> forall i :: 0 <= i < |s| ==> !s[i].Occupied?
  {
    if s == [] then 0 else (if s[0].Occupied? then 1 else 0) + Count(s[1..])
  }

  /** A table of n slots that have never been used. */
  function Unused<T>(n: nat): (s: seq<Slot<T>>)
    ensures |s| == n && forall i :: 0 <= i < n ==> s[i] == Empty
  {
    seq(n, _ => Empty)
  }

  lemma {:induction false} UnusedCount<T>(n: nat)
    ensures Count(Unused<T>(n)) == 0
  {
    if n > 0 {
      assert Unused<T>(n)[1..] == Unused<T>(n - 1);
      UnusedCount<T>(n - 1);
    }
  }

  /** Replacing one slot changes the count by what that slot contributes. */
  lemma {:induction false} CountUpdate<T>(s: seq<Slot<T>>, i: nat, x: Slot<T>)
    requires i < |s|
    ensures Count(s[i := x]) ==
      Count(s) - (if s[i].Occupied? then 1 else 0) + (if x.Occupied? then 1 else 0)
  {
    if i > 0 {
      assert s[i := x][1..] == s[1..][i - 1 := x];
      CountUpdate(s[1..], i - 1, x);
    } else {
      assert s[i := x][1..] == s[1..];
    }
  }

  /** The count is zero exactly when no slot holds an entry. */
  lemma {:induction false} CountZero<T>(s: seq<Slot<T>>)
    ensures Count(s) == 0 <==> forall i :: 0 <= i < |s| ==> !s[i].Occupied?
  {
    if s != [] {
      CountZero(s[1..]);
      if forall i :: 0 <= i < |s| ==> !s[i].Occupied? {
        assert forall i :: 0 <= i < |s| - 1 ==> s[1..][i] == s[i + 1];
      }
    }
  }

  /** The count equals the capacity exactly when every slot holds an entry. */
  lemma {:induction false} CountFull<T>(s: seq<Slot<T>>)
    ensures Count(s) == |s| <==> forall i :: 0 <= i < |s| ==> s[i].Occupied?
  {
    if s != [] {
      CountFull(s[1..]);
      if forall i :: 0 <= i < |s| ==> s[i].Occupied? {
        assert forall i :: 0 <= i < |s| - 1 ==> s[1..][i] == s[i + 1];
      }
    }
  }

  /** No slot at offsets lo .. hi-1 of the probe from `b` is a never-used slot. */
  ghost predicate Passable<T>(s: seq<Slot<T>>, b: nat, lo: nat, hi: nat)
    requires b < |s| && hi <= |s|
  {
    forall j :: lo <= j < hi ==> !At(s, b, j).Empty?
  }

  /**
   * The walk of `contains` and `find`, from offset `d`: it passes over occupied
   * and zombie slots, stops at the first never-used slot, and yields the offset
   * of the first live entry with key `key`.
   */
  function Search<T>(s: seq<Slot<T>>, key: string, b: nat, d: nat): (r: Option<nat>)
    requires b < |s| && d <= |s|
    ensures r.Some? ==>
      d <= r.value < |s| && Holds(At(s, b, r.value), key) && Passable(s, b, d, r.value) &&
      forall j :: d <= j < r.value ==> !Holds(At(s, b, j), key)
    ensures r.None? ==>
      forall j :: d <= j < |s| && Passable(s, b, d, j) ==> !Holds(At(s, b, j), key)
    decreases |s| - d
  {
    if d == |s| then None
    else
      match At(s, b, d)
      case Empty => None
      case Zombie => Search(s, key, b, d + 1)
      case Occupied(k, _) => if k == key then Some(d) else Search(s, key, b, d + 1)
  }

  /**
   * The walk of `set`, from offset `d`: it passes over occupied slots only and
   * yields the offset of the first slot without a value, zombie or not
   * (`|s|` when every slot from `d` on is occupied).
   */
  function FreeOffset<T>(s: seq<Slot<T>>, b: nat, d: nat): (r: nat)
    requires b < |s| && d <= |s|
    ensures d <= r <= |s|
    ensures forall j :: d <= j < r ==> At(s, b, j).Occupied?
    ensures r < |s| ==> !At(s, b, r).Occupied?
    decreases |s| - d
  {
    if d == |s| || !At(s, b, d).Occupied? then d else FreeOffset(s, b, d + 1)
  }

  /** A table that is not full has a slot without a value on every probe. */
  lemma FreeExists<T>(s: seq<Slot<T>>, b: nat)
    requires b < |s| && Count(s) < |s|
    ensures FreeOffset(s, b, 0) < |s|
  {
    if FreeOffset(s, b, 0) == |s| {
      forall i | 0 <= i < |s| ensures s[i].Occupied? {
        assert s[i] == At(s, b, OffsetOf(b, i, |s|));
      }
      CountFull(s);
    }
  }

  /** A table that has a never-used slot has one on every probe. */
  lemma EmptyReached<T>(s: seq<Slot<T>>, b: nat)
    requires b < |s| && Empty in s
    ensures exists e :: 0 <= e < |s| && At(s, b, e) == Empty
  {
    var i :| 0 <= i < |s| && s[i] == Empty;
    assert At(s, b, OffsetOf(b, i, |s|)) == Empty;
  }

  /** The search from `d` yields `e` when `e` is the first live match and the walk reaches it. */
  lemma SearchIs<T>(s: seq<Slot<T>>, key: string, b: nat, d: nat, e: nat)
    requires b < |s| && d <= e < |s|
    requires Holds(At(s, b, e), key) && Passable(s, b, d, e)
    requires forall j :: d <= j < e ==> !Holds(At(s, b, j), key)
    ensures Search(s, key, b, d) == Some(e)
  {
  }

  /** The probe from `b` passes offsets 0 .. d-1: none is never-used and none holds `key`. */
  ghost predicate Cleared<T>(s: seq<Slot<T>>, key: string, b: nat, d: nat)
    requires b < |s| && d <= |s|
  {
    Passable(s, b, 0, d) && forall j :: 0 <= j < d ==> !Holds(At(s, b, j), key)
  }

  lemma ClearedStep<T>(s: seq<Slot<T>>, key: string, b: nat, d: nat)
    requires b < |s| && d < |s| && Cleared(s, key, b, d)
    requires !At(s, b, d).Empty? && !Holds(At(s, b, d), key)
    ensures Cleared(s, key, b, d + 1)
  {
  }

  /** The search from `d` yields nothing when it reaches a never-used slot at `e` without a match. */
  lemma SearchStops<T>(s: seq<Slot<T>>, key: string, b: nat, d: nat, e: nat)
    requires b < |s| && d <= e < |s|
    requires At(s, b, e).Empty? && Passable(s, b, d, e)
    requires forall j :: d <= j < e ==> !Holds(At(s, b, j), key)
    ensures Search(s, key, b, d) == None
  {
  }

  /**
   * The live entry at index `i`, if there is one, can be reached from its
   * key's base index without crossing a never-used slot.
   */
  ghost predicate Reachable<T>(s: seq<Slot<T>>, hash: string -> int, i: nat)
    requires i < |s|
  {
    s[i].Occupied? ==>
      Passable(s, Home(hash, s[i].key, |s|), 0, OffsetOf(Home(hash, s[i].key, |s|), i, |s|))
  }

  /**
   * The table invariant of linear probing: every live entry is reachable. A
   * table without live entries satisfies it.
   */
  ghost predicate Chains<T>(s: seq<Slot<T>>, hash: string -> int)
    ensures (forall i :: 0 <= i < |s| ==> !s[i].Occupied?) ==> Chains(s, hash)
  {
    forall i :: 0 <= i < |s| ==> Reachable(s, hash, i)
  }

  /** Under the table invariant the search finds a key exactly when the key is live. */
  lemma SearchComplete<T>(s: seq<Slot<T>>, hash: string -> int, key: string)
    requires |s| > 0 && Chains(s, hash)
    ensures Search(s, key, Home(hash, key, |s|), 0).Some? <==> Live(s, key)
  {
    var b := Home(hash, key, |s|);
    var r := Search(s, key, b, 0);
    if r.Some? {
      assert Holds(s[Pos(b, r.value, |s|)], key);
    }
    if Live(s, key) {
      var i :| 0 <= i < |s| && Holds(s[i], key);
      var o := OffsetOf(b, i, |s|);
      assert Reachable(s, hash, i);
      assert Holds(At(s, b, o), key);
    }
  }

  /** The value `get` returns: the one held at the offset the search finds. */
  function Lookup<T>(s: seq<Slot<T>>, hash: string -> int, key: string): (r: Option<T>)
    ensures r.Some? ==> exists i :: 0 <= i < |s| && s[i] == Occupied(key, r.value)
  {
    if |s| == 0 then None
    else
      var b := Home(hash, key, |s|);
      match Search(s, key, b, 0)
      case Some(d) => Some(At(s, b, d).value)
      case None => None
  }

  /** The index `find` returns: the slot the search finds, or -1. */
  function Locate<T>(s: seq<Slot<T>>, hash: string -> int, key: string): (r: int)
    ensures -1 <= r < |s|
    ensures r == -1 <==> Lookup(s, hash, key).None?
    ensures r >= 0 ==> Holds(s[r], key) && Lookup(s, hash, key) == Some(s[r].value)
  {
    if |s| == 0 then -1
    else
      var b := Home(hash, key, |s|);
      match Search(s, key, b, 0)
      case Some(d) => Pos(b, d, |s|)
      case None => -1
  }

  /** The table after a successful `set`: the entry fills the first slot without a value. */
  function Inserted<T>(s: seq<Slot<T>>, hash: string -> int, key: string, value: T): (t: seq<Slot<T>>)
    requires Count(s) < |s|
    ensures |t| == |s| && Count(t) == Count(s) + 1
  {
    var b := Home(hash, key, |s|);
    FreeExists(s, b);
    CountUpdate(s, Pos(b, FreeOffset(s, b, 0), |s|), Occupied(key, value));
    s[Pos(b, FreeOffset(s, b, 0), |s|) := Occupied(key, value)]
  }

  /** The table after `delete`: the slot the search finds becomes a zombie, if there is one. */
  function Removed<T>(s: seq<Slot<T>>, hash: string -> int, key: string): (t: seq<Slot<T>>)
    ensures |t| == |s|
  {
    if |s| == 0 then s
    else
      var b := Home(hash, key, |s|);
      match Search(s, key, b, 0)
      case Some(d) => s[Pos(b, d, |s|) := Zombie]
      case None => s
  }
}
