/**
 * The base index as the original computes it on 32-bit Java integers:
 * `Math.abs(key.hashCode()) % capacity`, for keys whose characters are each
 * one UTF-16 code unit. `Math.abs` of the least 32-bit
 * integer is that integer itself, and Java's `%` keeps the sign of its left
 * operand, so one hash code yields a negative index. The rest of the model
 * uses `Probing.Home`, whose index is always in range.
 */
module JavaIndex {
  import opened Probing

  const IntMin: int := -0x8000_0000
  const IntLimit: int := 0x8000_0000

  /** A 32-bit two's-complement integer. */
  predicate IsInt32(x: int) {
    IntMin <= x < IntLimit
  }

  /** Reduction of an unbounded integer to 32 bits, as Java's `int` arithmetic wraps. */
  function Wrap32(x: int): (r: int)
    ensures IsInt32(r)
    ensures IsInt32(x) ==> r == x
    ensures (r - x) % 0x1_0000_0000 == 0
  {
    (x + IntLimit) % 0x1_0000_0000 - IntLimit
  }

  /**
   * `String.hashCode`: s[0]*31^(n-1) + ... + s[n-1], computed in wrapping
   * 32-bit arithmetic over the characters of `s`. Java sums UTF-16 code units,
   * so the two agree on strings whose characters all lie below U+10000.
   */
  function StringHashCode(s: string): (h: int)
    ensures IsInt32(h)
  {
    if s == [] then 0 else Wrap32(31 * StringHashCode(s[..|s| - 1]) + s[|s| - 1] as int)
  }

  /** `Math.abs` on `int`: the least integer has no positive counterpart and is returned as is. */
  function JavaAbs(x: int): (r: int)
    requires IsInt32(x)
    ensures IsInt32(r)
    ensures x != IntMin ==> r == Abs(x)
    ensures x == IntMin ==> r < 0
  {
    if x == IntMin then IntMin else Abs(x)
  }

  /** Java's `%` for a positive divisor: the remainder takes the sign of the dividend. */
  function JavaRem(a: int, n: int): (r: int)
    requires n > 0
    ensures a >= 0 ==> 0 <= r < n
    ensures a < 0 ==> -n < r <= 0
  {
    if a >= 0 then a % n else -((-a) % n)
  }

  /** The base index as written: `Math.abs(hashCode) % capacity`. */
  function JavaBaseIndex(h: int, n: int): (r: int)
    requires IsInt32(h) && n > 0
    ensures -n < r < n
    ensures h != IntMin ==> 0 <= r
    ensures h == IntMin ==> r == -(IntLimit % n) && r <= 0
  {
    JavaRem(JavaAbs(h), n)
  }

  /** For every hash code but the least one, the index as written is the model's `Home`. */
  lemma BaseIndexAgrees(hash: string -> int, key: string, n: nat)
    requires n > 0 && IsInt32(hash(key)) && hash(key) != IntMin
    ensures JavaBaseIndex(hash(key), n) == Home(hash, key, n)
    ensures 0 <= JavaBaseIndex(hash(key), n) < n
  {
  }

  /** Wrapping subtracts a whole number of 2^32s: the one that brings the value into range. */
  lemma WrapBy(x: int, k: int)
    requires IsInt32(x - k * 0x1_0000_0000)
    ensures Wrap32(x) == x - k * 0x1_0000_0000
  {
    var y := x + IntLimit;
    assert y == k * 0x1_0000_0000 + (x - k * 0x1_0000_0000 + IntLimit);
  }

  /**
   * One step of the hash over the prefixes of `key`: from the hash `h` of the
   * first i-1 characters and the i-th character `c`, with the wrap-around the
   * step causes given as `k`.
   */
  lemma HashStep(key: string, i: nat, h: int, c: char, k: int)
    requires 0 < i <= |key| && key[i - 1] == c && StringHashCode(key[..i - 1]) == h
    requires IsInt32(31 * h + c as int - k * 0x1_0000_0000)
    ensures StringHashCode(key[..i]) == 31 * h + c as int - k * 0x1_0000_0000
  {
    assert key[..i][..i - 1] == key[..i - 1];
    WrapBy(31 * h + c as int, k);
  }

  /** The first nine characters of "polygenelubricants" hash to 235499435. */
  lemma HashOfFirstNine(key: string)
    requires key == "polygenelubricants"
    ensures StringHashCode(key[..9]) == 235499435
  {
    assert key[..0] == [];
    HashStep(key, 1, 0, 'p', 0);
    HashStep(key, 2, 112, 'o', 0);
    HashStep(key, 3, 3583, 'l', 0);
    HashStep(key, 4, 111181, 'y', 0);
    HashStep(key, 5, 3446732, 'g', 0);
    HashStep(key, 6, 106848795, 'e', 1);
    HashStep(key, 7, -982654550, 'n', -7);
    HashStep(key, 8, -397519868, 'e', -3);
    HashStep(key, 9, 561786081, 'l', 4);
  }

  /**
   * The key "polygenelubricants" hashes to the least integer, so on a table of
   * 10 slots the index as written is -8: `set` on a table that is not full,
   * and `contains` on one that is not empty, would read the arrays at a
   * negative index.
   */
  lemma NegativeBaseIndex(key: string)
    requires key == "polygenelubricants"
    ensures StringHashCode(key) == IntMin
    ensures JavaBaseIndex(StringHashCode(key), 10) == -8
  {
    HashOfFirstNine(key);
    HashStep(key, 10, 235499435, 'u', 2);
    HashStep(key, 11, -1289451990, 'b', -9);
    HashStep(key, 12, -1318305928, 'r', -10);
    HashStep(key, 13, 2082189306, 'i', 15);
    HashStep(key, 14, 123359151, 'c', 1);
    HashStep(key, 15, -470833516, 'a', -3);
    HashStep(key, 16, -1710937011, 'n', -12);
    HashStep(key, 17, -1499439679, 't', -11);
    HashStep(key, 18, 762010323, 's', 6);
    assert key[..|key|] == key;
  }
}
