# HashMapJC in Dafny

A model of `HashMapJC`, a fixed-capacity hash map. It maps strings to values and
resolves collisions by open addressing with linear probing. The map keeps three
parallel arrays (`values`, `keys`, `zombieIndicator`) and a count of live
entries. A deleted slot becomes a *zombie*: it has no value, but it still
extends the probes that pass over it. The same key may be stored several times,
and each `set` adds a further entry.

The project has five modules:

- `Probing` (`probing.dfy`) is the abstract table: a sequence of slots, each
  `Empty` (never used), `Zombie` or `Occupied(key, value)`. It defines the probe
  walks as functions over it:
  - `Search`: the walk of `contains` and `find`, which passes over occupied and
    zombie slots and stops at a never-used one;
  - `FreeOffset`: the walk of `set`, which passes over occupied slots only.

  It also defines the live count `Count` and the table after a `set` or a
  `delete` (`Inserted`, `Removed`). The table invariant `Chains` says that every
  live entry can be reached from its key's base index without crossing a
  never-used slot.
- `TableFacts` (`table_facts.dfy`) holds what `set` and `delete` do to the
  abstract table: the count, the invariant, which keys are live, and what later
  lookups of the same key and of other keys return. It includes the order in
  which duplicates come back.
- `HashMap` (`hashmap.dfy`) is the class `HashMapJC`. Its methods update the
  three arrays in place with the original's loops. A ghost field `slots` is tied
  to the arrays and the count by `Valid()`. Every method is proved against the
  `Probing` functions.
- `Scenarios` (`scenarios.dfy`) replays each unit test of `HashMapJCTest.java`
  as a client of the class. Each method's postcondition is what the test
  asserts.
- `JavaIndex` (`java_index.dfy`) computes the base index in 32-bit Java
  arithmetic. It shows the negative index described under Findings.

The hash code is a parameter of the table, a function `hash: string -> int`
fixed when the table is built. The base index is
`|hash(key)| mod capacity`, taken with the mathematical absolute value.

`set` probes to the first slot *without a value*, as the code tests
`values[code] != null`. So a `set` may reuse a zombie slot, including one that
lies before an entry of the same key. `get` then returns the new value, because
it is the entry nearest the base index (`TableFacts.SearchAfterInsert`). This
agrees with the `get` documentation, which promises the value closest to the
key's base index.

Every scenario holds for every hash function. `testSetNotEmpty` is the first
result of `Scenarios.SetDeleteEmpty`.

## Model

| member | source | states |
|---|---|---|
| HashMap.Stores | HashMapJC.java:33-49 | How one slot lies in the three arrays: a slot has a value exactly when it has a key and is live, and a slot with a value is never flagged as a zombie. |
| HashMap.HashMapJC.Valid | HashMapJC.java:20-49 | The arrays have `capacity` slots, values and keys are null together, a non-null slot is never a zombie, and the count lies in [0, capacity]. |
| HashMap.HashMapJC.constructor | HashMapJC.java:56-62 | A new table of `size` slots has every slot never used, a count of 0, and satisfies the table invariant. |
| HashMap.HashMapJC.Set | HashMapJC.java:74-98 | Succeeds exactly when some slot holds no entry. On success it stores the entry in the first slot without a value on the key's probe, which may be a zombie slot. It clears that slot's zombie flag, adds exactly 1 to the count, changes no other slot and keeps the invariant. On failure nothing changes. |
| HashMap.HashMapJC.Get | HashMapJC.java:112-119 | Returns the value of the first live entry of the key along its probe, and `None` exactly when the key is not live. |
| HashMap.HashMapJC.Delete | HashMapJC.java:132-144 | For a live key, it turns the slot `get` would read into a zombie with no value and no key. It returns that slot's value and subtracts 1 from the count. For an absent key it returns `None` and changes no array. The invariant is kept. |
| HashMap.HashMapJC.Load | HashMapJC.java:152-154 | The load factor lies in [0, 1] and, multiplied by the capacity, gives the live count. |
| HashMap.HashMapJC.Contains | HashMapJC.java:164-210 | Returns false on an empty table. Otherwise it returns true exactly when the probe from the base index, over occupied and zombie slots, reaches a live entry of the key before a never-used slot. Under the invariant this is exactly when the key is live. The probe takes at most capacity + 1 steps. |
| HashMap.HashMapJC.Find | HashMapJC.java:227-254 | When the key is live, the loop ends and returns the index of the first live entry of the key in probe order. When the key is not live and some slot was never used, it returns -1. |
| HashMap.HashMapJC.IsZombie | HashMapJC.java:271-273 | True exactly when the slot has no value and held an entry that was deleted. |
| HashMap.HashMapJC.IsEmpty | HashMapJC.java:279-281 | True exactly when no slot holds a live entry. |
| HashMap.HashMapJC.IsFull | HashMapJC.java:287-289 | True exactly when every slot holds a live entry. |
| HashMap.HashMapJC.GetNumElements | HashMapJC.java:296-298 | The count is the number of slots holding a live entry, so it lies between 0 and the capacity. |
| Probing.Home | HashMapJC.java:81 | The base index of a key lies in [0, capacity). |
| Probing.OffsetOf | HashMapJC.java:84-90 | Every index is visited exactly once by a probe, at exactly one offset. |
| Probing.Count | HashMapJC.java:96 | The live count never exceeds the capacity, and a count of 0 means no slot holds an entry. |
| Probing.UnusedCount | HashMapJC.java:56-62 | A table of never-used slots has a live count of 0. |
| Probing.CountUpdate | HashMapJC.java:93-96 | Overwriting one slot changes the count by exactly what the old and new slot contribute: +1 for filling a slot, -1 for deleting an entry. |
| Probing.CountZero | HashMapJC.java:279-281 | A count of 0 holds if and only if no slot holds an entry. |
| Probing.CountFull | HashMapJC.java:287-289 | A count equal to the capacity holds if and only if every slot holds an entry. |
| Probing.Search | HashMapJC.java:181-207 | A result is the first offset holding the key, reached without crossing a never-used slot. No result means no such offset before the first never-used slot. |
| Probing.FreeOffset | HashMapJC.java:84-90 | The offset of the first slot without a value: every earlier slot on the probe is occupied. |
| Probing.FreeExists | HashMapJC.java:76-90 | In a table that is not full, the probe of `set` reaches a slot without a value within one round, from any base index. |
| Probing.EmptyReached | HashMapJC.java:235-252 | If any slot was never used, every probe reaches one within one round. |
| Probing.SearchIs | HashMapJC.java:238-242 | The search yields the first reachable live entry of the key. |
| Probing.SearchStops | HashMapJC.java:235 | The search yields nothing when it reaches a never-used slot without having met the key. |
| Probing.ClearedStep | HashMapJC.java:235-251 | Passing a used slot that does not hold the key extends the stretch already cleared by one. |
| Probing.SearchComplete | HashMapJC.java:164-210 | Under the invariant, the probe of `contains` finds the key if and only if the key is live. |
| Probing.Chains | HashMapJC.java:33-49 | The invariant `contains`, `get` and `delete` rely on: every live entry can be reached from its key's base index without crossing a never-used slot. A table without live entries satisfies it. |
| Probing.Lookup | HashMapJC.java:112-119 | The value `get` returns: when there is one, it belongs to a live entry of the key. |
| Probing.Locate | HashMapJC.java:227-254 | The index `find` returns lies in [-1, capacity). It is -1 exactly when `get` returns nothing, and otherwise it holds the key and the value `get` returns. |
| Probing.Inserted | HashMapJC.java:93-96 | A successful `set` keeps the capacity and adds exactly one to the live count. |
| Probing.Removed | HashMapJC.java:136-139 | A `delete` keeps the capacity. |
| TableFacts.SearchCongruent | HashMapJC.java:181-207 | The probe depends only on which slots were never used and which hold the key. |
| TableFacts.SearchNone | HashMapJC.java:181-209 | The probe yields nothing when no entry of the key can be reached. |
| TableFacts.ProbeEnd | HashMapJC.java:227-254 | When the key is live or a slot was never used, the loop of `find` reaches a match or a never-used slot within one round. |
| TableFacts.LocateFound | HashMapJC.java:227-254 | Under the invariant, `find` yields an index holding the key if and only if the key is live, and -1 otherwise. |
| TableFacts.PassableMono | HashMapJC.java:93-95 | Filling or deleting a slot never creates a never-used slot, so every stretch a probe could cross stays crossable. |
| TableFacts.UnusedTable | HashMapJC.java:56-62 | A new table satisfies the invariant and has count 0. Every key is absent from it: `get` gives nothing, `find` gives -1 and `delete` changes nothing. |
| TableFacts.InsertedAt | HashMapJC.java:84-95 | A successful `set` fills the slot at the first offset of the key's probe that holds no value (a never-used or zombie slot), every earlier offset being occupied. That slot then holds the new entry and every other slot is as it was. |
| TableFacts.InsertedChains | HashMapJC.java:74-98 | `set` preserves the invariant. |
| TableFacts.NewEntryReachable | HashMapJC.java:84-90 | The slot `set` fills is reached from the base index without crossing a never-used slot. |
| TableFacts.InsertedLive | HashMapJC.java:74-98 | After `set(key, v)`, a key is live if and only if it is `key` or was live before. |
| TableFacts.SearchAfterInsert | HashMapJC.java:84-95 | After `set`, the probe for the same key stops at whichever comes first: its old first match or the slot just filled. |
| TableFacts.LookupAfterInsertFresh | HashMapJC.java:101-119 | If the key was not live, `get` right after `set(key, v)` returns `v`. |
| TableFacts.LookupAfterInsertDuplicate | HashMapJC.java:101-119 | In a table without zombies, storing a duplicate leaves what `get` returns for that key unchanged. |
| TableFacts.LookupAfterInsertOther | HashMapJC.java:74-119 | `set` of one key leaves what `get` returns for every other key unchanged. |
| TableFacts.RemovedCount | HashMapJC.java:132-144 | `delete` lowers the count by exactly one when the key is found, and otherwise leaves the table as it was. |
| TableFacts.RemovedChains | HashMapJC.java:132-144 | `delete` preserves the invariant. |
| TableFacts.RemovedLive | HashMapJC.java:132-144 | `delete` leaves every slot holding another key as it was and gives no slot another key, so a key other than the deleted one is live afterwards exactly when it was before. |
| TableFacts.SearchAfterRemove | HashMapJC.java:132-144 | After `delete`, the probe for the same key resumes just past the slot it emptied. |
| TableFacts.LookupAfterRemoveOther | HashMapJC.java:132-144 | `delete` of one key leaves what `get` returns for every other key unchanged. |
| TableFacts.InsertStep | HashMapJC.java:84-95 | Along the key's probe, `set` changes only the slot at the first free offset. |
| TableFacts.ThreeInserts | HashMapJC.java:84-95 | Three successive `set`s of one key fill three slots at strictly increasing offsets of its probe. |
| TableFacts.RemovedAt | HashMapJC.java:134-138 | When the key is found, `delete` turns exactly the found slot into a zombie. |
| TableFacts.RemoveExposes | HashMapJC.java:132-144 | Deleting the first match of a key makes `get` return the next match along its probe. |
| TableFacts.RemoveLast | HashMapJC.java:132-144 | Deleting the last match of a key makes `get` return nothing. |
| TableFacts.DeletesInProbeOrder | HashMapJCTest.java:92-102 | With three entries of a key in probe order, `get` and successive `delete`s yield their values nearest-first, and then nothing. |
| TableFacts.ThreeInsertsInProbeOrder | HashMapJCTest.java:68-77 | Three `set`s of a key that was not live leave its entries in probe order, in the order they were stored. |
| TableFacts.ReplaceKeepsOrder | HashMapJC.java:93-95 | Overwriting a slot that does not hold the key, with a slot that is neither never-used nor an entry of the key, keeps the key's three entries and their order. |
| TableFacts.InsertKeepsOrder | HashMapJCTest.java:81-85 | A `set` of another key keeps a key's three entries and their order. |
| TableFacts.RemoveKeepsOrder | HashMapJCTest.java:87-89 | A `delete` of another key keeps a key's three entries and their order. |
| TableFacts.DuplicatesInProbeOrder | HashMapJCTest.java:66-105 | Three values stored under a key that was not live come back out of `get` and successive `delete`s in the order they were stored, and then the key is gone. |
| Scenarios.SetThenGet | HashMapJCTest.java:47-48 | `set` then `get`: the table changes as `Inserted` says, and the value got is what the new table holds. |
| Scenarios.DeleteStep | HashMapJCTest.java:92-94 | `contains`, `delete`, `get`: `contains` reports whether the key was found, and the table changes as `Removed` says. |
| Scenarios.SetRepeatedly | HashMapJCTest.java:111-123 | A run of `set`s on a table with room for them all adds one live entry each. |
| Scenarios.NewEmpty | HashMapJCTest.java:24-27 | A new table is empty. |
| Scenarios.SetDeleteEmpty | HashMapJCTest.java:30-42 | A table with one entry is not empty, and deleting that key empties it. |
| Scenarios.SetGetEqual | HashMapJCTest.java:45-55 | Each of three fresh keys yields its own value right after it is stored. |
| Scenarios.NotContains | HashMapJCTest.java:57-63 | A key never stored is neither returned nor deleted. |
| Scenarios.SameKeyFirst | HashMapJCTest.java:68-72 | `contains` is false, then `set` and `get` return the value, then `contains` is true. |
| Scenarios.SameKeyStore | HashMapJCTest.java:68-79 | After three `set`s of one key, `get` still returns the first value and the count is 3. |
| Scenarios.SameKeyOther | HashMapJCTest.java:81-90 | A `set` and a `delete` of another key adjust the count to 4 and back to 3. `get` of the first key returns 1 throughout. |
| Scenarios.SameKeyDelete | HashMapJCTest.java:92-104 | Successive `delete`s expose 11, then 111, then nothing, and leave the table empty. |
| Scenarios.SameKey | HashMapJCTest.java:66-105 | Every assertion of the test of one key stored three times, for every capacity of at least 4. |
| Scenarios.Full | HashMapJCTest.java:108-125 | After 1, 3 and 6 `set`s a table of 10 slots is not full, and after 10 it is. |
| Scenarios.LoadFactor | HashMapJCTest.java:128-143 | The load factor is 0, then 0.5 after five `set`s, then 1 after ten. |
| Scenarios.GetDeleteEmpty | HashMapJCTest.java:146-155 | `get` and `delete` on an empty table return nothing. |
| Scenarios.SetLimit | HashMapJCTest.java:158-171 | The tenth `set` into a table of 10 slots succeeds and the eleventh fails. |
| JavaIndex.Wrap32 | HashMapJC.java:81 | Reducing to 32 bits yields a 32-bit integer, is the identity on 32-bit integers, and changes a value by a multiple of 2^32. |
| JavaIndex.StringHashCode | HashMapJC.java:81 | A hash code is a 32-bit integer. |
| JavaIndex.JavaAbs | HashMapJC.java:81 | `Math.abs` equals the absolute value on every 32-bit integer except the least, where it stays negative. |
| JavaIndex.JavaRem | HashMapJC.java:81 | Java's `%` by a positive capacity lies in [0, n) for a non-negative dividend and in (-n, 0] for a negative one. |
| JavaIndex.JavaBaseIndex | HashMapJC.java:81 | The index as written lies in (-capacity, capacity). It is non-negative for every hash code but the least, and for the least it is minus 2^31 mod capacity, so it is never positive. |
| JavaIndex.BaseIndexAgrees | HashMapJC.java:81 | For every hash code except the least, the index as written equals `Probing.Home` and lies in [0, capacity). |
| JavaIndex.WrapBy | HashMapJC.java:81 | Wrapping subtracts the one multiple of 2^32 that brings a value into range. |
| JavaIndex.HashStep | HashMapJC.java:81 | One step of `String.hashCode`: the hash of a prefix one character longer is 31 times the previous hash plus that character, wrapped. |
| JavaIndex.HashOfFirstNine | HashMapJC.java:81 | The first nine characters of "polygenelubricants" hash to 235499435. |
| JavaIndex.NegativeBaseIndex | HashMapJC.java:81 | "polygenelubricants" hashes to the least 32-bit integer, and its index as written in a table of 10 slots is -8. |

## Left out

- `String.hashCode` is a parameter of the table (`hash`) and is not computed. `JavaIndex` computes it only to exhibit the finding below.
- JavaIndex.StringHashCode: equals `String.hashCode` only on strings whose characters all lie below U+10000. Java sums UTF-16 code units, and a character above U+FFFF is two code units there but one `char` here. The key of the finding is ASCII.
- `Math.abs` of the least 32-bit integer is not reproduced in the table model. `Probing.Home` uses the mathematical absolute value; see Findings.
- `HashMap.HashMapJC.Load`: Java divides as `float`, and the model divides exactly as `real`. It requires capacity > 0, because Java's `0/0` gives NaN there.
- Null keys and null values cannot occur. Keys are `string` and values any `T`; the arrays hold `Option`s, with `None` for Java's null. So `set(k, null)`, which in Java adds to the count without occupying a slot, has no counterpart.
- A negative size is excluded by the type `nat`. Java's array allocation would throw `NegativeArraySizeException`.
- `numElements` is an unbounded integer. It stays between 0 and the capacity, so the 32-bit field cannot overflow.
- `HashMap.HashMapJC.Find`: it requires that the key is live or that some slot was never used. Otherwise Java's loop never ends. The class calls `find` only after `contains` returned true.
- `HashMap.HashMapJC.Contains`: it also returns a ghost count of its probe steps, which the original does not return.
- The generic array cast `(T[]) new Object[capacity]` and the JUnit harness are not part of this model. The tests are restated as the methods of `Scenarios`.
- `Scenarios.SameKey` is proved for every capacity of at least 4; the test uses 10. The other scenarios use 10 slots, as the test fixture does.

## Findings

| source | as written | input that shows it | evidently intended | confidence | as-written member | corrected member |
|---|---|---|---|---|---|---|
| HashMapJC.java:81 (also 171, 229) | `Math.abs(key.hashCode()) % this.capacity` can be negative: `Math.abs` of the least `int` is itself, and Java's `%` keeps the sign of the dividend | key `"polygenelubricants"`, whose `hashCode()` is -2147483648, in a table of 10 slots: the index is -8, so `set` on a table that is not full, and `contains` (and with it `get` and `delete`) on a table that is not empty, read `values[-8]` and throw `ArrayIndexOutOfBoundsException` | a base index in [0, capacity) for every key | high; not executed | JavaIndex.NegativeBaseIndex | Probing.Home (agreeing with the code elsewhere by JavaIndex.BaseIndexAgrees) |
