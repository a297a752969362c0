# LongMap in Dafny

This project models `LongMapImpl`, a hand-written chained hash table from
`long` keys to values, together with its reference key-validation policy
`MapValidationStrategyImpl`.

The map keeps three pieces of mutable state:

- `hashTable`, an array of bucket slots. A slot is `null`, or a wrapper node whose list holds the bucket's entries.
- `size`, the entry counter.
- `threshold`, the growth bound.

Every key-bearing operation asks the validation policy first. The model is written the way the code behaves, including its odd paths:

- A new key that lands in an allocated slot is dropped unless its full hash code equals a stored entry's and its value differs from that entry's.
- `remove` on a one-entry bucket deletes that entry whatever its key, and leaves the slot allocated and empty.
- Such a dead slot swallows every later `put` to it, until the table grows or is cleared.
- Growth is checked at the start of every `put`, overwrites included: when `size + 1 >= threshold`, both the threshold and the capacity double.

Layout:

- `hashing.dfy` (module `Hashing`): the slot index as Java computes it. That is `Long.hashCode`, the `31 * 17 + h` mix in wrapping 32-bit `int`, and Java's truncating `%`. It also proves that for keys `0 .. 2^31 - 528` the index is `(527 + key) % capacity` and that distinct keys have distinct hash codes.
- `validation.dfy` (module `KeyValidation`): `validateKey` as a verdict, and the policy predicate `Accepts`.
- `buckets.dfy` (module `Buckets`): the slot array as a value, `seq<Slot<V>>`. It defines what `put`'s insertion step, `arrayDoubling`, `get` and `remove` do to it, and `Lookup`, the key-to-value view that `get` answers from. It also defines the invariant `WellPlaced`: each allocated bucket holds at most one entry, in the slot its key hashes to.
- `longmap.dfy` (module `LongMapImpl`): class `LongMap` over an `array` of slots. Its methods are proved to change the array exactly as the `Buckets` functions say, and they keep the class invariant `Valid()`.
- `scenarios.dfy` (module `Scenarios`): the unit tests' call sequences under the reference policy, plus the shared-slot path of `remove`, each with its exact results proved.

`valid`, the validation policy, is a constructor parameter. Every key-bearing method requires `Covered(key)`: the key is a `long`, and if the policy accepts it, it lies in `0 .. 2^31 - 528`.

## Model

Source paths are relative to the repository root.

| member | source | states |
|---|---|---|
| Hashing.WrapInt | src/main/java/de/comparus/opensource/longmap/LongMapImpl.java:61-63 | a Java `int` result: within the 32-bit signed range and congruent to the exact value modulo 2^32 |
| Hashing.HashCode | src/main/java/de/comparus/opensource/longmap/LongMapImpl.java:60-64 | `Node.hashCode()`, that is `31 * 17 + Long.hashCode(key)` in wrapping `int`, always a Java `int` |
| Hashing.JavaRem | src/main/java/de/comparus/opensource/longmap/LongMapImpl.java:183 | Java's `%`: magnitude below the divisor, sign of the dividend, identity on `0 .. n-1` |
| Hashing.Index | src/main/java/de/comparus/opensource/longmap/LongMapImpl.java:180-184 | `hash(key)` and `Node.hash()`: for a key in the safe range it is `(527 + key) % capacity` and lies inside the table |
| Hashing.LongHashCode | src/main/java/de/comparus/opensource/longmap/LongMapImpl.java:62 | `Long.hashCode(key)`, the fold `(int)(key ^ (key >>> 32))` with the narrowing written out; `SmallLongHashCode` states that it is the key itself below 2^31, and `MinusOneCollidesWithZero` that it is 0 for -1 |
| Hashing.SmallLongHashCode | src/main/java/de/comparus/opensource/longmap/LongMapImpl.java:62 | `Long.hashCode` of a key below 2^31 is the key itself |
| Hashing.SafeHashCode | src/main/java/de/comparus/opensource/longmap/LongMapImpl.java:60-64 | for a safe key nothing wraps: the hash code is `527 + key` |
| Hashing.SafeHashCodeInjective | src/main/java/de/comparus/opensource/longmap/LongMapImpl.java:138-140 | two safe keys have equal hash codes exactly when they are equal, so `processCollision` never fires for safe keys |
| Hashing.IndexDoubling | src/main/java/de/comparus/opensource/longmap/LongMapImpl.java:148-159 | two safe keys that share a slot after doubling already shared one before it |
| Hashing.NegativeIndexAboveSafeKeys | src/main/java/de/comparus/opensource/longmap/LongMapImpl.java:180-184 | in a 16-slot table the first key above the safe range, `2^31 - 527`, wraps to hash code `-2^31` and gets index 0; the second, `2^31 - 526`, gets index -15, so `hashTable[index]` would throw |
| Hashing.MinusOneCollidesWithZero | src/main/java/de/comparus/opensource/longmap/LongMapImpl.java:60-64 | keys -1 and 0 have the same hash code 527, so distinct keys can collide outside the safe range |
| Hashing.ThreeKeysCollide | src/main/java/de/comparus/opensource/longmap/LongMapImpl.java:60-64 | keys 1, `2^32` and `2^33 + 3`, all accepted by the reference policy, share hash code 528, so outside the safe range three keys can land in one bucket |
| KeyValidation.RejectsExactlyNegative | src/main/java/de/comparus/opensource/longmap/utils/MapValidationStrategyImpl.java:6-10 | `validateKey` throws `IllegalArgumentException` exactly for negative keys, and returns normally for every other key |
| KeyValidation.ValidateKey | src/main/java/de/comparus/opensource/longmap/utils/MapValidationStrategyImpl.java:6-10 | `validateKey` as a verdict: `IllegalArgument` with the message "Key cannot be negative!" or `Accepted`; `RejectsExactlyNegative` states which keys get which |
| KeyValidation.Boundary | src/main/java/de/comparus/opensource/longmap/utils/MapValidationStrategyImpl.java:7 | the boundary is `key < 0`: -1 is rejected and 0 passes |
| Buckets.Flatten | src/main/java/de/comparus/opensource/longmap/LongMapImpl.java:256-263 | the walk `keys()` and `values()` make: allocated slots in index order, each bucket in list order; `FlattenMember` states that it lists exactly the stored entries |
| Buckets.KeysOf | src/main/java/de/comparus/opensource/longmap/LongMapImpl.java:256-263 | the keys of the walk in order; `KeysComplete` states that they are exactly the keys `get` finds |
| Buckets.ValuesOf | src/main/java/de/comparus/opensource/longmap/LongMapImpl.java:269-276 | the values of the walk in order; `ValuesComplete` states that they are exactly the values `get` returns for some key |
| Buckets.AnyValue | src/main/java/de/comparus/opensource/longmap/LongMapImpl.java:246-250 | the `containsValue` stream: some entry of some allocated slot holds the value; `AnyValueIff` ties it to `values()` |
| Buckets.Lookup | src/main/java/de/comparus/opensource/longmap/LongMapImpl.java:166-178 | what `get` returns: a value only when the key's slot holds an entry with that key and value, and `null` only when no entry of that slot has the key; `LookupMember` ties it to the stored entries |
| Buckets.FindKey | src/main/java/de/comparus/opensource/longmap/LongMapImpl.java:171-175 | the position of the first entry with the key, or none when no entry of the list has it |
| Buckets.FlattenMember | src/main/java/de/comparus/opensource/longmap/LongMapImpl.java:256-263 | an entry is listed by the `keys()`/`values()` walk exactly when it is in one of the slots |
| Buckets.FlattenAbsentTail | src/main/java/de/comparus/opensource/longmap/LongMapImpl.java:257 | absent slots are skipped: trailing `null` slots add nothing to the walk |
| Buckets.FlattenUpdateLength | src/main/java/de/comparus/opensource/longmap/LongMapImpl.java:116 | replacing one slot changes the entry count by the difference of the two buckets' sizes |
| Buckets.LookupMember | src/main/java/de/comparus/opensource/longmap/LongMapImpl.java:166-178 | in a well-placed table, `get` finds `v` for a key exactly when the entry `(key, v)` is stored |
| Buckets.SafeBucketScan | src/main/java/de/comparus/opensource/longmap/LongMapImpl.java:104-109 | in a well-placed table, `put`'s scan of an allocated bucket overwrites the single entry with the same key and a different value, and otherwise does nothing |
| Buckets.KeyExistButValueNew | src/main/java/de/comparus/opensource/longmap/LongMapImpl.java:120-131 | `keyExistButValueNew`: the node has the key and a different value; `InsertCases` states that `put` then overwrites it |
| Buckets.ProcessCollision | src/main/java/de/comparus/opensource/longmap/LongMapImpl.java:133-146 | `processCollision`: equal hash codes, a different key and a different value; `SafeHashCodeInjective` and `SafeBucketScan` state that it never holds for safe keys |
| Buckets.ScanPut | src/main/java/de/comparus/opensource/longmap/LongMapImpl.java:104-109 | `put`'s loop over a bucket: it does nothing exactly when no node satisfies `keyExistButValueNew` or `processCollision`, and otherwise it stops at the first node that satisfies one of them: an overwrite replaces that node and keeps every other, a collision appends the new entry at the end and keeps the colliding node |
| Buckets.Insert | src/main/java/de/comparus/opensource/longmap/LongMapImpl.java:95-110 | the insertion step keeps the table's length and keeps it well placed |
| Buckets.InsertCases | src/main/java/de/comparus/opensource/longmap/LongMapImpl.java:98-131 | the cases of `put`: an absent slot gets a bucket holding exactly the new entry and returns the value; the same key with a new value is overwritten and returns the value; an equal value, or a slot allocated without the key, changes nothing and returns `null` |
| Buckets.InsertLookup | src/main/java/de/comparus/opensource/longmap/LongMapImpl.java:95-110 | after the insertion step, `get` answers the new value for the key when `put` returned non-null, and the old answer for every other key |
| Buckets.InsertSize | src/main/java/de/comparus/opensource/longmap/LongMapImpl.java:113-118 | the entry count grows by one exactly when `put` stores a key that was absent |
| Buckets.InsertMembers | src/main/java/de/comparus/opensource/longmap/LongMapImpl.java:95-110 | the insertion step stores no entry other than the one it was given |
| Buckets.FlattenMemberUpdate | src/main/java/de/comparus/opensource/longmap/LongMapImpl.java:199-203 | replacing one slot can only bring in that slot's new entries |
| Buckets.FlattenAppend | src/main/java/de/comparus/opensource/longmap/LongMapImpl.java:256-263 | the walk over two tables side by side is the first table's walk, then the second's |
| Buckets.FlattenSafeKeys | src/main/java/de/comparus/opensource/longmap/LongMapImpl.java:152-158 | every entry of a well-placed table has a safe key |
| Buckets.FlattenEmptyTable | src/main/java/de/comparus/opensource/longmap/LongMapImpl.java:22-25 | a table of absent slots holds no entry, and is well placed |
| Buckets.InsertAll | src/main/java/de/comparus/opensource/longmap/LongMapImpl.java:152-158 | re-putting entries one after another keeps the table's length and keeps it well placed |
| Buckets.Grow | src/main/java/de/comparus/opensource/longmap/LongMapImpl.java:148-159 | `arrayDoubling` yields a well-placed table twice as long |
| Buckets.InsertAllAppend | src/main/java/de/comparus/opensource/longmap/LongMapImpl.java:152-158 | re-putting `a` and then `b` is re-putting `a + b` |
| Buckets.InsertAllSnoc | src/main/java/de/comparus/opensource/longmap/LongMapImpl.java:155 | re-putting one more entry is one more insertion step, and adds at most one entry |
| Buckets.FlattenMemberFill | src/main/java/de/comparus/opensource/longmap/LongMapImpl.java:113-118 | filling an absent slot adds exactly that slot's entries |
| Buckets.InsertIntoFreeSlot | src/main/java/de/comparus/opensource/longmap/LongMapImpl.java:98-99 | a `put` into an absent slot allocates a bucket holding just that entry and adds exactly it |
| Buckets.InsertAllFresh | src/main/java/de/comparus/opensource/longmap/LongMapImpl.java:152-158 | entries whose slots are free and pairwise distinct are all kept by re-putting |
| Buckets.FlattenPrefixSlots | src/main/java/de/comparus/opensource/longmap/LongMapImpl.java:152-158 | the entries of the first `n` slots of a well-placed table lie in distinct slots below `n` |
| Buckets.Rehashed | src/main/java/de/comparus/opensource/longmap/LongMapImpl.java:152-158 | after re-putting the entries of the first `i` old slots, the new table is still well placed |
| Buckets.RehashedStep | src/main/java/de/comparus/opensource/longmap/LongMapImpl.java:152-158 | one more old slot: its bucket is re-put after the earlier ones, its entries are old entries, and the count never exceeds the old table's |
| Buckets.SameEntriesSameLookup | src/main/java/de/comparus/opensource/longmap/LongMapImpl.java:166-178 | two well-placed tables holding the same entries answer `get` alike |
| Buckets.DoubledSlotsDistinct | src/main/java/de/comparus/opensource/longmap/LongMapImpl.java:148-159 | the entries of a well-placed table go to pairwise distinct slots of the doubled table |
| Buckets.GrowKeepsEntries | src/main/java/de/comparus/opensource/longmap/LongMapImpl.java:148-159 | growth loses nothing: same entry count, same entries, no allocated-but-empty slot, and `get` answers as before for every key |
| Buckets.GrowMember | src/main/java/de/comparus/opensource/longmap/LongMapImpl.java:148-159 | every entry of the grown table was an entry of the old one |
| Buckets.FlattenEntriesFound | src/main/java/de/comparus/opensource/longmap/LongMapImpl.java:256-276 | each listed entry is what `get` finds for its key, and no key is listed twice |
| Buckets.Unlink | src/main/java/de/comparus/opensource/longmap/LongMapImpl.java:192-216 | `remove`: it throws exactly when the key's slot is `null`; otherwise only that slot changes, a returned value belonged to an entry of that slot, and returning `null` changes nothing; `UnlinkEffect` and `UnlinkReturns` give the effect in a well-placed table |
| Buckets.UnlinkEffect | src/main/java/de/comparus/opensource/longmap/LongMapImpl.java:192-216 | `remove` throws exactly when the slot was never allocated; otherwise it empties the slot and leaves it allocated, `get` then finds nothing for every key of that slot and answers as before for the others, and the count drops by one exactly when a value is returned |
| Buckets.UnlinkReturns | src/main/java/de/comparus/opensource/longmap/LongMapImpl.java:192-216 | `remove` returns the key's value when the key is stored; any value it returns belongs to some key of the same slot; it returns `null` only from an already emptied slot |
| Buckets.UnlinkIgnoresKey | src/main/java/de/comparus/opensource/longmap/LongMapImpl.java:199-204 | keys 0 and 16 share slot 15: removing 16, which is absent, deletes key 0 and returns its value |
| Buckets.AnyValueIff | src/main/java/de/comparus/opensource/longmap/LongMapImpl.java:246-250 | the `containsValue` stream matches exactly when the value is among `values()` |
| Buckets.KeysComplete | src/main/java/de/comparus/opensource/longmap/LongMapImpl.java:256-263 | `keys()` lists exactly the keys `get` finds a value for |
| Buckets.ValuesComplete | src/main/java/de/comparus/opensource/longmap/LongMapImpl.java:269-276 | `values()` lists exactly the values `get` answers for some key |
| Buckets.EmptyIffNoLookup | src/main/java/de/comparus/opensource/longmap/LongMapImpl.java:222-224 | a well-placed table holds no entry exactly when `get` finds nothing for every key |
| LongMapImpl.LongMap.constructor | src/main/java/de/comparus/opensource/longmap/LongMapImpl.java:22-25 | 16 absent slots, threshold 12, size 0, and the class invariant holds |
| LongMapImpl.LongMap.Put | src/main/java/de/comparus/opensource/longmap/LongMapImpl.java:89-111 | a rejected key returns `InvalidKey` with nothing changed; otherwise, when `size + 1 >= threshold` the threshold doubles and the table grows first; the new table and the result are the insertion step's, `get` then answers the value for the key when the result is non-null and as before otherwise, `size` grows exactly when an absent key was stored, and the invariant, with `size < threshold`, is kept |
| LongMapImpl.LongMap.InsertEntry | src/main/java/de/comparus/opensource/longmap/LongMapImpl.java:95-110 | the array after the slot write or the list scan is the insertion step's table, the result is its return value, and `size` still counts the entries |
| LongMapImpl.LongMap.SimpleAdd | src/main/java/de/comparus/opensource/longmap/LongMapImpl.java:113-118 | the slot gets a bucket holding just the new entry, `size` grows by one, and the value is returned |
| LongMapImpl.LongMap.ArrayDoubling | src/main/java/de/comparus/opensource/longmap/LongMapImpl.java:148-159 | a fresh array holding `Grow` of the old slots, with the same `size` and threshold and every stored key still accepted |
| LongMapImpl.LongMap.RehashAll | src/main/java/de/comparus/opensource/longmap/LongMapImpl.java:152-158 | the walk over the old slots fills the fresh array with `Grow` of the old table, and `size` counts its entries |
| LongMapImpl.LongMap.PutAll | src/main/java/de/comparus/opensource/longmap/LongMapImpl.java:154-156 | re-putting one old bucket: each nested `put` passes validation and never grows again, so the array becomes the old one with the bucket's entries re-put in order |
| LongMapImpl.LongMap.GrowAccepted | src/main/java/de/comparus/opensource/longmap/LongMapImpl.java:155 | growth keeps the entry count, and every key of the grown table was accepted by the policy |
| LongMapImpl.LongMap.Get | src/main/java/de/comparus/opensource/longmap/LongMapImpl.java:166-178 | a rejected key gives `InvalidKey`; otherwise the value of the first entry with the key in its slot, or `null`, that is the view `Lookup` |
| LongMapImpl.LongMap.Remove | src/main/java/de/comparus/opensource/longmap/LongMapImpl.java:192-216 | a rejected key gives `InvalidKey` with nothing changed; otherwise the result and the new array are `Unlink`'s: `NoBucketWithSuchKey` for a never-allocated slot, else the slot is left allocated and empty, `size` drops exactly when a value is returned, and `get` finds nothing for every key of that slot and answers as before elsewhere |
| LongMapImpl.LongMap.EmptiedAccepted | src/main/java/de/comparus/opensource/longmap/LongMapImpl.java:199-203 | emptying a slot keeps every remaining key one the policy accepted |
| LongMapImpl.LongMap.RemoveFromBucket | src/main/java/de/comparus/opensource/longmap/LongMapImpl.java:206-215 | the first entry with the key is unlinked and its value returned with `size` one lower, or nothing changes and `null` is returned |
| LongMapImpl.LongMap.IsEmpty | src/main/java/de/comparus/opensource/longmap/LongMapImpl.java:222-224 | true exactly when `keys()` is empty, and exactly when `get` finds nothing for every key |
| LongMapImpl.LongMap.ContainsKey | src/main/java/de/comparus/opensource/longmap/LongMapImpl.java:231-239 | a rejected key gives `InvalidKey`; otherwise true exactly when `get` finds a value, and exactly when the key is among `keys()` |
| LongMapImpl.LongMap.ContainsValue | src/main/java/de/comparus/opensource/longmap/LongMapImpl.java:246-250 | true exactly when the value is among `values()`, and exactly when `get` answers it for some key |
| LongMapImpl.LongMap.Keys | src/main/java/de/comparus/opensource/longmap/LongMapImpl.java:256-263 | `size` keys, all safe, no key twice, and exactly the keys `get` finds a value for |
| LongMapImpl.LongMap.Values | src/main/java/de/comparus/opensource/longmap/LongMapImpl.java:269-276 | `size` values, position `j` holding the value `get` answers for key `j` of `keys()` |
| LongMapImpl.LongMap.Size | src/main/java/de/comparus/opensource/longmap/LongMapImpl.java:278-280 | the counter is non-negative and equals the number of keys listed |
| LongMapImpl.LongMap.Clear | src/main/java/de/comparus/opensource/longmap/LongMapImpl.java:285-296 | every slot absent and `size` 0, capacity and threshold as before, the invariant kept, and `get` finds nothing for every key |
| Scenarios.RejectNegative | src/test/java/de/comparus/opensource/longmap/LongMapImplTest.java:72-75 | a fresh map is empty, and under the reference policy `put(-1, ...)` is rejected with `InvalidKey` |
| Scenarios.PutFirst | src/main/java/de/comparus/opensource/longmap/LongMapImpl.java:98-99 | `put(1, "value")` into a fresh map allocates slot 0 with that one entry, giving size 1 and threshold 12 |
| Scenarios.GetAfterPut | src/test/java/de/comparus/opensource/longmap/LongMapImplTest.java:37-70 | after `put(1, "value")`: `get(1)` is the value, `get(2)` is `null`, `size()` is 1, and `remove(2)` throws `NoBucketWithSuchKeyException` |
| Scenarios.ContainsKeyAfterPut | src/test/java/de/comparus/opensource/longmap/LongMapImplTest.java:77-93 | after `put(1, "value")`: the map is not empty, and `containsKey` is true for 1 and false for 2 |
| Scenarios.FirstEntries | src/main/java/de/comparus/opensource/longmap/LongMapImpl.java:256-263 | after `put(1, "value")` the walk over the table lists exactly key 1's entry |
| Scenarios.ContainsValueAfterPut | src/test/java/de/comparus/opensource/longmap/LongMapImplTest.java:95-105 | after `put(1, "value")`: `containsValue` is true for `"value"` and false for `"value2"`, which stands in for the test's `2L` because a map of strings cannot hold a `long` |
| Scenarios.SharedSlot | src/main/java/de/comparus/opensource/longmap/LongMapImpl.java:199-204 | keys 1 and 17 share slot 0: `remove(17)` returns key 1's value, the next `put(1, ...)` returns `null`, and `get(1)` is then `null` |
| Scenarios.PrepareMap | src/test/java/de/comparus/opensource/longmap/LongMapImplTest.java:129-132 | two puts into a fresh map leave key 1 in slot 0, key 2 in slot 1 and every other slot absent |
| Scenarios.PreparedEntries | src/main/java/de/comparus/opensource/longmap/LongMapImpl.java:256-263 | the walk over that table lists key 1's entry, then key 2's |
| Scenarios.KeysAndValues | src/test/java/de/comparus/opensource/longmap/LongMapImplTest.java:107-127 | `keys()` is `[1, 2]` and `values()` is `["value", "value2"]` |
| Scenarios.RemoveSecond | src/test/java/de/comparus/opensource/longmap/LongMapImplTest.java:57-64 | `remove(2)` returns `"value2"` |
| Scenarios.ClearPrepared | src/test/java/de/comparus/opensource/longmap/LongMapImplTest.java:140-145 | after `clear`, `size()` is 0 and the map is empty |

## Left out

- Keys outside `0 .. 2^31 - 528` that the policy accepts: every key-bearing method requires `Covered(key)`. For such keys the `int` hash wraps. Some then get a negative index, and the Java code throws `ArrayIndexOutOfBoundsException` (`Hashing.NegativeIndexAboveSafeKeys` exhibits one). Others get an index inside the table and share a hash code with another key (`Hashing.ThreeKeysCollide`: keys 1, `2^32` and `2^33 + 3`). Only such keys reach the append path of `processCollision`, the `Node.equals` path of `remove` for buckets of two or more entries, and the exception in `clear` below. Inside the range hash codes never collide, so these paths are modelled (`Buckets.ScanPut`, `Buckets.Unlink`) but unreachable from a valid map.
- `Node.equals` in the multi-entry path of `remove`: `LinkedList.remove(node)` can also match another entry with an equal hash code. `RemoveFromBucket` deletes the matched entry itself, which is the same thing for safe keys.
- `null` values: they make `keyExistButValueNew` and `containsValue` throw `NullPointerException`. Values here are never `null`.
- An unset validator: the validator is set before use. The policy is a constructor parameter in place of `setContext`, and the delegate `ContextValidation` is folded into it.
- The inner removal loop in `clear`: for a bucket of three or more entries it throws `ConcurrentModificationException` before the slot is nulled and before `size` is reset. Keys in the modelled range never share a bucket, so the loop removes at most one entry and `Clear` only nulls the slots.
- The `float` threshold: it is exact for these power-of-two capacities and is modelled as the integer `capacity * 3 / 4`.
- The generic-array cast in `values()`: `Values` returns a sequence.
- Overflow of `size` and of the capacity: both are unbounded integers here. A table of 2^31 slots is out of reach anyway.
- Buckets are sequence values inside the slots, not shared `LinkedList` objects. Aliasing of a bucket list is not modelled; the source never shares one.
- `arrayDoubling`'s two nested loops are split: the outer loop is `RehashAll` and the inner loop is `PutAll`. Their behaviour is unchanged.
- `arrayDoubling`'s nested `put` is modelled as the insertion step alone. `PutAll` proves that validation passes and that the growth check is false at each call, so the rest of `put` does nothing there.
- `Application.java` (a demo `main` that prints) and the `LongMap` interface (signatures only) are not part of this model. The unit tests use a mock validator that accepts every key; `Scenarios` replays their calls under the reference policy, which accepts every key they use.
