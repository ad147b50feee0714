# Chained hash map, linked hash map, list-backed map and prime-sum sieve

This project is a Dafny model of the collection core of the `XmlPullTest`
repository, written in Java. It covers four pieces.

- `collection.map.HashMap` is a separate-chaining hash table.
  - The `table` has a power-of-two length, and each bucket holds a chain of entries that cache their hash.
  - Bit mixing and masking select a bucket.
  - It provides `get`, `put`, `remove` and `clear`.
  - `resize` doubles the table, but only when `size >= threshold` and the target bucket is not empty.
  - A `modCount` counter feeds the fail-fast `HashIterator`.
- `collection.map.LinkedHashMap` is the subclass that threads every entry onto a circular list anchored at a `header` sentinel.
  - It supports insertion order or access order.
  - `putFirst`/`putLast` work through the `createEntryAtBefore` field.
  - It offers first/last access and removal, the `removeFirstEntry(eldest)` eviction hook, and the `LinkedHashIterator`.
- `collection.map.LinkedMap` is a map over a list of key/value entries.
  - It has first-match lookup, put-or-append, head/tail insertion, positional `set`/`add`/`remove` and `indexOf`.
- `util.math.Math.computePrimeSum` is Lucy Hedgehog's sieve for the sum of the primes up to `range`.

The model follows the Java code's structure, file by file.

- **Hash table** (`hashing.dfy`, `chains.dfy`, `mapstate.dfy`, `hashmap.dfy`).
  - The table is a `class HashMap` with the Java fields: a bucket array `table: array<seq<Entry>>`, `size`, `threshold` and `modCount`.
  - A chain is a sequence from its head; an entry is the datatype `Entry(hash, key, value)`.
  - The linked subclass lives in the same class, selected by `kind`. Its circular list is `order`, the keys from `header.after` round to `header.before`.
  - `createEntryAtBefore` is `anchor`.
  - A ghost map `Contents` holds the mappings the table stands for.
  - `Valid()` ties all of these together:
    - every entry sits in bucket `hash & (length - 1)` with its hash cached;
    - keys are distinct within a chain;
    - the chains hold exactly the keys of `Contents`, with their values;
    - `size == |Contents|`;
    - the threshold belongs to the table length;
    - in a linked map, the order list holds the same keys once each.
  - Every method is proved against this invariant and against explicit effect predicates (`Added`, `Replaced`, `Removed`, `Evicted`, `Grown`).
- **Iterators** (`iterators.dfy`) are classes over a map.
  - Each keeps the Java fields (`next`, `index`, `current`/`lastReturned`, `expectedModCount`) and a ghost sequence of the keys still to come.
- **List-backed map** (`linkedmap.dfy`) is a `class LinkedMap` whose `entries` sequence stands for the `LinkedList` field.
- **Prime sum** (`primesum.dfy`) keeps the array `V`, the map `S` and the loops of the source.
  - It is proved against Lucy's recurrence `Lucy(v, p)`.
  - That recurrence is then proved equal to the sum of the numbers in `2 .. v` with no divisor in `2 .. p` below themselves.
  - At `p = isqrt(v)` that sum is the sum of the primes up to `v`, `SumPrimes(v)`.
- **Primes** (`primes.dfy`) is the number theory this rests on: primality, Euclid's lemma and prime factors.
- **Header links** (`headerlinks.dfy`) is a small value model of the header's links, used by the second finding below.

Keys are `Option<K>`, where `None` is Java's null key. Java's `==`/`equals` on keys is Dafny equality. A key's `hashCode()` is a function `K -> bv32` that each map is given.

## Model

| member | source | states |
|---|---|---|
| Hashing.Spread | src/collection/map/HashMap.java:63-68 | `hash(k)` XOR-folds the hash code by 20 and 12 bits and then by 7 and 4; a zero hash code keeps hash 0 |
| Hashing.HashOf | src/collection/map/HashMap.java:103 | the hash stored with a key: 0 for the null key, `hash(k)` of its hash code otherwise |
| Hashing.ZeroCodeInBucketZero | src/collection/map/HashMap.java:90-96 | a key whose hash code is 0 shares hash 0 and bucket 0 with the null key, which is why the null key's scan of bucket 0 compares keys |
| Hashing.IndexFor | src/collection/map/HashMap.java:70-72 | `indexFor(h, length)` for a power-of-two length is a bucket index in `[0, length)` |
| Hashing.IndexForIsMask | src/collection/map/HashMap.java:70-72 | the bucket index is exactly the unsigned value of `h & (length - 1)` |
| Hashing.NullKeyInBucketZero | src/collection/map/HashMap.java:103 | a null key has hash 0 and always lands in bucket 0 |
| Hashing.FloatNear | src/collection/map/HashMap.java:42 | the float that `MAXIMUM_CAPACITY + 1` becomes as an argument of the `float` `Math.min`: the nearest multiple of 128, ties to even |
| Hashing.ThresholdFor | src/collection/map/HashMap.java:42 | the threshold is `capacity * loadFactor` rounded down, capped at 2^30 (the float value of `MAXIMUM_CAPACITY + 1`), and it reaches the cap exactly when the product does |
| Hashing.TableCapacity | src/collection/map/HashMap.java:38-40 | the doubling loop ends at the least power of two not below the requested capacity |
| Hashing.DoubledCapacity | src/collection/map/HashMap.java:365-366 | doubling a table below the maximum capacity gives a valid power-of-two capacity |
| HashMaps.Create | src/collection/map/HashMap.java:31-45 | a negative capacity or a non-positive load factor throws `IllegalArgumentException`, and nothing else does; otherwise the map is empty, valid, and its table length is the least power of two covering the capacity |
| HashMaps.HashMap.constructor | src/collection/map/HashMap.java:31-45 | the new map is empty and valid, with least power-of-two capacity, threshold from the load factor, `modCount` 0, and (for the linked map, through `init` at src/collection/map/LinkedHashMap.java:48-51) an empty order list |
| HashMaps.HashMap.GetEntry | src/collection/map/HashMap.java:102-110 | the chain scan finds an entry exactly when the key is mapped, and returns that key's entry with its cached hash and value |
| HashMaps.HashMap.GetForNullKey | src/collection/map/HashMap.java:90-96 | scanning bucket 0 finds the null key's value exactly when the null key is mapped |
| HashMaps.HashMap.ContainsKey | src/collection/map/HashMap.java:98-100 | true exactly when the key is mapped |
| HashMaps.HashMap.ContainsValue | src/collection/map/HashMap.java:274-283 | scanning every bucket answers true exactly when some key maps to the value |
| HashMaps.HashMap.ContainsValueInOrder | src/collection/map/LinkedHashMap.java:65-76 | walking the order list answers the same: true exactly when some key maps to the value |
| HashMaps.HashMap.Transfer | src/collection/map/HashMap.java:176-190 | after the transfer the new table stands for the same mappings, each entry in bucket `indexFor(hash, newCapacity)` |
| HashMaps.HashMap.TransferChains | src/collection/map/HashMap.java:176-190 | the bucket-by-bucket relinking loop moves every entry, so the new table stands for the same mappings |
| HashMaps.HashMap.TransferInOrder | src/collection/map/LinkedHashMap.java:54-63 | relinking along the order list also moves every entry, so the new table stands for the same mappings |
| HashMaps.HashMap.Resize | src/collection/map/HashMap.java:163-174 | at the maximum capacity only the threshold becomes `Integer.MAX_VALUE`; otherwise a fresh table of the new capacity holds the same mappings, with the threshold recomputed; size, order and `modCount` stay unchanged |
| HashMaps.HashMap.CreateEntry | src/collection/map/HashMap.java:374-378 | the new entry goes on the head of its bucket, `size` grows by one and, in a linked map, the key is linked just before the anchor (src/collection/map/LinkedHashMap.java:267-273) |
| HashMaps.HashMap.HashAddEntry | src/collection/map/HashMap.java:364-372 | the table doubles only when `size >= threshold` and the key's bucket is non-empty, and the entry then goes into its bucket of the new table |
| HashMaps.HashMap.EvictEldest | src/collection/map/LinkedHashMap.java:259-265 | the first key of the order list is removed by key exactly when the eviction hook answers true |
| HashMaps.HashMap.AddEntry | src/collection/map/LinkedHashMap.java:259-265 | adding an absent key maps it, links it in the order list, may grow the table as above, and then offers the eldest entry to the hook |
| HashMaps.HashMap.UnlinkEntry | src/collection/map/HashMap.java:224-230 | unlinking the entry at a place removes exactly that key from its chain, from the mappings and from the order list (`recordRemoval`, src/collection/map/LinkedHashMap.java:178-180), and bumps `modCount` |
| HashMaps.HashMap.RemoveEntryForKey | src/collection/map/HashMap.java:215-237 | a present key's entry is returned and removed (size down, `modCount` up); an absent key returns null and changes nothing |
| HashMaps.HashMap.RemoveMapping | src/collection/map/HashMap.java:239-264 | an entry is removed exactly when its key is mapped to the given value; otherwise nothing changes |
| HashMaps.HashMap.Remove | src/collection/map/HashMap.java:210-213 | returns the old value of a present key and removes it; null and no change for an absent key; every call keeps `Tracked`: `modCount` never decreases, and while it stays put the buckets and the order list do too |
| HashMaps.HashMap.SetValue | src/collection/map/HashMap.java:120-121 | replacing an entry's value in place changes only that mapping, not the layout, size, order or `modCount` |
| HashMaps.HashMap.RecordAccess | src/collection/map/LinkedHashMap.java:169-176 | in access order the key moves to the end of the order list and `modCount` grows by one; otherwise nothing moves |
| HashMaps.HashMap.Get | src/collection/map/LinkedHashMap.java:78-84 | returns the key's value or null; in access order a hit moves the key to the end and counts as a modification, and in insertion order (and for a plain map, src/collection/map/HashMap.java:82-88) nothing changes; every call keeps `Tracked`: `modCount` never decreases, and while it stays put the buckets and the order list do too |
| HashMaps.HashMap.Overwrite | src/collection/map/HashMap.java:119-124 | the hit path of `put` replaces the value, keeps the buckets, and records the access |
| HashMaps.HashMap.Put | src/collection/map/HashMap.java:112-129 | a present key has its value replaced and the old value returned, with size unchanged and `modCount` unchanged outside access order; an absent key is added with `modCount` one higher, or two higher when the eviction hook then removes the eldest key, and null is returned; every call keeps `Tracked`: `modCount` never decreases, and while it stays put the buckets and the order list do too |
| HashMaps.HashMap.PutForNullKey | src/collection/map/HashMap.java:131-143 | the same as `put` for the null key, in bucket 0; every call keeps `Tracked`: `modCount` never decreases, and while it stays put the buckets and the order list do too |
| HashMaps.HashMap.Clear | src/collection/map/HashMap.java:266-272 | every bucket is emptied, the mappings and the order list become empty (src/collection/map/LinkedHashMap.java:86-89), and `modCount` grows by one; every call keeps `Tracked`: `modCount` never decreases, and while it stays put the buckets and the order list do too |
| HashMaps.EmptyBuckets | src/collection/map/HashMap.java:269-270 | the loop of `clear` sets every bucket to the empty chain |
| HashMaps.HashMap.Size | src/collection/map/HashMap.java:74-76 | the size is the number of mappings |
| HashMaps.HashMap.IsEmpty | src/collection/map/HashMap.java:78-80 | true exactly when there is no mapping |
| HashMaps.HashMap.GetFirstEntry | src/collection/map/LinkedHashMap.java:119-121 | the first entry of the order list, and none exactly when the list is empty |
| HashMaps.HashMap.GetLastEntry | src/collection/map/LinkedHashMap.java:123-125 | the last entry of the order list, and none exactly when the list is empty |
| HashMaps.HashMap.GetFirst | src/collection/map/LinkedHashMap.java:91-93 | the first key's value, and null on an empty map |
| HashMaps.HashMap.GetLast | src/collection/map/LinkedHashMap.java:95-97 | the last key's value, and null on an empty map |
| HashMaps.HashMap.RemoveFirstEntry | src/collection/map/LinkedHashMap.java:127-133 | the first entry is removed from the buckets and the order list and returned; an empty map is left unchanged (corrected, see Findings) |
| HashMaps.HashMap.RemoveLastEntry | src/collection/map/LinkedHashMap.java:135-141 | the last entry is removed and returned; an empty map is left unchanged (corrected, see Findings) |
| HashMaps.HashMap.RemoveFirst | src/collection/map/LinkedHashMap.java:99-101 | returns the first value and removes it; null on an empty map, which is left unchanged (corrected, see Findings); every call keeps `Tracked` |
| HashMaps.HashMap.RemoveLast | src/collection/map/LinkedHashMap.java:103-105 | returns the last value and removes it; null on an empty map, which is left unchanged (corrected, see Findings); every call keeps `Tracked` |
| HashMaps.HashMap.PutFirst | src/collection/map/LinkedHashMap.java:107-111 | a new key is linked at the head of the order list; a present key only has its value replaced and does not move to the head; the anchor is reset; every call keeps `Tracked`: `modCount` never decreases, and while it stays put the buckets and the order list do too |
| HashMaps.HashMap.PutLast | src/collection/map/LinkedHashMap.java:113-117 | a new key is linked at the tail; a present key only has its value replaced; the anchor is reset; every call keeps `Tracked`: `modCount` never decreases, and while it stays put the buckets and the order list do too |
| HashMaps.PositionOf | src/collection/map/LinkedHashMap.java:271 | a new entry goes before the anchor's key, or at the end when the anchor is the header |
| HashMaps.FirstAnchor | src/collection/map/LinkedHashMap.java:108 | anchoring at `header.after` puts a new entry first, even on an empty list |
| Chains.Scan | src/collection/map/HashMap.java:104-108 | the chain scan returns the first place that matches, and none only when no place matches |
| Chains.Lookup | src/collection/map/HashMap.java:102-110 | in a valid table a key is in its bucket's chain exactly when it is mapped, with the mapped value |
| Chains.InsertHead | src/collection/map/HashMap.java:374-378 | pushing a new key's entry onto its bucket gives a table that stands for the mappings plus that key |
| Chains.ReplaceValue | src/collection/map/HashMap.java:119-121 | replacing a value in place gives a table that stands for the updated mapping |
| Chains.RemoveAt | src/collection/map/HashMap.java:223-229 | unlinking one entry gives a table that stands for the mappings without its key |
| Chains.TransferStep | src/collection/map/HashMap.java:184-186 | moving one entry onto the head of its bucket in the new table keeps the partial transfer consistent |
| Chains.TransferEnd | src/collection/map/HashMap.java:176-190 | once every key has been moved, the new table stands for the mappings |
| Chains.WalkEnd | src/collection/map/HashMap.java:178-189 | walking every bucket and chain visits every mapped key |
| Chains.KeysUnique | src/collection/map/HashMap.java:102-110 | in a valid table no key appears at two places |
| OrderList.Unlink | src/collection/map/LinkedHashMap.java:150-153 | `remove()` takes the entry out of the list and keeps the others in order |
| OrderList.LinkBefore | src/collection/map/LinkedHashMap.java:155-160 | `addBefore(existing)` puts the entry just before `existing` and keeps the others in order |
| OrderList.UnlinkDistinct | src/collection/map/LinkedHashMap.java:150-153 | unlinking keeps the list free of repeats and removes exactly that key |
| OrderList.LinkDistinct | src/collection/map/LinkedHashMap.java:155-160 | linking a new key keeps the list free of repeats and adds exactly that key |
| OrderList.MoveToEndDistinct | src/collection/map/LinkedHashMap.java:172-174 | moving a key to the end keeps the same keys, once each |
| MapStates.InvInsert | src/collection/map/HashMap.java:374-378 | `createEntry` with the linked `addBefore` keeps the map invariant |
| MapStates.InvRemove | src/collection/map/HashMap.java:224-230 | removal from a chain with `recordRemoval` keeps the map invariant |
| MapStates.InvReplace | src/collection/map/HashMap.java:119-121 | replacing a value keeps the map invariant |
| MapStates.InvAccess | src/collection/map/LinkedHashMap.java:169-176 | moving a key to the end of the order list keeps the map invariant |
| MapStates.InvResize | src/collection/map/HashMap.java:170-173 | a new table that stands for the same mappings, with its threshold, keeps the map invariant |
| MapStates.InvClear | src/collection/map/HashMap.java:266-272 | empty buckets with no mappings and an empty order list satisfy the invariant |
| Iterators.NextBucket | src/collection/map/HashMap.java:389-390 | the advance loop stops at the first non-empty bucket from `index` on, or at the end of the table, and skips no key |
| Iterators.WalkVisitsEveryKey | src/collection/map/HashMap.java:380-425 | the bucket-by-bucket walk of the hash iterator returns every mapped key exactly once |
| Iterators.StepOn | src/collection/map/HashMap.java:404-410 | returning the next entry moves to the rest of its chain, or to the next bucket at the chain's end |
| Iterators.UnlinkReturned | src/collection/map/HashMap.java:415-424 | removing the entry last returned leaves the iterator positioned on the same remaining keys |
| Iterators.UnlinkedBehind | src/collection/map/LinkedHashMap.java:208-216 | removing the entry last returned from the order list leaves the linked iterator on the same remaining keys |
| Iterators.HashIterator.constructor | src/collection/map/HashMap.java:386-393 | the iterator remembers `modCount` and has every key of the map still to come, in bucket order |
| Iterators.HashIterator.Advance | src/collection/map/HashMap.java:389-390 | moving to the first non-empty bucket keeps the keys still to come |
| Iterators.HashIterator.HasNext | src/collection/map/HashMap.java:395-397 | true exactly when a next entry is set, which while in sync means some key is still to come |
| Iterators.HashIterator.NextEntry | src/collection/map/HashMap.java:399-413 | throws `ConcurrentModificationException` when `modCount` moved, `NoSuchElementException` when nothing is left, both leaving the iterator unchanged, and otherwise returns the next key's entry and drops it from the keys to come |
| Iterators.HashIterator.Step | src/collection/map/HashMap.java:402-412 | the success path returns the first key still to come with its mapped value |
| Iterators.HashIterator.Remove | src/collection/map/HashMap.java:415-424 | throws `IllegalStateException` with no current entry, then `ConcurrentModificationException` when out of sync, both leaving the map and the iterator unchanged so the next call throws again; otherwise it removes that key from the map and resyncs `expectedModCount` |
| Iterators.HashIterator.RemoveCurrent | src/collection/map/HashMap.java:420-423 | removing the current key keeps the iterator in sync with the same keys to come |
| Iterators.LinkedHashIterator.constructor | src/collection/map/LinkedHashMap.java:199-202 | the iterator starts at `header.after`, with the whole order list to come |
| Iterators.LinkedHashIterator.HasNext | src/collection/map/LinkedHashMap.java:204-206 | needs only a valid iterator, as the source checks no `modCount`; while in sync with the map, true exactly when some key of the order list is still to come |
| Iterators.LinkedHashIterator.NextEntry | src/collection/map/LinkedHashMap.java:218-227 | the same checks as the hash iterator, then the next key of the order list with its value |
| Iterators.LinkedHashIterator.Remove | src/collection/map/LinkedHashMap.java:208-216 | the same checks, which leave the map and the iterator unchanged when they throw, then the last returned key is removed from the map and `expectedModCount` resynced |
| Iterators.HashIteratorStaysValid | src/collection/map/HashMap.java:399-401 | a map call that keeps `Tracked` keeps every other open hash iterator valid, and in sync when `modCount` did not move, so its `modCount` check is the whole fail-fast test |
| Iterators.LinkedHashIteratorStaysValid | src/collection/map/LinkedHashMap.java:219-220 | the same for an open iterator over the order list |
| Iterators.LinkedHashIterator.RemoveReturned | src/collection/map/LinkedHashMap.java:212-215 | removing the last returned key keeps the iterator on the same keys to come |
| LinkedMaps.FirstMatch | src/collection/map/LinkedMap.java:73-89 | the place of the first entry whose key matches, and nothing before it matches |
| LinkedMaps.Lookup | src/collection/map/LinkedMap.java:67-71 | null exactly when no entry has the key; otherwise the value of an entry with that key |
| LinkedMaps.AssignedLookup | src/collection/map/LinkedMap.java:57-65 | after `put(key, value)`, looking up `key` gives `value` and every other key gives what it gave before |
| LinkedMaps.LookupAfterDropFirst | src/collection/map/LinkedMap.java:129-131 | removing the first entry leaves every other key's lookup as it was |
| LinkedMaps.LookupAfterPrepend | src/collection/map/LinkedMap.java:113-115 | an entry put first shadows any later entry with the same key |
| LinkedMaps.LookupAfterAppend | src/collection/map/LinkedMap.java:117-119 | an entry put last is seen only when no earlier entry has its key |
| LinkedMaps.InsertThenRemove | src/collection/map/LinkedMap.java:191-205 | `remove(i)` undoes `add(i, k, v)` |
| LinkedMaps.PutAnswerAsWritten | src/collection/map/LinkedMap.java:64 | as written, `put` answers the new value for a present key and null for an absent one |
| LinkedMaps.PutAnswersNewValue | src/collection/map/LinkedMap.java:57-65 | on `[(1, 'a')]`, `put(1, 'b')` answers `'b'`, not the previous `'a'` |
| LinkedMaps.LinkedMap.constructor | src/collection/map/LinkedMap.java:31-45 | a new map has no entries |
| LinkedMaps.LinkedMap.GetEntry | src/collection/map/LinkedMap.java:73-89 | the search loop returns the first entry with the key, or null exactly when there is none |
| LinkedMaps.LinkedMap.Get | src/collection/map/LinkedMap.java:67-71 | the value of the first entry with the key, or null |
| LinkedMaps.LinkedMap.PutAsWritten | src/collection/map/LinkedMap.java:57-65 | a present key has its first entry's value set in place, an absent key is appended, and the answer is the one written |
| LinkedMaps.LinkedMap.Put | src/collection/map/LinkedMap.java:57-65 | the same change to the list, answering the previous value (corrected, see Findings) |
| LinkedMaps.LinkedMap.PutFirst | src/collection/map/LinkedMap.java:113-115 | a new entry at the head, without checking for the key |
| LinkedMaps.LinkedMap.PutLast | src/collection/map/LinkedMap.java:117-119 | a new entry at the tail, without checking for the key |
| LinkedMaps.LinkedMap.GetFirstEntry | src/collection/map/LinkedMap.java:121-123 | the first entry, or `NoSuchElementException` on an empty list |
| LinkedMaps.LinkedMap.GetLastEntry | src/collection/map/LinkedMap.java:125-127 | the last entry, or `NoSuchElementException` on an empty list |
| LinkedMaps.LinkedMap.GetFirst | src/collection/map/LinkedMap.java:97-99 | the first value, or `NoSuchElementException` |
| LinkedMaps.LinkedMap.GetLast | src/collection/map/LinkedMap.java:101-103 | the last value, or `NoSuchElementException` |
| LinkedMaps.LinkedMap.RemoveFirstEntry | src/collection/map/LinkedMap.java:129-131 | removes and returns the first entry, or throws `NoSuchElementException` and changes nothing |
| LinkedMaps.LinkedMap.RemoveLastEntry | src/collection/map/LinkedMap.java:133-135 | removes and returns the last entry, or throws `NoSuchElementException` |
| LinkedMaps.LinkedMap.RemoveFirst | src/collection/map/LinkedMap.java:105-107 | removes the first entry and returns its value, or throws |
| LinkedMaps.LinkedMap.RemoveLast | src/collection/map/LinkedMap.java:109-111 | removes the last entry and returns its value, or throws |
| LinkedMaps.LinkedMap.Size | src/collection/map/LinkedMap.java:149-151 | the length of the list |
| LinkedMaps.LinkedMap.Clear | src/collection/map/LinkedMap.java:169-171 | the list becomes empty |
| LinkedMaps.LinkedMap.GetAt | src/collection/map/LinkedMap.java:175-181 | the value at `index`, or `IndexOutOfBoundsException` outside `[0, size)` |
| LinkedMaps.LinkedMap.Set | src/collection/map/LinkedMap.java:183-189 | replaces the entry at `index` and returns the previous entry's value; `IndexOutOfBoundsException` outside `[0, size)` leaves the list unchanged |
| LinkedMaps.LinkedMap.Add | src/collection/map/LinkedMap.java:191-197 | inserts a new entry at `index` and shifts the rest up; `IndexOutOfBoundsException` outside `[0, size]` |
| LinkedMaps.LinkedMap.RemoveAt | src/collection/map/LinkedMap.java:199-205 | removes and returns the value at `index` and shifts the rest down; `IndexOutOfBoundsException` outside `[0, size)` |
| LinkedMaps.LinkedMap.IndexOf | src/collection/map/LinkedMap.java:209-211 | the place of the first entry with the key, or -1 when there is none |
| PrimeSums.ISqrt | src/util/math/Math.java:12 | the integer square root: `s * s <= n < (s + 1) * (s + 1)` |
| PrimeSums.InitialAsWritten | src/util/math/Math.java:26 | the initial sum as written, with `vi + 1` computed in 32 bits |
| PrimeSums.InitialAsWrittenBelowMax | src/util/math/Math.java:26 | below `Integer.MAX_VALUE` the sum as written is `v * (v + 1) / 2 - 1` |
| PrimeSums.InitialOverflowsAtMax | src/util/math/Math.java:26 | at `Integer.MAX_VALUE` the sum as written is negative, far from the intended one |
| PrimeSums.QuotientsFall | src/util/math/Math.java:16-18 | the quotients `range / i` for `i` up to the square root fall strictly |
| PrimeSums.Decreasing | src/util/math/Math.java:14-22 | the filled `V` is strictly decreasing |
| PrimeSums.SmallPlace | src/util/math/Math.java:20-22 | every value from 1 to `range / r` is in `V` |
| PrimeSums.QuotientPlace | src/util/math/Math.java:40 | `V[i] / p` is a value of `V`, after place `i`, whenever `V[i] >= p * p` |
| PrimeSums.BelowSquare | src/util/math/Math.java:37-39 | after the first value below `p * p`, no value of `V` is changed by round `p` |
| PrimeSums.RoundTaken | src/util/math/Math.java:40 | the update of one value in round `p` is Lucy's recurrence |
| PrimeSums.RoundSkipped | src/util/math/Math.java:32 | when `S[p] > S[p - 1]` fails, round `p` changes no sum |
| PrimeSums.FillQuotients | src/util/math/Math.java:14-22 | `V` is `range / 1 .. range / r`, then `range / r - 1` down to 1 |
| PrimeSums.InitialSums | src/util/math/Math.java:24-27 | every value `v` of `V` starts at `v * (v + 1) / 2 - 1` |
| PrimeSums.SievePass | src/util/math/Math.java:33-41 | one round of the nested loop, with its early `break`, turns every sum of round `p - 1` into the sum of round `p` |
| PrimeSums.SieveRounds | src/util/math/Math.java:29-43 | the outer loop over `p = 2 .. r` leaves every value's sum at that of round `r` |
| PrimeSums.ComputePrimeSum | src/util/math/Math.java:9-45 | a range below 1 throws `ArithmeticException` (division by the root 0); otherwise the result is `Lucy(range, isqrt(range))`, which is the sum of the primes up to `range` |
| PrimeSums.InitialCounts | src/util/math/Math.java:26 | the initial sum `v * (v + 1) / 2 - 1` is the sum of `2 .. v`, before any round |
| PrimeSums.TakenAway | src/util/math/Math.java:40 | a number removed in round `p` is `p` times a survivor of round `p - 1` that is at least `p` |
| PrimeSums.Takes | src/util/math/Math.java:40 | for a prime `p`, `p` times every survivor of round `p - 1` from `p` up is removed in round `p` |
| PrimeSums.TakenIff | src/util/math/Math.java:40 | for a multiple `v` of a prime `p`: round `p` removes `v` exactly when `v / p` survives round `p - 1` and is at least `p` |
| PrimeSums.CompositeRound | src/util/math/Math.java:32 | a composite `p` removes nothing in its round |
| PrimeSums.SmallRound | src/util/math/Math.java:32-39 | a round that is skipped (composite `p`) or a value below `p * p` keeps the survivor sum |
| PrimeSums.PrimeRoundStep | src/util/math/Math.java:40 | what round `p` removes at `v` is `p` times what the cofactor sum gains at `v / p` |
| PrimeSums.PrimeRound | src/util/math/Math.java:40 | round `p` of a prime removes exactly `p` times the surviving cofactors up to `v / p` |
| PrimeSums.CofactorCounts | src/util/math/Math.java:40 | the surviving cofactors up to `x` are `S[x] - S[p - 1]` of round `p - 1` |
| PrimeSums.PrimeTest | src/util/math/Math.java:32 | the test `S[p] > S[p - 1]` holds exactly when `p` is prime |
| PrimeSums.TakesCounts | src/util/math/Math.java:40 | the update of round `p` keeps the recurrence equal to the survivor sum |
| PrimeSums.LucyCounts | src/util/math/Math.java:30-43 | Lucy's recurrence after round `p` is the sum of the numbers in `2 .. v` with no divisor in `2 .. p` below themselves |
| PrimeSums.CompositeGone | src/util/math/Math.java:12 | after round `isqrt(n)` no composite number up to `n` survives |
| PrimeSums.RootRoundPrimes | src/util/math/Math.java:12 | after round `isqrt(n)` the survivor sums up to `n` are sums of primes |
| PrimeSums.LucyIsPrimeSum | src/util/math/Math.java:9-45 | `Lucy(v, isqrt(v))` is the sum of the primes up to `v` |
| PrimeSums.TenGivesSeventeen | src/util/math/Math.java:9-45 | for `range == 10` the root is 3 and the result is 17, `2 + 3 + 5 + 7` |
| HeaderLinks.RemoveFirstEntryAsWritten | src/collection/map/LinkedHashMap.java:127-133 | as written, removing the first entry of an empty map takes the header itself and leaves its links null |
| HeaderLinks.RemoveLastEntryAsWritten | src/collection/map/LinkedHashMap.java:135-141 | the same for the last entry |
| HeaderLinks.RemoveFirstEntry | src/collection/map/LinkedHashMap.java:127-133 | corrected: an empty ring stays linked, and a non-empty one loses its first key |
| HeaderLinks.RemoveLastEntry | src/collection/map/LinkedHashMap.java:135-141 | corrected: an empty ring stays linked, and a non-empty one loses its last key |
| HeaderLinks.AddLast | src/collection/map/LinkedHashMap.java:155-160 | `addBefore(header)` appends the key, and throws when the header's links are null |
| HeaderLinks.EmptyRemovalBreaksPut | src/collection/map/LinkedHashMap.java:127-141 | as written, an empty removal followed by an insertion throws `NullPointerException` |
| HeaderLinks.Clear | src/collection/map/LinkedHashMap.java:86-89 | `clear()` links the header to itself again, with no key in the ring |
| HeaderLinks.BrokenUntilClear | src/collection/map/LinkedHashMap.java:86-89 | once the links are null every removal and insertion throws, until `clear()` (`HeaderLinks.Clear`) relinks the header |
| HeaderLinks.RemovalThenPut | src/collection/map/LinkedHashMap.java:127-141 | corrected: on a linked ring a removal followed by an insertion succeeds, appending the key |

## Left out

- `HashMaps.HashMap.EvictEldest`: the `removeFirstEntry(eldest)` hook is a pure function of the eldest key, its value and the size. An override that reads other state or changes the map is not modelled. The class's own hook (src/collection/map/LinkedHashMap.java:275-277) always answers false, and no subclass in the repository overrides it.
- Serialization (`writeObject`/`readObject`), `clone` and `putAll`/`putAllForCreate`/`putForCreate` are not modelled: they are stream I/O, reflection, or float capacity arithmetic on top of `put`.
- The `HashMap(Map)` and default-argument constructors are not modelled; they only supply arguments to `HashMap(int, float)`.
- The `keySet`/`values`/`entrySet` views and the `KeyIterator`/`ValueIterator`/`EntryIterator` projections are not modelled; they delegate to the modelled iterators and removals.
- `HashMaps.HashMap.Tracked`: `modCount` is an unbounded integer, where the source's is a 32-bit `int` that wraps. After exactly 2^32 structural changes, the source's `modCount != expectedModCount` test passes and no exception is thrown. The model instead proves `modCount` never decreases, and `Iterators.HashIteratorStaysValid` and `Iterators.LinkedHashIteratorStaysValid` treat detection as complete. The wrap is not modelled.
- The float load factor is a positive `real`; NaN and float rounding in `capacity * loadFactor` are not represented.
- Key `hashCode()` and `equals()` are abstract: `hashCode` is a function given to each map, and `equals` is Dafny equality.
- `Hashing.Spread`: its contract states only that a zero hash code keeps hash 0. That the mixing is a bijection on 32-bit values, so distinct hash codes keep distinct hashes, is not proved.
- Null values are not modelled: values are never null, and `None` stands for a null return. `containsNullValue` is therefore left out.
- The `LinkedMap` entry-object operations are not modelled: `add(Entry)`, `addEntry`, `removeEntry(Object)`, `containsEntry`, `addAll`, `setEntry`, `lastIndexOf`, and the `Deque`/queue methods (`peek`, `poll`, `offer`, `push`, `pop` and friends). They are one-line delegations to the list.
- Entry aliasing is not modelled: `LinkedMap` entries and hash-table entries are values, so an entry handed out and mutated by the caller afterwards is not represented.
- In `Iterators.HashIterator`, the `next` entry is a place, a bucket and a position in its chain. Removing the current entry shifts that place, where the source keeps a pointer.
- The lemmas for other open iterators (`Iterators.HashIteratorStaysValid`, `Iterators.LinkedHashIteratorStaysValid`) cover one map call at a time and an iterator the call does not touch; sequences of calls chain them by hand.
- `LinkedHashMap.Entry.addAfter` and the entry getters/setters are not modelled; nothing in the core calls them.
- `PrimeSums.ComputePrimeSum`: `java.lang.Math.sqrt` is replaced by the integer square root `ISqrt`. For an `int` range the two agree, since doubles represent every such square exactly enough, but this is not proved.
- `PrimeSums.ComputePrimeSum`: the source's map `S` is its own `LinkedHashMap`; the model uses a Dafny `map`, since only `put`/`get` are used.
- `PrimeSums.ComputePrimeSum`: `long` overflow in the sieve updates is not modelled; the sums of primes up to `Integer.MAX_VALUE` fit in 64 bits.
- `PrimeSums.ComputePrimeSum`: the initial sums use the intended formula, and the source's 32-bit overflow is kept in `PrimeSums.InitialAsWritten` (see Findings).
- `HashMaps.HashMap.RemoveFirstEntry` and `HashMaps.HashMap.RemoveLastEntry` return no entry on an empty map where the source returns the header (see Findings).
- `HashMaps.HashMap.GetFirstEntry` returns no entry on an empty map, where the source returns the header sentinel, whose key and value are null.
- `HashMaps.HashMap.GetLastEntry` returns no entry on an empty map, where the source returns the header sentinel, whose key and value are null.
- `HashMaps.HashMap.RemoveFirst` returns null on an empty map and leaves it unchanged, which is the corrected removal. The source also sets the header's links to null (see Findings).
- `HashMaps.HashMap.RemoveLast` returns null on an empty map and leaves it unchanged, which is the corrected removal. The source also sets the header's links to null (see Findings).
- `Iterators.LinkedHashIterator.HasNext`: when out of sync, its answer comes from the index `next` into the order list, not from the source's entry pointer, and the contract does not state it.

## Findings

| source | as written | input that shows it | evidently intended | confidence | as-written member | corrected member |
|---|---|---|---|---|---|---|
| src/collection/map/LinkedMap.java:57-65 | `put` reads `entry.getValue()` after `setValue(value)`, so on a present key it answers the new value | a map holding `(1, 'a')`, then `put(1, 'b')` answers `'b'` | the previous value `'a'`, as `Map.put` promises | high, not executed | LinkedMaps.LinkedMap.PutAsWritten, LinkedMaps.PutAnswersNewValue | LinkedMaps.LinkedMap.Put |
| src/collection/map/LinkedHashMap.java:127-141 | on an empty map `getFirstEntry()`/`getLastEntry()` return the header; it is unlinked from itself and its `before`/`after` are set to null | `removeFirstEntry()` on a new empty map, then `put(k, v)`: `addBefore(header)` dereferences `header.before`, which is null | an empty map stays empty and usable (or the call throws `NoSuchElementException`) | high, not executed | HeaderLinks.RemoveFirstEntryAsWritten, HeaderLinks.EmptyRemovalBreaksPut | HeaderLinks.RemoveFirstEntry, HeaderLinks.RemovalThenPut, HashMaps.HashMap.RemoveFirstEntry |
| src/util/math/Math.java:26 | `(long) vi * (vi + 1)` casts only `vi`; `vi + 1` is computed in `int` | `computePrimeSum(2147483647)`: `V[0]` is 2147483647 and `vi + 1` wraps to -2147483648, so the initial sum is -2305843008139952129 | `v * (v + 1) / 2 - 1` in 64 bits, 2305843008139952127 | high, not executed | PrimeSums.InitialAsWritten, PrimeSums.InitialOverflowsAtMax | PrimeSums.Initial, PrimeSums.ComputePrimeSum |
