# Separate-chaining hash table benchmark, modelled in Dafny

The program measures how fast a separate-chaining hash table inserts and
removes keys. It compares three hash functions and three key scenarios. This
project models the functional part of that program and proves properties of it.

- **The table.** A bucket array whose length is fixed at construction. Each
  bucket holds a chain of keys in insertion order. The table is bound to one
  hash function.
- **`insert`.** Appends the key to its bucket's chain. Duplicates are kept.
- **`remove`.** Calls `std::list::remove`, which erases every copy of the key
  from its bucket's chain.
- **The hash functions.**
  - `hash1`: `key % size`
  - `hash2`: `(key / 10) % size`
  - `hash3`: `(key ^ (key >> 4)) % size`

  All three use C++ `int` arithmetic. `/` and `%` truncate toward zero, `>>`
  is an arithmetic shift, and `^` works on two's complement.
- **`generateData`.** Builds the key sequence for a scenario:
  - `"optymistyczny"`: `0 .. n-1`
  - `"sredni"`: `n` pseudo-random draws from `[1, 1000000]`
  - `"pesymistyczny"`: `i * tableSize`
  - any other label: no keys.
- **The runner and `main`.** The runner fills a fresh table from one dataset
  and drains it with a second. In `main` the second dataset is a copy of the
  first.

The model is functional. A `Table` is an immutable value: a `HashKind` plus
`seq<seq<Int32>>`. Modules follow the program's components:

| file | module | models |
|---|---|---|
| `cpp_int.dfy` | `CppInt` | C++ `int` range, truncating `/` and `%`, `>>`, `^` |
| `hash_functions.dfy` | `HashFunctions` | `hash1`, `hash2`, `hash3` and the choice between them |
| `chains.dfy` | `Chains` | a bucket chain and `std::list::remove` |
| `hash_table.dfy` | `HashTable` | the constructor, `insert`, `remove` and the two loops |
| `data_gen.dfy` | `DataGen` | `generateData` |
| `benchmark.dfy` | `Benchmark` | `testHashFunction` and one iteration of `main`'s scenario loop |

Dafny's `/` and `%` are Euclidean, so C++ truncating division is written out as
`CppInt.Quot` and `CppInt.Rem` for every sign combination. XOR is defined on
unbounded integers with two's-complement meaning, built from XOR on naturals.
It is proved equal to bitwise exclusive or, sign bits included
(`CppInt.XorBits`). It is also proved to stay within the 32-bit range
(`CppInt.XorInt32`), so it computes what 32-bit hardware computes.

`Insert` and `Remove` require `Addressable`: the table has buckets and the key
hashes to one of them. The source indexes `table[index]` without a check, so an
index outside the array is undefined behaviour. `Addressable` is exactly the
condition that avoids it. All three hash functions satisfy it for every
non-negative key. `hash3` satisfies it for every key, because a key and its
arithmetic shift have the same sign, so their XOR is never negative.

## Behaviour worth noting

- **`remove` erases every copy.** `std::list::remove` deletes every element
  equal to the key, not only the first one. `HashTable.Remove` erases all
  copies.
- **Insert then remove keeps the count only for an absent key.** Because
  `remove` erases all copies, inserting a key and then removing it leaves the
  stored-key count unchanged exactly when the key was absent from its bucket
  beforehand. `HashTable.InsertThenRemoveCount` proves that the count drops by
  the number of earlier copies, in both directions of the "if and only if".
- **Negative remainders are not normalised.** `hash1` and `hash2` return a
  negative index for some negative keys (`HashFunctions.NegativeKeysEscape`).
  The model keeps the code's arithmetic and makes the resulting requirement
  explicit (`Addressable`). No key the program generates is negative
  (`DataGen.GeneratedKeysAddressable`).

## Model

| member | source | states |
|---|---|---|
| `CppInt.Quot` | main.cpp:37 | C++ `/` truncates toward zero: the quotient's magnitude is the floor of `|a| / |b|`, and it is negative exactly when it is non-zero and the operands' signs differ |
| `CppInt.Rem` | main.cpp:33 | C++ `%` completes `Quot` (`a == b*Quot(a,b) + r`), has magnitude below `|b|`, and a non-zero remainder has the dividend's sign, so it can be negative |
| `CppInt.QuotRemNonNegative` | main.cpp:33 | for a non-negative dividend and positive divisor, C++ `/` and `%` agree with Euclidean division and the remainder lies in `[0, b)` |
| `CppInt.RemOfMultiple` | main.cpp:33 | a non-negative multiple of `b` has C++ quotient `i` and remainder 0 |
| `CppInt.ShiftRight` | main.cpp:41 | `x >> n` on a signed int keeps the sign of `x`, and for non-negative `x` equals truncating division by `2^n` |
| `CppInt.Xor` | main.cpp:41 | two's-complement XOR is negative exactly when one operand is negative |
| `CppInt.NatXorHalf` | main.cpp:41 | the lowest bit of a XOR is the exclusive or of the lowest bits, and the other bits are the XOR of the halves |
| `CppInt.NatXorBits` | main.cpp:41 | on naturals, bit `i` of the XOR is the exclusive or of the operands' bit `i` |
| `CppInt.NatXorBound` | main.cpp:41 | XOR of two values below `2^k` is below `2^k` |
| `CppInt.ComplementBits` | main.cpp:41 | `-x-1` (`~x`) flips every bit of `x` |
| `CppInt.XorBits` | main.cpp:41 | `Xor` is bitwise exclusive or on all integers, sign bits included |
| `CppInt.XorInt32` | main.cpp:41 | the XOR of two `int` values is an `int` value, so the unbounded model matches 32-bit XOR |
| `HashFunctions.Hash1` | main.cpp:32-34 | `hash1` lies in `[0, size)` for non-negative keys and in `(-size, 0]` for negative keys |
| `HashFunctions.Hash2` | main.cpp:36-38 | `hash2` lies in `[0, size)` for keys above -10 and in `(-size, 0]` for negative keys |
| `HashFunctions.Hash3` | main.cpp:40-42 | `hash3` lies in `[0, size)` for every key, negative keys included |
| `HashFunctions.Hash` | main.cpp:17-18 | the table's pluggable hash yields a valid bucket index for every non-negative key, and for every key under `hash3` |
| `HashFunctions.MixedKeyIsInt32` | main.cpp:41 | `key ^ (key >> 4)` never leaves the `int` range |
| `HashFunctions.NegativeKeysEscape` | main.cpp:32-38 | `hash1(-1)` and `hash2(-10)` are -1 on any table of two or more buckets: negative remainders are not normalised |
| `HashFunctions.SmallKeysHashToThemselves` | main.cpp:32-34 | a key below the table size is its own `hash1` bucket |
| `HashFunctions.MultiplesHashToZero` | main.cpp:32-34 | every non-negative multiple of the table size has `hash1` bucket 0 |
| `Chains.RemoveAll` | main.cpp:23 | `std::list::remove` leaves no copy of the key, keeps every other element with its multiplicity, shortens the chain by the key's count, and leaves a chain without the key unchanged |
| `Chains.Strip` | main.cpp:23 | filtering by a key set keeps exactly the elements outside the set |
| `Chains.RemoveAllIsStrip` | main.cpp:23 | erase-by-value is the filter by one key |
| `Chains.StripConcat` | main.cpp:23 | filtering distributes over concatenation, so the kept elements keep their relative order |
| `Chains.StripStrip` | main.cpp:23 | filtering twice is filtering once by the union of the key sets |
| `Chains.StripDisjoint` | main.cpp:23 | a filter that matches no element is the identity |
| `Chains.RemoveAllConcat` | main.cpp:23 | erase-by-value distributes over concatenation and keeps a single element exactly when it differs from the key; these two facts determine it completely |
| `HashTable.Index` | main.cpp:17 | the computed index of an addressable key is a bucket of the table |
| `HashTable.TotalUpdate` | main.cpp:18 | replacing one bucket changes the stored-key count by the change in that bucket's length |
| `HashTable.Create` | main.cpp:12-14 | construction yields exactly `size` buckets, all empty, zero keys, and the table invariant |
| `HashTable.Insert` | main.cpp:16-19 | `insert` appends the key to the end of bucket `hash(key)` and keeps duplicates; every other bucket, the bucket count and the hash function are unchanged; the count grows by one; the invariant is preserved |
| `HashTable.Remove` | main.cpp:21-24 | `remove` filters every copy of the key out of bucket `hash(key)`; other buckets are unchanged; an absent key is a no-op; the count drops by the key's multiplicity; in a valid table the key is afterwards stored nowhere |
| `HashTable.RemovePreservesValid` | main.cpp:21-24 | erasing a key from its bucket keeps every stored key in its hash bucket and leaves the key nowhere |
| `HashTable.InsertThenRemove` | main.cpp:16-24 | if the key is absent from its bucket, `insert` then `remove` restores the table exactly |
| `HashTable.InsertThenRemoveCount` | main.cpp:16-24 | `insert` then `remove` lowers the stored-key count by the number of earlier copies, so the count is unchanged if and only if the key was absent |
| `HashTable.InsertAll` | main.cpp:54-56 | the insertion loop keeps the bucket count and hash function, adds one stored key per inserted key, and preserves the invariant |
| `HashTable.RemoveKeys` | main.cpp:60-62 | the removal loop keeps the bucket count and hash function, never increases the stored-key count, and preserves the invariant |
| `HashTable.Routed` | main.cpp:17-18 | the keys routed to bucket `i` are exactly the keys whose hash is `i` |
| `HashTable.RoutedNone` | main.cpp:17-18 | no key is routed to a bucket none of them hashes to |
| `HashTable.RoutedSingle` | main.cpp:17-18 | a single key is routed to its own bucket only |
| `HashTable.RoutedAllToOne` | main.cpp:17-18 | keys that all hash to one bucket are routed there in order |
| `HashTable.RoutedConcat` | main.cpp:54-56 | routing distributes over concatenation of key sequences |
| `HashTable.InsertAllBucket` | main.cpp:54-56 | after the insertion loop, bucket `i` is its old chain followed by the inserted keys that hash to `i`, in insertion order |
| `HashTable.RemoveBucket` | main.cpp:21-24 | seen from bucket `i`, one removal filters out the key when it hashes to `i` and changes nothing otherwise |
| `HashTable.KeysAtCons` | main.cpp:60-62 | the set of keys routed to bucket `i` is the first key's contribution plus the rest's |
| `HashTable.RemoveKeysBucket` | main.cpp:60-62 | after the removal loop, bucket `i` is its old chain with every removed key that hashes to `i` filtered out |
| `HashTable.RemoveKeysClears` | main.cpp:60-62 | in a valid table, the removal loop leaves none of the removed keys anywhere |
| `HashTable.FillThenDrain` | main.cpp:54-62 | inserting a sequence and then removing the same sequence leaves each bucket as it was, minus every key of the sequence, duplicates or not |
| `HashTable.FillThenDrainEmpties` | main.cpp:49-62 | from a fresh table, inserting a sequence and then removing the same sequence leaves every bucket empty and no key stored, even with duplicates |
| `HashTable.FillThenDrainRestores` | main.cpp:54-62 | when none of the keys is stored beforehand, inserting them and then removing them restores the table exactly |
| `DataGen.ProductBetween` | main.cpp:84 | `i * size` for `0 <= i <= m` lies between 0 and `m * size`, so the last product bounds all the others |
| `DataGen.Ascending` | main.cpp:74-76 | the optimistic loop yields `max(n, 0)` keys with key `i` equal to `i` |
| `DataGen.Multiples` | main.cpp:82-84 | the pessimistic loop yields `max(n, 0)` keys with key `i` equal to `i * tableSize` |
| `DataGen.GenerateData` | main.cpp:72-87 | `"optymistyczny"` gives `[0 .. n-1]`; `"sredni"` gives the first `n` draws, all in `[1, 1000000]`; `"pesymistyczny"` gives `[i * tableSize]`; any other label gives `[]` |
| `DataGen.GeneratedKeysAddressable` | main.cpp:72-87 | with a positive table size, every generated key can be inserted and removed under every hash function |
| `DataGen.PessimisticKeysHashToZero` | main.cpp:82-84 | every pessimistic key hashes to bucket 0 under `hash1` |
| `DataGen.PessimisticSingleChain` | main.cpp:82-84 | inserting the pessimistic dataset under `hash1` puts the whole dataset, in order, into bucket 0 and leaves every other bucket empty |
| `DataGen.AscendingAddressable` | main.cpp:74-76 | every optimistic key can be placed under every hash function |
| `DataGen.OptimisticSpreads` | main.cpp:74-76 | under `hash1` with at least `n` buckets, exactly key `i` is routed to bucket `i < n` and none beyond |
| `DataGen.OptimisticOneKeyPerBucket` | main.cpp:74-76 | inserting the optimistic dataset under `hash1` into a fresh table with at least `n` buckets puts key `i` alone in bucket `i` and leaves the rest empty |
| `Benchmark.RunTrial` | main.cpp:44-62 | the runner's two loops compute the insertion fold over a fresh table and then the removal fold; the filled table holds one key per inserted key; when the removal data equals the insertion data, every bucket ends empty |
| `Benchmark.RunScenario` | main.cpp:95-102 | one scenario of `main`: the dataset is `generateData`'s output; for each of the three hash functions, in `main`'s order, the trial fills a fresh table of `tableSize` buckets from that dataset and removes the copied dataset (`FillDrainOutcome`), and every such trial ends with an empty table |
| `Benchmark.MainConfigurationFits` | main.cpp:90-91 | `main`'s ten thousand keys and 10007 buckets keep every pessimistic product within `int` |

## Left out

- Timing with `std::chrono` and all console output (main.cpp:51-53, 57-59,
  63-69). These are measurement and I/O with no functional effect.
- The `"sredni"` draws from `std::mt19937` seeded with 42 and
  `std::uniform_int_distribution` (main.cpp:78-81). This library generator's
  sequence is not part of this model. It is the parameter `draws`, whose values
  are required to lie in `[1, 1000000]`.
- `DataGen.GenerateData`: for `"sredni"` it states the result in terms of the
  supplied draws, not the concrete Mersenne-Twister output for seed 42.
- `std::function` type erasure (main.cpp:8, 28). The hash function is the
  three-way enum `HashKind`.
- Signed overflow. The pessimistic product `i * tableSize` must fit in `int`
  (`DataGen.ProductsFit`); an overflowing product would be undefined
  behaviour in C++.
- A negative table size. `std::vector::resize` would throw; `Create` takes a
  natural size.
- Undefined behaviour from an out-of-range bucket index, or from `% 0` on a
  table with no buckets. `Insert` and `Remove` require `Addressable` instead
  of modelling it.
- The report names of the hash functions and the scenario banner strings
  (main.cpp:99-101). They are output text only.
- Iterating `main` over the three scenarios (main.cpp:95). `Benchmark.RunScenario`
  models one iteration; the iterations share no state.
