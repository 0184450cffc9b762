# Two hash maps, modelled in Dafny

This project models the two `HashMap` classes of the `has_map_implementation`
repository and proves what they do.

- **hash_map_oa.py** is an open-addressing map. Entries live in a bucket array.
  Collisions are resolved by quadratic probing: probe `j` looks at bucket
  `(hash(key) % capacity + j * j) % capacity`. `remove` leaves a tombstone. `put`
  first resizes to twice the capacity once the table is half full.
- **hash_map_sc.py** is a separate-chaining map. Every bucket holds a chain of
  `(key, value)` nodes. `put` first resizes to twice the capacity once the load
  reaches 1. The file also holds `find_mode`, which counts occurrences in such a map
  and reports the most frequent elements.

Both files carry identical copies of the prime helpers `_is_prime` and
`_next_prime`. Capacities are always prime.

Modules:

- `Arith`: facts about division and remainder.
- `Primes`: `_is_prime` and `_next_prime`, and the capacity step both
  `resize_table`s share.
- `Common`: keys, `Option`, and the key-to-value map a list of pairs stands for.
- `QuadraticProbing`: the open-addressing table as a sequence of slots
  (`Empty`, `Live(key, value)` or `Tomb(key, value)`), with the probe loops,
  `put`, `get` and `remove` as functions on it, and the invariant `SoundTable`
  under which the table behaves as a map.
- `OpenAddressing`: the open-addressing `HashMap` class. It has an `array` of slots,
  `capacity`, `size` and the iterator's `index` as fields, and a method per operation.
  Each method is proved against the `QuadraticProbing` functions.
- `Chaining`: the chain operations (`contains`, the overwrite-or-append step of
  `put`, `remove`), the key-to-value view of a table of chains, and the invariant
  `Wellformed`: every key sits once in the chain it hashes to.
- `Modes`: occurrence counts and the maximum scan of `find_mode`.
- `SeparateChaining`: the separate-chaining `HashMap` class, which has an `array` of
  chains, `capacity` and `size` as fields, plus `find_mode`.

The hash function is a parameter, `hash: Key -> nat`. The map keeps it in a constant
field, as the source keeps `_hash_function`. Load-factor tests are integer
comparisons: `2 * size >= capacity` for 0.5, and `size >= capacity` for 1.0.

A probe loop of the open-addressing map stops only at a suitable slot. Probe `j + capacity`
visits the same bucket as probe `j`. So when none of the first `capacity` probes
stops the loop, the source loops forever. The model returns `Loops` (or
`halts == false`) in that case instead of looping. `EndlessIsForever` proves that
no later probe would stop either.

The open-addressing source can break the map contract. Concrete lemmas show how:

- `PutCanDuplicate`: `put` stops at the first tombstone on the probe path, so a key
  that is live further on gets a second live copy.
- `RemoveCanResurrect`: with two live copies, `remove` tombstones the first copy.
  `get` then returns the older value.
- `SizeCanDrift`: a second `remove` tombstones the tombstone in front of the live copy.
  The size drops to 0 while an entry is still live.
- `TombstoneBeforeKey`: a tombstone can come to lie before a live entry on a key's
  probe path.
- `LookupCanLoop`: `get` of an absent key can loop forever even in a table that is
  not full.

So the map properties of the open-addressing model hold under `Sound()`. `Sound()`
means the live keys are distinct, lookup and removal reach every live entry, and the
size equals the number of live entries. Two facts keep `Sound()`:

- Every resize rebuilds a sound table without tombstones.
- `put` keeps `Sound()` when the table has no tombstones or lacks the key, and
  `remove` keeps it always.

The weaker invariant `Valid()` holds everywhere. It says `size` never exceeds the
number of live entries.

The `capacity` of an open-addressing map can become 2 through `resize_table(2)`.
`clear` then bumps it to 3, while `resize_table` resizes the bucket list relative
to the capacity it saved before the clear. So the model states
`capacity <= buckets.Length`, not equality.

The separate-chaining map's `Valid()` says that every key sits once in the chain it
hashes to, that the size counts the nodes, and that the load `size / capacity` is at
most 1. Every operation keeps that invariant: `put` resizes as soon as the size reaches
the capacity, a resize lands on a capacity at least the size, and `remove` only lowers
the size.

## Model

| member | source | states |
|---|---|---|
| `Primes.IsPrime` | hash_map_oa.py:52-70 | `_is_prime(n)` is true exactly for the primes and, because every test passes, for the negative odd numbers |
| `Primes.NextPrime` | hash_map_oa.py:39-50 | `_next_prime(n)`, for `n >= 0`, is the least odd prime at or above `n` |
| `Primes.NextPrimeOfPrime` | hash_map_oa.py:44-45 | on a prime, `_next_prime` is the identity except at 2, which it bumps to 3 |
| `Primes.OddPrimeAtLeast` | hash_map_oa.py:47-48 | an odd prime exists above any bound, so `_next_prime`'s search ends |
| `Primes.PrimeCapacity` | hash_map_oa.py:195-198 | the capacity step of `resize_table(n)`: `n` when prime, else `_next_prime(n)`; prime, at least `n`, and `n` itself when `n` is prime |
| `Primes.DoubledTarget` | hash_map_oa.py:99-101 | resizing to twice a prime capacity gives a capacity strictly above twice the old one |
| `QuadraticProbing.ProbePeriodic` | hash_map_oa.py:104-125 | the probe sequence `(start + j * j) % capacity` repeats with period `capacity` |
| `QuadraticProbing.Scan` | hash_map_oa.py:110-125 | the probe at which a loop stops is the first one that stops it; `Endless` means none of the first `capacity` probes stops it |
| `QuadraticProbing.EndlessIsForever` | hash_map_oa.py:110-125 | when the scan is `Endless`, no probe at all stops the loop, so the source loops forever |
| `QuadraticProbing.ScanStops` | hash_map_oa.py:104-125 | in a table of prime capacity less than half full, the insertion loop stops, and so do lookup and removal when there are no tombstones |
| `QuadraticProbing.Find` | hash_map_oa.py:238-244 | the lookup loop of `get` (and of `contains_key`, lines 267-276): a value it returns is that of a live entry with the key in the table; `Loops` only when no probe ever reaches an empty bucket or a live entry with the key |
| `QuadraticProbing.FindSound` | hash_map_oa.py:227-244 | in a sound table, lookup returns the mapped value of a present key and never a value for an absent key |
| `QuadraticProbing.FindHalts` | hash_map_oa.py:238-244 | in a sound table without tombstones and less than half full, lookup stops |
| `QuadraticProbing.Store` | hash_map_oa.py:103-135 | the probe-and-write of `put`: the table keeps its length and then holds the pair live; the size stays or grows by one; no tombstone appears where there was none; `None` only when no probe ever reaches an empty bucket, a tombstone or a live entry with the key |
| `QuadraticProbing.StoreHalts` | hash_map_oa.py:110-125 | the insertion loop stops in a table of prime capacity that is less than half full |
| `QuadraticProbing.StoreCounts` | hash_map_oa.py:113-135 | the write of `put` adds at most one live entry, and a size that does not exceed the live count keeps not exceeding it |
| `QuadraticProbing.StoreGrows` | hash_map_oa.py:110-135 | in a sound table that has no tombstones or lacks the key, `put` leaves the size unchanged when the key is present and adds one when it is new |
| `QuadraticProbing.StoreSound` | hash_map_oa.py:104-135 | `put` into a sound table without tombstones or without the key keeps it sound and maps the key to the value |
| `QuadraticProbing.Erase` | hash_map_oa.py:289-306 | `remove`: when the size is unchanged the table is too; otherwise the size drops by one and exactly one entry carrying the key, live or tombstone, becomes a tombstone |
| `QuadraticProbing.UnlinkBeforeLookup` | hash_map_oa.py:289-306 | when `contains_key` finds the key, the removal loop stops no later, at an entry with the key |
| `QuadraticProbing.EraseSound` | hash_map_oa.py:278-306 | `remove` from a sound table takes a present key out of the map and keeps the table sound with the size equal to the live count; an absent key changes nothing |
| `QuadraticProbing.PutThenGet` | hash_map_oa.py:104-135 | whenever the insertion loop of `put(k, v)` stops, the lookup loop for `k` from the same start then returns `v`, in any table, tombstones and duplicated keys included |
| `QuadraticProbing.PutThenRemove` | hash_map_oa.py:278-306 | `put(k, v)` then `remove(k)` from a sound table: the removal goes through, `k` leaves the map and lookup no longer finds a value for it |
| `QuadraticProbing.DistinctKeysUnique` | hash_map_oa.py:317-334 | with distinct live keys, the collected pairs carry distinct keys |
| `QuadraticProbing.FreeSetSize` | hash_map_oa.py:146-154 | every slot is either live or free (empty or tombstone), so the free slots number the capacity minus the live count |
| `QuadraticProbing.TwoPuts` | hash_map_oa.py:104-135 | two `put`s into an empty table of capacity 3 land at the buckets the probe loop picks |
| `QuadraticProbing.LookupCanLoop` | hash_map_oa.py:238-244 | `get` of an absent key can loop forever: its probes never meet the empty slot |
| `QuadraticProbing.TombstoneBeforeKey` | hash_map_oa.py:289-306 | a tombstone can lie before a live entry on a key's probe path |
| `QuadraticProbing.PutCanDuplicate` | hash_map_oa.py:116-119 | `put` reuses the first tombstone on the path, so a key live further on gets a second live copy |
| `QuadraticProbing.RemoveCanResurrect` | hash_map_oa.py:298-303 | with two live copies, `remove` tombstones one and `get` then returns the older value |
| `QuadraticProbing.SizeCanDrift` | hash_map_oa.py:300-302 | a second `remove` tombstones a tombstone; the size drops below the number of live entries |
| `OpenAddressing.ProbeLoop` | hash_map_oa.py:104-125 | the probe loop returns exactly the first probe at which its goal stops, or `Endless` |
| `OpenAddressing.HashMap.constructor` | hash_map_oa.py:13-27 | a new map is sound and empty, with capacity `_next_prime(capacity)` and every bucket `None` |
| `OpenAddressing.HashMap.Clear` | hash_map_oa.py:308-315 | `clear` empties the map and keeps the capacity, except that 2 becomes 3 |
| `OpenAddressing.HashMap.Place` | hash_map_oa.py:104-135 | the probe-and-write half of `put` performs exactly the table update `Store` describes, or changes nothing where the loop never stops |
| `OpenAddressing.HashMap.PlaceEntry` | hash_map_oa.py:103-135 | the same update as `Place`; whenever the loop stops, lookup of the key then finds the value; from a sound table without tombstones or without the key, the key maps to the value, the table stays sound and the size grows exactly when the key is new; a sound table less than half full always lets the loop stop |
| `OpenAddressing.HashMap.GrowIfHalfFull` | hash_map_oa.py:99-101 | the resize fires exactly when `2 * size >= capacity`; it then leaves capacity `ResizeTarget(2 * capacity)` and a sound table without tombstones, less than half full, with the same map |
| `OpenAddressing.HashMap.Put` | hash_map_oa.py:88-135 | whenever the probe loop stops, lookup of `k` afterwards finds `v`; on a sound table without tombstones or without `k`, `k` maps to `v` and the size grows exactly when `k` is new; a resize leaves capacity `ResizeTarget(2 * capacity)`; below the threshold `put` is exactly `Store` |
| `OpenAddressing.HashMap.ResizeTable` | hash_map_oa.py:156-214 | below the size nothing changes; otherwise the result is a sound table without tombstones holding the same map, at capacity `n` made prime when the pairs fit in half of it, and in every case at most one pair over half full (`2 * size <= capacity + 1`) |
| `OpenAddressing.HashMap.Rebuild` | hash_map_oa.py:174-210 | after the clear and the capacity step, the capacity is `n` made prime and the table is empty and sound |
| `OpenAddressing.HashMap.Reput` | hash_map_oa.py:212-214 | putting the saved pairs back yields a sound table without tombstones holding exactly their map, at most one pair over half full |
| `OpenAddressing.HashMap.PutBack` | hash_map_oa.py:213-214 | one re-put of the saved pairs: the table stays sound without tombstones and holds one more pair, and the capacity does not change when all the pairs fit in half of it; the table stays at most one pair over half full |
| `OpenAddressing.HashMap.Get` | hash_map_oa.py:216-244 | `get` is `None` on an empty map, otherwise the lookup loop's result; in a sound table the mapped value of a present key, never a value for an absent one |
| `OpenAddressing.HashMap.ContainsKey` | hash_map_oa.py:246-276 | `contains_key` is false on an empty map; in a sound table it is true exactly for the keys of the map whenever it stops |
| `OpenAddressing.HashMap.Remove` | hash_map_oa.py:278-306 | `remove` performs exactly the update `Erase` describes; in a sound table a present key leaves the map and an absent key changes nothing |
| `OpenAddressing.HashMap.Tombstone` | hash_map_oa.py:298-303 | the removal loop tombstones the first entry with the key on the probe path and decrements the size |
| `OpenAddressing.HashMap.GetKeysAndValues` | hash_map_oa.py:317-334 | the live pairs in bucket order; without repeated keys in a sound table |
| `OpenAddressing.HashMap.EmptyBuckets` | hash_map_oa.py:146-154 | `capacity - size`: the number of non-live buckets when the size is accurate, never less |
| `OpenAddressing.HashMap.Iter` | hash_map_oa.py:336-344 | `__iter__` resets the position to 0 |
| `OpenAddressing.HashMap.Next` | hash_map_oa.py:346-365 | `__next__` returns the next live entry at or after the position and moves past it, or nothing once the position reaches the capacity |
| `OpenAddressing.SkipFree` | hash_map_oa.py:355-356 | the skipping loop of `__next__` stops at the first bucket from the position that holds a live entry, or at the capacity, and passes no live entry on the way |
| `OpenAddressing.ResizeExample` | hash_map_oa.py:430-434 | capacity 23 holding `'key1' -> 10`, resized to 30, has capacity 31 and still maps `'key1'` to 10 |
| `Chaining.Contains` | hash_map_sc.py:109-110 | the chain's `contains` finds the first node with the key, or reports that no node has it |
| `Chaining.Assign` | hash_map_sc.py:109-118 | the chain step of `put` adds a node exactly when the key is absent, holds the new pair afterwards and keeps keys unique |
| `Chaining.Remove` | hash_map_sc.py:268-270 | the chain's `remove` reports a removal exactly when the key is present, drops one node, keeps every other node and leaves the key absent |
| `Chaining.LookupMap` | hash_map_sc.py:221-230 | in a well-formed table the key's chain holds the key exactly when the map does, with the mapped value |
| `Chaining.AssignMap` | hash_map_sc.py:106-118 | the chain step of `put` keeps the table well formed, maps the key to the value, and adds a node exactly when the key was absent |
| `Chaining.RemoveMap` | hash_map_sc.py:264-270 | `remove` keeps the table well formed, takes the key out of the map, and drops a node exactly when the key was present |
| `Chaining.FlattenUnique` | hash_map_sc.py:272-288 | with every key once in its own chain, the collected pairs carry distinct keys |
| `Chaining.EmptyCountBounds` | hash_map_sc.py:120-137 | the empty chains number at least `capacity - size`, and all chains are empty when the table holds nothing |
| `Modes.ScanModes` | hash_map_sc.py:323-341 | the maximum scan returns the largest count and the keys having it, in order |
| `Modes.MaxOfBounds` | hash_map_sc.py:328-341 | the scan's maximum is absent exactly for no pairs, bounds every count and is one of them |
| `Modes.KeysWithDistinct` | hash_map_sc.py:333-335 | with unique keys, no key is listed twice among the modes |
| `Modes.ModesOfMap` | hash_map_sc.py:322-343 | read against the map of the pairs: no maximum exactly for the empty map; otherwise every count is at most it and the modes are exactly the keys mapped to it |
| `SeparateChaining.Grown` | hash_map_sc.py:176-191 | the capacity `resize_table` settles on is prime, at least the size and at least the start, and the start itself when the pairs fit |
| `SeparateChaining.NewCapacity` | hash_map_sc.py:176-191 | the doubling loop of `resize_table` computes exactly that capacity |
| `SeparateChaining.AppendChain` | hash_map_sc.py:284-286 | the inner loop of `get_keys_and_values` appends the chain's nodes in order |
| `SeparateChaining.HashMap.constructor` | hash_map_sc.py:13-29 | a new map is empty and well formed, with capacity `_next_prime(capacity)` |
| `SeparateChaining.HashMap.Clear` | hash_map_sc.py:148-155 | `clear` empties the map and keeps the capacity, except that 2 becomes 3 |
| `SeparateChaining.HashMap.Place` | hash_map_sc.py:106-118 | in the key's chain, overwrite the node with the key or append one; the key maps to the value and the size grows exactly when it is new; with room for a new key, the load stays at most 1 |
| `SeparateChaining.HashMap.Put` | hash_map_sc.py:90-118 | `put(k, v)` maps `k` to `v` and keeps everything else; the size grows exactly when `k` is new; the capacity changes exactly when `size >= capacity`, to the grown capacity from twice the old one; the load stays at most 1 (`size <= capacity`) |
| `SeparateChaining.HashMap.ResizeTable` | hash_map_sc.py:157-209 | below 1 nothing changes; otherwise the map and the size are kept, and the capacity becomes the first prime in the doubling sequence from `n` that the pairs fit in at load at most 1 |
| `SeparateChaining.HashMap.Rebuild` | hash_map_sc.py:193-204 | the new capacity with empty chains: an empty, well-formed map |
| `SeparateChaining.HashMap.Reput` | hash_map_sc.py:206-209 | the saved pairs are put back without any nested resize; the map is theirs and the size their number |
| `SeparateChaining.HashMap.PutBack` | hash_map_sc.py:207-209 | each re-put adds a new key below the load threshold, so capacity and buckets stay |
| `SeparateChaining.HashMap.Get` | hash_map_sc.py:211-230 | `get` returns the mapped value for a key of the map and `None` otherwise |
| `SeparateChaining.HashMap.ContainsKey` | hash_map_sc.py:232-252 | `contains_key` is true exactly for the keys of the map |
| `SeparateChaining.HashMap.Remove` | hash_map_sc.py:254-270 | `remove(k)` takes `k` out of the map; the size drops by one exactly when `k` was present |
| `SeparateChaining.HashMap.GetKeysAndValues` | hash_map_sc.py:272-288 | the pairs chain by chain in bucket order; they hold the map, with unique keys, as many as the size |
| `SeparateChaining.HashMap.EmptyBuckets` | hash_map_sc.py:120-137 | the number of empty chains, between `capacity - size` and `capacity`, and `capacity` for an empty map |
| `SeparateChaining.FindMode` | hash_map_sc.py:291-343 | `None` exactly for empty input; otherwise the largest count, and the modes are exactly the elements with that count, each once, in `get_keys_and_values` order: the modes follow the listing of the final well-formed table bucket by bucket, then chain by chain |
| `SeparateChaining.CountsMeaning` | hash_map_sc.py:308-319 | the counts `find_mode` builds have the input's elements as keys and their multiplicities as values |
| `SeparateChaining.ResizeExample` | hash_map_sc.py:430-436 | capacity 23 holding `'key1' -> 10`, resized to 30, has capacity 31 and still maps `'key1'` to 10 |
| `SeparateChaining.ContainsKeyExample` | hash_map_sc.py:479-489 | after putting three keys, `contains_key` finds them and not `'key4'`; once `'key3'` is removed, not it either |
| `SeparateChaining.ThreeKeys` | hash_map_sc.py:479-483 | the set-up of that example: `contains_key` on the new map is false, and after the three puts the map holds exactly `'key1'`, `'key2'`, `'key3'` with 10, 20, 30 |
| `SeparateChaining.FindModeExample` | hash_map_sc.py:530-532 | in `apple, apple, grape, melon, peach` the mode is `apple`, with frequency 2 |

## Left out

- `table_load`: its float result is not modelled. Both maps compare the load as integers instead: `2 * size >= capacity` and `size >= capacity`.
- `__str__` in both files: it only formats text.
- `get_size` and `get_capacity`: the model reads the `size` and `capacity` fields directly.
- The demo blocks under `if __name__ == "__main__"`: only the scenarios of `ResizeExample`, `ContainsKeyExample` and `FindModeExample` are modelled.
- The collaborators `DynamicArray`, `LinkedList`, `HashEntry`, `hash_function_1` and `hash_function_2` are not part of this model. Dafny arrays and sequences stand for the dynamic array. A chain is the sequence of its nodes, with the contract the map relies on (`contains` finds the first node, `insert` appends, `remove` drops the first node with the key and reports it). The hash function is a parameter.
- Aliasing of `HashEntry` and linked-list node objects is not modelled: a slot or node is a value, and overwriting a value in place is a slot or node replacement.
- Python's `StopIteration`: `__next__` returns `None` instead of raising.
- `OpenAddressing.HashMap.Next` returns the entry's `(key, value)` pair, not the entry object.
- `OpenAddressing.HashMap.constructor` sets the iterator position to 0. In the source `__init__` never sets `_index`, so `__next__` before `__iter__` raises `AttributeError`; that failure is not modelled.
- `OpenAddressing.HashMap.Next` requires the iterator position to be at most the capacity. After a `resize_table` that shrinks the table during an iteration, the source's `__next__` skips its loop, misses the `==` test and reads the bucket at the old position, which may be out of range, empty or a tombstone; that case is not modelled.
- Negative capacities: both constructors take a natural number. For a negative argument `_is_prime` reports negative odd numbers prime, as `IsPrime` states.
- `SeparateChaining.FindMode`: the contract fixes the order of the modes as the bucket-by-bucket, chain-by-chain listing of a well-formed table holding the counts, but not the order of the keys within one chain or the final capacity, which depend on the order of the puts and the resizes.
- `OpenAddressing.HashMap.ResizeTable` requires that `n` and the size are not both 0. For those inputs the source divides by zero when it recomputes the load.
- The growth loop of the open-addressing `resize_table` never runs, because `clear` has already zeroed the size. `Rebuild` skips it and says so in a comment.
- Open-addressing probe loops that never stop are reported as `Loops`, or as `halts == false`, instead of running forever.
- `get` on both maps returns `Option` (`SeparateChaining.HashMap.Get`, and `OpenAddressing.HashMap.Get` inside its `Outcome`): a key stored with the value `None` is reported as `Some(None)` here, while Python cannot tell it from an absent key.
