# poirot's sharded hash map, modelled in Dafny

This project models `ConcurrentHashMap` and `ConcurrentHashSet` from the Rust crate
poirot (`src/lib.rs`).

A `ConcurrentHashMap` splits its keys across a fixed, power-of-two number of independent
hash tables called *segments*. The map hashes a key to 64 bits. The top `log2(N)` bits
of that hash pick the segment, and every per-key operation is then the ordinary table
operation on that one segment. `ConcurrentHashSet` is a map whose values are all `()`.

The model proves a refinement. The segments are a `seq<map<K, V>>`, and together they
stand for one abstract `map<K, V>`: their union, `Segments.Flatten`. They also keep the
*routing invariant* `ConcurrentMap.Routed`: every key in segment `i` hashes to `i`.
Construction establishes that invariant and every operation keeps it. Each operation's
contract is stated against the abstract map: `insert` is a map update, `remove` a key
deletion, `contains` and `get` are membership and lookup. Draining the map lists every
entry of the abstract map exactly once, segment by segment in index order.

Files:

- `options.dfy`: `Option`.
- `rust_ints.dfy`: the `u64`/`usize` arithmetic the map uses: `next_power_of_two`,
  `trailing_zeros`, `>>`, `&`, `/`. `next_power_of_two` and the checked `>>` panic
  where a debug build panics; a logical `>>` is there as well.
- `segments.dfy`: a sequence of tables read as one map, and what it means for a sequence
  of entries to enumerate a map.
- `concurrent_map.dfy`: routing, the map, and its draining iterator.
- `concurrent_set.dfy`: the set and its iterator.
- `scenarios.dfy`: the repository's single-threaded tests (`tests/hashmap.rs`,
  `tests/set.rs`) as client methods. Each postcondition is the test's check, proved for
  all inputs and every hash function.

The hash is a parameter. `hash_builder` becomes a `const hashBuilder: K -> u64` fixed at
construction, so every result holds for every hash function, `RandomState` included.

Construction and routing use Rust operators that panic in a debug build:

- `next_power_of_two` panics when its argument is above 2^63. This shows up as two
  `requires` on `with_options`.
- A single segment makes `get_segment` shift by 64, which panics. That is the finding
  below. The map class routes with the logical shift, which sends every key to
  segment 0 in that case.

## Model

| member | source | states |
|---|---|---|
| RustInts.NextPowerOfTwo | src/lib.rs:97 | the rounded-up count is a power of two, at least the input, and 1 for inputs 0 and 1 |
| RustInts.NextPowerOfTwoIsLeast | src/lib.rs:97 | no power of two at or above the input is smaller than the result: it is the least one |
| RustInts.NextPowerOfTwoFits | src/lib.rs:97-98 | for inputs up to 2^63 the result is at most 2^63, so it fits a usize and does not panic |
| RustInts.PowerOfTwoExponent | src/lib.rs:126 | for a power of two n, `trailing_zeros` is log2 n and below 64 |
| RustInts.Div | src/lib.rs:98 | unsigned `/` truncates: the quotient is the largest q with q * d <= x |
| RustInts.CheckedShiftRight | src/lib.rs:127 | wherever a debug-build `>>` on a u64 does not panic, its result r satisfies r * 2^s <= x < r * 2^s + 2^s, so it is x / 2^s rounded down |
| RustInts.BitAndLowMask | src/lib.rs:127 | `x & (2^b - 1)` leaves every x below 2^b unchanged |
| RustInts.TopBitsBound | src/lib.rs:125-127 | a 64-bit hash shifted right by 64 - b is below 2^b |
| ConcurrentMap.GetSegment | src/lib.rs:124-128 | the segment index is below the segment count, and it is the hash shifted right by 64 - log2(count): the mask changes nothing |
| ConcurrentMap.GetSegmentIsTopBits | src/lib.rs:124-128 | with 2^b segments the index is the top b bits of the hash, `hash >> (64 - b)`; the mask changes nothing |
| ConcurrentMap.GetSegmentAsWritten | src/lib.rs:124-128 | with `>>` overflow-checked, `get_segment` panics exactly when there is one segment; otherwise the index is below the segment count |
| ConcurrentMap.GetSegmentAsWrittenOverflows | src/lib.rs:125-127 | on every segment count other than 1, where it does not overflow, `get_segment` as written returns GetSegment's index |
| ConcurrentMap.SegmentSizesFit | src/lib.rs:97-98 | the segment count is a valid power of two, and each segment's share of the capacity rounds up without overflow |
| ConcurrentMap.DefaultSizes | src/lib.rs:131-138 | the defaults give 16 segments of capacity 64 / 16 = 4 |
| ConcurrentMap.EmptySegments | src/lib.rs:99-105 | the `for` loop pushes exactly count tables, all empty |
| ConcurrentMap.EmptyIsRouted | src/lib.rs:99-109 | empty tables satisfy the routing invariant and stand for the empty map |
| ConcurrentMap.RoutedIsDisjoint | src/lib.rs:124-128 | under the routing invariant no key is held by two segments |
| ConcurrentMap.RoutedLookup | src/lib.rs:48-52 | a key is in the abstract map exactly when its own segment holds it, with that segment's value |
| ConcurrentMap.RoutedInsert | src/lib.rs:35-39 | storing into the routed segment keeps the invariant and is `m[key := value]` on the abstract map |
| ConcurrentMap.RoutedRemove | src/lib.rs:61-63 | removing from the routed segment keeps the invariant and is `m - {key}` on the abstract map |
| ConcurrentMap.ConcurrentHashMap.SegmentOf | src/lib.rs:113-128 | `hash` then `get_segment` names an existing segment |
| ConcurrentMap.ConcurrentHashMap.WithOptions | src/lib.rs:96-110 | the rounded-up level is the segment count; all segments start empty; the map is routed and empty; each segment is sized to the rounded-up share |
| ConcurrentMap.ConcurrentHashMap.Default | src/lib.rs:131-138 | 16 empty segments of capacity 4, routed, and the abstract map is empty |
| ConcurrentMap.ConcurrentHashMap.New | src/lib.rs:27-29 | the same as `default` |
| ConcurrentMap.ConcurrentHashMap.Insert | src/lib.rs:34-40 | returns the key's previous value, or None if absent; the abstract map becomes `m[key := value]`; other segments are unchanged; routing is kept |
| ConcurrentMap.ConcurrentHashMap.Contains | src/lib.rs:43-53 | true exactly when the key is in the abstract map |
| ConcurrentMap.ConcurrentHashMap.Remove | src/lib.rs:56-64 | returns the removed value, or None if absent; the abstract map becomes `m - {key}`; other segments are unchanged |
| ConcurrentMap.ConcurrentHashMap.Get | src/lib.rs:67-79 | Some exactly when the key is present, holding its value in the abstract map |
| ConcurrentMap.ConcurrentHashMap.GetMut | src/lib.rs:82-94 | a guard is returned exactly when the key is present; writing through it changes only that key's value |
| ConcurrentMap.ConcurrentHashMap.IntoIter | src/lib.rs:148-152 | a fresh iterator over the map's own tables, nothing yielded yet, everything remaining |
| ConcurrentMap.DrainStart | src/lib.rs:173-175 | moving past a used-up table keeps the drain state and yields nothing |
| ConcurrentMap.FrontNotYielded | src/lib.rs:173-175 | a key still in the current table has not been yielded, and the abstract map holds it with the same value |
| ConcurrentMap.TakeKeepsState | src/lib.rs:173-175 | taking an entry from the current table moves it to the current table's yielded part and keeps the drain state |
| ConcurrentMap.DrainTake | src/lib.rs:173-175 | taking an entry from the front table yields a not yet yielded entry of the abstract map and removes exactly that key from what remains |
| ConcurrentMap.DrainDone | src/lib.rs:173-175 | a finished drain listed every entry exactly once, table by table in index order |
| ConcurrentMap.ConcurrentHashMapIter.constructor | src/lib.rs:148-152 | a new iterator has yielded nothing, and everything in the tables remains |
| ConcurrentMap.ConcurrentHashMapIter.ExhaustedYieldedAll | src/lib.rs:173-175 | when the iterator is used up, what it yielded enumerates the abstract map in segment order |
| ConcurrentMap.ConcurrentHashMapIter.SkipUsedUp | src/lib.rs:173-175 | the flattening step stops at a table with entries left, or at the end, without yielding |
| ConcurrentMap.ConcurrentHashMapIter.Next | src/lib.rs:173-175 | None exactly when nothing remains; otherwise a remaining entry, appended to what was yielded and removed from what remains |
| ConcurrentMap.Drain | src/lib.rs:141-175 | consuming the map yields every (key, value) of the abstract map exactly once, segment by segment |
| ConcurrentSet.EnumerationKeys | src/lib.rs:265-269 | the keys of an enumeration of a map are its keys, each once |
| ConcurrentSet.ConcurrentHashSet.New | src/lib.rs:184-188 | an empty set over a 16-segment map |
| ConcurrentSet.ConcurrentHashSet.WithCapacity | src/lib.rs:190-198 | an empty set over 16 segments sized for the given capacity |
| ConcurrentSet.ConcurrentHashSet.WithCapacityAndConcurrencyLevel | src/lib.rs:200-204 | an empty set whose segment count is the level rounded up to a power of two |
| ConcurrentSet.ConcurrentHashSet.WithCapacityAndHasher | src/lib.rs:231-235 | an empty set over 16 segments with the given hash |
| ConcurrentSet.ConcurrentHashSet.WithOptions | src/lib.rs:237-241 | an empty set with the given hash and the rounded-up segment count |
| ConcurrentSet.ConcurrentHashSet.Default | src/lib.rs:244-250 | an empty set over the default map |
| ConcurrentSet.ConcurrentHashSet.Insert | src/lib.rs:209-211 | true exactly when the key was absent; the set gains the key |
| ConcurrentSet.ConcurrentHashSet.Contains | src/lib.rs:214-220 | true exactly when the key is an element |
| ConcurrentSet.ConcurrentHashSet.Remove | src/lib.rs:223-229 | true exactly when the key was present; the set loses the key |
| ConcurrentSet.ConcurrentHashSet.IntoIter | src/lib.rs:255-258 | a fresh key iterator over the set's map, with every element remaining |
| ConcurrentSet.ConcurrentHashSetIter.constructor | src/lib.rs:257 | the set iterator wraps the given map iterator, so it has yielded the keys of what that iterator yielded |
| ConcurrentSet.ConcurrentHashSetIter.Next | src/lib.rs:265-269 | None exactly when no key remains; otherwise a remaining key, removed from what remains and appended to what was yielded |
| ConcurrentSet.DrainKeys | src/lib.rs:252-269 | the set's iterator yields every element exactly once and nothing else |
| Scenarios.InsertDistinctKeys | tests/hashmap.rs:8-11 | inserting under the keys 0, 1, 2, ... never returns an earlier value |
| Scenarios.InsertThenContains | tests/hashmap.rs:13-17 | every inserted key is contained afterwards |
| Scenarios.InsertThenRemove | tests/hashmap.rs:19-24 | after every inserted key is removed, none is contained |
| Scenarios.InsertZeroCounters | tests/hashmap.rs:31-33 | inserting 0 under the keys 0..8 leaves every counter at 0 |
| Scenarios.IncrementsStep | tests/hashmap.rs:35-38 | one more increment through `get_mut(x % 8)` raises exactly key x % 8 by 1 |
| Scenarios.IncrementKeepsCounts | tests/hashmap.rs:35-38 | incrementing key x % 8 takes the counters from x increments to x + 1 |
| Scenarios.IncrementCounters | tests/hashmap.rs:35-38 | the 8 * 1024 writes through `get_mut` leave every counter at its count of increments |
| Scenarios.AllCountsReached | tests/hashmap.rs:40-42 | after 8 * 1024 increments every counter is 1024 |
| Scenarios.MutateThroughGuards | tests/hashmap.rs:28-42 | after 8 * 1024 increments spread over 8 keys, every key reads back 1024 |
| Scenarios.SetAgreesWithReference | tests/set.rs:9-14 | the set and a reference set built from the same inserts agree both ways: every element is contained, and every element the set yields is in the reference |

## Left out

- Locking is not modelled. This covers the `RwLock` of each segment, read and write
  guards, and `OwningRef` / `OwningRefMut`. Each operation is one atomic step on its
  segment, so interleavings of threads are not modelled.
- ConcurrentMap.ConcurrentHashMap.Get returns the value, not a read guard that holds the
  segment's lock.
- ConcurrentMap.ConcurrentHashMap.GetMut takes an update function in place of writes
  through the returned `&mut V` guard, so several writes through one guard count as
  one update.
- The hash algorithm (`BuildHasher`, `RandomState`, `Hasher::finish`) is left out, because
  it is foreign code with random keys. The hash is an arbitrary function `K -> u64`
  fixed at construction. Constructors that use the default hasher take it as a parameter.
- Each segment's own hasher and the allocation a capacity hint causes have no observable
  effect, so they are left out. The model does record the per-segment capacity,
  `(capacity / N).next_power_of_two()`.
- The order of entries within one segment's table is left out. The iterator may take any
  remaining entry of the current table next. The order across segments is modelled.
- ConcurrentMap.ConcurrentHashMap.IntoIter does not model the move of `self`: the map
  object stays, and the iterator holds the tables as values.
- Lookups by a borrowed form `Q` of the key (`K: Borrow<Q>`) use `K` itself.
- `usize` is taken to be 64 bits wide, so `hash as usize` is the identity. 32-bit
  targets are out of scope.
- Overflow: only `next_power_of_two` (above 2^63 it panics, as in a debug build) and
  `GetSegmentAsWritten` model the debug-build panics. Release-build wrapping
  (`next_power_of_two` returning 0) is not modelled.
- ConcurrentMap.GetSegment: the map class routes with the corrected, logical shift, so
  `insert`, `contains`, `remove`, `get` and `get_mut` on a one-segment map succeed and
  use segment 0, where a debug build of `src/lib.rs:127` panics (see Findings).
- The derived `Debug` implementations are not modelled.
- The benchmarks are left out.
- The tests' random input generation is left out: the scenario methods take arbitrary
  input sequences instead.

## Findings

| source | as written | input that shows it | evidently intended | confidence | as-written member | corrected member |
|---|---|---|---|---|---|---|
| src/lib.rs:125-127 | `shift_size = 64 - len.trailing_zeros()`, then `hash >> shift_size` | a map with one segment, e.g. `with_options(c, h, 1)` or `with_capacity_and_concurrency_level(c, 0)`: `shift_size` is 64, and a debug build panics with "attempt to shift right with overflow" on the first `insert` | with one segment every key routes to segment 0, which a logical shift gives (release builds mask the shift to 0 and still return 0) | not executed | ConcurrentMap.GetSegmentAsWrittenOverflows | ConcurrentMap.GetSegmentIsTopBits |
