# agb, modelled in Dafny

This project models the hardware-free logic of `agb`, a Rust library for
writing Game Boy Advance games, together with its tools and example games,
and proves properties of that model. One Dafny module corresponds to each
source file:

- **Robin Hood hash map and set** (`hashmap_node.dfy`, `hashmap_storage.dfy`,
  `hashmap.dfy`, `hashset.dfy`). A power-of-two bucket array with linear
  probing by distance to the initial bucket, backward-shift deletion,
  `retain`, and resizing by doubling. The map and the set are classes over
  the bucket sequence, with a ghost map of their contents. Each operation is
  proved against those contents.
- **Fixed-point numbers and geometry** (`fixnum_num.dfy`, `fixnum_rect.dfy`,
  `fixnum_vec2.dfy`). `Num<i32, N>` is an `i32` raw value. Floor, trunc,
  frac, `rem_euclid`, multiplication, division and the digit-by-digit square
  root are stated exactly, down to two's-complement shifts and truncating
  division. Rectangles and vectors are plain integer arithmetic.
- **Save storage** (`save_block.dfy`, `save_sector_storage.dfy`,
  `save_test_storage.dfy`).
  - The block codec, with the CRC-16/ARC check and its round trip.
  - The choice of sector size.
  - Sector reads and writes over the in-memory flash. The flash tracks erased
    blocks and counts writes, and can be told to fail.
- **Allocators, counters and encodings.**
  - The async executor's ring channel (`executor_channel.dfy`).
  - The sprite palette bitmask (`sprite_palette_allocator.dfy`).
  - Sprite sizes and animation frames (`sprite_tag.dfy`).
  - Text-renderer control characters (`font_special.dfy`).
  - The crash-trace decoder (`gwilym_encoding.dfy`).
  - Button edges (`input.dfy`).
  - The mixer's buffer indices and channel slots (`sound_mixer.dfy`).
  - Background sizes, offsets, tile settings and screen-block search
    (`regular_background.dfy`, `tiled_modes.dfy`, `tiled.dfy`).
  - Tile reference counts and dynamic tiles (`vram_manager.dfy`).
  - The z-ordered doubly linked list of managed objects
    (`managed_store.dfy`).
- **Game rules of the example games** (`dungeon_entity.dfy`,
  `hyperspace_battle.dfy`, `purple_night.dfy`, `hat_wizard.dfy`).
- **Converter tooling.**
  - The 16-colour palette optimiser (`palette16.dfy`).
  - Sample padding, loop unrolling, narrowing and signing (`samplefix.dfy`).
  - `readbits`, file-type detection, sample lengths and clamps (`simple.dfy`).

`common.dfy` holds `Option`/`Result` and the machine-integer helpers:
powers of two, masks, wrapping, shifts and truncating division.

Code that updates state in place becomes a class, with `modifies` clauses
and `ensures` that give the new state. Examples are the bucket array, the
ring channel, the reference-count table, the linked list, the sample
buffers and the palettes. Each such method is proved against a function of
the old state, and the lemmas beside that function state what the source
promises. Pure code becomes functions and lemmas.

## Model

| member | source | states |
|---|---|---|
| `Bits.BitAndMask` | agb-hashmap/src/lib.rs:951-954 | for a power-of-two `n`, the bitwise `x & (n - 1)` equals `x % n` |
| `Slices.CopyFromSlice` | agb-save/src/block.rs:267-279 | `copy_from_slice` into `buffer[start..]` writes the source there and leaves every other byte as it was |
| `Slices.OverwriteReadBack` | agb-save/src/block.rs:267-279 | after a copy the copied slice reads back where it was put, and every other element is unchanged |
| `HashNode.FastMod` | agb-hashmap/src/lib.rs:951-954 | for a power-of-two length, `hash & (len - 1)` is `hash % len`, a bucket index below `len` |
| `HashNode.ProbeSlot` | agb-hashmap/src/lib.rs:957-963 | the bucket `distance` steps after the initial bucket (wrapping `u32` add, then `fast_mod`) is `(hash + distance) % len` |
| `HashNode.Distance` | agb-hashmap/src/node.rs:142-144 | the stored distance is at least -1, and -1 exactly for an empty bucket |
| `HashNode.HasValue` | agb-hashmap/src/node.rs:93-95 | a bucket is occupied iff its distance is non-negative |
| `HashNode.NewNode` | agb-hashmap/src/node.rs:19-26 | a new node is empty, with distance -1 |
| `HashNode.NewWith` | agb-hashmap/src/node.rs:28-35 | `new_with` gives an occupied node at distance 0 holding the given key, value and hash |
| `HashNode.KeyRef` | agb-hashmap/src/node.rs:56-65 | the key is returned iff the node is occupied |
| `HashNode.KeyValueRef` | agb-hashmap/src/node.rs:67-76 | the key and value are returned iff the node is occupied |
| `HashNode.TakeKeyValue` | agb-hashmap/src/node.rs:97-110 | the node is left empty; the key, value and hash come back iff it was occupied, `None` otherwise |
| `HashNode.Replace` | agb-hashmap/src/node.rs:117-127 | only on an occupied node: the old pair comes back and the new key and value go in with distance and hash unchanged |
| `HashNode.ReplaceValue` | agb-hashmap/src/node.rs:112-115 | the old value comes back and only the value changes |
| `HashNode.IncrementDistance` | agb-hashmap/src/node.rs:129-131 | the distance grows by one; key, value and hash are unchanged |
| `HashNode.DecrementDistance` | agb-hashmap/src/node.rs:133-140 | requires the decremented distance to stay non-negative (the source's assert); the distance drops by one, nothing else changes |
| `HashStorage.NumberBeforeResize` | agb-hashmap/src/lib.rs:919-921 | 60% of the backing size, rounded down: never above it, and strictly between 0 and it from size 2 on |
| `HashStorage.PutKeepsRobinHood` | agb-hashmap/src/node_storage.rs:66-84 | placing an entry in its probe bucket over a resident no further from home keeps the Robin Hood ordering |
| `HashStorage.NoGap` | agb-hashmap/src/node_storage.rs:136-153 | every bucket between an entry's initial bucket and its position is occupied by an entry at least as far from home, so a probe never meets an empty bucket before it |
| `HashStorage.CarryPast` | agb-hashmap/src/node_storage.rs:66-84 | a resident further from home than the carried node stays; the carried node moves on one bucket with distance + 1 |
| `HashStorage.CarrySwap` | agb-hashmap/src/node_storage.rs:66-84 | a resident whose distance is <= the carried node's is displaced: they swap and the resident is carried on |
| `HashStorage.CarryPlace` | agb-hashmap/src/node_storage.rs:75-80 | an empty bucket takes the carried node: the table stays Robin Hood and holds one entry more |
| `HashStorage.InsertStart` | agb-hashmap/src/node_storage.rs:57-58 | the probe of `insert_new` starts with a fresh node at distance 0 and the new key recorded |
| `HashStorage.InsertPast` | agb-hashmap/src/node_storage.rs:63-84 | the loop state of `insert_new` survives passing a resident that is further from home |
| `HashStorage.InsertSwap` | agb-hashmap/src/node_storage.rs:63-84 | the loop state survives a swap, and the first swap fixes `inserted_location` |
| `HashStorage.InsertPlace` | agb-hashmap/src/node_storage.rs:75-88 | placing the carried node ends the loop with a valid table of one more entry, `max_distance` at least every distance |
| `HashStorage.StartShift` | agb-hashmap/src/node_storage.rs:116-118 | backward-shift deletion starts with the removed entry's bucket as the hole |
| `HashStorage.ShiftStep` | agb-hashmap/src/node_storage.rs:119-133 | swapping a displaced next entry into the hole and decrementing its distance moves the hole one bucket forward |
| `HashStorage.FinishShift` | agb-hashmap/src/node_storage.rs:124-127 | once the next bucket is empty or at distance 0, clearing the hole restores the Robin Hood invariant |
| `HashStorage.RemoveBegin` | agb-hashmap/src/node_storage.rs:116-118 | the bookkeeping state of `remove_from_location` at its start |
| `HashStorage.RemoveAdvance` | agb-hashmap/src/node_storage.rs:119-133 | one back-shift step keeps the bookkeeping: the moved key now sits one bucket earlier |
| `HashStorage.RemoveEnd` | agb-hashmap/src/node_storage.rs:124-127 | the final clear leaves one entry fewer, every other entry in place or one bucket back |
| `HashStorage.RemoveFinish` | agb-hashmap/src/node_storage.rs:116-134 | after the removal the table is valid with count - 1 and without the removed key |
| `HashStorage.RetainAfterRemove` | agb-hashmap/src/node_storage.rs:102-109 | removing a failing entry and re-examining the same bucket keeps the scan state of `retain` |
| `HashStorage.RetainAfterKeep` | agb-hashmap/src/node_storage.rs:99-113 | passing an empty bucket or one whose entry satisfies `f` advances the scan |
| `HashStorage.RetainDone` | agb-hashmap/src/node_storage.rs:91-114 | after the last bucket, the entries left are exactly those satisfying `f` |
| `HashStorage.ReplaceKeepsTable` | agb-hashmap/src/node_storage.rs:167-169 | a new value in an occupied bucket keeps every invariant; the old value was the recorded one |
| `HashStorage.DrainStep` | agb-hashmap/src/node_storage.rs:158-162 | draining one bucket moves its entry (if any), which was not moved before |
| `HashStorage.DrainDone` | agb-hashmap/src/node_storage.rs:155-165 | after the drain every entry, with its hash, has been moved |
| `HashStorage.NodeStorage.Stored` | agb-hashmap/src/node_storage.rs:8-14 | every entry of the abstract contents sits, with its value and hash, in the bucket `Where` names |
| `HashStorage.NodeStorage.WithSizeIn` | agb-hashmap/src/node_storage.rs:17-31 | requires a power-of-two size (the source's assert); gives `capacity` empty buckets, no entries, and a capacity of 60% |
| `HashStorage.NodeStorage.Capacity` | agb-hashmap/src/node_storage.rs:37-39 | 60% of the backing size, and at least the current length |
| `HashStorage.NodeStorage.BackingVecSize` | agb-hashmap/src/node_storage.rs:41-43 | the number of buckets, a power of two |
| `HashStorage.NodeStorage.Len` | agb-hashmap/src/node_storage.rs:45-47 | `number_of_items` equals the number of stored entries |
| `HashStorage.NodeStorage.Location` | agb-hashmap/src/node_storage.rs:136-153 | a found bucket holds the key; `None` means no bucket holds it; a stored key with that hash is always found |
| `HashStorage.Probe` | agb-hashmap/src/node_storage.rs:140-152 | the probe over distances 0..=max_distance finds the key's bucket or proves the key absent (stopping early at an empty bucket) |
| `HashStorage.NodeStorage.InsertNew` | agb-hashmap/src/node_storage.rs:49-89 | requires room and a new key; the key joins the contents with its hash, the count grows by one, and the returned bucket holds the new key |
| `HashStorage.RobinHoodInsert` | agb-hashmap/src/node_storage.rs:57-85 | the probe loop ends with a valid Robin Hood table of one more entry, the key at the returned bucket |
| `HashStorage.InsertEntry` | agb-hashmap/src/node_storage.rs:49-89 | `insert_new` on plain table state: valid table with the key added at the returned location |
| `HashStorage.NodeStorage.RemoveFromLocation` | agb-hashmap/src/node_storage.rs:116-134 | the key at `location` leaves the contents, its value is returned, the count drops by one and every other entry stays or moves back one bucket |
| `HashStorage.BackwardShift` | agb-hashmap/src/node_storage.rs:119-133 | the back-shift loop returns the removed value and a valid table without that key |
| `HashStorage.NodeStorage.Retain` | agb-hashmap/src/node_storage.rs:91-114 | the contents become exactly the entries satisfying `f`; hashes and the table size are kept |
| `HashStorage.RetainBuckets` | agb-hashmap/src/node_storage.rs:95-113 | the bucket scan of `retain` leaves a valid table holding `Kept(contents, f)` |
| `HashStorage.NodeStorage.ReplaceAtLocation` | agb-hashmap/src/node_storage.rs:167-169 | the previous value comes back and only that key's value changes |
| `HashStorage.NodeStorage.ResizedTo` | agb-hashmap/src/node_storage.rs:155-165 | the new storage of `newSize` buckets holds exactly the same entries and hashes, so the item count is preserved |
| `HashStorage.Reinsert` | agb-hashmap/src/node_storage.rs:158-162 | re-inserting every drained entry in bucket order gives a valid table with the same contents |
| `AgbHashMap.HashMap.Hash` | agb-hashmap/src/lib.rs:480-491 | the stored hash of a key is the map's hasher output folded to 32 bits and bit-mixed |
| `AgbHashMap.Doubling` | agb-hashmap/src/lib.rs:343-345 | doubling a power-of-two table below 2^31 buckets stays a power of two within bounds and raises its capacity |
| `AgbHashMap.RoomGrows` | agb-hashmap/src/lib.rs:919-921 | doubling a non-empty table strictly raises `number_before_resize` |
| `AgbHashMap.HashMap.WithSize` | agb-hashmap/src/lib.rs:202-207 | requires a power-of-two size; the map is empty with `size` buckets |
| `AgbHashMap.HashMap.New` | agb-hashmap/src/lib.rs:211-213 | an empty map of 16 buckets |
| `AgbHashMap.HashMap.WithCapacity` | agb-hashmap/src/lib.rs:227-239 | the smallest power-of-two size whose 60% exceeds `capacity`: its capacity exceeds it and half the size would not |
| `AgbHashMap.HashMap.Len` | agb-hashmap/src/lib.rs:243-245 | the number of entries |
| `AgbHashMap.HashMap.Capacity` | agb-hashmap/src/lib.rs:249-251 | 60% of the buckets, at least the length |
| `AgbHashMap.HashMap.IsEmpty` | agb-hashmap/src/lib.rs:297-299 | true iff the map holds no entry |
| `AgbHashMap.HashMap.Resize` | agb-hashmap/src/lib.rs:301-311 | the same entries in `newSize` buckets |
| `AgbHashMap.HashMap.GrowIfFull` | agb-hashmap/src/lib.rs:343-345 | the table doubles exactly when `capacity <= len`, keeps its entries, and then has room for one more |
| `AgbHashMap.HashMap.Insert` | agb-hashmap/src/lib.rs:331-351 | the key maps to the new value; the result is `Some(old value)` for a present key and `None` for a new one; the table doubles only for a new key in a full table |
| `AgbHashMap.HashMap.InsertNewAndGet` | agb-hashmap/src/lib.rs:353-366 | an absent key is added (after doubling a full table) and its bucket comes back holding key and value |
| `AgbHashMap.HashMap.ContainsKey` | agb-hashmap/src/lib.rs:369-376 | true iff the key is present |
| `AgbHashMap.HashMap.GetKeyValue` | agb-hashmap/src/lib.rs:379-395 | the stored key and value iff the key is present |
| `AgbHashMap.HashMap.Get` | agb-hashmap/src/lib.rs:409-415 | `Some(value)` for a present key, `None` otherwise |
| `AgbHashMap.HashMap.Index` | agb-hashmap/src/lib.rs:882-884 | requires the key present (the source panics otherwise) and gives its value |
| `AgbHashMap.HashMap.Remove` | agb-hashmap/src/lib.rs:463-473 | the key leaves the map; the result is its value if it was present, else `None`, so a second remove gives `None` |
| `AgbHashMap.HashMap.Keys` | agb-hashmap/src/lib.rs:254-256 | the iterator visits exactly the map's keys, each once, `len` of them |
| `AgbHashMap.HashMap.Retain` | agb-hashmap/src/lib.rs:288-293 | exactly the entries satisfying `f` remain |
| `AgbHashMap.HashMap.EntryOf` | agb-hashmap/src/lib.rs:835-850 | an occupied entry iff the key is present |
| `AgbHashMap.HashMap.EntryGet` | agb-hashmap/src/lib.rs:639-647 | the value of the entry's key |
| `AgbHashMap.HashMap.OccupiedInsert` | agb-hashmap/src/lib.rs:682-690 | the old value comes back and the key maps to the new one |
| `AgbHashMap.HashMap.OccupiedRemove` | agb-hashmap/src/lib.rs:633-636 | the key and its value come back and the key leaves the map |
| `AgbHashMap.HashMap.VacantInsert` | agb-hashmap/src/lib.rs:725-731 | the absent key is added with the value |
| `AgbHashMap.HashMap.OrInsert` | agb-hashmap/src/lib.rs:755-760 | the present value, or the given value newly inserted; afterwards the key maps to the returned value |
| `AgbHashMap.HashMap.OrInsertWithKey` | agb-hashmap/src/lib.rs:780-791 | as `or_insert`, with `f(key)` computed only for a vacant entry |
| `AgbHashMap.HashMap.AndModify` | agb-hashmap/src/lib.rs:796-807 | `f` is applied to an occupied entry's value; a vacant entry changes nothing |
| `AgbHashMap.HashMap.Extend` | agb-hashmap/src/lib.rs:868-872 | the entries become those of inserting the pairs in order |
| `AgbHashMap.HashMap.InsertNext` | agb-hashmap/src/lib.rs:868-872 | one step of `extend` inserts one pair |
| `AgbHashMap.HashMap.FromIter` | agb-hashmap/src/lib.rs:857-861 | the map built from a list of pairs holds `InsertAll(map[], entries)` |
| `AgbHashMap.InsertAllKeys` | agb-hashmap/src/lib.rs:868-872 | the keys after the inserts are the old keys plus every key of the pairs |
| `AgbHashMap.InsertAllLastWins` | agb-hashmap/src/lib.rs:1466-1476 | the map built from any list of pairs agrees, in both directions, with the BTreeMap reference: a key is present iff some pair mentions it, with the value of its last pair |
| `AgbHashMap.FourDistinctKeys` | agb-hashmap/src/lib.rs:986-995 | inserting `i / 2` for `i` in 0..8 leaves 4 entries |
| `AgbHashMap.FoundAll` | agb-hashmap/src/lib.rs:892-899 | once every entry of one map is found in the other and the lengths agree, the maps are equal |
| `AgbHashMap.Mismatch` | agb-hashmap/src/lib.rs:896-898 | one entry missing or with a different value makes the maps differ |
| `AgbHashMap.MapsEqual` | agb-hashmap/src/lib.rs:892-899 | `eq` holds iff the two maps hold the same entries |
| `AgbHashSet.HashSet.New` | agb-hashmap/src/hash_set.rs:61-63 | an empty set of 16 buckets |
| `AgbHashSet.HashSet.WithSize` | agb-hashmap/src/hash_set.rs:83-87 | requires a power-of-two size; an empty set of that many buckets |
| `AgbHashSet.HashSet.WithCapacity` | agb-hashmap/src/hash_set.rs:104-108 | an empty set whose capacity exceeds the request |
| `AgbHashSet.HashSet.Len` | agb-hashmap/src/hash_set.rs:117-119 | the number of elements |
| `AgbHashSet.HashSet.IsEmpty` | agb-hashmap/src/hash_set.rs:123-125 | true iff there is no element |
| `AgbHashSet.HashSet.Capacity` | agb-hashmap/src/hash_set.rs:129-131 | the inner map's capacity, at least the length |
| `AgbHashSet.HashSet.Iter` | agb-hashmap/src/hash_set.rs:139-141 | every element exactly once |
| `AgbHashSet.HashSet.Retain` | agb-hashmap/src/hash_set.rs:144-149 | exactly the elements satisfying `f` remain |
| `AgbHashSet.HashSet.Insert` | agb-hashmap/src/hash_set.rs:179-181 | the value becomes an element; true iff it was absent |
| `AgbHashSet.HashSet.Remove` | agb-hashmap/src/hash_set.rs:196-202 | the value is absent afterwards; true iff it was present |
| `AgbHashSet.HashSet.Contains` | agb-hashmap/src/hash_set.rs:215-221 | true iff the value is an element |
| `AgbHashSet.HashSet.Difference` | agb-hashmap/src/hash_set.rs:241-246 | yields exactly the elements of `self` not in `other`, each once |
| `AgbHashSet.HashSet.SymmetricDifference` | agb-hashmap/src/hash_set.rs:264-271 | yields exactly the elements in one set but not both, each once |
| `AgbHashSet.HashSet.Intersection` | agb-hashmap/src/hash_set.rs:290-301 | yields exactly the elements in both sets, each once |
| `AgbHashSet.HashSet.UnionAsWritten` | agb-hashmap/src/hash_set.rs:321-329 | the code as written: when `self` is the smaller set it yields only `other`'s elements; otherwise the union |
| `AgbHashSet.HashSet.Union` | agb-hashmap/src/hash_set.rs:321-329 | the corrected union: exactly the elements of either set, each once, `|a + b|` of them |
| `AgbHashSet.HashSet.Extend` | agb-hashmap/src/hash_set.rs:409-413 | the elements grow by exactly the given values |
| `AgbHashSet.Filter` | agb-hashmap/src/hash_set.rs:245 | the iterator `filter` over membership keeps exactly the listed elements whose membership is as asked |
| `AgbHashSet.ChainDifference` | agb-hashmap/src/hash_set.rs:328 | `first.iter().chain(second.difference(exclude))` yields the first set plus the second minus the excluded, each once |
| `AgbHashSet.SetsEqual` | agb-hashmap/src/hash_set.rs:420-422 | two sets are equal iff they hold the same elements |
| `AgbHashSet.FromIter` | agb-hashmap/src/hash_set.rs:398-402 | the set built from a list holds exactly the listed values |
| `AgbHashSet.InsertTwice` | agb-hashmap/src/hash_set.rs:174-177 | inserting 2 twice gives true, then false, and length 1 |
| `AgbHashSet.RemoveTwice` | agb-hashmap/src/hash_set.rs:189-194 | removing 2 twice gives true, then false, and an empty set |
| `AgbHashSet.SymmetricDifferenceEitherWay` | agb-hashmap/src/hash_set.rs:255-261 | `a` against `b` and `b` against `a` yield the same elements, as many of them |
| `AgbHashSet.UnionLosesSmallerSelf` | agb-hashmap/src/hash_set.rs:321-329 | for {1} against {2, 3} the union as written misses 1 |
| `AgbHashSet.UnionKeepsSmallerSelf` | agb-hashmap/src/hash_set.rs:321-329 | the corrected union of {1} and {2, 3} yields all three |
| `AgbHashSet.FromArrayExample` | agb-hashmap/src/hash_set.rs:314 | `HashSet::from([1, 2, 3])` holds those three elements |
| `AgbHashSet.UnionOfOverlapping` | agb-hashmap/src/hash_set.rs:314-318 | {1, 2, 3} union {2, 3, 4} has 4 elements |
| `FixNum.FromRaw` | agb-fixnum/src/num.rs:476-478 | `to_raw` of `from_raw(x)` is `x` |
| `FixNum.RawRoundTrip` | agb-fixnum/src/num.rs:476-493 | `from_raw(to_raw(a)) == a` |
| `FixNum.NewIsScaled` | agb-fixnum/src/num.rs:601-603 | `new(i)` (and `From<i32>`, num.rs:260-262) is `i << N`: its low `N` bits are zero and it is `i * 2^N` when that fits |
| `FixNum.New` | agb-fixnum/src/num.rs:601-603 | specified by `FixNum.NewIsScaled` and `FixNum.IntegerRoundTrip`: `i << N`, whose low `N` bits are zero, is `i * 2^N` when that fits, and floors and truncates back to `i` |
| `FixNum.FloorBounds` | agb-fixnum/src/num.rs:558-560 | `floor` (`raw >> N`) is the largest integer `k` with `k * 2^N <= raw`, so it rounds toward negative infinity |
| `FixNum.FloorUnique` | agb-fixnum/src/num.rs:558-560 | no other integer brackets the number that way |
| `FixNum.Floor` | agb-fixnum/src/num.rs:558-560 | specified by `FixNum.FloorBounds` and `FixNum.FloorUnique`: the one integer `k` with `k * 2^N <= raw < (k + 1) * 2^N` |
| `FixNum.TruncTowardZero` | agb-fixnum/src/num.rs:517-519 | `trunc` (`raw / 2^N` with Rust's division) has the magnitude of the floor of the magnitude and the number's sign: rounds toward zero |
| `FixNum.Trunc` | agb-fixnum/src/num.rs:517-519 | specified by `FixNum.TruncTowardZero`: rounds toward zero, with the number's sign |
| `FixNum.FracSplit` | agb-fixnum/src/num.rs:590-592 | `frac` (`raw & (2^N - 1)`) is `raw mod 2^N`, in `0..2^N`, and `2^N * floor + frac` rebuilds the raw value |
| `FixNum.Frac` | agb-fixnum/src/num.rs:590-592 | specified by `FixNum.FracSplit`: `raw mod 2^N`, which with `floor` rebuilds the raw value; requires `N < 31`, where `(1 << N) - 1` does not overflow |
| `FixNum.IntegerRoundTrip` | agb-fixnum/src/num.rs:517-592 | an integer converted to `Num` floors and truncates back to itself with a zero fraction |
| `FixNum.NewFromPartsSplit` | agb-fixnum/src/num.rs:609-611 | for a fraction in `0..2^30`, `new_from_parts` has the integer part as `floor` and the top `N` bits of the fraction as `frac` |
| `FixNum.NewFromPartsExample` | agb-fixnum/src/num.rs:912-915 | `new_from_parts((2, 1 << 26))` with `N = 4` has raw value 33 |
| `FixNum.HalfIsNumHalf` | agb-fixnum/src/num.rs:580-582 | the `num!(0.5)` that `round` adds is `2^(N-1)` raw |
| `FixNum.Abs` | agb-fixnum/src/num.rs:662-664 | `abs` is non-negative and is either the number or its negation |
| `FixNum.Neg` | agb-fixnum/src/num.rs:413-415 | specified by `FixNum.Abs`, which takes the non-negative one of a number and its negation; requires a value other than `i32::MIN` (see Left out) |
| `FixNum.AddIntegers` | agb-fixnum/src/num.rs:274-282 | `new(i) + new(j) == new(i + j)` |
| `FixNum.AddSubInverse` | agb-fixnum/src/num.rs:274-303 | `(a + b) - b == a` |
| `FixNum.Add` | agb-fixnum/src/num.rs:280-282 | specified by `FixNum.AddIntegers` and `FixNum.AddSubInverse`: converting commutes with `+`, and `-` undoes it; requires the sum to fit an `i32` (see Left out) |
| `FixNum.Sub` | agb-fixnum/src/num.rs:301-303 | specified by `FixNum.AddSubInverse`: undoes `+`; requires the difference to fit an `i32` (see Left out) |
| `FixNum.RoundNearest` | agb-fixnum/src/num.rs:580-582 | `round` is within half a unit of the number, halves rounding up |
| `FixNum.Round` | agb-fixnum/src/num.rs:580-582 | specified by `FixNum.RoundNearest`: the nearest integer, halves rounding up |
| `FixNum.MulIntIntegers` | agb-fixnum/src/num.rs:333-340 | `new(i) * k == new(i * k)` |
| `FixNum.MulIsWideProduct` | agb-fixnum/src/num.rs:93-111 | the split `upcast_multiply` of `Num * Num` equals the full 64-bit product shifted down by `N` and cast to `i32` (what the 16-bit precision test checks, num.rs:974-982) |
| `FixNum.UpcastParts` | agb-fixnum/src/num.rs:93-111 | each wrapped partial product of `upcast_multiply` in terms of the exact integral and fractional halves |
| `FixNum.PartialProductsExact` | agb-fixnum/src/num.rs:93-111 | the three wrapped partial products sum to the wide product wrapped once |
| `FixNum.Mul` | agb-fixnum/src/num.rs:321-330 | specified by `FixNum.MulIsWideProduct`: the 64-bit product shifted down by `N` and cast to `i32`; requires `2 * N <= 32`, as the debug assertion does |
| `FixNum.DivByOne` | agb-fixnum/src/num.rs:1003-1010 | dividing by `new(1)` is the identity whenever `raw << N` does not overflow |
| `FixNum.DivThenMulSixteen` | agb-fixnum/src/num.rs:1013-1022 | `(new(i) / 16) * 16 == new(i)` for `N >= 4` |
| `FixNum.Div` | agb-fixnum/src/num.rs:358-367 | specified by `FixNum.DivByOne` and `FixNum.DivThenMulSixteen`: dividing by one is the identity and dividing then multiplying by 16 restores an integer; a zero divisor and `i32::MIN / -1` panic (requires) |
| `FixNum.DivInt` | agb-fixnum/src/num.rs:375-377 | specified by `FixNum.DivIntTowardZero`; a zero divisor and `i32::MIN / -1` panic (requires) |
| `FixNum.DivIntTowardZero` | agb-fixnum/src/num.rs:375-377 | `Num / i32` rounds the raw quotient toward zero: its magnitude is the floor of the magnitudes and its sign that of the exact quotient |
| `FixNum.RemOfIntegers` | agb-fixnum/src/num.rs:390-398 | on integers `%` is integer truncated remainder (num.rs:1048-1061) |
| `FixNum.Rem` | agb-fixnum/src/num.rs:396-398 | specified by `FixNum.RemOfIntegers` and `FixNum.RemEuclidRange`: the truncated remainder of the raw values, which on integers is the integer remainder |
| `FixNum.RemEuclidRange` | agb-fixnum/src/num.rs:537-548 | `rem_euclid` lies in `0..|rhs|` and differs from the number by a multiple of `|rhs|` |
| `FixNum.EuclidAdjust` | agb-fixnum/src/num.rs:537-548 | adding `|rhs|` to a negative truncated remainder gives the Euclidean remainder |
| `FixNum.RemEuclidPositive` | agb-fixnum/src/num.rs:1088-1105 | the `rem_euclid` of a non-integer by a non-zero integer is strictly positive |
| `FixNum.RemEuclid` | agb-fixnum/src/num.rs:537-548 | specified by `FixNum.RemEuclidRange` and `FixNum.RemEuclidPositive`: in `0..|rhs|`, a multiple of `|rhs|` away from the number |
| `FixNum.ChangeBaseOfInteger` | agb-fixnum/src/num.rs:420-427 | an integer keeps its value across `change_base` |
| `FixNum.ChangeBase` | agb-fixnum/src/num.rs:420-427 | specified by `FixNum.ChangeBaseOfInteger`: an integer keeps its value across the change of precision |
| `FixNum.IntSqrt` | agb-fixnum/src/num.rs:628-649 | the reference integer square root: `r * r <= v < (r + 1)^2` |
| `FixNum.IntSqrtUnique` | agb-fixnum/src/num.rs:628-649 | only one natural brackets `v` that way |
| `FixNum.Sqrt` | agb-fixnum/src/num.rs:628-649 | requires even `N` and a non-negative number (the source's asserts, num.rs:927-930); the digit-by-digit loop gives `isqrt(raw) << (N / 2)` |
| `FixNum.RootDigits` | agb-fixnum/src/num.rs:635-647 | the digit loop ends with `c` the integer square root of `v` |
| `FixNum.FourIsSquare` | agb-fixnum/src/num.rs:631-637 | the `d` the loop quarters is always `(2^(k-1))^2` |
| `FixNum.NextDigit` | agb-fixnum/src/num.rs:639-647 | one digit step (`x >= c + d`) keeps the partial root within the remaining bits |
| `FixNum.SqrtOfSquare` | agb-fixnum/src/num.rs:918-923 | `sqrt(new(x * x)) == new(x)` for every even `N` |
| `FixRect.CornersInside` | agb-fixnum/src/rect.rs:42-47 | `contains_point` includes the boundary on all four sides: every corner is inside, one step beyond is not |
| `FixRect.ContainsExamples` | agb-fixnum/src/rect.rs:28-41 | the doc examples of `contains_point` hold |
| `FixRect.TouchesSymmetric` | agb-fixnum/src/rect.rs:62-67 | `touches` (strict inequalities) is symmetric, and a rectangle touches itself iff both sides are positive |
| `FixRect.SharedEdgeDoesNotTouch` | agb-fixnum/src/rect.rs:62-67 | rectangles sharing only an edge have a common point yet do not touch |
| `FixRect.OverlapIsIntersection` | agb-fixnum/src/rect.rs:87-117 | `overlapping_rect` is `None` iff the rectangles do not touch; otherwise it has a non-negative size and holds exactly the points of both |
| `FixRect.OverlapExamples` | agb-fixnum/src/rect.rs:50-86 | the doc examples of `touches` and `overlapping_rect` hold |
| `FixRect.OverlappingRect` | agb-fixnum/src/rect.rs:87-117 | specified by `FixRect.OverlapIsIntersection`: `None` exactly when the rectangles do not touch, otherwise the rectangle of their common points |
| `FixRect.ClampLandsInside` | agb-fixnum/src/rect.rs:130-139 | `clamp_point` lands inside, leaves a point already inside unchanged, and moves a coordinate only onto the nearer edge |
| `FixRect.ClampExamples` | agb-fixnum/src/rect.rs:120-129 | the doc examples of `clamp_point` hold |
| `FixRect.Clamp` | agb-fixnum/src/rect.rs:130-139 | `Ord::clamp`: the result lies between the bounds, is the value when that already does, and is otherwise one of the bounds; `lo > hi` panics (requires) |
| `FixRect.ClampPoint` | agb-fixnum/src/rect.rs:130-139 | specified by `FixRect.ClampLandsInside`: lands inside and leaves a point already inside alone |
| `FixRect.AbsCoversSameRegion` | agb-fixnum/src/rect.rs:226-235 | `abs` has a non-negative size, spans the same points, leaves a non-negative rectangle alone and is idempotent |
| `FixRect.AbsRect` | agb-fixnum/src/rect.rs:226-235 | specified by `FixRect.AbsCoversSameRegion`: a non-negative size spanning the same points |
| `FixRect.RemainingRows` | agb-fixnum/src/rect.rs:204-221 | from inside a row the closure yields the rest of the row, then each full row down to the bottom edge |
| `FixRect.PointsAreRows` | agb-fixnum/src/rect.rs:204-221 | `iter` yields the `h + 1` rows of `w + 1` points, top to bottom |
| `FixRect.RowsLayout` | agb-fixnum/src/rect.rs:204-221 | `count` rows hold `count * (w + 1)` points, the `i`-th at column `i % (w + 1)` of row `i / (w + 1)` |
| `FixRect.PointsRowMajor` | agb-fixnum/src/rect.rs:204-221 | `iter` yields `(w + 1) * (h + 1)` points in row-major order, and a point is yielded iff the rectangle contains it |
| `FixRect.IterExample` | agb-fixnum/src/rect.rs:245-261 | the rectangle at (5, 5) of size (2, 2) yields the nine points row by row |
| `FixRect.RectIter.Next` | agb-fixnum/src/rect.rs:208-220 | one call of the closure yields the head of what remains (or `None` when nothing does) and moves to the state yielding the tail |
| `FixRect.Collect` | agb-fixnum/src/rect.rs:204-221 | draining the iterator gives exactly `Points(r)` |
| `FixVector.AddSubInverse` | agb-fixnum/src/vec2.rs:29-36 | componentwise `+` and `-` are inverse, `-` is adding the negation (vec2.rs:93-100, 394-396), and `+` commutes |
| `FixVector.Add` | agb-fixnum/src/vec2.rs:31-36 | specified by `FixVector.AddSubInverse` and `FixVector.AddOfIntegerVectors`: componentwise, commutative, undone by `-` |
| `FixVector.Sub` | agb-fixnum/src/vec2.rs:95-100 | specified by `FixVector.AddSubInverse`: undoes `+` and is adding the negation |
| `FixVector.SwapInvolution` | agb-fixnum/src/vec2.rs:372-377 | `swap` is an involution and exchanges the coordinates of `get` (vec2.rs:302-304) |
| `FixVector.Vector2D.Swap` | agb-fixnum/src/vec2.rs:372-377 | specified by `FixVector.SwapInvolution`: an involution that exchanges the coordinates |
| `FixVector.SwapProducts` | agb-fixnum/src/vec2.rs:336-377 | swapping both vectors keeps `dot` and negates `cross` |
| `FixVector.ProductSymmetry` | agb-fixnum/src/vec2.rs:336-388 | `dot` is symmetric, `cross` antisymmetric, and `dot(a, a)` is the non-negative `magnitude_squared` |
| `FixVector.Dot` | agb-fixnum/src/vec2.rs:336-338 | specified by `FixVector.ProductSymmetry`, `FixVector.SwapProducts` and `FixVector.ProductExamples`: symmetric, `magnitude_squared` on the diagonal, kept by swapping |
| `FixVector.Cross` | agb-fixnum/src/vec2.rs:361-363 | specified by `FixVector.ProductSymmetry`, `FixVector.SwapProducts` and `FixVector.ProductExamples`: antisymmetric, zero on the diagonal, negated by swapping |
| `FixVector.HadamardSumsToDot` | agb-fixnum/src/vec2.rs:316-321 | the componentwise Hadamard product is symmetric and its coordinates sum to the dot product |
| `FixVector.Hadamard` | agb-fixnum/src/vec2.rs:316-321 | specified by `FixVector.HadamardSumsToDot`: symmetric, and its coordinates sum to the dot product |
| `FixVector.ManhattanOfAbs` | agb-fixnum/src/vec2.rs:125-127 | `manhattan_distance` is `|x| + |y|`: non-negative, zero only at the origin, and unchanged by negation |
| `FixVector.ManhattanDistance` | agb-fixnum/src/vec2.rs:125-127 | specified by `FixVector.ManhattanOfAbs`: non-negative, zero only at the origin, unchanged by negation |
| `FixVector.ScaleThenDivide` | agb-fixnum/src/vec2.rs:406-412 | `(a * k) / k == a` for every non-zero integer `k` |
| `FixVector.ProductExamples` | agb-fixnum/src/vec2.rs:324-363 | `dot((3,5),(7,11)) == 76`, `cross` of the same is -2, and the other doc examples |
| `FixVector.FloorBrackets` | agb-fixnum/src/vec2.rs:154-159 | each coordinate of `floor` is the largest integer not above it |
| `FixVector.TruncTowardZero` | agb-fixnum/src/vec2.rs:139-144 | each coordinate of `trunc` rounds toward zero |
| `FixVector.RoundNearest` | agb-fixnum/src/vec2.rs:169-174 | each coordinate of `round` is within half a unit |
| `FixVector.IntegerVectorRoundTrip` | agb-fixnum/src/vec2.rs:276-281 | an integer vector converted to fixed point truncates and floors back to itself |
| `FixVector.AddOfIntegerVectors` | agb-fixnum/src/vec2.rs:424-431 | adding converted vectors is converting their sum |
| `FixVector.VectorChangingExample` | agb-fixnum/src/vec2.rs:424-431 | the `(1, 2)` example at 8 fractional bits |
| `SaveBlock.Le16RoundTrip` | agb-save/src/block.rs:305-315 | reading two little-endian bytes undoes writing them, in both directions |
| `SaveBlock.Le32RoundTrip` | agb-save/src/block.rs:357-377 | reading four little-endian bytes undoes writing a 32-bit value |
| `SaveBlock.Crc16CheckValue` | agb-save/src/block.rs:53-55 | the CRC is CRC-16/ARC: the standard check input "123456789" gives 0xBB3D |
| `SaveBlock.CrcDetectsByteChange` | agb-save/src/block.rs:53-55 | from any register state, changing one byte of the input changes the register at the end |
| `SaveBlock.Crc16DetectsByteChange` | agb-save/src/block.rs:53-55 | changing any single byte of the data changes its CRC-16 |
| `SaveBlock.Crc16` | agb-save/src/block.rs:53-55 | specified by `SaveBlock.Crc16CheckValue` and `SaveBlock.Crc16DetectsByteChange`: CRC-16/ARC, which notices any one changed byte |
| `SaveBlock.WithStateChangesOnlyState` | agb-save/src/block.rs:161-170 | `with_state` sets the state and keeps every other header field and the metadata; setting the old state back restores the block |
| `SaveBlock.WithState` | agb-save/src/block.rs:162-170 | specified by `SaveBlock.WithStateChangesOnlyState`: only the state changes |
| `SaveBlock.SlotStateCodes` | agb-save/src/block.rs:383-390 | a byte is a slot state exactly when it is 0, 1 or 2, any other byte is `InvalidData`, and decoding inverts the declaration-order code |
| `SaveBlock.BlockTypeCodes` | agb-save/src/block.rs:321-333 | a slice is a block type exactly when it has two bytes encoding 0 to 3, any other is `InvalidData`, and decoding inverts the code the serialiser writes |
| `SaveBlock.GlobalHeaderNeedsMagic` | agb-save/src/block.rs:339-351 | a global header parses exactly when it has at least 6 bytes starting with the magic "agbS"; otherwise `InvalidData` |
| `SaveBlock.SerializedLayout` | agb-save/src/block.rs:255-289 | the serialised buffer carries the CRC of its bytes from 2 on, and its standard header parses to the block's kind and next-block index |
| `SaveBlock.SerializedSlices` | agb-save/src/block.rs:255-289 | bytes 0-1 hold the CRC, 2-3 the block type, 4-5 the next block (0 unless a data block), and bytes 2 on are the unsealed block |
| `SaveBlock.Serialized` | agb-save/src/block.rs:255-289 | specified by `SaveBlock.SerializedLayout`, `SaveBlock.SerializedSlices` and `SaveBlock.BodyLength`: the CRC of bytes 2 onwards, then the header and body, filling the buffer |
| `SaveBlock.BodyLength` | agb-save/src/block.rs:255-289 | the serialised block is exactly as long as the buffer it is written into, its body 8 bytes shorter |
| `SaveBlock.SlotFieldsRoundTrip` | agb-save/src/block.rs:357-377 | the 16 slot-header bytes the serialiser writes parse back to the same slot header |
| `SaveBlock.BodyRoundTrip` | agb-save/src/block.rs:226-251 | the body after the standard header parses back to the block it was written from |
| `SaveBlock.RoundTrip` | agb-save/src/block/proptest.rs:161-173 | deserialising a serialised block of any kind never panics and gives back the block; for a global block the first 32 identifier bytes are those written |
| `SaveBlock.RoundTripExamples` | agb-save/src/block/proptest.rs:175-253 | in a zeroed 128-byte buffer every free, slot-header and data block comes back unchanged |
| `SaveBlock.SealedCorruptionDetected` | agb-save/src/block/proptest.rs:257-270 | in any sealed buffer of at least 8 bytes, changing one byte after the CRC makes deserialisation fail |
| `SaveBlock.CorruptionDetected` | agb-save/src/block/proptest.rs:257-270 | changing any byte after the CRC of a serialised block makes deserialisation return an error |
| `SaveBlock.CrcCorruptionDetected` | agb-save/src/block/proptest.rs:273-282 | changing either CRC byte of a serialised block gives `CrcMismatch` |
| `SaveBlock.DeserializeBlock` | agb-save/src/block.rs:226-251 | specified by `SaveBlock.RoundTrip`, `SaveBlock.CorruptionDetected` and `SaveBlock.CrcCorruptionDetected`: gives back a serialised block and rejects any one-byte corruption; requires `!DeserializePanics` (see Left out) |
| `SaveBlock.ZeroFrom` | agb-save/src/block.rs:266 | zeroes the buffer from `start` on and leaves the bytes before it |
| `SaveBlock.WriteHeader` | agb-save/src/block.rs:257-263 | writes block type, next block and two reserved zeros into bytes 2-7, nothing else |
| `SaveBlock.WriteBody` | agb-save/src/block.rs:265-285 | writes the block's body from byte 8 on and leaves bytes 0-7 |
| `SaveBlock.HeaderThenBody` | agb-save/src/block.rs:255-285 | the header write followed by the body write leaves bytes 0-1 and the unsealed block after them |
| `SaveBlock.SerializeBlock` | agb-save/src/block.rs:255-289 | the buffer becomes exactly the sealed serialisation of the block, for which the round trip and corruption lemmas hold |
| `SaveSectorStorage.RoundUpIsLeastMultiple` | agb-save/src/sector_storage.rs:58-66 | `div_ceil(x, m) * m` is the least multiple of `m` that is at least `x` |
| `SaveSectorStorage.Lcm` | agb-save/src/sector_storage.rs:44-66 | the least common multiple of two positive sizes is positive |
| `SaveSectorStorage.LcmIsCommonMultiple` | agb-save/src/sector_storage.rs:44-66 | the least common multiple is a multiple of both sizes |
| `SaveSectorStorage.LcmOfDivisor` | agb-save/src/sector_storage.rs:44-66 | when the write size divides the erase size, their common multiple is the erase size |
| `SaveSectorStorage.SectorSizeAligned` | agb-save/src/sector_storage.rs:44-66 | the corrected sector size is at least 128, the erase size and the write size, and a multiple of both sizes |
| `SaveSectorStorage.SectorSize` | agb-save/src/sector_storage.rs:44-66 | specified by `SaveSectorStorage.SectorSizeAligned` and `SaveSectorStorage.SectorSizeAgreesWhenWriteDividesErase`: the corrected size (see Findings), at least 128 and a multiple of both sizes |
| `SaveSectorStorage.SectorSizeAsWrittenAligned` | agb-save/src/sector_storage.rs:44-66 | the code as written gives at least 128 and the write size, a multiple of the erase size, and of the write size only when there is no erase |
| `SaveSectorStorage.SectorSizeAgreesWhenWriteDividesErase` | agb-save/src/sector_storage.rs:44-66 | when the write size divides the erase size, or there is no erase, the code as written and the corrected size agree |
| `SaveSectorStorage.SectorSizeAsWrittenMisaligned` | agb-save/src/sector_storage.rs:58-66 | write size 3 and erase size 5: the code as written picks 130, not a multiple of 3; the corrected size is 135 |
| `SaveSectorStorage.SramSectorSize` | agb-save/src/sector_storage.rs:147-155 | 1024 bytes of SRAM give sectors of 128 bytes |
| `SaveSectorStorage.FlashSectorSize` | agb-save/src/sector_storage.rs:158-177 | erase blocks of 64 or 128 bytes give 128-byte sectors, erase blocks of 512 give 512-byte sectors |
| `SaveSectorStorage.SectorFits` | agb-save/src/sector_storage.rs:83-108 | every sector below `size / sector_size` lies inside the medium |
| `SaveSectorStorage.SectorOffsetAligned` | agb-save/src/sector_storage.rs:115-136 | a sector's offset is aligned to the write and erase sizes whenever the sector size is |
| `SaveSectorStorage.SectorStorage.constructor` | agb-save/src/sector_storage.rs:44-75 | stores the medium, the sector size and `size / sector_size` sectors |
| `SaveSectorStorage.SectorStorage.ReadSector` | agb-save/src/sector_storage.rs:92-108 | an index past the last sector or a wrong buffer length panics (requires); otherwise the buffer holds exactly that sector's bytes |
| `SaveSectorStorage.SectorStorage.WriteSector` | agb-save/src/sector_storage.rs:115-136 | erases and then writes the sector; it fails only through the simulated failure, and success counts exactly one write |
| `SaveSectorStorage.WrittenSectorReadsBack` | agb-save/src/sector_storage.rs:115-136 | after a successful erase-then-write the sector holds the data and every other byte is unchanged |
| `SaveSectorStorage.FailedSectorStaysErased` | agb-save/src/sector_storage.rs:129-135 | when only the write fails, the sector holds 0xFF bytes and passes the erase check, so it can be rewritten |
| `SaveSectorStorage.EraseThenWrite` | agb-save/src/sector_storage.rs:129-135 | erase then write on an aligned range: the error cases and the new bytes, as in `WriteSector` |
| `SaveSectorStorage.EraseCoversWrite` | agb-save/src/sector_storage.rs:129-135 | erasing an aligned range marks every erase block that the following write of the same range checks |
| `SaveSectorStorage.SectorSizeTestsExample` | agb-save/src/sector_storage.rs:147-177 | the three sector-size tests: (128, 8), (128, 8) and (512, 8) |
| `SaveSectorStorage.ReadWriteSectorExample` | agb-save/src/sector_storage.rs:180-199 | a sector written on SRAM reads back the same bytes |
| `SaveSectorStorage.WriteSectorErasesFirstExample` | agb-save/src/sector_storage.rs:202-220 | two writes to one flash sector both succeed, and the second is read back |
| `SaveTestStorage.Blank` | agb-save/src/test_storage.rs:38-56 | `n` erased bytes: exactly `n` of them |
| `SaveTestStorage.DivCeilIsLeast` | agb-save/src/test_storage.rs:47-50 | `div_ceil(a, b)` is the least `q` with `q * b >= a`, and is `a / b` for aligned `a` |
| `SaveTestStorage.Mark` | agb-save/src/test_storage.rs:204-212 | marking blocks keeps the number of erase flags |
| `SaveTestStorage.MarkedErasedPasses` | agb-save/src/test_storage.rs:163-176 | blocks just marked erased pass the erase check for any range inside the marked one |
| `SaveTestStorage.WrittenBlocksNotErased` | agb-save/src/test_storage.rs:217-245 | after a write to a non-empty range of blocks, that range fails the erase check |
| `SaveTestStorage.MarkKeepsOthers` | agb-save/src/test_storage.rs:204-212 | blocks outside the marked range keep their flags |
| `SaveTestStorage.MarkTwice` | agb-save/src/test_storage.rs:204-212 | marking a range twice: the second mark alone decides its flags |
| `SaveTestStorage.TestStorage.constructor` | agb-save/src/test_storage.rs:38-56 | all bytes 0xFF, every erase block marked erased, no writes and no failure limit |
| `SaveTestStorage.TestStorage.NewSram` | agb-save/src/test_storage.rs:61-68 | SRAM: write size 1 and no erase |
| `SaveTestStorage.TestStorage.NewFlash` | agb-save/src/test_storage.rs:73-80 | flash: an erase size of 0 means no erase, and every erase block starts erased |
| `SaveTestStorage.TestStorage.ResetEraseState` | agb-save/src/test_storage.rs:85-89 | every erase block is marked not erased, and nothing else changes |
| `SaveTestStorage.TestStorage.FailAfterWrites` | agb-save/src/test_storage.rs:105-108 | sets the write limit and restarts the write count, and nothing else changes |
| `SaveTestStorage.TestStorage.IsBlockErased` | agb-save/src/test_storage.rs:126-128 | a tracked block reports its flag, and a block past the tracked ones counts as erased |
| `SaveTestStorage.TestStorage.Read` | agb-save/src/test_storage.rs:156-190 | `OutOfBounds` exactly when the range passes the end, with the buffer untouched; otherwise the buffer holds the stored bytes |
| `SaveTestStorage.TestStorage.Erase` | agb-save/src/test_storage.rs:192-215 | a no-op without erase; `OutOfBounds` past the end; otherwise the range becomes 0xFF and its erase blocks are marked erased |
| `SaveTestStorage.TestStorage.CheckErased` | agb-save/src/test_storage.rs:163-176 | succeeds exactly when every erase block the range touches is marked erased; otherwise `NotErased` |
| `SaveTestStorage.TestStorage.MarkBlocks` | agb-save/src/test_storage.rs:204-242 | sets the flag of every existing block in the range and leaves the rest |
| `SaveTestStorage.TestStorage.Write` | agb-save/src/test_storage.rs:217-245 | in order: simulated failure, `OutOfBounds`, `NotErased`; otherwise the bytes are written, their blocks are marked not erased and the write is counted |
| `SaveTestStorage.SramReadWriteExample` | agb-save/src/test_storage.rs:253-267 | two SRAM writes read back at their offsets |
| `SaveTestStorage.SramOutOfBoundsExample` | agb-save/src/test_storage.rs:270-284 | a write ending at the end succeeds, and one byte further is `OutOfBounds` for writing and reading |
| `SaveTestStorage.FlashRequiresEraseExample` | agb-save/src/test_storage.rs:287-303 | after a reset a write is `NotErased`; after erasing it succeeds and reads back |
| `SaveTestStorage.SimulatedFailureExample` | agb-save/src/test_storage.rs:372-393 | with a limit of two the third write fails uncounted, and lifting the limit lets it through |
| `ExecutorChannel.ModPowerOf2IsMod` | agb/src/executor/channel.rs:28-30 | for a power-of-two modulus, masking with `right - 1` is the remainder |
| `ExecutorChannel.SlotsDistinct` | agb/src/executor/channel.rs:81-84 | queued values sit in distinct slots of the ring |
| `ExecutorChannel.RingPop` | agb/src/executor/channel.rs:41-51 | taking the value at the head leaves the rest of the queue held from the next slot on |
| `ExecutorChannel.RingPush` | agb/src/executor/channel.rs:81-84 | writing the slot just past the queue extends the queue by that value |
| `ExecutorChannel.Inner.constructor` | agb/src/executor/channel.rs:104-127 | a power-of-two capacity (otherwise it panics); every slot empty, no queued value |
| `ExecutorChannel.Inner.IsEmpty` | agb/src/executor/channel.rs:33-35 | true exactly when nothing is queued |
| `ExecutorChannel.Inner.IsFull` | agb/src/executor/channel.rs:37-39 | true exactly when the queue fills every slot |
| `ExecutorChannel.Inner.Read` | agb/src/executor/channel.rs:41-51 | `None` on an empty queue; otherwise the oldest value, which leaves the queue |
| `ExecutorChannel.Inner.ReadImmediate` | agb/src/executor/channel.rs:53-69 | the oldest value if any; when empty, `Closed` if this is the last live end, else no value yet |
| `ExecutorChannel.Inner.WriteAssumeNotFull` | agb/src/executor/channel.rs:81-84 | the value joins the queue last, in the slot `length` places after the head |
| `ExecutorChannel.Inner.Write` | agb/src/executor/channel.rs:71-79 | `Full` changes nothing; otherwise the value joins the queue last |
| `ExecutorChannel.Inner.GetReaderWriter` | agb/src/executor/channel.rs:135-140 | two more live ends, and the queue is unchanged |
| `ExecutorChannel.Inner.DropEnd` | agb/src/executor/channel.rs:150-156 | one live end fewer, and the queue is unchanged |
| `ExecutorChannel.Inner.PollWrite` | agb/src/executor/channel.rs:182-206 | `Closed` once the reader is gone, pending while full, otherwise the value is queued |
| `ExecutorChannel.Inner.PollRead` | agb/src/executor/channel.rs:215-233 | the oldest value; when empty, `Closed` once the writer is gone, otherwise pending |
| `ExecutorChannel.Inner.Drop` | agb/src/executor/channel.rs:87-93 | dropping the channel drops exactly the queued values, oldest first, with the slot wrapped modulo the capacity |
| `ExecutorChannel.DropSlotsAsWritten` | agb/src/executor/channel.rs:87-93 | the drop as written visits one slot per queued value |
| `ExecutorChannel.DropSlotsAsWrittenInBounds` | agb/src/executor/channel.rs:87-93 | those slots all exist exactly when the queue does not wrap past the end of the backing array |
| `ExecutorChannel.DropAfterWrapExample` | agb/src/executor/channel.rs:87-93 | capacity 2, then write, read, write, write: the drop as written touches slot 2, past the end |
| `ExecutorChannel.RingExample` | agb/src/executor/channel.rs:41-84 | capacity 2 fills, refuses a third value as `Full`, and returns the values in order across the wrap |
| `SpritePaletteAllocator.Claimed` | agb/src/display/object/sprites/sprite_allocator/palette.rs:47-114 | a slot is claimed exactly when its bit is set in the mask |
| `SpritePaletteAllocator.ClaimMaskClaims` | agb/src/display/object/sprites/sprite_allocator/palette.rs:54-81 | the claim of a multi palette takes exactly the slots `first .. first + len` |
| `SpritePaletteAllocator.SetBitClaims` | agb/src/display/object/sprites/sprite_allocator/palette.rs:83-100 | setting the bit of slot `i` claims exactly that slot more |
| `SpritePaletteAllocator.ClearBitReleases` | agb/src/display/object/sprites/sprite_allocator/palette.rs:102-108 | clearing the bit of slot `i` releases exactly that slot |
| `SpritePaletteAllocator.ClaimThenFree` | agb/src/display/object/sprites/sprite_allocator/palette.rs:54-114 | claiming slots that are all free and then freeing the claim gives back the old allocation |
| `SpritePaletteAllocator.PaletteAllocator.constructor` | agb/src/display/object/sprites/sprite_allocator/palette.rs:47-51 | nothing is taken |
| `SpritePaletteAllocator.PaletteAllocator.AllocateSingle` | agb/src/display/object/sprites/sprite_allocator/palette.rs:83-100 | `None` with no change exactly when all sixteen slots are taken; otherwise the lowest free slot, which becomes taken |
| `SpritePaletteAllocator.PaletteAllocator.AllocateMultiple` | agb/src/display/object/sprites/sprite_allocator/palette.rs:54-81 | `None` with no change exactly when a slot in `first .. first + len` is taken; otherwise that range is claimed |
| `SpritePaletteAllocator.PaletteAllocator.DeallocateSingle` | agb/src/display/object/sprites/sprite_allocator/palette.rs:102-108 | an index of 16 or more panics; otherwise exactly that slot is released |
| `SpritePaletteAllocator.PaletteAllocator.DeallocateMulti` | agb/src/display/object/sprites/sprite_allocator/palette.rs:110-114 | clears exactly the bits of the claim |
| `SpritePaletteAllocator.AllocatorExample` | agb/src/display/object/sprites/sprite_allocator/palette.rs:54-114 | singles take slots 0 and 1; a multi at slot 1 is refused and one at slot 2 granted; freeing slot 0 makes it next again |
| `SpriteTag.Code` | agb/src/display/object/sprites/sprite.rs:105-121 | the discriminant of every size is one of the twelve codes below 12 |
| `SpriteTag.SizeRoundTrip` | agb/src/display/object/sprites/sprite.rs:401-436 | every size's pixel dimensions are accepted by `from_width_height` and name the same size |
| `SpriteTag.WidthHeightRoundTrip` | agb/src/display/object/sprites/sprite.rs:401-436 | every accepted width and height comes back out of the size it names |
| `SpriteTag.ToWidthHeight` | agb/src/display/object/sprites/sprite.rs:421-436 | specified by `SpriteTag.SizeRoundTrip` and `SpriteTag.WidthHeightRoundTrip`: inverse to `from_width_height` |
| `SpriteTag.FromWidthHeight` | agb/src/display/object/sprites/sprite.rs:401-417 | specified by `SpriteTag.SizeRoundTrip` and `SpriteTag.WidthHeightRoundTrip`; a size that names no sprite panics (requires) |
| `SpriteTag.NumberOfTilesIsArea` | agb/src/display/object/sprites/sprite.rs:367-382 | the tile-count table is the pixel area over 64 and the product of the tile dimensions |
| `SpriteTag.ShapeSizeIdentifies` | agb/src/display/object/sprites/sprite.rs:383-385 | the shape is square, wide or tall as the dimensions say, and shape and size together name the size uniquely |
| `SpriteTag.LayoutSizeIsPixels` | agb/src/display/object/sprites/sprite.rs:387-393 | the layout holds half a byte per pixel, or a whole byte for a 256-colour sprite |
| `SpriteTag.DirectionFromUsize` | agb/src/display/object/sprites/sprite.rs:244-251 | 0, 1 and 2 are forward, backward and ping-pong; anything else panics (requires) |
| `SpriteTag.AnimationSprite` | agb/src/display/object/sprites/sprite.rs:327-337 | the frame shown is always one of the tag's frames |
| `SpriteTag.PingPongShape` | agb/src/display/object/sprites/sprite.rs:327-337 | the ping-pong frame rises from 0 to `len - 1`, falls back, and repeats every `2 * (len - 1)` steps |
| `SpriteTag.Period` | agb/src/display/object/sprites/sprite.rs:267-299 | the iterator cycles through at least one counter value |
| `SpriteTag.CounterAt` | agb/src/display/object/sprites/sprite.rs:267-299 | the iterator's counter stays within its period |
| `SpriteTag.FrameOfCounter` | agb/src/display/object/sprites/sprite.rs:267-299 | the frame the iterator yields is one of the tag's frames |
| `SpriteTag.IteratorMatchesAnimationSprite` | agb/src/display/object/sprites/sprite.rs:267-337 | after any number of steps the iterator yields the frame `animation_sprite` gives for that step |
| `SpriteTag.CounterStep` | agb/src/display/object/sprites/sprite.rs:267-299 | one call to `next` moves the counter from the value for `step` to the value for `step + 1` |
| `SpriteTag.AnimationIterator.Iter` | agb/src/display/object/sprites/sprite.rs:344-352 | forward and ping-pong start at frame 0, backward at the last frame |
| `SpriteTag.AnimationIterator.Starting` | agb/src/display/object/sprites/sprite.rs:478-541 | an iterator built with a starting counter is the `iter` iterator advanced to that counter |
| `SpriteTag.AnimationIterator.Next` | agb/src/display/object/sprites/sprite.rs:267-299 | yields the frame `animation_sprite` gives for the current step, and advances by one step |
| `SpriteTag.ForwardExample` | agb/src/display/object/sprites/sprite.rs:478-495 | three frames forward: 0, 1, 2, 0, 1, 2, 0 |
| `SpriteTag.BackwardExample` | agb/src/display/object/sprites/sprite.rs:498-515 | three frames backward from counter 0: 0, 2, 1, 0, 2, 1, 0 |
| `SpriteTag.PingPongExample` | agb/src/display/object/sprites/sprite.rs:518-541 | three frames ping-pong: 0, 1, 2, 1, 0, 1, 2, 1, 0 |
| `FontSpecial.RangeStart` | agb/src/display/font/special.rs:23-135 | each kind's range of 16 code points lies inside the reserved block U+E000 to U+E030 |
| `FontSpecial.New` | agb/src/display/font/special.rs:31-36 | an index of 16 or more panics; otherwise the value holds the kind and the index |
| `FontSpecial.ToChar` | agb/src/display/font/special.rs:49-51 | the character lies in the kind's range and in the reserved block |
| `FontSpecial.TryFromChar` | agb/src/display/font/special.rs:38-45 | `Some` exactly for the characters of the kind's range, with an index below 16 |
| `FontSpecial.TryFromToChar` | agb/src/display/font/special.rs:38-51 | decoding an encoded value gives it back |
| `FontSpecial.ToCharTryFrom` | agb/src/display/font/special.rs:38-51 | a character that decodes is the encoding of what it decodes to |
| `FontSpecial.RangesDisjoint` | agb/src/display/font/special.rs:23-135 | a character decodes as at most one kind |
| `FontSpecial.RangesCoverBlock` | agb/src/display/font/special.rs:8-9 | a character is in the reserved block exactly when it decodes as some kind |
| `FontSpecial.SpecialExamples` | agb/src/display/font/special.rs:31-135 | colour 2, tag 0 and untag 15 are U+E002, U+E010 and U+E02F, and `'a'` decodes as nothing |
| `GwilymEncoding.AlphabetIndexOfChar` | agb-debug/src/gwilym_encoding.rs:5 | every alphabet character is found at its own position, so the alphabet has no repeats |
| `GwilymEncoding.ValueForChar` | agb-debug/src/gwilym_encoding.rs:75-86 | a byte of 128 or more panics; otherwise the value is an alphabet position below 64 |
| `GwilymEncoding.TableComplete` | agb-debug/src/gwilym_encoding.rs:78-84 | once the whole alphabet is entered, every table entry is the character's alphabet position, or 0 |
| `GwilymEncoding.BuildReverseAlphabet` | agb-debug/src/gwilym_encoding.rs:76-85 | builds a 128-entry table whose entries are `get_value_for_char`'s values |
| `GwilymEncoding.StripPrefix` | agb-debug/src/gwilym_encoding.rs:26-28 | the link prefix is removed when present, and the text is kept otherwise |
| `GwilymEncoding.LastIndexOf` | agb-debug/src/gwilym_encoding.rs:30-32 | the last occurrence of the byte, or `None` when it does not occur |
| `GwilymEncoding.Parse` | agb-debug/src/gwilym_encoding.rs:26-46 | an accepted body has a length that is a multiple of 3 |
| `GwilymEncoding.ParseErrors` | agb-debug/src/gwilym_encoding.rs:26-46 | no `v` is an error, a version other than `1` is an error, and a body whose length is not a multiple of 3 is an error |
| `GwilymEncoding.StripsCrashPrefix` | agb-debug/src/gwilym_encoding.rs:26-28 | the crash-link prefix is stripped |
| `GwilymEncoding.NextValue` | agb-debug/src/gwilym_encoding.rs:52-64 | `None` exactly when the chunks are used up; otherwise whole chunks are consumed |
| `GwilymEncoding.NextValueFull` | agb-debug/src/gwilym_encoding.rs:55-62 | with bit 16 set, the value's low half is shifted up and joined with the low half of the next value |
| `GwilymEncoding.NextValueRom` | agb-debug/src/gwilym_encoding.rs:55-64 | with bit 16 clear, the value is a ROM address 0x0800_xxxx |
| `GwilymEncoding.GwilymDecodeIter.Next` | agb-debug/src/gwilym_encoding.rs:52-64 | one `next`: the value and the remaining chunks as `NextValue` gives them |
| `GwilymEncoding.GwilymDecodeIter.Collect` | agb-debug/src/gwilym_encoding.rs:52-64 | collects every value in order and uses up the chunks |
| `GwilymEncoding.GwilymDecode` | agb-debug/src/gwilym_encoding.rs:17-19 | the parse errors, or an iterator over the parsed body |
| `GwilymEncoding.DecodeEncode16` | agb-debug/src/gwilym_encoding.rs:103-110 | a chunk written by `encode_16` decodes to the 16 bits it was made from |
| `GwilymEncoding.DecodeEncodeUpper` | agb-debug/src/gwilym_encoding.rs:112-124 | the first chunk of `encode_32` decodes to the upper half with bit 16 set |
| `GwilymEncoding.NextOfLong` | agb-debug/src/gwilym_encoding.rs:112-124 | an address written by `encode_32` is read back whole, whatever follows it |
| `GwilymEncoding.NextOfAddress` | agb-debug/src/gwilym_encoding.rs:127-155 | an address written by the test encoder is read back, whatever follows it |
| `GwilymEncoding.DecodeEncodeBody` | agb-debug/src/gwilym_encoding.rs:127-155 | decoding an encoded trace gives back the whole trace |
| `GwilymEncoding.RoundTrip` | agb-debug/src/gwilym_encoding.rs:127-155 | for every trace, the encoded body followed by `v1` parses and decodes to the trace |
| `GwilymEncoding.ParseLink` | agb-debug/src/gwilym_encoding.rs:158-165 | a crash link and its text after the prefix parse alike |
| `GwilymEncoding.DecodeExampleChunks` | agb-debug/src/gwilym_encoding.rs:94-101 | the four chunks of `2QI65Q69306Kv1` decode to the low halves of the test's four ROM addresses |
| `Input.TriValue` | agb/src/input.rs:24-31 | a `Tri` is -1, 0 or 1 |
| `Input.TriFrom` | agb/src/input.rs:34-38 | the second flag minus the first |
| `Input.TriFromAntisymmetric` | agb/src/input.rs:34-38 | swapping the flags negates the result, and both flags give `Zero` |
| `Input.AnyPressedUnion` | agb/src/input.rs:190-194 | a set of buttons is pressed when any one of its parts is |
| `Input.ButtonController.constructor` | agb/src/input.rs:108-114 | both frames are the inverted register |
| `Input.ButtonController.Update` | agb/src/input.rs:119-122 | the current frame becomes the previous one, and the inverted register the current one |
| `Input.ButtonController.XTri` | agb/src/input.rs:127-132 | right pressed minus left pressed |
| `Input.ButtonController.YTri` | agb/src/input.rs:137-142 | down pressed minus up pressed |
| `Input.ButtonController.JustPressedXTri` | agb/src/input.rs:157-162 | right just pressed minus left just pressed |
| `Input.ButtonController.JustPressedYTri` | agb/src/input.rs:168-173 | down just pressed minus up just pressed |
| `Input.ButtonController.Vector` | agb/src/input.rs:146-151 | each component is in -1..1, and is zero exactly when both or neither of its buttons are pressed |
| `Input.ButtonController.JustPressedVector` | agb/src/input.rs:177-186 | the same for buttons just pressed |
| `Input.QueriesAgree` | agb/src/input.rs:190-238 | released is not pressed; just pressed implies pressed and just released implies released; never both |
| `Input.UpdateEdges` | agb/src/input.rs:119-238 | after an update, a button is just pressed exactly when it is held now and was not before, and just released in the mirror case |
| `Input.HoldExample` | agb/src/input.rs:119-228 | holding A: just pressed after the first update, held but not just pressed after the second, just released after letting go |
| `SoundMixer.Stop` | agb/src/sound/mixer/mod.rs:427-429 | a stopped sound is done, and its sound and priority are kept |
| `SoundMixer.Mod3Estimate` | agb/src/sound/mixer/sw_mixer.rs:362-371 | the estimate is always below 3 |
| `SoundMixer.Mod3EstimateExact` | agb/src/sound/mixer/sw_mixer.rs:362-371 | on the inputs 0 to 3, the only ones it is promised for, it is the remainder by 3 |
| `SoundMixer.Mod3EstimateOnlyAnEstimate` | agb/src/sound/mixer/sw_mixer.rs:362-371 | beyond 3 it is not the remainder: 4 gives 0 |
| `SoundMixer.MixerBufferState.constructor` | agb/src/sound/mixer/sw_mixer.rs:390-401 | both indices start at buffer 0 |
| `SoundMixer.MixerBufferState.PlayingAdvanced` | agb/src/sound/mixer/sw_mixer.rs:378-381 | the playing index moves on by one modulo 3 and is returned; the active index is kept |
| `SoundMixer.MixerBufferState.ActiveAdvanced` | agb/src/sound/mixer/sw_mixer.rs:383-386 | the active index moves on by one modulo 3 and is returned; the playing index is kept |
| `SoundMixer.ShouldCalculateMeaning` | agb/src/sound/mixer/sw_mixer.rs:374-376 | `should_calculate` holds exactly when the buffer after the active one is not the one playing |
| `SoundMixer.MixerBufferState.Frame` | agb/src/sound/mixer/sw_mixer.rs:213-220 | mixes only when `should_calculate` holds, into the next buffer, which is never the one playing, for a frame no timer interrupt splits |
| `SoundMixer.FirstFree` | agb/src/sound/mixer/sw_mixer.rs:249-277 | the first slot that is empty or holds a finished sound, or `None` when there is none |
| `SoundMixer.FirstReplaceable` | agb/src/sound/mixer/sw_mixer.rs:249-277 | the first slot holding a low-priority sound, or `None` when there is none |
| `SoundMixer.ChosenSlot` | agb/src/sound/mixer/sw_mixer.rs:249-277 | the chosen slot is a slot of the mixer |
| `SoundMixer.ChosenSlotCases` | agb/src/sound/mixer/sw_mixer.rs:249-277 | a free slot is taken first; a low-priority sound with no free slot gets none; a high-priority one takes the first low-priority slot |
| `SoundMixer.ChosenSlotSparesHigh` | agb/src/sound/mixer/sw_mixer.rs:249-277 | a high-priority sound that is still playing is never displaced |
| `SoundMixer.Mixer.constructor` | agb/src/sound/mixer/sw_mixer.rs:107-115 | every slot empty and every generation 0 |
| `SoundMixer.Mixer.Channel` | agb/src/sound/mixer/sw_mixer.rs:301-309 | a sound is found exactly when the slot holds one, its generation matches the id, and it has not finished |
| `SoundMixer.Mixer.PlaySound` | agb/src/sound/mixer/sw_mixer.rs:249-277 | the sound goes into the chosen slot and that slot's generation goes up by one; with no slot, nothing changes and there is no id |
| `SoundMixer.PlayThenLookup` | agb/src/sound/mixer/sw_mixer.rs:249-309 | the returned id finds its sound unless the sound had already finished, and an older id for that slot finds nothing |
| `RegularBackground.Width` | agb/src/display/tiled/regular_background.rs:44-51 | a width is 32 or 64 tiles |
| `RegularBackground.Height` | agb/src/display/tiled/regular_background.rs:53-60 | a height is 32 or 64 tiles |
| `RegularBackground.SizesTable` | agb/src/display/tiled/regular_background.rs:44-73 | the four sizes are exactly the four combinations of 32 and 64, and `num_tiles` is the area, from 1024 to 4096 |
| `RegularBackground.NumTiles` | agb/src/display/tiled/regular_background.rs:71-73 | specified by `RegularBackground.SizesTable`: the area, from 1024 to 4096 |
| `RegularBackground.Wrap` | agb/src/display/tiled/regular_background.rs:75-84 | masking with `width - 1` is the Euclidean remainder, negative positions included |
| `RegularBackground.StaggeredBound` | agb/src/display/tiled/regular_background.rs:75-84 | inside a map the staggered offset stays below the tile count |
| `RegularBackground.GbaOffsetBound` | agb/src/display/tiled/regular_background.rs:75-84 | every position, negative ones included, lands inside the map |
| `RegularBackground.GbaOffsetPeriodic` | agb/src/display/tiled/regular_background.rs:75-84 | moving by a whole map width or height lands on the same tile |
| `RegularBackground.StaggeredParts` | agb/src/display/tiled/regular_background.rs:75-84 | the offset splits into the screen block `x / 32 + (y / 32) * (width / 32)` and the row-major place inside it |
| `RegularBackground.StaggeredInjective` | agb/src/display/tiled/regular_background.rs:75-84 | within one map, two positions share an offset only when they are the same position |
| `RegularBackground.GbaOffsetInjective` | agb/src/display/tiled/regular_background.rs:75-84 | `gba_offset` numbers the tiles of one map period without repetition |
| `RegularBackground.GbaOffset` | agb/src/display/tiled/regular_background.rs:75-84 | specified by `RegularBackground.GbaOffsetBound`, `RegularBackground.GbaOffsetPeriodic` and `RegularBackground.GbaOffsetInjective` |
| `TiledModes.AffineWidth` | agb/src/display/tiled/mod.rs:110-122 | an affine side is a power of two, 16 to 128 |
| `TiledModes.RegularNumScreenBlocks` | agb/src/display/tiled/mod.rs:90-92 | one screen block per 1024 tiles, 1 to 4 of them |
| `TiledModes.AffineNumScreenBlocks` | agb/src/display/tiled/mod.rs:130-133 | one screen block per 2048 tiles, and at least one |
| `TiledModes.AffineScreenBlocks` | agb/src/display/tiled/mod.rs:130-133 | the affine sizes take 1, 1, 2 and 8 screen blocks, and the two smaller ones use only part of theirs |
| `TiledModes.Mask` | agb/src/display/tiled/mod.rs:59-64 | masking with `n - 1` for a power of two `n` is the remainder |
| `TiledModes.TilePosRemEuclid` | agb/src/display/tiled/mod.rs:59-64 | `tile_pos_x` and `tile_pos_y` are the Euclidean remainders by the width and the height, negative positions included |
| `TiledModes.TilePosX` | agb/src/display/tiled/mod.rs:59-61 | specified by `TiledModes.TilePosRemEuclid` and `TiledModes.TilePosXTest`: the Euclidean remainder by the width |
| `TiledModes.TilePosXTest` | agb/src/display/tiled/mod.rs:351-371 | the test's five cases of `tile_pos_x` hold for every regular size |
| `TiledModes.RegularGbaOffsetAgrees` | agb/src/display/tiled/mod.rs:96-105 | the `u16` offset agrees with the `i32` one and stays below the tile count |
| `TiledModes.RegularGbaOffset` | agb/src/display/tiled/mod.rs:96-105 | specified by `TiledModes.RegularGbaOffsetAgrees` |
| `TiledModes.AffineGbaOffsetRowMajor` | agb/src/display/tiled/mod.rs:136-143 | the affine offset is row-major on the wrapped position and stays inside the map |
| `TiledModes.AffineGbaOffset` | agb/src/display/tiled/mod.rs:136-143 | specified by `TiledModes.AffineGbaOffsetRowMajor` |
| `TiledModes.NewSettingFields` | agb/src/display/tiled/mod.rs:167-174 | `new` puts the index, the flip flags and the low four bits of the palette where the getters read them |
| `TiledModes.IndexSettingSplit` | agb/src/display/tiled/mod.rs:196-202 | `index` and `setting` are disjoint and together make the whole word |
| `TiledModes.FlipsInvolutive` | agb/src/display/tiled/mod.rs:182-189 | either flip applied twice undoes itself |
| `TiledModes.HFlipToggles` | agb/src/display/tiled/mod.rs:182-184 | `hflip` toggles the horizontal flag when asked and leaves the other fields |
| `TiledModes.HFlip` | agb/src/display/tiled/mod.rs:182-184 | specified by `TiledModes.HFlipToggles` and `TiledModes.FlipsInvolutive` |
| `TiledModes.VFlipToggles` | agb/src/display/tiled/mod.rs:187-189 | `vflip` toggles the vertical flag when asked and leaves the other fields |
| `TiledModes.VFlip` | agb/src/display/tiled/mod.rs:187-189 | specified by `TiledModes.VFlipToggles` and `TiledModes.FlipsInvolutive` |
| `TiledModes.PaletteAsWrittenMixes` | agb/src/display/tiled/mod.rs:192-194 | the palette setter as written mixes palettes: palette 1 then palette 2 gives palette 3 |
| `TiledModes.PaletteAsWritten` | agb/src/display/tiled/mod.rs:192-194 | the setter as written, specified by `TiledModes.PaletteAsWrittenMixes` (see Findings) |
| `TiledModes.PaletteReplaces` | agb/src/display/tiled/mod.rs:192-194 | the corrected setter installs the requested palette and keeps the other twelve bits |
| `TiledModes.Palette` | agb/src/display/tiled/mod.rs:192-194 | the corrected setter, specified by `TiledModes.PaletteReplaces` (see Findings) |
| `TiledModes.FindScreenblockGapAsWritten` | agb/src/display/tiled/mod.rs:205-224 | as written: the first start below `16 - gap` with `gap` free blocks, and none before it is free |
| `TiledModes.FirstGap` | agb/src/display/tiled/mod.rs:205-224 | the shared search returns the first start below the limit that has a free run |
| `TiledModes.GapAsWrittenMissesLastBlock` | agb/src/display/tiled/mod.rs:205-224 | when only block 15 is free and one block is wanted, the search as written finds nothing and panics |
| `TiledModes.FindScreenblockGap` | agb/src/display/tiled/mod.rs:205-224 | corrected: the first start whose `gap` blocks are free and end by block 16 |
| `TiledModes.FindScreenblockGapComplete` | agb/src/display/tiled/mod.rs:205-224 | whenever a free run fits within the 16 blocks, the corrected search succeeds |
| `Tiled.EffectNewFields` | agb/src/display/tiled.rs:236-238 | `new` sets exactly the requested flags and the low four bits of the palette, with the index bits clear |
| `Tiled.HFlipToggles` | agb/src/display/tiled.rs:246-249 | horizontal flipping toggles bit 10 when asked and leaves every other bit alone |
| `Tiled.EffectHFlip` | agb/src/display/tiled.rs:246-249 | specified by `Tiled.HFlipToggles` and `Tiled.FlipsInvolutive` |
| `Tiled.VFlipToggles` | agb/src/display/tiled.rs:257-260 | vertical flipping toggles bit 11 when asked and leaves every other bit alone |
| `Tiled.EffectVFlip` | agb/src/display/tiled.rs:257-260 | specified by `Tiled.VFlipToggles` and `Tiled.FlipsInvolutive` |
| `Tiled.FlipsInvolutive` | agb/src/display/tiled.rs:246-260 | either flip asked twice gives back the effect |
| `Tiled.PaletteReplacesTopBits` | agb/src/display/tiled.rs:263-267 | setting the palette replaces the top four bits only, so the last palette set wins |
| `Tiled.EffectPalette` | agb/src/display/tiled.rs:263-267 | specified by `Tiled.PaletteReplacesTopBits` and `Tiled.EffectKeepsIndexBitsClear` |
| `Tiled.EffectKeepsIndexBitsClear` | agb/src/display/tiled.rs:236-267 | the setters keep the tile-index bits of an effect clear |
| `Tiled.TileEffect.constructor` | agb/src/display/tiled.rs:236-238 | the effect bits of `new` |
| `Tiled.TileEffect.HFlip` | agb/src/display/tiled.rs:246-249 | toggles bit 10 in place when asked |
| `Tiled.TileEffect.VFlip` | agb/src/display/tiled.rs:257-260 | toggles bit 11 in place when asked |
| `Tiled.TileEffect.Palette` | agb/src/display/tiled.rs:263-267 | clears the top nibble in place and or-s in the new palette |
| `Tiled.HFlipTwice` | agb/src/display/tiled.rs:246-249 | two horizontal flips in place leave the effect as it was |
| `Tiled.TileSetting.HFlip` | agb/src/display/tiled.rs:191-194 | keeps the tile id and flips the effect horizontally |
| `Tiled.TileSetting.VFlip` | agb/src/display/tiled.rs:201-204 | keeps the tile id and flips the effect vertically |
| `Tiled.TileSetting.Palette` | agb/src/display/tiled.rs:210-213 | keeps the tile id and sets the effect's palette |
| `Tiled.BlankIsPlain` | agb/src/display/tiled.rs:166-167 | the blank setting has no effect bits and the transparent tile id |
| `Tiled.TileFields` | agb/src/display/tiled.rs:275-281 | the low ten bits of a tile are its index and the top six its effect |
| `Tiled.TileIndexRoundTrip` | agb/src/display/tiled.rs:275-281 | a tile made from a 10-bit index gives that index back in any format and keeps the effect in its top bits |
| `Tiled.NewTile` | agb/src/display/tiled.rs:275-277 | specified by `Tiled.TileIndexRoundTrip`: the index comes back out and the effect keeps the top bits |
| `Tiled.BackgroundFrame.constructor` | agb/src/display/tiled.rs:337-345 | a frame starts with no background |
| `Tiled.BackgroundFrame.NextRegularIndex` | agb/src/display/tiled.rs:366-377 | the next regular number, counted from 0; running out of room panics (requires) |
| `Tiled.BackgroundFrame.NextAffineIndex` | agb/src/display/tiled.rs:386-398 | the next affine number, counted from 2; running out of room panics (requires) |
| `Tiled.BackgroundFrame.SetNextRegular` | agb/src/display/tiled.rs:359-364 | the data goes into the slot of the new regular number, which is returned |
| `Tiled.BackgroundFrame.SetNextAffine` | agb/src/display/tiled.rs:379-384 | the data goes into affine slot `id - 2`, and `id` is returned |
| `Tiled.FrameNumbersDisjoint` | agb/src/display/tiled.rs:366-398 | at most two affine backgrounds; with one, regular numbers stay below 2; regular and affine numbers never meet and all are below 4 |
| `Tiled.EnabledBackgroundsExact` | agb/src/display/tiled.rs:400-463 | the committed enabled-backgrounds mask has bit `b` set exactly for the backgrounds handed out |
| `VramManager.TileSize` | agb/src/display/tiled/vram_manager.rs:42-44 | 32 bytes for a 4-bit tile, 64 for an 8-bit one |
| `VramManager.NewIndex` | agb/src/display/tiled/vram_manager.rs:90-95 | the index is cut to 16 bits and keeps its format; an index that fits is kept |
| `VramManager.KeyIsLocation` | agb/src/display/tiled/vram_manager.rs:111-116 | the reference-count key is where the tile starts, in 32-byte units |
| `VramManager.Key` | agb/src/display/tiled/vram_manager.rs:111-116 | specified by `VramManager.KeyIsLocation` |
| `VramManager.ReferenceIndexRoundTrip` | agb/src/display/tiled/vram_manager.rs:489-497 | an aligned reference comes back from its index, and its key is its offset in 32-byte units |
| `VramManager.IndexFromReference` | agb/src/display/tiled/vram_manager.rs:489-492 | specified by `VramManager.ReferenceIndexRoundTrip` |
| `VramManager.ReferenceFromIndex` | agb/src/display/tiled/vram_manager.rs:494-497 | specified by `VramManager.ReferenceIndexRoundTrip` |
| `VramManager.NewCount` | agb/src/display/tiled/vram_manager.rs:144-149 | a new entry holds one reference to the tile |
| `VramManager.Increment` | agb/src/display/tiled/vram_manager.rs:151-155 | one more reference to the same tile; a 16-bit overflow or an empty entry is excluded (requires) |
| `VramManager.Decrement` | agb/src/display/tiled/vram_manager.rs:157-167 | a zero count panics; otherwise one reference fewer, and the new count is returned |
| `VramManager.DecrementIncrement` | agb/src/display/tiled/vram_manager.rs:151-167 | decrementing undoes incrementing |
| `VramManager.Clear` | agb/src/display/tiled/vram_manager.rs:169-172 | the entry becomes empty |
| `VramManager.Grow` | agb/src/display/tiled/vram_manager.rs:575-576 | the table grows to at least the length asked, keeping its entries and padding with empty ones |
| `VramManager.GcStep` | agb/src/display/tiled/vram_manager.rs:601-624 | one queued index keeps the table's length |
| `VramManager.GcAll` | agb/src/display/tiled/vram_manager.rs:601-624 | `gc` over a whole queue keeps the table's length |
| `VramManager.GcAllEffect` | agb/src/display/tiled/vram_manager.rs:601-624 | no count changes; an entry with references or not queued is kept; a queued entry with no references ends up empty |
| `VramManager.GcAllShrinks` | agb/src/display/tiled/vram_manager.rs:601-624 | `gc` only removes tiles from the tile table, and only appends to the memory it gives back |
| `VramManager.VRamManagerInner.constructor` | agb/src/display/tiled/vram_manager.rs:478-487 | nothing loaded and nothing queued |
| `VramManager.VRamManagerInner.IncreaseReference` | agb/src/display/tiled/vram_manager.rs:596-599 | one more reference at the index's key, and nothing else changes |
| `VramManager.VRamManagerInner.RemoveTile` | agb/src/display/tiled/vram_manager.rs:584-594 | one reference fewer; the index joins the queue exactly when that was the last reference |
| `VramManager.VRamManagerInner.Gc` | agb/src/display/tiled/vram_manager.rs:601-624 | drains the queue, giving back in order the memory of every queued tile that is still unreferenced |
| `VramManager.VRamManagerInner.AddTile` | agb/src/display/tiled/vram_manager.rs:551-582 | a known tile gains a reference at its index; a new one is placed at the allocated location with one reference |
| `VramManager.AddRemoveCollect` | agb/src/display/tiled/vram_manager.rs:551-624 | adding a tile and removing it again lets the next `gc` free exactly its location and forget it |
| `VramManager.NibbleUpdate` | agb/src/display/tiled/vram_manager.rs:267-283 | replacing a nibble sets that nibble and no other |
| `VramManager.SpreadNibbles` | agb/src/display/tiled/vram_manager.rs:230-240 | for a colour below 16 the spread word holds that colour in each of its eight nibbles |
| `VramManager.SpreadColour` | agb/src/display/tiled/vram_manager.rs:233-236 | the loop or-s the colour in at each of the eight nibble positions |
| `VramManager.DynamicTile16.FillWith` | agb/src/display/tiled/vram_manager.rs:230-240 | every word becomes the spread colour |
| `VramManager.DynamicTile16.Fill` | agb/src/display/tiled/vram_manager.rs:238 | every word becomes the given value |
| `VramManager.DynamicTile16.SetPixelAsWritten` | agb/src/display/tiled/vram_manager.rs:267-283 | as written: accepts `x` and `y` up to 8 and writes nibble `(x + 8y) % 8` of word `(x + 8y) / 8` |
| `VramManager.DynamicTile16.SetPixel` | agb/src/display/tiled/vram_manager.rs:267-283 | corrected: for columns and rows 0 to 7, the words become `PixelWritten` of the old words |
| `VramManager.PixelWritten` | agb/src/display/tiled/vram_manager.rs:267-283 | a tile stays eight words |
| `VramManager.PixelWrittenOnly` | agb/src/display/tiled/vram_manager.rs:267-283 | writing a pixel changes that pixel to the colour and no other pixel |
| `VramManager.FilledPixels` | agb/src/display/tiled/vram_manager.rs:230-240 | after `fill_with` every pixel has the colour |
| `VramManager.SetPixelColumnEightSpills` | agb/src/display/tiled/vram_manager.rs:268-269 | the guard as written lets column 8 through, and `set_pixel(8, 0, c)` writes the first pixel of the second row |
| `DungeonEntity.OppositeInvolutive` | examples/the-dungeon-puzzlers-lament/src/game/simulation/entity.rs:470-497 | turning round twice faces the same way, the opposite vector is the negated vector, and every direction is one step long |
| `DungeonEntity.DirectionVectorInjective` | examples/the-dungeon-puzzlers-lament/src/game/simulation/entity.rs:484-497 | different directions have different vectors |
| `DungeonEntity.OverlapTable` | examples/the-dungeon-puzzlers-lament/src/game/simulation/entity.rs:322-341 | the hero wins on the stairs, items are picked up, raised spikes kill and lowered ones do not, and a switch toggles its system |
| `DungeonEntity.ResolveOverlap` | examples/the-dungeon-puzzlers-lament/src/game/simulation/entity.rs:330-341 | specified by `DungeonEntity.OverlapTable` |
| `DungeonEntity.DoorRules` | examples/the-dungeon-puzzlers-lament/src/game/simulation/entity.rs:379-413 | a hero opens a door exactly when holding the key and otherwise stays put; a switched door lets through exactly when open |
| `DungeonEntity.FightRules` | examples/the-dungeon-puzzlers-lament/src/game/simulation/entity.rs:343-413 | a hero with a sword kills and without one shares the square; a slime kills; two sword-holding squids meeting head-on both die |
| `DungeonEntity.ResolveMove` | examples/the-dungeon-puzzlers-lament/src/game/simulation/entity.rs:394-413 | specified by `DungeonEntity.DoorRules` and `DungeonEntity.FightRules` |
| `DungeonEntity.PickUp` | examples/the-dungeon-puzzlers-lament/src/game/simulation/entity.rs:536-545 | the entity holds the item and hands back what it held before; only a hero or a squid can pick up |
| `DungeonEntity.TakeHolding` | examples/the-dungeon-puzzlers-lament/src/game/simulation/entity.rs:547-553 | the entity gives up what it held and holds nothing; other entities are unchanged |
| `DungeonEntity.PickUpThenTake` | examples/the-dungeon-puzzlers-lament/src/game/simulation/entity.rs:536-553 | picking up and then giving up hands back the item and leaves the entity holding nothing |
| `DungeonEntity.FromLevelItemInjective` | examples/the-dungeon-puzzlers-lament/src/game/simulation/entity.rs:682-725 | different level items make different entities |
| `DungeonEntity.FromLevelItem` | examples/the-dungeon-puzzlers-lament/src/game/simulation/entity.rs:683-725 | specified by `DungeonEntity.FromLevelItemInjective`: different items make different entities |
| `DungeonEntity.SwitchTogglesSystem` | examples/the-dungeon-puzzlers-lament/src/game/simulation/entity.rs:635-670 | only entities of the given system change, and only their `active` flag |
| `DungeonEntity.SwitchTwice` | examples/the-dungeon-puzzlers-lament/src/game/simulation/entity.rs:635-670 | toggling twice restores the entity |
| `DungeonEntity.SwitchReportsNewState` | examples/the-dungeon-puzzlers-lament/src/game/simulation/entity.rs:635-670 | the reported look is the level item for the new state |
| `DungeonEntity.SwitchEntity` | examples/the-dungeon-puzzlers-lament/src/game/simulation/entity.rs:635-670 | specified by `DungeonEntity.SwitchTogglesSystem`, `DungeonEntity.SwitchTwice` and `DungeonEntity.SwitchReportsNewState` |
| `DungeonEntity.ChangeDirection` | examples/the-dungeon-puzzlers-lament/src/game/simulation/entity.rs:620-633 | a squid turns round and reports its new look; anything else is unchanged and reports nothing |
| `DungeonEntity.DesiredAction` | examples/the-dungeon-puzzlers-lament/src/game/simulation/entity.rs:508-534 | the hero does what the player asked, and entities other than squids do nothing |
| `DungeonEntity.SquidDesire` | examples/the-dungeon-puzzlers-lament/src/game/simulation/entity.rs:508-534 | a squid keeps going exactly when no wall and nothing ahead stops it, and otherwise turns round |
| `DungeonEntity.TickOutcome` | examples/the-dungeon-puzzlers-lament/src/game/simulation/entity.rs:286-294 | a dead hero loses even on the stairs; otherwise a win or continue |
| `DungeonEntity.EntityMap.constructor` | examples/the-dungeon-puzzlers-lament/src/game/simulation/entity.rs:21-24 | an empty entity map (`Default`) |
| `DungeonEntity.EntityMap.Add` | examples/the-dungeon-puzzlers-lament/src/game/simulation/entity.rs:75-86 | the level item is placed as a new entity at the square |
| `DungeonEntity.EntityMap.KillEntity` | examples/the-dungeon-puzzlers-lament/src/game/simulation/entity.rs:41-73 | the entity is removed, what it held is dropped on its square, and the answer is whether it was the hero |
| `DungeonEntity.EntityMap.ToggleSystem` | examples/the-dungeon-puzzlers-lament/src/game/simulation/entity.rs:242-252 | every entity is switched for the system |
| `DungeonEntity.ToggleTwice` | examples/the-dungeon-puzzlers-lament/src/game/simulation/entity.rs:242-252 | toggling a system twice puts every entity back |
| `HyperspaceBattle.NewDie` | examples/hyperspace-roll/src/battle.rs:27-35 | a landed die shows its face, and a malfunction is stuck for 180 frames |
| `HyperspaceBattle.UpdateDie` | examples/hyperspace-roll/src/battle.rs:37-39 | one frame: the cooldown counts down and stops at zero, and the face is kept |
| `HyperspaceBattle.DieCooldown` | examples/hyperspace-roll/src/battle.rs:49-55 | a cooldown is shown exactly when the die cannot be rerolled, and it is positive |
| `HyperspaceBattle.UpdateDieFramesCooldown` | examples/hyperspace-roll/src/battle.rs:37-39 | after `k` frames the cooldown has dropped by `k`, down to zero |
| `HyperspaceBattle.MalfunctionStuckFor` | examples/hyperspace-roll/src/battle.rs:27-43 | a new malfunction can be rerolled after exactly 180 frames and not before |
| `HyperspaceBattle.OtherFacesFree` | examples/hyperspace-roll/src/battle.rs:27-47 | any other landed face can be rerolled at once |
| `HyperspaceBattle.RollsNeeded` | examples/hyperspace-roll/src/battle.rs:90-99 | the landing loop takes between one and 17 rolls |
| `HyperspaceBattle.RollsNeededFirst` | examples/hyperspace-roll/src/battle.rs:90-99 | the loop stops at the first acceptable roll |
| `HyperspaceBattle.LandingFace` | examples/hyperspace-roll/src/battle.rs:90-99 | one roll unless the die was a malfunction; after a malfunction, the first roll that is not one again, giving up after 17 |
| `HyperspaceBattle.ChooseLanding` | examples/hyperspace-roll/src/battle.rs:90-99 | the loop's count of rolls and the face it lands on |
| `HyperspaceBattle.DieFrameLands` | examples/hyperspace-roll/src/battle.rs:83-110 | a rolling die lands once its timeout runs out, and a landed one stays landed with its face |
| `HyperspaceBattle.DieFrame` | examples/hyperspace-roll/src/battle.rs:83-110 | specified by `HyperspaceBattle.DieFrameLands` |
| `HyperspaceBattle.LandedFaces` | examples/hyperspace-roll/src/battle.rs:112-117 | the faces of the landed dice, no more than there are dice |
| `HyperspaceBattle.TallyShotsAndShields` | examples/hyperspace-roll/src/battle.rs:126-253 | double and triple shots count two and three shots, and likewise for shields |
| `HyperspaceBattle.TallyOthers` | examples/hyperspace-roll/src/battle.rs:126-253 | every other face counts itself, with an entry only when it occurs |
| `HyperspaceBattle.TallyShieldMultiplier` | examples/hyperspace-roll/src/battle.rs:126-253 | the shield multiplier doubles per double-shield-value face |
| `HyperspaceBattle.TallyShootMultiplier` | examples/hyperspace-roll/src/battle.rs:126-253 | the shoot multiplier doubles and triples per shot-value face |
| `HyperspaceBattle.AcceptedShotAndShield` | examples/hyperspace-roll/src/battle.rs:126-253 | a shot of the fired power, piercing by the bypass count, exactly when the power is positive; a shield capped at 5 |
| `HyperspaceBattle.AcceptedOthers` | examples/hyperspace-roll/src/battle.rs:126-253 | the burst shield, heal and disrupt actions as tallied; accepting never makes an enemy action |
| `HyperspaceBattle.AcceptedActions` | examples/hyperspace-roll/src/battle.rs:126-253 | specified by `HyperspaceBattle.AcceptedShotAndShield` and `HyperspaceBattle.AcceptedOthers` |
| `HyperspaceBattle.MalfunctionShootProduct` | examples/hyperspace-roll/src/battle.rs:126-253 | the malfunction shot is the product of two triangular numbers |
| `HyperspaceBattle.InvertSwaps` | examples/hyperspace-roll/src/battle.rs:126-253 | one more invert face swaps the shot and the shield |
| `HyperspaceBattle.PlainShots` | examples/hyperspace-roll/src/battle.rs:126-253 | a hand of `n` plain shots deals the `n`-th triangular number |
| `HyperspaceBattle.Blanked` | examples/hyperspace-roll/src/battle.rs:210-253 | each rewrite of `accept_rolls` keeps the number of dice |
| `HyperspaceBattle.Doubled` | examples/hyperspace-roll/src/battle.rs:210-253 | the double-face rewrite keeps the number of dice |
| `HyperspaceBattle.Stuck` | examples/hyperspace-roll/src/battle.rs:210-253 | the triple-face rewrite keeps the number of dice |
| `HyperspaceBattle.Rerolled` | examples/hyperspace-roll/src/battle.rs:246-253 | the reroll keeps the number of dice |
| `HyperspaceBattle.AfterAcceptMeaning` | examples/hyperspace-roll/src/battle.rs:126-277 | after accepting, every die is rolling again except malfunctions; a double or triple face leaves stuck malfunctions; a rolling die is left alone |
| `HyperspaceBattle.RolledDice.constructor` | examples/hyperspace-roll/src/battle.rs:518-521 | every die starts rolling on a blank for the full roll time |
| `HyperspaceBattle.RolledDice.Update` | examples/hyperspace-roll/src/battle.rs:83-110 | each die takes one frame |
| `HyperspaceBattle.RolledDice.RollDie` | examples/hyperspace-roll/src/battle.rs:255-277 | only the chosen die changes, as `roll_die` says |
| `HyperspaceBattle.RolledDice.TallyLanded` | examples/hyperspace-roll/src/battle.rs:112-117 | the tally of the landed faces |
| `HyperspaceBattle.RolledDice.BlankMalfunctions` | examples/hyperspace-roll/src/battle.rs:210-253 | spent malfunctions become blanks |
| `HyperspaceBattle.RolledDice.MalfunctionDoubles` | examples/hyperspace-roll/src/battle.rs:210-253 | landed double faces break down, and the answer is whether a triple face was seen |
| `HyperspaceBattle.RolledDice.MalfunctionAllLanded` | examples/hyperspace-roll/src/battle.rs:210-253 | every landed die breaks down |
| `HyperspaceBattle.RolledDice.RerollAll` | examples/hyperspace-roll/src/battle.rs:246-253 | every die is rerolled as after accepting |
| `HyperspaceBattle.RolledDice.AcceptRolls` | examples/hyperspace-roll/src/battle.rs:126-253 | the actions of the tally, and the dice as `AfterAccept` says |
| `HyperspaceBattle.ApplyEffect` | examples/hyperspace-roll/src/battle.rs:295-301 | an attack always becomes an enemy action |
| `HyperspaceBattle.UpdateAttack` | examples/hyperspace-roll/src/battle.rs:329-337 | fires exactly when the cooldown is zero, otherwise counts down one frame |
| `HyperspaceBattle.AttackFiresAfterCooldown` | examples/hyperspace-roll/src/battle.rs:329-337 | an attack with cooldown `c` is silent for `c` frames and fires on the next |
| `HyperspaceBattle.FiredActionsStep` | examples/hyperspace-roll/src/battle.rs:367-386 | each slot adds what it fires to the end of the actions |
| `HyperspaceBattle.SlotUpdateMeaning` | examples/hyperspace-roll/src/battle.rs:367-386 | a slot fires only an attack whose cooldown ran out, and then empties; an empty slot never fires |
| `HyperspaceBattle.SlotUpdate` | examples/hyperspace-roll/src/battle.rs:367-386 | specified by `HyperspaceBattle.SlotUpdateMeaning` |
| `HyperspaceBattle.CurrentBattleState.constructor` | examples/hyperspace-roll/src/battle.rs:504-516 | the battle starts at 20 health, no shields and no attacks |
| `HyperspaceBattle.CurrentBattleState.Update` | examples/hyperspace-roll/src/battle.rs:367-386 | each slot counts down, fires or takes a new attack, and the fired actions are returned in order |
| `HyperspaceBattle.CurrentBattleState.ApplyAction` | examples/hyperspace-roll/src/battle.rs:392-474 | each action's effect on health, shields and attacks, capped at the maximum health |
| `HyperspaceBattle.Disrupted` | examples/hyperspace-roll/src/battle.rs:415-420 | disrupting adds 240 frames per point to an attack's cooldown and raises its maximum |
| `PurpleNight.PingPong` | examples/the-purple-night/src/lib.rs:2296-2304 | the counter stays below `n` |
| `PurpleNight.PingPongShape` | examples/the-purple-night/src/lib.rs:2296-2304 | rises from 0 to `n - 1`, comes back down, and repeats every `2 * (n - 1)` steps |
| `PurpleNight.Component` | examples/the-purple-night/src/lib.rs:2308-2310 | each colour component is a 5-bit value |
| `PurpleNight.FadedUpTo` | examples/the-purple-night/src/lib.rs:2306-2325 | the faded components fit in their bits |
| `PurpleNight.InterpolateColour` | examples/the-purple-night/src/lib.rs:2306-2325 | the fade of each component in its place, a 15-bit colour |
| `PurpleNight.ColourSplit` | examples/the-purple-night/src/lib.rs:2308-2310 | a 15-bit colour is its three components in their places |
| `PurpleNight.InterpolateStart` | examples/the-purple-night/src/lib.rs:2306-2325 | at time 0 the fade shows the initial colour |
| `PurpleNight.LerpBetween` | examples/the-purple-night/src/lib.rs:2306-2325 | without overflow and for a rising component, the faded value lies between start and end and reaches the end at full time |
| `PurpleNight.Lerp` | examples/the-purple-night/src/lib.rs:2306-2325 | specified by `PurpleNight.LerpStart` and `PurpleNight.LerpBetween`: one component of the fade in wrapping `u16` arithmetic (see Left out) |
| `PurpleNight.LerpStart` | examples/the-purple-night/src/lib.rs:2306-2325 | at time 0 each component is its start value, a falling one included |
| `PurpleNight.InterpolateEnd` | examples/the-purple-night/src/lib.rs:2306-2325 | at full time the fade reaches the destination when no component falls and nothing overflows |
| `PurpleNight.AttackDuration` | examples/the-purple-night/src/lib.rs:364-371 | an attack lasts at most 60 frames, in steps of 20 |
| `PurpleNight.JumpAttackDuration` | examples/the-purple-night/src/lib.rs:372-379 | a jump attack is no longer than the ground attack and at most 34 frames |
| `PurpleNight.CooldownTime` | examples/the-purple-night/src/lib.rs:403-410 | the cooldown is at most 20 frames |
| `PurpleNight.AttackFrameBounds` | examples/the-purple-night/src/lib.rs:380-401 | the attack frame never underflows, is 0 once the timer reaches the duration, and never passes the hold frame |
| `PurpleNight.HurtboxFrames` | examples/the-purple-night/src/lib.rs:429-472 | hurt boxes exist only for frames 0 to 7 (not the short sword's first); the dagger always has one and the swordless player none; every box has a positive size |
| `PurpleNight.LongSwordAlwaysHurts` | examples/the-purple-night/src/lib.rs:380-458 | a long-sword attack has a hurt box on every frame it reaches |
| `PurpleNight.FudgeBounds` | examples/the-purple-night/src/lib.rs:420-500 | the sprite offset is 0 to 5, 0 for the dagger, the swordless player and frames past 7, and comes with a hurt box |
| `PurpleNight.SwordLadder` | examples/the-purple-night/src/lib.rs:725-758 | a heal undoes a hit and a hit undoes a heal, along long, short and dagger |
| `PurpleNight.Player.constructor` | examples/the-purple-night/src/lib.rs:522-540 | a new player holds the long sword and can be hit at once |
| `PurpleNight.Player.Damage` | examples/the-purple-night/src/lib.rs:725-743 | nothing happens during the cooldown; otherwise the cooldown restarts at 120 and the sword is downgraded, and a dagger's holder dies |
| `PurpleNight.Player.Heal` | examples/the-purple-night/src/lib.rs:745-758 | the sword is upgraded (a long sword stays) and a 30-frame cooldown starts |
| `PurpleNight.Player.CountDownDamage` | examples/the-purple-night/src/lib.rs:715-717 | the cooldown counts down to zero and the sword is kept |
| `PurpleNight.ThreeHits` | examples/the-purple-night/src/lib.rs:725-743 | from the long sword, two hits leave a dagger and the third kills |
| `HatWizard.PingPongTable` | examples/the-hat-chooses-the-wizard/src/lib.rs:852-872 | the test table of `ping_pong` |
| `HatWizard.PingPongAt` | examples/the-hat-chooses-the-wizard/src/lib.rs:350-354 | for a non-negative counter, the value at step `r` of a cycle rises to `n - 1` and falls back |
| `HatWizard.PingPongRange` | examples/the-hat-chooses-the-wizard/src/lib.rs:350-354 | a non-negative counter gives values from 0 to `n - 1`, and a negative one at most 0 |
| `HatWizard.PingPong` | examples/the-hat-chooses-the-wizard/src/lib.rs:350-354 | specified by `HatWizard.PingPongAt`, `HatWizard.PingPongRange` and `HatWizard.PingPongTable`; requires `2 <= n <= 2^30` (see Left out) |
| `HatWizard.RowMajor` | examples/the-hat-chooses-the-wizard/src/lib.rs:314-324 | a cell on the map has an index inside the tile layers |
| `HatWizard.OutOfBounds` | examples/the-hat-chooses-the-wizard/src/lib.rs:314-324 | off the map a point collides, kills and wins at once |
| `HatWizard.InBoundsProperty` | examples/the-hat-chooses-the-wizard/src/lib.rs:306-328 | on the map a property holds exactly when the foreground or the background tile has it |
| `HatWizard.AtPoint` | examples/the-hat-chooses-the-wizard/src/lib.rs:314-324 | specified by `HatWizard.InBoundsProperty` and `HatWizard.OutOfBounds`: off the map every property holds, on it either layer's tile decides |
| `HatWizard.CollideAndKill` | examples/the-hat-chooses-the-wizard/src/lib.rs:306-324 | a cell that both collides and kills has one property in each layer |
| `HatWizard.Halfway` | examples/the-hat-chooses-the-wizard/src/lib.rs:225-247 | the truncated midpoint lies between the bounds, strictly when they are at least 2 apart |
| `HatWizard.BinarySearchCollision` | examples/the-hat-chooses-the-wizard/src/lib.rs:225-247 | ends within 1/8 of a tile, with the low end free (or zero) and the high end colliding (or the initial move), both between 0 and the initial move |
| `Palette16.IndexOf` | agb-image-converter/src/palette16.rs:30-35 | `position` finds a colour exactly when it is in the list, at its first occurrence |
| `Palette16.IndexOfDistinct` | agb-image-converter/src/palette16.rs:30-35 | in a list without repeats, the colour at place `k` is found at `k` |
| `Palette16.IsSatisfiedBy` | agb-image-converter/src/palette16.rs:45-50 | true exactly when every colour of the first palette is in the second (subset of the colour sets) |
| `Palette16.SatisfiedPreorder` | agb-image-converter/src/palette16.rs:45-50 | satisfaction is reflexive and transitive, and a prefix of a satisfied palette is satisfied too |
| `Palette16.UnionLengthMeaning` | agb-image-converter/src/palette16.rs:37-43 | the union size is at least each palette's number of distinct colours, and adds nothing to a palette that satisfies the other |
| `Palette16.Palette16.constructor` | agb-image-converter/src/palette16.rs:13-17 | a new palette holds no colours |
| `Palette16.Palette16.AddColour` | agb-image-converter/src/palette16.rs:19-29 | a colour already present is refused with `false` and nothing changes; a new one is appended and `true` returned; the palette keeps distinct colours, at most 16 |
| `Palette16.Palette16.ColourIndex` | agb-image-converter/src/palette16.rs:30-35 | the index returned is in range and holds the colour asked for |
| `Palette16.AppendedMeaning` | agb-image-converter/src/palette16.rs:84-90 | appending the new colours of a palette keeps the known colours as a prefix, keeps them distinct and ends with exactly the known colours and the palette's |
| `Palette16.AppendedStep` | agb-image-converter/src/palette16.rs:84-90 | a colour already known is skipped (`continue`); a new one is pushed at the end |
| `Palette16.Optimiser.constructor` | agb-image-converter/src/palette16.rs:74-79 | a new optimiser has no palettes and no colours |
| `Palette16.Optimiser.AddPalette` | agb-image-converter/src/palette16.rs:81-95 | the palette is recorded at the end and the known colours become the old ones followed by its new colours, in order |
| `Palette16.Optimiser.CountedGrows` | agb-image-converter/src/palette16.rs:150-166 | usage counts only grow during the pass, so a colour once counted stays counted |
| `Palette16.Optimiser.ScorePalette` | agb-image-converter/src/palette16.rs:155-165 | for one fitting palette, each known colour missing from the current palette gains a use; only wanted colours ever score and `a_colour_is_used` reports a positive score |
| `Palette16.Optimiser.CountUsage` | agb-image-converter/src/palette16.rs:146-166 | after the counting pass a colour has a positive score only if some fitting unsatisfied palette wants it, and every such colour has one |
| `Palette16.Optimiser.AddBestColour` | agb-image-converter/src/palette16.rs:146-187 | when nothing scored the palette is unchanged and maximal; otherwise exactly the last colour with the highest usage is appended |
| `Palette16.Optimiser.FindMaximalPaletteFor` | agb-image-converter/src/palette16.rs:138-188 | the result has distinct colours, at most 16, starts with the transparent colour when there is one, draws only on known colours, and is full or holds every colour of every unsatisfied palette that fits with it |
| `Palette16.Satisfy` | agb-image-converter/src/palette16.rs:113-117 | the palettes left unsatisfied are exactly those the new palette does not satisfy |
| `Palette16.Optimiser.Assign` | agb-image-converter/src/palette16.rs:119-123 | every input palette the new palette satisfies gets its index; every other assignment is kept |
| `Palette16.Optimiser.OptimisePalettes` | agb-image-converter/src/palette16.rs:97-136 | one assignment per input palette; every output palette is well shaped; on success there are fewer than 16 outputs and each input palette is satisfied by the output it is assigned to; failure means the 16th output was reached |
| `Palette16.LastMaxIndex` | agb-image-converter/src/palette16.rs:171-176 | `max_by` picks an index holding the largest count, with every later count strictly smaller (the last maximum on a tie) |
| `Palette16.DrawnFromAppend` | agb-image-converter/src/palette16.rs:178-180 | appending a known colour keeps the palette drawn from the known colours and the transparent one |
| `ManagedStore.SortedZs` | agb/src/display/object/managed.rs:61-76 | the list is in z order exactly when the sequence of its z values is nondecreasing |
| `ManagedStore.UnlinkThreads` | agb/src/display/object/managed.rs:280-303 | pointing the neighbours past position `i` and touching nothing else leaves links that spell the list without that key |
| `ManagedStore.LinkThreads` | agb/src/display/object/managed.rs:305-354 | pointing a new key at its neighbours and them at it leaves links that spell the list with the key put in |
| `ManagedStore.UnlinkedMapMeaning` | agb/src/display/object/managed.rs:280-303 | `remove_from_linked_list` leaves a list one shorter, clears the removed key's links and keeps every z |
| `ManagedStore.UnlinkedMapUntouched` | agb/src/display/object/managed.rs:280-303 | only the two neighbours and the removed key change: the left one's `next` and the right one's `previous` skip it |
| `ManagedStore.LinkedMapMeaning` | agb/src/display/object/managed.rs:305-354 | linking an unlinked key in leaves a list one longer with the key at its place, every z kept |
| `ManagedStore.LinkedMapUntouched` | agb/src/display/object/managed.rs:305-354 | only the new key and its two neighbours change: the left one's `next` and the right one's `previous` become the new key |
| `ManagedStore.BeforeMapIsLinkedMap` | agb/src/display/object/managed.rs:305-329 | the writes of `add_before_element`, in its order, give the linked list with the key in front of `before_this` |
| `ManagedStore.AfterMapIsLinkedMap` | agb/src/display/object/managed.rs:331-354 | the writes of `add_after_element`, in its order, give the linked list with the key behind `after_this` |
| `ManagedStore.MovedMultiset` | agb/src/display/object/managed.rs:356-368 | a move rearranges the list and keeps the same keys |
| `ManagedStore.RunBackMeaning` | agb/src/display/object/managed.rs:386-396 | the backward walk of `set_z` stops at the front of the run of greater z values ending at the object |
| `ManagedStore.RunForwardMeaning` | agb/src/display/object/managed.rs:401-412 | the forward walk stops at the back of the run of smaller z values starting at the object |
| `ManagedStore.Target` | agb/src/display/object/managed.rs:382-416 | the new place of the object: in front of its place for a smaller z, behind it for a greater one, the same for an equal one |
| `ManagedStore.ZsMoved` | agb/src/display/object/managed.rs:378-422 | after the move and the new z, the z values along the list are the old ones with the moved one taken out and the new z put in at the target |
| `ManagedStore.TargetFits` | agb/src/display/object/managed.rs:382-416 | at its target the new z fits between its neighbours of the list without the moved object |
| `ManagedStore.TargetSorted` | agb/src/display/object/managed.rs:378-422 | moving an object to its target and giving it the new z keeps a sorted list sorted |
| `ManagedStore.FirstNonNegativeMeaning` | agb/src/display/object/managed.rs:93-100 | the insert position of `insert_object` follows every negative z and sits at the first z that is not negative, if any |
| `ManagedStore.InsertSorted` | agb/src/display/object/managed.rs:78-114 | a z-0 object put in at the insert position keeps a sorted list sorted |
| `ManagedStore.MovedAfterAt` | agb/src/display/object/managed.rs:363-368 | once the moved key is out, `after_this` sits one place earlier if it came after it, and linking behind it is the move to that place |
| `ManagedStore.MovedBeforeAt` | agb/src/display/object/managed.rs:356-361 | the same for `move_before`: linking in front of `before_this` is the move to its place once the key is out |
| `ManagedStore.WithoutSorted` | agb/src/display/object/managed.rs:116-121 | taking a key out keeps a sorted list sorted |
| `ManagedStore.CompleteWithout` | agb/src/display/object/managed.rs:116-121 | after `remove_object` every object left in the arena is still on the list |
| `ManagedStore.CompleteInsertAt` | agb/src/display/object/managed.rs:78-114 | after `insert_object` every object in the arena is on the list, the new one included |
| `ManagedStore.RemovedSorted` | agb/src/display/object/managed.rs:116-121 | `remove_object` keeps a sorted list sorted, and the removed key is off the list |
| `ManagedStore.InsertedSorted` | agb/src/display/object/managed.rs:78-114 | `insert_object` keeps a sorted list sorted |
| `ManagedStore.SetZSorted` | agb/src/display/object/managed.rs:378-422 | `set_z` keeps a sorted list sorted |
| `ManagedStore.SetZState` | agb/src/display/object/managed.rs:378-422 | what `set_z` leaves once the new z is stored: the moved list is threaded and complete, only the object's z changed |
| `ManagedStore.RemoveFromLinkedList` | agb/src/display/object/managed.rs:280-303 | the neighbours of the removed key are joined or `first_z` moves on; the links spell the list without it, its own links are cleared and every z is kept |
| `ManagedStore.AddBeforeElement` | agb/src/display/object/managed.rs:305-329 | the unlinked key goes in just before `before_this` (becoming `first_z` at the head); the links spell the longer list and every z is kept |
| `ManagedStore.AddAfterElement` | agb/src/display/object/managed.rs:331-354 | the unlinked key goes in just after `after_this`; the links spell the longer list, `first_z` unchanged, every z kept |
| `ManagedStore.MoveBefore` | agb/src/display/object/managed.rs:356-361 | the source key is unlinked and linked again in front of `before_this`: the list is the move of the key to that place |
| `ManagedStore.MoveAfter` | agb/src/display/object/managed.rs:363-368 | the source key is unlinked and linked again behind `after_this`: the list is the move of the key to that place |
| `ManagedStore.WalkToNonNegative` | agb/src/display/object/managed.rs:93-100 | the walk from `first_z` stops at the first z that is not negative (position `FirstNonNegative`), or at the last object when all are negative |
| `ManagedStore.InsertObjectLinks` | agb/src/display/object/managed.rs:78-114 | the new z-0 object goes in before the first object whose z is not negative, or last; a sorted list stays sorted and every object stays on it |
| `ManagedStore.RemoveObjectLinks` | agb/src/display/object/managed.rs:116-121 | the object is unlinked and dropped from the arena; every other object keeps its z and a sorted list stays sorted |
| `ManagedStore.NextAt` | agb/src/display/object/managed.rs:42-46 | on a threaded list an item has a `next` exactly when it is not last, and it is the following key |
| `ManagedStore.PreviousAt` | agb/src/display/object/managed.rs:280-303 | an item has a `previous` exactly when it is not first, and it is the preceding key |
| `ManagedStore.WalkBack` | agb/src/display/object/managed.rs:386-396 | the backward walk returns the front of the run of z values greater than the new z that ends at the object, the key at position `RunBack` of the list |
| `ManagedStore.WalkForward` | agb/src/display/object/managed.rs:401-412 | the forward walk returns the back of the run of z values smaller than the new z that starts at the object, the key at position `RunForward` of the list |
| `ManagedStore.Reposition` | agb/src/display/object/managed.rs:382-416 | the match on the comparison moves the object to its target, leaving a threaded list and every z as it was |
| `ManagedStore.SetZLinks` | agb/src/display/object/managed.rs:378-422 | `set_z` moves the object to its target and stores the new z; only that z changes and every object stays on the list |
| `ManagedStore.Store.constructor` | agb/src/display/object/managed.rs:186-193 | a new store has no objects and an empty list |
| `ManagedStore.Store.InsertObject` | agb/src/display/object/managed.rs:78-114 | the list gains the new key at the insert position, z 0, every other z kept, and a sorted list stays sorted |
| `ManagedStore.Store.RemoveObject` | agb/src/display/object/managed.rs:116-121 | the list loses the key, the arena loses the object, every other z is kept, and a sorted list stays sorted |
| `ManagedStore.Store.SetZ` | agb/src/display/object/managed.rs:378-422 | the list is the object moved to its target, only its z changes, and a sorted list stays sorted (the property `test_always_ordered` checks) |
| `ManagedStore.OrderedWalk` | agb/src/display/object/managed.rs:61-76 | the loop of `is_all_ordered_right` over the item map: it answers false at the first z below its predecessor and true at the end of the list, so it answers exactly whether the list is sorted |
| `ManagedStore.SortedPrefixStep` | agb/src/display/object/managed.rs:68-73 | an entry no smaller than the one before it extends a sorted prefix of the list by one |
| `ManagedStore.Store.IsAllOrderedRight` | agb/src/display/object/managed.rs:61-76 | the walk from `first_z` reports true exactly when the list is sorted |
| `SampleFix.SetSigned` | agb-sound-converter/src/mmutil/samplefix.rs:436-438 | or-ing `0x2` into the format sets the signed bit and keeps bit 0 and the bits above |
| `SampleFix.Silent` | agb-sound-converter/src/mmutil/samplefix.rs:54-58 | a run of `count` silence values: 32768 for 16-bit data, 128 for 8-bit |
| `SampleFix.Repeated` | agb-sound-converter/src/mmutil/samplefix.rs:162-166 | entry `x` of the unrolled loop is loop sample `x % looplen` |
| `SampleFix.Reversed` | agb-sound-converter/src/mmutil/samplefix.rs:214-221 | entry `x` is the loop sample at `loop_end - 1 - x` |
| `SampleFix.UnrollLength` | agb-sound-converter/src/mmutil/samplefix.rs:151-152 | the samples added by `Unroll_Sample_Loop` number `looplen * count`, none for an empty loop |
| `SampleFix.GbaPrepared` | agb-sound-converter/src/mmutil/samplefix.rs:441-449 | after narrowing, cutting at the loop end and unrolling a ping-pong loop: 8-bit data, no ping-pong loop, a looping sample ending at its loop end, the length at most doubled |
| `SampleFix.ShortLoopCount` | agb-sound-converter/src/mmutil/samplefix.rs:450-458 | the count `512 / looplen + 1` makes the unrolled loop longer than 512 samples while adding at most `512 + looplen` |
| `SampleFix.PadStartKeepsLoop` | agb-sound-converter/src/mmutil/samplefix.rs:41-92 | padding the start puts `count` silence values first, shifts the loop points and the length by `count` and keeps the looped samples between the moved points |
| `SampleFix.PadEndKeepsSamples` | agb-sound-converter/src/mmutil/samplefix.rs:94-143 | padding the end keeps every sample and the loop start, adds `count` silence values, and grows the loop end and the length |
| `SampleFix.UnrolledRepeats` | agb-sound-converter/src/mmutil/samplefix.rs:145-195 | when the loop reaches the end, the unrolled loop is `count + 1` copies of the old loop: each new loop sample is the old one at the same offset mod `looplen` |
| `SampleFix.BidiPlaysForwardThenBack` | agb-sound-converter/src/mmutil/samplefix.rs:197-252 | the unrolled ping-pong loop is the loop forwards then backwards, played as a forward loop (`loop_type` 1) |
| `SampleFix.NarrowKeepsHighByte` | agb-sound-converter/src/mmutil/samplefix.rs:392-410 | `Sample_8bit` keeps the high byte of each 16-bit sample, clears bit 0 of the format and maps 16-bit silence to 8-bit silence |
| `SampleFix.SignSampleMeaning` | agb-sound-converter/src/mmutil/samplefix.rs:412-435 | read in two's complement a signed sample is its value minus the midpoint, the lowest value raised by one (8-bit -128 becomes -127), so the range is symmetric |
| `SampleFix.SignedTouchesSamplesOnly` | agb-sound-converter/src/mmutil/samplefix.rs:412-439 | `Sample_Sign` changes only the first `sample_length` samples and sets the signed flag |
| `SampleFix.ClampedLoopInside` | agb-sound-converter/src/mmutil/samplefix.rs:638-652 | after the clamp both loop points are at most the length, and points already inside are kept |
| `SampleFix.GbaFixedMeaning` | agb-sound-converter/src/mmutil/samplefix.rs:441-460 | the GBA preparation leaves 8-bit data and no ping-pong loop; a looping sample ends at its loop end, and when `loop_start < loop_end` its loop is at least 512 samples long |
| `SampleFix.ShortLoopUnrolledMeaning` | agb-sound-converter/src/mmutil/samplefix.rs:450-458 | a loop of 512 samples or more is left alone; a shorter one becomes longer than 512 samples |
| `SampleFix.CopyInto` | agb-sound-converter/src/mmutil/samplefix.rs:59-64 | the copy loop carries the old samples over to the new place and writes nothing else |
| `SampleFix.FillSilence` | agb-sound-converter/src/mmutil/samplefix.rs:54-58 | the fill loop writes `n` silence values and nothing else |
| `SampleFix.RepeatInto` | agb-sound-converter/src/mmutil/samplefix.rs:162-167 | the unroll loop writes the loop played over and over and nothing else |
| `SampleFix.ReverseInto` | agb-sound-converter/src/mmutil/samplefix.rs:214-221 | the ping-pong loop writes the loop backwards and nothing else |
| `SampleFix.Sample.PadStart` | agb-sound-converter/src/mmutil/samplefix.rs:41-92 | the new buffer and header are `PadStarted` of the old ones |
| `SampleFix.Sample.PadEnd` | agb-sound-converter/src/mmutil/samplefix.rs:94-143 | the new buffer and header are `PadEnded` of the old ones |
| `SampleFix.Sample.UnrollSampleLoop` | agb-sound-converter/src/mmutil/samplefix.rs:145-195 | the new buffer and header are `LoopUnrolled` of the old ones |
| `SampleFix.Sample.UnrollBidiSample` | agb-sound-converter/src/mmutil/samplefix.rs:197-252 | the new buffer and header are `BidiUnrolled` of the old ones |
| `SampleFix.Sample.Sample8Bit` | agb-sound-converter/src/mmutil/samplefix.rs:392-410 | the new buffer and header are `Narrowed` of the old ones |
| `SampleFix.Sample.SampleSign` | agb-sound-converter/src/mmutil/samplefix.rs:412-439 | the buffer is rewritten in place (same array) to `Signed` of the old sample |
| `SampleFix.Sample.FixSampleGba` | agb-sound-converter/src/mmutil/samplefix.rs:441-460 | the sample becomes `GbaFixed` of the old one |
| `SampleFix.Sample.UnrollShortLoop` | agb-sound-converter/src/mmutil/samplefix.rs:450-458 | the sample becomes `ShortLoopUnrolled` of the old one |
| `SampleFix.Sample.FixSample` | agb-sound-converter/src/mmutil/samplefix.rs:638-658 | the loop points are clamped, then the sample is prepared for the GBA target (`Fixed`) |
| `MmutilSimple.BitAt` | agb-sound-converter/src/mmutil_sys/simple.rs:56-59 | the bit `(buffer[p >> 3] >> (p & 7)) & 1` is 0 or 1 |
| `MmutilSimple.BitsValueBound` | agb-sound-converter/src/mmutil_sys/simple.rs:45-63 | the value of `size` bits read is below `2^size` |
| `MmutilSimple.ReadBits` | agb-sound-converter/src/mmutil_sys/simple.rs:45-63 | `readbits` returns the `size` bits from bit `pos`, the first one read in the lowest place |
| `MmutilSimple.ReadBitStep` | agb-sound-converter/src/mmutil_sys/simple.rs:53-61 | one round of the loop, or-ing bit `pos + i` in at place `i`, extends the value read by that bit |
| `MmutilSimple.ReadBitsSplit` | agb-sound-converter/src/mmutil_sys/simple.rs:45-63 | two reads back to back equal one longer read, the second read's bits placed above the first's |
| `MmutilSimple.AlignedByte` | agb-sound-converter/src/mmutil_sys/simple.rs:45-63 | eight bits read from a byte boundary are that byte |
| `MmutilSimple.AlignedLowBits` | agb-sound-converter/src/mmutil_sys/simple.rs:45-63 | the first `n` bits read from a byte boundary are the byte modulo `2^n` |
| `MmutilSimple.ToLower` | agb-sound-converter/src/mmutil_sys/simple.rs:37-43 | `tolower` in the C locale keeps '.' a dot and nothing else becomes one |
| `MmutilSimple.StopAt` | agb-sound-converter/src/mmutil_sys/simple.rs:72-76 | the scan from the end of the name stops at a '.' or after four characters |
| `MmutilSimple.GetExt` | agb-sound-converter/src/mmutil_sys/simple.rs:65-118 | `get_ext` returns the type the packed, lowered extension of the name selects |
| `MmutilSimple.KeyIsPacked` | agb-sound-converter/src/mmutil_sys/simple.rs:72-106 | with no negative character, or-ing the shifted lowered characters in packs them one per byte, the last in the lowest |
| `MmutilSimple.StopsAtDot` | agb-sound-converter/src/mmutil_sys/simple.rs:72-76 | the scan stops at the '.' `n` characters before the end when none of those is a '.' |
| `MmutilSimple.DotExtension` | agb-sound-converter/src/mmutil_sys/simple.rs:65-118 | a name of four characters or more ending in '.' and an extension of up to three characters has the type the `match` gives that extension |
| `MmutilSimple.ModExtensions` | agb-sound-converter/src/mmutil_sys/simple.rs:107-108 | "mod" (either case) gives 0 and "s3m" gives 1, whatever the stem |
| `MmutilSimple.TrackerExtensions` | agb-sound-converter/src/mmutil_sys/simple.rs:112-113 | "xm" gives 2 and "it" gives 3, whatever the stem |
| `MmutilSimple.SampleAndListExtensions` | agb-sound-converter/src/mmutil_sys/simple.rs:109-110 | "wav" gives 4 and "txt" gives 5, whatever the stem |
| `MmutilSimple.OutputExtensions` | agb-sound-converter/src/mmutil_sys/simple.rs:111-114 | "h" gives 7 and "msl" gives 8, whatever the stem |
| `MmutilSimple.ShortNamesUnknown` | agb-sound-converter/src/mmutil_sys/simple.rs:69-71 | every name shorter than four characters is type 6, whatever its extension |
| `MmutilSimple.ShortNameExamples` | agb-sound-converter/src/mmutil_sys/simple.rs:65-118 | `a.h` and `.xm` are type 6 for their length, while `ab.h` has the known extension `.h`, type 7 |
| `MmutilSimple.ExtensionIgnoresCase` | agb-sound-converter/src/mmutil_sys/simple.rs:65-118 | names that differ only in case have the same type |
| `MmutilSimple.ClampS8` | agb-sound-converter/src/mmutil_sys/simple.rs:179-187 | the result is in -128..127, and a value already in range is kept |
| `MmutilSimple.ClampU8` | agb-sound-converter/src/mmutil_sys/simple.rs:189-197 | the result is in 0..255, and a value already in range is kept |
| `MmutilSimple.ClampsNearest` | agb-sound-converter/src/mmutil_sys/simple.rs:179-197 | both clamps keep the order of values, give the in-range value nearest the input and are idempotent |
| `MmutilSimple.BidiLengthsMatchUnrolled` | agb-sound-converter/src/mmutil_sys/simple.rs:128-153 | for a ping-pong sample, `calc_samplen` and `calc_samplooplen` are the length and loop length the sample has once cut at its loop end and unrolled into a forward loop |
| `MmutilSimple.CalcSamplooplen` | agb-sound-converter/src/mmutil_sys/simple.rs:128-141 | specified by `MmutilSimple.BidiLengthsMatchUnrolled` and `MmutilSimple.NoLoopSentinel` |
| `MmutilSimple.CalcSamplen` | agb-sound-converter/src/mmutil_sys/simple.rs:143-153 | specified by `MmutilSimple.BidiLengthsMatchUnrolled` |
| `MmutilSimple.GbaFixedLengthIsSamplen` | agb-sound-converter/src/mmutil_sys/simple.rs:120-126 | after the GBA preparation `calc_samplen_ex2` is the sample's length |
| `MmutilSimple.CalcSamplenEx2` | agb-sound-converter/src/mmutil_sys/simple.rs:120-126 | specified by `MmutilSimple.GbaFixedLengthIsSamplen` |
| `MmutilSimple.SignedDsFormat` | agb-sound-converter/src/mmutil_sys/simple.rs:155-169 | after `Sample_Sign` the DS format is 2 for ADPCM, else 1 for 16-bit and 0 for 8-bit data |
| `MmutilSimple.DsFormat` | agb-sound-converter/src/mmutil_sys/simple.rs:155-169 | specified by `MmutilSimple.SignedDsFormat` |
| `MmutilSimple.NoLoopSentinel` | agb-sound-converter/src/mmutil_sys/simple.rs:128-177 | the loop length is `0xffffffff` and the repeat type 2 exactly when the sample does not loop |
| `MmutilSimple.DsRepType` | agb-sound-converter/src/mmutil_sys/simple.rs:171-177 | specified by `MmutilSimple.NoLoopSentinel` |

## Left out

Panics the source raises on bad input are preconditions of the model:

- Palette16.Palette16.AddColour: requires room for a new colour. The source panics on a 17th colour (agb-image-converter/src/palette16.rs:24-26).
- Palette16.Optimiser.AddPalette: requires at most 256 colours in all. The source panics beyond that (agb-image-converter/src/palette16.rs:92-94).
- Palette16.Palette16.ColourIndex: requires the colour to be present. The source's `expect` panics otherwise.
- AgbHashMap.HashMap.WithCapacity: requires a capacity that some power-of-two size up to 2^31 exceeds. The source panics when none does (agb-hashmap/src/lib.rs:235).
- AgbHashMap.HashMap.WithSize, AgbHashSet.HashSet.WithSize and HashStorage.NodeStorage.WithSizeIn: require a power-of-two size, as the source's assert does.
- AgbHashMap.HashMap.Resize: requires that the table does not shrink.
- AgbHashMap.HashMap.Index: requires the key to be present.
- HashNode.Replace: requires an occupied node. The source panics on an empty one.
- FixNum.Add, FixNum.Sub, FixNum.Neg, FixNum.Abs and FixNum.MulInt: require the exact result to fit an `i32`. This is the debug build, which panics on overflow. `FixNum.Mul` and `upcast_multiply` wrap as the source writes them. PurpleNight.Lerp models the `u16` wrapping of a release build instead, because `b - a` underflows whenever a colour component fades down.
- FixNum.Div: requires a non-zero divisor and excludes `i32::MIN / -1`.
- FixNum.Sqrt: requires an even `N` and a non-negative value.
- FixRect.Clamp: requires `lo <= hi`, as `Ord::clamp` does.
- FixVector.DivScalar: requires a non-zero divisor.
- FontSpecial.New: requires an index below 16.
- ExecutorChannel.Inner.constructor: requires a power-of-two capacity.
- GwilymEncoding.ValueForChar: requires a byte below 128. The source's 128-entry lookup table panics beyond that.
- DungeonEntity.PickUp: requires an entity that can hold items, as `pickup` does.
- SaveBlock.DeserializeBlock: requires `!DeserializePanics`. The source slices a 6- or 7-byte buffer from byte 8 without a length check.
- SaveBlock.SerializeBlock: requires a buffer of the length the block type needs.
- HatWizard.PingPong: requires `2 <= n <= 2^30`. This excludes `n == 1`, where the source divides by zero, and a cycle `2 * (n - 1)` that does not fit an `i32`. It also excludes `n <= 0`, where the source is defined (a zero or negative cycle); both call sites pass 4 and 5.
- PurpleNight.PingPong: requires `n` in 2..=32768.
- MmutilSimple.ReadBits: requires at most 32 bits. A larger shift is undefined in the C original and panics in the Rust translation.
- SampleFix.Sample.PadStart, SampleFix.Sample.PadEnd, SampleFix.Sample.UnrollSampleLoop and SampleFix.Sample.UnrollBidiSample: require the byte size handed to `malloc` not to wrap in 32 bits. A wrapped size would make the copy loops write past the buffer.
- SampleFix.Sample.UnrollSampleLoop and SampleFix.Sample.UnrollBidiSample: also require `loop_start <= loop_end <= sample_length` (`LoopInside` for the functions `LoopUnrolled` and `BidiUnrolled`). The source checks neither: a loop end before the loop start wraps the loop length, and a loop end past the length copies from outside the sample.
- SpritePaletteAllocator.PaletteAllocator.DeallocateSingle: requires an index below 16, as the source's assert does.
- SaveSectorStorage.SectorStorage.ReadSector: requires an index below the sector count and a buffer of one sector's length. The source's slice indexing panics otherwise.
- VramManager.Decrement: requires a non-zero count and a tile present. The source asserts the first and debug-asserts the second.
- VramManager.DynamicTile16.SetPixelAsWritten: requires `x` and `y` below 9 and a palette index below 16, as the source's asserts do, and a word index `(x + 8y) / 8` below 8, where the source's array indexing panics.
- SampleFix.Sample.FixSampleGba: requires `GbaFixable`. A looping sample with an empty loop would divide by zero, and a ping-pong loop that ends before it starts would wrap its length.

Other narrowings:

- HashStorage.NumberBeforeResize: computes `size * 60 / 100` on unbounded integers. The `usize` multiplication in agb-hashmap/src/lib.rs:919-921 overflows for sizes above 2^32 / 60, and sizes are capped at 2^31.
- SoundMixer.MixerBufferState.Frame: is modelled as atomic with respect to the timer-1 interrupt that runs `swap` (agb/src/sound/mixer/sw_mixer.rs:177-186, 407-408). On hardware that interrupt can advance `playing` between the `should_calculate` check and `active_advanced`, so the ensures `playing == old(playing)` and "the buffer written is not the one playing" hold only for a frame that no interrupt splits.
- SoundMixer.Mixer.PlaySound: keeps the per-slot generation as an unbounded integer. The source's `i32` counter would overflow after 2^31 sounds in one slot.
- SampleFix.Sample.FixSample: requires a target other than the DS (`target_system` 1). `FixSample_NDS`, `Resample` (floating point), `strcmpshit` and the ADPCM compressor it calls are not part of this model. The target system is a parameter instead of the global.
- SaveSectorStorage.SectorStorage.constructor: the class uses the corrected sector size (see Findings). It agrees with the code as written on every medium whose write size divides its erase size.
- GwilymEncoding.DecodeExampleChunks: the source's test trace `2QI65Q69306Kv1` is checked chunk by chunk, not as one whole-trace decode.
- The save codec's `SlotHeaderBlock` builders (`empty`, `ghost`, `valid`) and the `GlobalBlock::new`/`slot_count` accessors are left out. They only fill in struct fields.

I/O, randomness, hardware and foreign calls:

- HyperspaceBattle.CurrentBattleState.ApplyAction: leaves out the sound effects `apply_action` plays.
- The dice rolls, `generate_attack` and the random enemy attacks of Hyperspace Roll are parameters.
- The `rng::gen` calls of `test_always_ordered` are not modelled. `SetZ` is instead proved for every z value and every object.
- The key register read by `ButtonController::update` is a parameter.
- The hasher (`FxHasher`) is a function given at construction. Allocators, `Clone` and iterator adaptors are not part of this model. The set operations run to completion and return the sequence they would yield.
- The executor channel's wakers, async poll closures, `UnsafeCell` and allocator are left out. `PollWrite` and `PollRead` model one poll each.
- The managed store keeps only the `z_order` links and the `z_index` of each object. The object payload, sprite loading, OAM commit and the iterators are not part of this model. The arena key of a new object is given by the caller as a fresh key.
- In the dungeon game's entity map, the slot-map key of a new entity is chosen by the caller.
- In the tile reference-count table, the video-memory location the block allocator returns is passed in, and freed locations are returned. The allocator itself and the raw VRAM address arithmetic are not part of this model.
- Nodes of the hash table are values (a datatype with an empty and an occupied case) rather than `MaybeUninit` slots updated in place. The bucket array is a sequence field of a class that methods reassign.
- Samples are sequences of `u16`, one per sample value. A byte buffer of 8-bit data is modelled by values below 256, with no aliasing between the old and the new buffer.
- `RegularBackground::set_tile_at_pos` and the rest of the display glue that writes to video memory are left out, as hardware access.

## Findings

| source | as written | input that shows it | evidently intended | confidence | as-written member | corrected member |
|---|---|---|---|---|---|---|
| agb-hashmap/src/hash_set.rs:321-329 | when `self` is smaller, `union` chains `smaller.difference(self)`, which is empty, so `self`'s own elements are lost | {1} union {2, 3} yields only 2 and 3 | chain `larger` with `smaller.difference(larger)` | high, not executed | `AgbHashSet.UnionLosesSmallerSelf` | `AgbHashSet.UnionKeepsSmallerSelf` |
| agb-save/src/sector_storage.rs:44-66 | rounds up to the write size and then to the erase size, which can lose alignment to the write size | write size 3, erase size 5: 130 bytes, not a multiple of 3, so sector writes would fail the alignment assert | the least common multiple of both sizes at or above 128 (135 here) | high, not executed | `SaveSectorStorage.SectorSizeAsWrittenMisaligned` | `SaveSectorStorage.SectorSizeAligned` |
| agb/src/executor/channel.rs:87-93 | `Drop for Inner` indexes `data[read_head + i]` with no wrap-around | capacity 2: write, read, write, write leaves head 1 and length 2, so slot 2 is out of bounds | index `(read_head + i) & (capacity - 1)` | high, not executed | `ExecutorChannel.DropAfterWrapExample` | `ExecutorChannel.Inner.Drop` |
| agb/src/display/tiled/mod.rs:192-194 | `palette` xors the new id into bits 12-15, mixing it with the palette already set | a setting with palette 1 given palette 2 ends with palette 3 | replace bits 12-15 with the new id | medium, not executed | `TiledModes.PaletteAsWrittenMixes` | `TiledModes.PaletteReplaces` |
| agb/src/display/tiled/mod.rs:205-224 | `while candidate < 16 - gap` never tries the start `16 - gap` | only block 15 free and a gap of 1: no start is tried that finds it, and the search panics | try every start up to and including `16 - gap` | high, not executed | `TiledModes.GapAsWrittenMissesLastBlock` | `TiledModes.FindScreenblockGapComplete` |
| agb/src/display/tiled/vram_manager.rs:268-269 | `set_pixel` accepts `x` in `0..9`, one column past the 8-pixel tile | `set_pixel(8, 0, c)` writes the first pixel of the second row | accept `x` in `0..8` | high, not executed | `VramManager.SetPixelColumnEightSpills` | `VramManager.PixelWrittenOnly` |
