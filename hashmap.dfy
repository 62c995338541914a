/**
 * The Robin Hood hash map of agb-hashmap/src/lib.rs: a `NodeStorage` plus a
 * hasher. The hasher (`BuildHasherDefault<FxHasher>`) is a fixed function
 * from keys to 64-bit hashes, given at construction; the map folds its
 * output to 32 bits and mixes it (`HashMap::hash`).
 */
module AgbHashMap {
  import opened Wrappers
  import opened Bits
  import opened HashNode
  import opened HashStorage

  /** `HashMap::hash`: the hasher's 64-bit output folded to a `HashType`. */
  function HashOf<K>(hasher: K -> bv64, key: K): HashType
  {
    FoldHash(hasher(key))
  }

  /** Every stored hash is the hasher's hash of its key. */
  ghost predicate HashedBy<K>(hashes: map<K, HashType>, hasher: K -> bv64)
  {
    forall k :: k in hashes ==> hashes[k] == HashOf(hasher, k)
  }

  lemma HashedByRemove<K>(hashes: map<K, HashType>, hasher: K -> bv64, key: K)
    requires HashedBy(hashes, hasher)
    ensures HashedBy(hashes - {key}, hasher)
  {
  }

  /** The initial size of `HashMap::new`. */
  const DEFAULT_SIZE: nat := 16

  /** 2^31, the largest table `with_capacity` tries. */
  lemma Pow2Is31()
    ensures Pow2(31) == MAX_BACKING_SIZE
  {
    Pow2Is32();
  }

  /** Doubling a full table below 2^31 buckets gives a power of two within bounds and with room for one more entry. */
  lemma Doubling(n: nat)
    requires IsPowerOfTwo(n) && n < MAX_BACKING_SIZE
    ensures IsPowerOfTwo(2 * n) && 2 * n <= MAX_BACKING_SIZE
    ensures NumberBeforeResize(n) < NumberBeforeResize(2 * n)
  {
    assert (2 * n) / 2 == n;
    Pow2Is31();
    PowerOfTwoBelow(n, 31);
    RoomGrows(n);
  }

  /** Doubling a non-empty table raises the number of entries it takes before resizing. */
  lemma RoomGrows(n: nat)
    requires n >= 1
    ensures NumberBeforeResize(n) < NumberBeforeResize(2 * n)
  {
    var x := n * 60;
    var q := x / 100;
    assert x == 100 * q + x % 100;
    ModUnique(2 * x, 100, 2 * q + (2 * (x % 100)) / 100, (2 * (x % 100)) % 100);
    assert NumberBeforeResize(2 * n) == (2 * x) / 100;
  }

  /**
   * An entry of the Entry API: `Occupied` remembers the bucket of a present
   * key, `Vacant` the hash of an absent one. Both borrow the map, so they are
   * only meaningful while the map is unchanged (`HashMap.Current`).
   */
  datatype Entry<K> = OccupiedEntry(key: K, location: nat) | VacantEntry(key: K, hash: HashType)

  /** The keys of a non-empty list of pairs: the first one's and the rest's. */
  lemma KeysOfPairs<K, V>(entries: seq<(K, V)>)
    requires entries != []
    ensures (set i | 0 <= i < |entries| :: entries[i].0) ==
            {entries[0].0} + set i | 0 <= i < |entries[1..]| :: entries[1..][i].0
  {
    var rest := set i | 0 <= i < |entries[1..]| :: entries[1..][i].0;
    forall i | 0 <= i < |entries|
      ensures entries[i].0 in {entries[0].0} + rest
    {
      if i > 0 {
        assert entries[1..][i - 1] == entries[i];
      }
    }
  }

  /** `Extend` and `FromIterator`: insert the pairs in order, a later value for a key replacing an earlier one. */
  function InsertAll<K, V>(m: map<K, V>, entries: seq<(K, V)>): map<K, V>
    decreases |entries|
  {
    if entries == [] then m
    else InsertAll(m[entries[0].0 := entries[0].1], entries[1..])
  }

  /** The keys after inserting the pairs: the old keys and every key of the pairs. */
  lemma {:induction false} InsertAllKeys<K, V>(m: map<K, V>, entries: seq<(K, V)>)
    ensures InsertAll(m, entries).Keys == m.Keys + set i | 0 <= i < |entries| :: entries[i].0
    decreases |entries|
  {
    if entries != [] {
      KeysOfPairs(entries);
      InsertAllKeys(m[entries[0].0 := entries[0].1], entries[1..]);
    }
  }

  /** Some pair of `entries` has key `k`. */
  ghost predicate Mentions<K, V>(entries: seq<(K, V)>, k: K)
  {
    exists i :: 0 <= i < |entries| && entries[i].0 == k
  }

  /** The last pair of `entries` with key `k` is `(k, v)`. */
  ghost predicate LastIs<K, V>(entries: seq<(K, V)>, k: K, v: V)
  {
    exists i :: 0 <= i < |entries| && entries[i] == (k, v) && forall j :: i < j < |entries| ==> entries[j].0 != k
  }

  /**
   * What `BTreeMap::from_iter` builds from the same pairs, stated without
   * reference to insertion: each key present maps to the value of its last
   * occurrence.
   */
  ghost predicate LastWins<K, V>(m: map<K, V>, entries: seq<(K, V)>)
  {
    m.Keys == (set i | 0 <= i < |entries| :: entries[i].0) &&
    forall k :: k in m ==> LastIs(entries, k, m[k])
  }

  lemma MentionsCons<K, V>(entries: seq<(K, V)>, k: K)
    requires entries != []
    ensures Mentions(entries, k) <==> entries[0].0 == k || Mentions(entries[1..], k)
  {
    if Mentions(entries, k) && entries[0].0 != k {
      var i :| 0 <= i < |entries| && entries[i].0 == k;
      assert entries[1..][i - 1] == entries[i];
    }
    if Mentions(entries[1..], k) {
      var i :| 0 <= i < |entries[1..]| && entries[1..][i].0 == k;
      assert entries[i + 1] == entries[1..][i];
    }
  }

  /** The last occurrence in the tail is the last occurrence; with none there, the head is. */
  lemma LastIsCons<K, V>(entries: seq<(K, V)>, k: K, v: V)
    requires entries != []
    ensures LastIs(entries[1..], k, v) ==> LastIs(entries, k, v)
    ensures entries[0] == (k, v) && !Mentions(entries[1..], k) ==> LastIs(entries, k, v)
  {
    var rest := entries[1..];
    if LastIs(rest, k, v) {
      var i :| 0 <= i < |rest| && rest[i] == (k, v) && forall j :: i < j < |rest| ==> rest[j].0 != k;
      assert entries[i + 1] == rest[i];
      forall j | i + 1 < j < |entries|
        ensures entries[j].0 != k
      {
        assert entries[j] == rest[j - 1];
      }
    }
    if entries[0] == (k, v) && !Mentions(rest, k) {
      forall j | 0 < j < |entries|
        ensures entries[j].0 != k
      {
        assert entries[j] == rest[j - 1];
      }
    }
  }

  lemma {:induction false} InsertAllLastWinsFrom<K, V>(m: map<K, V>, entries: seq<(K, V)>)
    ensures forall k :: k in InsertAll(m, entries) && Mentions(entries, k) ==> LastIs(entries, k, InsertAll(m, entries)[k])
    ensures forall k :: k in m && !Mentions(entries, k) ==> k in InsertAll(m, entries) && InsertAll(m, entries)[k] == m[k]
    decreases |entries|
  {
    if entries != [] {
      var m', rest := m[entries[0].0 := entries[0].1], entries[1..];
      InsertAllLastWinsFrom(m', rest);
      var r := InsertAll(m, entries);
      assert r == InsertAll(m', rest);
      forall k | k in r && Mentions(entries, k)
        ensures LastIs(entries, k, r[k])
      {
        MentionsCons(entries, k);
        LastIsCons(entries, k, r[k]);
      }
      forall k | k in m && !Mentions(entries, k)
        ensures k in r && r[k] == m[k]
      {
        MentionsCons(entries, k);
      }
    }
  }

  /** Inserting the pairs into an empty map agrees with the last-wins reference, in both directions. */
  lemma InsertAllLastWins<K, V>(entries: seq<(K, V)>)
    ensures LastWins(InsertAll(map[], entries), entries)
  {
    InsertAllLastWinsFrom(map[], entries);
    InsertAllKeys(map[], entries);
    var r := InsertAll(map[], entries);
    forall k | k in r
      ensures LastIs(entries, k, r[k])
    {
      var i :| 0 <= i < |entries| && entries[i].0 == k;
      assert Mentions(entries, k);
    }
  }

  /** The keys `i / 2` for `i` in 0..8, in insertion order. */
  const HALVES: seq<(int, bool)> := [(0, true), (0, true), (1, true), (1, true), (2, true), (2, true), (3, true), (3, true)]

  lemma HalvesKeys()
    ensures InsertAll(map[], HALVES).Keys == {0, 1, 2, 3}
  {
    InsertAllKeys(map[], HALVES);
    var keys := set i | 0 <= i < |HALVES| :: HALVES[i].0;
    forall x | x in keys
      ensures x in {0, 1, 2, 3}
    {
      var i :| 0 <= i < |HALVES| && HALVES[i].0 == x;
    }
    assert HALVES[0].0 == 0 && HALVES[2].0 == 1 && HALVES[4].0 == 2 && HALVES[6].0 == 3;
  }

  lemma MapSize<K, V>(m: map<K, V>, keys: set<K>)
    requires m.Keys == keys
    ensures |m| == |keys|
  {
  }

  /** `can_get_the_length`: inserting `i / 2` for `i` in 0..8 leaves four keys. */
  lemma FourDistinctKeys()
    ensures |InsertAll(map[], HALVES)| == 4
  {
    var m := InsertAll(map[], HALVES);
    HalvesKeys();
    FourKeys();
    MapSize(m, {0, 1, 2, 3});
  }

  lemma FourKeys()
    ensures |{0, 1, 2, 3}| == 4
  {
  }

  class HashMap<K(==), V> {
    var nodes: NodeStorage<K, V>
    const hasher: K -> bv64
    ghost var Repr: set<object>

    /** The storage invariant, and every stored hash is the hash of its key. */
    ghost predicate Valid()
      reads this, Repr
    {
      this in Repr && nodes in Repr && Repr == {this, nodes} &&
      nodes.Valid() &&
      HashedBy(nodes.Hashes, hasher)
    }

    /** The entries of the map. */
    ghost function Entries(): map<K, V>
      reads this, nodes
    {
      nodes.Contents
    }

    function Hash(key: K): (h: HashType)
      ensures h == HashOf(hasher, key)
    {
      HashOf(hasher, key)
    }

    /** `with_size_in`: an empty map with `size` buckets; panics unless `size` is a power of two. */
    constructor WithSize(hasher: K -> bv64, size: nat)
      requires IsPowerOfTwo(size) && size <= MAX_BACKING_SIZE
      ensures Valid() && fresh(Repr)
      ensures Entries() == map[] && |nodes.nodes| == size && this.hasher == hasher
    {
      nodes := new NodeStorage.WithSizeIn(size);
      this.hasher := hasher;
      new;
      Repr := {this, nodes};
    }

    /** `new_in` / `new`: an empty map of 16 buckets. */
    constructor New(hasher: K -> bv64)
      ensures Valid() && fresh(Repr)
      ensures Entries() == map[] && |nodes.nodes| == DEFAULT_SIZE && this.hasher == hasher
    {
      assert IsPowerOfTwo(2) && IsPowerOfTwo(4) && IsPowerOfTwo(8) && IsPowerOfTwo(16);
      nodes := new NodeStorage.WithSizeIn(DEFAULT_SIZE);
      this.hasher := hasher;
      new;
      Repr := {this, nodes};
    }

    /**
     * `with_capacity_in`: the first of the sizes 1, 2, 4, ..., 2^31 whose
     * capacity exceeds `capacity`; panics when none does.
     */
    static method WithCapacity(hasher: K -> bv64, capacity: nat) returns (m: HashMap<K, V>)
      requires capacity < NumberBeforeResize(MAX_BACKING_SIZE)
      ensures m.Valid() && fresh(m.Repr) && m.Entries() == map[] && m.hasher == hasher
      ensures IsPowerOfTwo(|m.nodes.nodes|) && NumberBeforeResize(|m.nodes.nodes|) > capacity
      ensures |m.nodes.nodes| == 1 || NumberBeforeResize(|m.nodes.nodes| / 2) <= capacity
    {
      Pow2Is31();
      var i: nat := 0;
      while true
        invariant i < 32
        invariant i > 0 ==> NumberBeforeResize(Pow2(i - 1)) <= capacity
        decreases 32 - i
      {
        var attemptedSize := Pow2(i);
        if NumberBeforeResize(attemptedSize) > capacity {
          Pow2IsPowerOfTwo(i);
          Pow2Monotone(i, 31);
          m := new HashMap.WithSize(hasher, attemptedSize);
          return;
        }
        i := i + 1;
      }
    }

    /** `len()`. */
    function Len(): (r: nat)
      reads this, Repr
      requires Valid()
      ensures r == |Entries()|
    {
      nodes.Len()
    }

    /** `capacity()`: the number of entries before the next insert of a new key doubles the table. */
    function Capacity(): (r: nat)
      reads this, Repr
      requires Valid()
      ensures r == NumberBeforeResize(|nodes.nodes|) && r >= Len()
    {
      nodes.Capacity()
    }

    /** `is_empty()`. */
    function IsEmpty(): (r: bool)
      reads this, Repr
      requires Valid()
      ensures r <==> Entries() == map[]
    {
      Len() == 0
    }

    /**
     * `resize`: move every entry into a table of `newSize` buckets, unless it
     * already has that size; panics if the table would shrink.
     */
    method Resize(newSize: nat)
      requires Valid() && newSize >= |nodes.nodes|
      requires IsPowerOfTwo(newSize) && newSize <= MAX_BACKING_SIZE && Len() <= NumberBeforeResize(newSize)
      modifies Repr
      ensures Valid() && fresh(Repr - old(Repr))
      ensures Entries() == old(Entries()) && |nodes.nodes| == newSize
    {
      if newSize == nodes.BackingVecSize() {
        return;
      }
      nodes := nodes.ResizedTo(newSize);
      Repr := {this, nodes};
    }

    /** Doubling before an insert into a full table: `self.resize(backing_vec_size * 2)` when `capacity <= len`. */
    method GrowIfFull()
      requires Valid()
      requires Len() >= Capacity() ==> |nodes.nodes| < MAX_BACKING_SIZE
      modifies Repr
      ensures Valid() && fresh(Repr - old(Repr)) && Entries() == old(Entries())
      ensures |nodes.nodes| == if old(Capacity()) <= old(Len()) then 2 * old(|nodes.nodes|) else old(|nodes.nodes|)
      ensures Len() < Capacity()
    {
      if nodes.Capacity() <= Len() {
        var size := nodes.BackingVecSize();
        Doubling(size);
        Resize(size * 2);
      }
    }

    /**
     * `insert`: a present key gets the new value and the old one comes back;
     * an absent key is added, after doubling the table if it is full.
     */
    method Insert(key: K, value: V) returns (r: Option<V>)
      requires Valid()
      requires key !in Entries() && Len() >= Capacity() ==> |nodes.nodes| < MAX_BACKING_SIZE
      modifies Repr
      ensures Valid() && fresh(Repr - old(Repr))
      ensures Entries() == old(Entries())[key := value]
      ensures r == if key in old(Entries()) then Some(old(Entries())[key]) else None
      ensures |nodes.nodes| ==
        if key !in old(Entries()) && old(Capacity()) <= old(Len()) then 2 * old(|nodes.nodes|) else old(|nodes.nodes|)
    {
      var hash := Hash(key);
      var location := nodes.Location(key, hash);
      if location.Some? {
        var previous := nodes.ReplaceAtLocation(location.value, key, value);
        r := Some(previous);
      } else {
        var inserted := InsertNewAndGet(key, value, hash);
        r := None;
      }
    }

    /**
     * `insert_new_and_get`: add an absent key with its hash, doubling the table
     * first if it is full; the key's bucket comes back.
     */
    method InsertNewAndGet(key: K, value: V, hash: HashType) returns (location: nat)
      requires Valid() && key !in Entries() && hash == Hash(key)
      requires Len() >= Capacity() ==> |nodes.nodes| < MAX_BACKING_SIZE
      modifies Repr
      ensures Valid() && fresh(Repr - old(Repr))
      ensures Entries() == old(Entries())[key := value]
      ensures location < |nodes.nodes| && nodes.nodes[location].Occupied?
      ensures nodes.nodes[location] == Occupied(hash, nodes.nodes[location].dist, key, value)
      ensures |nodes.nodes| == if old(Capacity()) <= old(Len()) then 2 * old(|nodes.nodes|) else old(|nodes.nodes|)
    {
      GrowIfFull();
      location := nodes.InsertNew(key, value, hash);
      nodes.Stored(key);
    }

    /** `contains_key`. */
    method ContainsKey(key: K) returns (b: bool)
      requires Valid()
      ensures b <==> key in Entries()
    {
      var location := nodes.Location(key, Hash(key));
      b := location.Some?;
    }

    /** `get_key_value`. */
    method GetKeyValue(key: K) returns (r: Option<(K, V)>)
      requires Valid()
      ensures r.Some? <==> key in Entries()
      ensures r.Some? ==> r.value == (key, Entries()[key])
    {
      var location := nodes.Location(key, Hash(key));
      if location.Some? {
        var kv := KeyValueRef(nodes.nodes[location.value]);
        r := kv;
      } else {
        r := None;
      }
    }

    /** `get`. */
    method Get(key: K) returns (r: Option<V>)
      requires Valid()
      ensures r == if key in Entries() then Some(Entries()[key]) else None
    {
      var kv := GetKeyValue(key);
      r := if kv.Some? then Some(kv.value.1) else None;
    }

    /** `Index`: `map[key]`, which panics when the key is absent. */
    method Index(key: K) returns (v: V)
      requires Valid() && key in Entries()
      ensures v == Entries()[key]
    {
      var r := Get(key);
      v := r.value;
    }

    /** `remove`: the value of a present key, which leaves the map. */
    method Remove(key: K) returns (r: Option<V>)
      requires Valid()
      modifies Repr
      ensures Valid() && Repr == old(Repr)
      ensures Entries() == old(Entries()) - {key}
      ensures r == if key in old(Entries()) then Some(old(Entries())[key]) else None
    {
      var location := nodes.Location(key, Hash(key));
      if location.Some? {
        ghost var hashes := nodes.Hashes;
        var value := nodes.RemoveFromLocation(location.value);
        HashedByRemove(hashes, hasher, key);
        r := Some(value);
      } else {
        assert key !in nodes.Contents;
        assert nodes.Contents - {key} == nodes.Contents;
        r := None;
      }
    }

    /**
     * `keys()`: the keys the map's iterator visits, collected in bucket
     * order. `Iter::next` scans the buckets from the first and yields each
     * occupied one; every key comes out exactly once, so the iterator's
     * exact size is `len()`.
     */
    method Keys() returns (ks: seq<K>)
      requires Valid()
      ensures forall k :: k in ks <==> k in Entries()
      ensures Distinct(ks) && |ks| == Len()
    {
      ghost var c, w, h := nodes.Contents, nodes.Where, nodes.Hashes;
      var buckets := nodes.nodes;
      ks := [];
      var at := 0;
      while at < |buckets|
        invariant at <= |buckets| && ListsBelow(ks, c, w, at)
      {
        var key := KeyRef(buckets[at]);
        ListStep(buckets, c, w, h, ks, at);
        if key.Some? {
          ks := ks + [key.value];
        }
        at := at + 1;
      }
      ListedAll(buckets, c, w, h, ks);
      DistinctCard(ks, c.Keys);
    }

    /** `retain`: keep exactly the entries satisfying `f`. */
    method Retain(f: (K, V) -> bool)
      requires Valid()
      modifies Repr
      ensures Valid() && Repr == old(Repr)
      ensures Entries() == Kept(old(Entries()), f)
    {
      nodes.Retain(f);
    }

    /** The entry is a live view of this map: its bucket still holds its key, or its key is still absent. */
    ghost predicate Current(e: Entry<K>)
      reads this, Repr
    {
      Valid() &&
      match e
      case OccupiedEntry(key, location) => key in nodes.Where && nodes.Where[key] == location && key in Entries()
      case VacantEntry(key, hash) => key !in Entries() && hash == Hash(key)
    }

    /** `entry`: occupied when the key is present, vacant otherwise. */
    method EntryOf(key: K) returns (e: Entry<K>)
      requires Valid()
      ensures Current(e) && e.key == key
      ensures e.OccupiedEntry? <==> key in Entries()
    {
      var hash := Hash(key);
      var location := nodes.Location(key, hash);
      if location.Some? {
        e := OccupiedEntry(key, location.value);
      } else {
        e := VacantEntry(key, hash);
      }
    }

    /** `OccupiedEntry::get`: the value in the entry's bucket. */
    function EntryGet(e: Entry<K>): (v: V)
      reads this, Repr
      requires Current(e) && e.OccupiedEntry?
      ensures v == Entries()[e.key]
    {
      nodes.Stored(e.key);
      nodes.nodes[e.location].value
    }

    /** `OccupiedEntry::insert`: a new value in the entry's bucket; the old one comes back. */
    method OccupiedInsert(e: Entry<K>, value: V) returns (previous: V)
      requires Current(e) && e.OccupiedEntry?
      modifies Repr
      ensures Current(e) && Repr == old(Repr)
      ensures previous == old(Entries())[e.key] && Entries() == old(Entries())[e.key := value]
    {
      nodes.Stored(e.key);
      previous := nodes.ReplaceAtLocation(e.location, e.key, value);
    }

    /** `OccupiedEntry::remove` and `remove_entry`: the entry's key leaves the map. */
    method OccupiedRemove(e: Entry<K>) returns (entry: (K, V))
      requires Current(e) && e.OccupiedEntry?
      modifies Repr
      ensures Valid() && Repr == old(Repr)
      ensures entry == (e.key, old(Entries())[e.key]) && Entries() == old(Entries()) - {e.key}
    {
      nodes.Stored(e.key);
      var value := nodes.RemoveFromLocation(e.location);
      entry := (e.key, value);
    }

    /**
     * `VacantEntry::insert` (`insert_new_and_get`): add the absent key with
     * the hash the entry remembers, doubling the table first if it is full.
     */
    method VacantInsert(e: Entry<K>, value: V) returns (v: V)
      requires Current(e) && e.VacantEntry?
      requires Len() >= Capacity() ==> |nodes.nodes| < MAX_BACKING_SIZE
      modifies Repr
      ensures Valid() && fresh(Repr - old(Repr))
      ensures v == value && Entries() == old(Entries())[e.key := value]
    {
      var location := InsertNewAndGet(e.key, value, e.hash);
      v := nodes.nodes[location].value;
    }

    /** `Entry::or_insert`: the present value, or `value` newly inserted. */
    method OrInsert(e: Entry<K>, value: V) returns (v: V)
      requires Current(e)
      requires e.VacantEntry? && Len() >= Capacity() ==> |nodes.nodes| < MAX_BACKING_SIZE
      modifies Repr
      ensures Valid() && fresh(Repr - old(Repr))
      ensures Entries() == if e.OccupiedEntry? then old(Entries()) else old(Entries())[e.key := value]
      ensures e.key in Entries() && v == Entries()[e.key]
    {
      if e.OccupiedEntry? {
        v := EntryGet(e);
      } else {
        v := VacantInsert(e, value);
      }
    }

    /** `Entry::or_insert_with_key`: as `or_insert`, with the value computed from the key only when needed. */
    method OrInsertWithKey(e: Entry<K>, f: K -> V) returns (v: V)
      requires Current(e)
      requires e.VacantEntry? && Len() >= Capacity() ==> |nodes.nodes| < MAX_BACKING_SIZE
      modifies Repr
      ensures Valid() && fresh(Repr - old(Repr))
      ensures Entries() == if e.OccupiedEntry? then old(Entries()) else old(Entries())[e.key := f(e.key)]
      ensures e.key in Entries() && v == Entries()[e.key]
    {
      if e.OccupiedEntry? {
        v := EntryGet(e);
      } else {
        v := VacantInsert(e, f(e.key));
      }
    }

    /** `Entry::and_modify`: apply `f` to the value of an occupied entry; a vacant entry is left alone. */
    method AndModify(e: Entry<K>, f: V -> V) returns (e': Entry<K>)
      requires Current(e)
      modifies Repr
      ensures Current(e') && e' == e && Repr == old(Repr)
      ensures Entries() == if e.OccupiedEntry? then old(Entries())[e.key := f(old(Entries())[e.key])] else old(Entries())
    {
      if e.OccupiedEntry? {
        var current := EntryGet(e);
        var previous := OccupiedInsert(e, f(current));
      }
      e' := e;
    }

    /**
     * `extend`: insert the pairs in order. The table may double along the
     * way; the bound keeps it within 2^31 buckets.
     */
    method Extend(entries: seq<(K, V)>)
      requires Valid() && |Entries()| + |entries| <= NumberBeforeResize(MAX_BACKING_SIZE)
      modifies Repr
      ensures Valid() && fresh(Repr - old(Repr))
      ensures Entries() == InsertAll(old(Entries()), entries)
    {
      ghost var target := InsertAll(Entries(), entries);
      var i := 0;
      while i < |entries|
        invariant i <= |entries| && Valid() && fresh(Repr - old(Repr))
        invariant |Entries()| + |entries| - i <= NumberBeforeResize(MAX_BACKING_SIZE)
        invariant InsertAll(Entries(), entries[i..]) == target
      {
        InsertNext(entries, i);
        i := i + 1;
      }
      assert entries[i..] == [];
    }

    /** One step of `extend`: insert pair `i`; what is left to insert shrinks by that pair. */
    method InsertNext(entries: seq<(K, V)>, i: nat)
      requires Valid() && i < |entries| && |Entries()| + |entries| - i <= NumberBeforeResize(MAX_BACKING_SIZE)
      modifies Repr
      ensures Valid() && fresh(Repr - old(Repr))
      ensures |Entries()| + |entries| - (i + 1) <= NumberBeforeResize(MAX_BACKING_SIZE)
      ensures InsertAll(Entries(), entries[i + 1..]) == InsertAll(old(Entries()), entries[i..])
    {
      ghost var before := Entries();
      var r := Insert(entries[i].0, entries[i].1);
      InsertAllStep(before, entries, i);
    }

    /** `FromIterator::from_iter`: `new()` followed by `extend`. */
    static method FromIter(hasher: K -> bv64, entries: seq<(K, V)>) returns (m: HashMap<K, V>)
      requires |entries| <= NumberBeforeResize(MAX_BACKING_SIZE)
      ensures m.Valid() && fresh(m.Repr)
      ensures m.Entries() == InsertAll(map[], entries)
    {
      m := new HashMap.New(hasher);
      m.Extend(entries);
    }
  }

  /** Inserting pair `i` first and then the rest is inserting the pairs from `i` on; it adds at most one key. */
  lemma InsertAllStep<K, V>(m: map<K, V>, entries: seq<(K, V)>, i: nat)
    requires i < |entries|
    ensures InsertAll(m[entries[i].0 := entries[i].1], entries[i + 1..]) == InsertAll(m, entries[i..])
    ensures |m[entries[i].0 := entries[i].1]| <= |m| + 1
  {
    assert entries[i..][1..] == entries[i + 1..];
  }

  /** A power of two no larger than 2^k stays within 2^k when doubled, unless it is 2^k. */
  lemma {:induction false} PowerOfTwoBelow(n: nat, k: nat)
    requires IsPowerOfTwo(n) && n < Pow2(k)
    ensures 2 * n <= Pow2(k)
  {
    if n > 1 {
      PowerOfTwoBelow(n / 2, k - 1);
    }
  }

  lemma {:induction false} StrictSubsetCardinality<T>(a: set<T>, b: set<T>)
    requires a <= b && |a| == |b|
    ensures a == b
  {
    if a != b {
      var x :| x in b && x !in a;
      SubsetCardinality(a, b - {x});
    }
  }

  /** Every entry of `ca` in a bucket before `i` is in `cb` with the same value. */
  ghost predicate FoundBelow<K, V>(ca: map<K, V>, wa: map<K, nat>, cb: map<K, V>, i: nat)
  {
    forall k :: k in ca && k in wa && wa[k] < i ==> k in cb && cb[k] == ca[k]
  }

  lemma FoundStep<K, V>(s: seq<Node<K, V>>, ca: map<K, V>, wa: map<K, nat>, ha: map<K, HashType>, cb: map<K, V>, i: nat)
    requires IndexedExcept(s, ca, wa, ha, {}) && i < |s| && FoundBelow(ca, wa, cb, i)
    requires s[i].Occupied? ==> s[i].key in cb && cb[s[i].key] == s[i].value
    ensures FoundBelow(ca, wa, cb, i + 1)
  {
    forall k | k in ca && k in wa && wa[k] == i
      ensures k in cb && cb[k] == ca[k]
    {
      assert StoredIn(s[i], i, ca, wa, ha);
    }
  }

  /** An entry of `ca` missing from `cb`, or there with another value, makes the two differ. */
  lemma Mismatch<K, V>(s: seq<Node<K, V>>, ca: map<K, V>, wa: map<K, nat>, ha: map<K, HashType>, cb: map<K, V>, i: nat)
    requires IndexedExcept(s, ca, wa, ha, {}) && i < |s| && s[i].Occupied?
    requires !(s[i].key in cb && cb[s[i].key] == s[i].value)
    ensures ca != cb
  {
    assert StoredIn(s[i], i, ca, wa, ha);
  }

  /** Once every bucket is scanned, each entry of `ca` is in `cb`; equal sizes then make the maps equal. */
  lemma FoundAll<K, V>(s: seq<Node<K, V>>, ca: map<K, V>, wa: map<K, nat>, ha: map<K, HashType>, cb: map<K, V>)
    requires IndexedExcept(s, ca, wa, ha, {}) && wa.Keys == ca.Keys
    requires FoundBelow(ca, wa, cb, |s|) && |ca| == |cb|
    ensures ca == cb
  {
    forall k | k in ca
      ensures k in cb && cb[k] == ca[k]
    {
      assert wa[k] < |s|;
    }
    StrictSubsetCardinality(ca.Keys, cb.Keys);
  }

  /**
   * `PartialEq::eq`: equal lengths, and every entry of `a` found in `b` with
   * an equal value; this holds exactly when the two hold the same entries.
   */
  method MapsEqual<K(==), V(==)>(a: HashMap<K, V>, b: HashMap<K, V>) returns (r: bool)
    requires a.Valid() && b.Valid()
    ensures r <==> a.Entries() == b.Entries()
  {
    if a.Len() != b.Len() {
      return false;
    }
    ghost var ca, wa, ha, cb := a.nodes.Contents, a.nodes.Where, a.nodes.Hashes, b.nodes.Contents;
    var buckets := a.nodes.nodes;
    var i := 0;
    while i < |buckets|
      invariant i <= |buckets| && FoundBelow(ca, wa, cb, i)
    {
      var kv := KeyValueRef(buckets[i]);
      if kv.Some? {
        var found := b.Get(kv.value.0);
        if found != Some(kv.value.1) {
          Mismatch(buckets, ca, wa, ha, cb, i);
          return false;
        }
      }
      FoundStep(buckets, ca, wa, ha, cb, i);
      i := i + 1;
    }
    FoundAll(buckets, ca, wa, ha, cb);
    r := true;
  }

  /** No element of `s` occurs twice. */
  predicate Distinct<T(==)>(s: seq<T>)
  {
    forall i, j :: 0 <= i < j < |s| ==> s[i] != s[j]
  }

  /** A repetition-free sequence has as many elements as the set it enumerates. */
  lemma {:induction false} DistinctCard<T>(s: seq<T>, e: set<T>)
    requires Distinct(s) && forall x :: x in s <==> x in e
    ensures |s| == |e|
  {
    if s != [] {
      var rest := s[1..];
      assert Distinct(rest);
      forall x
        ensures x in rest <==> x in e - {s[0]}
      {
        if x in rest {
          var j :| 0 <= j < |rest| && rest[j] == x;
          assert s[j + 1] == x;
        }
        if x in s && x != s[0] {
          var j :| 0 <= j < |s| && s[j] == x;
          assert rest[j - 1] == x;
        }
      }
      DistinctCard(rest, e - {s[0]});
    }
  }

  /** The keys of the buckets before `i`, each listed once in `ks`. */
  ghost predicate ListsBelow<K, V>(ks: seq<K>, c: map<K, V>, w: map<K, nat>, i: nat)
  {
    Distinct(ks) &&
    (forall j :: 0 <= j < |ks| ==> ks[j] in c && ks[j] in w && w[ks[j]] < i) &&
    (forall k :: k in c && k in w && w[k] < i ==> k in ks)
  }

  lemma ListStep<K, V>(s: seq<Node<K, V>>, c: map<K, V>, w: map<K, nat>, h: map<K, HashType>, ks: seq<K>, i: nat)
    requires IndexedExcept(s, c, w, h, {}) && i < |s| && ListsBelow(ks, c, w, i)
    ensures ListsBelow(if s[i].Occupied? then ks + [s[i].key] else ks, c, w, i + 1)
  {
    if s[i].Occupied? {
      assert StoredIn(s[i], i, c, w, h);
      var ks' := ks + [s[i].key];
      assert forall j :: 0 <= j < |ks| ==> ks'[j] == ks[j];
    } else {
      forall k | k in c && k in w && w[k] == i
        ensures false
      {
      }
    }
  }

  lemma ListedAll<K, V>(s: seq<Node<K, V>>, c: map<K, V>, w: map<K, nat>, h: map<K, HashType>, ks: seq<K>)
    requires IndexedExcept(s, c, w, h, {}) && w.Keys == c.Keys && ListsBelow(ks, c, w, |s|)
    ensures forall k :: k in ks <==> k in c
  {
  }
}
