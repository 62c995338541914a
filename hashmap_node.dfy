/**
 * One bucket of the Robin Hood table (agb-hashmap/src/node.rs) and the
 * table's hash type (agb-hashmap/src/lib.rs). The Rust node keeps its key
 * and value in `MaybeUninit` slots and marks them uninitialised with a
 * distance of -1; here the two states are the two constructors, and
 * `Distance()` recovers the integer the Rust code stores.
 */
module HashNode {
  import opened Wrappers
  import opened Bits

  /** `HashType` is a wrapped `u32`. */
  type HashType = u32

  /** `HashType::fast_mod`: `hash & (len - 1)`, for a power-of-two length. */
  function FastMod(hash: HashType, len: nat): (r: nat)
    requires IsPowerOfTwo(len)
    ensures r == hash % len && r < len
  {
    BitAndMask(hash, len);
    BitAnd(hash, len - 1)
  }

  /** `HashType + i32`: `u32::wrapping_add_signed`. */
  function AddDistance(hash: HashType, distance: int): (r: HashType)
  {
    WrappingAddU32(hash, distance)
  }

  /** The bucket `distance` steps after the initial bucket of `hash`, in a table of power-of-two size. */
  lemma ProbeSlot(hash: HashType, distance: nat, len: nat)
    requires IsPowerOfTwo(len) && len <= U32_MODULUS
    ensures FastMod(AddDistance(hash, distance), len) == (hash + distance) % len
  {
    ModulusMultipleOf(len);
    var wrapped := AddDistance(hash, distance);
    assert wrapped == (hash + distance) % U32_MODULUS;
    ModOfMultipleMod(hash + distance, len, U32_MODULUS);
    assert FastMod(wrapped, len) == wrapped % len;
  }

  /** `HashType::bit_mix`, the 32-bit mixer the map applies to the folded 64-bit hash. */
  function BitMix(key: bv32): bv32
  {
    var k1 := key ^ (key >> 16);
    var k2 := k1 * 0x7feb352d;
    var k3 := k2 ^ (k2 >> 15);
    var k4 := k3 * 0x846ca68b;
    k4 ^ (k4 >> 16)
  }

  /** `HashMap::hash`: fold the 64-bit hasher output to 32 bits, then mix. */
  function FoldHash(result: bv64): (r: HashType)
  {
    var reduced := ((result & 0xFFFF_FFFF) as bv32) ^ ((result >> 32) as bv32);
    BitMix(reduced) as int
  }

  /**
   * A bucket: `Vacant` is distance -1 with uninitialised key and value,
   * `Occupied` carries the stored hash, the distance to the initial bucket,
   * the key and the value.
   */
  datatype Node<K, V> = Vacant | Occupied(hash: HashType, dist: nat, key: K, value: V)
  {
    /** `distance()`: the stored distance, -1 for an empty bucket. */
    function Distance(): (d: int)
      ensures d >= -1
      ensures d == -1 <==> Vacant?
    {
      if Occupied? then dist else -1
    }

    /** `has_value()`: a bucket holds a key and value exactly when its distance is non-negative. */
    predicate HasValue()
      ensures HasValue() <==> Distance() >= 0
    {
      Occupied?
    }
  }

  /** `Node::new()` (also `Default`): an empty bucket. */
  function NewNode<K, V>(): (n: Node<K, V>)
    ensures n.Distance() == -1 && !n.HasValue()
  {
    Vacant
  }

  /** `Node::new_with`: an occupied bucket at distance 0 from its initial bucket. */
  function NewWith<K, V>(key: K, value: V, hash: HashType): (n: Node<K, V>)
    ensures n.HasValue() && n.Distance() == 0
    ensures n.key == key && n.value == value && n.hash == hash
  {
    Occupied(hash, 0, key, value)
  }

  /** `key_ref()`. */
  function KeyRef<K, V>(n: Node<K, V>): (r: Option<K>)
    ensures r.Some? <==> n.Distance() >= 0
    ensures r.Some? ==> r.value == n.key
  {
    if n.Occupied? then Some(n.key) else None
  }

  /** `key_value_ref()`. */
  function KeyValueRef<K, V>(n: Node<K, V>): (r: Option<(K, V)>)
    ensures r.Some? <==> n.HasValue()
    ensures r.Some? ==> r.value == (n.key, n.value)
  {
    if n.Occupied? then Some((n.key, n.value)) else None
  }

  /**
   * `take_key_value()`: returns the key, value and hash and leaves the bucket
   * empty; an empty bucket gives `None` and stays empty.
   */
  function TakeKeyValue<K, V>(n: Node<K, V>): (r: (Option<(K, V, HashType)>, Node<K, V>))
    ensures !r.1.HasValue()
    ensures r.0.Some? <==> n.HasValue()
    ensures r.0.Some? ==> r.0.value == (n.key, n.value, n.hash)
  {
    if n.Occupied? then (Some((n.key, n.value, n.hash)), Vacant) else (None, n)
  }

  /**
   * `replace(key, value)`: swaps in a new key and value and returns the old
   * pair; the distance and hash stay. Panics on an empty bucket.
   */
  function Replace<K, V>(n: Node<K, V>, key: K, value: V): (r: ((K, V), Node<K, V>))
    requires n.HasValue()
    ensures r.0 == (n.key, n.value)
    ensures r.1.HasValue() && r.1.key == key && r.1.value == value
    ensures r.1.Distance() == n.Distance() && r.1.hash == n.hash
  {
    ((n.key, n.value), n.(key := key, value := value))
  }

  /** `replace_value_unchecked(value)`: the old value out, the new value in. */
  function ReplaceValue<K, V>(n: Node<K, V>, value: V): (r: (V, Node<K, V>))
    requires n.HasValue()
    ensures r.0 == n.value
    ensures r.1 == Occupied(n.hash, n.dist, n.key, value)
  {
    (n.value, n.(value := value))
  }

  /** `increment_distance()`. */
  function IncrementDistance<K, V>(n: Node<K, V>): (r: Node<K, V>)
    requires n.HasValue()
    ensures r.HasValue() && r.Distance() == n.Distance() + 1
    ensures r.key == n.key && r.value == n.value && r.hash == n.hash
  {
    n.(dist := n.dist + 1)
  }

  /** `decrement_distance()`: asserts that the distance stays non-negative. */
  function DecrementDistance<K, V>(n: Node<K, V>): (r: Node<K, V>)
    requires n.Distance() - 1 >= 0
    ensures r.HasValue() && r.Distance() == n.Distance() - 1
    ensures r.key == n.key && r.value == n.value && r.hash == n.hash
  {
    n.(dist := n.dist - 1)
  }
}
