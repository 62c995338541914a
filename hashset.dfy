/**
 * `HashSet` (agb-hashmap/src/hash_set.rs): a `HashMap<K, ()>` whose keys
 * are the elements. The set operations of the Rust code are lazy iterator
 * adaptors (`filter`, `chain`); here each one runs to completion and
 * returns the sequence of elements it would yield.
 */
module AgbHashSet {
  import opened Wrappers
  import opened Bits
  import opened HashStorage
  import opened AgbHashMap

  class HashSet<K(==)> {
    const inner: HashMap<K, ()>

    ghost predicate Valid()
      reads inner, inner.Repr
    {
      inner.Valid()
    }

    /** The elements of the set: the keys of the inner map. */
    ghost function Elements(): set<K>
      reads inner, inner.nodes
    {
      inner.Entries().Keys
    }

    /** `new` / `new_in`. */
    constructor New(hasher: K -> bv64)
      ensures Valid() && fresh(inner.Repr) && Elements() == {}
      ensures |inner.nodes.nodes| == DEFAULT_SIZE
    {
      inner := new HashMap.New(hasher);
    }

    /** `with_size` / `with_size_in`: panics unless `size` is a power of two. */
    constructor WithSize(hasher: K -> bv64, size: nat)
      requires IsPowerOfTwo(size) && size <= MAX_BACKING_SIZE
      ensures Valid() && fresh(inner.Repr) && Elements() == {}
      ensures |inner.nodes.nodes| == size
    {
      inner := new HashMap.WithSize(hasher, size);
    }

    /** `with_capacity` / `with_capacity_in`: room for `capacity` elements before the first resize. */
    constructor WithCapacity(hasher: K -> bv64, capacity: nat)
      requires capacity < NumberBeforeResize(MAX_BACKING_SIZE)
      ensures Valid() && fresh(inner.Repr) && Elements() == {}
      ensures Capacity() > capacity
    {
      var m := HashMap.WithCapacity(hasher, capacity);
      inner := m;
    }

    /** `len()`. */
    function Len(): (r: nat)
      reads inner, inner.Repr
      requires Valid()
      ensures r == |Elements()|
    {
      inner.Len()
    }

    /** `is_empty()`. */
    function IsEmpty(): (r: bool)
      reads inner, inner.Repr
      requires Valid()
      ensures r <==> Elements() == {}
    {
      inner.IsEmpty()
    }

    /** `capacity()`. */
    function Capacity(): (r: nat)
      reads inner, inner.Repr
      requires Valid()
      ensures r == NumberBeforeResize(|inner.nodes.nodes|) && r >= Len()
    {
      inner.Capacity()
    }

    /** `iter()`: every element once. */
    method Iter() returns (ks: seq<K>)
      requires Valid()
      ensures forall k :: k in ks <==> k in Elements()
      ensures Distinct(ks) && |ks| == Len()
    {
      ks := inner.Keys();
    }

    /** `retain`: keep exactly the elements satisfying `f`. */
    method Retain(f: K -> bool)
      requires Valid()
      modifies inner.Repr
      ensures Valid() && inner.Repr == old(inner.Repr)
      ensures Elements() == set k | k in old(Elements()) && f(k)
    {
      ghost var before := inner.Entries();
      var g := (k: K, u: ()) => f(k);
      inner.Retain(g);
      KeysKept(before, f, g);
    }

    /**
     * `insert`: true exactly when the value was absent; the value is then
     * an element. Inserting a new value into a full table doubles it first.
     */
    method Insert(value: K) returns (added: bool)
      requires Valid()
      requires value !in Elements() && Len() >= Capacity() ==> |inner.nodes.nodes| < MAX_BACKING_SIZE
      modifies inner.Repr
      ensures Valid() && fresh(inner.Repr - old(inner.Repr))
      ensures Elements() == old(Elements()) + {value}
      ensures added <==> value !in old(Elements())
    {
      ghost var before := inner.Entries();
      var r := inner.Insert(value, ());
      KeysAfterPut(before, value, ());
      added := r.None?;
    }

    /** `remove`: true exactly when the value was present; afterwards it is not. */
    method Remove(value: K) returns (removed: bool)
      requires Valid()
      modifies inner.Repr
      ensures Valid() && inner.Repr == old(inner.Repr)
      ensures Elements() == old(Elements()) - {value}
      ensures removed <==> value in old(Elements())
    {
      ghost var before := inner.Entries();
      var r := inner.Remove(value);
      KeysAfterRemove(before, value);
      removed := r.Some?;
    }

    /** `contains`. */
    method Contains(value: K) returns (b: bool)
      requires Valid()
      ensures b <==> value in Elements()
    {
      b := inner.ContainsKey(value);
    }

    /** `difference`: the elements of this set that are not in `other`. */
    method Difference(other: HashSet<K>) returns (r: seq<K>)
      requires Valid() && other.Valid()
      ensures forall k :: k in r <==> k in Elements() && k !in other.Elements()
      ensures Distinct(r)
    {
      var ks := Iter();
      r := Filter(ks, other, false);
    }

    /** `symmetric_difference`: the elements of exactly one of the two sets. */
    method SymmetricDifference(other: HashSet<K>) returns (r: seq<K>)
      requires Valid() && other.Valid()
      ensures forall k :: k in r <==> (k in Elements() <==> k !in other.Elements())
      ensures Distinct(r)
    {
      ghost var a, b := Elements(), other.Elements();
      var mine := Difference(other);
      var theirs := other.Difference(this);
      Chain(mine, theirs, a - b, b - a);
      r := mine + theirs;
    }

    /** `intersection`: scans the smaller set and keeps what the larger one contains. */
    method Intersection(other: HashSet<K>) returns (r: seq<K>)
      requires Valid() && other.Valid()
      ensures forall k :: k in r <==> k in Elements() && k in other.Elements()
      ensures Distinct(r)
    {
      var smaller, larger := this, other;
      if other.Len() <= Len() {
        smaller, larger := other, this;
      }
      var ks := smaller.Iter();
      r := Filter(ks, larger, true);
    }

    /**
     * `union` as the Rust code writes it: the larger set, then
     * `smaller.difference(self)`. When this set is the smaller one, that
     * difference is empty and this set's own elements are lost.
     */
    method UnionAsWritten(other: HashSet<K>) returns (r: seq<K>)
      requires Valid() && other.Valid()
      ensures Len() < other.Len() ==> forall k :: k in r <==> k in other.Elements()
      ensures Len() >= other.Len() ==> forall k :: k in r <==> k in Elements() || k in other.Elements()
      ensures Distinct(r)
    {
      if Len() < other.Len() {
        r := ChainDifference(other, this, this);
      } else {
        r := ChainDifference(this, other, this);
      }
    }

    /** `union` as intended: the larger set, then what of the smaller one the larger lacks. */
    method Union(other: HashSet<K>) returns (r: seq<K>)
      requires Valid() && other.Valid()
      ensures forall k :: k in r <==> k in Elements() || k in other.Elements()
      ensures Distinct(r) && |r| == |Elements() + other.Elements()|
    {
      UnionSplit(Elements(), other.Elements());
      if Len() < other.Len() {
        r := ChainDifference(other, this, other);
      } else {
        r := ChainDifference(this, other, this);
      }
    }

    /**
     * `extend`: insert each value in turn. Inserting `k` into the set is
     * inserting `(k, ())` into the inner map, so this is the map's `extend`
     * over the values paired with `()`.
     */
    method Extend(values: seq<K>)
      requires Valid() && |Elements()| + |values| <= NumberBeforeResize(MAX_BACKING_SIZE)
      modifies inner.Repr
      ensures Valid() && fresh(inner.Repr - old(inner.Repr))
      ensures Elements() == old(Elements()) + Members(values, |values|)
    {
      ghost var before := inner.Entries();
      var entries := WithUnit(values);
      inner.Extend(entries);
      InsertAllKeys(before, entries);
    }
  }

  /** Each value paired with `()`: the entries the set's inner map receives. */
  function WithUnit<K>(values: seq<K>): (entries: seq<(K, ())>)
    ensures |entries| == |values|
    ensures forall i :: 0 <= i < |values| ==> entries[i].0 == values[i]
    ensures (set i | 0 <= i < |entries| :: entries[i].0) == Members(values, |values|)
  {
    if values == [] then []
    else
      var rest := WithUnit(values[1..]);
      var entries := [(values[0], ())] + rest;
      assert forall i :: 1 <= i < |entries| ==> entries[i].0 == values[i];
      entries
  }

  lemma KeysAfterPut<K, V>(m: map<K, V>, k: K, v: V)
    ensures m[k := v].Keys == m.Keys + {k}
  {
  }

  lemma KeysKept<K>(m: map<K, ()>, f: K -> bool, g: (K, ()) -> bool)
    requires forall k :: g(k, ()) == f(k)
    ensures Kept(m, g).Keys == set k | k in m.Keys && f(k)
  {
    forall k | k in m
      ensures k in Kept(m, g) <==> f(k)
    {
      assert m[k] == ();
    }
  }

  lemma KeysAfterRemove<K, V>(m: map<K, V>, k: K)
    ensures (m - {k}).Keys == m.Keys - {k}
  {
  }

  /** The first `n` values of `values`, as a set. */
  ghost function Members<K>(values: seq<K>, n: nat): set<K>
    requires n <= |values|
  {
    set j | 0 <= j < n :: values[j]
  }

  /** The values of a short literal sequence, as a set display. */
  lemma ElementsOfThree<K>(x: K, y: K, z: K)
    ensures Members([x, y, z], 3) == {x, y, z}
  {
    var s := [x, y, z];
    var e := Members(s, 3);
    assert s[0] in e && s[1] in e && s[2] in e;
    forall k | k in e
      ensures k in {x, y, z}
    {
      var j :| 0 <= j < 3 && s[j] == k;
    }
  }


  /** The elements of `ks` whose membership in `s` is `keep`: the `filter` of the set operations. */
  method Filter<K(==)>(ks: seq<K>, s: HashSet<K>, keep: bool) returns (r: seq<K>)
    requires s.Valid() && Distinct(ks)
    ensures forall k :: k in r <==> k in ks && (k in s.Elements() <==> keep)
    ensures Distinct(r)
  {
    ghost var e := s.Elements();
    r := [];
    var i := 0;
    while i < |ks|
      invariant i <= |ks| && Filtered(r, ks, i, e, keep)
    {
      var b := s.Contains(ks[i]);
      FilterStep(ks, i, r, e, keep);
      if b == keep {
        r := r + [ks[i]];
      }
      i := i + 1;
    }
    assert ks[..i] == ks;
  }

  /** `r` lists, without repeats, the first `n` of `ks` whose membership in `e` is `keep`. */
  ghost predicate Filtered<K>(r: seq<K>, ks: seq<K>, n: nat, e: set<K>, keep: bool)
    requires n <= |ks|
  {
    Distinct(r) &&
    (forall k :: k in r ==> k in ks[..n] && (k in e <==> keep)) &&
    (forall k :: k in ks[..n] && (k in e <==> keep) ==> k in r)
  }

  lemma FilterStep<K>(ks: seq<K>, n: nat, r: seq<K>, e: set<K>, keep: bool)
    requires Distinct(ks) && n < |ks| && Filtered(r, ks, n, e, keep)
    ensures Filtered(if (ks[n] in e) == keep then r + [ks[n]] else r, ks, n + 1, e, keep)
  {
    assert ks[..n + 1] == ks[..n] + [ks[n]];
    if (ks[n] in e) == keep {
      assert ks[n] !in ks[..n];
      DistinctConcat(r, [ks[n]]);
    }
  }

  /** Two repetition-free sequences with no common element concatenate to a repetition-free one. */
  lemma DistinctConcat<T>(a: seq<T>, b: seq<T>)
    requires Distinct(a) && Distinct(b)
    requires forall x :: x in a ==> x !in b
    ensures Distinct(a + b)
  {
    var c := a + b;
    forall i, j | 0 <= i < j < |c|
      ensures c[i] != c[j]
    {
      if i < |a| && j >= |a| {
        assert c[i] in a && c[j] == b[j - |a|];
      } else if i >= |a| {
        assert c[i] == b[i - |a|] && c[j] == b[j - |a|];
      }
    }
  }

  /**
   * `first.iter().chain(second.difference(exclude))`, the shape of `union`.
   * Its elements are listed once each when every element the first two
   * share is excluded.
   */
  method ChainDifference<K(==)>(first: HashSet<K>, second: HashSet<K>, exclude: HashSet<K>) returns (r: seq<K>)
    requires first.Valid() && second.Valid() && exclude.Valid()
    requires forall k :: k in first.Elements() && k in second.Elements() ==> k in exclude.Elements()
    ensures forall k :: k in r <==> k in first.Elements() || (k in second.Elements() && k !in exclude.Elements())
    ensures Distinct(r) && |r| == |first.Elements() + (second.Elements() - exclude.Elements())|
  {
    ghost var f, s, e := first.Elements(), second.Elements(), exclude.Elements();
    var ks := first.Iter();
    var rest := second.Difference(exclude);
    Chain(ks, rest, f, s - e);
    r := ks + rest;
  }

  lemma UnionSplit<K>(a: set<K>, b: set<K>)
    ensures a + (b - a) == a + b && b + (a - b) == a + b
  {
  }

  /** Chaining two repetition-free enumerations of disjoint sets enumerates their union. */
  lemma Chain<K>(a: seq<K>, b: seq<K>, x: set<K>, y: set<K>)
    requires Distinct(a) && Distinct(b) && x !! y
    requires forall k :: k in a <==> k in x
    requires forall k :: k in b <==> k in y
    ensures Distinct(a + b) && |a + b| == |x + y|
    ensures forall k :: k in a + b <==> k in x + y
  {
    DistinctConcat(a, b);
    DistinctCard(a + b, x + y);
  }

  /** Two repetition-free sequences with the same members have the same length. */
  lemma SameMembersSameLength<K>(a: seq<K>, b: seq<K>)
    requires Distinct(a) && Distinct(b)
    requires forall k :: k in a <==> k in b
    ensures |a| == |b|
  {
    var members := set k | k in a;
    DistinctCard(a, members);
    DistinctCard(b, members);
  }

  /** Maps to the unit type are equal exactly when their key sets are. */
  lemma UnitMapsEqual<K>(m: map<K, ()>, n: map<K, ()>)
    requires m.Keys == n.Keys
    ensures m == n
  {
    assert forall k | k in m :: m[k] == n[k];
  }

  /** `PartialEq::eq`: the inner maps compare equal, which for unit values means equal element sets. */
  method SetsEqual<K(==)>(a: HashSet<K>, b: HashSet<K>) returns (r: bool)
    requires a.Valid() && b.Valid()
    ensures r <==> a.Elements() == b.Elements()
  {
    r := MapsEqual(a.inner, b.inner);
    if a.Elements() == b.Elements() {
      UnitMapsEqual(a.inner.Entries(), b.inner.Entries());
    }
  }

  /** `from_iter` (and `From<[K; N]>`): a new set extended by every value. */
  method FromIter<K(==)>(hasher: K -> bv64, values: seq<K>) returns (s: HashSet<K>)
    requires |values| <= NumberBeforeResize(MAX_BACKING_SIZE)
    ensures s.Valid() && fresh(s)
    ensures s.Elements() == Members(values, |values|)
  {
    s := new HashSet.New(hasher);
    s.Extend(values);
  }

  /** Inserting 2 twice into a new set: true, then false, and one element. */
  method InsertTwice(hasher: int -> bv64) returns (first: bool, second: bool, len: nat)
    ensures first && !second && len == 1
  {
    var s := new HashSet.New(hasher);
    first := s.Insert(2);
    second := s.Insert(2);
    len := s.Len();
  }

  /** Removing 2 from the set {2} twice: true, then false, and the set is empty. */
  method RemoveTwice(hasher: int -> bv64) returns (first: bool, second: bool, empty: bool)
    ensures first && !second && empty
  {
    var s := new HashSet.New(hasher);
    var added := s.Insert(2);
    first := s.Remove(2);
    second := s.Remove(2);
    empty := s.IsEmpty();
  }

  /** `a.symmetric_difference(&b)` and `b.symmetric_difference(&a)` hold the same elements. */
  method SymmetricDifferenceEitherWay<K(==)>(a: HashSet<K>, b: HashSet<K>) returns (d1: seq<K>, d2: seq<K>)
    requires a.Valid() && b.Valid()
    ensures forall k :: k in d1 <==> k in d2
    ensures |d1| == |d2|
  {
    d1 := a.SymmetricDifference(b);
    d2 := b.SymmetricDifference(a);
    SameMembersSameLength(d1, d2);
  }

  /**
   * The set {1} against {2, 3}: the union as written yields only 2 and 3,
   * the intended union all three.
   */
  method UnionLosesSmallerSelf(a: HashSet<int>, b: HashSet<int>) returns (asWritten: seq<int>)
    requires a.Valid() && b.Valid() && a.Elements() == {1} && b.Elements() == {2, 3}
    ensures 1 !in asWritten && 2 in asWritten && 3 in asWritten
  {
    OneAndTwoElements();
    asWritten := a.UnionAsWritten(b);
  }

  /** The corrected union of the same two sets keeps all three elements. */
  method UnionKeepsSmallerSelf(a: HashSet<int>, b: HashSet<int>) returns (intended: seq<int>)
    requires a.Valid() && b.Valid() && a.Elements() == {1} && b.Elements() == {2, 3}
    ensures 1 in intended && 2 in intended && 3 in intended && |intended| == 3
  {
    OneAndTwoElements();
    intended := a.Union(b);
  }

  lemma OneAndTwoElements()
    ensures |{1}| == 1 && |{2, 3}| == 2 && {1} + {2, 3} == {1, 2, 3} && |{1, 2, 3}| == 3
  {
  }

  /** `HashSet::from([1, 2, 3])`, the first set of the set-operation examples. */
  method FromArrayExample(hasher: int -> bv64) returns (a: HashSet<int>)
    ensures a.Valid() && a.Elements() == {1, 2, 3} && a.Len() == 3
  {
    a := FromIter(hasher, [1, 2, 3]);
    ElementsOfThree(1, 2, 3);
    OneAndTwoElements();
  }

  lemma FourElements()
    ensures {1, 2, 3} + {2, 3, 4} == {1, 2, 3, 4} && |{1, 2, 3, 4}| == 4
  {
  }

  /** {1, 2, 3} against {2, 3, 4} (equal sizes): the union has four elements. */
  method UnionOfOverlapping(a: HashSet<int>, b: HashSet<int>) returns (u: seq<int>)
    requires a.Valid() && b.Valid() && a.Elements() == {1, 2, 3} && b.Elements() == {2, 3, 4}
    ensures |u| == 4
  {
    FourElements();
    u := a.Union(b);
  }
}
