/**
 * The bucket array of the Robin Hood table (agb-hashmap/src/node_storage.rs).
 *
 * Buckets live in a power-of-two sized sequence. An occupied bucket whose
 * stored distance is `d` sits `d` buckets after the initial bucket of its
 * hash, and the table keeps the Robin Hood ordering: the bucket before an
 * entry with `d > 0` is occupied by an entry at distance at least `d - 1`.
 * That ordering is what lets a lookup stop at the first empty bucket.
 */
module HashStorage {
  import opened Wrappers
  import opened Bits
  import opened HashNode

  /** The largest power-of-two `usize` on the 32-bit target. */
  const MAX_BACKING_SIZE: nat := 0x8000_0000

  /** `number_before_resize`: 60% of the backing size, rounded down. */
  function NumberBeforeResize(capacity: nat): (r: nat)
    ensures r <= capacity
    ensures capacity >= 2 ==> 0 < r < capacity
  {
    capacity * 60 / 100
  }

  function Next(i: nat, n: nat): (r: nat)
    requires i < n
    ensures r < n
  {
    if i + 1 == n then 0 else i + 1
  }

  function Prev(i: nat, n: nat): (r: nat)
    requires i < n
    ensures r < n
  {
    if i == 0 then n - 1 else i - 1
  }

  /** Number of steps from bucket `p` forward to bucket `e`. */
  function Gap(p: nat, e: nat, n: nat): (r: nat)
    requires p < n && e < n
    ensures r < n
  {
    if p <= e then e - p else e + n - p
  }

  lemma GapNext(p: nat, e: nat, n: nat)
    requires p < n && e < n && p != e
    ensures Gap(Next(p, n), e, n) == Gap(p, e, n) - 1
  {
  }

  /** One more step of probing lands in the next bucket. */
  lemma SlotStep(h: int, d: nat, n: nat)
    requires n > 0
    ensures (h + d + 1) % n == Next((h + d) % n, n)
  {
    var r := (h + d) % n;
    var q := (h + d) / n;
    assert h + d == n * q + r;
    if r + 1 == n {
      assert h + d + 1 == n * (q + 1) + 0;
      ModUnique(h + d + 1, n, q + 1, 0);
    } else {
      ModUnique(h + d + 1, n, q, r + 1);
    }
  }

  /** One step back from a non-zero distance lands in the previous bucket. */
  lemma SlotBack(h: int, d: nat, n: nat)
    requires n > 0 && d > 0
    ensures (h + d - 1) % n == Prev((h + d) % n, n)
  {
    SlotStep(h, d - 1, n);
    assert (h + d - 1 + 1) == h + d;
  }

  /** The occupied bucket `i` sits `dist` buckets after its initial bucket, within the recorded maximum. */
  ghost predicate Homed<K, V>(s: seq<Node<K, V>>, i: nat, maxDistance: int)
    requires i < |s|
  {
    s[i].Occupied? ==> (s[i].hash + s[i].dist) % |s| == i && s[i].dist <= maxDistance
  }

  /** Robin Hood ordering at bucket `i`. */
  ghost predicate Ordered<K, V>(s: seq<Node<K, V>>, i: nat)
    requires i < |s|
  {
    s[i].Occupied? && s[i].dist > 0 ==>
      s[Prev(i, |s|)].Occupied? && s[Prev(i, |s|)].dist >= s[i].dist - 1
  }

  ghost predicate RobinHood<K, V>(s: seq<Node<K, V>>, maxDistance: int)
  {
    |s| > 0 && forall i :: 0 <= i < |s| ==> Homed(s, i, maxDistance) && Ordered(s, i)
  }

  /** Number of occupied buckets. */
  ghost function Occupancy<K, V>(s: seq<Node<K, V>>): (r: nat)
    ensures r <= |s|
  {
    if s == [] then 0 else Occupancy(s[..|s| - 1]) + (if s[|s| - 1].Occupied? then 1 else 0)
  }

  lemma {:induction false} OccupancyUpdate<K, V>(s: seq<Node<K, V>>, i: nat, x: Node<K, V>)
    requires i < |s|
    ensures Occupancy(s[i := x]) ==
      Occupancy(s) - (if s[i].Occupied? then 1 else 0) + (if x.Occupied? then 1 else 0)
  {
    var t := s[i := x];
    if i < |s| - 1 {
      assert t[..|t| - 1] == s[..|s| - 1][i := x];
      OccupancyUpdate(s[..|s| - 1], i, x);
    } else {
      assert t[..|t| - 1] == s[..|s| - 1];
    }
  }

  /** A table with fewer entries than buckets has an empty bucket. */
  lemma {:induction false} FindVacant<K, V>(s: seq<Node<K, V>>) returns (e: nat)
    requires Occupancy(s) < |s|
    ensures e < |s| && s[e].Vacant?
  {
    if s[|s| - 1].Vacant? {
      e := |s| - 1;
    } else {
      e := FindVacant(s[..|s| - 1]);
    }
  }

  /** Probing from the initial bucket of an entry up to its position meets only occupied buckets. */
  lemma {:induction false} NoGap<K, V>(s: seq<Node<K, V>>, maxDistance: int, i: nat, m: nat)
    requires RobinHood(s, maxDistance) && i < |s| && s[i].Occupied? && m <= s[i].dist
    ensures s[(s[i].hash + m) % |s|].Occupied? && s[(s[i].hash + m) % |s|].dist >= m
    decreases s[i].dist - m
  {
    var n := |s|;
    var h := s[i].hash;
    assert Homed(s, i, maxDistance);
    if m < s[i].dist {
      NoGap(s, maxDistance, i, m + 1);
      var j := (h + m + 1) % n;
      assert Ordered(s, j);
      SlotBack(h, m + 1, n);
    }
  }

  /**
   * Putting `c` into bucket `p`, where it belongs, keeps the Robin Hood
   * invariant when the resident (if any) is no further from home than `c`.
   */
  lemma PutKeepsRobinHood<K, V>(s: seq<Node<K, V>>, maxDistance: int, p: nat, c: Node<K, V>)
    requires RobinHood(s, maxDistance) && p < |s|
    requires c.Occupied? && (c.hash + c.dist) % |s| == p && c.dist <= maxDistance
    requires c.dist > 0 ==> s[Prev(p, |s|)].Occupied? && s[Prev(p, |s|)].dist >= c.dist - 1
    requires s[p].Vacant? || s[p].dist <= c.dist
    ensures RobinHood(s[p := c], maxDistance)
  {
    var n := |s|;
    var t := s[p := c];
    forall i | 0 <= i < n
      ensures Homed(t, i, maxDistance) && Ordered(t, i)
    {
      assert Homed(s, i, maxDistance) && Ordered(s, i);
      if i == Next(p, n) && i != p {
        assert Prev(i, n) == p;
      }
    }
  }

  /**
   * Back-shift deletion: the bucket `cur` is the hole being shifted
   * forward; `holeDistance` is the distance its former entry had.
   */
  ghost predicate ShiftingHole<K, V>(s: seq<Node<K, V>>, maxDistance: int, cur: nat, holeDistance: int)
  {
    var n := |s|;
    cur < n &&
    (forall i :: 0 <= i < n && i != cur ==> Homed(s, i, maxDistance)) &&
    (forall i :: 0 <= i < n && i != cur && i != Next(cur, n) ==> Ordered(s, i)) &&
    (s[Next(cur, n)].Occupied? && s[Next(cur, n)].dist > 0 ==> holeDistance >= s[Next(cur, n)].dist - 1) &&
    (holeDistance > 0 ==> s[Prev(cur, n)].Occupied? && s[Prev(cur, n)].dist >= holeDistance - 1)
  }

  lemma StartShift<K, V>(s: seq<Node<K, V>>, maxDistance: int, cur: nat)
    requires RobinHood(s, maxDistance) && cur < |s| && s[cur].Occupied?
    ensures ShiftingHole(s, maxDistance, cur, s[cur].dist)
  {
    var n := |s|;
    assert Ordered(s, cur);
    assert Ordered(s, Next(cur, n));
    assert Prev(Next(cur, n), n) == cur;
  }

  /** Moving the entry after the hole back into the hole moves the hole one bucket forward. */
  lemma ShiftStep<K, V>(s: seq<Node<K, V>>, maxDistance: int, cur: nat, holeDistance: int, hole: Node<K, V>)
    requires ShiftingHole(s, maxDistance, cur, holeDistance) && |s| >= 3
    requires s[Next(cur, |s|)].Occupied? && s[Next(cur, |s|)].dist > 0
    ensures var n := |s|; var q := Next(cur, n);
      ShiftingHole(s[cur := DecrementDistance(s[q])][q := hole], maxDistance, q, s[q].dist)
  {
    var n := |s|;
    var q := Next(cur, n);
    var Q := s[q];
    var t := s[cur := DecrementDistance(Q)][q := hole];
    assert Prev(q, n) == cur;
    assert Next(q, n) != cur;
    assert Prev(cur, n) != q && Prev(cur, n) != cur;
    assert Homed(s, q, maxDistance);
    SlotBack(Q.hash, Q.dist, n);
    assert Homed(t, cur, maxDistance);
    assert Ordered(s, Next(q, n));
    assert Prev(Next(q, n), n) == q;
    forall i | 0 <= i < n && i != q
      ensures Homed(t, i, maxDistance)
    {
      if i != cur {
        assert Homed(s, i, maxDistance);
      }
    }
    forall i | 0 <= i < n && i != q && i != Next(q, n)
      ensures Ordered(t, i)
    {
      if i != cur {
        assert Ordered(s, i);
        assert Prev(i, n) != cur && Prev(i, n) != q;
      }
    }
  }

  /** Clearing the hole once the next entry is empty or at home restores the invariant. */
  lemma FinishShift<K, V>(s: seq<Node<K, V>>, maxDistance: int, cur: nat, holeDistance: int)
    requires ShiftingHole(s, maxDistance, cur, holeDistance)
    requires s[Next(cur, |s|)].Vacant? || s[Next(cur, |s|)].dist == 0
    ensures RobinHood(s[cur := Vacant], maxDistance)
  {
    var n := |s|;
    var t := s[cur := Vacant];
    forall i | 0 <= i < n
      ensures Homed(t, i, maxDistance) && Ordered(t, i)
    {
      if i != cur && i != Next(cur, n) {
        assert Homed(s, i, maxDistance) && Ordered(s, i);
        assert Prev(i, n) != cur;
      } else if i != cur {
        assert Homed(s, i, maxDistance);
      }
    }
  }

  /** The occupied keys in bucket order: the order the map's iterators visit them. */
  function KeysInOrder<K, V>(s: seq<Node<K, V>>): (r: seq<K>)
    ensures |r| <= |s|
  {
    if s == [] then []
    else KeysInOrder(s[..|s| - 1]) + (if s[|s| - 1].Occupied? then [s[|s| - 1].key] else [])
  }

  /** The occupied key-value pairs in bucket order. */
  function ItemsInOrder<K, V>(s: seq<Node<K, V>>): (r: seq<(K, V)>)
    ensures |r| <= |s|
  {
    if s == [] then []
    else ItemsInOrder(s[..|s| - 1]) + (if s[|s| - 1].Occupied? then [(s[|s| - 1].key, s[|s| - 1].value)] else [])
  }

  /** The buckets' keys are where `where` says they are. */
  ghost predicate Located<K, V>(s: seq<Node<K, V>>, where: map<K, nat>)
  {
    forall i :: 0 <= i < |s| && s[i].Occupied? ==> s[i].key in where && where[s[i].key] == i
  }

  lemma {:induction false} KeysInOrderLocated<K, V>(s: seq<Node<K, V>>, where: map<K, nat>, j: nat)
    requires Located(s, where) && j <= |s|
    ensures forall x :: x in KeysInOrder(s[..j]) ==> x in where && where[x] < j
  {
    if j > 0 {
      KeysInOrderLocated(s, where, j - 1);
      assert s[..j][..j - 1] == s[..j - 1];
    }
  }

  ghost predicate NoDuplicates<T>(r: seq<T>)
  {
    forall a, b :: 0 <= a < b < |r| ==> r[a] != r[b]
  }

  /** The iteration order visits every key once. */
  lemma {:induction false} KeysInOrderDistinct<K, V>(s: seq<Node<K, V>>, where: map<K, nat>, j: nat)
    requires Located(s, where) && j <= |s|
    ensures NoDuplicates(KeysInOrder(s[..j]))
  {
    if j > 0 {
      KeysInOrderDistinct(s, where, j - 1);
      KeysInOrderLocated(s, where, j - 1);
      assert s[..j][..j - 1] == s[..j - 1];
    }
  }

  lemma {:induction false} KeysInOrderComplete<K, V>(s: seq<Node<K, V>>, j: nat, i: nat)
    requires i < j <= |s| && s[i].Occupied?
    ensures s[i].key in KeysInOrder(s[..j])
  {
    assert s[..j][..j - 1] == s[..j - 1];
    if i < j - 1 {
      KeysInOrderComplete(s, j - 1, i);
    }
  }

  /** A larger bound on the distance keeps every bucket within it. */
  lemma RobinHoodWider<K, V>(s: seq<Node<K, V>>, maxDistance: int, wider: int)
    requires RobinHood(s, maxDistance) && maxDistance <= wider
    ensures RobinHood(s, wider)
  {
    forall i | 0 <= i < |s|
      ensures Homed(s, i, wider) && Ordered(s, i)
    {
      assert Homed(s, i, maxDistance);
    }
  }

  /** `i32::max`. */
  function MaxInt(a: int, b: int): (r: int)
    ensures r >= a && r >= b && (r == a || r == b)
  {
    if a > b then a else b
  }

  /** The bucket an occupied node belongs in. */
  function Slot<K, V>(c: Node<K, V>, n: nat): (r: nat)
    requires c.Occupied? && n > 0
    ensures r < n
  {
    (c.hash + c.dist) % n
  }

  /** The bucket `insert_new` and `location` compute for an entry is its slot. */
  lemma ProbeLocation<K, V>(c: Node<K, V>, n: nat)
    requires c.Occupied? && IsPowerOfTwo(n) && n <= MAX_BACKING_SIZE
    ensures FastMod(AddDistance(c.hash, c.Distance()), n) == Slot(c, n)
  {
    ProbeSlot(c.hash, c.dist, n);
  }

  /**
   * The state of `insert_new` while it carries `c`: the buckets form a Robin
   * Hood table, `c` may sit in its slot as far as the bucket before is
   * concerned, and bucket `e` stays empty, which bounds the probing.
   */
  ghost predicate Carrying<K, V>(s: seq<Node<K, V>>, maxDistance: int, c: Node<K, V>, e: nat)
  {
    RobinHood(s, maxDistance) && maxDistance >= 0 && e < |s| && s[e].Vacant? &&
    c.Occupied? && c.dist <= maxDistance &&
    (c.dist > 0 ==>
      s[Prev(Slot(c, |s|), |s|)].Occupied? && s[Prev(Slot(c, |s|), |s|)].dist >= c.dist - 1)
  }

  /** The resident is further from home than `c`: `c` moves on to the next bucket. */
  lemma CarryPast<K, V>(s: seq<Node<K, V>>, maxDistance: int, c: Node<K, V>, e: nat)
    requires Carrying(s, maxDistance, c, e)
    requires s[Slot(c, |s|)].Occupied? && s[Slot(c, |s|)].dist > c.dist
    ensures var c' := IncrementDistance(c);
      Carrying(s, MaxInt(c'.dist, maxDistance), c', e) &&
      Slot(c', |s|) == Next(Slot(c, |s|), |s|)
  {
    var n := |s|;
    var c' := IncrementDistance(c);
    SlotStep(c.hash, c.dist, n);
    assert Prev(Next(Slot(c, n), n), n) == Slot(c, n);
    RobinHoodWider(s, maxDistance, MaxInt(c'.dist, maxDistance));
  }

  /** The resident is no further from home than `c`: they swap and the resident is carried on. */
  lemma CarrySwap<K, V>(s: seq<Node<K, V>>, maxDistance: int, c: Node<K, V>, e: nat)
    requires Carrying(s, maxDistance, c, e)
    requires s[Slot(c, |s|)].Occupied? && s[Slot(c, |s|)].dist <= c.dist
    ensures var p := Slot(c, |s|); var r' := IncrementDistance(s[p]);
      Carrying(s[p := c], MaxInt(r'.dist, maxDistance), r', e) &&
      Slot(r', |s|) == Next(p, |s|) &&
      Occupancy(s[p := c]) == Occupancy(s)
  {
    var n := |s|;
    var p := Slot(c, n);
    var r := s[p];
    var r' := IncrementDistance(r);
    assert Homed(s, p, maxDistance);
    PutKeepsRobinHood(s, maxDistance, p, c);
    OccupancyUpdate(s, p, c);
    SlotStep(r.hash, r.dist, n);
    assert Prev(Next(p, n), n) == p;
    RobinHoodWider(s[p := c], maxDistance, MaxInt(r'.dist, maxDistance));
  }

  /** The slot of `c` is empty: `c` settles there. */
  lemma CarryPlace<K, V>(s: seq<Node<K, V>>, maxDistance: int, c: Node<K, V>, e: nat)
    requires Carrying(s, maxDistance, c, e) && s[Slot(c, |s|)].Vacant?
    ensures RobinHood(s[Slot(c, |s|) := c], maxDistance)
    ensures Occupancy(s[Slot(c, |s|) := c]) == Occupancy(s) + 1
  {
    PutKeepsRobinHood(s, maxDistance, Slot(c, |s|), c);
    OccupancyUpdate(s, Slot(c, |s|), c);
  }

  /** The key, value and hash of an entry are those the ghost maps record. */
  ghost predicate Recorded<K, V>(node: Node<K, V>, contents: map<K, V>, hashes: map<K, HashType>)
    requires node.Occupied?
  {
    node.key in contents && contents[node.key] == node.value &&
    node.key in hashes && hashes[node.key] == node.hash
  }

  ghost predicate StoredIn<K, V>(node: Node<K, V>, i: nat, contents: map<K, V>, where: map<K, nat>, hashes: map<K, HashType>)
    requires node.Occupied?
  {
    Recorded(node, contents, hashes) && node.key in where && where[node.key] == i
  }

  /**
   * Every key of `where` outside `except` names the bucket holding it, and
   * every occupied bucket holds a recorded key outside `except`.
   */
  ghost predicate IndexedExcept<K, V>(s: seq<Node<K, V>>, contents: map<K, V>, where: map<K, nat>,
                                      hashes: map<K, HashType>, except: set<K>)
  {
    (forall k :: k in where && k !in except ==> where[k] < |s| && s[where[k]].Occupied? && s[where[k]].key == k) &&
    (forall i {:trigger StoredIn(s[i], i, contents, where, hashes)} ::
       0 <= i < |s| && s[i].Occupied? ==> StoredIn(s[i], i, contents, where, hashes) && s[i].key !in except)
  }

  /** The bookkeeping of a swap in `insert_new`. */
  lemma BookSwap<K, V>(s: seq<Node<K, V>>, contents: map<K, V>, where: map<K, nat>, hashes: map<K, HashType>,
                       c: Node<K, V>, p: nat)
    requires p < |s| && c.Occupied? && s[p].Occupied?
    requires IndexedExcept(s, contents, where, hashes, {c.key}) && Recorded(c, contents, hashes) && c.key in where
    ensures var r := s[p];
      IndexedExcept(s[p := c], contents, where[c.key := p], hashes, {r.key}) &&
      Recorded(r, contents, hashes) && r.key in where && r.key != c.key
  {
    var t := s[p := c];
    var w := where[c.key := p];
    var r := s[p];
    assert StoredIn(s[p], p, contents, where, hashes);
    forall i | 0 <= i < |t| && t[i].Occupied?
      ensures StoredIn(t[i], i, contents, w, hashes) && t[i].key != r.key
    {
      if i != p {
        assert StoredIn(s[i], i, contents, where, hashes);
      }
    }
  }

  /** The bookkeeping when `insert_new` places its carried entry in an empty bucket. */
  lemma BookPlace<K, V>(s: seq<Node<K, V>>, contents: map<K, V>, where: map<K, nat>, hashes: map<K, HashType>,
                        c: Node<K, V>, p: nat)
    requires p < |s| && c.Occupied? && s[p].Vacant?
    requires IndexedExcept(s, contents, where, hashes, {c.key}) && Recorded(c, contents, hashes) && c.key in where
    ensures IndexedExcept(s[p := c], contents, where[c.key := p], hashes, {})
  {
    var t := s[p := c];
    var w := where[c.key := p];
    forall i | 0 <= i < |t| && t[i].Occupied?
      ensures StoredIn(t[i], i, contents, w, hashes)
    {
      if i != p {
        assert StoredIn(s[i], i, contents, where, hashes);
      }
    }
  }

  /** The bookkeeping of back-shift deletion, with the removed entry travelling in bucket `cur`. */
  ghost predicate IndexedAround<K, V>(s: seq<Node<K, V>>, contents: map<K, V>, where: map<K, nat>,
                                      hashes: map<K, HashType>, cur: nat)
  {
    (forall k :: k in where ==> where[k] < |s| && where[k] != cur && s[where[k]].Occupied? && s[where[k]].key == k) &&
    (forall i {:trigger StoredIn(s[i], i, contents, where, hashes)} ::
       0 <= i < |s| && i != cur && s[i].Occupied? ==> StoredIn(s[i], i, contents, where, hashes))
  }

  lemma BookShift<K, V>(s: seq<Node<K, V>>, contents: map<K, V>, where: map<K, nat>, hashes: map<K, HashType>,
                        cur: nat, hole: Node<K, V>)
    requires cur < |s| && |s| >= 2 && s[Next(cur, |s|)].Occupied? && s[Next(cur, |s|)].dist > 0
    requires IndexedAround(s, contents, where, hashes, cur)
    ensures var q := Next(cur, |s|);
      IndexedAround(s[cur := DecrementDistance(s[q])][q := hole], contents, where[s[q].key := cur], hashes, q)
  {
    var n := |s|;
    var q := Next(cur, n);
    var t := s[cur := DecrementDistance(s[q])][q := hole];
    var w := where[s[q].key := cur];
    assert StoredIn(s[q], q, contents, where, hashes);
    forall i | 0 <= i < n && i != q && t[i].Occupied?
      ensures StoredIn(t[i], i, contents, w, hashes)
    {
      if i != cur {
        assert StoredIn(s[i], i, contents, where, hashes);
      }
    }
  }

  lemma BookFinish<K, V>(s: seq<Node<K, V>>, contents: map<K, V>, where: map<K, nat>, hashes: map<K, HashType>, cur: nat)
    requires cur < |s| && IndexedAround(s, contents, where, hashes, cur)
    ensures IndexedExcept(s[cur := Vacant], contents, where, hashes, {})
  {
    var t := s[cur := Vacant];
    forall i | 0 <= i < |t| && t[i].Occupied?
      ensures StoredIn(t[i], i, contents, where, hashes)
    {
      assert StoredIn(s[i], i, contents, where, hashes);
    }
  }

  /** The state `remove_from_location` starts in: the key at `p` leaves the ghost maps and `p` becomes the hole. */
  lemma RemoveStart<K, V>(s: seq<Node<K, V>>, contents: map<K, V>, where: map<K, nat>, hashes: map<K, HashType>, p: nat)
    requires p < |s| && s[p].Occupied? && IndexedExcept(s, contents, where, hashes, {})
    ensures var k := s[p].key;
      k in contents && contents[k] == s[p].value && k in where && where[k] == p && k in hashes &&
      |contents - {k}| == |contents| - 1 &&
      IndexedAround(s, contents - {k}, where - {k}, hashes - {k}, p)
  {
    var k := s[p].key;
    assert StoredIn(s[p], p, contents, where, hashes);
    assert (contents - {k}).Keys == contents.Keys - {k};
    forall i | 0 <= i < |s| && i != p && s[i].Occupied?
      ensures StoredIn(s[i], i, contents - {k}, where - {k}, hashes - {k})
    {
      assert StoredIn(s[i], i, contents, where, hashes);
    }
  }

  /** `HashType::from(i + 1).fast_mod(n)` is the bucket after `i`. */
  lemma NextLocation(i: nat, n: nat)
    requires IsPowerOfTwo(n) && i < n && n <= MAX_BACKING_SIZE
    ensures FastMod(i + 1, n) == Next(i, n)
  {
    if i + 1 < n {
      ModUnique(i + 1, n, 0, i + 1);
    } else {
      ModUnique(i + 1, n, 1, 0);
    }
  }

  /** `usize::MAX` on the 32-bit target: the "not yet placed" marker of `insert_new`. */
  const USIZE_MAX: nat := 0xFFFF_FFFF

  /**
   * The invariant of the storage: a power-of-two Robin Hood table whose
   * counters are right and whose buckets hold exactly the entries of
   * `contents`, each in the bucket `where` names, with the hash `hashes` names.
   */
  ghost predicate ValidTable<K, V>(s: seq<Node<K, V>>, maxDistance: int, count: nat, maxBeforeResize: nat,
                                   contents: map<K, V>, where: map<K, nat>, hashes: map<K, HashType>)
  {
    IsPowerOfTwo(|s|) && |s| <= MAX_BACKING_SIZE &&
    maxBeforeResize == NumberBeforeResize(|s|) &&
    count == |contents| && count == Occupancy(s) && count <= maxBeforeResize &&
    maxDistance >= 0 && RobinHood(s, maxDistance) &&
    where.Keys == contents.Keys && hashes.Keys == contents.Keys &&
    IndexedExcept(s, contents, where, hashes, {})
  }

  /**
   * The loop state of `insert_new`: `c` is carried, `inserted` is the bucket
   * that received `key` (or `USIZE_MAX` while `key` is still carried), and
   * the bucket `e` stays empty.
   */
  ghost predicate Inserting<K, V>(s: seq<Node<K, V>>, maxDistance: int, c: Node<K, V>, e: nat,
                                  contents: map<K, V>, where: map<K, nat>, hashes: map<K, HashType>,
                                  key: K, inserted: nat)
  {
    |s| <= MAX_BACKING_SIZE &&
    where.Keys == contents.Keys && hashes.Keys == contents.Keys &&
    Carrying(s, maxDistance, c, e) &&
    IndexedExcept(s, contents, where, hashes, {c.key}) && Recorded(c, contents, hashes) &&
    (inserted == USIZE_MAX <==> c.key == key) &&
    (inserted != USIZE_MAX ==>
      inserted < |s| && key in where && where[key] == inserted &&
      Gap(inserted, e, |s|) > Gap(Slot(c, |s|), e, |s|))
  }

  /** The state `insert_new` starts its probe in: a fresh entry at distance 0 is carried. */
  lemma InsertStart<K, V>(s: seq<Node<K, V>>, maxDistance: int, count: nat,
                          contents: map<K, V>, where: map<K, nat>, hashes: map<K, HashType>, c: Node<K, V>, e: nat)
    requires ValidTable(s, maxDistance, count, NumberBeforeResize(|s|), contents, where, hashes)
    requires c.Occupied? && c.dist == 0 && c.key !in contents && e < |s| && s[e].Vacant?
    ensures |contents[c.key := c.value]| == count + 1
    ensures Inserting(s, maxDistance, c, e, contents[c.key := c.value], where[c.key := e], hashes[c.key := c.hash],
                      c.key, USIZE_MAX)
  {
    IndexedAdd(s, contents, where, hashes, c, e);
  }

  /** A key not yet in the table, recorded at bucket `e`, leaves every occupied bucket indexed. */
  lemma IndexedAdd<K, V>(s: seq<Node<K, V>>, contents: map<K, V>, where: map<K, nat>, hashes: map<K, HashType>,
                         c: Node<K, V>, e: nat)
    requires IndexedExcept(s, contents, where, hashes, {}) && where.Keys == contents.Keys
    requires c.Occupied? && c.key !in contents
    ensures IndexedExcept(s, contents[c.key := c.value], where[c.key := e], hashes[c.key := c.hash], {c.key})
  {
    var contents', where', hashes' := contents[c.key := c.value], where[c.key := e], hashes[c.key := c.hash];
    forall i | 0 <= i < |s| && s[i].Occupied?
      ensures StoredIn(s[i], i, contents', where', hashes') && s[i].key != c.key
    {
      assert StoredIn(s[i], i, contents, where, hashes);
    }
  }

  lemma InsertPast<K, V>(s: seq<Node<K, V>>, maxDistance: int, c: Node<K, V>, e: nat,
                         contents: map<K, V>, where: map<K, nat>, hashes: map<K, HashType>,
                         key: K, inserted: nat)
    requires Inserting(s, maxDistance, c, e, contents, where, hashes, key, inserted)
    requires s[Slot(c, |s|)].Occupied? && s[Slot(c, |s|)].dist > c.dist
    ensures var c' := IncrementDistance(c);
      Inserting(s, MaxInt(c'.dist, maxDistance), c', e, contents, where, hashes, key, inserted) &&
      Gap(Slot(c', |s|), e, |s|) < Gap(Slot(c, |s|), e, |s|)
  {
    CarryPast(s, maxDistance, c, e);
    GapNext(Slot(c, |s|), e, |s|);
  }

  lemma InsertSwap<K, V>(s: seq<Node<K, V>>, maxDistance: int, c: Node<K, V>, e: nat,
                         contents: map<K, V>, where: map<K, nat>, hashes: map<K, HashType>,
                         key: K, inserted: nat)
    requires Inserting(s, maxDistance, c, e, contents, where, hashes, key, inserted)
    requires s[Slot(c, |s|)].Occupied? && s[Slot(c, |s|)].dist <= c.dist
    ensures var p := Slot(c, |s|); var r' := IncrementDistance(s[p]);
      Inserting(s[p := c], MaxInt(r'.dist, maxDistance), r', e, contents, where[c.key := p], hashes, key,
                if inserted == USIZE_MAX then p else inserted) &&
      Occupancy(s[p := c]) == Occupancy(s) &&
      Gap(Slot(r', |s|), e, |s|) < Gap(Slot(c, |s|), e, |s|)
  {
    var n := |s|;
    var p := Slot(c, n);
    var r := s[p];
    var r' := IncrementDistance(r);
    var w := where[c.key := p];
    var inserted' := if inserted == USIZE_MAX then p else inserted;
    CarrySwap(s, maxDistance, c, e);
    BookSwap(s, contents, where, hashes, c, p);
    GapNext(p, e, n);
    assert StoredIn(r, p, contents, where, hashes);
    if inserted != USIZE_MAX {
      assert StoredIn(s[inserted], inserted, contents, where, hashes);
      assert r.key != key;
    }
    assert Recorded(r', contents, hashes);
    assert IndexedExcept(s[p := c], contents, w, hashes, {r'.key});
    assert inserted' == USIZE_MAX <==> r'.key == key;
  }

  lemma InsertPlace<K, V>(s: seq<Node<K, V>>, maxDistance: int, c: Node<K, V>, e: nat,
                          contents: map<K, V>, where: map<K, nat>, hashes: map<K, HashType>,
                          key: K, inserted: nat, count: nat)
    requires Inserting(s, maxDistance, c, e, contents, where, hashes, key, inserted)
    requires s[Slot(c, |s|)].Vacant?
    requires IsPowerOfTwo(|s|) && |s| <= MAX_BACKING_SIZE
    requires Occupancy(s) == count && count + 1 == |contents| && count + 1 <= NumberBeforeResize(|s|)
    ensures var p := Slot(c, |s|); var w := where[c.key := p];
      ValidTable(s[p := c], maxDistance, count + 1, NumberBeforeResize(|s|), contents, w, hashes) &&
      key in w && w[key] == (if inserted == USIZE_MAX then p else inserted)
  {
    var p := Slot(c, |s|);
    var t := s[p := c];
    CarryPlace(s, maxDistance, c, e);
    BookPlace(s, contents, where, hashes, c, p);
    assert IsPowerOfTwo(|t|) && |t| <= MAX_BACKING_SIZE;
    assert count + 1 == Occupancy(t);
    assert RobinHood(t, maxDistance);
    assert where[c.key := p].Keys == contents.Keys;
    assert IndexedExcept(t, contents, where[c.key := p], hashes, {});
  }

  /**
   * The loop state of `remove_from_location`: `hole` (the removed entry)
   * sits in bucket `cur`, the rest of the table is indexed, and every entry
   * moved so far sits one bucket before where it was, behind the hole.
   */
  ghost predicate Removing<K, V>(s: seq<Node<K, V>>, maxDistance: int, cur: nat, holeDistance: int, hole: Node<K, V>,
                                 e: nat, contents: map<K, V>, where: map<K, nat>, hashes: map<K, HashType>,
                                 where0: map<K, nat>, occupancy: nat)
  {
    cur < |s| && e < |s| && s[cur] == hole && hole.Occupied? && s[e].Vacant? &&
    ShiftingHole(s, maxDistance, cur, holeDistance) &&
    IndexedAround(s, contents, where, hashes, cur) &&
    Occupancy(s) == occupancy && where.Keys == where0.Keys &&
    (forall k :: k in where ==>
       k in where0 &&
       (where[k] == where0[k] || (Next(where[k], |s|) == where0[k] && Gap(where[k], e, |s|) > Gap(cur, e, |s|))))
  }

  /** The outcome of `remove_from_location` on the buckets: one entry fewer, every other one in place or one bucket back. */
  ghost predicate Shifted<K, V>(s: seq<Node<K, V>>, maxDistance: int, contents: map<K, V>, where: map<K, nat>,
                                hashes: map<K, HashType>, where0: map<K, nat>, occupancy: nat)
  {
    RobinHood(s, maxDistance) && Occupancy(s) + 1 == occupancy &&
    IndexedExcept(s, contents, where, hashes, {}) && where.Keys == where0.Keys &&
    (forall k :: k in where ==> k in where0 && (where[k] == where0[k] || Next(where[k], |s|) == where0[k]))
  }

  lemma RemoveBegin<K, V>(s: seq<Node<K, V>>, maxDistance: int, cur: nat, e: nat,
                          contents: map<K, V>, where: map<K, nat>, hashes: map<K, HashType>)
    requires RobinHood(s, maxDistance) && cur < |s| && s[cur].Occupied? && e < |s| && s[e].Vacant?
    requires IndexedAround(s, contents, where, hashes, cur)
    ensures Removing(s, maxDistance, cur, s[cur].dist, s[cur], e, contents, where, hashes, where, Occupancy(s))
  {
    StartShift(s, maxDistance, cur);
  }

  lemma RemoveAdvance<K, V>(s: seq<Node<K, V>>, maxDistance: int, cur: nat, holeDistance: int, hole: Node<K, V>,
                            e: nat, contents: map<K, V>, where: map<K, nat>, hashes: map<K, HashType>,
                            where0: map<K, nat>, occupancy: nat)
    requires Removing(s, maxDistance, cur, holeDistance, hole, e, contents, where, hashes, where0, occupancy)
    requires s[Next(cur, |s|)].Occupied? && s[Next(cur, |s|)].dist > 0
    ensures var n := |s|; var q := Next(cur, n); var m := s[q];
      Removing(s[cur := DecrementDistance(m)][q := hole], maxDistance, q, m.dist, hole, e,
               contents, where[m.key := cur], hashes, where0, occupancy) &&
      Gap(q, e, n) < Gap(cur, e, n)
  {
    var n := |s|;
    var q := Next(cur, n);
    var m := s[q];
    var t := s[cur := DecrementDistance(m)][q := hole];
    var w := where[m.key := cur];
    assert cur != e && q != e && q != cur;
    ShiftStep(s, maxDistance, cur, holeDistance, hole);
    BookShift(s, contents, where, hashes, cur, hole);
    OccupancyUpdate(s, cur, DecrementDistance(m));
    OccupancyUpdate(s[cur := DecrementDistance(m)], q, hole);
    GapNext(cur, e, n);
    assert StoredIn(m, q, contents, where, hashes);
    assert where0[m.key] == q;
    TrailAdvance(n, cur, e, where, where0, m.key);
  }

  /** Moving `key` from bucket `q` back to `cur` keeps every entry in place or one bucket behind its old one. */
  lemma TrailAdvance<K>(n: nat, cur: nat, e: nat, where: map<K, nat>, where0: map<K, nat>, key: K)
    requires cur < n && e < n && Gap(Next(cur, n), e, n) < Gap(cur, e, n)
    requires key in where0 && where0[key] == Next(cur, n)
    requires forall k :: k in where ==> where[k] < n
    requires forall k :: k in where ==>
               k in where0 && (where[k] == where0[k] || (Next(where[k], n) == where0[k] && Gap(where[k], e, n) > Gap(cur, e, n)))
    ensures forall k :: k in where[key := cur] ==>
              k in where0 &&
              (where[key := cur][k] == where0[k] ||
               (Next(where[key := cur][k], n) == where0[k] && Gap(where[key := cur][k], e, n) > Gap(Next(cur, n), e, n)))
  {
  }

  lemma RemoveEnd<K, V>(s: seq<Node<K, V>>, maxDistance: int, cur: nat, holeDistance: int, hole: Node<K, V>,
                        e: nat, contents: map<K, V>, where: map<K, nat>, hashes: map<K, HashType>,
                        where0: map<K, nat>, occupancy: nat)
    requires Removing(s, maxDistance, cur, holeDistance, hole, e, contents, where, hashes, where0, occupancy)
    requires s[Next(cur, |s|)].Vacant? || s[Next(cur, |s|)].dist == 0
    ensures Shifted(s[cur := Vacant], maxDistance, contents, where, hashes, where0, occupancy)
  {
    FinishShift(s, maxDistance, cur, holeDistance);
    BookFinish(s, contents, where, hashes, cur);
    OccupancyUpdate(s, cur, Vacant);
  }

  /** The storage invariant after `remove_from_location` took the entry at `p` out. */
  lemma RemoveFinish<K, V>(s0: seq<Node<K, V>>, s: seq<Node<K, V>>, maxDistance: int, count: nat, maxBeforeResize: nat,
                           contents: map<K, V>, where: map<K, nat>, hashes: map<K, HashType>, p: nat, w: map<K, nat>)
    requires ValidTable(s0, maxDistance, count, maxBeforeResize, contents, where, hashes)
    requires p < |s0| && s0[p].Occupied? && |s| == |s0|
    requires Shifted(s, maxDistance, contents - {s0[p].key}, w, hashes - {s0[p].key}, where - {s0[p].key}, Occupancy(s0))
    ensures count >= 1
    ensures ValidTable(s, maxDistance, count - 1, maxBeforeResize, contents - {s0[p].key}, w, hashes - {s0[p].key})
  {
    var k := s0[p].key;
    RemoveStart(s0, contents, where, hashes, p);
    assert (hashes - {k}).Keys == hashes.Keys - {k};
    assert (where - {k}).Keys == where.Keys - {k};
  }

  /**
   * The scan state of `retain` at bucket `i`: the surviving entries are
   * original ones, every removed entry failed `f`, and every entry that
   * still fails `f` sits at bucket `i` or later.
   */
  ghost predicate Retaining<K, V>(f: (K, V) -> bool, i: nat, contents0: map<K, V>, hashes0: map<K, HashType>,
                                  contents: map<K, V>, where: map<K, nat>, hashes: map<K, HashType>)
  {
    (forall k :: k in contents ==> k in contents0 && contents[k] == contents0[k]) &&
    (forall k :: k in hashes ==> k in hashes0 && hashes[k] == hashes0[k]) &&
    (forall k :: k in contents0 && k !in contents ==> !f(k, contents0[k])) &&
    (forall k :: k in contents && !f(k, contents[k]) ==> k in where && where[k] >= i)
  }

  /**
   * Removing the failing entry at bucket `i` keeps the scan state: the
   * backward shift moves an entry back by at most one bucket, and the
   * entries it moves started after `i`.
   */
  lemma RetainAfterRemove<K, V>(f: (K, V) -> bool, i: nat, s0: seq<Node<K, V>>, contents0: map<K, V>, hashes0: map<K, HashType>,
                                c: map<K, V>, w: map<K, nat>, h: map<K, HashType>, where: map<K, nat>)
    requires i < |s0| && s0[i].Occupied? && !f(s0[i].key, s0[i].value)
    requires IndexedExcept(s0, c, w, h, {}) && w.Keys == c.Keys && h.Keys == c.Keys
    requires Retaining(f, i, contents0, hashes0, c, w, h)
    requires where.Keys == (c - {s0[i].key}).Keys
    requires forall k :: k in where ==> k in w && where[k] < |s0| && (where[k] == w[k] || Next(where[k], |s0|) == w[k])
    ensures Retaining(f, i, contents0, hashes0, c - {s0[i].key}, where, h - {s0[i].key})
  {
    var k0 := s0[i].key;
    assert StoredIn(s0[i], i, c, w, h);
    forall k | k in c - {k0} && !f(k, (c - {k0})[k])
      ensures where[k] >= i
    {
      assert w[k] < |s0| && s0[w[k]].key == k;
      assert w[k] != i;
    }
  }

  /** Passing over bucket `i`, empty or holding an entry that satisfies `f`, keeps the scan state. */
  lemma RetainAfterKeep<K, V>(f: (K, V) -> bool, i: nat, s: seq<Node<K, V>>, contents0: map<K, V>, hashes0: map<K, HashType>,
                              contents: map<K, V>, where: map<K, nat>, hashes: map<K, HashType>)
    requires i < |s| && IndexedExcept(s, contents, where, hashes, {})
    requires s[i].Vacant? || f(s[i].key, s[i].value)
    requires Retaining(f, i, contents0, hashes0, contents, where, hashes)
    ensures Retaining(f, i + 1, contents0, hashes0, contents, where, hashes)
  {
    forall k | k in contents && !f(k, contents[k])
      ensures where[k] >= i + 1
    {
      assert where[k] < |s| && s[where[k]].Occupied? && s[where[k]].key == k;
      assert StoredIn(s[where[k]], where[k], contents, where, hashes);
    }
  }

  /** The entries of `m` that satisfy `f`: what `retain` leaves. */
  ghost function Kept<K, V>(m: map<K, V>, f: (K, V) -> bool): map<K, V>
  {
    map k | k in m && f(k, m[k]) :: m[k]
  }

  /** Once the scan has passed every bucket, what remains is exactly the entries that satisfy `f`. */
  lemma RetainDone<K, V>(f: (K, V) -> bool, s: seq<Node<K, V>>, contents0: map<K, V>, hashes0: map<K, HashType>,
                         contents: map<K, V>, where: map<K, nat>, hashes: map<K, HashType>)
    requires IndexedExcept(s, contents, where, hashes, {}) && where.Keys == contents.Keys
    requires Retaining(f, |s|, contents0, hashes0, contents, where, hashes)
    ensures contents == Kept(contents0, f)
  {
    forall k | k in contents
      ensures f(k, contents[k])
    {
      assert where[k] < |s|;
    }
  }

  /**
   * `replace_at_location` on the table's state: a new value in an occupied
   * bucket leaves hash, distance and key, and so every invariant, in place.
   */
  lemma ReplaceKeepsTable<K, V>(s: seq<Node<K, V>>, maxDistance: int, count: nat, maxBeforeResize: nat,
                                contents: map<K, V>, where: map<K, nat>, hashes: map<K, HashType>, p: nat, value: V)
    requires ValidTable(s, maxDistance, count, maxBeforeResize, contents, where, hashes)
    requires p < |s| && s[p].Occupied?
    ensures s[p].key in contents && contents[s[p].key] == s[p].value
    ensures ValidTable(s[p := s[p].(value := value)], maxDistance, count, maxBeforeResize,
                       contents[s[p].key := value], where, hashes)
  {
    var k, c := s[p].key, s[p].(value := value);
    var t, contents' := s[p := c], contents[k := value];
    assert StoredIn(s[p], p, contents, where, hashes);
    assert Homed(s, p, maxDistance) && Ordered(s, p);
    PutKeepsRobinHood(s, maxDistance, p, c);
    OccupancyUpdate(s, p, c);
    forall i | 0 <= i < |t| && t[i].Occupied?
      ensures StoredIn(t[i], i, contents', where, hashes)
    {
      assert StoredIn(s[i], i, contents, where, hashes);
    }
  }

  /** The entries of `m` whose key sits in a bucket before `i`: what `resized_to` has moved so far. */
  ghost function BucketsBelow<K, X>(m: map<K, X>, where: map<K, nat>, i: nat): map<K, X>
  {
    map k | k in m && k in where && where[k] < i :: m[k]
  }

  lemma {:induction false} SubsetCardinality<T>(a: set<T>, b: set<T>)
    requires a <= b
    ensures |a| <= |b|
  {
    if a != {} {
      var x :| x in a;
      SubsetCardinality(a - {x}, b - {x});
    }
  }

  /**
   * One bucket of the drain: an occupied bucket adds its entry, which was
   * not yet moved, to the moved ones; an empty bucket adds nothing.
   */
  lemma DrainStep<K, V>(s: seq<Node<K, V>>, contents: map<K, V>, where: map<K, nat>, hashes: map<K, HashType>, i: nat)
    requires i < |s| && IndexedExcept(s, contents, where, hashes, {})
    requires where.Keys == contents.Keys && hashes.Keys == contents.Keys
    ensures s[i].Occupied? ==>
      s[i].key !in BucketsBelow(contents, where, i) &&
      |BucketsBelow(contents, where, i)| < |contents| &&
      BucketsBelow(contents, where, i + 1) == BucketsBelow(contents, where, i)[s[i].key := s[i].value] &&
      BucketsBelow(hashes, where, i + 1) == BucketsBelow(hashes, where, i)[s[i].key := s[i].hash]
    ensures s[i].Vacant? ==>
      BucketsBelow(contents, where, i + 1) == BucketsBelow(contents, where, i) &&
      BucketsBelow(hashes, where, i + 1) == BucketsBelow(hashes, where, i)
  {
    var below := BucketsBelow(contents, where, i);
    if s[i].Occupied? {
      var k := s[i].key;
      assert StoredIn(s[i], i, contents, where, hashes);
      assert below.Keys <= contents.Keys - {k};
      SubsetCardinality(below.Keys, contents.Keys - {k});
      BelowAdd(contents, where, i, k);
      BelowAdd(hashes, where, i, k);
    } else {
      forall k | k in where
        ensures where[k] != i
      {
        assert where[k] < |s| && s[where[k]].Occupied?;
      }
      BelowSame(contents, where, i);
      BelowSame(hashes, where, i);
    }
  }

  /** Passing the bucket of `k`, the only key there, moves `k`'s entry. */
  lemma BelowAdd<K, X>(m: map<K, X>, where: map<K, nat>, i: nat, k: K)
    requires k in m && k in where && where[k] == i
    requires forall x :: x in where && where[x] == i ==> x == k
    ensures BucketsBelow(m, where, i + 1) == BucketsBelow(m, where, i)[k := m[k]]
  {
  }

  /** Passing a bucket no key sits in moves nothing. */
  lemma BelowSame<K, X>(m: map<K, X>, where: map<K, nat>, i: nat)
    requires forall x :: x in where ==> where[x] != i
    ensures BucketsBelow(m, where, i + 1) == BucketsBelow(m, where, i)
  {
  }

  /** After the last bucket every entry has been moved. */
  lemma DrainDone<K, V>(s: seq<Node<K, V>>, contents: map<K, V>, where: map<K, nat>, hashes: map<K, HashType>)
    requires IndexedExcept(s, contents, where, hashes, {})
    requires where.Keys == contents.Keys && hashes.Keys == contents.Keys
    ensures BucketsBelow(contents, where, |s|) == contents && BucketsBelow(hashes, where, |s|) == hashes
  {
    forall k | k in where
      ensures where[k] < |s|
    {
    }
  }

  class NodeStorage<K(==), V> {
    var nodes: seq<Node<K, V>>
    var maxDistanceToInitialBucket: int
    var numberOfItems: nat
    var maxNumberBeforeResize: nat

    /** The entries, as a finite map, the bucket each key sits in and the hash stored with it. */
    ghost var Contents: map<K, V>
    ghost var Where: map<K, nat>
    ghost var Hashes: map<K, HashType>

    ghost predicate Valid()
      reads this
    {
      ValidTable(nodes, maxDistanceToInitialBucket, numberOfItems, maxNumberBeforeResize, Contents, Where, Hashes)
    }

    lemma ValidLocated()
      requires Valid()
      ensures Located(nodes, Where)
    {
      forall i | 0 <= i < |nodes| && nodes[i].Occupied?
        ensures nodes[i].key in Where && Where[nodes[i].key] == i
      {
        assert StoredIn(nodes[i], i, Contents, Where, Hashes);
      }
    }

    /** Every entry sits, with its value and hash, in the bucket `Where` names. */
    lemma Stored(k: K)
      requires Valid() && k in Contents
      ensures k in Where && Where[k] < |nodes| && nodes[Where[k]].Occupied? && nodes[Where[k]].key == k
      ensures nodes[Where[k]].value == Contents[k] && k in Hashes && nodes[Where[k]].hash == Hashes[k]
    {
      assert StoredIn(nodes[Where[k]], Where[k], Contents, Where, Hashes);
    }

    /** `with_size_in`: `capacity` empty buckets; panics unless `capacity` is a power of two. */
    constructor WithSizeIn(capacity: nat)
      requires IsPowerOfTwo(capacity) && capacity <= MAX_BACKING_SIZE
      ensures Valid()
      ensures |nodes| == capacity && Contents == map[]
      ensures maxNumberBeforeResize == NumberBeforeResize(capacity)
    {
      var ns: seq<Node<K, V>> := [];
      var i := 0;
      while i < capacity
        invariant i <= capacity && |ns| == i
        invariant forall j :: 0 <= j < i ==> ns[j] == Vacant
        invariant Occupancy(ns) == 0
      {
        assert (ns + [NewNode()])[..i] == ns;
        ns := ns + [NewNode()];
        i := i + 1;
      }
      nodes := ns;
      maxDistanceToInitialBucket := 0;
      numberOfItems := 0;
      maxNumberBeforeResize := NumberBeforeResize(capacity);
      Contents := map[];
      Where := map[];
      Hashes := map[];
    }

    /** `capacity()`: how many entries fit before the table must grow. */
    function Capacity(): (r: nat)
      reads this
      requires Valid()
      ensures r == NumberBeforeResize(|nodes|) && r >= Len()
    {
      maxNumberBeforeResize
    }

    function BackingVecSize(): (r: nat)
      reads this
      requires Valid()
      ensures r == |nodes| && IsPowerOfTwo(r)
    {
      |nodes|
    }

    /** `len()`: the number of entries. */
    function Len(): (r: nat)
      reads this
      requires Valid()
      ensures r == |Contents|
    {
      numberOfItems
    }

    /**
     * `location(key, hash)`: probe distances 0..=max distance from the
     * initial bucket of `hash`; give up at the first empty bucket.
     */
    method Location(key: K, hash: HashType) returns (r: Option<nat>)
      requires Valid()
      ensures r.Some? ==> r.value < |nodes| && nodes[r.value].Occupied? && nodes[r.value].key == key
      ensures r.None? ==> forall i :: 0 <= i < |nodes| && nodes[i].Occupied? && nodes[i].hash == hash ==> nodes[i].key != key
      ensures r.Some? ==> key in Contents && Where[key] == r.value && Contents[key] == nodes[r.value].value
      ensures key in Contents && Hashes[key] == hash ==> r.Some?
    {
      r := Probe(nodes, maxDistanceToInitialBucket, key, hash);
      if r.Some? {
        assert StoredIn(nodes[r.value], r.value, Contents, Where, Hashes);
      } else if key in Contents {
        assert StoredIn(nodes[Where[key]], Where[key], Contents, Where, Hashes);
      }
    }

    /**
     * `insert_new`: Robin Hood insertion of a key that is not yet present;
     * the result is the bucket that received the new key.
     */
    method InsertNew(key: K, value: V, hash: HashType) returns (insertedLocation: nat)
      requires Valid()
      requires Len() < Capacity()
      requires key !in Contents
      modifies this
      ensures Valid()
      ensures Contents == old(Contents)[key := value]
      ensures Hashes == old(Hashes)[key := hash]
      ensures |nodes| == old(|nodes|) && maxNumberBeforeResize == old(maxNumberBeforeResize)
      ensures insertedLocation == Where[key]
    {
      var buckets, maxDistance;
      ghost var where;
      buckets, maxDistance, insertedLocation, where :=
        InsertEntry(nodes, maxDistanceToInitialBucket, numberOfItems, Contents, Where, Hashes, key, value, hash);
      SetTable(buckets, maxDistance, numberOfItems + 1, Contents[key := value], where, Hashes[key := hash]);
    }

    /**
     * `remove_from_location`: empties the occupied bucket `location` and
     * shifts the entries after it back one bucket each, up to the first
     * empty bucket or entry in its initial bucket. Returns the removed value.
     * Every entry either stays put or moves to the bucket before its old one.
     */
    method RemoveFromLocation(location: nat) returns (value: V)
      requires Valid()
      requires location < |nodes| && nodes[location].Occupied?
      modifies this
      ensures Valid()
      ensures var k := old(nodes[location].key);
        k in old(Contents) && value == old(Contents[k]) &&
        Contents == old(Contents) - {k} && Hashes == old(Hashes) - {k}
      ensures |nodes| == old(|nodes|) && maxNumberBeforeResize == old(maxNumberBeforeResize)
      ensures forall k :: k in Where ==> k in old(Where) && (Where[k] == old(Where[k]) || Next(Where[k], |nodes|) == old(Where[k]))
    {
      ghost var k := nodes[location].key;
      ghost var where': map<K, nat>;
      var buckets;
      buckets, value, where' := BackwardShift(nodes, maxDistanceToInitialBucket, location, numberOfItems,
                                              maxNumberBeforeResize, Contents, Where, Hashes);
      SetTable(buckets, maxDistanceToInitialBucket, numberOfItems - 1, Contents - {k}, where', Hashes - {k});
    }

    /**
     * `retain(f)`: removes every entry for which `f` is false, scanning the
     * buckets in order. After a removal the same bucket is examined again,
     * because the backward shift may have moved the next entry into it.
     */
    method Retain(f: (K, V) -> bool)
      requires Valid()
      modifies this
      ensures Valid()
      ensures Contents == Kept(old(Contents), f)
      ensures forall k :: k in Hashes ==> k in old(Hashes) && Hashes[k] == old(Hashes)[k]
      ensures |nodes| == old(|nodes|) && maxNumberBeforeResize == old(maxNumberBeforeResize)
    {
      var buckets, count;
      ghost var contents, where, hashes;
      buckets, count, contents, where, hashes :=
        RetainBuckets(f, nodes, maxDistanceToInitialBucket, numberOfItems, maxNumberBeforeResize, Contents, Where, Hashes);
      SetTable(buckets, maxDistanceToInitialBucket, count, contents, where, hashes);
    }

    /**
     * `replace_at_location`: put a new value (and the caller's equal key) in
     * the occupied bucket `location`; the old value comes back.
     */
    method ReplaceAtLocation(location: nat, key: K, value: V) returns (previous: V)
      requires Valid()
      requires location < |nodes| && nodes[location].Occupied? && nodes[location].key == key
      modifies this
      ensures Valid()
      ensures key in old(Contents) && previous == old(Contents)[key]
      ensures Contents == old(Contents)[key := value] && Where == old(Where) && Hashes == old(Hashes)
      ensures |nodes| == old(|nodes|) && maxNumberBeforeResize == old(maxNumberBeforeResize)
    {
      ReplaceKeepsTable(nodes, maxDistanceToInitialBucket, numberOfItems, maxNumberBeforeResize,
                        Contents, Where, Hashes, location, value);
      var replaced := Replace(nodes[location], key, value);
      previous := replaced.0.1;
      SetTable(nodes[location := replaced.1], maxDistanceToInitialBucket, numberOfItems,
               Contents[key := value], Where, Hashes);
    }

    /**
     * `resized_to`: a new storage of `newSize` buckets holding every entry,
     * each re-inserted with `insert_new` in bucket order.
     */
    method ResizedTo(newSize: nat) returns (r: NodeStorage<K, V>)
      requires Valid()
      requires IsPowerOfTwo(newSize) && newSize <= MAX_BACKING_SIZE && Len() <= NumberBeforeResize(newSize)
      ensures fresh(r) && r.Valid()
      ensures r.Contents == Contents && r.Hashes == Hashes
      ensures |r.nodes| == newSize && r.maxNumberBeforeResize == NumberBeforeResize(newSize)
    {
      r := new NodeStorage.WithSizeIn(newSize);
      var buckets, maxDistance, count;
      ghost var where;
      buckets, maxDistance, count, where :=
        Reinsert(nodes, Contents, Where, Hashes, r.nodes, r.maxDistanceToInitialBucket);
      r.SetTable(buckets, maxDistance, count, Contents, where, Hashes);
    }

    /** Replaces the whole table state by one that satisfies the storage invariant. */
    method SetTable(buckets: seq<Node<K, V>>, maxDistance: int, count: nat,
                    ghost contents: map<K, V>, ghost where: map<K, nat>, ghost hashes: map<K, HashType>)
      requires ValidTable(buckets, maxDistance, count, maxNumberBeforeResize, contents, where, hashes)
      modifies this
      ensures nodes == buckets && maxDistanceToInitialBucket == maxDistance && numberOfItems == count
      ensures maxNumberBeforeResize == old(maxNumberBeforeResize)
      ensures Contents == contents && Where == where && Hashes == hashes
      ensures Valid()
    {
      nodes, maxDistanceToInitialBucket, numberOfItems := buckets, maxDistance, count;
      Contents, Where, Hashes := contents, where, hashes;
    }
  }

  /**
   * The probing loop of `insert_new`: carry `newNode` forward, swapping it
   * with every resident that is no further from its initial bucket, until
   * an empty bucket takes the carried entry.
   */
  method RobinHoodInsert<K, V>(buckets0: seq<Node<K, V>>, maxDistance0: int, newNode0: Node<K, V>, ghost e: nat,
                               ghost contents: map<K, V>, ghost where0: map<K, nat>, ghost hashes: map<K, HashType>,
                               ghost key: K, count: nat)
    returns (buckets: seq<Node<K, V>>, maxDistance: int, insertedLocation: nat, ghost where: map<K, nat>)
    requires IsPowerOfTwo(|buckets0|) && |buckets0| <= MAX_BACKING_SIZE
    requires Occupancy(buckets0) == count && |contents| == count + 1 && count + 1 <= NumberBeforeResize(|buckets0|)
    requires newNode0.Occupied? && newNode0.key == key
    requires Inserting(buckets0, maxDistance0, newNode0, e, contents, where0, hashes, key, USIZE_MAX)
    ensures ValidTable(buckets, maxDistance, count + 1, NumberBeforeResize(|buckets0|), contents, where, hashes)
    ensures |buckets| == |buckets0| && key in where && where[key] == insertedLocation
  {
    var n: nat := |buckets0|;
    buckets := buckets0;
    maxDistance := maxDistance0;
    where := where0;
    var newNode := newNode0;
    insertedLocation := USIZE_MAX;
    while true
      invariant |buckets| == n && Occupancy(buckets) == count
      invariant Inserting(buckets, maxDistance, newNode, e, contents, where, hashes, key, insertedLocation)
      decreases Gap(Slot(newNode, n), e, n)
    {
      ProbeLocation(newNode, n);
      var location := FastMod(AddDistance(newNode.hash, newNode.Distance()), n);
      var currentNode := buckets[location];
      if currentNode.HasValue() {
        if currentNode.Distance() <= newNode.Distance() {
          InsertSwap(buckets, maxDistance, newNode, e, contents, where, hashes, key, insertedLocation);
          buckets := buckets[location := newNode];
          where := where[newNode.key := location];
          newNode := currentNode;
          if insertedLocation == USIZE_MAX {
            insertedLocation := location;
          }
        } else {
          InsertPast(buckets, maxDistance, newNode, e, contents, where, hashes, key, insertedLocation);
        }
      } else {
        InsertPlace(buckets, maxDistance, newNode, e, contents, where, hashes, key, insertedLocation, count);
        buckets := buckets[location := newNode];
        where := where[newNode.key := location];
        if insertedLocation == USIZE_MAX {
          insertedLocation := location;
        }
        break;
      }
      newNode := IncrementDistance(newNode);
      maxDistance := MaxInt(newNode.Distance(), maxDistance);
    }
  }

  /**
   * The loop of `remove_from_location`: bucket `current` holds the removed
   * entry; while the entry after it is displaced, the two swap and the
   * moved entry's distance drops by one.
   */
  method BackwardShift<K, V>(buckets0: seq<Node<K, V>>, maxDistance: int, location: nat, ghost count: nat,
                             ghost maxBeforeResize: nat, ghost contents0: map<K, V>, ghost where0: map<K, nat>,
                             ghost hashes0: map<K, HashType>)
    returns (buckets: seq<Node<K, V>>, value: V, ghost where: map<K, nat>)
    requires ValidTable(buckets0, maxDistance, count, maxBeforeResize, contents0, where0, hashes0)
    requires location < |buckets0| && buckets0[location].Occupied?
    ensures var k := buckets0[location].key;
      k in contents0 && value == contents0[k] && count >= 1 &&
      ValidTable(buckets, maxDistance, count - 1, maxBeforeResize, contents0 - {k}, where, hashes0 - {k})
    ensures |buckets| == |buckets0|
    ensures forall k :: k in where ==> k in where0 && (where[k] == where0[k] || Next(where[k], |buckets|) == where0[k])
  {
    var n: nat := |buckets0|;
    ghost var k := buckets0[location].key;
    ghost var e := FindVacant(buckets0);
    RemoveStart(buckets0, contents0, where0, hashes0, location);
    ghost var contents, hashes := contents0 - {k}, hashes0 - {k};
    buckets := buckets0;
    where := where0 - {k};
    var currentLocation: nat := location;
    var hole := buckets0[location];
    ghost var holeDistance: int := hole.dist;
    ghost var occupancy := Occupancy(buckets0);
    RemoveBegin(buckets0, maxDistance, location, e, contents, where, hashes);
    while true
      invariant |buckets| == n
      invariant Removing(buckets, maxDistance, currentLocation, holeDistance, hole, e, contents, where, hashes, where0 - {k}, occupancy)
      decreases Gap(currentLocation, e, n)
    {
      NextLocation(currentLocation, n);
      var nextLocation := FastMod(currentLocation + 1, n);
      if !buckets[nextLocation].HasValue() || buckets[nextLocation].Distance() == 0 {
        RemoveEnd(buckets, maxDistance, currentLocation, holeDistance, hole, e, contents, where, hashes, where0 - {k}, occupancy);
        RemoveFinish(buckets0, buckets[currentLocation := Vacant], maxDistance, count, maxBeforeResize,
                     contents0, where0, hashes0, location, where);
        var taken := TakeKeyValue(buckets[currentLocation]);
        buckets := buckets[currentLocation := taken.1];
        value := taken.0.value.1;
        return;
      }
      var moved := buckets[nextLocation];
      RemoveAdvance(buckets, maxDistance, currentLocation, holeDistance, hole, e, contents, where, hashes, where0 - {k}, occupancy);
      holeDistance := moved.dist;
      where := where[moved.key := currentLocation];
      buckets := buckets[currentLocation := DecrementDistance(moved)][nextLocation := hole];
      currentLocation := nextLocation;
    }
  }

  /** The probe of `location`: from the initial bucket of `hash`, for at most the recorded maximum distance. */
  method Probe<K(==), V>(buckets: seq<Node<K, V>>, maxDistance: int, key: K, hash: HashType) returns (r: Option<nat>)
    requires IsPowerOfTwo(|buckets|) && |buckets| <= MAX_BACKING_SIZE && RobinHood(buckets, maxDistance) && maxDistance >= 0
    ensures r.Some? ==> r.value < |buckets| && buckets[r.value].Occupied? && buckets[r.value].key == key
    ensures r.None? ==> forall i :: 0 <= i < |buckets| && buckets[i].Occupied? && buckets[i].hash == hash ==> buckets[i].key != key
  {
    var n := |buckets|;
    var distance := 0;
    while distance < maxDistance + 1
      invariant 0 <= distance <= maxDistance + 1
      invariant forall i :: 0 <= i < n && buckets[i].Occupied? && buckets[i].hash == hash && buckets[i].key == key ==>
        buckets[i].dist >= distance
    {
      ProbeSlot(hash, distance, n);
      var location := FastMod(AddDistance(hash, distance), n);
      var node := buckets[location];
      if node.Vacant? {
        forall i | 0 <= i < n && buckets[i].Occupied? && buckets[i].hash == hash
          ensures buckets[i].key != key
        {
          if buckets[i].key == key {
            NoGap(buckets, maxDistance, i, distance);
          }
        }
        return None;
      }
      if node.key == key {
        return Some(location);
      }
      forall i | 0 <= i < n && buckets[i].Occupied? && buckets[i].hash == hash && buckets[i].key == key
        ensures buckets[i].dist >= distance + 1
      {
        assert Homed(buckets, i, maxDistance);
      }
      distance := distance + 1;
    }
    forall i | 0 <= i < n && buckets[i].Occupied? && buckets[i].hash == hash
      ensures buckets[i].key != key
    {
      assert Homed(buckets, i, maxDistance);
    }
    return None;
  }

  /**
   * The scan of `retain`: bucket by bucket, remove each entry that fails
   * `f` (as `remove_from_location` does) and look at the same bucket again.
   */
  method RetainBuckets<K, V>(f: (K, V) -> bool, buckets0: seq<Node<K, V>>, maxDistance: int, count0: nat,
                             ghost maxBeforeResize: nat, ghost contents0: map<K, V>, ghost where0: map<K, nat>,
                             ghost hashes0: map<K, HashType>)
    returns (buckets: seq<Node<K, V>>, count: nat, ghost contents: map<K, V>, ghost where: map<K, nat>,
             ghost hashes: map<K, HashType>)
    requires ValidTable(buckets0, maxDistance, count0, maxBeforeResize, contents0, where0, hashes0)
    ensures ValidTable(buckets, maxDistance, count, maxBeforeResize, contents, where, hashes)
    ensures |buckets| == |buckets0|
    ensures contents == Kept(contents0, f)
    ensures forall k :: k in hashes ==> k in hashes0 && hashes[k] == hashes0[k]
  {
    var numNodes := |buckets0|;
    var i: nat := 0;
    buckets, count, contents, where, hashes := buckets0, count0, contents0, where0, hashes0;
    while i < numNodes
      invariant ValidTable(buckets, maxDistance, count, maxBeforeResize, contents, where, hashes)
      invariant |buckets| == numNodes && i <= numNodes
      invariant Retaining(f, i, contents0, hashes0, contents, where, hashes)
      decreases numNodes - i, count
    {
      var kv := KeyValueRef(buckets[i]);
      if kv.Some? && !f(kv.value.0, kv.value.1) {
        ghost var k := buckets[i].key;
        var shifted, _, where' := BackwardShift(buckets, maxDistance, i, count, maxBeforeResize, contents, where, hashes);
        RetainAfterRemove(f, i, buckets, contents0, hashes0, contents, where, hashes, where');
        buckets, count, where := shifted, count - 1, where';
        contents, hashes := contents - {k}, hashes - {k};
      } else {
        RetainAfterKeep(f, i, buckets, contents0, hashes0, contents, where, hashes);
        i := i + 1;
      }
    }
    RetainDone(f, buckets, contents0, hashes0, contents, where, hashes);
  }

  /** `insert_new` on the table's state: the entry joins the table and the invariant holds again. */
  method InsertEntry<K, V>(buckets0: seq<Node<K, V>>, maxDistance0: int, count: nat, ghost contents: map<K, V>,
                           ghost where0: map<K, nat>, ghost hashes: map<K, HashType>, key: K, value: V, hash: HashType)
    returns (buckets: seq<Node<K, V>>, maxDistance: int, insertedLocation: nat, ghost where: map<K, nat>)
    requires ValidTable(buckets0, maxDistance0, count, NumberBeforeResize(|buckets0|), contents, where0, hashes)
    requires count < NumberBeforeResize(|buckets0|) && key !in contents
    ensures ValidTable(buckets, maxDistance, count + 1, NumberBeforeResize(|buckets0|),
                       contents[key := value], where, hashes[key := hash])
    ensures |buckets| == |buckets0| && key in where && where[key] == insertedLocation
  {
    ghost var e := FindVacant(buckets0);
    var newNode := NewWith(key, value, hash);
    InsertStart(buckets0, maxDistance0, count, contents, where0, hashes, newNode, e);
    buckets, maxDistance, insertedLocation, where :=
      RobinHoodInsert(buckets0, maxDistance0, newNode, e, contents[key := value], where0[key := e],
                      hashes[key := hash], key, count);
  }

  /**
   * The drain loop of `resized_to`: take each bucket's entry in order and
   * insert it into the new, initially empty table.
   */
  method Reinsert<K, V>(source: seq<Node<K, V>>, ghost contents: map<K, V>, ghost where0: map<K, nat>,
                        ghost hashes: map<K, HashType>, empty: seq<Node<K, V>>, maxDistance0: int)
    returns (buckets: seq<Node<K, V>>, maxDistance: int, count: nat, ghost where: map<K, nat>)
    requires IndexedExcept(source, contents, where0, hashes, {})
    requires where0.Keys == contents.Keys && hashes.Keys == contents.Keys
    requires ValidTable(empty, maxDistance0, 0, NumberBeforeResize(|empty|), map[], map[], map[])
    requires |contents| <= NumberBeforeResize(|empty|)
    ensures ValidTable(buckets, maxDistance, count, NumberBeforeResize(|empty|), contents, where, hashes)
    ensures |buckets| == |empty|
  {
    buckets, maxDistance, count, where := empty, maxDistance0, 0, map[];
    ghost var moved: map<K, V> := map[];
    ghost var movedHashes: map<K, HashType> := map[];
    var i: nat := 0;
    assert BucketsBelow(contents, where0, 0) == map[];
    assert BucketsBelow(hashes, where0, 0) == map[];
    while i < |source|
      invariant i <= |source| && |buckets| == |empty|
      invariant ValidTable(buckets, maxDistance, count, NumberBeforeResize(|empty|), moved, where, movedHashes)
      invariant moved == BucketsBelow(contents, where0, i) && movedHashes == BucketsBelow(hashes, where0, i)
    {
      DrainStep(source, contents, where0, hashes, i);
      var taken := TakeKeyValue(source[i]);
      if taken.0.Some? {
        var entry := taken.0.value;
        var location;
        buckets, maxDistance, location, where :=
          InsertEntry(buckets, maxDistance, count, moved, where, movedHashes, entry.0, entry.1, entry.2);
        count := count + 1;
        moved, movedHashes := moved[entry.0 := entry.1], movedHashes[entry.0 := entry.2];
      }
      i := i + 1;
    }
    DrainDone(source, contents, where0, hashes);
  }
}
