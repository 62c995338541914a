/*
 * The object store behind the managed OAM: objects live in an arena, and a
 * doubly linked list threaded through them (`next`/`previous` keys, with
 * `first_z` at its head) keeps them in z order for drawing. The list is
 * described by a ghost sequence `order` of arena keys, which the links
 * must spell out exactly.
 */
module ManagedStore {
  import opened Bits
  import opened Wrappers

  /** `ObjectKey`, an arena key. */
  type Key = int

  /** The `z_order` links and the `z_index` of an `ObjectItem`; the object itself is left out. */
  datatype Item = Item(next: Option<Key>, previous: Option<Key>, z: i32)

  /** `s` with the entry at `i` taken out. */
  function Without(s: seq<Key>, i: nat): (r: seq<Key>)
    requires i < |s|
    ensures |r| == |s| - 1
    ensures forall j {:trigger r[j]} | 0 <= j < |r| :: r[j] == if j < i then s[j] else s[j + 1]
  {
    s[..i] + s[i + 1..]
  }

  /** `s` with `k` put in at `i`. */
  function InsertAt(s: seq<Key>, i: nat, k: Key): (r: seq<Key>)
    requires i <= |s|
    ensures |r| == |s| + 1
    ensures forall j {:trigger r[j]} | 0 <= j < |r| :: r[j] == if j < i then s[j] else if j == i then k else s[j - 1]
  {
    s[..i] + [k] + s[i..]
  }

  /** Taking out and putting back the same key at the same place changes nothing. */
  lemma WithoutInsertAt(s: seq<Key>, i: nat)
    requires i < |s|
    ensures InsertAt(Without(s, i), i, s[i]) == s
  {
  }

  /** Every key of `order` is in `items`. */
  ghost predicate Stored(order: seq<Key>, items: map<Key, Item>)
  {
    forall i | 0 <= i < |order| :: order[i] in items
  }

  /** The key at position `i`; distinctness is stated over it so that it is used only where asked for. */
  ghost function KeyAt(order: seq<Key>, i: int): Key
    requires 0 <= i < |order|
  {
    order[i]
  }

  /** No key appears twice in `order`. */
  ghost predicate Distinct(order: seq<Key>)
  {
    forall i, j | 0 <= i < |order| && 0 <= j < |order| && i != j :: KeyAt(order, i) != KeyAt(order, j)
  }

  lemma DistinctAt(order: seq<Key>, i: int, j: int)
    requires Distinct(order) && 0 <= i < |order| && 0 <= j < |order| && i != j
    ensures order[i] != order[j]
  {
    assert KeyAt(order, i) != KeyAt(order, j);
  }

  /** The z of the object at position `u`. */
  ghost function ZAt(order: seq<Key>, items: map<Key, Item>, u: nat): int
    requires u < |order| && order[u] in items
  {
    items[order[u]].z as int
  }

  /** A walk along `order` meets nondecreasing z values. */
  ghost predicate Sorted(order: seq<Key>, items: map<Key, Item>)
    requires Stored(order, items)
  {
    forall i, j {:trigger ZAt(order, items, i), ZAt(order, items, j)} | 0 <= i < j < |order| :: ZAt(order, items, i) <= ZAt(order, items, j)
  }

  /** The z values along the list. */
  ghost function Zs(order: seq<Key>, items: map<Key, Item>): (r: seq<int>)
    requires Stored(order, items)
    ensures |r| == |order| && forall i | 0 <= i < |order| :: r[i] == ZAt(order, items, i)
  {
    seq(|order|, i requires 0 <= i < |order| => items[order[i]].z)
  }

  ghost predicate Nondecreasing(s: seq<int>)
  {
    forall i, j | 0 <= i < j < |s| :: s[i] <= s[j]
  }

  /** Sorting is a property of the z values alone. */
  lemma SortedZs(order: seq<Key>, items: map<Key, Item>)
    requires Stored(order, items)
    ensures Sorted(order, items) <==> Nondecreasing(Zs(order, items))
  {
  }

  /** The neighbours that position `i` of `order` must link to. */
  function NextOf(order: seq<Key>, i: nat): Option<Key>
  {
    if i + 1 < |order| then Some(order[i + 1]) else None
  }

  function PreviousOf(order: seq<Key>, i: nat): Option<Key>
    requires i <= |order|
  {
    if 0 < i then Some(order[i - 1]) else None
  }

  /** The first key of the list, `first_z`. */
  function Head(order: seq<Key>): Option<Key>
  {
    if |order| == 0 then None else Some(order[0])
  }

  /** Each item's `next` and `previous` are its neighbours in `order`. */
  ghost predicate Threaded(order: seq<Key>, items: map<Key, Item>)
  {
    Stored(order, items) && Distinct(order) &&
    (forall i {:trigger items[order[i]]} | 0 <= i < |order| :: items[order[i]].next == NextOf(order, i)) &&
    (forall i {:trigger items[order[i]]} | 0 <= i < |order| :: items[order[i]].previous == PreviousOf(order, i))
  }

  /**
   * Unlinking position `i`: if the item before it now points past it, the
   * item after it points back past it, and nothing else on the list
   * changed, the links spell the shorter list.
   */
  lemma UnlinkThreads(order: seq<Key>, items: map<Key, Item>, updated: map<Key, Item>, i: nat)
    requires Threaded(order, items) && i < |order|
    requires forall j | 0 <= j < |order| && j != i :: order[j] in updated
    requires forall j | 0 <= j < |order| && j + 1 != i && j != i && j != i + 1 :: updated[order[j]] == items[order[j]]
    requires 0 < i ==> updated[order[i - 1]].next == NextOf(order, i) && updated[order[i - 1]].previous == items[order[i - 1]].previous
    requires i + 1 < |order| ==> updated[order[i + 1]].previous == PreviousOf(order, i) && updated[order[i + 1]].next == items[order[i + 1]].next
    ensures Threaded(Without(order, i), updated)
  {
    var shorter := Without(order, i);
    forall j | 0 <= j < |shorter|
      ensures shorter[j] in updated && updated[shorter[j]].next == NextOf(shorter, j)
    {
      UnlinkNext(order, items, updated, i, j);
    }
    forall j | 0 <= j < |shorter|
      ensures shorter[j] in updated && updated[shorter[j]].previous == PreviousOf(shorter, j)
    {
      UnlinkPrevious(order, items, updated, i, j);
    }
    WithoutDistinct(order, i);
  }

  lemma WithoutDistinct(order: seq<Key>, i: nat)
    requires Distinct(order) && i < |order|
    ensures Distinct(Without(order, i))
  {
    var shorter := Without(order, i);
    forall a, b | 0 <= a < |shorter| && 0 <= b < |shorter| && a != b
      ensures KeyAt(shorter, a) != KeyAt(shorter, b)
    {
      var a', b' := if a < i then a else a + 1, if b < i then b else b + 1;
      assert shorter[a] == order[a'] && shorter[b] == order[b'];
      DistinctAt(order, a', b');
    }
  }

  lemma UnlinkNext(order: seq<Key>, items: map<Key, Item>, updated: map<Key, Item>, i: nat, j: nat)
    requires Threaded(order, items) && i < |order| && j + 1 < |order|
    requires forall j | 0 <= j < |order| && j != i :: order[j] in updated
    requires forall j | 0 <= j < |order| && j + 1 != i && j != i && j != i + 1 :: updated[order[j]] == items[order[j]]
    requires 0 < i ==> updated[order[i - 1]].next == NextOf(order, i)
    requires i + 1 < |order| ==> updated[order[i + 1]].next == items[order[i + 1]].next
    ensures Without(order, i)[j] in updated && updated[Without(order, i)[j]].next == NextOf(Without(order, i), j)
  {
    var shorter := Without(order, i);
    if j + 1 == i {
      assert shorter[j] == order[j];
    } else if j < i {
      assert shorter[j] == order[j] && shorter[j + 1] == order[j + 1];
    } else {
      assert shorter[j] == order[j + 1];
      assert updated[order[j + 1]].next == items[order[j + 1]].next;
      if j + 1 < |shorter| {
        assert shorter[j + 1] == order[j + 2];
      }
    }
  }

  lemma UnlinkPrevious(order: seq<Key>, items: map<Key, Item>, updated: map<Key, Item>, i: nat, j: nat)
    requires Threaded(order, items) && i < |order| && j + 1 < |order|
    requires forall j | 0 <= j < |order| && j != i :: order[j] in updated
    requires forall j | 0 <= j < |order| && j + 1 != i && j != i && j != i + 1 :: updated[order[j]] == items[order[j]]
    requires 0 < i ==> updated[order[i - 1]].previous == items[order[i - 1]].previous
    requires i + 1 < |order| ==> updated[order[i + 1]].previous == PreviousOf(order, i)
    ensures Without(order, i)[j] in updated && updated[Without(order, i)[j]].previous == PreviousOf(Without(order, i), j)
  {
    var shorter := Without(order, i);
    if j < i {
      assert shorter[j] == order[j];
      assert updated[order[j]].previous == items[order[j]].previous;
      if 0 < j {
        assert shorter[j - 1] == order[j - 1];
      }
    } else if j == i {
      assert shorter[j] == order[j + 1];
    } else {
      assert shorter[j] == order[j + 1] && shorter[j - 1] == order[j];
    }
  }

  /**
   * Linking a new key in at position `i`: if it points to its new
   * neighbours, they point to it, and nothing else on the list changed,
   * the links spell the longer list.
   */
  lemma LinkThreads(order: seq<Key>, items: map<Key, Item>, updated: map<Key, Item>, i: nat, k: Key)
    requires Threaded(order, items) && i <= |order| && k !in order && k in updated
    requires forall j | 0 <= j < |order| :: order[j] in updated
    requires forall j | 0 <= j < |order| && j + 1 != i && j != i :: updated[order[j]] == items[order[j]]
    requires updated[k].next == (if i < |order| then Some(order[i]) else None)
    requires updated[k].previous == PreviousOf(order, i)
    requires 0 < i ==> updated[order[i - 1]].next == Some(k) && updated[order[i - 1]].previous == items[order[i - 1]].previous
    requires i < |order| ==> updated[order[i]].previous == Some(k) && updated[order[i]].next == items[order[i]].next
    ensures Threaded(InsertAt(order, i, k), updated)
  {
    var longer := InsertAt(order, i, k);
    forall j | 0 <= j < |longer|
      ensures longer[j] in updated && updated[longer[j]].next == NextOf(longer, j)
    {
      LinkNext(order, items, updated, i, k, j);
    }
    forall j | 0 <= j < |longer|
      ensures longer[j] in updated && updated[longer[j]].previous == PreviousOf(longer, j)
    {
      LinkPrevious(order, items, updated, i, k, j);
    }
    InsertAtDistinct(order, i, k);
  }

  lemma InsertAtDistinct(order: seq<Key>, i: nat, k: Key)
    requires Distinct(order) && i <= |order| && k !in order
    ensures Distinct(InsertAt(order, i, k))
  {
    var longer := InsertAt(order, i, k);
    forall a, b | 0 <= a < |longer| && 0 <= b < |longer| && a != b
      ensures KeyAt(longer, a) != KeyAt(longer, b)
    {
      if a != i && b != i {
        var a', b' := if a < i then a else a - 1, if b < i then b else b - 1;
        assert longer[a] == order[a'] && longer[b] == order[b'];
        DistinctAt(order, a', b');
      } else if a == i {
        assert longer[b] == order[if b < i then b else b - 1];
      } else {
        assert longer[a] == order[if a < i then a else a - 1];
      }
    }
  }

  lemma LinkNext(order: seq<Key>, items: map<Key, Item>, updated: map<Key, Item>, i: nat, k: Key, j: nat)
    requires Threaded(order, items) && i <= |order| && k !in order && k in updated && j <= |order|
    requires forall j | 0 <= j < |order| :: order[j] in updated
    requires forall j | 0 <= j < |order| && j + 1 != i && j != i :: updated[order[j]] == items[order[j]]
    requires updated[k].next == (if i < |order| then Some(order[i]) else None)
    requires 0 < i ==> updated[order[i - 1]].next == Some(k)
    requires i < |order| ==> updated[order[i]].next == items[order[i]].next
    ensures InsertAt(order, i, k)[j] in updated && updated[InsertAt(order, i, k)[j]].next == NextOf(InsertAt(order, i, k), j)
  {
    var longer := InsertAt(order, i, k);
    if j + 1 == i {
      assert longer[j] == order[j] && longer[j + 1] == k;
    } else if j < i {
      assert longer[j] == order[j] && longer[j + 1] == order[j + 1];
    } else if j == i {
      if j < |order| {
        assert longer[j + 1] == order[j];
      }
    } else {
      assert longer[j] == order[j - 1];
      assert updated[order[j - 1]].next == items[order[j - 1]].next;
      if j + 1 < |longer| {
        assert longer[j + 1] == order[j];
      }
    }
  }

  lemma LinkPrevious(order: seq<Key>, items: map<Key, Item>, updated: map<Key, Item>, i: nat, k: Key, j: nat)
    requires Threaded(order, items) && i <= |order| && k !in order && k in updated && j <= |order|
    requires forall j | 0 <= j < |order| :: order[j] in updated
    requires forall j | 0 <= j < |order| && j + 1 != i && j != i :: updated[order[j]] == items[order[j]]
    requires updated[k].previous == PreviousOf(order, i)
    requires 0 < i ==> updated[order[i - 1]].previous == items[order[i - 1]].previous
    requires i < |order| ==> updated[order[i]].previous == Some(k)
    ensures InsertAt(order, i, k)[j] in updated && updated[InsertAt(order, i, k)[j]].previous == PreviousOf(InsertAt(order, i, k), j)
  {
    var longer := InsertAt(order, i, k);
    if j < i {
      assert longer[j] == order[j];
      assert updated[order[j]].previous == items[order[j]].previous;
      if 0 < j {
        assert longer[j - 1] == order[j - 1];
      }
    } else if j == i {
      if 0 < j {
        assert longer[j - 1] == order[j - 1];
      }
    } else if j == i + 1 {
      assert longer[j] == order[i] && longer[j - 1] == k;
    } else {
      assert longer[j] == order[j - 1] && longer[j - 1] == order[j - 2];
    }
  }

  /** The items after `remove_from_linked_list` unlinks position `i`. */
  ghost function UnlinkedMap(order: seq<Key>, items: map<Key, Item>, i: nat): map<Key, Item>
    requires Stored(order, items) && i < |order|
  {
    var joined := if 0 < i then items[order[i - 1] := items[order[i - 1]].(next := NextOf(order, i))] else items;
    var rejoined := if i + 1 < |order| then joined[order[i + 1] := joined[order[i + 1]].(previous := PreviousOf(order, i))] else joined;
    rejoined[order[i] := rejoined[order[i]].(next := None, previous := None)]
  }

  /** Unlinking leaves a threaded list one shorter, clears the links of the key taken out, and keeps every z. */
  lemma UnlinkedMapMeaning(order: seq<Key>, items: map<Key, Item>, i: nat)
    requires Threaded(order, items) && i < |order|
    ensures Threaded(Without(order, i), UnlinkedMap(order, items, i))
    ensures SameZ(items, UnlinkedMap(order, items, i))
    ensures UnlinkedMap(order, items, i)[order[i]] == items[order[i]].(next := None, previous := None)
  {
    UnlinkedMapUntouched(order, items, i);
    UnlinkThreads(order, items, UnlinkedMap(order, items, i), i);
  }

  lemma UnlinkedMapUntouched(order: seq<Key>, items: map<Key, Item>, i: nat)
    requires Threaded(order, items) && i < |order|
    ensures forall j | 0 <= j < |order| && j + 1 != i && j != i && j != i + 1 ::
      UnlinkedMap(order, items, i)[order[j]] == items[order[j]]
    ensures 0 < i ==> UnlinkedMap(order, items, i)[order[i - 1]] == items[order[i - 1]].(next := NextOf(order, i))
    ensures i + 1 < |order| ==> UnlinkedMap(order, items, i)[order[i + 1]] == items[order[i + 1]].(previous := PreviousOf(order, i))
    ensures UnlinkedMap(order, items, i)[order[i]] == items[order[i]].(next := None, previous := None)
    ensures SameZ(items, UnlinkedMap(order, items, i))
  {
    if 0 < i {
      DistinctAt(order, i - 1, i);
    }
    if i + 1 < |order| {
      DistinctAt(order, i + 1, i);
      if 0 < i {
        DistinctAt(order, i + 1, i - 1);
      }
    }
    forall j | 0 <= j < |order| && j + 1 != i && j != i && j != i + 1
      ensures UnlinkedMap(order, items, i)[order[j]] == items[order[j]]
    {
      DistinctAt(order, j, i);
      if 0 < i {
        DistinctAt(order, j, i - 1);
      }
      if i + 1 < |order| {
        DistinctAt(order, j, i + 1);
      }
    }
  }

  /** The items after `add_before_element` links `k` in at position `i`, or after `add_after_element` links it in after position `i - 1`. */
  ghost function LinkedMap(order: seq<Key>, items: map<Key, Item>, i: nat, k: Key): map<Key, Item>
    requires Stored(order, items) && i <= |order| && k in items
  {
    var joined := if 0 < i then items[order[i - 1] := items[order[i - 1]].(next := Some(k))] else items;
    var rejoined := if i < |order| then joined[order[i] := joined[order[i]].(previous := Some(k))] else joined;
    rejoined[k := items[k].(next := if i < |order| then Some(order[i]) else None, previous := PreviousOf(order, i))]
  }

  /** Linking an unlinked key in leaves a threaded list one longer and keeps every z. */
  lemma LinkedMapMeaning(order: seq<Key>, items: map<Key, Item>, i: nat, k: Key)
    requires Threaded(order, items) && i <= |order| && k in items && k !in order
    ensures Threaded(InsertAt(order, i, k), LinkedMap(order, items, i, k))
    ensures SameZ(items, LinkedMap(order, items, i, k))
  {
    LinkedMapUntouched(order, items, i, k);
    LinkThreads(order, items, LinkedMap(order, items, i, k), i, k);
  }

  lemma LinkedMapUntouched(order: seq<Key>, items: map<Key, Item>, i: nat, k: Key)
    requires Threaded(order, items) && i <= |order| && k in items && k !in order
    ensures forall j | 0 <= j < |order| && j + 1 != i && j != i :: LinkedMap(order, items, i, k)[order[j]] == items[order[j]]
    ensures 0 < i ==> LinkedMap(order, items, i, k)[order[i - 1]] == items[order[i - 1]].(next := Some(k))
    ensures i < |order| ==> LinkedMap(order, items, i, k)[order[i]] == items[order[i]].(previous := Some(k))
    ensures SameZ(items, LinkedMap(order, items, i, k))
  {
    if 0 < i && i < |order| {
      DistinctAt(order, i - 1, i);
    }
    forall j | 0 <= j < |order| && j + 1 != i && j != i
      ensures LinkedMap(order, items, i, k)[order[j]] == items[order[j]]
    {
      if 0 < i {
        DistinctAt(order, j, i - 1);
      }
      if i < |order| {
        DistinctAt(order, j, i);
      }
    }
  }

  /**
   * `add_before_element` writes the item before first, then the new key,
   * then the item it goes in front of.
   */
  ghost function BeforeMap(order: seq<Key>, items: map<Key, Item>, i: nat, k: Key): map<Key, Item>
    requires Stored(order, items) && i < |order| && k in items
  {
    var joined := if 0 < i then items[order[i - 1] := items[order[i - 1]].(next := Some(k))] else items;
    var linked := joined[k := items[k].(next := Some(order[i]), previous := PreviousOf(order, i))];
    linked[order[i] := items[order[i]].(previous := Some(k))]
  }

  lemma BeforeMapIsLinkedMap(order: seq<Key>, items: map<Key, Item>, i: nat, k: Key)
    requires Threaded(order, items) && i < |order| && k in items && k !in order
    ensures BeforeMap(order, items, i, k) == LinkedMap(order, items, i, k)
  {
    if 0 < i {
      DistinctAt(order, i - 1, i);
    }
  }

  /**
   * `add_after_element` writes the same links in another order: the item
   * after first, then the new key, then the item before.
   */
  ghost function AfterMap(order: seq<Key>, items: map<Key, Item>, i: nat, k: Key): map<Key, Item>
    requires Stored(order, items) && 0 < i <= |order| && k in items
  {
    var rejoined := if i < |order| then items[order[i] := items[order[i]].(previous := Some(k))] else items;
    var linked := rejoined[k := items[k].(previous := Some(order[i - 1]), next := if i < |order| then Some(order[i]) else None)];
    linked[order[i - 1] := items[order[i - 1]].(next := Some(k))]
  }

  lemma AfterMapIsLinkedMap(order: seq<Key>, items: map<Key, Item>, i: nat, k: Key)
    requires Threaded(order, items) && 0 < i <= |order| && k in items && k !in order
    ensures AfterMap(order, items, i, k) == LinkedMap(order, items, i, k)
  {
    if i < |order| {
      DistinctAt(order, i - 1, i);
    }
  }

  /** The two maps hold the same keys with the same z values. */
  ghost predicate SameZ(a: map<Key, Item>, b: map<Key, Item>)
  {
    a.Keys == b.Keys && forall k {:trigger a[k]} {:trigger b[k]} | k in a :: a[k].z == b[k].z
  }

  /** Every stored object is on the list: `insert_object` links each one it stores. */
  ghost predicate Complete(order: seq<Key>, items: map<Key, Item>)
  {
    forall k | k in items :: k in order
  }

  /** The list with the key at `m` moved to position `t` of the result. */
  function Moved(order: seq<Key>, m: nat, t: nat): (r: seq<Key>)
    requires m < |order| && t < |order|
    ensures |r| == |order|
  {
    InsertAt(Without(order, m), t, order[m])
  }

  /** `InsertAt` and `Without` put in and take out one occurrence. */
  lemma InsertAtMultiset(s: seq<Key>, i: nat, k: Key)
    requires i <= |s|
    ensures multiset(InsertAt(s, i, k)) == multiset(s) + multiset{k}
  {
    assert InsertAt(s, i, k) == s[..i] + [k] + s[i..];
    assert s == s[..i] + s[i..];
  }

  lemma WithoutMultiset(s: seq<Key>, i: nat)
    requires i < |s|
    ensures multiset(Without(s, i)) == multiset(s) - multiset{s[i]}
  {
    assert Without(s, i) == s[..i] + s[i + 1..];
    assert s == s[..i] + [s[i]] + s[i + 1..];
  }

  /** A move rearranges the list and keeps the same keys. */
  lemma MovedMultiset(order: seq<Key>, m: nat, t: nat)
    requires m < |order| && t < |order|
    ensures multiset(Moved(order, m, t)) == multiset(order)
  {
    WithoutMultiset(order, m);
    InsertAtMultiset(Without(order, m), t, order[m]);
  }

  /** The z values along the list depend on the z of the listed keys only. */
  lemma ZsSame(order: seq<Key>, a: map<Key, Item>, b: map<Key, Item>)
    requires Stored(order, a) && Stored(order, b)
    requires forall u | 0 <= u < |order| :: a[order[u]].z == b[order[u]].z
    ensures Zs(order, a) == Zs(order, b)
  {
  }

  lemma ZsWithout(order: seq<Key>, items: map<Key, Item>, i: nat)
    requires Stored(order, items) && i < |order|
    ensures Stored(Without(order, i), items)
    ensures Zs(Without(order, i), items) == Without(Zs(order, items), i)
  {
  }

  lemma ZsInsertAt(order: seq<Key>, items: map<Key, Item>, i: nat, k: Key)
    requires Stored(order, items) && i <= |order| && k in items
    ensures Stored(InsertAt(order, i, k), items)
    ensures Zs(InsertAt(order, i, k), items) == InsertAt(Zs(order, items), i, items[k].z)
  {
  }

  /** Taking a value out of a nondecreasing sequence leaves it nondecreasing. */
  lemma WithoutNondecreasing(s: seq<int>, i: nat)
    requires Nondecreasing(s) && i < |s|
    ensures Nondecreasing(Without(s, i))
  {
  }

  /**
   * A value no smaller than the one before position `p` and no larger than
   * the one at `p` may go in at `p`.
   */
  lemma InsertAtNondecreasing(s: seq<int>, p: nat, z: int)
    requires Nondecreasing(s) && p <= |s|
    requires 0 < p ==> s[p - 1] <= z
    requires p < |s| ==> z <= s[p]
    ensures Nondecreasing(InsertAt(s, p, z))
  {
    var r := InsertAt(s, p, z);
    forall a, b | 0 <= a < b < |r|
      ensures r[a] <= r[b]
    {
      if a < p && p < b {
        assert r[a] <= s[p - 1];
      } else if a == p && p < b {
        assert s[p] <= r[b];
      }
    }
  }

  /**
   * Where the backward walk of `set_z` stops: from position `c`, step back
   * while the item before has a z greater than `z`.
   */
  ghost function RunBack(order: seq<Key>, items: map<Key, Item>, c: nat, z: int): (r: nat)
    requires Stored(order, items) && c < |order|
    ensures r <= c
    decreases c
  {
    if c == 0 || items[order[c - 1]].z <= z then c else RunBack(order, items, c - 1, z)
  }

  /**
   * The walk stops at the front of the run of z values greater than `z`
   * that ends at `c`.
   */
  lemma {:induction false} RunBackMeaning(order: seq<Key>, items: map<Key, Item>, c: nat, z: int)
    requires Stored(order, items) && c < |order|
    ensures forall u | RunBack(order, items, c, z) <= u < c :: items[order[u]].z > z
    ensures 0 < RunBack(order, items, c, z) ==> items[order[RunBack(order, items, c, z) - 1]].z <= z
    decreases c
  {
    if c != 0 && items[order[c - 1]].z > z {
      RunBackMeaning(order, items, c - 1, z);
    }
  }

  /** Where the forward walk stops: step on while the item after has a z smaller than `z`. */
  ghost function RunForward(order: seq<Key>, items: map<Key, Item>, c: nat, z: int): (r: nat)
    requires Stored(order, items) && c < |order|
    ensures c <= r < |order|
    decreases |order| - c
  {
    if c + 1 == |order| || items[order[c + 1]].z >= z then c else RunForward(order, items, c + 1, z)
  }

  lemma {:induction false} RunForwardMeaning(order: seq<Key>, items: map<Key, Item>, c: nat, z: int)
    requires Stored(order, items) && c < |order|
    ensures forall u | c < u <= RunForward(order, items, c, z) :: items[order[u]].z < z
    ensures RunForward(order, items, c, z) + 1 < |order| ==> items[order[RunForward(order, items, c, z) + 1]].z >= z
    decreases |order| - c
  {
    if c + 1 != |order| && items[order[c + 1]].z < z {
      RunForwardMeaning(order, items, c + 1, z);
    }
  }

  /** Where `set_z` puts the object at position `m` when its z becomes `z`. */
  ghost function Target(order: seq<Key>, items: map<Key, Item>, m: nat, z: int): (t: nat)
    requires Stored(order, items) && m < |order|
    ensures t < |order|
    ensures z < items[order[m]].z ==> t <= m
    ensures z > items[order[m]].z ==> m <= t
    ensures z == items[order[m]].z ==> t == m
  {
    var old_z := items[order[m]].z;
    if z < old_z then RunBack(order, items, m, z)
    else if z > old_z then RunForward(order, items, m, z)
    else m
  }

  /** The z values after a move and a change of the moved key's z. */
  lemma ZsMoved(order: seq<Key>, items: map<Key, Item>, updated: map<Key, Item>, m: nat, t: nat)
    requires Stored(order, items) && Distinct(order) && m < |order| && t < |order|
    requires Stored(order, updated)
    requires forall u | 0 <= u < |order| && u != m :: updated[order[u]].z == items[order[u]].z
    ensures Stored(Moved(order, m, t), updated)
    ensures Zs(Moved(order, m, t), updated) == InsertAt(Without(Zs(order, items), m), t, updated[order[m]].z)
  {
    var rest := Without(order, m);
    ZsWithout(order, items, m);
    forall u | 0 <= u < |rest|
      ensures updated[rest[u]].z == items[rest[u]].z
    {
      assert rest[u] == if u < m then order[u] else order[u + 1];
    }
    ZsSame(rest, items, updated);
    ZsInsertAt(rest, updated, t, order[m]);
  }

  /**
   * At its `Target` the new z fits between its neighbours in the list
   * without the moved key.
   */
  lemma TargetFits(order: seq<Key>, items: map<Key, Item>, m: nat, z: int)
    requires Stored(order, items) && m < |order| && Sorted(order, items)
    ensures var w := Without(Zs(order, items), m); var t := Target(order, items, m, z);
      (0 < t ==> w[t - 1] <= z) && (t < |w| ==> z <= w[t])
  {
    if z < items[order[m]].z {
      TargetFitsBack(order, items, m, z);
    } else if z > items[order[m]].z {
      TargetFitsForward(order, items, m, z);
    } else {
      var s := Zs(order, items);
      var w := Without(s, m);
      if 0 < m {
        assert w[m - 1] == s[m - 1] && s[m - 1] <= s[m];
      }
      if m < |w| {
        assert w[m] == s[m + 1] && s[m] <= s[m + 1];
      }
    }
  }

  /** `TargetFits` when the new z is smaller: the walk goes back. */
  lemma TargetFitsBack(order: seq<Key>, items: map<Key, Item>, m: nat, z: int)
    requires Stored(order, items) && m < |order| && Sorted(order, items) && z < items[order[m]].z
    ensures var w := Without(Zs(order, items), m); var t := Target(order, items, m, z);
      (0 < t ==> w[t - 1] <= z) && (t < |w| ==> z <= w[t])
  {
    var s := Zs(order, items);
    var w := Without(s, m);
    var t := Target(order, items, m, z);
    RunBackMeaning(order, items, m, z);
    if t < m {
      assert w[t] == s[t];
    } else if t < |w| {
      assert w[t] == s[t + 1] && s[m] <= s[t + 1];
    }
  }

  /** `TargetFits` when the new z is larger: the walk goes forward. */
  lemma TargetFitsForward(order: seq<Key>, items: map<Key, Item>, m: nat, z: int)
    requires Stored(order, items) && m < |order| && Sorted(order, items) && z > items[order[m]].z
    ensures var w := Without(Zs(order, items), m); var t := Target(order, items, m, z);
      (0 < t ==> w[t - 1] <= z) && (t < |w| ==> z <= w[t])
  {
    var s := Zs(order, items);
    var w := Without(s, m);
    var t := Target(order, items, m, z);
    RunForwardMeaning(order, items, m, z);
    if m < t {
      assert w[t - 1] == s[t];
    } else if 0 < t {
      assert w[t - 1] == s[t - 1] && s[t - 1] <= s[m];
    }
  }


  /**
   * Moving an object to its `Target` and giving it the new z keeps a
   * sorted list sorted.
   */
  lemma TargetSorted(order: seq<Key>, items: map<Key, Item>, updated: map<Key, Item>, m: nat, z: int)
    requires Stored(order, items) && Distinct(order) && m < |order| && Sorted(order, items)
    requires Stored(order, updated) && updated[order[m]].z == z
    requires forall u | 0 <= u < |order| && u != m :: updated[order[u]].z == items[order[u]].z
    ensures Stored(Moved(order, m, Target(order, items, m, z)), updated)
    ensures Sorted(Moved(order, m, Target(order, items, m, z)), updated)
  {
    var t := Target(order, items, m, z);
    SortedZs(order, items);
    WithoutNondecreasing(Zs(order, items), m);
    TargetFits(order, items, m, z);
    InsertAtNondecreasing(Without(Zs(order, items), m), t, z);
    ZsMoved(order, items, updated, m, t);
    SortedZs(Moved(order, m, t), updated);
  }

  /** Where `insert_object` puts a new object: before the first item whose z is not negative. */
  ghost function FirstNonNegative(order: seq<Key>, items: map<Key, Item>, t: nat): (p: nat)
    requires Stored(order, items) && t <= |order|
    ensures t <= p <= |order|
    decreases |order| - t
  {
    if t == |order| || items[order[t]].z >= 0 then t else FirstNonNegative(order, items, t + 1)
  }

  lemma {:induction false} FirstNonNegativeMeaning(order: seq<Key>, items: map<Key, Item>, t: nat)
    requires Stored(order, items) && t <= |order|
    ensures forall u | t <= u < FirstNonNegative(order, items, t) :: items[order[u]].z < 0
    ensures FirstNonNegative(order, items, t) < |order| ==> items[order[FirstNonNegative(order, items, t)]].z >= 0
    decreases |order| - t
  {
    if t != |order| && items[order[t]].z < 0 {
      FirstNonNegativeMeaning(order, items, t + 1);
    }
  }

  /** The insert position reads only the z of listed keys. */
  lemma {:induction false} FirstNonNegativeSame(order: seq<Key>, a: map<Key, Item>, b: map<Key, Item>, t: nat)
    requires Stored(order, a) && Stored(order, b) && t <= |order|
    requires forall u | 0 <= u < |order| :: a[order[u]].z == b[order[u]].z
    ensures FirstNonNegative(order, a, t) == FirstNonNegative(order, b, t)
    decreases |order| - t
  {
    if t < |order| {
      FirstNonNegativeSame(order, a, b, t + 1);
    }
  }

  /** Putting a z-0 object at `FirstNonNegative` keeps a sorted list sorted. */
  lemma InsertSorted(order: seq<Key>, items: map<Key, Item>, updated: map<Key, Item>, k: Key)
    requires Stored(order, items) && Sorted(order, items) && k in updated && updated[k].z == 0
    requires Stored(order, updated) && forall u | 0 <= u < |order| :: updated[order[u]].z == items[order[u]].z
    ensures Stored(InsertAt(order, FirstNonNegative(order, items, 0), k), updated)
    ensures Sorted(InsertAt(order, FirstNonNegative(order, items, 0), k), updated)
  {
    var p := FirstNonNegative(order, items, 0);
    FirstNonNegativeMeaning(order, items, 0);
    SortedZs(order, items);
    ZsSame(order, items, updated);
    var s := Zs(order, items);
    InsertAtNondecreasing(s, p, 0);
    ZsInsertAt(order, updated, p, k);
    SortedZs(InsertAt(order, p, k), updated);
  }

  /** Only the links of listed keys matter to `Threaded`: z changes and unlisted keys do not. */
  lemma ThreadedLinks(order: seq<Key>, a: map<Key, Item>, b: map<Key, Item>)
    requires Threaded(order, a)
    requires forall u | 0 <= u < |order| :: order[u] in b && b[order[u]].next == a[order[u]].next && b[order[u]].previous == a[order[u]].previous
    ensures Threaded(order, b)
  {
  }

  /**
   * Where `move_after` relinks: once the key at `m` is out, the anchor from
   * position `p` sits at `j`, and putting the key back just after it is the
   * move to `p + 1` or `p`.
   */
  lemma MovedAfterAt(order: seq<Key>, m: nat, p: nat)
    requires m < |order| && p < |order| && p != m
    ensures var t := if p < m then p + 1 else p;
      0 < t < |order| && Without(order, m)[t - 1] == order[p]
  {
  }

  /** Where `move_before` finds `beforeThis` once `source` is out. */
  lemma MovedBeforeAt(order: seq<Key>, m: nat, p: nat)
    requires m < |order| && p < |order| && p != m
    ensures var j := if p < m then p else p - 1;
      j < |order| - 1 && Without(order, m)[j] == order[p]
  {
  }

  /** A key taken out of a list without repeats is no longer on it. */
  lemma NotInWithout(order: seq<Key>, m: nat)
    requires Distinct(order) && m < |order|
    ensures order[m] !in Without(order, m)
  {
    var rest := Without(order, m);
    forall u | 0 <= u < |rest|
      ensures rest[u] != order[m]
    {
      DistinctAt(order, if u < m then u else u + 1, m);
    }
  }

  /** A position that meets the stopping conditions of the backward walk is where it stops. */
  lemma {:induction false} RunBackAt(order: seq<Key>, items: map<Key, Item>, c: nat, z: int, p: nat)
    requires Stored(order, items) && p <= c < |order|
    requires forall u | p <= u < c :: ZAt(order, items, u) > z
    requires p == 0 || items[order[p - 1]].z <= z
    ensures RunBack(order, items, c, z) == p
    decreases c
  {
    if c != p {
      assert ZAt(order, items, c - 1) > z;
      RunBackAt(order, items, c - 1, z, p);
    }
  }

  lemma {:induction false} RunForwardAt(order: seq<Key>, items: map<Key, Item>, c: nat, z: int, q: nat)
    requires Stored(order, items) && c <= q < |order|
    requires forall u | c < u <= q :: ZAt(order, items, u) < z
    requires q + 1 == |order| || items[order[q + 1]].z >= z
    ensures RunForward(order, items, c, z) == q
    decreases |order| - c
  {
    if c != q {
      assert ZAt(order, items, c + 1) < z;
      RunForwardAt(order, items, c + 1, z, q);
    }
  }

  lemma {:induction false} FirstNonNegativeAt(order: seq<Key>, items: map<Key, Item>, t: nat, p: nat)
    requires Stored(order, items) && t <= p <= |order|
    requires forall u | t <= u < p :: items[order[u]].z < 0
    requires p < |order| ==> items[order[p]].z >= 0
    ensures FirstNonNegative(order, items, t) == p
    decreases |order| - t
  {
    if t != p {
      FirstNonNegativeAt(order, items, t + 1, p);
    }
  }

  /** Taking a key out keeps a sorted list sorted. */
  lemma WithoutSorted(order: seq<Key>, items: map<Key, Item>, updated: map<Key, Item>, i: nat)
    requires Stored(order, items) && Sorted(order, items) && i < |order|
    requires Stored(Without(order, i), updated)
    requires forall u | 0 <= u < |order| - 1 :: updated[Without(order, i)[u]].z == items[Without(order, i)[u]].z
    ensures Sorted(Without(order, i), updated)
  {
    SortedZs(order, items);
    ZsWithout(order, items, i);
    WithoutNondecreasing(Zs(order, items), i);
    ZsSame(Without(order, i), items, updated);
    SortedZs(Without(order, i), updated);
  }

  /** After `remove_object` every object left in the arena is still on the shorter list. */
  lemma CompleteWithout(order: seq<Key>, items: map<Key, Item>, linked: map<Key, Item>, i: nat)
    requires Complete(order, items) && i < |order| && linked.Keys == items.Keys
    ensures Complete(Without(order, i), linked - {order[i]})
  {
    WithoutMultiset(order, i);
    forall k | k in linked - {order[i]}
      ensures k in Without(order, i)
    {
      assert k in items && k in order;
      assert k in multiset(order) && k != order[i];
      assert k in multiset(Without(order, i));
    }
  }

  /** After `insert_object` every object in the arena is on the list, the new one included. */
  lemma CompleteInsertAt(order: seq<Key>, items: map<Key, Item>, final: map<Key, Item>, p: nat, key: Key)
    requires Complete(order, items) && p <= |order| && final.Keys == items.Keys + {key}
    ensures Complete(InsertAt(order, p, key), final)
  {
    InsertAtMultiset(order, p, key);
    forall k | k in final
      ensures k in InsertAt(order, p, key)
    {
      assert k in multiset(order) + multiset{key};
    }
  }

  /** A move keeps every object on the list. */
  lemma CompleteMoved(order: seq<Key>, items: map<Key, Item>, final: map<Key, Item>, m: nat, t: nat)
    requires Complete(order, items) && m < |order| && t < |order| && final.Keys == items.Keys
    ensures Complete(Moved(order, m, t), final)
  {
    MovedMultiset(order, m, t);
    forall k | k in final
      ensures k in Moved(order, m, t)
    {
      assert k in multiset(order);
    }
  }

  /** Dropping the same key from both maps keeps them alike in keys and z. */
  lemma SameZRemove(a: map<Key, Item>, b: map<Key, Item>, k: Key)
    requires SameZ(a, b)
    ensures SameZ(a - {k}, b - {k})
  {
    assert (a - {k}).Keys == a.Keys - {k};
    assert (b - {k}).Keys == b.Keys - {k};
  }

  lemma SameZTrans(a: map<Key, Item>, b: map<Key, Item>, c: map<Key, Item>)
    requires SameZ(a, b) && SameZ(b, c)
    ensures SameZ(a, c)
  {
  }

  /** Giving one key a new z changes that z and no other. */
  lemma SameZExcept(a: map<Key, Item>, b: map<Key, Item>, k: Key, z: int)
    requires SameZ(a, b) && k in b && InI32(z)
    ensures var c := b[k := b[k].(z := z)];
      c.Keys == a.Keys && c[k].z == z && forall j {:trigger c[j]} {:trigger a[j]} | j in c && j != k :: c[j].z == a[j].z
  {
  }

  /** `remove_object` keeps a sorted list sorted. */
  lemma RemovedSorted(order: seq<Key>, items: map<Key, Item>, linked: map<Key, Item>, i: nat)
    requires Threaded(order, items) && i < |order| && Sorted(order, items)
    requires Threaded(Without(order, i), linked) && SameZ(items, linked)
    ensures order[i] !in Without(order, i)
    ensures Sorted(Without(order, i), linked - {order[i]})
  {
    NotInWithout(order, i);
    WithoutSorted(order, items, linked - {order[i]}, i);
  }

  /** `insert_object` keeps a sorted list sorted. */
  lemma InsertedSorted(order: seq<Key>, items: map<Key, Item>, final: map<Key, Item>, key: Key)
    requires Stored(order, items) && Sorted(order, items) && key !in items
    requires SameZ(items[key := Item(None, None, 0)], final)
    ensures Sorted(InsertAt(order, FirstNonNegative(order, items, 0), key), final)
  {
    forall u | 0 <= u < |order|
      ensures final[order[u]].z == items[order[u]].z
    {
      assert order[u] in items && order[u] != key;
      assert items[key := Item(None, None, 0)][order[u]] == items[order[u]];
    }
    InsertSorted(order, items, final, key);
  }

  /** `set_z` keeps a sorted list sorted. */
  lemma SetZSorted(order: seq<Key>, items: map<Key, Item>, moved: map<Key, Item>, m: nat, z: i32)
    requires Threaded(order, items) && m < |order| && Sorted(order, items) && SameZ(items, moved)
    ensures Sorted(Moved(order, m, Target(order, items, m, z)), moved[order[m] := moved[order[m]].(z := z)])
  {
    var final := moved[order[m] := moved[order[m]].(z := z)];
    forall u | 0 <= u < |order| && u != m
      ensures final[order[u]].z == items[order[u]].z
    {
      DistinctAt(order, u, m);
      assert order[u] in items;
    }
    TargetSorted(order, items, final, m, z);
  }

  /** What `set_z` leaves once the moved object's z is stored. */
  lemma SetZState(order: seq<Key>, items: map<Key, Item>, moved: map<Key, Item>, m: nat, z: i32)
    requires Threaded(order, items) && Complete(order, items) && m < |order|
    requires Threaded(Moved(order, m, Target(order, items, m, z)), moved) && SameZ(items, moved)
    ensures var final := moved[order[m] := moved[order[m]].(z := z)];
      Threaded(Moved(order, m, Target(order, items, m, z)), final) &&
      Complete(Moved(order, m, Target(order, items, m, z)), final) &&
      final.Keys == items.Keys && final[order[m]].z == z &&
      (forall k {:trigger final[k]} {:trigger items[k]} | k in final && k != order[m] :: final[k].z == items[k].z) &&
      (Sorted(order, items) ==> Sorted(Moved(order, m, Target(order, items, m, z)), final))
  {
    var t := Target(order, items, m, z);
    var final := moved[order[m] := moved[order[m]].(z := z)];
    SameZExcept(items, moved, order[m], z);
    ThreadedLinks(Moved(order, m, t), moved, final);
    CompleteMoved(order, items, final, m, t);
    if Sorted(order, items) {
      SetZSorted(order, items, moved, m, z);
    }
  }

  /**
   * `remove_from_linked_list` on the arena `items` whose list starts at
   * `firstZ`: the neighbours of `toRemove`, at position `i`, are joined (or
   * `first_z` moves on) and its own links are cleared; every z stays.
   */
  method RemoveFromLinkedList(items: map<Key, Item>, firstZ: Option<Key>, ghost order: seq<Key>, toRemove: Key, ghost i: nat)
    returns (linked: map<Key, Item>, head: Option<Key>)
    requires Threaded(order, items) && firstZ == Head(order) && i < |order| && order[i] == toRemove
    ensures Threaded(Without(order, i), linked) && head == Head(Without(order, i))
    ensures SameZ(items, linked)
    ensures linked[toRemove] == items[toRemove].(next := None, previous := None)
  {
    var m := items;
    head := firstZ;
    var neighbours := m[toRemove];
    assert neighbours.previous == PreviousOf(order, i) && neighbours.next == NextOf(order, i);
    if neighbours.previous.Some? {
      var previous := neighbours.previous.value;
      assert 0 < i && previous == order[i - 1];
      m := m[previous := m[previous].(next := neighbours.next)];
    } else {
      assert i == 0;
      head := neighbours.next;
    }
    if neighbours.next.Some? {
      var next := neighbours.next.value;
      assert i + 1 < |order| && next == order[i + 1];
      m := m[next := m[next].(previous := neighbours.previous)];
    } else {
      assert i + 1 == |order|;
    }
    m := m[toRemove := m[toRemove].(next := None, previous := None)];
    assert m == UnlinkedMap(order, items, i);
    UnlinkedMapMeaning(order, items, i);
    linked := m;
  }

  /**
   * `add_before_element`: the unlinked `elem` goes into the list just
   * before `beforeThis`, at position `j`, the two being different keys.
   */
  method AddBeforeElement(items: map<Key, Item>, firstZ: Option<Key>, ghost order: seq<Key>, elem: Key, beforeThis: Key, ghost j: nat)
    returns (linked: map<Key, Item>, head: Option<Key>)
    requires Threaded(order, items) && firstZ == Head(order)
    requires elem != beforeThis && elem in items && elem !in order
    requires j < |order| && order[j] == beforeThis
    ensures Threaded(InsertAt(order, j, elem), linked) && head == Head(InsertAt(order, j, elem))
    ensures SameZ(items, linked)
  {
    var m := items;
    head := firstZ;
    var thisElement := m[elem];
    var before := m[beforeThis];
    assert before.previous == PreviousOf(order, j);
    if before.previous.Some? {
      var previous := before.previous.value;
      assert 0 < j && previous == order[j - 1];
      m := m[previous := m[previous].(next := Some(elem))];
    } else {
      assert j == 0;
      head := Some(elem);
    }
    thisElement := thisElement.(next := Some(beforeThis), previous := before.previous);
    before := before.(previous := Some(elem));
    m := m[elem := thisElement];
    m := m[beforeThis := before];
    assert m == BeforeMap(order, items, j, elem);
    BeforeMapIsLinkedMap(order, items, j, elem);
    LinkedMapMeaning(order, items, j, elem);
    linked := m;
  }

  /**
   * `add_after_element`: the unlinked `elem` goes into the list just
   * after `afterThis`, at position `j`; `first_z` is left alone.
   */
  method AddAfterElement(items: map<Key, Item>, ghost order: seq<Key>, elem: Key, afterThis: Key, ghost t: nat)
    returns (linked: map<Key, Item>)
    requires Threaded(order, items)
    requires elem != afterThis && elem in items && elem !in order
    requires 0 < t <= |order| && order[t - 1] == afterThis
    ensures Threaded(InsertAt(order, t, elem), linked) && Head(InsertAt(order, t, elem)) == Head(order)
    ensures SameZ(items, linked)
  {
    var m := items;
    var thisElement := m[elem];
    var after := m[afterThis];
    assert after.next == NextOf(order, t - 1);
    if after.next.Some? {
      var next := after.next.value;
      assert t < |order| && next == order[t];
      m := m[next := m[next].(previous := Some(elem))];
    } else {
      assert t == |order|;
    }
    thisElement := thisElement.(previous := Some(afterThis), next := after.next);
    after := after.(next := Some(elem));
    m := m[elem := thisElement];
    m := m[afterThis := after];
    assert m == AfterMap(order, items, t, elem);
    AfterMapIsLinkedMap(order, items, t, elem);
    LinkedMapMeaning(order, items, t, elem);
    linked := m;
  }

  /**
   * `move_before`: `source`, at `m`, is unlinked and linked again just
   * before `beforeThis`, at `p`, which sits one place earlier once `source`
   * is out if it came after it.
   */
  method MoveBefore(items: map<Key, Item>, firstZ: Option<Key>, ghost order: seq<Key>, source: Key, beforeThis: Key, ghost m: nat, ghost p: nat)
    returns (linked: map<Key, Item>, head: Option<Key>)
    requires Threaded(order, items) && firstZ == Head(order) && source != beforeThis
    requires m < |order| && order[m] == source && p < |order| && order[p] == beforeThis
    ensures Threaded(Moved(order, m, if p < m then p else p - 1), linked)
    ensures head == Head(Moved(order, m, if p < m then p else p - 1))
    ensures SameZ(items, linked)
  {
    NotInWithout(order, m);
    var unlinked, unlinkedHead := RemoveFromLinkedList(items, firstZ, order, source, m);
    MovedBeforeAt(order, m, p);
    var j: nat := if p < m then p else p - 1;
    linked, head := AddBeforeElement(unlinked, unlinkedHead, Without(order, m), source, beforeThis, j);
    SameZTrans(items, unlinked, linked);
  }

  /** `move_after`: `source` is unlinked and linked again just after `afterThis`. */
  method MoveAfter(items: map<Key, Item>, firstZ: Option<Key>, ghost order: seq<Key>, source: Key, afterThis: Key, ghost m: nat, ghost p: nat)
    returns (linked: map<Key, Item>, head: Option<Key>)
    requires Threaded(order, items) && firstZ == Head(order) && source != afterThis
    requires m < |order| && order[m] == source && p < |order| && order[p] == afterThis
    ensures Threaded(Moved(order, m, if p < m then p + 1 else p), linked)
    ensures head == Head(Moved(order, m, if p < m then p + 1 else p))
    ensures SameZ(items, linked)
  {
    NotInWithout(order, m);
    MovedAfterAt(order, m, p);
    var unlinked, unlinkedHead := RemoveFromLinkedList(items, firstZ, order, source, m);
    var t: nat := if p < m then p + 1 else p;
    linked := AddAfterElement(unlinked, Without(order, m), source, afterThis, t);
    head := unlinkedHead;
    SameZTrans(items, unlinked, linked);
  }

  /**
   * The walk of `insert_object` over a non-empty list: from `first_z`,
   * step on while the z is negative and there is a next object. It stops
   * at the insert position, or at the last object when every z is
   * negative.
   */
  method WalkToNonNegative(items: map<Key, Item>, firstZ: Option<Key>, ghost order: seq<Key>) returns (thisIndex: Key, ghost t: nat)
    requires Threaded(order, items) && firstZ == Head(order) && |order| > 0
    ensures t < |order| && thisIndex == order[t]
    ensures items[thisIndex].z < 0 ==> t + 1 == |order| == FirstNonNegative(order, items, 0)
    ensures items[thisIndex].z >= 0 ==> t == FirstNonNegative(order, items, 0)
    ensures thisIndex == order[if FirstNonNegative(order, items, 0) < |order| then FirstNonNegative(order, items, 0) else |order| - 1]
  {
    thisIndex := firstZ.value;
    t := 0;
    while items[thisIndex].z < 0
      invariant t < |order| && order[t] == thisIndex
      invariant forall u | 0 <= u < t :: items[order[u]].z < 0
      decreases |order| - t
    {
      var next := items[thisIndex].next;
      if next.Some? {
        assert t + 1 < |order| && next.value == order[t + 1];
        thisIndex := next.value;
        t := t + 1;
      } else {
        break;
      }
    }
    if items[thisIndex].z < 0 {
      FirstNonNegativeAt(order, items, 0, t + 1);
    } else {
      FirstNonNegativeAt(order, items, 0, t);
    }
  }

  /**
   * The linking part of `insert_object`: the new object, stored under the
   * fresh arena key `key` with z 0, goes in before the first object whose z
   * is not negative, or last when there is none. A sorted list stays sorted.
   */
  method InsertObjectLinks(items: map<Key, Item>, firstZ: Option<Key>, ghost order: seq<Key>, key: Key)
    returns (stored: map<Key, Item>, head: Option<Key>)
    requires Threaded(order, items) && firstZ == Head(order) && Complete(order, items) && key !in items
    ensures Threaded(InsertAt(order, FirstNonNegative(order, items, 0), key), stored)
    ensures head == Head(InsertAt(order, FirstNonNegative(order, items, 0), key))
    ensures Complete(InsertAt(order, FirstNonNegative(order, items, 0), key), stored)
    ensures SameZ(items[key := Item(None, None, 0)], stored)
    ensures Sorted(order, items) ==> Sorted(InsertAt(order, FirstNonNegative(order, items, 0), key), stored)
  {
    var added := items[key := Item(None, None, 0)];
    ThreadedLinks(order, items, added);
    FirstNonNegativeSame(order, items, added, 0);
    if firstZ.Some? {
      var thisIndex, t := WalkToNonNegative(added, firstZ, order);
      if added[thisIndex].z < 0 {
        stored := AddAfterElement(added, order, key, thisIndex, t + 1);
        head := firstZ;
      } else {
        stored, head := AddBeforeElement(added, firstZ, order, key, thisIndex, t);
      }
    } else {
      assert InsertAt(order, 0, key) == [key];
      stored := added;
      head := Some(key);
    }
    CompleteInsertAt(order, items, stored, FirstNonNegative(order, items, 0), key);
    if Sorted(order, items) {
      InsertedSorted(order, items, stored, key);
    }
  }

  /**
   * `remove_object`: the object at position `i` is unlinked and then
   * dropped from the arena; every other object keeps its z, and a sorted
   * list stays sorted.
   */
  method RemoveObjectLinks(items: map<Key, Item>, firstZ: Option<Key>, ghost order: seq<Key>, key: Key, ghost i: nat)
    returns (rest: map<Key, Item>, head: Option<Key>)
    requires Threaded(order, items) && firstZ == Head(order) && Complete(order, items)
    requires i < |order| && order[i] == key
    ensures Threaded(Without(order, i), rest) && head == Head(Without(order, i))
    ensures Complete(Without(order, i), rest)
    ensures SameZ(items - {key}, rest)
    ensures Sorted(order, items) ==> Sorted(Without(order, i), rest)
  {
    NotInWithout(order, i);
    var linked;
    linked, head := RemoveFromLinkedList(items, firstZ, order, key, i);
    rest := linked - {key};
    ThreadedLinks(Without(order, i), linked, rest);
    CompleteWithout(order, items, linked, i);
    SameZRemove(items, linked, key);
    if Sorted(order, items) {
      RemovedSorted(order, items, linked, i);
    }
  }

  /** The links stored at position `c` of a threaded list. */
  lemma NextAt(order: seq<Key>, items: map<Key, Item>, c: nat)
    requires Threaded(order, items) && c < |order|
    ensures items[order[c]].next.Some? <==> c + 1 < |order|
    ensures items[order[c]].next.Some? ==> items[order[c]].next.value == order[c + 1]
  {
  }

  lemma PreviousAt(order: seq<Key>, items: map<Key, Item>, c: nat)
    requires Threaded(order, items) && c < |order|
    ensures items[order[c]].previous.Some? <==> 0 < c
    ensures items[order[c]].previous.Some? ==> items[order[c]].previous.value == order[c - 1]
  {
  }

  /**
   * The backward walk of `set_z`: from the object at `m`, step back
   * while the object reached has a z greater than `z`, and return the
   * last one stepped onto.
   */
  method WalkBack(items: map<Key, Item>, ghost order: seq<Key>, me: Key, z: i32, ghost m: nat) returns (previousIndex: Key, ghost p: nat)
    requires Threaded(order, items) && m < |order| && order[m] == me && items[me].z > z
    ensures p <= m && previousIndex == order[p]
    ensures forall u | p <= u <= m :: ZAt(order, items, u) > z
    ensures p == 0 || items[order[p - 1]].z <= z
    ensures previousIndex == order[RunBack(order, items, m, z)]
  {
    previousIndex := me;
    var currentIndex := me;
    ghost var c: nat := m;
    p := m;
    while items[currentIndex].z > z
      invariant c <= p <= m && (p == c || p == c + 1)
      invariant order[c] == currentIndex && order[p] == previousIndex
      invariant items[order[p]].z > z
      invariant forall u | c < u <= m :: ZAt(order, items, u) > z
      decreases c
    {
      previousIndex := currentIndex;
      p := c;
      var previous := items[currentIndex].previous;
      PreviousAt(order, items, c);
      if previous.Some? {
        assert ZAt(order, items, c) > z;
        ghost var d := c - 1;
        currentIndex := previous.value;
        c := d;
      } else {
        break;
      }
    }
    if items[currentIndex].z <= z {
      assert p == c + 1 && order[p - 1] == currentIndex;
    } else {
      assert c == p && p == 0;
    }
    RunBackAt(order, items, m, z, p);
  }

  /** The forward walk of `set_z`, stepping on while the z reached is smaller than `z`. */
  method WalkForward(items: map<Key, Item>, ghost order: seq<Key>, me: Key, z: i32, ghost m: nat) returns (previousIndex: Key, ghost q: nat)
    requires Threaded(order, items) && m < |order| && order[m] == me && items[me].z < z
    ensures m <= q < |order| && previousIndex == order[q]
    ensures forall u | m <= u <= q :: ZAt(order, items, u) < z
    ensures q + 1 < |order| ==> items[order[q + 1]].z >= z
    ensures previousIndex == order[RunForward(order, items, m, z)]
  {
    previousIndex := me;
    var currentIndex := me;
    ghost var c: nat := m;
    q := m;
    while items[currentIndex].z < z
      invariant m <= q <= c < |order| && (q == c || c == q + 1)
      invariant order[c] == currentIndex && order[q] == previousIndex
      invariant items[order[q]].z < z
      invariant forall u | m <= u < c :: ZAt(order, items, u) < z
      decreases |order| - c
    {
      previousIndex := currentIndex;
      q := c;
      var next := items[currentIndex].next;
      NextAt(order, items, c);
      if next.Some? {
        assert ZAt(order, items, c) < z;
        ghost var d := c + 1;
        currentIndex := next.value;
        c := d;
      } else {
        break;
      }
    }
    if items[currentIndex].z >= z {
      assert c == q + 1 && order[q + 1] == currentIndex;
    } else {
      assert c == q && q + 1 == |order|;
    }
    RunForwardAt(order, items, m, z, q);
  }

  /**
   * The match of `Object::set_z` on how the new z compares with the old:
   * a smaller z moves the object at `m` in front of the run of greater z
   * values just before it, a greater z behind the run of smaller ones
   * just after it, and an equal z leaves the list alone. In all three
   * cases the object ends up at its `Target`.
   */
  method Reposition(items: map<Key, Item>, firstZ: Option<Key>, ghost order: seq<Key>, me: Key, zIndex: i32, ghost m: nat)
    returns (moved: map<Key, Item>, head: Option<Key>)
    requires Threaded(order, items) && firstZ == Head(order) && m < |order| && order[m] == me
    ensures Threaded(Moved(order, m, Target(order, items, m, zIndex)), moved)
    ensures head == Head(Moved(order, m, Target(order, items, m, zIndex)))
    ensures SameZ(items, moved)
  {
    moved, head := items, firstZ;
    var current := items[me].z;
    if zIndex < current {
      var previousIndex, p := WalkBack(items, order, me, zIndex, m);
      RunBackAt(order, items, m, zIndex, p);
      if previousIndex != me {
        moved, head := MoveBefore(items, firstZ, order, me, previousIndex, m, p);
      } else {
        assert p == m;
        WithoutInsertAt(order, m);
      }
    } else if zIndex > current {
      var previousIndex, q := WalkForward(items, order, me, zIndex, m);
      RunForwardAt(order, items, m, zIndex, q);
      if previousIndex != me {
        moved, head := MoveAfter(items, firstZ, order, me, previousIndex, m, q);
      } else {
        assert q == m;
        WithoutInsertAt(order, m);
      }
    } else {
      WithoutInsertAt(order, m);
    }
  }

  /**
   * `Object::set_z` for the object at position `m`: the object moves to
   * its `Target` and then the new z is stored. Only that z changes, and a
   * sorted list stays sorted.
   */
  method SetZLinks(items: map<Key, Item>, firstZ: Option<Key>, ghost order: seq<Key>, me: Key, zIndex: i32, ghost m: nat)
    returns (final: map<Key, Item>, head: Option<Key>, ghost moved: seq<Key>)
    requires Threaded(order, items) && firstZ == Head(order) && Complete(order, items) && m < |order| && order[m] == me
    ensures moved == Moved(order, m, Target(order, items, m, zIndex))
    ensures Threaded(moved, final) && head == Head(moved) && Complete(moved, final)
    ensures final.Keys == items.Keys && final[me].z == zIndex
    ensures forall k {:trigger final[k]} {:trigger items[k]} | k in final && k != me :: final[k].z == items[k].z
    ensures Sorted(order, items) ==> Sorted(moved, final)
  {
    var relinked;
    relinked, head := Reposition(items, firstZ, order, me, zIndex, m);
    SetZState(order, items, relinked, m, zIndex);
    final := relinked[me := relinked[me].(z := zIndex)];
    moved := Moved(order, m, Target(order, items, m, zIndex));
  }

  /** The z values of the first `t` entries of `order` never decrease. */
  ghost predicate SortedPrefix(order: seq<Key>, items: map<Key, Item>, t: nat)
    requires Stored(order, items) && t <= |order|
  {
    forall a, b {:trigger ZAt(order, items, a), ZAt(order, items, b)} | 0 <= a < b < t :: ZAt(order, items, a) <= ZAt(order, items, b)
  }

  /** One more entry no smaller than the one before it extends a sorted prefix. */
  lemma SortedPrefixStep(order: seq<Key>, items: map<Key, Item>, t: nat)
    requires Stored(order, items) && t < |order| && SortedPrefix(order, items, t)
    requires 0 < t ==> items[order[t - 1]].z <= items[order[t]].z
    ensures SortedPrefix(order, items, t + 1)
  {
    forall a, b | 0 <= a < b < t + 1
      ensures ZAt(order, items, a) <= ZAt(order, items, b)
    {
      if b == t && a < t - 1 {
        assert ZAt(order, items, a) <= ZAt(order, items, t - 1);
      }
    }
  }

  /** A prefix as long as the list is the whole list. */
  lemma SortedPrefixWhole(order: seq<Key>, items: map<Key, Item>)
    requires Stored(order, items) && SortedPrefix(order, items, |order|)
    ensures Sorted(order, items)
  {
  }

  /** An adjacent pair out of order means the list is not sorted. */
  lemma UnsortedAt(order: seq<Key>, items: map<Key, Item>, t: nat)
    requires Stored(order, items) && 0 < t < |order| && items[order[t - 1]].z > items[order[t]].z
    ensures !Sorted(order, items)
  {
    assert ZAt(order, items, t - 1) > ZAt(order, items, t);
  }

  /**
   * The walk of `is_all_ordered_right` along the links from `first`: it
   * answers false at the first z smaller than the one before it, and true
   * when it runs off the end, so it answers whether the list is sorted.
   */
  method OrderedWalk(items: map<Key, Item>, first: Option<Key>, ghost order: seq<Key>) returns (r: bool)
    requires Threaded(order, items) && first == Head(order)
    ensures r == Sorted(order, items)
  {
    var previousZ: int := I32_MIN;
    var currentIndex := first;
    ghost var t: nat := 0;
    while currentIndex.Some?
      invariant t <= |order| && currentIndex == (if t < |order| then Some(order[t]) else None)
      invariant previousZ == if t == 0 then I32_MIN else items[order[t - 1]].z
      invariant SortedPrefix(order, items, t)
      decreases |order| - t
    {
      var ci := currentIndex.value;
      var thisZ := items[ci].z;
      assert ci == order[t] && thisZ >= I32_MIN;
      if thisZ < previousZ {
        UnsortedAt(order, items, t);
        return false;
      }
      SortedPrefixStep(order, items, t);
      previousZ := thisZ;
      currentIndex := items[ci].next;
      t := t + 1;
    }
    SortedPrefixWhole(order, items);
    return true;
  }

  /** `Store`: the arena of items and the head of the z-ordered list. */
  class Store {
    var items: map<Key, Item>
    var firstZ: Option<Key>
    ghost var order: seq<Key>

    /**
     * The links spell out `order`: `first_z` is its head, each item's
     * `next` and `previous` are its neighbours in `order`, and no key
     * appears twice.
     */
    ghost predicate Linked()
      reads this
    {
      Threaded(order, items) && firstZ == Head(order)
    }

    /** The store's invariant: the links spell out `order`, and every stored object is on it. */
    ghost predicate Valid()
      reads this
    {
      Linked() && Complete(order, items)
    }

    /** `OrderedStore::new`: no objects and an empty list. */
    constructor ()
      ensures Valid() && items == map[] && order == []
    {
      items := map[];
      firstZ := None;
      order := [];
    }

    /** `insert_object`, storing the new object under the fresh key `key`. */
    method InsertObject(key: Key)
      requires Valid() && key !in items
      modifies this
      ensures Valid()
      ensures order == InsertAt(old(order), FirstNonNegative(old(order), old(items), 0), key)
      ensures SameZ(old(items)[key := Item(None, None, 0)], items)
      ensures old(Sorted(order, items)) ==> Sorted(order, items)
    {
      var stored, head := InsertObjectLinks(items, firstZ, order, key);
      order := InsertAt(order, FirstNonNegative(order, items, 0), key);
      items, firstZ := stored, head;
    }

    /** `remove_object` for the object at position `i` of the list. */
    method RemoveObject(key: Key, ghost i: nat)
      requires Valid() && i < |order| && order[i] == key
      modifies this
      ensures Valid()
      ensures order == Without(old(order), i)
      ensures SameZ(old(items) - {key}, items)
      ensures old(Sorted(order, items)) ==> Sorted(order, items)
    {
      var rest, head := RemoveObjectLinks(items, firstZ, order, key, i);
      order := Without(order, i);
      items, firstZ := rest, head;
    }

    /** `Object::set_z` for the object at position `m` of the list. */
    method SetZ(me: Key, zIndex: i32, ghost m: nat)
      requires Valid() && m < |order| && order[m] == me
      modifies this
      ensures Valid()
      ensures order == Moved(old(order), m, Target(old(order), old(items), m, zIndex))
      ensures items.Keys == old(items).Keys && items[me].z == zIndex
      ensures forall k {:trigger items[k]} {:trigger old(items)[k]} | k in items && k != me :: items[k].z == old(items)[k].z
      ensures old(Sorted(order, items)) ==> Sorted(order, items)
    {
      var final, head, moved := SetZLinks(items, firstZ, order, me, zIndex, m);
      order, items, firstZ := moved, final, head;
    }

    /**
     * `is_all_ordered_right`: a walk along the links from `first_z` meets
     * no z smaller than the one before it, exactly when the list is sorted.
     */
    method IsAllOrderedRight() returns (r: bool)
      requires Linked()
      ensures r == Sorted(order, items)
    {
      r := OrderedWalk(items, firstZ, order);
    }
  }
}
