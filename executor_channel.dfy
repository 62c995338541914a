/**
 * The single-threaded channel of agb's async executor
 * (agb/src/executor/channel.rs): a ring buffer over a power-of-two backing
 * array, described by a read head and a length so that no slot is wasted to
 * tell full from empty, plus a count of the live reader and writer ends.
 */
module ExecutorChannel {
  import opened Wrappers
  import opened Bits

  datatype ChannelError = Closed | Full

  /** One poll of a future: finished with a value, or not yet. */
  datatype Poll<T> = Ready(value: T) | Pending

  /** `mod_power_of_2`: `left & (right - 1)`. */
  function ModPowerOf2(left: nat, right: nat): nat
    requires right >= 1
  {
    BitAnd(left, right - 1)
  }

  /** For a power-of-two `right` the mask is the remainder. */
  lemma ModPowerOf2IsMod(left: nat, right: nat)
    requires IsPowerOfTwo(right)
    ensures right >= 1 && ModPowerOf2(left, right) == left % right
  {
    BitAndMask(left, right);
  }

  /** Two different offsets less than `n` from the same head land in different slots. */
  lemma SlotsDistinct(a: nat, k: nat, l: nat, n: nat)
    requires k < l < n
    ensures (a + k) % n != (a + l) % n
  {
    DivMod(a + k, n);
    DivMod(a + l, n);
    var q1, q2 := (a + k) / n, (a + l) / n;
    if (a + k) % n == (a + l) % n {
      assert l - k == n * (q2 - q1);
      if q2 - q1 >= 1 {
        MulLe(n, 1, q2 - q1);
        assert false;
      } else {
        MulLe(n, q2 - q1, 0);
        assert false;
      }
    }
  }

  /** The slot after the head's successor: stepping the head and then adding `k` is adding `k + 1`. */
  lemma NextSlot(head: nat, k: nat, n: nat)
    requires n > 0
    ensures ((head + 1) % n + k) % n == (head + 1 + k) % n
  {
    ModAddLeft(head + 1, k, n);
  }

  /** The slots hold the queue: its `k`-th value sits `k` places after the head, modulo the capacity. */
  ghost predicate RingHolds<T>(slots: seq<Option<T>>, head: nat, queued: seq<T>)
  {
    0 < |slots| && head < |slots| && |queued| <= |slots|
    && forall k :: 0 <= k < |queued| ==> slots[(head + k) % |slots|] == Some(queued[k])
  }

  /** Taking the value at the head leaves the rest of the queue held from the next slot on. */
  lemma RingPop<T>(slots: seq<Option<T>>, head: nat, queued: seq<T>)
    requires RingHolds(slots, head, queued) && |queued| > 0
    ensures slots[head] == Some(queued[0]) && RingHolds(slots, (head + 1) % |slots|, queued[1..])
  {
    var n := |slots|;
    ModUnique(head + 0, n, 0, head);
    assert slots[(head + 0) % n] == Some(queued[0]);
    var next, rest := (head + 1) % n, queued[1..];
    forall k | 0 <= k < |rest|
      ensures slots[(next + k) % n] == Some(rest[k])
    {
      NextSlot(head, k, n);
      assert (next + k) % n == (head + (k + 1)) % n;
      assert rest[k] == queued[k + 1];
    }
  }

  /** Writing into the slot just past the queue extends the queue by that value. */
  lemma RingPush<T>(slots: seq<Option<T>>, head: nat, queued: seq<T>, value: T)
    requires RingHolds(slots, head, queued) && |queued| < |slots|
    ensures RingHolds(slots[(head + |queued|) % |slots|:= Some(value)], head, queued + [value])
  {
    var n, l := |slots|, |queued|;
    var written, longer := slots[(head + l) % n := Some(value)], queued + [value];
    forall k | 0 <= k < |longer|
      ensures written[(head + k) % n] == Some(longer[k])
    {
      if k < l {
        SlotsDistinct(head, k, l, n);
      }
    }
  }

  /**
   * `Inner`: the backing slots `data` (`None` for an uninitialised slot),
   * the read head, the number of queued values and the number of live
   * ends. `contents` is the queue the slots hold, oldest first.
   */
  class Inner<T> {
    var readHead: nat
    var length: nat
    var count: nat
    const data: array<Option<T>>
    ghost var contents: seq<T>

    ghost predicate Valid()
      reads this, data
    {
      IsPowerOfTwo(data.Length) && |contents| == length && RingHolds(data[..], readHead, contents)
    }

    /** `new_with_capacity_in`: the capacity must be a power of two, or it panics; every slot starts empty. */
    constructor (capacity: nat)
      requires IsPowerOfTwo(capacity)
      ensures Valid() && fresh(data) && data.Length == capacity
      ensures contents == [] && readHead == 0 && count == 0
    {
      data := new Option<T>[capacity](_ => None);
      readHead := 0;
      length := 0;
      count := 0;
      contents := [];
    }

    function IsEmpty(): (b: bool)
      requires Valid()
      reads this, data
      ensures b <==> contents == []
    {
      length == 0
    }

    function IsFull(): (b: bool)
      requires Valid()
      reads this, data
      ensures b <==> |contents| == data.Length
    {
      length == data.Length
    }

    /** `read`: `None` when empty; otherwise the oldest value, the head moving on by one slot modulo the capacity. */
    method Read() returns (r: Option<T>)
      requires Valid()
      modifies this
      ensures Valid() && count == old(count)
      ensures old(contents) == [] ==> r == None && contents == [] && readHead == old(readHead)
      ensures old(contents) != [] ==>
        r == Some(old(contents)[0]) && contents == old(contents)[1..] && readHead == (old(readHead) + 1) % data.Length
    {
      if length == 0 {
        return None;
      }
      RingPop(data[..], readHead, contents);
      var slot := data[readHead];
      ModPowerOf2IsMod(readHead + 1, data.Length);
      readHead := ModPowerOf2(readHead + 1, data.Length);
      length := length - 1;
      contents := contents[1..];
      r := Some(slot.value);
    }

    /** `read_immediate`: a value when there is one; when empty, `Closed` if only this end is left, else nothing yet. */
    method ReadImmediate() returns (r: Result<Option<T>, ChannelError>)
      requires Valid()
      modifies this
      ensures Valid() && count == old(count)
      ensures old(contents) != [] ==> r == Ok(Some(old(contents)[0])) && contents == old(contents)[1..]
      ensures old(contents) == [] ==> contents == [] && r == (if count == 1 then Err(Closed) else Ok(None))
    {
      var v := Read();
      if v.Some? {
        return Ok(Some(v.value));
      }
      if count == 1 {
        return Err(Closed);
      }
      return Ok(None);
    }

    /** `write_assume_not_full`: the value goes into the slot `length` places after the head. */
    method WriteAssumeNotFull(value: T)
      requires Valid() && |contents| < data.Length
      modifies this, data
      ensures Valid() && contents == old(contents) + [value]
      ensures readHead == old(readHead) && count == old(count)
      ensures data[(readHead + old(length)) % data.Length] == Some(value)
    {
      ModPowerOf2IsMod(readHead + length, data.Length);
      var slot := ModPowerOf2(readHead + length, data.Length);
      RingPush(data[..], readHead, contents, value);
      data[slot] := Some(value);
      length := length + 1;
      contents := contents + [value];
    }

    /** `write` (and `Writer::write_immediate`): `Full` leaves everything as it was; otherwise the value is queued last. */
    method Write(value: T) returns (r: Result<(), ChannelError>)
      requires Valid()
      modifies this, data
      ensures Valid() && count == old(count) && readHead == old(readHead)
      ensures |old(contents)| == data.Length ==> r == Err(Full) && contents == old(contents) && unchanged(data)
      ensures |old(contents)| < data.Length ==> r == Ok(()) && contents == old(contents) + [value]
    {
      if length == data.Length {
        return Err(Full);
      }
      WriteAssumeNotFull(value);
      return Ok(());
    }

    /** `get_reader_writer`: two more live ends. */
    method GetReaderWriter()
      requires Valid()
      modifies this
      ensures Valid() && count == old(count) + 2 && contents == old(contents) && readHead == old(readHead)
    {
      count := count + 2;
    }

    /** Dropping a `Reader` or a `Writer`: one live end fewer (`count -= 1`, which would underflow at zero). */
    method DropEnd()
      requires Valid() && count > 0
      modifies this
      ensures Valid() && count == old(count) - 1 && contents == old(contents) && readHead == old(readHead)
    {
      count := count - 1;
    }

    /** One poll of `Writer::write`: `Closed` when the reader is gone, pending while full, otherwise the value is queued. */
    method PollWrite(value: T) returns (p: Poll<Result<(), ChannelError>>)
      requires Valid()
      modifies this, data
      ensures Valid() && count == old(count)
      ensures old(count) == 1 ==> p == Ready(Err(Closed)) && contents == old(contents)
      ensures old(count) != 1 && |old(contents)| == data.Length ==> p == Pending && contents == old(contents)
      ensures old(count) != 1 && |old(contents)| < data.Length ==> p == Ready(Ok(())) && contents == old(contents) + [value]
    {
      if count == 1 {
        return Ready(Err(Closed));
      }
      if length == data.Length {
        return Pending;
      }
      WriteAssumeNotFull(value);
      return Ready(Ok(()));
    }

    /** One poll of `Reader::read`: the oldest value, `Closed` when empty and the writer is gone, otherwise pending. */
    method PollRead() returns (p: Poll<Result<T, ChannelError>>)
      requires Valid()
      modifies this
      ensures Valid() && count == old(count)
      ensures old(contents) != [] ==> p == Ready(Ok(old(contents)[0])) && contents == old(contents)[1..]
      ensures old(contents) == [] ==> contents == [] && p == (if count == 1 then Ready(Err(Closed)) else Pending)
    {
      var r := ReadImmediate();
      if r.Err? {
        return Ready(Err(r.error));
      }
      if r.value.Some? {
        return Ready(Ok(r.value.value));
      }
      return Pending;
    }

    /** Dropping the channel, with the slot index taken modulo the capacity: each queued value, oldest first. */
    method Drop() returns (dropped: seq<T>)
      requires Valid()
      ensures dropped == contents
    {
      dropped := [];
      var i := 0;
      while i < length
        invariant 0 <= i <= length
        invariant dropped == contents[..i]
      {
        ModPowerOf2IsMod(readHead + i, data.Length);
        var slot := data[ModPowerOf2(readHead + i, data.Length)];
        assert data[..][(readHead + i) % data.Length] == Some(contents[i]);
        dropped := dropped + [slot.value];
        i := i + 1;
      }
    }
  }

  /** The slots the source's `Drop for Inner` visits: `read_head + i` for each queued value, with no wrap-around. */
  function DropSlotsAsWritten(readHead: nat, length: nat): (r: seq<nat>)
    ensures |r| == length
  {
    seq(length, i => readHead + i)
  }

  /** Those slots all exist exactly when the queue does not wrap past the end of the backing array. */
  lemma DropSlotsAsWrittenInBounds(readHead: nat, length: nat, capacity: nat)
    requires length > 0
    ensures (forall i :: 0 <= i < length ==> DropSlotsAsWritten(readHead, length)[i] < capacity)
      <==> readHead + length <= capacity
  {
    var r := DropSlotsAsWritten(readHead, length);
    if forall i :: 0 <= i < length ==> r[i] < capacity {
      assert r[length - 1] < capacity;
    }
  }

  /**
   * A reachable state in which the source's drop indexes past the end: on a
   * capacity-2 channel, write, read, write, write leaves the head at 1 with
   * two values queued, so the drop touches slot 2.
   */
  method DropAfterWrapExample() returns (slots: seq<nat>, capacity: nat, dropped: seq<int>)
    ensures capacity == 2 && slots == [1, 2] && slots[1] >= capacity
    ensures dropped == [2, 3]
  {
    var c := new Inner<int>(2);
    var w1 := c.Write(1);
    var r1 := c.Read();
    var w2 := c.Write(2);
    var w3 := c.Write(3);
    slots := DropSlotsAsWritten(c.readHead, c.length);
    capacity := c.data.Length;
    dropped := c.Drop();
  }

  /** A channel of capacity 2 fills up, refuses a third value, and hands the values back in order across the wrap-around. */
  method RingExample() returns (third: Result<(), ChannelError>, values: seq<Option<int>>, closed: Result<Option<int>, ChannelError>)
    ensures third == Err(Full) && values == [Some(1), Some(2), Some(3), None] && closed == Err(Closed)
  {
    var c := new Inner<int>(2);
    c.GetReaderWriter();
    var w1 := c.Write(1);
    var w2 := c.Write(2);
    third := c.Write(3);
    var r1 := c.Read();
    var w3 := c.Write(3);
    var r2 := c.Read();
    var r3 := c.Read();
    var r4 := c.Read();
    values := [r1, r2, r3, r4];
    c.DropEnd();
    closed := c.ReadImmediate();
  }
}
