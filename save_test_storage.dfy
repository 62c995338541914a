/**
 * The in-memory storage medium of agb-save (agb-save/src/test_storage.rs),
 * with the `StorageInfo` description of a medium (agb-save/src/lib.rs). It
 * starts as all 0xFF bytes, remembers which erase blocks have been erased
 * since they were last written, counts writes, and can be told to fail every
 * write after a given number of successful ones.
 */
module SaveTestStorage {
  import opened Wrappers
  import opened Slices
  import opened Bits

  /** `StorageInfo`: the size in bytes, the erase block size (`None` when no erase is needed) and the write granularity. */
  datatype StorageInfo = StorageInfo(size: nat, eraseSize: Option<nat>, writeSize: nat)

  /** `erase_size` and `write_size` are `NonZeroUsize`. */
  predicate WellFormed(info: StorageInfo)
  {
    info.writeSize > 0 && (info.eraseSize.Some? ==> info.eraseSize.value > 0)
  }

  datatype TestStorageError = OutOfBounds | NotErased | SimulatedFailure

  /** `n` bytes in the erased state of flash. */
  function Blank(n: nat): (r: seq<bv8>)
    ensures |r| == n
  {
    seq(n, _ => 0xFF)
  }

  /** `usize::div_ceil`. */
  function DivCeil(a: nat, b: nat): nat
    requires b > 0
  {
    (a + b - 1) / b
  }

  /** `div_ceil(a, b)` is the least `q` with `q * b >= a`. */
  lemma DivCeilIsLeast(a: nat, b: nat, q: nat)
    requires b > 0
    ensures DivCeil(a, b) * b >= a
    ensures q * b >= a ==> DivCeil(a, b) <= q
    ensures a % b == 0 ==> DivCeil(a, b) == a / b
  {
    var c := DivCeil(a, b);
    DivMod(a + b - 1, b);
    assert b * c == c * b;
    if q * b >= a && c > q {
      assert b * (q + 1) == q * b + b;
      MulLe(b, q + 1, c);
      assert false;
    }
    if a % b == 0 {
      DivMod(a, b);
      ModUnique(a + b - 1, b, a / b, b - 1);
    }
  }

  /** The number of erase blocks new storage tracks. */
  function NumEraseBlocks(info: StorageInfo): nat
    requires WellFormed(info)
  {
    if info.eraseSize.Some? then DivCeil(info.size, info.eraseSize.value) else 0
  }

  /** The erase flags with blocks `start` to `end - 1` set to `v`; blocks past the end are ignored (`get_mut` giving `None`). */
  function Mark(erased: seq<bool>, start: nat, end: nat, v: bool): (r: seq<bool>)
    ensures |r| == |erased|
  {
    seq(|erased|, i requires 0 <= i < |erased| => if start <= i < end then v else erased[i])
  }

  /** `check_erased`'s loop succeeds: every block from `start` to `end - 1` exists and is erased (a missing block counts as not erased). */
  predicate AllErased(erased: seq<bool>, start: nat, end: nat)
  {
    (start < end ==> end <= |erased|) && forall b :: start <= b < end ==> erased[b]
  }

  /** Blocks that were just marked erased pass the erase check for any range inside the marked one. */
  lemma MarkedErasedPasses(erased: seq<bool>, start: nat, end: nat, lo: nat, hi: nat)
    requires start <= lo && hi <= end && end <= |erased|
    ensures AllErased(Mark(erased, start, end, true), lo, hi)
  {
  }

  /** After a write to a non-empty range of blocks, the same range fails the erase check. */
  lemma WrittenBlocksNotErased(erased: seq<bool>, start: nat, end: nat)
    requires start < end
    ensures !AllErased(Mark(erased, start, end, false), start, end)
  {
    var m := Mark(erased, start, end, false);
    if start < |m| {
      assert !m[start];
    }
  }

  /** The blocks whose flags are outside the marked range keep them. */
  lemma MarkKeepsOthers(erased: seq<bool>, start: nat, end: nat, v: bool, b: nat)
    requires b < |erased| && !(start <= b < end)
    ensures Mark(erased, start, end, v)[b] == erased[b]
  {
  }

  /** Marking a range a second time decides its flags alone. */
  lemma MarkTwice(erased: seq<bool>, start: nat, end: nat, u: bool, v: bool)
    ensures Mark(Mark(erased, start, end, u), start, end, v) == Mark(erased, start, end, v)
  {
  }

  class TestStorage {
    var data: seq<bv8>
    const info: StorageInfo
    /** One flag per erase block: erased since it was last written. */
    var erasedBlocks: seq<bool>
    var writeCount: nat
    var failAfterWrites: Option<nat>

    ghost predicate Valid()
      reads this
    {
      WellFormed(info) && |data| == info.size && |erasedBlocks| == NumEraseBlocks(info)
    }

    /** `TestStorage::new`: all bytes 0xFF, every erase block marked erased, no writes, no simulated failure. */
    constructor (info: StorageInfo)
      requires WellFormed(info)
      ensures Valid() && this.info == info
      ensures data == Blank(info.size) && erasedBlocks == seq(NumEraseBlocks(info), _ => true)
      ensures writeCount == 0 && failAfterWrites == None
    {
      this.info := info;
      data := Blank(info.size);
      erasedBlocks := seq(NumEraseBlocks(info), _ => true);
      writeCount := 0;
      failAfterWrites := None;
    }

    /** `new_sram`: byte-addressable storage that needs no erase. */
    static method NewSram(size: nat) returns (s: TestStorage)
      ensures fresh(s) && s.Valid() && s.info == StorageInfo(size, None, 1)
      ensures s.data == Blank(size) && s.erasedBlocks == [] && s.writeCount == 0 && s.failAfterWrites == None
    {
      s := new TestStorage(StorageInfo(size, None, 1));
    }

    /** `new_flash`: an erase size of 0 means no erase (`NonZeroUsize::new` gives `None`); a write size of 0 panics. */
    static method NewFlash(size: nat, eraseSize: nat, writeSize: nat) returns (s: TestStorage)
      requires writeSize > 0
      ensures fresh(s) && s.Valid() && s.info == StorageInfo(size, if eraseSize == 0 then None else Some(eraseSize), writeSize)
      ensures s.data == Blank(size) && s.erasedBlocks == seq(NumEraseBlocks(s.info), _ => true)
      ensures s.writeCount == 0 && s.failAfterWrites == None
    {
      s := new TestStorage(StorageInfo(size, if eraseSize == 0 then None else Some(eraseSize), writeSize));
    }

    /** `reset_erase_state`: every erase block marked not erased. */
    method ResetEraseState()
      requires Valid()
      modifies this
      ensures Valid() && erasedBlocks == seq(|old(erasedBlocks)|, _ => false)
      ensures data == old(data) && writeCount == old(writeCount) && failAfterWrites == old(failAfterWrites)
    {
      var i := 0;
      while i < |erasedBlocks|
        invariant 0 <= i <= |erasedBlocks| == |old(erasedBlocks)|
        invariant erasedBlocks == seq(i, _ => false) + old(erasedBlocks)[i..]
        invariant data == old(data) && writeCount == old(writeCount) && failAfterWrites == old(failAfterWrites)
      {
        erasedBlocks := erasedBlocks[i := false];
        i := i + 1;
      }
    }

    /** `fail_after_writes`: sets the limit and restarts the write count. */
    method FailAfterWrites(count: Option<nat>)
      requires Valid()
      modifies this
      ensures Valid() && failAfterWrites == count && writeCount == 0
      ensures data == old(data) && erasedBlocks == old(erasedBlocks)
    {
      failAfterWrites := count;
      writeCount := 0;
    }

    /** `is_block_erased`: a block past the tracked ones counts as erased. */
    function IsBlockErased(block: nat): (r: bool)
      reads this
      ensures block >= |erasedBlocks| ==> r
      ensures block < |erasedBlocks| ==> r == erasedBlocks[block]
    {
      if block < |erasedBlocks| then erasedBlocks[block] else true
    }

    /** The write limit is reached: the next write fails. */
    predicate Failing()
      reads this
    {
      failAfterWrites.Some? && writeCount >= failAfterWrites.value
    }

    /** `check_erase_alignment`: the erase asserts that panic on a misaligned range. */
    predicate EraseAligned(offset: nat, len: nat)
      reads this
    {
      info.eraseSize.Some? && info.eraseSize.value > 0 ==> offset % info.eraseSize.value == 0 && len % info.eraseSize.value == 0
    }

    /** `check_write_alignment`: the write asserts that panic on a misaligned range. */
    predicate WriteAligned(offset: nat, len: nat)
      reads this
    {
      info.writeSize > 0 ==> offset % info.writeSize == 0 && len % info.writeSize == 0
    }

    /** The erase blocks a write of `len` bytes at `offset` touches: `offset / e` up to `div_ceil(offset + len, e)`. */
    function WriteBlocks(offset: nat, len: nat): (nat, nat)
      reads this
      requires Valid() && info.eraseSize.Some?
    {
      (offset / info.eraseSize.value, DivCeil(offset + len, info.eraseSize.value))
    }

    /** `read`: `OutOfBounds` past the end, otherwise the buffer is filled from the storage. */
    method Read(offset: nat, buf: array<bv8>) returns (r: Result<(), TestStorageError>)
      requires Valid()
      modifies buf
      ensures r.Err? <==> offset + buf.Length > info.size
      ensures r.Err? ==> r.error == OutOfBounds && buf[..] == old(buf[..])
      ensures r.Ok? ==> buf[..] == data[offset..offset + buf.Length]
    {
      if offset + buf.Length > info.size {
        return Err(OutOfBounds);
      }
      CopyFromSlice(buf, 0, data[offset..offset + buf.Length]);
      r := Ok(());
    }

    /**
     * `erase`: does nothing on a medium without erase; otherwise
     * `OutOfBounds` past the end, and a misaligned range panics. The range is
     * filled with 0xFF and every whole erase block in it is marked erased.
     */
    method Erase(offset: nat, len: nat) returns (r: Result<(), TestStorageError>)
      requires Valid()
      requires offset + len <= info.size ==> EraseAligned(offset, len)
      modifies this
      ensures Valid() && writeCount == old(writeCount) && failAfterWrites == old(failAfterWrites)
      ensures info.eraseSize.None? ==> r.Ok? && data == old(data) && erasedBlocks == old(erasedBlocks)
      ensures info.eraseSize.Some? && offset + len > info.size ==> r == Err(OutOfBounds) && data == old(data) && erasedBlocks == old(erasedBlocks)
      ensures info.eraseSize.Some? && offset + len <= info.size ==>
        (r.Ok? && data == Overwrite(old(data), offset, Blank(len))
         && erasedBlocks == Mark(old(erasedBlocks), offset / info.eraseSize.value, (offset + len) / info.eraseSize.value, true))
    {
      if info.eraseSize.None? {
        return Ok(());
      }
      if offset + len > info.size {
        return Err(OutOfBounds);
      }
      data := Overwrite(data, offset, Blank(len));
      var eraseSize := info.eraseSize.value;
      MarkBlocks(offset / eraseSize, (offset + len) / eraseSize, true);
      r := Ok(());
    }

    /** `check_erased`: every erase block the range touches must be marked erased. */
    method CheckErased(offset: nat, len: nat) returns (r: Result<(), TestStorageError>)
      requires Valid()
      ensures info.eraseSize.None? ==> r.Ok?
      ensures info.eraseSize.Some? ==> (r.Ok? <==> AllErased(erasedBlocks, WriteBlocks(offset, len).0, WriteBlocks(offset, len).1))
      ensures r.Err? ==> r.error == NotErased
    {
      if info.eraseSize.None? {
        return Ok(());
      }
      var eraseSize := info.eraseSize.value;
      var startBlock := offset / eraseSize;
      var endBlock := DivCeil(offset + len, eraseSize);
      var block := startBlock;
      while block < endBlock
        invariant startBlock <= block <= endBlock || block == startBlock
        invariant AllErased(erasedBlocks, startBlock, block)
      {
        if !(block < |erasedBlocks| && erasedBlocks[block]) {
          assert !AllErased(erasedBlocks, startBlock, endBlock) by {
            assert startBlock <= block < endBlock;
          }
          return Err(NotErased);
        }
        block := block + 1;
      }
      assert AllErased(erasedBlocks, startBlock, endBlock);
      r := Ok(());
    }

    /** The loop over `start..end` that sets each erase block that exists (`get_mut` giving `Some`) to `v`. */
    method MarkBlocks(start: nat, end: nat, v: bool)
      requires Valid()
      modifies this
      ensures Valid() && erasedBlocks == Mark(old(erasedBlocks), start, end, v)
      ensures data == old(data) && writeCount == old(writeCount) && failAfterWrites == old(failAfterWrites)
    {
      var block := start;
      while block < end
        invariant (start <= block <= end || block == start) && |erasedBlocks| == |old(erasedBlocks)|
        invariant forall i :: 0 <= i < |erasedBlocks| ==> erasedBlocks[i] == if start <= i < block then v else old(erasedBlocks)[i]
        invariant Valid() && data == old(data) && writeCount == old(writeCount) && failAfterWrites == old(failAfterWrites)
      {
        if block < |erasedBlocks| {
          erasedBlocks := erasedBlocks[block := v];
        }
        block := block + 1;
      }
      assert forall i :: 0 <= i < |erasedBlocks| ==> erasedBlocks[i] == Mark(old(erasedBlocks), start, end, v)[i];
    }

    /**
     * `write`: in this order, a simulated failure once the limit is reached,
     * `OutOfBounds` past the end, a panic on a misaligned range, `NotErased`
     * when a touched block is not erased; otherwise the bytes are copied,
     * the touched blocks are marked not erased and the write is counted.
     * Every error leaves the storage as it was.
     */
    method Write(offset: nat, src: seq<bv8>) returns (r: Result<(), TestStorageError>)
      requires Valid()
      requires !Failing() && offset + |src| <= info.size ==> WriteAligned(offset, |src|)
      modifies this
      ensures Valid() && failAfterWrites == old(failAfterWrites)
      ensures old(Failing()) ==> r == Err(SimulatedFailure)
      ensures !old(Failing()) && offset + |src| > info.size ==> r == Err(OutOfBounds)
      ensures (!old(Failing()) && offset + |src| <= info.size && info.eraseSize.Some?
               && !AllErased(old(erasedBlocks), WriteBlocks(offset, |src|).0, WriteBlocks(offset, |src|).1)) ==> r == Err(NotErased)
      ensures r.Err? ==> data == old(data) && erasedBlocks == old(erasedBlocks) && writeCount == old(writeCount)
      ensures r.Ok? <==>
        (!old(Failing()) && offset + |src| <= info.size
         && (info.eraseSize.Some? ==> AllErased(old(erasedBlocks), WriteBlocks(offset, |src|).0, WriteBlocks(offset, |src|).1)))
      ensures r.Ok? ==>
        (data == Overwrite(old(data), offset, src) && writeCount == old(writeCount) + 1
         && erasedBlocks == (if info.eraseSize.Some? then Mark(old(erasedBlocks), WriteBlocks(offset, |src|).0, WriteBlocks(offset, |src|).1, false) else old(erasedBlocks)))
    {
      if failAfterWrites.Some? && writeCount >= failAfterWrites.value {
        return Err(SimulatedFailure);
      }
      if offset + |src| > info.size {
        return Err(OutOfBounds);
      }
      var erased := CheckErased(offset, |src|);
      if erased.Err? {
        return erased;
      }
      data := Overwrite(data, offset, src);
      if info.eraseSize.Some? {
        var eraseSize := info.eraseSize.value;
        MarkBlocks(offset / eraseSize, DivCeil(offset + |src|, eraseSize), false);
      }
      writeCount := writeCount + 1;
      r := Ok(());
    }
  }

  /** The test of SRAM reads and writes: two writes read back at their offsets. */
  method SramReadWriteExample() returns (first: seq<bv8>, second: seq<bv8>)
    ensures first == [1, 2, 3, 4] && second == [5, 6, 7, 8]
  {
    var storage := TestStorage.NewSram(1024);
    var w1 := storage.Write(0, [1, 2, 3, 4]);
    var w2 := storage.Write(100, [5, 6, 7, 8]);
    assert w1.Ok? && w2.Ok?;
    var buf := new bv8[4];
    var r1 := storage.Read(0, buf);
    first := buf[..];
    var r2 := storage.Read(100, buf);
    second := buf[..];
  }

  /** The test of the bounds: a write that ends exactly at the end succeeds, one byte further is `OutOfBounds` for both writing and reading. */
  method SramOutOfBoundsExample() returns (atEnd: Result<(), TestStorageError>, pastEnd: Result<(), TestStorageError>, readPastEnd: Result<(), TestStorageError>)
    ensures atEnd.Ok? && pastEnd == Err(OutOfBounds) && readPastEnd == Err(OutOfBounds)
  {
    var storage := TestStorage.NewSram(100);
    atEnd := storage.Write(96, [1, 2, 3, 4]);
    pastEnd := storage.Write(97, [1, 2, 3, 4]);
    var buf := new bv8[4];
    readPastEnd := storage.Read(97, buf);
  }

  /** The test of flash erasing: after a reset a write is `NotErased`; after erasing the block the same write succeeds and reads back. */
  method FlashRequiresEraseExample() returns (before: Result<(), TestStorageError>, after: Result<(), TestStorageError>, readBack: seq<bv8>)
    ensures before == Err(NotErased) && after.Ok? && readBack == [1, 2, 3, 4]
  {
    var storage := TestStorage.NewFlash(1024, 256, 4);
    assert |storage.erasedBlocks| == 4;
    storage.ResetEraseState();
    assert !storage.erasedBlocks[0];
    before := storage.Write(0, [1, 2, 3, 4]);
    ghost var flags := storage.erasedBlocks;
    var e := storage.Erase(0, 256);
    MarkedErasedPasses(flags, 0, 1, 0, 1);
    ghost var erasedData := storage.data;
    after := storage.Write(0, [1, 2, 3, 4]);
    OverwriteReadBack(erasedData, 0, [1, 2, 3, 4]);
    var buf := new bv8[4];
    var r := storage.Read(0, buf);
    readBack := buf[..];
  }

  /** The test of simulated failures: with a limit of two, the third write fails without being counted; lifting the limit lets it through. */
  method SimulatedFailureExample() returns (counts: seq<nat>, third: Result<(), TestStorageError>, retried: Result<(), TestStorageError>)
    ensures counts == [1, 2, 2] && third == Err(SimulatedFailure) && retried.Ok?
  {
    var storage := TestStorage.NewSram(1024);
    storage.FailAfterWrites(Some(2));
    var w1 := storage.Write(0, [1]);
    var c1 := storage.writeCount;
    var w2 := storage.Write(1, [2]);
    var c2 := storage.writeCount;
    third := storage.Write(2, [3]);
    counts := [c1, c2, storage.writeCount];
    storage.FailAfterWrites(None);
    retried := storage.Write(2, [3]);
  }
}
