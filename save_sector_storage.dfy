/**
 * The sector view of a storage medium (agb-save/src/sector_storage.rs): a
 * sector size chosen from the medium's constraints, the number of whole
 * sectors that fit, and sector reads and writes where a write first erases
 * its sector.
 */
module SaveSectorStorage {
  import opened Wrappers
  import opened Bits
  import opened Slices
  import opened SaveTestStorage

  /** `MIN_SECTOR_SIZE`: room for the block headers and some data. */
  const MIN_SECTOR_SIZE: nat := 128

  function Max(a: nat, b: nat): nat
  {
    if a >= b then a else b
  }

  /** `x.div_ceil(m) * m`. */
  function RoundUp(x: nat, m: nat): nat
    requires m > 0
  {
    DivCeil(x, m) * m
  }

  /** `RoundUp` gives the least multiple of `m` that is at least `x`. */
  lemma RoundUpIsLeastMultiple(x: nat, m: nat, k: nat)
    requires m > 0
    ensures RoundUp(x, m) >= x && RoundUp(x, m) % m == 0
    ensures k % m == 0 && k >= x ==> RoundUp(x, m) <= k
  {
    var c := DivCeil(x, m);
    DivCeilIsLeast(x, m, k / m);
    ModMultiple(m, c);
    assert m * c == c * m;
    if k % m == 0 && k >= x {
      DivMod(k, m);
      assert (k / m) * m == m * (k / m);
    }
  }

  /** A multiple of a multiple of `d` is a multiple of `d`. */
  lemma MultipleOfMultiple(x: nat, m: nat, d: nat)
    requires m > 0 && d > 0 && x % m == 0 && m % d == 0
    ensures x % d == 0
  {
    var p := x / m;
    var q := m / d;
    DivMod(x, m);
    DivMod(m, d);
    assert x == (d * q) * p;
    assert (d * q) * p == d * (q * p);
    ModUnique(x, d, q * p, 0);
  }

  /** If `g` divides `b` and `r`, it divides `b * q + r`. */
  lemma DividesCombination(a: nat, b: nat, r: nat, q: nat, g: nat)
    requires g > 0 && b % g == 0 && r % g == 0 && a == b * q + r
    ensures a % g == 0
  {
    var bg := b / g;
    var rg := r / g;
    DivMod(b, g);
    DivMod(r, g);
    assert a == (g * bg) * q + g * rg;
    assert (g * bg) * q == g * (bg * q);
    ModUnique(a, g, bg * q + rg, 0);
  }

  /** Euclid's greatest common divisor. */
  function Gcd(a: nat, b: nat): nat
    decreases b
  {
    if b == 0 then a else Gcd(b, a % b)
  }

  lemma {:induction false} GcdDivides(a: nat, b: nat)
    requires a > 0
    ensures Gcd(a, b) > 0 && a % Gcd(a, b) == 0 && b % Gcd(a, b) == 0
    decreases b
  {
    if b > 0 {
      GcdDivides(b, a % b);
      DivMod(a, b);
      DividesCombination(a, b, a % b, a / b, Gcd(b, a % b));
    }
  }

  /** The least common multiple. */
  function Lcm(a: nat, b: nat): (r: nat)
    requires a > 0 && b > 0
    ensures r > 0
  {
    GcdDivides(a, b);
    DivMod(a, Gcd(a, b));
    MulAtLeast(b, a / Gcd(a, b));
    a / Gcd(a, b) * b
  }

  lemma LcmIsCommonMultiple(a: nat, b: nat)
    requires a > 0 && b > 0
    ensures Lcm(a, b) > 0 && Lcm(a, b) % a == 0 && Lcm(a, b) % b == 0
  {
    var g := Gcd(a, b);
    GcdDivides(a, b);
    var k := a / g;
    var j := b / g;
    DivMod(a, g);
    DivMod(b, g);
    assert k > 0;
    MulAtLeast(b, k);
    assert b * k == k * b;
    ModUnique(k * b, b, k, 0);
    assert k * b == k * (g * j);
    assert k * (g * j) == (g * k) * j;
    ModUnique(k * b, a, j, 0);
  }

  /** When `b` divides `a`, their least common multiple is `a`. */
  lemma LcmOfDivisor(a: nat, b: nat)
    requires a > 0 && b > 0 && a % b == 0
    ensures Lcm(a, b) == a
  {
    assert Gcd(a, b) == Gcd(b, 0) == b;
    DivMod(a, b);
    assert (a / b) * b == b * (a / b);
  }

  /** `max(MIN_SECTOR_SIZE, erase_size, write_size)`, the starting point of the sector size. */
  function LowerBound(info: StorageInfo): nat
  {
    Max(if info.eraseSize.Some? then Max(MIN_SECTOR_SIZE, info.eraseSize.value) else MIN_SECTOR_SIZE, info.writeSize)
  }

  /** `SectorStorage::new` as written: round up to a multiple of the write size, then to a multiple of the erase size. */
  function SectorSizeAsWritten(info: StorageInfo): nat
    requires WellFormed(info)
  {
    var s := RoundUp(LowerBound(info), info.writeSize);
    if info.eraseSize.Some? then RoundUp(s, info.eraseSize.value) else s
  }

  /** The sector size as meant: the lower bound rounded up to a multiple of both the erase and the write size. */
  function SectorSize(info: StorageInfo): nat
    requires WellFormed(info)
  {
    if info.eraseSize.Some? then RoundUp(LowerBound(info), Lcm(info.eraseSize.value, info.writeSize))
    else RoundUp(LowerBound(info), info.writeSize)
  }

  /** The sector size is at least 128, the erase size and the write size, and a multiple of both sizes. */
  lemma SectorSizeAligned(info: StorageInfo)
    requires WellFormed(info)
    ensures SectorSize(info) >= MIN_SECTOR_SIZE && SectorSize(info) >= info.writeSize && SectorSize(info) % info.writeSize == 0
    ensures info.eraseSize.Some? ==> SectorSize(info) >= info.eraseSize.value && SectorSize(info) % info.eraseSize.value == 0
  {
    var w := info.writeSize;
    if info.eraseSize.Some? {
      var e := info.eraseSize.value;
      var l := Lcm(e, w);
      LcmIsCommonMultiple(e, w);
      RoundUpIsLeastMultiple(LowerBound(info), l, 0);
      MultipleOfMultiple(SectorSize(info), l, e);
      MultipleOfMultiple(SectorSize(info), l, w);
    } else {
      RoundUpIsLeastMultiple(LowerBound(info), w, 0);
    }
  }

  /** The code as written gives a multiple of the erase size, and of the write size when there is no erase. */
  lemma SectorSizeAsWrittenAligned(info: StorageInfo)
    requires WellFormed(info)
    ensures SectorSizeAsWritten(info) >= MIN_SECTOR_SIZE && SectorSizeAsWritten(info) >= info.writeSize
    ensures info.eraseSize.Some? ==> SectorSizeAsWritten(info) % info.eraseSize.value == 0
    ensures info.eraseSize.None? ==> SectorSizeAsWritten(info) % info.writeSize == 0
  {
    var w := info.writeSize;
    var s := RoundUp(LowerBound(info), w);
    RoundUpIsLeastMultiple(LowerBound(info), w, 0);
    if info.eraseSize.Some? {
      RoundUpIsLeastMultiple(s, info.eraseSize.value, 0);
    }
  }

  /** When the write size divides the erase size (or there is no erase), the code as written gives the intended size. */
  lemma SectorSizeAgreesWhenWriteDividesErase(info: StorageInfo)
    requires WellFormed(info)
    requires info.eraseSize.Some? ==> info.eraseSize.value % info.writeSize == 0
    ensures SectorSizeAsWritten(info) == SectorSize(info)
  {
    if info.eraseSize.Some? {
      var e := info.eraseSize.value;
      var w := info.writeSize;
      var lo := LowerBound(info);
      var s := RoundUp(lo, w);
      var t := RoundUp(lo, e);
      LcmOfDivisor(e, w);
      RoundUpIsLeastMultiple(lo, e, 0);
      MultipleOfMultiple(t, e, w);
      RoundUpIsLeastMultiple(lo, w, t);
      RoundUpIsLeastMultiple(s, e, t);
      RoundUpIsLeastMultiple(lo, e, RoundUp(s, e));
    }
  }

  /** A medium with write size 3 and erase size 5: the code as written picks 130 bytes, which is not a multiple of the write size; the intended size is 135. */
  lemma SectorSizeAsWrittenMisaligned()
    ensures SectorSizeAsWritten(StorageInfo(1024, Some(5), 3)) == 130
    ensures SectorSizeAsWritten(StorageInfo(1024, Some(5), 3)) % 3 != 0
    ensures SectorSize(StorageInfo(1024, Some(5), 3)) == 135
  {
    assert Gcd(5, 3) == 1;
  }

  /** The test with SRAM of 1024 bytes: sectors of 128 bytes, 8 of them. */
  lemma SramSectorSize()
    ensures SectorSize(StorageInfo(1024, None, 1)) == 128
  {
    assert RoundUp(128, 1) == 128;
  }

  /** The flash tests: erase blocks of 64 and 128 bytes give sectors of 128 bytes, erase blocks of 512 give 512. */
  lemma FlashSectorSize(e: nat)
    requires e == 64 || e == 128 || e == 512
    ensures SectorSize(StorageInfo(1024, Some(e), 4)) == SectorSize(StorageInfo(4096, Some(e), 4)) == if e == 512 then 512 else 128
  {
    LcmOfDivisor(e, 4);
    if e == 512 {
      assert RoundUp(512, 512) == 512;
    } else {
      assert RoundUp(128, e) == 128;
    }
  }

  /** Sector `i` of `count = size / sectorSize` lies inside the medium. */
  lemma SectorFits(size: nat, sectorSize: nat, i: nat)
    requires sectorSize > 0 && i < size / sectorSize
    ensures i * sectorSize + sectorSize <= size
  {
    DivMod(size, sectorSize);
    MulLe(sectorSize, i + 1, size / sectorSize);
    assert sectorSize * (i + 1) == i * sectorSize + sectorSize;
  }

  /** The offset of a sector is a multiple of anything the sector size is a multiple of. */
  lemma SectorOffsetAligned(sectorSize: nat, i: nat, d: nat)
    requires sectorSize > 0 && d > 0 && sectorSize % d == 0
    ensures (i * sectorSize) % d == 0
  {
    ModMultiple(sectorSize, i);
    assert sectorSize * i == i * sectorSize;
    MultipleOfMultiple(i * sectorSize, sectorSize, d);
  }

  /** A medium seen as `sectorCount` sectors of `sectorSize` bytes. */
  class SectorStorage {
    const storage: TestStorage
    const sectorSize: nat
    const sectorCount: nat

    ghost predicate Valid()
      reads this, storage
    {
      storage.Valid() && sectorSize > 0 && sectorSize % storage.info.writeSize == 0
      && (storage.info.eraseSize.Some? ==> sectorSize % storage.info.eraseSize.value == 0)
      && sectorCount == storage.info.size / sectorSize
    }

    /**
     * `SectorStorage::new`. It takes the corrected `SectorSize`, a common
     * multiple of the write and the erase size; the code as written
     * (`SectorSizeAsWritten`) gives the same size whenever the write size
     * divides the erase size, as on every medium the crate supports
     * (`SectorSizeAgreesWhenWriteDividesErase`).
     */
    constructor (storage: TestStorage)
      requires storage.Valid()
      ensures Valid() && this.storage == storage
      ensures sectorSize == SectorSize(storage.info) && sectorCount == storage.info.size / sectorSize
    {
      SectorSizeAligned(storage.info);
      this.storage := storage;
      sectorSize := SectorSize(storage.info);
      sectorCount := storage.info.size / SectorSize(storage.info);
    }

    /** `sector_index * sector_size`, where a sector starts. */
    function SectorOffset(i: nat): nat
    {
      i * sectorSize
    }

    /** `read_sector`: an index past the last sector or a buffer of the wrong length panics; the read itself cannot go out of bounds. */
    method ReadSector(i: nat, buf: array<bv8>) returns (r: Result<(), TestStorageError>)
      requires Valid() && i < sectorCount && buf.Length == sectorSize
      modifies buf
      ensures SectorOffset(i) + sectorSize <= |storage.data|
      ensures r.Ok? && buf[..] == storage.data[SectorOffset(i)..SectorOffset(i) + sectorSize]
    {
      SectorFits(storage.info.size, sectorSize, i);
      r := storage.Read(SectorOffset(i), buf);
    }

    /**
     * `write_sector`: an index past the last sector or data of the wrong
     * length panics. The sector is erased and then written; only the
     * simulated failure can stop the write, and then the sector stays erased.
     */
    method WriteSector(i: nat, data: seq<bv8>) returns (r: Result<(), TestStorageError>)
      requires Valid() && i < sectorCount && |data| == sectorSize
      modifies storage
      ensures Valid() && storage.failAfterWrites == old(storage.failAfterWrites)
      ensures r.Ok? <==> !old(storage.Failing())
      ensures r.Err? ==> r.error == SimulatedFailure && storage.writeCount == old(storage.writeCount)
      ensures r.Ok? ==> storage.writeCount == old(storage.writeCount) + 1
      ensures SectorOffset(i) + sectorSize <= |old(storage.data)|
      ensures (storage.data, storage.erasedBlocks) == AfterEraseThenWrite(storage.info, old(storage.data), old(storage.erasedBlocks), SectorOffset(i), data, r.Err?)
    {
      SectorFits(storage.info.size, sectorSize, i);
      SectorOffsetAligned(sectorSize, i, storage.info.writeSize);
      if storage.info.eraseSize.Some? {
        SectorOffsetAligned(sectorSize, i, storage.info.eraseSize.value);
      }
      r := EraseThenWrite(storage, SectorOffset(i), data);
    }
  }

  /**
   * The bytes and erase flags left by erasing the range `offset ..
   * offset + |data|` and then writing `data` there: the data when the write
   * went through, the erased range when only the write failed (nothing on a
   * medium without erase); the range's erase blocks end up marked erased
   * exactly when the write failed.
   */
  function AfterEraseThenWrite(info: StorageInfo, bytes: seq<bv8>, flags: seq<bool>, offset: nat, data: seq<bv8>, failed: bool): (seq<bv8>, seq<bool>)
    requires WellFormed(info) && offset + |data| <= |bytes|
  {
    if info.eraseSize.None? then
      (if failed then bytes else Overwrite(bytes, offset, data), flags)
    else
      (Overwrite(bytes, offset, if failed then Blank(|data|) else data),
       Mark(flags, offset / info.eraseSize.value, (offset + |data|) / info.eraseSize.value, failed))
  }

  /** After a write that went through, the sector reads back the data and every other byte is as it was. */
  lemma WrittenSectorReadsBack(info: StorageInfo, bytes: seq<bv8>, flags: seq<bool>, offset: nat, data: seq<bv8>)
    requires WellFormed(info) && offset + |data| <= |bytes|
    ensures |AfterEraseThenWrite(info, bytes, flags, offset, data, false).0| == |bytes|
    ensures AfterEraseThenWrite(info, bytes, flags, offset, data, false).0[offset..offset + |data|] == data
    ensures forall k :: 0 <= k < |bytes| && !(offset <= k < offset + |data|) ==> AfterEraseThenWrite(info, bytes, flags, offset, data, false).0[k] == bytes[k]
  {
    OverwriteReadBack(bytes, offset, data);
  }

  /** After a failed write on a medium with erase, the sector holds 0xFF bytes and its erase blocks pass the erase check, so the write can be retried. */
  lemma FailedSectorStaysErased(info: StorageInfo, bytes: seq<bv8>, flags: seq<bool>, offset: nat, data: seq<bv8>)
    requires WellFormed(info) && offset + |data| <= |bytes| && info.eraseSize.Some?
    requires (offset + |data|) / info.eraseSize.value <= |flags|
    ensures AfterEraseThenWrite(info, bytes, flags, offset, data, true).0[offset..offset + |data|] == Blank(|data|)
    ensures AllErased(AfterEraseThenWrite(info, bytes, flags, offset, data, true).1, offset / info.eraseSize.value, (offset + |data|) / info.eraseSize.value)
  {
    OverwriteReadBack(bytes, offset, Blank(|data|));
    var e := info.eraseSize.value;
    if offset / e <= (offset + |data|) / e {
      MarkedErasedPasses(flags, offset / e, (offset + |data|) / e, offset / e, (offset + |data|) / e);
    }
  }

  /** The body of `write_sector` once the sector's offset is known: erase the aligned range, then write it. */
  method EraseThenWrite(storage: TestStorage, offset: nat, data: seq<bv8>) returns (r: Result<(), TestStorageError>)
    requires storage.Valid() && offset + |data| <= storage.info.size
    requires offset % storage.info.writeSize == 0 && |data| % storage.info.writeSize == 0
    requires storage.info.eraseSize.Some? ==> offset % storage.info.eraseSize.value == 0 && |data| % storage.info.eraseSize.value == 0
    modifies storage
    ensures storage.Valid() && storage.failAfterWrites == old(storage.failAfterWrites)
    ensures r.Ok? <==> !old(storage.Failing())
    ensures r.Err? ==> r.error == SimulatedFailure && storage.writeCount == old(storage.writeCount)
    ensures r.Ok? ==> storage.writeCount == old(storage.writeCount) + 1
    ensures (storage.data, storage.erasedBlocks) == AfterEraseThenWrite(storage.info, old(storage.data), old(storage.erasedBlocks), offset, data, r.Err?)
  {
    ghost var flags := storage.erasedBlocks;
    if storage.info.eraseSize.Some? {
      DivModAdd(offset, |data|, storage.info.eraseSize.value);
    }
    var erased := storage.Erase(offset, |data|);
    if storage.info.eraseSize.Some? {
      EraseCoversWrite(flags, offset, |data|, storage.info.eraseSize.value, storage.info.size);
    }
    r := storage.Write(offset, data);
    if storage.info.eraseSize.Some? {
      OverwriteTwice(old(storage.data), offset, Blank(|data|), data);
      if r.Ok? {
        MarkTwice(flags, offset / storage.info.eraseSize.value, (offset + |data|) / storage.info.eraseSize.value, true, false);
      }
    }
  }

  /** For aligned `a` and `b`, `(a + b) / e` is the exact block count, the same as `div_ceil`. */
  lemma DivModAdd(a: nat, b: nat, e: nat)
    requires e > 0 && a % e == 0 && b % e == 0
    ensures (a + b) % e == 0 && DivCeil(a + b, e) == (a + b) / e
  {
    DivMod(a, e);
    DivMod(b, e);
    assert a + b == e * (a / e + b / e);
    ModUnique(a + b, e, a / e + b / e, 0);
    DivCeilIsLeast(a + b, e, 0);
  }

  /** Erasing an aligned range inside the medium marks erased every block a write of the same range then checks. */
  lemma EraseCoversWrite(flags: seq<bool>, offset: nat, len: nat, e: nat, size: nat)
    requires e > 0 && offset % e == 0 && len % e == 0 && offset + len <= size && |flags| == DivCeil(size, e)
    ensures AllErased(Mark(flags, offset / e, (offset + len) / e, true), offset / e, DivCeil(offset + len, e))
  {
    DivModAdd(offset, len, e);
    DivCeilIsLeast(size, e, 0);
    var q := (offset + len) / e;
    DivMod(offset + len, e);
    if q > DivCeil(size, e) {
      assert e * (DivCeil(size, e) + 1) == DivCeil(size, e) * e + e;
      MulLe(e, DivCeil(size, e) + 1, q);
      assert false;
    }
    if offset / e <= q {
      MarkedErasedPasses(flags, offset / e, q, offset / e, q);
    }
  }

  /** The sector size tests: SRAM of 1024 bytes, flash of 1024 bytes with 64-byte erase blocks and flash of 4096 bytes with 512-byte erase blocks. */
  method SectorSizeTestsExample() returns (sram: (nat, nat), smallErase: (nat, nat), largeErase: (nat, nat))
    ensures sram == (128, 8) && smallErase == (128, 8) && largeErase == (512, 8)
  {
    SramSectorSize();
    FlashSectorSize(64);
    FlashSectorSize(512);
    var m1 := TestStorage.NewSram(1024);
    var s1 := new SectorStorage(m1);
    sram := (s1.sectorSize, s1.sectorCount);
    var m2 := TestStorage.NewFlash(1024, 64, 4);
    var s2 := new SectorStorage(m2);
    smallErase := (s2.sectorSize, s2.sectorCount);
    var m3 := TestStorage.NewFlash(4096, 512, 4);
    var s3 := new SectorStorage(m3);
    largeErase := (s3.sectorSize, s3.sectorCount);
  }

  /** The read-write test: a sector written on SRAM reads back the same. */
  method ReadWriteSectorExample() returns (written: seq<bv8>, readBack: seq<bv8>)
    ensures readBack == written && |written| == 128 && written[0] == 0xAB && written[1] == 0xCD && written[127] == 0xEF
  {
    var medium := TestStorage.NewSram(1024);
    SramSectorSize();
    var sectors := new SectorStorage(medium);
    written := seq(128, k => if k == 0 then 0xAB else if k == 1 then 0xCD else if k == 127 then 0xEF else 0);
    ghost var blank := medium.data;
    var w := sectors.WriteSector(0, written);
    OverwriteReadBack(blank, 0, written);
    var buf := new bv8[128];
    var r := sectors.ReadSector(0, buf);
    readBack := buf[..];
  }

  /** The erase-first test: two writes to the same flash sector both succeed and the second one is read back. */
  method WriteSectorErasesFirstExample() returns (first: Result<(), TestStorageError>, second: Result<(), TestStorageError>, readBack: seq<bv8>)
    ensures first.Ok? && second.Ok? && readBack == seq(128, _ => 0x22)
  {
    var medium := TestStorage.NewFlash(1024, 128, 4);
    FlashSectorSize(128);
    var sectors := new SectorStorage(medium);
    first := sectors.WriteSector(0, seq(128, _ => 0x11));
    ghost var between := medium.data;
    second := sectors.WriteSector(0, seq(128, _ => 0x22));
    OverwriteReadBack(between, 0, seq(128, _ => 0x22));
    var buf := new bv8[128];
    var r := sectors.ReadSector(0, buf);
    readBack := buf[..];
  }
}
