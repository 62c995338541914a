/**
 * The background sizes, offsets and screen-block allocation of agb's tiled
 * modes (agb/src/display/tiled/mod.rs): regular backgrounds of 32 or 64
 * tiles per side stored in staggered 32x32 screen blocks, affine
 * backgrounds of 16 to 128 tiles per side stored row by row, the packed
 * 16-bit tile setting, and the search for a run of free screen blocks.
 */
module TiledModes {
  import opened Bits
  import opened FixVector
  import RB = RegularBackground

  /** `AffineBackgroundSize`: square, 16 to 128 tiles per side. */
  datatype AffineBackgroundSize = Background16x16 | Background32x32 | Background64x64 | Background128x128

  /** `width` (and `height`, which is the same). */
  function AffineWidth(s: AffineBackgroundSize): (w: nat)
    ensures w == Pow2(AffineLog2(s)) && AffineLog2(s) < 31
  {
    assert Pow2(4) == 16 && Pow2(7) == 128;
    match s
    case Background16x16 => 16
    case Background32x32 => 32
    case Background64x64 => 64
    case Background128x128 => 128
  }

  function AffineLog2(s: AffineBackgroundSize): nat
  {
    match s
    case Background16x16 => 4
    case Background32x32 => 5
    case Background64x64 => 6
    case Background128x128 => 7
  }

  /** `num_tiles` of an affine background. */
  function AffineNumTiles(s: AffineBackgroundSize): nat
  {
    AffineWidth(s) * AffineWidth(s)
  }

  /** `num_screen_blocks` of a regular background: one per 1024 tiles. */
  function RegularNumScreenBlocks(s: RB.RegularBackgroundSize): (n: nat)
    ensures n * 1024 == RB.NumTiles(s) && 1 <= n <= 4
  {
    RB.SizesTable(s);
    RB.NumTiles(s) / (32 * 32)
  }

  /**
   * `num_screen_blocks` of an affine background: one per 2048 tiles (an
   * affine entry is one byte), and at least one.
   */
  function AffineNumScreenBlocks(s: AffineBackgroundSize): (n: nat)
    ensures n == if AffineNumTiles(s) / 2048 >= 1 then AffineNumTiles(s) / 2048 else 1
  {
    var k := AffineNumTiles(s) / 2048;
    if 1 >= k then 1 else k
  }

  /** The affine table: 1, 1, 2 and 8 screen blocks; the two smaller sizes use only part of theirs. */
  lemma AffineScreenBlocks()
    ensures AffineNumScreenBlocks(Background16x16) == 1 && AffineNumTiles(Background16x16) < 2048
    ensures AffineNumScreenBlocks(Background32x32) == 1 && AffineNumTiles(Background32x32) < 2048
    ensures AffineNumScreenBlocks(Background64x64) == 2
    ensures AffineNumScreenBlocks(Background128x128) == 8
  {
  }

  /** `x & (n - 1)` on a natural number, `n` a power of two: the remainder. */
  function Mask(x: nat, n: nat): (r: nat)
    requires IsPowerOfTwo(n)
    ensures r == x % n
  {
    BitAndMask(x, n);
    BitAnd(x, n - 1)
  }

  lemma SideIsPowerOfTwo(n: nat)
    requires n == 32 || n == 64
    ensures IsPowerOfTwo(n)
  {
    RB.SideIsPow2(n);
    Pow2IsPowerOfTwo(RB.Log2Side(n));
  }

  /** `tile_pos_x`: `(x as u32) & (width - 1)`, read back as a `u16`. */
  function TilePosX(s: RB.RegularBackgroundSize, x: i32): nat
  {
    SideIsPowerOfTwo(RB.Width(s));
    Mask(x % U32_MODULUS, RB.Width(s))
  }

  /** `tile_pos_y`: the same on the height. */
  function TilePosY(s: RB.RegularBackgroundSize, y: i32): nat
  {
    SideIsPowerOfTwo(RB.Height(s));
    Mask(y % U32_MODULUS, RB.Height(s))
  }

  /** The detour through `u32` does not matter: the result is the Euclidean remainder. */
  lemma TilePosRemEuclid(s: RB.RegularBackgroundSize, x: i32, y: i32)
    ensures TilePosX(s, x) == x % RB.Width(s) && TilePosX(s, x) < RB.Width(s)
    ensures TilePosY(s, y) == y % RB.Height(s) && TilePosY(s, y) < RB.Height(s)
  {
    var w, h := RB.Width(s), RB.Height(s);
    ModulusMultiple(w);
    ModulusMultiple(h);
    ModOfMultipleMod(x, w, U32_MODULUS);
    ModOfMultipleMod(y, h, U32_MODULUS);
  }

  lemma ModulusMultiple(n: nat)
    requires n == 32 || n == 64
    ensures U32_MODULUS % n == 0
  {
  }

  /** The cases the source's test checks, for every size. */
  lemma TilePosXTest(s: RB.RegularBackgroundSize)
    ensures var w := RB.Width(s);
      TilePosX(s, 8) == 8 && TilePosX(s, 3 + w) == 3 && TilePosX(s, 7 + w * 9) == 7 &&
      TilePosX(s, -8) == w - 8 && TilePosX(s, -17 - w * 8) == w - 17
  {
    var w: int := RB.Width(s);
    TilePosRemEuclid(s, 8, 0);
    TilePosRemEuclid(s, 3 + w, 0);
    TilePosRemEuclid(s, 7 + w * 9, 0);
    TilePosRemEuclid(s, -8, 0);
    TilePosRemEuclid(s, -17 - w * 8, 0);
    ModUnique(3 + w, w, 1, 3);
    ModUnique(7 + w * 9, w, 9, 7);
    ModUnique(-8, w, -1, w - 8);
    ModUnique(-17 - w * 8, w, -9, w - 17);
  }

  /** The regular `gba_offset` on a `u16` position: the staggered screen-block layout. */
  function RegularGbaOffset(s: RB.RegularBackgroundSize, pos: Vector2D<u16>): nat
  {
    SideIsPowerOfTwo(RB.Width(s));
    SideIsPowerOfTwo(RB.Height(s));
    RB.Staggered(RB.Width(s), Mask(pos.x, RB.Width(s)), Mask(pos.y, RB.Height(s)))
  }

  /**
   * It agrees with the `i32` version of regular_background.rs wherever both
   * apply, so it too stays below the tile count.
   */
  lemma RegularGbaOffsetAgrees(s: RB.RegularBackgroundSize, pos: Vector2D<u16>)
    requires pos.x < 0x8000 && pos.y < 0x8000
    ensures RegularGbaOffset(s, pos) == RB.GbaOffset(s, Vector2D(pos.x as i32, pos.y as i32))
    ensures RegularGbaOffset(s, pos) < RB.NumTiles(s)
  {
    RB.GbaOffsetBound(s, Vector2D(pos.x as i32, pos.y as i32));
  }

  /** The affine `gba_offset`: wrapped on both sides, then row-major. */
  function AffineGbaOffset(s: AffineBackgroundSize, pos: Vector2D<u16>): nat
  {
    Pow2IsPowerOfTwo(AffineLog2(s));
    var w := AffineWidth(s);
    Mask(pos.x, w) + w * Mask(pos.y, w)
  }

  /** Row-major: column `x mod width`, row `y mod width`, inside the map. */
  lemma AffineGbaOffsetRowMajor(s: AffineBackgroundSize, pos: Vector2D<u16>)
    ensures var w := AffineWidth(s);
      AffineGbaOffset(s, pos) % w == pos.x % w && AffineGbaOffset(s, pos) / w == pos.y % w
    ensures AffineGbaOffset(s, pos) < AffineNumTiles(s)
  {
    var w := AffineWidth(s);
    ModUnique(AffineGbaOffset(s, pos), w, pos.y % w, pos.x % w);
    MulLe(w, pos.y % w, w - 1);
  }

  /**
   * `TileSetting` (the packed form of this module): the tile id in bits 0-9,
   * the horizontal flip in bit 10, the vertical flip in bit 11 and the
   * palette in bits 12-15.
   */
  datatype TileSetting = TileSetting(bits: bv16)

  const INDEX_MASK: bv16 := (1 << 10) - 1

  function Flag(b: bool, at: bv16): (r: bv16)
    requires at < 16
  {
    if b then 1 << at else 0
  }

  /** `TileSetting::new`; the palette id is a `u8` whose bits above the fourth fall off the top. */
  function NewSetting(tileId: bv16, hflip: bool, vflip: bool, paletteId: bv16): TileSetting
    requires paletteId < 0x100
  {
    TileSetting((tileId & INDEX_MASK) | Flag(hflip, 10) | Flag(vflip, 11) | (paletteId << 12))
  }

  /** `index`. */
  function Index(s: TileSetting): bv16
  {
    s.bits & INDEX_MASK
  }

  /** `setting`: everything but the index. */
  function Setting(s: TileSetting): bv16
  {
    s.bits & !INDEX_MASK
  }

  function HFlipBit(s: TileSetting): bool { s.bits & (1 << 10) != 0 }
  function VFlipBit(s: TileSetting): bool { s.bits & (1 << 11) != 0 }
  function PaletteBits(s: TileSetting): bv16 { s.bits >> 12 }

  /** `new` puts each field where `index`, the flip bits and the palette read it back. */
  lemma NewSettingFields(tileId: bv16, hflip: bool, vflip: bool, paletteId: bv16)
    requires paletteId < 0x100
    ensures var s := NewSetting(tileId, hflip, vflip, paletteId);
      Index(s) == tileId & INDEX_MASK && HFlipBit(s) == hflip && VFlipBit(s) == vflip &&
      PaletteBits(s) == paletteId & 0xF
  {
  }

  /** `index` and `setting` split the word: disjoint, and together all of it. */
  lemma IndexSettingSplit(s: TileSetting)
    ensures Index(s) | Setting(s) == s.bits && Index(s) & Setting(s) == 0
    ensures Index(s) < 0x400
  {
  }

  /** `hflip`: toggles bit 10 when asked, and nothing else. */
  function HFlip(s: TileSetting, shouldFlip: bool): TileSetting
  {
    TileSetting(s.bits ^ Flag(shouldFlip, 10))
  }

  /** `vflip`: toggles bit 11 when asked. */
  function VFlip(s: TileSetting, shouldFlip: bool): TileSetting
  {
    TileSetting(s.bits ^ Flag(shouldFlip, 11))
  }

  /** Flipping twice undoes the flip. */
  lemma FlipsInvolutive(s: TileSetting, f: bool)
    ensures HFlip(HFlip(s, f), f) == s && VFlip(VFlip(s, f), f) == s
  {
  }

  /** `hflip` toggles the horizontal flip and leaves the other fields. */
  lemma HFlipToggles(s: TileSetting, f: bool)
    ensures HFlipBit(HFlip(s, f)) == (HFlipBit(s) != f) && VFlipBit(HFlip(s, f)) == VFlipBit(s)
    ensures Index(HFlip(s, f)) == Index(s) && PaletteBits(HFlip(s, f)) == PaletteBits(s)
  {
  }

  /** `vflip` toggles the vertical flip and leaves the other fields. */
  lemma VFlipToggles(s: TileSetting, f: bool)
    ensures VFlipBit(VFlip(s, f)) == (VFlipBit(s) != f) && HFlipBit(VFlip(s, f)) == HFlipBit(s)
    ensures Index(VFlip(s, f)) == Index(s) && PaletteBits(VFlip(s, f)) == PaletteBits(s)
  {
  }

  /** `palette` as written: the new id is xor-ed into bits 12-15. */
  function PaletteAsWritten(s: TileSetting, paletteId: bv16): TileSetting
    requires paletteId < 0x100
  {
    TileSetting(s.bits ^ (paletteId << 12))
  }

  /** On a setting that already has palette 1, asking for palette 2 gives palette 3. */
  lemma PaletteAsWrittenMixes()
    ensures PaletteBits(PaletteAsWritten(NewSetting(0, false, false, 1), 2)) == 3
  {
  }

  /** `palette` as meant (and as agb/src/display/tiled.rs later does it): the bits are replaced. */
  function Palette(s: TileSetting, paletteId: bv16): TileSetting
    requires paletteId < 0x100
  {
    TileSetting((s.bits & 0x0FFF) | (paletteId << 12))
  }

  /** The replaced palette is the one asked for, and the other twelve bits stay. */
  lemma PaletteReplaces(s: TileSetting, paletteId: bv16)
    requires paletteId < 0x100
    ensures PaletteBits(Palette(s, paletteId)) == paletteId & 0xF
    ensures Palette(s, paletteId).bits & 0x0FFF == s.bits & 0x0FFF
    ensures Index(Palette(s, paletteId)) == Index(s)
  {
  }

  /** Screen blocks are tracked by a one-word `Bitarray`: 32 flags, of which 16 are used. */
  predicate FreeRun(blocks: seq<bool>, start: nat, gap: nat)
    requires start + gap <= |blocks|
  {
    forall k :: start <= k < start + gap ==> !blocks[k]
  }

  /** Some start below `limit` has `gap` free blocks after it. */
  predicate HasGapBelow(blocks: seq<bool>, gap: nat, limit: nat)
    requires limit + gap <= |blocks|
  {
    exists c :: 0 <= c < limit && FreeRun(blocks, c, gap)
  }

  /**
   * `find_screenblock_gap` as written: candidates run while below
   * `16 - gap`, so the start `16 - gap` is never tried. It returns the first
   * start with `gap` free blocks, and panics when no start below `16 - gap`
   * has one.
   */
  method FindScreenblockGapAsWritten(blocks: seq<bool>, gap: nat) returns (start: nat)
    requires |blocks| == 32 && gap <= 16
    requires HasGapBelow(blocks, gap, 16 - gap)
    ensures start < 16 - gap && FreeRun(blocks, start, gap)
    ensures forall c :: 0 <= c < start ==> !FreeRun(blocks, c, gap)
  {
    start := FirstGap(blocks, gap, 16 - gap);
  }

  /** The search both versions share: candidates below `limit`, skipping past each used block. */
  method FirstGap(blocks: seq<bool>, gap: nat, limit: nat) returns (start: nat)
    requires |blocks| == 32 && limit + gap <= 17
    requires HasGapBelow(blocks, gap, limit)
    ensures start < limit && FreeRun(blocks, start, gap)
    ensures forall c :: 0 <= c < start ==> !FreeRun(blocks, c, gap)
  {
    var candidate := 0;
    while candidate < limit
      invariant forall c :: 0 <= c < candidate && c < limit ==> !FreeRun(blocks, c, gap)
      decreases limit - candidate
    {
      var attempt := candidate;
      var blocked := false;
      while attempt < candidate + gap && !blocked
        invariant candidate <= attempt <= candidate + gap
        invariant !blocked ==> forall k :: candidate <= k < attempt ==> !blocks[k]
        invariant blocked ==> attempt < candidate + gap && blocks[attempt]
        decreases candidate + gap - attempt, if blocked then 0 else 1
      {
        if blocks[attempt] {
          blocked := true;
        } else {
          attempt := attempt + 1;
        }
      }
      if !blocked {
        return candidate;
      }
      forall c | candidate <= c <= attempt && c < limit
        ensures !FreeRun(blocks, c, gap)
      {
        assert c <= attempt < c + gap;
      }
      candidate := attempt + 1;
    }
    assert false;
  }

  /** Only block 15 is free and one block is asked for: the search as written panics. */
  lemma GapAsWrittenMissesLastBlock(blocks: seq<bool>)
    requires |blocks| == 32
    requires forall k :: 0 <= k < 15 ==> blocks[k]
    requires !blocks[15]
    ensures !HasGapBelow(blocks, 1, 16 - 1) && FreeRun(blocks, 15, 1)
  {
    forall c | 0 <= c < 15
      ensures !FreeRun(blocks, c, 1)
    {
      assert blocks[c];
    }
  }

  /** `find_screenblock_gap` as meant: every start up to `16 - gap` is tried. */
  method FindScreenblockGap(blocks: seq<bool>, gap: nat) returns (start: nat)
    requires |blocks| == 32 && gap <= 16
    requires HasGapBelow(blocks, gap, 17 - gap)
    ensures start + gap <= 16 && FreeRun(blocks, start, gap)
    ensures forall c :: 0 <= c < start ==> !FreeRun(blocks, c, gap)
  {
    start := FirstGap(blocks, gap, 17 - gap);
  }

  /** Whenever some run of `gap` free blocks lies within the 16, the corrected search does not panic. */
  lemma FindScreenblockGapComplete(blocks: seq<bool>, gap: nat, c: nat)
    requires |blocks| == 32 && c + gap <= 16
    requires FreeRun(blocks, c, gap)
    ensures HasGapBelow(blocks, gap, 17 - gap)
  {
  }
}
