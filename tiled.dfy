/**
 * Tile settings and background bookkeeping of agb's tiled display
 * (agb/src/display/tiled.rs). A screen-map entry is a 16-bit word: the low
 * 10 bits are the tile index, bit 10 flips the tile horizontally, bit 11
 * vertically, and the top 4 bits choose the 16-colour palette. A frame can
 * show four backgrounds; an affine background takes two of the four places
 * and is numbered from background 2.
 */
module Tiled {
  import opened VramManager

  /** The bit of a flag (`flag as u16`). */
  function FlagBit(b: bool): bv16
  {
    if b then 1 else 0
  }

  /** `TileEffect::new`: the flip bits at 10 and 11 and the palette shifted to bit 12. */
  function EffectNew(hflip: bool, vflip: bool, paletteId: bv16): bv16
    requires paletteId < 0x100
  {
    (FlagBit(hflip) << 10) | (FlagBit(vflip) << 11) | (paletteId << 12)
  }

  /** What `hflip(should_flip)` does to the bits: exclusive-or of bit 10. */
  function EffectHFlip(e: bv16, shouldFlip: bool): bv16
  {
    e ^ (FlagBit(shouldFlip) << 10)
  }

  /** What `vflip(should_flip)` does to the bits: exclusive-or of bit 11. */
  function EffectVFlip(e: bv16, shouldFlip: bool): bv16
  {
    e ^ (FlagBit(shouldFlip) << 11)
  }

  /** What `palette(palette_id)` does to the bits: clear the top nibble and or in the new palette. */
  function EffectPalette(e: bv16, paletteId: bv16): bv16
    requires paletteId < 0x100
  {
    (e & 0x0fff) | (paletteId << 12)
  }

  /** The horizontal-flip flag of an effect. */
  predicate HFlipped(e: bv16)
  {
    e & 0x400 != 0
  }

  /** The vertical-flip flag of an effect. */
  predicate VFlipped(e: bv16)
  {
    e & 0x800 != 0
  }

  /** The palette of an effect. */
  function PaletteOf(e: bv16): bv16
  {
    e >> 12
  }

  /**
   * `new` sets exactly the requested flags and the low four bits of the
   * palette (a `u8` shifted by 12 in 16 bits keeps only those), and leaves
   * the tile-index bits clear.
   */
  lemma EffectNewFields(hflip: bool, vflip: bool, paletteId: bv16)
    requires paletteId < 0x100
    ensures HFlipped(EffectNew(hflip, vflip, paletteId)) == hflip
    ensures VFlipped(EffectNew(hflip, vflip, paletteId)) == vflip
    ensures PaletteOf(EffectNew(hflip, vflip, paletteId)) == paletteId & 0xF
    ensures EffectNew(hflip, vflip, paletteId) & 0x3ff == 0
  {
  }

  /** Horizontal flipping toggles bit 10 when asked and leaves every other bit alone. */
  lemma HFlipToggles(e: bv16, shouldFlip: bool)
    ensures HFlipped(EffectHFlip(e, shouldFlip)) == (HFlipped(e) != shouldFlip)
    ensures EffectHFlip(e, shouldFlip) & !0x400 == e & !0x400
  {
  }

  /** Vertical flipping toggles bit 11 when asked and leaves every other bit alone. */
  lemma VFlipToggles(e: bv16, shouldFlip: bool)
    ensures VFlipped(EffectVFlip(e, shouldFlip)) == (VFlipped(e) != shouldFlip)
    ensures EffectVFlip(e, shouldFlip) & !0x800 == e & !0x800
  {
  }

  /** Either flip asked twice gives back the effect it started from. */
  lemma FlipsInvolutive(e: bv16, shouldFlip: bool)
    ensures EffectHFlip(EffectHFlip(e, shouldFlip), shouldFlip) == e
    ensures EffectVFlip(EffectVFlip(e, shouldFlip), shouldFlip) == e
  {
  }

  /**
   * Setting the palette replaces the top four bits and nothing else, so
   * the last palette set is the one that counts.
   */
  lemma PaletteReplacesTopBits(e: bv16, p: bv16, q: bv16)
    requires p < 0x100 && q < 0x100
    ensures EffectPalette(e, p) & 0x0fff == e & 0x0fff
    ensures PaletteOf(EffectPalette(e, p)) == p & 0xF
    ensures EffectPalette(EffectPalette(e, q), p) == EffectPalette(e, p)
  {
  }

  /** Built with `new` and changed only by the three setters, an effect keeps the tile-index bits clear. */
  lemma EffectKeepsIndexBitsClear(e: bv16, shouldFlip: bool, p: bv16)
    requires e & 0x3ff == 0 && p < 0x100
    ensures EffectHFlip(e, shouldFlip) & 0x3ff == 0
    ensures EffectVFlip(e, shouldFlip) & 0x3ff == 0
    ensures EffectPalette(e, p) & 0x3ff == 0
  {
  }

  /** `TileEffect`: the flip and palette bits, changed in place by its setters. */
  class TileEffect {
    var bits: bv16

    /** `TileEffect::new`. */
    constructor (hflip: bool, vflip: bool, paletteId: bv16)
      requires paletteId < 0x100
      ensures bits == EffectNew(hflip, vflip, paletteId)
    {
      bits := EffectNew(hflip, vflip, paletteId);
    }

    /** `hflip`. */
    method HFlip(shouldFlip: bool)
      modifies this
      ensures bits == EffectHFlip(old(bits), shouldFlip)
    {
      bits := bits ^ (FlagBit(shouldFlip) << 10);
    }

    /** `vflip`. */
    method VFlip(shouldFlip: bool)
      modifies this
      ensures bits == EffectVFlip(old(bits), shouldFlip)
    {
      bits := bits ^ (FlagBit(shouldFlip) << 11);
    }

    /** `palette`: first `&= 0x0fff`, then `|= palette_id << 12`. */
    method Palette(paletteId: bv16)
      requires paletteId < 0x100
      modifies this
      ensures bits == EffectPalette(old(bits), paletteId)
    {
      var kept := bits & 0x0fff;
      bits := kept | (paletteId << 12);
    }
  }

  /** `hflip(true)` twice in place leaves the effect as it was. */
  method HFlipTwice(e: TileEffect)
    modifies e
    ensures e.bits == old(e.bits)
  {
    e.HFlip(true);
    e.HFlip(true);
    FlipsInvolutive(old(e.bits), true);
  }

  /** `TRANSPARENT_TILE_INDEX`. */
  const TRANSPARENT_TILE_INDEX: bv16 := 0xffff

  /**
   * `TileSetting`: a tile of a tile set and its effect. Its setters take
   * the setting by value and return the changed copy.
   */
  datatype TileSetting = TileSetting(tileId: bv16, effect: bv16)
  {
    /** `hflip`. */
    function HFlip(shouldFlip: bool): (s: TileSetting)
      ensures s.tileId == tileId && s.effect == EffectHFlip(effect, shouldFlip)
    {
      TileSetting(tileId, EffectHFlip(effect, shouldFlip))
    }

    /** `vflip`. */
    function VFlip(shouldFlip: bool): (s: TileSetting)
      ensures s.tileId == tileId && s.effect == EffectVFlip(effect, shouldFlip)
    {
      TileSetting(tileId, EffectVFlip(effect, shouldFlip))
    }

    /** `palette`. */
    function Palette(paletteId: bv16): (s: TileSetting)
      requires paletteId < 0x100
      ensures s.tileId == tileId && s.effect == EffectPalette(effect, paletteId)
    {
      TileSetting(tileId, EffectPalette(effect, paletteId))
    }
  }

  /** `TileSetting::BLANK`: the transparent tile, unflipped, palette 0. */
  const BLANK: TileSetting := TileSetting(TRANSPARENT_TILE_INDEX, EffectNew(false, false, 0))

  lemma BlankIsPlain()
    ensures BLANK.effect == 0 && BLANK.tileId == 0xffff
  {
  }

  /** `Tile`: one screen-map entry. */
  datatype Tile = Tile(raw: bv16)

  /**
   * `Tile::new`: the index's `raw_index()`, a `u16`, or-ed with the
   * setting's effect bits.
   */
  function NewTile(rawIndex: bv16, setting: TileSetting): Tile
  {
    Tile(rawIndex | setting.effect)
  }

  /** `tile_index`: the low 10 bits, read in the given format. */
  function TileIndexOf(t: Tile, format: TileFormat): TileIndex
  {
    NewIndex((t.raw & 0x3ff) as nat, format)
  }

  /** The low ten bits of a tile are its index, and the top six its effect bits. */
  lemma TileFields(i: bv16, e: bv16)
    requires i < 0x400 && e & 0x3ff == 0
    ensures (i | e) & 0x3ff == i
    ensures (i | e) & !0x3ff == e
  {
  }

  /**
   * A tile made from an index that fits in 10 bits and an effect with the
   * index bits clear gives back that index, in whatever format it is read,
   * and keeps the effect in its top bits.
   */
  lemma TileIndexRoundTrip(rawIndex: bv16, setting: TileSetting, format: TileFormat)
    requires rawIndex < 0x400 && setting.effect & 0x3ff == 0
    ensures TileIndexOf(NewTile(rawIndex, setting), format) == TileIndex(rawIndex as nat, format)
    ensures NewTile(rawIndex, setting).raw & !0x3ff == setting.effect
  {
    TileFields(rawIndex, setting.effect);
  }

  /** How many regular and affine backgrounds a frame may hold: affine ones count twice, four places in all. */
  const BACKGROUND_PLACES: nat := 4

  /**
   * `BackgroundFrame`: the backgrounds set up for one frame so far, and the
   * data stored for each (what the data is does not matter here).
   */
  class BackgroundFrame {
    var numRegular: nat
    var numAffine: nat
    var regularBackgrounds: array<nat>
    var affineBackgrounds: array<nat>

    ghost predicate Valid()
      reads this
    {
      regularBackgrounds.Length == 4 && affineBackgrounds.Length == 2 &&
      numRegular + 2 * numAffine <= BACKGROUND_PLACES
    }

    /** `TiledBackground::iter`: a frame with no background yet. */
    constructor ()
      ensures Valid() && numRegular == 0 && numAffine == 0
      ensures fresh(regularBackgrounds) && fresh(affineBackgrounds)
    {
      numRegular := 0;
      numAffine := 0;
      regularBackgrounds := new nat[4](_ => 0);
      affineBackgrounds := new nat[2](_ => 0);
    }

    /** Room for one more regular background (otherwise `next_regular_index` panics). */
    predicate CanAddRegular()
      reads this
    {
      numRegular + numAffine * 2 < 4
    }

    /** Room for one more affine background (otherwise `next_affine_index` panics). */
    predicate CanAddAffine()
      reads this
    {
      numAffine * 2 + numRegular < 3
    }

    /** `next_regular_index`: the next regular background number. */
    method NextRegularIndex() returns (index: nat)
      requires Valid() && CanAddRegular()
      modifies this
      ensures Valid()
      ensures index == old(numRegular) && numRegular == old(numRegular) + 1 && numAffine == old(numAffine)
      ensures regularBackgrounds == old(regularBackgrounds) && affineBackgrounds == old(affineBackgrounds)
    {
      index := numRegular;
      numRegular := numRegular + 1;
    }

    /** `next_affine_index`: the next affine background number, counted from background 2. */
    method NextAffineIndex() returns (index: nat)
      requires Valid() && CanAddAffine()
      modifies this
      ensures Valid()
      ensures index == old(numAffine) + 2 && numAffine == old(numAffine) + 1 && numRegular == old(numRegular)
      ensures regularBackgrounds == old(regularBackgrounds) && affineBackgrounds == old(affineBackgrounds)
    {
      index := numAffine;
      numAffine := numAffine + 1;
      index := index + 2;
    }

    /** `set_next_regular`: the data goes into the slot of the new number, which is the id. */
    method SetNextRegular(data: nat) returns (id: nat)
      requires Valid() && CanAddRegular()
      modifies this, regularBackgrounds
      ensures Valid()
      ensures id == old(numRegular) < 4 && numRegular == old(numRegular) + 1 && numAffine == old(numAffine)
      ensures regularBackgrounds == old(regularBackgrounds) && affineBackgrounds == old(affineBackgrounds)
      ensures regularBackgrounds[..] == old(regularBackgrounds[..])[id := data]
    {
      id := NextRegularIndex();
      regularBackgrounds[id] := data;
    }

    /** `set_next_affine`: the data goes into affine slot `id - 2`. */
    method SetNextAffine(data: nat) returns (id: nat)
      requires Valid() && CanAddAffine()
      modifies this, affineBackgrounds
      ensures Valid()
      ensures id == old(numAffine) + 2 && 2 <= id < 4 && numAffine == old(numAffine) + 1 && numRegular == old(numRegular)
      ensures regularBackgrounds == old(regularBackgrounds) && affineBackgrounds == old(affineBackgrounds)
      ensures affineBackgrounds[..] == old(affineBackgrounds[..])[id - 2 := data]
    {
      id := NextAffineIndex();
      affineBackgrounds[id - 2] := data;
    }

    /** `commit`'s video mode: the number of affine backgrounds. */
    function VideoMode(): nat
      reads this
    {
      numAffine
    }

    /** `commit`'s enabled-backgrounds mask: the regular ones from bit 0, the affine ones from bit 2. */
    function EnabledBackgrounds(): bv16
      requires Valid()
      reads this
    {
      ((1 << numRegular) - 1) | (((1 << numAffine) - 1) << 2)
    }

    /** Background `b` is one this frame has handed out. */
    predicate HandedOut(b: nat)
      reads this
    {
      b < numRegular || 2 <= b < 2 + numAffine
    }
  }

  /**
   * The numbers handed out fit the hardware: at most two affine
   * backgrounds, and as soon as there is one the regular ones stop below
   * background 2, so regular and affine numbers never meet and the video
   * mode is 0, 1 or 2.
   */
  lemma FrameNumbersDisjoint(f: BackgroundFrame)
    requires f.Valid()
    ensures f.numAffine <= 2 && f.VideoMode() <= 2
    ensures f.numAffine > 0 ==> f.numRegular <= 2
    ensures forall b: nat :: f.HandedOut(b) ==> (b < f.numRegular) != (2 <= b < 2 + f.numAffine)
    ensures forall b: nat :: f.HandedOut(b) ==> b < 4
  {
  }

  /** The enabled mask has bit `b` set exactly for the backgrounds handed out. */
  lemma EnabledBackgroundsExact(f: BackgroundFrame, b: nat)
    requires f.Valid() && b < 16
    ensures (f.EnabledBackgrounds() >> b) & 1 == 1 <==> f.HandedOut(b)
  {
    var r, a := f.numRegular, f.numAffine;
    assert r <= 4 && a <= 2;
  }
}
