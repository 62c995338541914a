/**
 * Tile bookkeeping of agb's background video memory
 * (agb/src/display/tiled/vram_manager.rs): tile formats and indices, the
 * per-location reference counts with their garbage-collection queue, the
 * table from tile-set tiles to the video memory holding them, and the
 * nibble-per-pixel words of a dynamic 16-colour tile.
 *
 * A `TileReference` is a pointer into video memory; here it is its byte
 * offset from the start of video memory, which is all the bookkeeping
 * uses. The block allocator that hands out and takes back that memory is a
 * parameter (what it returns) and a result (what is given back).
 */
module VramManager {
  import opened Wrappers

  /** `TileFormat`: 4 or 8 bits per pixel; the discriminant is the log2 of the tile size. */
  datatype TileFormat = FourBpp | EightBpp

  /** `tile_size`: `1 << format`, so 32 or 64 bytes. */
  function TileSize(f: TileFormat): (n: nat)
    ensures n == if f == FourBpp then 32 else 64
  {
    match f
    case FourBpp => 32
    case EightBpp => 64
  }

  /** `TileIndex`: a tile number in units of the format's tile size. */
  datatype TileIndex = TileIndex(raw: nat, format: TileFormat)

  /** `TileIndex::new`: the number is cut down to a `u16`. */
  function NewIndex(index: nat, format: TileFormat): (i: TileIndex)
    ensures i.raw < 0x1_0000 && i.format == format
    ensures index < 0x1_0000 ==> i.raw == index
  {
    TileIndex(index % 0x1_0000, format)
  }

  /**
   * `refcount_key`: the index in 32-byte units, so that the two formats
   * count the same memory under the same key.
   */
  function Key(i: TileIndex): nat
  {
    match i.format
    case FourBpp => i.raw
    case EightBpp => i.raw * 2
  }

  /** The key is where the tile starts, in 32-byte units. */
  lemma KeyIsLocation(i: TileIndex)
    ensures Key(i) * 32 == i.raw * TileSize(i.format)
    ensures i.format == FourBpp ==> Key(i) == i.raw
    ensures i.format == EightBpp ==> Key(i) == 2 * i.raw
  {
  }

  /** A pointer into video memory, as its byte offset. */
  datatype TileReference = TileReference(offset: nat)

  /** `index_from_reference`. */
  function IndexFromReference(r: TileReference, f: TileFormat): TileIndex
  {
    TileIndex(r.offset / TileSize(f), f)
  }

  /** `reference_from_index`. */
  function ReferenceFromIndex(i: TileIndex): TileReference
  {
    TileReference(i.raw * TileSize(i.format))
  }

  /** A reference aligned to its format comes back from its index, and its key is its offset in 32-byte units. */
  lemma ReferenceIndexRoundTrip(r: TileReference, f: TileFormat)
    requires r.offset % TileSize(f) == 0
    ensures ReferenceFromIndex(IndexFromReference(r, f)) == r
    ensures Key(IndexFromReference(r, f)) == r.offset / 32
  {
  }

  /** A tile set: its data (named by where it lives) and its format. */
  datatype TileSet = TileSet(data: nat, format: TileFormat)

  /** `TileInTileSetReference`: one tile of one tile set. */
  datatype TileInTileSetReference = TileInTileSetReference(tileset: nat, tile: nat)

  /** `TileReferenceCount`. */
  datatype TileReferenceCount = TileReferenceCount(count: nat, tile: Option<TileInTileSetReference>)

  /** `TileReferenceCount::default`: no tile, no references. */
  const EMPTY_COUNT := TileReferenceCount(0, None)

  /** `TileReferenceCount::new`: one reference to the tile. */
  function NewCount(t: TileInTileSetReference): (c: TileReferenceCount)
    ensures c.count == 1 && c.tile == Some(t)
  {
    TileReferenceCount(1, Some(t))
  }

  /**
   * `increment_reference_count`; the count is a `u16` (an overflow panics)
   * and the entry must hold a tile (a debug assertion).
   */
  function Increment(c: TileReferenceCount): (d: TileReferenceCount)
    requires c.count < 0xFFFF && c.tile.Some?
    ensures d.count == c.count + 1 && d.tile == c.tile
  {
    c.(count := c.count + 1)
  }

  /**
   * `decrement_reference_count`: asserts the count is positive, and gives
   * the new count with the new entry.
   */
  function Decrement(c: TileReferenceCount): (r: (TileReferenceCount, nat))
    requires c.count > 0 && c.tile.Some?
    ensures r.0.count == c.count - 1 && r.0.tile == c.tile && r.1 == r.0.count
  {
    var d := c.(count := c.count - 1);
    (d, d.count)
  }

  /** Decrementing undoes incrementing. */
  lemma DecrementIncrement(c: TileReferenceCount)
    requires c.count < 0xFFFF && c.tile.Some?
    ensures Decrement(Increment(c)).0 == c
  {
  }

  /** `clear`. */
  function Clear(c: TileReferenceCount): (d: TileReferenceCount)
    ensures d == EMPTY_COUNT
  {
    TileReferenceCount(0, None)
  }

  /** The reference-count table grown to at least `len` entries with empty ones (`resize(max(len, ...))`). */
  function Grow(rc: seq<TileReferenceCount>, len: nat): (g: seq<TileReferenceCount>)
    ensures |g| == if |rc| >= len then |rc| else len
    ensures g[..|rc|] == rc
    ensures forall k :: |rc| <= k < |g| ==> g[k] == EMPTY_COUNT
  {
    if |rc| >= len then rc else rc + seq(len - |rc|, _ => EMPTY_COUNT)
  }

  /** What garbage collection works on: the counts, the tile table and the memory given back so far. */
  datatype GcState = GcState(
    counts: seq<TileReferenceCount>,
    table: map<TileInTileSetReference, TileReference>,
    freed: seq<TileReference>)

  /**
   * One queued index of `gc`: skipped when its count is positive again or
   * its entry already cleared; otherwise its memory is given back, its tile
   * leaves the table and its entry is cleared.
   */
  function GcStep(st: GcState, i: TileIndex): (r: GcState)
    requires Key(i) < |st.counts|
    ensures |r.counts| == |st.counts|
  {
    var k := Key(i);
    var c := st.counts[k];
    if c.count > 0 then st
    else match c.tile
      case None => st
      case Some(t) =>
        GcState(st.counts[k := Clear(c)], st.table - {t}, st.freed + [ReferenceFromIndex(i)])
  }

  predicate QueueInRange(queue: seq<TileIndex>, len: nat)
  {
    forall j :: 0 <= j < |queue| ==> Key(queue[j]) < len
  }

  /** `gc` over a whole queue, front to back. */
  function GcAll(st: GcState, queue: seq<TileIndex>): (r: GcState)
    requires QueueInRange(queue, |st.counts|)
    ensures |r.counts| == |st.counts|
    decreases |queue|
  {
    if queue == [] then st
    else
      var prefix := queue[..|queue| - 1];
      assert QueueInRange(prefix, |st.counts|) by {
        assert forall j :: 0 <= j < |prefix| ==> prefix[j] == queue[j];
      }
      GcStep(GcAll(st, prefix), queue[|queue| - 1])
  }

  /** A key some index of the queue maps to. */
  predicate Queued(queue: seq<TileIndex>, k: nat)
  {
    exists j :: 0 <= j < |queue| && Key(queue[j]) == k
  }

  /**
   * What `gc` does to each entry: no count changes; an entry with a positive
   * count or whose key was not queued is left alone; a queued entry whose
   * count is zero ends up empty.
   */
  lemma {:induction false} GcAllEffect(st: GcState, queue: seq<TileIndex>, k: nat)
    requires QueueInRange(queue, |st.counts|) && k < |st.counts|
    ensures GcAll(st, queue).counts[k].count == st.counts[k].count
    ensures st.counts[k].count > 0 || !Queued(queue, k) ==> GcAll(st, queue).counts[k] == st.counts[k]
    ensures st.counts[k].count == 0 && Queued(queue, k) ==> GcAll(st, queue).counts[k] == EMPTY_COUNT
    decreases |queue|
  {
    if queue != [] {
      var prefix := queue[..|queue| - 1];
      assert QueueInRange(prefix, |st.counts|) by {
        assert forall j :: 0 <= j < |prefix| ==> prefix[j] == queue[j];
      }
      GcAllEffect(st, prefix, k);
      var last := queue[|queue| - 1];
      if Queued(queue, k) && !Queued(prefix, k) {
        var j :| 0 <= j < |queue| && Key(queue[j]) == k;
        assert j == |prefix|;
        assert Key(last) == k;
      }
      if Queued(prefix, k) {
        var j :| 0 <= j < |prefix| && Key(prefix[j]) == k;
        assert queue[j] == prefix[j];
      }
    }
  }

  /** On the table `gc` only removes entries, and every memory block it gives back belongs to a queued index. */
  lemma {:induction false} GcAllShrinks(st: GcState, queue: seq<TileIndex>)
    requires QueueInRange(queue, |st.counts|)
    ensures GcAll(st, queue).table.Keys <= st.table.Keys
    ensures forall r :: r in GcAll(st, queue).table ==> GcAll(st, queue).table[r] == st.table[r]
    ensures |GcAll(st, queue).freed| >= |st.freed| && GcAll(st, queue).freed[..|st.freed|] == st.freed
    decreases |queue|
  {
    if queue != [] {
      var prefix := queue[..|queue| - 1];
      assert QueueInRange(prefix, |st.counts|) by {
        assert forall j :: 0 <= j < |prefix| ==> prefix[j] == queue[j];
      }
      GcAllShrinks(st, prefix);
    }
  }

  /**
   * `VRamManagerInner`'s bookkeeping: the table from tile-set tiles to where
   * they were copied, one count per 32-byte location, and the indices whose
   * count dropped to zero since the last `gc`.
   */
  class VRamManagerInner {
    var tileSetToVram: map<TileInTileSetReference, TileReference>
    var referenceCounts: seq<TileReferenceCount>
    var indicesToGc: seq<TileIndex>

    /**
     * Every tile in the table has the count entry of its location, and that
     * entry names the tile back; every queued index has an entry.
     */
    ghost predicate Valid()
      reads this
    {
      (forall t | t in tileSetToVram ::
        tileSetToVram[t].offset / 32 < |referenceCounts| &&
        referenceCounts[tileSetToVram[t].offset / 32].tile == Some(t)) &&
      QueueInRange(indicesToGc, |referenceCounts|)
    }

    /** `new`: nothing loaded. */
    constructor ()
      ensures Valid() && tileSetToVram == map[] && referenceCounts == [] && indicesToGc == []
    {
      tileSetToVram := map[];
      referenceCounts := [];
      indicesToGc := [];
    }

    /** `increase_reference`. */
    method IncreaseReference(i: TileIndex)
      requires Valid()
      requires Key(i) < |referenceCounts|
      requires referenceCounts[Key(i)].count < 0xFFFF && referenceCounts[Key(i)].tile.Some?
      modifies this
      ensures Valid()
      ensures referenceCounts == old(referenceCounts)[Key(i) := Increment(old(referenceCounts[Key(i)]))]
      ensures tileSetToVram == old(tileSetToVram) && indicesToGc == old(indicesToGc)
    {
      var k := Key(i);
      referenceCounts := referenceCounts[k := Increment(referenceCounts[k])];
    }

    /**
     * `remove_tile`: one reference fewer; the index joins the queue exactly
     * when that was the last reference.
     */
    method RemoveTile(i: TileIndex)
      requires Valid()
      requires Key(i) < |referenceCounts|
      requires referenceCounts[Key(i)].count > 0 && referenceCounts[Key(i)].tile.Some?
      modifies this
      ensures Valid()
      ensures referenceCounts == old(referenceCounts)[Key(i) := Decrement(old(referenceCounts[Key(i)])).0]
      ensures indicesToGc == old(indicesToGc) + (if old(referenceCounts[Key(i)].count) == 1 then [i] else [])
      ensures tileSetToVram == old(tileSetToVram)
    {
      var k := Key(i);
      var (entry, newCount) := Decrement(referenceCounts[k]);
      referenceCounts := referenceCounts[k := entry];
      if newCount != 0 {
        return;
      }
      indicesToGc := indicesToGc + [i];
    }

    /**
     * `gc`: drains the queue through `GcStep`, giving back (in order) the
     * memory of every queued tile that is still unreferenced.
     */
    method Gc() returns (freed: seq<TileReference>)
      requires Valid()
      modifies this
      ensures Valid() && indicesToGc == []
      ensures GcAll(GcState(old(referenceCounts), old(tileSetToVram), []), old(indicesToGc))
        == GcState(referenceCounts, tileSetToVram, freed)
    {
      ghost var start := GcState(referenceCounts, tileSetToVram, []);
      var queue := indicesToGc;
      freed := [];
      var i := 0;
      while i < |queue|
        invariant 0 <= i <= |queue|
        invariant |referenceCounts| == |start.counts|
        invariant QueueInRange(queue, |referenceCounts|)
        invariant GcAll(start, queue[..i]) == GcState(referenceCounts, tileSetToVram, freed)
        invariant forall t | t in tileSetToVram ::
          tileSetToVram[t].offset / 32 < |referenceCounts| &&
          referenceCounts[tileSetToVram[t].offset / 32].tile == Some(t)
      {
        assert queue[..i + 1][..i] == queue[..i];
        var index := queue[i];
        var k := Key(index);
        if referenceCounts[k].count > 0 {
          i := i + 1;
          continue;
        }
        match referenceCounts[k].tile {
          case None =>
          case Some(t) =>
            freed := freed + [ReferenceFromIndex(index)];
            tileSetToVram := tileSetToVram - {t};
            referenceCounts := referenceCounts[k := Clear(referenceCounts[k])];
        }
        i := i + 1;
      }
      assert queue[..i] == queue;
      indicesToGc := [];
    }

    /**
     * `add_tile`: a tile already in the table gains a reference (its index
     * read in the given tile set's format); a new one is placed at `location`,
     * the memory the block allocator returned, enters the table and gets a
     * fresh count of one. Copying its pixels there is not modelled.
     */
    method AddTile(tileSet: TileSet, tile: nat, location: TileReference) returns (index: TileIndex)
      requires Valid()
      requires var t := TileInTileSetReference(tileSet.data, tile);
        t in tileSetToVram ==>
          var k := Key(IndexFromReference(tileSetToVram[t], tileSet.format));
          k < |referenceCounts| && referenceCounts[k].count < 0xFFFF && referenceCounts[k].tile.Some?
      requires location.offset % TileSize(tileSet.format) == 0
      requires forall t | t in tileSetToVram :: tileSetToVram[t].offset / 32 != location.offset / 32
      modifies this
      ensures var t := TileInTileSetReference(tileSet.data, tile);
        if t in old(tileSetToVram) then
          index == IndexFromReference(old(tileSetToVram[t]), tileSet.format) &&
          referenceCounts == old(referenceCounts)[Key(index) := Increment(old(referenceCounts[Key(index)]))] &&
          tileSetToVram == old(tileSetToVram)
        else
          index == IndexFromReference(location, tileSet.format) &&
          tileSetToVram == old(tileSetToVram)[t := location] &&
          referenceCounts == Grow(old(referenceCounts), Key(index) + 1)[Key(index) := NewCount(t)]
      ensures Valid() && indicesToGc == old(indicesToGc)
    {
      var t := TileInTileSetReference(tileSet.data, tile);
      if t in tileSetToVram {
        index := IndexFromReference(tileSetToVram[t], tileSet.format);
        IncreaseReference(index);
        return;
      }
      tileSetToVram := tileSetToVram[t := location];
      index := IndexFromReference(location, tileSet.format);
      ReferenceIndexRoundTrip(location, tileSet.format);
      var k := Key(index);
      referenceCounts := Grow(referenceCounts, k + 1)[k := NewCount(t)];
    }
  }

  /**
   * Adding a tile and removing it again leaves its location queued for
   * collection with no references, and the next `gc` frees exactly that
   * location and forgets the tile.
   */
  method AddRemoveCollect(m: VRamManagerInner, tileSet: TileSet, tile: nat, location: TileReference)
    returns (freed: seq<TileReference>)
    requires m.Valid() && m.indicesToGc == []
    requires TileInTileSetReference(tileSet.data, tile) !in m.tileSetToVram
    requires location.offset % TileSize(tileSet.format) == 0
    requires forall t | t in m.tileSetToVram :: m.tileSetToVram[t].offset / 32 != location.offset / 32
    modifies m
    ensures freed == [location]
    ensures TileInTileSetReference(tileSet.data, tile) !in m.tileSetToVram
  {
    var index := m.AddTile(tileSet, tile, location);
    ReferenceIndexRoundTrip(location, tileSet.format);
    m.RemoveTile(index);
    freed := m.Gc();
  }

  /**
   * One pixel of a 4-bit tile word: the nibble at position `n`. Positions
   * and shift amounts are `usize`, 32 bits wide on this target.
   */
  function Nibble(w: bv32, n: bv32): bv32
    requires n < 8
  {
    (w >> (n << 2)) & 0xF
  }

  /** The word with nibble `n` replaced by `p`: `(w & !mask) | (p << (n * 4))`. */
  function WithNibble(w: bv32, n: bv32, p: bv32): bv32
    requires n < 8
  {
    (w & !(0xF << (n << 2))) | (p << (n << 2))
  }

  /** Replacing a nibble sets that nibble and no other. */
  lemma NibbleUpdate(w: bv32, n: bv32, m: bv32, p: bv32)
    requires n < 8 && m < 8 && p < 16
    ensures Nibble(WithNibble(w, n, p), m) == if n == m then p else Nibble(w, m)
  {
  }

  /** `colour << (i * 4)` or-ed together for `i` below `count`. */
  function Spread(c: bv32, count: bv32): bv32
    requires count <= 8
    decreases count
  {
    if count == 0 then 0 else Spread(c, count - 1) | (c << ((count - 1) << 2))
  }

  lemma SpreadNext(c: bv32, i: bv32)
    requires i < 8
    ensures Spread(c, i + 1) == Spread(c, i) | (c << (i << 2))
  {
  }

  /** For a colour below 16 the spread word holds that colour in each of its eight nibbles. */
  lemma SpreadNibbles(c: bv32, n: bv32)
    requires c < 16 && n < 8
    ensures Nibble(Spread(c, 8), n) == c
  {
  }

  /** The loop of `fill_with`: the colour or-ed in at each of the eight nibble positions. */
  method SpreadColour(colourIndex: bv32) returns (value: bv32)
    ensures value == Spread(colourIndex, 8)
  {
    value := 0;
    var i: bv32 := 0;
    while i < 8
      invariant i <= 8
      invariant value == Spread(colourIndex, i)
      decreases 8 - i
    {
      SpreadNext(colourIndex, i);
      value := value | (colourIndex << (i << 2));
      i := i + 1;
    }
  }

  /** The pixel at column `x`, row `y` of a tile's eight words. */
  function Pixel(words: seq<bv32>, x: bv32, y: bv32): bv32
    requires |words| == 8 && x < 8 && y < 8
  {
    Nibble(words[y], x)
  }

  /** `DynamicTile16`: eight words of video memory, one nibble per pixel, a row per word. */
  class DynamicTile16 {
    var tileData: array<bv32>

    ghost predicate Valid()
      reads this
    {
      tileData.Length == 8
    }

    constructor (words: seq<bv32>)
      requires |words| == 8
      ensures Valid() && fresh(tileData) && tileData[..] == words
    {
      tileData := new bv32[8](i requires 0 <= i < 8 => words[i]);
    }

    /** `fill_with`: the spread colour written to every word. */
    method FillWith(colourIndex: bv32)
      requires Valid() && colourIndex < 0x100
      modifies tileData
      ensures tileData[..] == seq(8, _ => Spread(colourIndex, 8))
    {
      var value := SpreadColour(colourIndex);
      Fill(value);
    }

    /** `tile_data.fill`: the same word everywhere. */
    method Fill(value: bv32)
      requires Valid()
      modifies tileData
      ensures tileData[..] == seq(8, _ => value)
    {
      forall k | 0 <= k < 8 {
        tileData[k] := value;
      }
    }

    /**
     * `set_pixel` as written: it asserts `x` and `y` are in `0..9` and the
     * colour below 16, then writes nibble `(x + 8y) % 8` of word
     * `(x + 8y) / 8` (which must exist).
     */
    method SetPixelAsWritten(x: bv32, y: bv32, paletteIndex: bv32)
      requires Valid() && x < 9 && y < 9 && paletteIndex < 16
      requires (x + y * 8) / 8 < 8
      modifies tileData
      ensures var index := x + y * 8;
        tileData[..] == old(tileData[..])[index / 8 := WithNibble(old(tileData[index / 8]), index % 8, paletteIndex)]
    {
      var index := x + y * 8;
      var wordIndex := index / 8;
      var nibbleOffset := index % 8;
      tileData[wordIndex] := WithNibble(tileData[wordIndex], nibbleOffset, paletteIndex);
    }

    /** `set_pixel` as meant: only columns and rows 0 to 7. */
    method SetPixel(x: bv32, y: bv32, paletteIndex: bv32)
      requires Valid() && x < 8 && y < 8 && paletteIndex < 16
      modifies tileData
      ensures tileData[..] == PixelWritten(old(tileData[..]), x, y, paletteIndex)
    {
      SetPixelAsWritten(x, y, paletteIndex);
    }
  }

  /** The words after writing colour `p` at column `x`, row `y`. */
  function PixelWritten(words: seq<bv32>, x: bv32, y: bv32, p: bv32): (r: seq<bv32>)
    requires |words| == 8 && x < 8 && y < 8
    ensures |r| == 8
  {
    var index := x + y * 8;
    words[index / 8 := WithNibble(words[index / 8], index % 8, p)]
  }

  /** Writing a pixel changes that pixel to the colour and no other pixel. */
  lemma PixelWrittenOnly(words: seq<bv32>, x: bv32, y: bv32, p: bv32, i: bv32, j: bv32)
    requires |words| == 8 && x < 8 && y < 8 && p < 16 && i < 8 && j < 8
    ensures Pixel(PixelWritten(words, x, y, p), i, j) == if i == x && j == y then p else Pixel(words, i, j)
  {
    var index := x + y * 8;
    assert index / 8 == y && index % 8 == x;
    NibbleUpdate(words[y], x, i, p);
  }

  /** After `fill_with` with a colour below 16, every pixel has that colour. */
  lemma FilledPixels(c: bv32, x: bv32, y: bv32)
    requires c < 16 && x < 8 && y < 8
    ensures Pixel(seq(8, _ => Spread(c, 8)), x, y) == c
  {
    SpreadNibbles(c, x);
  }

  /**
   * The guard as written lets column 8 through: `set_pixel(8, 0, c)` writes
   * the first pixel of the second row.
   */
  lemma SetPixelColumnEightSpills(words: seq<bv32>, p: bv32)
    requires |words| == 8 && p < 16
    ensures var index := 8 + 0 * 8;
      var after := words[index / 8 := WithNibble(words[index / 8], index % 8, p)];
      Pixel(after, 0, 1) == p
  {
    NibbleUpdate(words[1], 0, 0, p);
  }
}
