/**
 * The sizes of a regular (non-affine) tiled background
 * (agb/src/display/tiled/regular_background.rs) and where a tile position
 * lands in its map. A map larger than 32x32 tiles is stored as a row of
 * 32x32 screen blocks, so a position first picks its screen block and then
 * its place inside that block; positions wrap around the map's size, and
 * negative ones wrap too.
 */
module RegularBackground {
  import opened Bits
  import opened FixVector

  /** `RegularBackgroundSize`, in tiles. */
  datatype RegularBackgroundSize = Background32x32 | Background64x32 | Background32x64 | Background64x64

  /** `width`. */
  function Width(s: RegularBackgroundSize): (w: nat)
    ensures w == 32 || w == 64
  {
    match s
    case Background32x32 => 32
    case Background64x32 => 64
    case Background32x64 => 32
    case Background64x64 => 64
  }

  /** `height`. */
  function Height(s: RegularBackgroundSize): (h: nat)
    ensures h == 32 || h == 64
  {
    match s
    case Background32x32 => 32
    case Background64x32 => 32
    case Background32x64 => 64
    case Background64x64 => 64
  }

  /** `num_tiles`. */
  function NumTiles(s: RegularBackgroundSize): nat
  {
    Width(s) * Height(s)
  }

  /** The variants are exactly the four combinations of 32 and 64, and `num_tiles` is 1024 per screen block. */
  lemma SizesTable(s: RegularBackgroundSize)
    ensures NumTiles(s) == Width(s) * Height(s)
    ensures NumTiles(s) % 1024 == 0 && 1024 <= NumTiles(s) <= 4096
    ensures s == Background32x32 <==> Width(s) == 32 && Height(s) == 32
    ensures s == Background64x32 <==> Width(s) == 64 && Height(s) == 32
    ensures s == Background32x64 <==> Width(s) == 32 && Height(s) == 64
    ensures s == Background64x64 <==> Width(s) == 64 && Height(s) == 64
  {
  }

  /** The exponent of `n`, a width or a height: 32 is 2^5 and 64 is 2^6. */
  function Log2Side(n: nat): nat
  {
    if n == 32 then 5 else 6
  }

  lemma SideIsPow2(n: nat)
    requires n == 32 || n == 64
    ensures Pow2(Log2Side(n)) == n && Log2Side(n) < 31
  {
    assert Pow2(5) == 32;
  }

  /** `pos.x & (width - 1)` on an `i32`: the low bits, which is the Euclidean remainder. */
  function Wrap(x: i32, n: nat): (r: nat)
    requires n == 32 || n == 64
    ensures r == x % n
  {
    SideIsPow2(n);
    AndLowMask(x, Log2Side(n));
    AndI32(x, n - 1)
  }

  /**
   * The screen-block-staggered layout of a position already inside the map:
   * screen block `x / 32 + (y / 32) * (width / 32)`, then row-major inside it.
   */
  function Staggered(w: nat, xMod: nat, yMod: nat): nat
  {
    (xMod / 32 + (yMod / 32) * (w / 32)) * 32 * 32 + (xMod % 32 + 32 * (yMod % 32))
  }

  /** `gba_offset`: where the tile at `pos` lives in the background's tile map. */
  function GbaOffset(s: RegularBackgroundSize, pos: Vector2D<i32>): nat
  {
    Staggered(Width(s), Wrap(pos.x, Width(s)), Wrap(pos.y, Height(s)))
  }

  /** Inside a map the staggered offset stays below the tile count. */
  lemma StaggeredBound(w: nat, h: nat, xMod: nat, yMod: nat)
    requires (w == 32 || w == 64) && (h == 32 || h == 64)
    requires xMod < w && yMod < h
    ensures Staggered(w, xMod, yMod) < w * h
  {
    var inner := xMod % 32 + 32 * (yMod % 32);
    assert inner < 1024;
    var sb := xMod / 32 + (yMod / 32) * (w / 32);
    assert sb < (w / 32) * (h / 32);
    assert w * h == (w / 32) * (h / 32) * 1024;
  }

  /** Every position, negative ones included, lands inside the map. */
  lemma GbaOffsetBound(s: RegularBackgroundSize, pos: Vector2D<i32>)
    ensures GbaOffset(s, pos) < NumTiles(s)
  {
    StaggeredBound(Width(s), Height(s), Wrap(pos.x, Width(s)), Wrap(pos.y, Height(s)));
  }

  /** Moving a whole map width or height lands on the same tile. */
  lemma GbaOffsetPeriodic(s: RegularBackgroundSize, x: i32, y: i32)
    ensures InI32(x + Width(s)) ==> GbaOffset(s, Vector2D(x + Width(s), y)) == GbaOffset(s, Vector2D(x, y))
    ensures InI32(y + Height(s)) ==> GbaOffset(s, Vector2D(x, y + Height(s))) == GbaOffset(s, Vector2D(x, y))
  {
    var w, h := Width(s), Height(s);
    if InI32(x + w) {
      ModUnique(x + w, w, x / w + 1, x % w);
    }
    if InI32(y + h) {
      ModUnique(y + h, h, y / h + 1, y % h);
    }
  }

  /** The two parts of a staggered offset: the screen block and the place inside it. */
  lemma StaggeredParts(w: nat, h: nat, x: nat, y: nat)
    requires (w == 32 || w == 64) && (h == 32 || h == 64)
    requires x < w && y < h
    ensures Staggered(w, x, y) / 1024 == x / 32 + (y / 32) * (w / 32)
    ensures Staggered(w, x, y) % 1024 == x % 32 + 32 * (y % 32)
  {
    var b := x / 32 + (y / 32) * (w / 32);
    var i := x % 32 + 32 * (y % 32);
    assert b * 32 * 32 == b * 1024;
    ModUnique(Staggered(w, x, y), 1024, b, i);
  }

  /** A number written as `a + m * b` with `a < m` has only one such writing. */
  lemma PairUnique(m: nat, a1: nat, b1: nat, a2: nat, b2: nat)
    requires 0 < m && a1 < m && a2 < m
    requires a1 + m * b1 == a2 + m * b2
    ensures a1 == a2 && b1 == b2
  {
    ModUnique(a1 + m * b1, m, b1, a1);
    ModUnique(a1 + m * b1, m, b2, a2);
  }

  /** The same, with the multiplier written on the right. */
  lemma PairUniqueRight(m: nat, a1: nat, b1: nat, a2: nat, b2: nat)
    requires 0 < m && a1 < m && a2 < m
    requires a1 + b1 * m == a2 + b2 * m
    ensures a1 == a2 && b1 == b2
  {
    assert b1 * m == m * b1 && b2 * m == m * b2;
    PairUnique(m, a1, b1, a2, b2);
  }

  /** Within one map two positions share an offset only when they are the same position. */
  lemma StaggeredInjective(w: nat, h: nat, x1: nat, y1: nat, x2: nat, y2: nat)
    requires (w == 32 || w == 64) && (h == 32 || h == 64)
    requires x1 < w && y1 < h && x2 < w && y2 < h
    requires Staggered(w, x1, y1) == Staggered(w, x2, y2)
    ensures x1 == x2 && y1 == y2
  {
    StaggeredParts(w, h, x1, y1);
    StaggeredParts(w, h, x2, y2);
    PairUnique(32, x1 % 32, y1 % 32, x2 % 32, y2 % 32);
    BlockBelow(x1, w);
    BlockBelow(x2, w);
    PairUniqueRight(w / 32, x1 / 32, y1 / 32, x2 / 32, y2 / 32);
    SameDivMod(x1, x2, 32);
    SameDivMod(y1, y2, 32);
  }

  /** A coordinate inside a map of width `w` is in one of its `w / 32` screen blocks. */
  lemma BlockBelow(x: nat, w: nat)
    requires (w == 32 || w == 64) && x < w
    ensures 0 < w / 32 && x / 32 < w / 32
  {
  }

  /** Equal quotients and remainders make equal numbers. */
  lemma SameDivMod(a: nat, b: nat, m: nat)
    requires m > 0 && a / m == b / m && a % m == b % m
    ensures a == b
  {
    DivMod(a, m);
    DivMod(b, m);
  }

  /** So `gba_offset` numbers the tiles of one map period without repetition. */
  lemma GbaOffsetInjective(s: RegularBackgroundSize, p: Vector2D<i32>, q: Vector2D<i32>)
    requires 0 <= p.x < Width(s) && 0 <= p.y < Height(s)
    requires 0 <= q.x < Width(s) && 0 <= q.y < Height(s)
    requires GbaOffset(s, p) == GbaOffset(s, q)
    ensures p == q
  {
    var w, h := Width(s), Height(s);
    ModUnique(p.x, w, 0, p.x);
    ModUnique(p.y, h, 0, p.y);
    ModUnique(q.x, w, 0, q.x);
    ModUnique(q.y, h, 0, q.y);
    StaggeredInjective(w, h, p.x, p.y, q.x, q.y);
  }
}
