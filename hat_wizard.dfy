/*
 * The level queries and the small numeric helpers of "The Hat Chooses the
 * Wizard": the bouncing animation counter, the tile-property lookup of a
 * level, and the binary search that finds how far an entity may move
 * before it collides.
 */
module HatWizard {
  import opened Bits
  import opened FixVector
  import FixNum

  /**
   * `ping_pong` on `i32`, with Rust's truncating `%`. The source divides by
   * `2 * (n - 1)`, so `n == 1` panics, and that product must fit an `i32`.
   */
  function PingPong(i: i32, n: i32): int
    requires 2 <= n <= 0x4000_0000
  {
    var cycle := 2 * (n - 1);
    var j := TruncRem(i, cycle);
    if j >= n then cycle - j else j
  }

  /** The test table of `ping_pong`. */
  lemma PingPongTable()
    ensures PingPong(0, 2) == 0 && PingPong(0, 7) == 0 && PingPong(1, 2) == 1
    ensures PingPong(2, 2) == 0 && PingPong(3, 2) == 1 && PingPong(4, 2) == 0
  {
    PingPongAt(0, 2, 0, 0);
    PingPongAt(0, 7, 0, 0);
    PingPongAt(1, 2, 0, 1);
    PingPongAt(2, 2, 1, 0);
    PingPongAt(3, 2, 1, 1);
    PingPongAt(4, 2, 2, 0);
  }

  /** A non-negative counter `q` cycles and `r` steps into the next. */
  lemma PingPongAt(i: i32, n: i32, q: nat, r: nat)
    requires 2 <= n <= 0x4000_0000 && r < 2 * (n - 1) && i == 2 * (n - 1) * q + r
    ensures PingPong(i, n) == if r >= n then 2 * (n - 1) - r else r
  {
    var cycle := 2 * (n - 1);
    ModUnique(i, cycle, q, r);
    assert TruncDiv(i, cycle) == q;
    assert TruncRem(i, cycle) == r;
  }

  /**
   * For a non-negative counter the value rises from 0 to n - 1 and falls
   * back, so it stays in 0..n; a negative counter, whose remainder is
   * negative, gives a value of at most 0.
   */
  lemma PingPongRange(i: i32, n: i32)
    requires 2 <= n <= 0x4000_0000
    ensures i >= 0 ==> 0 <= PingPong(i, n) < n
    ensures 0 <= i < n ==> PingPong(i, n) == i
    ensures i < 0 ==> PingPong(i, n) <= 0
  {
    var cycle := 2 * (n - 1);
    TruncRemBounds(i, cycle);
    if 0 <= i < n {
      ModUnique(i, cycle, 0, i);
      assert TruncRem(i, cycle) == i;
    }
  }

  /** `map_tiles::tilemap::COLLISION_TILE`, `KILL_TILE` and `WIN_TILE`. */
  const COLLISION_TILE: u32 := 1
  const KILL_TILE: u32 := 2
  const WIN_TILE: u32 := 4

  /** The tile data of a `Level`: two layers of tile indices and the property of each tile. */
  datatype Level = Level(background: seq<u16>, foreground: seq<u16>, width: u32, height: u32, collision: seq<u32>)

  /**
   * What indexing the level demands: both layers cover the map, every tile
   * has a property, and the map's dimensions read the same as `i32`.
   */
  predicate WellFormed(level: Level)
  {
    level.width * level.height < 0x8000_0000 &&
    |level.background| >= level.width * level.height &&
    |level.foreground| >= level.width * level.height &&
    (forall i | 0 <= i < |level.background| :: level.background[i] as int < |level.collision|) &&
    (forall i | 0 <= i < |level.foreground| :: level.foreground[i] as int < |level.collision|)
  }

  predicate InBounds(level: Level, x: i32, y: i32)
  {
    0 <= x < level.width && 0 <= y < level.height
  }

  /** `at_point`: off the map every property holds; on it, either layer's tile may have it. */
  function AtPoint(level: Level, x: i32, y: i32, tile: u32): bool
    requires WellFormed(level)
  {
    if !InBounds(level, x, y) then true
    else
      var pos := RowMajor(level, x, y);
      level.collision[level.foreground[pos]] == tile || level.collision[level.background[pos]] == tile
  }

  /** `dimensions.x * y + x`, the index of a cell on the map. */
  function RowMajor(level: Level, x: i32, y: i32): (pos: nat)
    requires WellFormed(level) && InBounds(level, x, y)
    ensures pos < level.width * level.height
  {
    MulLe(level.width, y + 1, level.height);
    level.width * y + x
  }

  function Collides(level: Level, x: i32, y: i32): bool
    requires WellFormed(level)
  {
    AtPoint(level, x, y, COLLISION_TILE)
  }

  function Kills(level: Level, x: i32, y: i32): bool
    requires WellFormed(level)
  {
    AtPoint(level, x, y, KILL_TILE)
  }

  function Wins(level: Level, x: i32, y: i32): bool
    requires WellFormed(level)
  {
    AtPoint(level, x, y, WIN_TILE)
  }

  /** Off the map a point collides, kills and wins at once. */
  lemma OutOfBounds(level: Level, x: i32, y: i32)
    requires WellFormed(level) && !InBounds(level, x, y)
    ensures Collides(level, x, y) && Kills(level, x, y) && Wins(level, x, y)
  {
  }

  /** On the map a property holds exactly when the foreground or the background tile of the cell has it. */
  lemma InBoundsProperty(level: Level, x: i32, y: i32, tile: u32)
    requires WellFormed(level) && InBounds(level, x, y)
    ensures var pos := level.width * y + x;
      pos < |level.foreground| && pos < |level.background| &&
      (AtPoint(level, x, y, tile) <==>
        level.collision[level.foreground[pos]] == tile || level.collision[level.background[pos]] == tile)
  {
    var pos := RowMajor(level, x, y);
    assert pos == level.width * y + x;
  }

  /** A cell on the map that both collides and kills has one property in each layer. */
  lemma CollideAndKill(level: Level, x: i32, y: i32)
    requires WellFormed(level) && InBounds(level, x, y) && Collides(level, x, y) && Kills(level, x, y)
    ensures var pos := level.width * y + x;
      pos < |level.foreground| && pos < |level.background| &&
      {level.collision[level.foreground[pos]], level.collision[level.background[pos]]} == {COLLISION_TILE, KILL_TILE}
  {
    var pos := RowMajor(level, x, y);
    assert pos == level.width * y + x;
  }

  /** The point halfway between `low` and `high`, rounded toward zero, lies between them, strictly when they are at least 2 apart. */
  lemma Halfway(low: int, high: int)
    ensures var mid := TruncDiv(low + high, 2);
      (low <= high ==> low <= mid <= high) && (high <= low ==> high <= mid <= low) &&
      (Magnitude(high - low) >= 2 ==> mid != low && mid != high)
  {
    var s := low + high;
    DivFloor(Magnitude(s), 2);
  }

  /**
   * `binary_search_collision` on the raw bits of `FixedNum<10>` numbers,
   * where `1 / 8` is 128. `collides(d)` is the entity's collision test at
   * its position moved by `d` along the unit vector. It ends with the
   * endpoints within an eighth of each other, `low` never colliding (or
   * still 0) and `high` colliding (or still `initial`), both between 0 and
   * `initial`; the move returned is the unit vector scaled by `low`. So
   * when nothing is in the way the entity moves within an eighth of the
   * full distance, and when everything is it hardly moves.
   */
  method BinarySearchCollision(unit: Vector2D<FixNum.Num>, initial: FixNum.Num, collides: FixNum.Num -> bool)
    returns (move: Vector2D<FixNum.Num>, low: FixNum.Num, high: FixNum.Num)
    requires -0x4000_0000 <= initial.raw < 0x4000_0000
    ensures Magnitude(high.raw - low.raw) <= 128
    ensures low.raw == 0 || !collides(low)
    ensures high == initial || collides(high)
    ensures Between(low.raw, initial.raw) && Between(high.raw, initial.raw)
    ensures move == Vector2D(FixNum.Mul(unit.x, low, 10), FixNum.Mul(unit.y, low, 10))
    ensures (forall d :: !collides(d)) ==> high == initial && Magnitude(initial.raw - low.raw) <= 128
    ensures (forall d :: collides(d)) ==> low.raw == 0 && Magnitude(high.raw) <= 128
  {
    low, high := FixNum.Num(0), initial;
    while Magnitude(high.raw - low.raw) > 128
      invariant Between(low.raw, initial.raw) && Between(high.raw, initial.raw)
      invariant low.raw == 0 || !collides(low)
      invariant high == initial || collides(high)
      decreases Magnitude(high.raw - low.raw)
    {
      Halfway(low.raw, high.raw);
      var mid := FixNum.Num(TruncDiv(low.raw + high.raw, 2));
      if collides(mid) {
        high := mid;
      } else {
        low := mid;
      }
    }
    move := Vector2D(FixNum.Mul(unit.x, low, 10), FixNum.Mul(unit.y, low, 10));
  }

  /** `x` lies between 0 and `bound`, whichever side of 0 `bound` is on. */
  predicate Between(x: int, bound: int)
  {
    if bound >= 0 then 0 <= x <= bound else bound <= x <= 0
  }
}
