/**
 * Sprite sizes and animation tags of agb
 * (agb/src/display/object/sprites/sprite.rs): the twelve hardware sprite
 * sizes with their attribute codes, the frame an animation tag shows at a
 * given step for each playback direction, and the iterator that steps
 * through the same frames without dividing.
 */
module SpriteTag {
  import opened Bits

  /** The bytes of one 4-bit-per-pixel tile. */
  const BYTES_PER_TILE_4BPP: nat := 32

  /**
   * `Size`: twelve sizes, whose discriminant packs the shape (square, wide,
   * tall) into bits 2-3 and the size within the shape into bits 0-1.
   */
  datatype Size =
    | S8x8 | S16x16 | S32x32 | S64x64
    | S16x8 | S32x8 | S32x16 | S64x32
    | S8x16 | S8x32 | S16x32 | S32x64

  /** The enum discriminant, as stored in the object attributes. */
  function Code(s: Size): (c: nat)
    ensures c < 12
  {
    match s
    case S8x8 => 0x0 case S16x16 => 0x1 case S32x32 => 0x2 case S64x64 => 0x3
    case S16x8 => 0x4 case S32x8 => 0x5 case S32x16 => 0x6 case S64x32 => 0x7
    case S8x16 => 0x8 case S8x32 => 0x9 case S16x32 => 0xA case S32x64 => 0xB
  }

  /** `to_width_height`: the size in pixels. */
  function ToWidthHeight(s: Size): (nat, nat)
  {
    match s
    case S8x8 => (8, 8) case S16x16 => (16, 16) case S32x32 => (32, 32) case S64x64 => (64, 64)
    case S16x8 => (16, 8) case S32x8 => (32, 8) case S32x16 => (32, 16) case S64x32 => (64, 32)
    case S8x16 => (8, 16) case S8x32 => (8, 32) case S16x32 => (16, 32) case S32x64 => (32, 64)
  }

  /** The pairs `from_width_height` accepts; any other pair panics. */
  predicate IsSpriteSize(width: nat, height: nat)
  {
    (width, height) in {(8, 8), (16, 16), (32, 32), (64, 64), (16, 8), (32, 8), (32, 16), (64, 32),
                        (8, 16), (8, 32), (16, 32), (32, 64)}
  }

  /** `from_width_height`. */
  function FromWidthHeight(width: nat, height: nat): Size
    requires IsSpriteSize(width, height)
  {
    match (width, height)
    case (8, 8) => S8x8 case (16, 16) => S16x16 case (32, 32) => S32x32 case (64, 64) => S64x64
    case (16, 8) => S16x8 case (32, 8) => S32x8 case (32, 16) => S32x16 case (64, 32) => S64x32
    case (8, 16) => S8x16 case (8, 32) => S8x32 case (16, 32) => S16x32 case (32, 64) => S32x64
  }

  /** Every size's pixel dimensions are accepted back and name the same size. */
  lemma SizeRoundTrip(s: Size)
    ensures IsSpriteSize(ToWidthHeight(s).0, ToWidthHeight(s).1)
    ensures FromWidthHeight(ToWidthHeight(s).0, ToWidthHeight(s).1) == s
  {
  }

  /** Every accepted pair comes back out of the size it names. */
  lemma WidthHeightRoundTrip(width: nat, height: nat)
    requires IsSpriteSize(width, height)
    ensures ToWidthHeight(FromWidthHeight(width, height)) == (width, height)
  {
  }

  /** `number_of_tiles`: the table of tile counts. */
  function NumberOfTiles(s: Size): nat
  {
    match s
    case S8x8 => 1 case S16x16 => 4 case S32x32 => 16 case S64x64 => 64
    case S16x8 => 2 case S32x8 => 4 case S32x16 => 8 case S64x32 => 32
    case S8x16 => 2 case S8x32 => 4 case S16x32 => 8 case S32x64 => 32
  }

  /** `to_tiles_width_height`: the size in 8-pixel tiles. */
  function ToTilesWidthHeight(s: Size): (nat, nat)
  {
    (ToWidthHeight(s).0 / 8, ToWidthHeight(s).1 / 8)
  }

  /** The tile-count table is the pixel area over 64, and the product of the tile dimensions. */
  lemma NumberOfTilesIsArea(s: Size)
    ensures NumberOfTiles(s) == ToWidthHeight(s).0 * ToWidthHeight(s).1 / 64
    ensures NumberOfTiles(s) == ToTilesWidthHeight(s).0 * ToTilesWidthHeight(s).1
  {
  }

  /** `shape_size`: `(code >> 2, code & 0b11)`. */
  function ShapeSize(s: Size): (nat, nat)
  {
    (Code(s) / 4, Code(s) % 4)
  }

  /** The shape is 0 (square), 1 (wide) or 2 (tall), and the shape-size pair names the size uniquely. */
  lemma ShapeSizeIdentifies(s: Size, t: Size)
    ensures ShapeSize(s).0 < 3 && ShapeSize(s).1 < 4
    ensures ShapeSize(s).0 == 0 <==> ToWidthHeight(s).0 == ToWidthHeight(s).1
    ensures ShapeSize(s).0 == 1 <==> ToWidthHeight(s).0 > ToWidthHeight(s).1
    ensures ShapeSize(s) == ShapeSize(t) ==> s == t
  {
  }

  /** `layout`: the bytes of the sprite's tiles, doubled for a 256-colour (multi-palette) sprite. */
  function LayoutSize(s: Size, multiPalette: bool): nat
  {
    NumberOfTiles(s) * BYTES_PER_TILE_4BPP * (if multiPalette then 2 else 1)
  }

  lemma LayoutSizeIsPixels(s: Size, multiPalette: bool)
    ensures LayoutSize(s, multiPalette) * 2 == ToWidthHeight(s).0 * ToWidthHeight(s).1 * (if multiPalette then 2 else 1)
  {
  }

  /** The playback direction of an aseprite tag. */
  datatype Direction = Forward | Backward | PingPong

  /** `Direction::from_usize`: 0, 1 and 2; anything else panics. */
  function DirectionFromUsize(a: nat): (d: Direction)
    requires a <= 2
    ensures a == 0 <==> d == Forward
    ensures a == 1 <==> d == Backward
  {
    if a == 0 then Forward else if a == 1 then Backward else PingPong
  }

  /**
   * `animation_sprite`: the frame shown at step `idx` of a tag of `len`
   * frames. The source subtracts one from the length, so an empty tag
   * underflows, and for ping-pong takes the step modulo `2 * (len - 1)`, so a
   * one-frame ping-pong tag divides by zero: both are excluded.
   */
  function AnimationSprite(direction: Direction, len: nat, idx: nat): (frame: nat)
    requires len >= 1 && (direction == PingPong ==> len >= 2)
    ensures frame < len
  {
    var lenSub1 := len - 1;
    match direction
    case Forward => idx % len
    case Backward => lenSub1 - idx % len
    case PingPong =>
      var shifted := (idx + lenSub1) % (lenSub1 * 2) - lenSub1;
      if shifted < 0 then -shifted else shifted
  }

  /** Folding with `l = len - 1`: the distance of `idx + l` from `l`, taken modulo `2 * l`, is a rise and fall. */
  lemma PingPongFold(l: nat, idx: nat)
    requires l >= 1
    ensures var p, c := l * 2, idx % (l * 2);
      var shifted := (idx + l) % p - l;
      (if shifted < 0 then -shifted else shifted) == (if c <= l then c else p - c)
  {
    var p := l * 2;
    DivMod(idx, p);
    var q, c := idx / p, idx % p;
    assert p * (q + 1) == p * q + p;
    if c < l {
      ModUnique(idx + l, p, q, c + l);
    } else {
      ModUnique(idx + l, p, q + 1, c - l);
    }
  }

  /** Adding the modulus leaves the remainder alone. */
  lemma ModPeriod(idx: nat, p: nat)
    requires p >= 1
    ensures (idx + p) % p == idx % p
  {
    DivMod(idx, p);
    var q := idx / p;
    assert p * (q + 1) == p * q + p;
    ModUnique(idx + p, p, q + 1, idx % p);
  }

  /** The ping-pong frame rises from 0 to `len - 1`, falls back, and repeats every `2 * (len - 1)` steps. */
  lemma PingPongShape(len: nat, idx: nat)
    requires len >= 2
    ensures var c := idx % (2 * len - 2);
      AnimationSprite(PingPong, len, idx) == (if c < len then c else 2 * len - 2 - c)
    ensures AnimationSprite(PingPong, len, idx + (2 * len - 2)) == AnimationSprite(PingPong, len, idx)
  {
    var l := len - 1;
    assert 2 * len - 2 == l * 2;
    PingPongFold(l, idx);
    PingPongFold(l, idx + l * 2);
    ModPeriod(idx, l * 2);
  }

  /** The number of distinct counter values the iterator cycles through. */
  function Period(direction: Direction, len: nat): (p: nat)
    requires len >= 1
    ensures p >= 1
  {
    if direction == PingPong then (if len >= 2 then 2 * len - 2 else 1) else len
  }

  /** The counter the iterator started by `Tag::iter` holds after `step` frames. */
  function CounterAt(direction: Direction, len: nat, step: nat): (c: nat)
    requires len >= 1
    ensures c < Period(direction, len)
  {
    if direction == Backward then len - 1 - step % len else step % Period(direction, len)
  }

  /** The frame the iterator yields for a counter value. */
  function FrameOfCounter(direction: Direction, len: nat, counter: nat): (frame: nat)
    requires len >= 1 && counter < Period(direction, len)
    ensures frame < len
  {
    if direction == PingPong && counter >= len then 2 * len - counter - 2 else counter
  }

  /**
   * The iterator agrees with `animation_sprite`: the frame it yields after
   * `step` frames is the frame `animation_sprite` gives for `step`.
   */
  lemma IteratorMatchesAnimationSprite(direction: Direction, len: nat, step: nat)
    requires len >= 1 && (direction == PingPong ==> len >= 2)
    ensures FrameOfCounter(direction, len, CounterAt(direction, len, step)) == AnimationSprite(direction, len, step)
  {
    if direction == PingPong {
      PingPongShape(len, step);
    }
  }

  /** The remainder of the successor: one more, or back to zero. */
  lemma ModSucc(step: nat, m: nat)
    requires m >= 1
    ensures (step + 1) % m == if step % m + 1 >= m then 0 else step % m + 1
  {
    DivMod(step, m);
    var q, r := step / m, step % m;
    assert m * (q + 1) == m * q + m;
    if r + 1 < m {
      ModUnique(step + 1, m, q, r + 1);
    } else {
      ModUnique(step + 1, m, q + 1, 0);
    }
  }

  /** One step of the counter, as `next` updates it. */
  lemma CounterStep(direction: Direction, len: nat, step: nat)
    requires len >= 1
    ensures var c := CounterAt(direction, len, step);
      CounterAt(direction, len, step + 1) == match direction
        case Forward => (if c + 1 >= len then 0 else c + 1)
        case Backward => (if c - 1 < 0 then len - 1 else c - 1)
        case PingPong => (if c + 1 >= 2 * len - 2 then 0 else c + 1)
  {
    if direction == Backward {
      ModSucc(step, len);
    } else {
      ModSucc(step, Period(direction, len));
    }
  }

  /**
   * `AnimationIterator`: an `i32` counter and the tag it walks. `step` counts
   * the frames yielded so far by an iterator started from `Tag::iter`.
   */
  class AnimationIterator {
    var counter: int
    const direction: Direction
    const len: nat
    ghost var step: nat

    ghost predicate Valid()
      reads this
    {
      len >= 1 && counter == CounterAt(direction, len, step)
    }

    /** `Tag::iter`: forward and ping-pong start at frame 0, backward at the last frame. */
    constructor Iter(direction: Direction, len: nat)
      requires len >= 1
      ensures Valid() && step == 0 && this.direction == direction && this.len == len
      ensures counter == if direction == Backward then len - 1 else 0
    {
      this.direction := direction;
      this.len := len;
      counter := if direction == Backward then len - 1 else 0;
      step := 0;
    }

    /**
     * An iterator built directly with a starting counter, as the source's
     * tests do with `AnimationIterator(0, tag)`; it is the `Tag::iter`
     * iterator advanced by `first` frames.
     */
    constructor Starting(direction: Direction, len: nat, first: nat)
      requires len >= 1 && first < len
      ensures Valid() && this.direction == direction && this.len == len
      ensures step == (if direction == Backward then len - 1 - first else first)
      ensures counter == CounterAt(direction, len, 0) || step > 0
    {
      this.direction := direction;
      this.len := len;
      var s := if direction == Backward then len - 1 - first else first;
      ModUnique(s, len, 0, s);
      if direction == PingPong && len >= 2 {
        if first < 2 * len - 2 {
          ModUnique(s, 2 * len - 2, 0, s);
        } else {
          ModUnique(s, 2 * len - 2, 1, s - (2 * len - 2));
        }
      }
      counter := CounterAt(direction, len, s);
      step := s;
    }

    /** `next`: the frame for the current counter; the counter moves on by one frame (it never ends). */
    method Next() returns (frame: nat)
      requires Valid()
      modifies this
      ensures Valid() && step == old(step) + 1
      ensures frame == FrameOfCounter(direction, len, CounterAt(direction, len, old(step)))
      ensures direction == PingPong ==> len >= 2 ==> frame == AnimationSprite(direction, len, old(step))
      ensures direction != PingPong ==> frame == AnimationSprite(direction, len, old(step))
    {
      var current := counter;
      CounterStep(direction, len, step);
      if direction != PingPong || len >= 2 {
        IteratorMatchesAnimationSprite(direction, len, step);
      }
      match direction {
        case Forward =>
          counter := counter + 1;
          if counter >= len {
            counter := 0;
          }
          frame := current;
        case Backward =>
          counter := counter - 1;
          if counter < 0 {
            counter := len - 1;
          }
          frame := current;
        case PingPong =>
          counter := counter + 1;
          if counter >= len * 2 - 2 {
            counter := 0;
          }
          if current >= len {
            frame := len * 2 - current - 2;
          } else {
            frame := current;
          }
      }
      step := step + 1;
    }
  }

  /** The forward sequence the source's tests list for a tag of three frames. */
  method ForwardExample() returns (frames: seq<nat>)
    ensures frames == [0, 1, 2, 0, 1, 2, 0]
  {
    var f := new AnimationIterator.Starting(Forward, 3, 0);
    frames := [];
    var i := 0;
    while i < 7
      invariant 0 <= i <= 7 && f.Valid() && f.direction == Forward && f.len == 3 && f.step == i
      invariant frames == seq(i, k requires 0 <= k => k % 3)
    {
      var x := f.Next();
      frames := frames + [x];
      i := i + 1;
    }
  }

  /** The backward sequence of the source's tests, from an iterator whose counter starts at 0. */
  method BackwardExample() returns (frames: seq<nat>)
    ensures frames == [0, 2, 1, 0, 2, 1, 0]
  {
    var b := new AnimationIterator.Starting(Backward, 3, 0);
    frames := [];
    var i := 0;
    while i < 7
      invariant 0 <= i <= 7 && b.Valid() && b.direction == Backward && b.len == 3 && b.step == i + 2
      invariant frames == seq(i, k requires 0 <= k => 2 - (k + 2) % 3)
    {
      var x := b.Next();
      frames := frames + [x];
      i := i + 1;
    }
  }

  /** The ping-pong sequence of the source's tests for three frames. */
  method PingPongExample() returns (frames: seq<nat>)
    ensures frames == [0, 1, 2, 1, 0, 1, 2, 1, 0]
  {
    var p := new AnimationIterator.Starting(PingPong, 3, 0);
    frames := [];
    var i := 0;
    while i < 9
      invariant 0 <= i <= 9 && p.Valid() && p.direction == PingPong && p.len == 3 && p.step == i
      invariant frames == seq(i, k requires 0 <= k => var c := k % 4; if c < 3 then c else 4 - c)
    {
      PingPongShape(3, i);
      var x := p.Next();
      frames := frames + [x];
      i := i + 1;
    }
  }
}
