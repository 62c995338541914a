/*
 * Sample preparation in the module converter's copy of mmutil
 * (agb-sound-converter/src/mmutil/samplefix.rs): padding a sample with
 * silence at either end, unrolling its loop, turning a ping-pong loop into
 * a forward one, narrowing 16-bit data to 8 bits, making the data signed,
 * and `FixSample`, which clamps the loop points and then prepares the
 * sample for the GBA.
 *
 * Each routine replaces the buffer `data` points to by a new one or
 * rewrites it in place, and updates the header fields; the class below
 * does the same, and each of its methods is proved to leave the sample in
 * the state a function on `SampleData` describes.
 */
module SampleFix {
  import opened Bits

  /**
   * The fields of a `tSample` that these routines read and write. `data` is
   * the whole buffer the sample points to, one entry per sample value (a
   * byte for 8-bit data, a `u16` for 16-bit data).
   */
  datatype SampleData = SampleData(length: u32, loopStart: u32, loopEnd: u32, loopType: u8, format: u8, data: seq<u16>)

  /** Bit 0 of `format`: 16-bit data. */
  predicate Wide(format: u8)
  {
    format % 2 == 1
  }

  /** Bit 1 of `format`: signed data. */
  predicate SignedFormat(format: u8)
  {
    (format / 2) % 2 == 1
  }

  /** `format | 0x2`. */
  function SetSigned(format: u8): (r: u8)
    ensures SignedFormat(r) && r % 2 == format % 2 && r / 4 == format / 4
  {
    if SignedFormat(format) then format else format + 2
  }

  /** The unsigned midpoint, which is silence: 32768 for 16-bit data, 128 for 8-bit. */
  function Silence(wide: bool): u16
  {
    if wide then 32768 else 128
  }

  /** `count` samples of silence. */
  function Silent(count: nat, wide: bool): (r: seq<u16>)
    ensures |r| == count && forall i | 0 <= i < count :: r[i] == Silence(wide)
  {
    seq(count, _ => Silence(wide))
  }

  /**
   * The byte size handed to `malloc` for `n` samples, computed in 32 bits
   * (`n * 2` for 16-bit data), does not wrap. A wrapped size would make the
   * copy loops write past the buffer.
   */
  predicate BufferFits(n: nat, wide: bool)
  {
    (if wide then 2 * n else n) < U32_MODULUS
  }

  /** The loop played over and over: `n` samples, each `loop[x % |loop|]`. */
  function Repeated(loop: seq<u16>, n: nat): (r: seq<u16>)
    requires |loop| > 0 || n == 0
    ensures |r| == n && forall x | 0 <= x < n :: r[x] == loop[x % |loop|]
  {
    seq(n, x requires 0 <= x < n => loop[x % |loop|])
  }

  /** The samples backwards: entry `x` is `s[|s| - 1 - x]`. */
  function Reversed(s: seq<u16>): (r: seq<u16>)
    ensures |r| == |s| && forall x | 0 <= x < |s| :: r[x] == s[|s| - 1 - x]
  {
    seq(|s|, x requires 0 <= x < |s| => s[|s| - 1 - x])
  }

  /** The loop points and the length describe samples held in the buffer. */
  predicate LoopInside(s: SampleData)
  {
    s.loopStart <= s.loopEnd <= s.length <= |s.data|
  }

  /**
   * `Sample_PadStart`: `count` samples of silence go in front, and the loop
   * points and the length move up by `count`; a count of zero changes
   * nothing.
   */
  function PadStarted(s: SampleData, count: u32): (r: SampleData)
    requires s.length <= |s.data| && (count == 0 || BufferFits(s.length + count, Wide(s.format)))
  {
    if count == 0 then s
    else
      s.(data := Silent(count, Wide(s.format)) + s.data[..s.length],
         loopStart := WrappingAddU32(s.loopStart, count),
         loopEnd := WrappingAddU32(s.loopEnd, count),
         length := s.length + count)
  }

  /**
   * `Sample_PadEnd`: `count` samples of silence go after the last one; the
   * loop end and the length grow by `count`, the loop start stays.
   */
  function PadEnded(s: SampleData, count: u32): (r: SampleData)
    requires s.length <= |s.data| && (count == 0 || BufferFits(s.length + count, Wide(s.format)))
  {
    if count == 0 then s
    else
      s.(data := s.data[..s.length] + Silent(count, Wide(s.format)),
         loopEnd := WrappingAddU32(s.loopEnd, count),
         length := s.length + count)
  }

  /** The number of samples `Unroll_Sample_Loop` adds: `looplen * count`. */
  function UnrollLength(looplen: nat, count: nat): (r: nat)
    ensures looplen == 0 ==> r == 0
  {
    looplen * count
  }

  /**
   * `Unroll_Sample_Loop`: `looplen * count` more samples, sample `x` of them
   * being loop sample `x % looplen`, go after the last one; the loop end and
   * the length grow by as much.
   */
  function LoopUnrolled(s: SampleData, count: u32): (r: SampleData)
    requires LoopInside(s)
    requires BufferFits(s.length + UnrollLength(s.loopEnd - s.loopStart, count), Wide(s.format))
  {
    var added := UnrollLength(s.loopEnd - s.loopStart, count);
    s.(data := s.data[..s.length] + Repeated(s.data[s.loopStart..s.loopEnd], added),
       loopEnd := s.loopEnd + added,
       length := s.length + added)
  }

  /**
   * `Unroll_BIDI_Sample`: the loop, backwards, goes after the last sample;
   * the loop end and the length grow by the loop length and the loop
   * becomes a forward one (`loop_type` 1).
   */
  function BidiUnrolled(s: SampleData): (r: SampleData)
    requires LoopInside(s)
    requires BufferFits(s.length + (s.loopEnd - s.loopStart), Wide(s.format))
  {
    var looplen := s.loopEnd - s.loopStart;
    s.(data := s.data[..s.length] + Reversed(s.data[s.loopStart..s.loopEnd]),
       loopType := 1,
       length := s.length + looplen,
       loopEnd := s.loopEnd + looplen)
  }

  /**
   * `Sample_8bit`: 16-bit data becomes 8-bit data holding the high byte of
   * each sample (`value / 256`), and bit 0 of the format is cleared; 8-bit
   * data is left alone.
   */
  function Narrowed(s: SampleData): (r: SampleData)
    requires s.length <= |s.data|
  {
    if Wide(s.format) then
      s.(data := seq(s.length, t requires 0 <= t < s.length => s.data[t] / 256), format := s.format - 1)
    else s
  }

  /**
   * One sample of `Sample_Sign`: the value minus the midpoint, raised to
   * `-32767` (16-bit) or `-127` (8-bit) if it is the most negative value,
   * and stored back as an unsigned value of the same width.
   */
  function SignSample(v: u16, wide: bool): u16
  {
    if wide then
      var a := v - 32768;
      (if a < -32767 then -32767 else a) % 0x1_0000
    else
      var a := v - 128;
      (if a == -128 then -127 else a) % 0x100
  }

  /** `Sample_Sign`: every sample made signed, in place, and bit 1 of the format set. */
  function Signed(s: SampleData): (r: SampleData)
    requires s.length <= |s.data|
  {
    s.(data := seq(|s.data|, i requires 0 <= i < |s.data| =>
         if i < s.length then SignSample(s.data[i], Wide(s.format)) else s.data[i]),
       format := SetSigned(s.format))
  }

  /**
   * The start of `FixSample`: each loop point above the length is lowered
   * to the length (the test for a negative point can never succeed on an
   * unsigned field).
   */
  function ClampedLoop(s: SampleData): (r: SampleData)
  {
    s.(loopStart := if s.loopStart > s.length then s.length else s.loopStart,
       loopEnd := if s.loopEnd > s.length then s.length else s.loopEnd)
  }

  /**
   * What `FixSample_GBA` needs in order not to fail: a looping sample has a
   * loop of non-zero length (the unroll count divides by it, and a division
   * by zero panics), a ping-pong loop does not end before it starts (its
   * length would wrap), and no buffer size wraps.
   */
  predicate GbaFixable(s: SampleData)
  {
    s.length <= |s.data| && s.loopStart <= s.length && s.loopEnd <= s.length &&
    2 * s.length + 0x800 < U32_MODULUS &&
    (s.loopType != 0 ==> s.loopStart != s.loopEnd) &&
    (s.loopType == 2 ==> s.loopStart <= s.loopEnd)
  }

  /** `(loop_end - loop_start)` in wrapping 32-bit arithmetic. */
  function LoopSpan(s: SampleData): u32
  {
    (s.loopEnd - s.loopStart) % U32_MODULUS
  }

  /** The state after the first three steps of `FixSample_GBA`. */
  function GbaPrepared(s: SampleData): (r: SampleData)
    requires GbaFixable(s)
    ensures r.length <= |r.data| && r.loopType != 2 && !Wide(r.format)
    ensures r.loopType != 0 ==> r.loopEnd == r.length && r.loopStart != r.loopEnd
    ensures r.loopType == 0 ==> r.length == s.length && r.loopEnd == s.loopEnd
    ensures r.loopStart == s.loopStart && r.length <= 2 * s.length
    ensures s.loopStart < s.loopEnd ==> r.loopStart < r.loopEnd
    ensures ShortLoop(r) ==> r.loopStart < r.loopEnd && r.length + 1024 < U32_MODULUS
  {
    var a := Narrowed(s);
    var b := if a.loopType != 0 then a.(length := a.loopEnd) else a;
    if b.loopType == 2 then BidiUnrolled(b) else b
  }

  /** A loop `FixSample_GBA` unrolls further: a looping sample whose loop, in wrapping arithmetic, is under 512 samples. */
  predicate ShortLoop(c: SampleData)
  {
    c.loopType != 0 && LoopSpan(c) < 512
  }

  /**
   * The unroll count `FixSample_GBA` passes for a loop of `looplen` samples,
   * `512 / looplen + 1`: the unrolled loop is longer than 512 samples, and
   * the unrolling adds fewer than 1024.
   */
  function ShortLoopCount(looplen: nat): (r: u32)
    requires 0 < looplen < 512
    ensures 2 <= r <= 513 && 512 < UnrollLength(looplen, r + 1) && UnrollLength(looplen, r) <= 512 + looplen
  {
    DivMod(512, looplen);
    512 / looplen + 1
  }

  /** The last step of `FixSample_GBA`: a short loop unrolled `ShortLoopCount` times. */
  function ShortLoopUnrolled(c: SampleData): (r: SampleData)
    requires ShortLoop(c) ==> c.loopStart < c.loopEnd <= c.length <= |c.data| && !Wide(c.format) && c.length + 1024 < U32_MODULUS
  {
    if ShortLoop(c) then
      var looplen := c.loopEnd - c.loopStart;
      LoopUnrolled(c, ShortLoopCount(looplen))
    else c
  }

  /**
   * `FixSample_GBA`: 8-bit data; a looping sample is cut at its loop end;
   * a ping-pong loop is unrolled into a forward one; and a loop shorter
   * than 512 samples is unrolled `512 / looplen + 1` more times.
   */
  function GbaFixed(s: SampleData): (r: SampleData)
    requires GbaFixable(s)
  {
    ShortLoopUnrolled(GbaPrepared(s))
  }

  /**
   * `FixSample` for the target `targetSystem` (0 is the GBA): clamp the
   * loop points, then prepare the sample for the target.
   */
  function Fixed(s: SampleData, targetSystem: int): (r: SampleData)
    requires targetSystem == 0 ==> GbaFixable(ClampedLoop(s))
  {
    var c := ClampedLoop(s);
    if targetSystem == 0 then GbaFixed(c) else c
  }

  /** Padding the start keeps the looped samples between the moved loop points, after `count` samples of silence. */
  lemma PadStartKeepsLoop(s: SampleData, count: u32)
    requires LoopInside(s) && count > 0 && BufferFits(s.length + count, Wide(s.format))
    ensures var r := PadStarted(s, count);
      LoopInside(r) && r.length == |r.data| == s.length + count &&
      r.loopStart == s.loopStart + count && r.loopEnd == s.loopEnd + count &&
      r.data[..count] == Silent(count, Wide(s.format)) &&
      r.data[count..] == s.data[..s.length] &&
      r.data[r.loopStart..r.loopEnd] == s.data[s.loopStart..s.loopEnd]
  {
    var r := PadStarted(s, count);
    var body := s.data[..s.length];
    assert r.data == Silent(count, Wide(s.format)) + body;
    assert r.data[count..] == body;
    assert r.data[r.loopStart..r.loopEnd] == body[s.loopStart..s.loopEnd];
  }

  /** Padding the end keeps every sample and the loop start; a loop that reached the end still does. */
  lemma PadEndKeepsSamples(s: SampleData, count: u32)
    requires LoopInside(s) && count > 0 && BufferFits(s.length + count, Wide(s.format))
    ensures var r := PadEnded(s, count);
      r.length == |r.data| == s.length + count &&
      r.data[..s.length] == s.data[..s.length] && r.data[s.length..] == Silent(count, Wide(s.format)) &&
      r.loopStart == s.loopStart && r.loopEnd == s.loopEnd + count && LoopInside(r) &&
      (s.loopEnd == s.length ==> r.loopEnd == r.length)
  {
    var r := PadEnded(s, count);
    assert r.data == s.data[..s.length] + Silent(count, Wide(s.format));
  }

  /**
   * When the loop reaches the end of the sample, as `FixSample_GBA` makes it
   * do, unrolling turns the loop into `count + 1` copies of itself: every
   * sample of the new loop is the old loop's sample at the same offset
   * modulo the loop length.
   */
  lemma UnrolledRepeats(s: SampleData, count: u32)
    requires LoopInside(s) && s.loopEnd == s.length && s.loopStart < s.loopEnd
    requires BufferFits(s.length + UnrollLength(s.loopEnd - s.loopStart, count), Wide(s.format))
    ensures var r := LoopUnrolled(s, count); var looplen := s.loopEnd - s.loopStart;
      LoopInside(r) && r.length == |r.data| && r.loopStart == s.loopStart && r.loopEnd == r.length &&
      r.loopEnd - r.loopStart == UnrollLength(looplen, count + 1) &&
      forall i | r.loopStart <= i < r.loopEnd :: r.data[i] == s.data[s.loopStart + (i - s.loopStart) % looplen]
  {
    var r := LoopUnrolled(s, count);
    var looplen := s.loopEnd - s.loopStart;
    var loop := s.data[s.loopStart..s.loopEnd];
    assert UnrollLength(looplen, count + 1) == looplen * count + looplen;
    forall i | r.loopStart <= i < r.loopEnd
      ensures r.data[i] == s.data[s.loopStart + (i - s.loopStart) % looplen]
    {
      if i < s.length {
        assert r.data[i] == s.data[i];
        ModUnique(i - s.loopStart, looplen, 0, i - s.loopStart);
      } else {
        var x := i - s.length;
        assert r.data[i] == loop[x % looplen];
        ModShift(x, looplen);
        assert i - s.loopStart == x + looplen;
      }
    }
  }

  lemma ModShift(x: nat, n: nat)
    requires n > 0
    ensures (x + n) % n == x % n
  {
    DivMod(x, n);
    ModUnique(x + n, n, x / n + 1, x % n);
  }

  /**
   * When the loop reaches the end of the sample, the unrolled ping-pong
   * loop plays the loop forwards and then backwards, as a forward loop.
   */
  lemma BidiPlaysForwardThenBack(s: SampleData)
    requires LoopInside(s) && s.loopEnd == s.length
    requires BufferFits(s.length + (s.loopEnd - s.loopStart), Wide(s.format))
    ensures var r := BidiUnrolled(s); var loop := s.data[s.loopStart..s.loopEnd];
      LoopInside(r) && r.length == |r.data| && r.loopType == 1 && r.loopEnd == r.length &&
      r.data[r.loopStart..r.loopEnd] == loop + Reversed(loop)
  {
    var r := BidiUnrolled(s);
    var loop := s.data[s.loopStart..s.loopEnd];
    var body := s.data[..s.length];
    assert r.data == body + Reversed(loop);
    assert body[s.loopStart..] == loop;
    assert r.data[s.loopStart..] == body[s.loopStart..] + Reversed(loop);
  }

  /**
   * Narrowing keeps the high byte of every sample: the 16-bit value lies in
   * the 256 values the byte stands for. 16-bit silence becomes 8-bit silence.
   */
  lemma NarrowKeepsHighByte(s: SampleData, i: nat)
    requires s.length <= |s.data| && Wide(s.format) && i < s.length
    ensures var r := Narrowed(s);
      !Wide(r.format) && r.format / 2 == s.format / 2 && |r.data| == r.length == s.length &&
      r.data[i] < 0x100 && (r.data[i] as int) * 256 <= s.data[i] < (r.data[i] as int) * 256 + 256 &&
      (s.data[i] == Silence(true) ==> r.data[i] == Silence(false))
  {
  }

  /** The signed value an unsigned `u8` or `u16` stands for in two's complement. */
  function AsSigned(v: u16, wide: bool): int
  {
    if wide then (if v >= 0x8000 then v - 0x1_0000 else v)
    else if v >= 0x80 then v - 0x100 else v
  }

  /**
   * Read in two's complement, a signed sample is its unsigned value minus
   * the midpoint, except that the lowest value is raised by one: the range
   * is symmetric, -127..127 or -32767..32767, and silence becomes 0.
   */
  lemma SignSampleMeaning(v: u16, wide: bool)
    requires wide || v < 0x100
    ensures var mid := Silence(wide); var a := AsSigned(SignSample(v, wide), wide);
      (wide || SignSample(v, wide) < 0x100) &&
      a == (if v == 0 then 1 - mid else v - mid) && -(mid - 1) <= a <= mid - 1 &&
      (v == mid ==> a == 0)
  {
  }

  /** `Sample_Sign` touches the first `length` samples only, and marks the format signed. */
  lemma SignedTouchesSamplesOnly(s: SampleData)
    requires s.length <= |s.data|
    ensures var r := Signed(s);
      |r.data| == |s.data| && r.length == s.length && r.loopStart == s.loopStart && r.loopEnd == s.loopEnd &&
      SignedFormat(r.format) && Wide(r.format) == Wide(s.format) &&
      r.data[s.length..] == s.data[s.length..] &&
      forall i | 0 <= i < s.length :: r.data[i] == SignSample(s.data[i], Wide(s.format))
  {
  }

  /** After the clamp the loop points lie within the sample, and points already inside are kept. */
  lemma ClampedLoopInside(s: SampleData)
    ensures var r := ClampedLoop(s);
      r.loopStart <= r.length && r.loopEnd <= r.length && r.length == s.length && r.data == s.data &&
      (s.loopStart <= s.length ==> r.loopStart == s.loopStart) &&
      (s.loopEnd <= s.length ==> r.loopEnd == s.loopEnd) &&
      ClampedLoop(r) == r
  {
  }

  /**
   * What the GBA preparation guarantees: 8-bit data and no ping-pong loop
   * left; a looping sample ends at its loop end, and a loop that does not run
   * backwards is at least 512 samples long.
   */
  lemma GbaFixedMeaning(s: SampleData)
    requires GbaFixable(s)
    ensures var r := GbaFixed(s);
      !Wide(r.format) && r.loopType != 2 && r.length <= |r.data| && r.loopStart == s.loopStart &&
      (r.loopType != 0 ==> r.loopEnd == r.length) &&
      (r.loopType != 0 && s.loopStart < s.loopEnd ==> r.loopStart < r.loopEnd && r.loopEnd - r.loopStart >= 512) &&
      (r.loopType == 0 ==> r.length == s.length && r.loopEnd == s.loopEnd)
  {
    var c := GbaPrepared(s);
    ShortLoopUnrolledMeaning(c);
    if c.loopType != 0 && s.loopStart < s.loopEnd && !ShortLoop(c) {
      assert LoopSpan(c) == c.loopEnd - c.loopStart;
    }
  }

  /** The last step leaves a loop that is not short alone, and makes a short one longer than 512 samples. */
  lemma ShortLoopUnrolledMeaning(c: SampleData)
    requires ShortLoop(c) ==> c.loopStart < c.loopEnd <= c.length <= |c.data| && !Wide(c.format) && c.length + 1024 < U32_MODULUS
    requires c.loopType != 0 ==> c.loopEnd == c.length
    ensures var r := ShortLoopUnrolled(c);
      r.loopType == c.loopType && r.format == c.format && r.loopStart == c.loopStart &&
      (!ShortLoop(c) ==> r == c) &&
      (ShortLoop(c) ==> r.loopStart < r.loopEnd == r.length == |r.data| && r.loopEnd - r.loopStart > 512)
  {
    if ShortLoop(c) {
      var looplen := c.loopEnd - c.loopStart;
      UnrolledRepeats(c, ShortLoopCount(looplen));
    }
  }

  /*
   * The loops of the routines above, each writing one stretch of a fresh
   * buffer and leaving the rest of it alone.
   */

  /** `for x < n: dst[at + x] = src[x]`: the old samples carried over. */
  method CopyInto(dst: array<u16>, at: nat, src: array<u16>, n: nat)
    requires at + n <= dst.Length && n <= src.Length && dst != src
    modifies dst
    ensures dst[at..at + n] == src[..n]
    ensures dst[..at] == old(dst[..at]) && dst[at + n..] == old(dst[at + n..])
  {
    for x := 0 to n
      invariant forall i | at <= i < at + x :: dst[i] == src[i - at]
      invariant forall i | 0 <= i < dst.Length && !(at <= i < at + x) :: dst[i] == old(dst[i])
    {
      dst[at + x] := src[x];
    }
  }

  /** `for x < n: dst[at + x] = silence`. */
  method FillSilence(dst: array<u16>, at: nat, n: nat, wide: bool)
    requires at + n <= dst.Length
    modifies dst
    ensures dst[at..at + n] == Silent(n, wide)
    ensures dst[..at] == old(dst[..at]) && dst[at + n..] == old(dst[at + n..])
  {
    for x := 0 to n
      invariant forall i | at <= i < at + x :: dst[i] == Silence(wide)
      invariant forall i | 0 <= i < dst.Length && !(at <= i < at + x) :: dst[i] == old(dst[i])
    {
      dst[at + x] := Silence(wide);
    }
  }

  /** `for x < n: dst[at + x] = src[ls + x % looplen]`: the loop played over and over. */
  method RepeatInto(dst: array<u16>, at: nat, src: array<u16>, ls: nat, le: nat, n: nat)
    requires at + n <= dst.Length && ls <= le <= src.Length && (ls < le || n == 0) && dst != src
    modifies dst
    ensures dst[at..at + n] == Repeated(src[ls..le], n)
    ensures dst[..at] == old(dst[..at]) && dst[at + n..] == old(dst[at + n..])
  {
    ghost var loop := src[ls..le];
    for x := 0 to n
      invariant forall i | at <= i < at + x :: dst[i] == Repeated(loop, n)[i - at]
      invariant forall i | 0 <= i < dst.Length && !(at <= i < at + x) :: dst[i] == old(dst[i])
    {
      dst[at + x] := src[ls + x % (le - ls)];
    }
  }

  /** `for x < le - ls: dst[at + x] = src[le - 1 - x]`: the loop backwards. */
  method ReverseInto(dst: array<u16>, at: nat, src: array<u16>, ls: nat, le: nat)
    requires at + (le - ls) <= dst.Length && ls <= le <= src.Length && dst != src
    modifies dst
    ensures dst[at..at + (le - ls)] == Reversed(src[ls..le])
    ensures dst[..at] == old(dst[..at]) && dst[at + (le - ls)..] == old(dst[at + (le - ls)..])
  {
    for x := 0 to le - ls
      invariant forall i | at <= i < at + x :: dst[i] == src[le - 1 - (i - at)]
      invariant forall i | 0 <= i < dst.Length && !(at <= i < at + x) :: dst[i] == old(dst[i])
    {
      dst[at + x] := src[le - 1 - x];
    }
  }

  /** A sample whose header and buffer are one `tSample` and the buffer its `data` points to. */
  class Sample {
    var sampleLength: u32
    var loopStart: u32
    var loopEnd: u32
    var loopType: u8
    var format: u8
    var data: array<u16>

    /** The samples counted by `sample_length` are in the buffer. */
    ghost predicate Valid()
      reads this
    {
      sampleLength <= data.Length
    }

    /** The sample as a value. */
    ghost function Value(): SampleData
      reads this, data
    {
      SampleData(sampleLength, loopStart, loopEnd, loopType, format, data[..])
    }

    constructor (length: u32, start: u32, end: u32, kind: u8, fmt: u8, samples: array<u16>)
      requires length <= samples.Length
      ensures Valid() && data == samples
      ensures Value() == SampleData(length, start, end, kind, fmt, samples[..])
    {
      sampleLength, loopStart, loopEnd, loopType, format, data := length, start, end, kind, fmt, samples;
    }

    /** `Sample_PadStart`. */
    method PadStart(count: u32)
      requires Valid() && (count == 0 || BufferFits(sampleLength + count, Wide(format)))
      modifies this
      ensures Valid() && Value() == PadStarted(old(Value()), count)
    {
      if count == 0 {
        return;
      }
      var src, len, wide := data, sampleLength, Wide(format);
      var newdata := new u16[len + count];
      FillSilence(newdata, 0, count, wide);
      CopyInto(newdata, count, src, len);
      assert newdata[..] == newdata[..count] + newdata[count..];
      data := newdata;
      loopStart := WrappingAddU32(loopStart, count);
      loopEnd := WrappingAddU32(loopEnd, count);
      sampleLength := len + count;
    }

    /** `Sample_PadEnd`. */
    method PadEnd(count: u32)
      requires Valid() && (count == 0 || BufferFits(sampleLength + count, Wide(format)))
      modifies this
      ensures Valid() && Value() == PadEnded(old(Value()), count)
    {
      if count == 0 {
        return;
      }
      var src, len, wide := data, sampleLength, Wide(format);
      var newdata := new u16[len + count];
      CopyInto(newdata, 0, src, len);
      FillSilence(newdata, len, count, wide);
      assert newdata[..] == newdata[..len] + newdata[len..];
      data := newdata;
      loopEnd := WrappingAddU32(loopEnd, count);
      sampleLength := len + count;
    }

    /** `Unroll_Sample_Loop`, for a loop inside the sample. */
    method UnrollSampleLoop(count: u32)
      requires Valid() && loopStart <= loopEnd <= sampleLength
      requires BufferFits(sampleLength + UnrollLength(loopEnd - loopStart, count), Wide(format))
      modifies this
      ensures Valid() && Value() == LoopUnrolled(old(Value()), count)
    {
      var src, len, ls := data, sampleLength, loopStart;
      var looplen := loopEnd - ls;
      var added := UnrollLength(looplen, count);
      var newdata := new u16[len + added];
      CopyInto(newdata, 0, src, len);
      RepeatInto(newdata, len, src, ls, loopEnd, added);
      assert newdata[..] == newdata[..len] + newdata[len..];
      data := newdata;
      loopEnd := loopEnd + added;
      sampleLength := len + added;
    }

    /** `Unroll_BIDI_Sample`, for a loop inside the sample. */
    method UnrollBidiSample()
      requires Valid() && loopStart <= loopEnd <= sampleLength
      requires BufferFits(sampleLength + (loopEnd - loopStart), Wide(format))
      modifies this
      ensures Valid() && Value() == BidiUnrolled(old(Value()))
    {
      var src, len, le := data, sampleLength, loopEnd;
      var looplen := le - loopStart;
      var newdata := new u16[len + looplen];
      CopyInto(newdata, 0, src, len);
      ReverseInto(newdata, len, src, loopStart, le);
      assert newdata[..] == newdata[..len] + newdata[len..];
      data := newdata;
      loopType := 1;
      sampleLength := len + looplen;
      loopEnd := le + looplen;
    }

    /** `Sample_8bit`. */
    method Sample8Bit()
      requires Valid()
      modifies this
      ensures Valid() && Value() == Narrowed(old(Value()))
    {
      if Wide(format) {
        var src, len := data, sampleLength;
        ghost var d := src[..];
        var newdata := new u16[len];
        for t := 0 to len
          modifies newdata
          invariant forall i | 0 <= i < t :: newdata[i] == src[i] / 256
        {
          newdata[t] := src[t] / 256;
        }
        assert newdata[..] == seq(len, t requires 0 <= t < len => d[t] / 256);
        data := newdata;
        format := format - 1;
      }
    }

    /** `Sample_Sign`, in place. */
    method SampleSign()
      requires Valid()
      modifies this, data
      ensures Valid() && data == old(data) && Value() == Signed(old(Value()))
    {
      var buf, len, wide := data, sampleLength, Wide(format);
      for x := 0 to len
        modifies buf
        invariant forall i | 0 <= i < x :: buf[i] == SignSample(old(buf[i]), wide)
        invariant forall i | x <= i < buf.Length :: buf[i] == old(buf[i])
      {
        buf[x] := SignSample(buf[x], wide);
      }
      format := SetSigned(format);
    }

    /** `FixSample_GBA`. */
    method FixSampleGba()
      requires Valid() && GbaFixable(Value())
      modifies this
      ensures Valid() && Value() == GbaFixed(old(Value()))
    {
      ghost var s0 := Value();
      Sample8Bit();
      ghost var a := Value();
      if loopType != 0 {
        sampleLength := loopEnd;
      }
      assert Value() == if a.loopType != 0 then a.(length := a.loopEnd) else a;
      if loopType == 2 {
        UnrollBidiSample();
      }
      assert Value() == GbaPrepared(s0);
      UnrollShortLoop();
    }

    /** The last step of `FixSample_GBA`: a loop under 512 samples unrolled `512 / looplen + 1` times. */
    method UnrollShortLoop()
      requires Valid()
      requires ShortLoop(Value()) ==> loopStart < loopEnd <= sampleLength && !Wide(format) && sampleLength + 1024 < U32_MODULUS
      modifies this
      ensures Valid() && Value() == ShortLoopUnrolled(old(Value()))
    {
      if loopType != 0 {
        var looplen := (loopEnd - loopStart) % U32_MODULUS;
        if looplen < 512 {
          assert looplen == loopEnd - loopStart;
          UnrollSampleLoop(ShortLoopCount(looplen));
        }
      }
    }

    /** `FixSample`, with the target system it reads from a global passed in. */
    method FixSample(targetSystem: int)
      requires Valid() && targetSystem != 1
      requires targetSystem == 0 ==> GbaFixable(ClampedLoop(Value()))
      modifies this
      ensures Valid() && Value() == Fixed(old(Value()), targetSystem)
    {
      loopStart := if loopStart > sampleLength then sampleLength else loopStart;
      loopEnd := if loopEnd > sampleLength then sampleLength else loopEnd;
      if targetSystem == 0 {
        FixSampleGba();
      }
    }
  }
}
