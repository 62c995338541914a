/*
 * The small helpers of the module converter's copy of mmutil
 * (agb-sound-converter/src/mmutil_sys/simple.rs): reading a run of bits
 * from a byte buffer, telling a file's type from its extension, the sample
 * lengths and loop lengths written to the output, the sample format and
 * repeat codes of the DS, and clamping to the 8-bit ranges.
 */
module MmutilSimple {
  import opened Bits
  import opened SampleFix

  /** Bitwise `|` of two naturals, bit by bit from the least significant one. */
  function BitOr(a: nat, b: nat): (r: nat)
    decreases a + b
  {
    if a == 0 then b
    else if b == 0 then a
    else (if a % 2 == 1 || b % 2 == 1 then 1 else 0) + 2 * BitOr(a / 2, b / 2)
  }

  /** Or-ing in a value whose bits all lie above the low `k` bits adds it. */
  lemma {:induction false} BitOrDisjoint(a: nat, b: nat, k: nat)
    requires a < Pow2(k)
    ensures BitOr(a, b * Pow2(k)) == a + b * Pow2(k)
  {
    if k == 0 || a == 0 || b == 0 {
    } else {
      assert b * Pow2(k) == 2 * (b * Pow2(k - 1));
      BitOrDisjoint(a / 2, b, k - 1);
    }
  }

  /** The or of two values under `2^k` is under `2^k`. */
  lemma {:induction false} BitOrBound(a: nat, b: nat, k: nat)
    requires a < Pow2(k) && b < Pow2(k)
    ensures BitOr(a, b) < Pow2(k)
  {
    if a == 0 || b == 0 {
    } else {
      BitOrBound(a / 2, b / 2, k - 1);
    }
  }

  /*
   * readbits
   */

  /** Bit `p % 8` of byte `p / 8` of the buffer: `buffer[p >> 3] >> (p & 7) & 1`. */
  function BitAt(buffer: seq<u8>, p: nat): (r: nat)
    requires p / 8 < |buffer|
    ensures r <= 1
  {
    ByteBit(buffer[p / 8], p % 8)
  }

  /** Bit `k` of `b`, found by halving `k` times. */
  function ByteBit(b: nat, k: nat): (r: nat)
    ensures r <= 1
  {
    if k == 0 then b % 2 else ByteBit(b / 2, k - 1)
  }

  /** Bit `k` is what is left in the lowest place after a shift right by `k`. */
  lemma {:induction false} ByteBitShift(b: nat, k: nat)
    ensures ByteBit(b, k) == (b / Pow2(k)) % 2
  {
    if k > 0 {
      ByteBitShift(b / 2, k - 1);
      HalveThenDivide(b, Pow2(k - 1));
    }
  }

  /** Halving and then dividing by `m` is dividing by `2m`. */
  lemma HalveThenDivide(x: nat, m: nat)
    requires m > 0
    ensures (x / 2) / m == x / (2 * m)
  {
    var q, r := (x / 2) / m, (x / 2) % m;
    assert x / 2 == m * q + r;
    assert x == (2 * m) * q + (2 * r + x % 2);
    ModUnique(x, 2 * m, q, 2 * r + x % 2);
  }

  /** Every position `pos + i` (wrapping) with `i < size` lies in the buffer. */
  predicate InBuffer(buffer: seq<u8>, pos: u32, size: nat)
  {
    forall i | 0 <= i < size :: WrappingAddU32(pos, i) / 8 < |buffer|
  }

  /**
   * The `size` bits starting at bit `pos`, the first one read the least
   * significant: bit `pos` plus twice the value of the bits after it.
   */
  function BitsValue(buffer: seq<u8>, pos: u32, size: nat): nat
    requires InBuffer(buffer, pos, size)
    decreases size
  {
    if size == 0 then 0
    else
      InBufferSplit(buffer, pos, 1, size - 1);
      InBufferFirst(buffer, pos, size);
      BitAt(buffer, pos) + 2 * BitsValue(buffer, WrappingAddU32(pos, 1), size - 1)
  }

  /** The value read has at most `size` bits. */
  lemma {:induction false} BitsValueBound(buffer: seq<u8>, pos: u32, size: nat)
    requires InBuffer(buffer, pos, size)
    ensures BitsValue(buffer, pos, size) < Pow2(size)
    decreases size
  {
    if size > 0 {
      InBufferSplit(buffer, pos, 1, size - 1);
      BitsValueBound(buffer, WrappingAddU32(pos, 1), size - 1);
    }
  }

  /**
   * `readbits`. A shift of a C `int` by 32 or more is undefined (in the Rust
   * translation, a panic), so at most 32 bits are read.
   */
  method ReadBits(buffer: seq<u8>, pos: u32, size: u32) returns (result: u32)
    requires size <= 32 && InBuffer(buffer, pos, size)
    ensures result == BitsValue(buffer, pos, size)
  {
    result := 0;
    var i: u32 := 0;
    while i < size
      invariant i <= size && InBuffer(buffer, pos, i) && result == BitsValue(buffer, pos, i)
    {
      var bytePos := WrappingAddU32(pos, i) / 8;
      var bitPos := WrappingAddU32(pos, i) % 8;
      var bit := (buffer[bytePos] / Pow2(bitPos)) % 2;
      ReadBitStep(buffer, pos, i, size, result);
      result := BitOr(result, bit * Pow2(i));
      i := i + 1;
    }
  }

  /** One round of `readbits`: or-ing bit `pos + i` in at place `i` extends the read by that bit. */
  lemma ReadBitStep(buffer: seq<u8>, pos: u32, i: nat, size: nat, result: nat)
    requires i < size <= 32 && InBuffer(buffer, pos, size) && result == BitsValue(buffer, pos, i)
    ensures InBuffer(buffer, pos, i + 1)
    ensures var p := WrappingAddU32(pos, i);
      BitOr(result, (buffer[p / 8] / Pow2(p % 8)) % 2 * Pow2(i)) == BitsValue(buffer, pos, i + 1) < U32_MODULUS
  {
    var p := WrappingAddU32(pos, i);
    InBufferSplit(buffer, pos, i, size - i);
    InBufferSplit(buffer, pos, i + 1, size - i - 1);
    InBufferSplit(buffer, p, 1, size - i - 1);
    ReadBitsSplit(buffer, pos, i, 1);
    var bit := BitAt(buffer, p);
    assert BitsValue(buffer, p, 1) == bit;
    ByteBitShift(buffer[p / 8], p % 8);
    BitsValueBound(buffer, pos, i);
    BitsValueBound(buffer, pos, i + 1);
    BitOrDisjoint(result, bit, i);
    Pow2Monotone(i + 1, 32);
    Pow2Is32();
  }

  /** Positions add up in wrapping arithmetic. */
  lemma WrapShift(pos: u32, a: nat, j: nat)
    ensures WrappingAddU32(WrappingAddU32(pos, a), j) == WrappingAddU32(pos, a + j)
  {
    ModAddLeft(pos + a, j, U32_MODULUS);
  }

  /** Adding zero leaves a position alone. */
  lemma WrapZero(pos: u32)
    ensures WrappingAddU32(pos, 0) == pos
  {
    ModUnique(pos, U32_MODULUS, 0, pos);
  }

  /** A read of at least one bit starts inside the buffer. */
  lemma InBufferFirst(buffer: seq<u8>, pos: u32, size: nat)
    requires InBuffer(buffer, pos, size) && size > 0
    ensures pos / 8 < |buffer|
  {
    WrapZero(pos);
  }

  /** The positions of a read cover those of its first `a` bits and of the `b` bits after them. */
  lemma InBufferSplit(buffer: seq<u8>, pos: u32, a: nat, b: nat)
    requires InBuffer(buffer, pos, a + b)
    ensures InBuffer(buffer, pos, a) && InBuffer(buffer, WrappingAddU32(pos, a), b)
  {
    forall j | 0 <= j < b
      ensures WrappingAddU32(WrappingAddU32(pos, a), j) / 8 < |buffer|
    {
      WrapShift(pos, a, j);
    }
  }

  /**
   * Two reads back to back are one longer read: the second read's bits come
   * above the first read's.
   */
  lemma {:induction false} ReadBitsSplit(buffer: seq<u8>, pos: u32, a: nat, b: nat)
    requires InBuffer(buffer, pos, a + b)
    ensures InBuffer(buffer, pos, a) && InBuffer(buffer, WrappingAddU32(pos, a), b)
    ensures BitsValue(buffer, pos, a + b) ==
            BitsValue(buffer, pos, a) + BitsValue(buffer, WrappingAddU32(pos, a), b) * Pow2(a)
    decreases a
  {
    InBufferSplit(buffer, pos, a, b);
    if a == 0 {
      WrapZero(pos);
    } else {
      var p1 := WrappingAddU32(pos, 1);
      InBufferSplit(buffer, pos, 1, a + b - 1);
      ReadBitsSplit(buffer, p1, a - 1, b);
      ReadBitsSplitStep(buffer, pos, a, b);
    }
  }

  /** The step of the split: the first bit of both reads is bit `pos`, and the rest is the split one bit on. */
  lemma ReadBitsSplitStep(buffer: seq<u8>, pos: u32, a: nat, b: nat)
    requires a > 0 && InBuffer(buffer, pos, a + b)
    requires InBuffer(buffer, WrappingAddU32(pos, 1), a - 1 + b)
    requires InBuffer(buffer, WrappingAddU32(pos, 1), a - 1)
    requires InBuffer(buffer, WrappingAddU32(WrappingAddU32(pos, 1), a - 1), b)
    requires InBuffer(buffer, pos, a) && InBuffer(buffer, WrappingAddU32(pos, a), b)
    requires BitsValue(buffer, WrappingAddU32(pos, 1), a - 1 + b) ==
             BitsValue(buffer, WrappingAddU32(pos, 1), a - 1) +
             BitsValue(buffer, WrappingAddU32(WrappingAddU32(pos, 1), a - 1), b) * Pow2(a - 1)
    ensures BitsValue(buffer, pos, a + b) ==
            BitsValue(buffer, pos, a) + BitsValue(buffer, WrappingAddU32(pos, a), b) * Pow2(a)
  {
    var p1 := WrappingAddU32(pos, 1);
    WrapShift(pos, 1, a - 1);
    InBufferFirst(buffer, pos, a);
    var bit := BitAt(buffer, pos);
    var y := BitsValue(buffer, WrappingAddU32(pos, a), b);
    assert a + b - 1 == a - 1 + b;
    Doubling(BitsValue(buffer, pos, a + b), BitsValue(buffer, p1, a - 1 + b), BitsValue(buffer, pos, a),
             BitsValue(buffer, p1, a - 1), bit, y, Pow2(a - 1), Pow2(a));
  }

  /** The arithmetic of one step of the split: doubling the rest doubles the weight of the upper part. */
  lemma Doubling(total: int, rest: int, low: int, lowRest: int, bit: int, y: int, p: int, pa: int)
    requires total == bit + 2 * rest && low == bit + 2 * lowRest && rest == lowRest + y * p && pa == 2 * p
    ensures total == low + y * pa
  {
  }

  /** A position on a byte boundary plus an offset under 8 is that offset into the same byte. */
  lemma AlignedOffset(pos: u32, i: nat)
    requires pos % 8 == 0 && i < 8
    ensures WrappingAddU32(pos, i) == pos + i && (pos + i) / 8 == pos / 8 && (pos + i) % 8 == i
  {
    DivMod(pos, 8);
    ModUnique(pos + i, 8, pos / 8, i);
  }

  /** The remainder modulo `2m` is the remainder modulo `m` plus the next bit of the quotient, times `m`. */
  lemma ModDoubling(v: nat, m: nat)
    requires m > 0
    ensures v % (2 * m) == v % m + ((v / m) % 2) * m
  {
    DivMod(v, m);
    DivMod(v / m, 2);
    assert v == (2 * m) * ((v / m) / 2) + (v % m + ((v / m) % 2) * m);
    ModUnique(v, 2 * m, (v / m) / 2, v % m + ((v / m) % 2) * m);
  }

  /**
   * The first `n` bits read from a byte boundary are the byte modulo `2^n`;
   * eight of them are the byte.
   */
  lemma {:induction false} AlignedLowBits(buffer: seq<u8>, pos: u32, n: nat)
    requires pos % 8 == 0 && pos / 8 < |buffer| && n <= 8
    ensures InBuffer(buffer, pos, n) && BitsValue(buffer, pos, n) == buffer[pos / 8] % Pow2(n)
  {
    forall i | 0 <= i < n
      ensures WrappingAddU32(pos, i) / 8 < |buffer|
    {
      AlignedOffset(pos, i);
    }
    if n > 0 {
      AlignedLowBits(buffer, pos, n - 1);
      AlignedOffset(pos, n - 1);
      ReadBitsSplit(buffer, pos, n - 1, 1);
      var p := WrappingAddU32(pos, n - 1);
      InBufferSplit(buffer, p, 1, 0);
      assert BitsValue(buffer, p, 1) == BitAt(buffer, p);
      ByteBitShift(buffer[pos / 8], n - 1);
      ModDoubling(buffer[pos / 8], Pow2(n - 1));
    }
  }

  /** Eight bits read from a byte boundary are that byte. */
  lemma AlignedByte(buffer: seq<u8>, pos: u32, n: nat)
    requires pos % 8 == 0 && pos / 8 < |buffer| && n == 8
    ensures InBuffer(buffer, pos, n) && BitsValue(buffer, pos, n) == buffer[pos / 8]
  {
    AlignedLowBits(buffer, pos, n);
    Pow2Is32();
    ByteModulo(BitsValue(buffer, pos, n), buffer[pos / 8], Pow2(n));
  }

  lemma ByteModulo(x: int, v: int, m: int)
    requires m == 0x100 && x == v % m && 0 <= v < 0x100
    ensures x == v
  {
  }

  /*
   * get_ext
   */

  /** `tolower` in the C locale: 'A'..'Z' become 'a'..'z', every other `char` is kept. */
  function ToLower(c: i8): (r: i8)
    ensures (r == 46) == (c == 46)
  {
    if 65 <= c <= 90 then c + 32 else c
  }

  /** `2^(8 * x)`, the weight of byte `x` of a `u32`. */
  function ByteWeight(x: nat): (r: nat)
    requires x <= 4
  {
    if x == 0 then 1 else if x == 1 then 0x100 else if x == 2 then 0x1_0000 else if x == 3 then 0x100_0000 else 0x1_0000_0000
  }

  lemma ByteWeightIsPow2(x: nat)
    requires x <= 4
    ensures ByteWeight(x) == Pow2(8 * x)
  {
    Pow2Is32();
  }

  /** `(tolower(c) << 8 * x) as u32`: the lowered character in byte `x`, in two's complement. */
  function Lane(c: i8, x: nat): u32
    requires x < 4
  {
    (ToLower(c) * ByteWeight(x)) % U32_MODULUS
  }

  /** The value of `a` once the last `n` characters of the name are or-ed in, the last one in the lowest byte. */
  function Key(name: seq<i8>, n: nat): u32
    requires n <= 4 <= |name|
  {
    if n == 0 then 0
    else
      Pow2Is32();
      BitOrBound(Key(name, n - 1), Lane(name[|name| - n], n - 1), 32);
      BitOr(Key(name, n - 1), Lane(name[|name| - n], n - 1))
  }

  /** Where the scan from the end stops, from position `x` on: at the first '.' or after four characters. */
  function StopAt(name: seq<i8>, x: nat): (r: nat)
    requires x <= 4 <= |name|
    ensures x <= r <= 4
    decreases 4 - x
  {
    if x == 4 || name[|name| - x - 1] == 46 then x else StopAt(name, x + 1)
  }

  /** The `match` at the end of `get_ext`; 6 is an unknown type. */
  function ExtType(a: int): int
  {
    if a == 7171940 then 0
    else if a == 7549805 then 1
    else if a == 7633012 then 5
    else if a == 7823734 then 4
    else if a == 7172972 then 8
    else if a == 30829 then 2
    else if a == 26996 then 3
    else if a == 104 then 7
    else 6
  }

  /** The type `get_ext` gives the name: unknown for fewer than four characters. */
  function ExtensionType(name: seq<i8>): int
  {
    if |name| < 4 then 6 else ExtType(Key(name, StopAt(name, 0)))
  }

  /** `get_ext`, with the file name given as its characters before the terminating NUL. */
  method GetExt(filename: seq<i8>) returns (r: int)
    ensures r == ExtensionType(filename)
  {
    var strl := |filename|;
    var a: u32 := 0;
    if strl < 4 {
      return 6;
    }
    var x := 0;
    while x < 4
      invariant 0 <= x <= 4 && a == Key(filename, x) && StopAt(filename, x) == StopAt(filename, 0)
    {
      if filename[strl - x - 1] == 46 {
        break;
      }
      Pow2Is32();
      BitOrBound(a, Lane(filename[strl - x - 1], x), 32);
      a := BitOr(a, Lane(filename[strl - x - 1], x));
      x := x + 1;
    }
    r := ExtType(a);
  }

  /**
   * Up to four characters, lowered, side by side one per byte, the first
   * in the highest byte: the value `get_ext` compares for an extension.
   */
  function Packed(ext: seq<i8>): int
    requires |ext| <= 4
  {
    if |ext| == 0 then 0 else ToLower(ext[0]) * ByteWeight(|ext| - 1) + Packed(ext[1..])
  }

  /** With no negative character among the last `n`, or-ing the bytes in adds them. */
  lemma {:induction false} KeyIsPacked(name: seq<i8>, n: nat)
    requires n <= 4 <= |name| && forall i | |name| - n <= i < |name| :: name[i] >= 0
    ensures Key(name, n) == Packed(name[|name| - n..]) < ByteWeight(n)
  {
    if n > 0 {
      var ext := name[|name| - n..];
      var rest := name[|name| - n + 1..];
      assert ext[1..] == rest;
      KeyIsPacked(name, n - 1);
      var c := ToLower(name[|name| - n]);
      assert 0 <= c < 0x80;
      var w := ByteWeight(n - 1);
      ByteWeightIsPow2(n - 1);
      assert Packed(ext) == c * w + Packed(rest);
      PackStep(Packed(rest), c, w, ByteWeight(n));
      ModUnique(c * w, U32_MODULUS, 0, c * w);
      assert Lane(name[|name| - n], n - 1) == c * w;
      BitOrDisjoint(Packed(rest), c, 8 * (n - 1));
    }
  }

  /** Adding a character below 0x80 in the byte above a value that fits below that byte stays below the next byte. */
  lemma PackStep(rest: int, c: int, w: int, next: int)
    requires 0 <= rest < w && 0 <= c < 0x80 && w <= 0x100_0000 && next == 0x100 * w
    ensures 0 <= c * w < U32_MODULUS && rest + c * w < next && c * w + rest == rest + c * w
  {
    MulLe(w, c, 0x7f);
  }

  /** The scan stops at the '.' that comes `n` characters before the end, when none of those is a '.'. */
  lemma {:induction false} StopsAtDot(name: seq<i8>, n: nat, x: nat)
    requires x <= n < 4 <= |name| && name[|name| - n - 1] == 46
    requires forall i | |name| - n <= i < |name| :: name[i] != 46
    ensures StopAt(name, x) == n
    decreases n - x
  {
    if x < n {
      StopsAtDot(name, n, x + 1);
    }
  }

  /**
   * A name of four characters or more that ends in '.' and an extension of
   * up to three non-negative characters has the type the `match` gives the
   * extension packed.
   */
  lemma DotExtension(stem: seq<i8>, ext: seq<i8>)
    requires |ext| < 4 && |stem| + 1 + |ext| >= 4
    requires forall i | 0 <= i < |ext| :: 0 <= ext[i] && ext[i] != 46
    ensures ExtensionType(stem + [46] + ext) == ExtType(Packed(ext))
  {
    var name := stem + [46] + ext;
    var n := |ext|;
    assert name[|name| - n..] == ext;
    StopsAtDot(name, n, 0);
    KeyIsPacked(name, n);
  }

  /** The characters of an ASCII string as C `char`s. */
  function Ascii(s: string): (r: seq<i8>)
    requires forall i | 0 <= i < |s| :: s[i] < 128 as char
    ensures |r| == |s|
  {
    seq(|s|, i requires 0 <= i < |s| => s[i] as int)
  }

  /** The module types the converter reads: mod 0 (in either case), s3m 1, for any stem. */
  lemma ModExtensions(stem: seq<i8>)
    requires |stem| >= 2
    ensures ExtensionType(stem + [46] + Ascii("mod")) == 0 && ExtensionType(stem + [46] + Ascii("MOD")) == 0
    ensures ExtensionType(stem + [46] + Ascii("s3m")) == 1
  {
    DotExtension(stem, Ascii("mod"));
    DotExtension(stem, Ascii("MOD"));
    DotExtension(stem, Ascii("s3m"));
  }

  /** xm 2 and it 3, for any stem. */
  lemma TrackerExtensions(stem: seq<i8>)
    requires |stem| >= 2
    ensures ExtensionType(stem + [46] + Ascii("xm")) == 2 && ExtensionType(stem + [46] + Ascii("it")) == 3
  {
    DotExtension(stem, Ascii("xm"));
    DotExtension(stem, Ascii("it"));
  }

  /** wav 4 and txt 5, for any stem. */
  lemma SampleAndListExtensions(stem: seq<i8>)
    requires |stem| >= 2
    ensures ExtensionType(stem + [46] + Ascii("wav")) == 4 && ExtensionType(stem + [46] + Ascii("txt")) == 5
  {
    DotExtension(stem, Ascii("wav"));
    DotExtension(stem, Ascii("txt"));
  }

  /** h 7 and msl 8, for any stem. */
  lemma OutputExtensions(stem: seq<i8>)
    requires |stem| >= 2
    ensures ExtensionType(stem + [46] + Ascii("h")) == 7 && ExtensionType(stem + [46] + Ascii("msl")) == 8
  {
    DotExtension(stem, Ascii("h"));
    DotExtension(stem, Ascii("msl"));
  }

  /** A name shorter than four characters is unknown, whatever its extension. */
  lemma ShortNamesUnknown(name: seq<i8>)
    requires |name| < 4
    ensures ExtensionType(name) == 6
  {
  }

  /** `.h` is known after a four-character name but not after a three-character one. */
  lemma ShortNameExamples()
    ensures ExtensionType(Ascii("a.h")) == 6 && ExtensionType(Ascii(".xm")) == 6
    ensures ExtensionType(Ascii("ab.h")) == 7
  {
  }

  /** The type depends on the characters only up to case. */
  lemma ExtensionIgnoresCase(a: seq<i8>, b: seq<i8>)
    requires |a| == |b| && forall i | 0 <= i < |a| :: ToLower(a[i]) == ToLower(b[i])
    ensures ExtensionType(a) == ExtensionType(b)
  {
    if |a| >= 4 {
      StopAtIgnoresCase(a, b, 0);
      KeyIgnoresCase(a, b, StopAt(a, 0));
    }
  }

  lemma {:induction false} StopAtIgnoresCase(a: seq<i8>, b: seq<i8>, x: nat)
    requires x <= 4 <= |a| == |b| && forall i | 0 <= i < |a| :: ToLower(a[i]) == ToLower(b[i])
    ensures StopAt(a, x) == StopAt(b, x)
    decreases 4 - x
  {
    if x < 4 {
      assert ToLower(a[|a| - x - 1]) == ToLower(b[|b| - x - 1]);
      StopAtIgnoresCase(a, b, x + 1);
    }
  }

  lemma {:induction false} KeyIgnoresCase(a: seq<i8>, b: seq<i8>, n: nat)
    requires n <= 4 <= |a| == |b| && forall i | 0 <= i < |a| :: ToLower(a[i]) == ToLower(b[i])
    ensures Key(a, n) == Key(b, n)
  {
    if n > 0 {
      KeyIgnoresCase(a, b, n - 1);
      assert ToLower(a[|a| - n]) == ToLower(b[|b| - n]);
    }
  }

  /*
   * Sample lengths and codes
   */

  /** `calc_samplen_ex2`: the length of a one-shot sample, the loop end of a looping one. */
  function CalcSamplenEx2(s: SampleData): u32
  {
    if s.loopType == 0 then s.length else s.loopEnd
  }

  /**
   * `calc_samplooplen`: the loop length of a forward loop, twice it for a
   * ping-pong loop (wrapping in 32 bits), and `0xffffffff` for no loop.
   */
  function CalcSamplooplen(s: SampleData): u32
  {
    if s.loopType == 1 then (s.loopEnd - s.loopStart) % U32_MODULUS
    else if s.loopType == 2 then ((s.loopEnd - s.loopStart) % U32_MODULUS * 2) % U32_MODULUS
    else 0xffff_ffff
  }

  /** `calc_samplen`: the loop end of a forward loop, the loop end plus the loop length of a ping-pong one, otherwise the length. */
  function CalcSamplen(s: SampleData): u32
  {
    if s.loopType == 1 then s.loopEnd
    else if s.loopType == 2 then ((s.loopEnd - s.loopStart) % U32_MODULUS + s.loopEnd) % U32_MODULUS
    else s.length
  }

  /** Bit 2 of `format`: ADPCM data. */
  predicate Compressed(format: u8)
  {
    (format / 4) % 2 == 1
  }

  /** `sample_dsformat`: 2 for ADPCM, 1 for signed 16-bit, 0 for signed 8-bit, 3 for unsigned data. */
  function DsFormat(s: SampleData): u8
  {
    if Compressed(s.format) then 2
    else if SignedFormat(s.format) then (if Wide(s.format) then 1 else 0)
    else 3
  }

  /** `sample_dsreptype`: 1 for a looping sample, 2 for a one-shot sample. */
  function DsRepType(s: SampleData): u8
  {
    if s.loopType != 0 then 1 else 2
  }

  /** `clamp_s8`. */
  function ClampS8(value: i32): (r: i32)
    ensures -128 <= r <= 127
    ensures -128 <= value <= 127 ==> r == value
  {
    var v := if value < -128 then -128 else value;
    if v > 127 then 127 else v
  }

  /** `clamp_u8`. */
  function ClampU8(value: i32): (r: i32)
    ensures 0 <= r <= 255
    ensures 0 <= value <= 255 ==> r == value
  {
    var v := if value < 0 then 0 else value;
    if v > 255 then 255 else v
  }

  /** The distance between two integers. */
  function Distance(a: int, b: int): nat
  {
    if a <= b then b - a else a - b
  }

  /** Clamping keeps the order of values and gives the value in range nearest to the input. */
  lemma ClampsNearest(value: i32, other: i32, y: int)
    ensures value <= other ==> ClampS8(value) <= ClampS8(other) && ClampU8(value) <= ClampU8(other)
    ensures -128 <= y <= 127 ==> Distance(ClampS8(value), value) <= Distance(y, value)
    ensures 0 <= y <= 255 ==> Distance(ClampU8(value), value) <= Distance(y, value)
    ensures ClampS8(ClampS8(value)) == ClampS8(value) && ClampU8(ClampU8(value)) == ClampU8(value)
  {
  }

  /**
   * The lengths `calc_samplen` and `calc_samplooplen` give a ping-pong
   * sample are those of the sample once `FixSample_GBA` has cut it at its
   * loop end and unrolled the loop into a forward one.
   */
  lemma BidiLengthsMatchUnrolled(s: SampleData)
    requires s.loopType == 2 && s.loopStart <= s.loopEnd <= s.length <= |s.data|
    requires BufferFits(s.loopEnd + (s.loopEnd - s.loopStart), Wide(s.format))
    ensures var r := BidiUnrolled(s.(length := s.loopEnd));
      CalcSamplen(s) == r.length == CalcSamplen(r) &&
      CalcSamplooplen(s) == r.loopEnd - r.loopStart == CalcSamplooplen(r)
  {
  }

  /**
   * After the GBA preparation the length `calc_samplen_ex2` gives is the
   * sample's length, so the writer emits every sample the buffer holds and
   * no more.
   */
  lemma GbaFixedLengthIsSamplen(s: SampleData)
    requires GbaFixable(s)
    ensures CalcSamplenEx2(GbaFixed(s)) == GbaFixed(s).length
  {
    GbaFixedMeaning(s);
  }

  /** After `Sample_Sign` the DS format code is 2 for ADPCM data and otherwise 1 or 0 by the data width. */
  lemma SignedDsFormat(s: SampleData)
    requires s.length <= |s.data|
    ensures DsFormat(Signed(s)) == if Compressed(s.format) then 2 else if Wide(s.format) then 1 else 0
  {
  }

  /** For the three loop types the writer uses, "no loop" is the `0xffffffff` loop length and the one-shot repeat code. */
  lemma NoLoopSentinel(s: SampleData)
    requires s.loopType <= 2 && s.loopStart <= s.loopEnd && 2 * s.loopEnd < 0xffff_ffff
    ensures CalcSamplooplen(s) == 0xffff_ffff <==> s.loopType == 0
    ensures DsRepType(s) == 2 <==> s.loopType == 0
  {
  }
}
