/** Option and Result, the two failure-carrying types the Rust code returns. */
module Wrappers {
  datatype Option<T> = None | Some(value: T)

  datatype Result<T, E> = Ok(value: T) | Err(error: E)
}

/**
 * Machine integers and the bit-level helpers shared by the models: powers
 * of two, `&` with a low-bit mask, shifts, and the modular facts that the
 * fixed-width code relies on.
 */
module Bits {
  type u8 = x: int | 0 <= x < 0x100
  type u16 = x: int | 0 <= x < 0x1_0000
  type u32 = x: int | 0 <= x < 0x1_0000_0000
  type i8 = x: int | -0x80 <= x < 0x80
  type i16 = x: int | -0x8000 <= x < 0x8000
  type i32 = x: int | -0x8000_0000 <= x < 0x8000_0000

  const U32_MODULUS: nat := 0x1_0000_0000

  function Pow2(k: nat): (r: nat)
    ensures r >= 1
  {
    if k == 0 then 1 else 2 * Pow2(k - 1)
  }

  /** Rust's `usize::is_power_of_two`: non-zero with a single bit set. */
  predicate IsPowerOfTwo(n: nat)
  {
    n == 1 || (n > 1 && n % 2 == 0 && IsPowerOfTwo(n / 2))
  }

  lemma {:induction false} Pow2IsPowerOfTwo(k: nat)
    ensures IsPowerOfTwo(Pow2(k))
  {
    if k > 0 {
      Pow2IsPowerOfTwo(k - 1);
      assert Pow2(k) / 2 == Pow2(k - 1);
    }
  }

  /** 2^32, the modulus of `u32` arithmetic, and the powers the fixed-width code uses. */
  lemma Pow2Is32()
    ensures Pow2(32) == U32_MODULUS && Pow2(31) == 0x8000_0000 && Pow2(30) == 0x4000_0000
    ensures Pow2(4) == 0x10 && Pow2(8) == 0x100 && Pow2(16) == 0x1_0000 && Pow2(26) == 0x400_0000
    ensures Pow2(29) == 0x2000_0000
  {
    assert Pow2(1) == 0x2;
    assert Pow2(2) == 0x4;
    assert Pow2(3) == 0x8;
    assert Pow2(4) == 0x10;
    assert Pow2(5) == 0x20;
    assert Pow2(6) == 0x40;
    assert Pow2(7) == 0x80;
    assert Pow2(8) == 0x100;
    assert Pow2(9) == 0x200;
    assert Pow2(10) == 0x400;
    assert Pow2(11) == 0x800;
    assert Pow2(12) == 0x1000;
    assert Pow2(13) == 0x2000;
    assert Pow2(14) == 0x4000;
    assert Pow2(15) == 0x8000;
    assert Pow2(16) == 0x10000;
    assert Pow2(17) == 0x20000;
    assert Pow2(18) == 0x40000;
    assert Pow2(19) == 0x80000;
    assert Pow2(20) == 0x100000;
    assert Pow2(21) == 0x200000;
    assert Pow2(22) == 0x400000;
    assert Pow2(23) == 0x800000;
    assert Pow2(24) == 0x1000000;
    assert Pow2(25) == 0x2000000;
    assert Pow2(26) == 0x4000000;
    assert Pow2(27) == 0x8000000;
    assert Pow2(28) == 0x10000000;
    assert Pow2(29) == 0x20000000;
    assert Pow2(30) == 0x40000000;
    assert Pow2(31) == 0x80000000;
    assert Pow2(32) == 0x100000000;
  }

  /** A power of two divides every power of two at least as large. */
  lemma {:induction false} PowerOfTwoDividesPow2(a: nat, k: nat)
    requires IsPowerOfTwo(a) && a <= Pow2(k)
    ensures Pow2(k) % a == 0
  {
    if a == 1 {
      ModUnique(Pow2(k), 1, Pow2(k), 0);
    } else {
      assert k > 0;
      PowerOfTwoDividesPow2(a / 2, k - 1);
      var q := Pow2(k - 1) / (a / 2);
      assert Pow2(k - 1) == (a / 2) * q;
      assert Pow2(k) == a * q;
      ModMultiple(a, q);
    }
  }

  /** Every power-of-two table size up to 2^32 divides the `u32` modulus. */
  lemma ModulusMultipleOf(len: nat)
    requires IsPowerOfTwo(len) && len <= U32_MODULUS
    ensures U32_MODULUS % len == 0
  {
    Pow2Is32();
    PowerOfTwoDividesPow2(len, 32);
  }

  /** The powers of two an `i32` holds. */
  lemma Pow2Below(k: nat)
    requires k <= 30
    ensures Pow2(k) <= 0x4000_0000
  {
    Pow2Monotone(k, 30);
    Pow2Is32();
  }

  lemma {:induction false} Pow2Monotone(a: nat, b: nat)
    requires a <= b
    ensures Pow2(a) <= Pow2(b)
  {
    if a < b {
      Pow2Monotone(a, b - 1);
    }
  }

  lemma {:induction false} Pow2Add(a: nat, b: nat)
    ensures Pow2(a + b) == Pow2(a) * Pow2(b)
  {
    if b > 0 {
      Pow2Add(a, b - 1);
      assert Pow2(a + b) == 2 * Pow2(a + b - 1);
    }
  }

  lemma ModMultiple(a: nat, k: nat)
    requires a > 0
    ensures (a * k) % a == 0
  {
    ModUnique(a * k, a, k, 0);
  }

  /** Euclidean division is determined by quotient and remainder. */
  lemma ModUnique(x: int, n: int, q: int, r: int)
    requires n > 0 && 0 <= r < n && x == n * q + r
    ensures x % n == r && x / n == q
  {
    var q', r' := x / n, x % n;
    var d := q - q';
    assert n * q == n * q' + n * d;
    assert n * d == r' - r;
    if d >= 1 {
      MulAtLeast(n, d);
    } else if d <= -1 {
      MulAtLeast(n, -d);
    }
  }

  lemma {:induction false} MulAtLeast(n: int, d: int)
    requires n > 0 && d >= 1
    ensures n * d >= n
  {
    if d > 1 {
      MulAtLeast(n, d - 1);
      assert n * d == n * (d - 1) + n;
    }
  }

  /** Reducing modulo a multiple of `n` first does not change the result modulo `n`. */
  lemma ModOfMultipleMod(x: int, n: nat, m: nat)
    requires n > 0 && m > 0 && m % n == 0
    ensures (x % m) % n == x % n
  {
    var k := m / n;
    assert m == n * k;
    var t := x / m;
    var r := x % m;
    assert x == m * t + r;
    assert x == n * (k * t) + r;
    var r2 := r % n;
    var q2 := r / n;
    assert r == n * q2 + r2;
    assert x == n * (k * t + q2) + r2;
    ModUnique(x, n, k * t + q2, r2);
  }

  /** Bitwise `&` of two naturals, bit by bit from the least significant one. */
  function BitAnd(a: nat, b: nat): (r: nat)
    decreases a
  {
    if a == 0 || b == 0 then 0
    else (if a % 2 == 1 && b % 2 == 1 then 1 else 0) + 2 * BitAnd(a / 2, b / 2)
  }

  /** `x & (n - 1)` is `x % n` when `n` is a power of two: the fast modulus the hash table uses. */
  lemma {:induction false} BitAndMask(x: nat, n: nat)
    requires IsPowerOfTwo(n)
    ensures BitAnd(x, n - 1) == x % n
  {
    if n == 1 {
    } else if x == 0 {
    } else {
      var m := n / 2;
      BitAndMask(x / 2, m);
      assert (n - 1) % 2 == 1 && (n - 1) / 2 == m - 1;
      assert BitAnd(x, n - 1) == x % 2 + 2 * ((x / 2) % m);
      DivModSplit(x, m);
    }
  }

  lemma DivModSplit(x: nat, m: nat)
    requires m > 0
    ensures x % (2 * m) == x % 2 + 2 * ((x / 2) % m)
  {
    var a := x / 2;
    var q := a / m;
    assert a == m * q + a % m;
    assert x == 2 * a + x % 2;
    assert x == (2 * m) * q + (x % 2 + 2 * (a % m));
    ModUnique(x, 2 * m, q, x % 2 + 2 * (a % m));
  }

  /** An `i32` value: the range a Rust `i32` holds. */
  predicate InI32(x: int)
  {
    -0x8000_0000 <= x < 0x8000_0000
  }

  const I32_MIN: int := -0x8000_0000

  /** The two's-complement reading of `x` modulo 2^32: what a wrapping `i32` operation or an `as i32` cast yields. */
  function WrapI32(x: int): i32
  {
    var m := x % U32_MODULUS;
    if m >= 0x8000_0000 then m - U32_MODULUS else m
  }

  /** Wrapping keeps the value modulo 2^32, and leaves an in-range value alone. */
  lemma WrapI32Mod(x: int)
    ensures WrapI32(x) % U32_MODULUS == x % U32_MODULUS
    ensures InI32(x) ==> WrapI32(x) == x
  {
    var m := x % U32_MODULUS;
    if m >= 0x8000_0000 {
      ModUnique(m - U32_MODULUS, U32_MODULUS, -1, m);
    }
    if 0 <= x < 0x8000_0000 {
      ModUnique(x, U32_MODULUS, 0, x);
    } else if InI32(x) {
      ModUnique(x, U32_MODULUS, -1, x + U32_MODULUS);
    }
  }

  /** Two values equal modulo 2^32 wrap to the same `i32`. */
  lemma WrapI32Congruent(x: int, y: int)
    requires x % U32_MODULUS == y % U32_MODULUS
    ensures WrapI32(x) == WrapI32(y)
  {
  }

  /** Reducing one summand modulo `m` does not change the sum modulo `m`. */
  lemma ModAddLeft(a: int, b: int, m: int)
    requires m > 0
    ensures (a % m + b) % m == (a + b) % m
  {
    var t := a % m + b;
    assert a + b == m * (a / m) + t;
    var q, r := t / m, t % m;
    assert a + b == m * (a / m + q) + r;
    ModUnique(a + b, m, a / m + q, r);
  }

  /** Reducing one factor modulo `m` does not change the product modulo `m`. */
  lemma ModMulLeft(a: int, b: int, m: int)
    requires m > 0
    ensures ((a % m) * b) % m == (a * b) % m
  {
    var q, r := a / m, a % m;
    var t := r * b;
    assert a * b == (m * q + r) * b;
    assert a * b == m * (q * b) + t;
    assert a * b == m * (q * b + t / m) + t % m;
    ModUnique(a * b, m, q * b + t / m, t % m);
  }

  /** `x & y` on two `i32`s: the bitwise and of their two's-complement patterns. */
  function AndI32(x: i32, y: i32): i32
  {
    WrapI32(BitAnd(x % U32_MODULUS, y % U32_MODULUS))
  }

  /** `x & (2^k - 1)` keeps the low `k` bits, which is `x` modulo 2^k even for a negative `x`. */
  lemma AndLowMask(x: i32, k: nat)
    requires k < 31
    ensures Pow2(k) <= 0x4000_0000
    ensures AndI32(x, Pow2(k) - 1) == x % Pow2(k)
  {
    var p := Pow2(k);
    Pow2Monotone(k, 30);
    Pow2Is32();
    ModUnique(p - 1, U32_MODULUS, 0, p - 1);
    Pow2IsPowerOfTwo(k);
    BitAndMask(x % U32_MODULUS, p);
    Pow2Monotone(k, 32);
    ModulusMultipleOf(p);
    ModOfMultipleMod(x, p, U32_MODULUS);
    WrapI32Mod(x % p);
  }

  /** `1 << k` on an `i32`: 2^k, except that bit 31 is the sign bit. */
  lemma ShlOne(k: nat)
    requires k < 32
    ensures Shl(1, k) == if k < 31 then Pow2(k) else I32_MIN
  {
    Pow2Is32();
    if k < 31 {
      Pow2Monotone(k, 30);
      WrapI32Mod(Pow2(k));
    } else {
      ModUnique(Pow2(31), U32_MODULUS, 0, Pow2(31));
    }
  }

  /** `x << k` on an `i32` for a shift below the bit width: the bits pushed past bit 31 are lost. */
  function Shl(x: int, k: nat): i32
    requires k < 32
  {
    WrapI32(x * Pow2(k))
  }

  /** `x >> k` on an `i32`: the arithmetic shift, which rounds toward negative infinity. */
  function Shr(x: i32, k: nat): i32
  {
    DivFloor(x, Pow2(k));
    x / Pow2(k)
  }

  /** The arithmetic shift is the floor of `x / 2^k`, between zero and `x`. */
  lemma ShrFloor(x: i32, k: nat)
    ensures Pow2(k) * Shr(x, k) <= x < Pow2(k) * (Shr(x, k) + 1)
    ensures x >= 0 ==> 0 <= Shr(x, k) <= x
    ensures x < 0 ==> x <= Shr(x, k) < 0
  {
    DivFloor(x, Pow2(k));
  }

  /** Euclidean division by a positive divisor is the floor and stays between zero and the dividend. */
  lemma DivFloor(x: int, d: int)
    requires d >= 1
    ensures d * (x / d) <= x < d * (x / d + 1)
    ensures x >= 0 ==> 0 <= x / d <= x
    ensures x < 0 ==> x <= x / d < 0
  {
    var q, r := x / d, x % d;
    assert x == d * q + r && 0 <= r < d;
    if x >= 0 {
      if q < 0 {
        MulAtLeast(d, -q);
      }
      if q > x {
        MulAtLeast(q, d);
      }
    } else {
      if q > 0 {
        MulAtLeast(d, q);
      }
      if q < x {
        MulLe(d, q, x - 1);
        MulLe(-x, 1, d);
      }
    }
  }

  /** An exact product divided by one factor is the other. */
  lemma DivExactly(x: int, q: int, p: int)
    requires q >= 1 && p * q == x
    ensures x / q == p && x % q == 0
  {
    ModUnique(x, q, p, 0);
  }

  /** Euclidean quotient and remainder rebuild the dividend. */
  lemma DivMod(x: int, d: int)
    requires d >= 1
    ensures x == d * (x / d) + x % d && 0 <= x % d < d
  {
  }

  lemma Expand(a: int, b: int, c: int, d: int)
    ensures (a + b) * (c + d) == a * c + a * d + b * c + b * d
  {
  }

  /** Multiplying by a non-negative factor keeps an inequality. */
  lemma MulLe(d: int, a: int, b: int)
    requires d >= 0 && a <= b
    ensures d * a <= d * b
  {
    assert d * b - d * a == d * (b - a);
  }

  function Magnitude(x: int): nat
  {
    if x < 0 then -x else x
  }

  /** Rust's `/` on integers: divides and rounds toward zero. */
  function TruncDiv(a: int, b: int): int
    requires b != 0
  {
    var q := Magnitude(a) / Magnitude(b);
    if (a < 0) == (b < 0) then q else -q
  }

  /** Rust's `%` on integers: the remainder of `TruncDiv`, which takes the sign of the dividend. */
  function TruncRem(a: int, b: int): int
    requires b != 0
  {
    a - b * TruncDiv(a, b)
  }

  /** The remainder of truncating division is smaller than the divisor and has the dividend's sign. */
  lemma TruncRemBounds(a: int, b: int)
    requires b != 0
    ensures Magnitude(TruncRem(a, b)) < Magnitude(b)
    ensures a >= 0 ==> TruncRem(a, b) >= 0
    ensures a < 0 ==> TruncRem(a, b) <= 0
  {
    var q := Magnitude(a) / Magnitude(b);
    var r := Magnitude(a) % Magnitude(b);
    assert Magnitude(a) == Magnitude(b) * q + r;
    if a >= 0 && b > 0 {
      assert TruncRem(a, b) == r;
    } else if a >= 0 {
      assert TruncRem(a, b) == a - (-b) * q;
    } else if b > 0 {
      assert TruncRem(a, b) == -r;
    } else {
      assert TruncRem(a, b) == a + (-b) * q;
    }
  }

  /** The quotient of two `i32`s fits an `i32` except for `i32::MIN / -1`, which Rust rejects. */
  lemma TruncDivI32(a: i32, b: i32)
    requires b != 0 && !(a == I32_MIN && b == -1)
    ensures InI32(TruncDiv(a, b))
  {
    var m, n := Magnitude(a), Magnitude(b);
    var q: int := m / n;
    DivFloor(m, n);
    assert n * q <= m <= 0x8000_0000;
    if n >= 2 {
      MulLe(q, 2, n);
      assert q < 0x8000_0000;
    } else {
      assert q == m;
    }
    assert TruncDiv(a, b) == if (a < 0) == (b < 0) then q else -q;
  }

  /** Dividing an exact multiple rounds nowhere. */
  lemma TruncDivExact(k: int, d: int)
    requires d > 0
    ensures TruncDiv(k * d, d) == k
  {
    ModUnique(Magnitude(k) * d, d, Magnitude(k), 0);
    assert Magnitude(k * d) == Magnitude(k) * d;
  }

  /** Rust's `u32::wrapping_add`: addition modulo 2^32 (a negative `rhs` is `wrapping_add_signed`). */
  function WrappingAddU32(a: u32, rhs: int): (r: u32)
  {
    (a + rhs) % U32_MODULUS
  }
}

/** Slices of sequences and arrays: Rust's `copy_from_slice`. */
module Slices {
  /** `s` with the elements from `start` on replaced by `src`. */
  function Overwrite<T>(s: seq<T>, start: nat, src: seq<T>): seq<T>
    requires start + |src| <= |s|
  {
    s[..start] + src + s[start + |src|..]
  }

  /** Two adjacent copies are one copy of the two slices joined. */
  lemma OverwriteAdjacent<T>(s: seq<T>, start: nat, a: seq<T>, b: seq<T>)
    requires start + |a| + |b| <= |s|
    ensures |Overwrite(s, start, a)| == |s|
    ensures Overwrite(Overwrite(s, start, a), start + |a|, b) == Overwrite(s, start, a + b)
  {
    var t := Overwrite(s, start, a);
    assert t[..start + |a|] == s[..start] + a;
    assert t[start + |a| + |b|..] == s[start + |a| + |b|..];
  }

  /** `buffer[start..start + |src|].copy_from_slice(src)`. */
  method CopyFromSlice<T>(buffer: array<T>, start: nat, src: seq<T>)
    requires start + |src| <= buffer.Length
    modifies buffer
    ensures buffer[..] == Overwrite(old(buffer[..]), start, src)
  {
    var i := 0;
    while i < |src|
      invariant 0 <= i <= |src|
      invariant forall j :: 0 <= j < buffer.Length ==> buffer[j] == if start <= j < start + i then src[j - start] else old(buffer[j])
    {
      buffer[start + i] := src[i];
      i := i + 1;
    }
    assert buffer[..] == Overwrite(old(buffer[..]), start, src);
  }

  /** Copying a slice is the same as copying it followed by the elements already after it. */
  lemma OverwriteTail<T>(s: seq<T>, start: nat, src: seq<T>)
    requires start + |src| <= |s|
    ensures Overwrite(s, start, src) == Overwrite(s, start, src + s[start + |src|..])
  {
  }

  /** A second copy of the same length over the same place hides the first. */
  lemma OverwriteTwice<T>(s: seq<T>, start: nat, a: seq<T>, b: seq<T>)
    requires start + |a| <= |s| && |b| == |a|
    ensures |Overwrite(s, start, a)| == |s|
    ensures Overwrite(Overwrite(s, start, a), start, b) == Overwrite(s, start, b)
  {
    var t := Overwrite(s, start, a);
    assert t[..start] == s[..start];
    assert t[start + |b|..] == s[start + |b|..];
  }

  /** What a copy leaves: the copied slice where it was put, every other element as it was. */
  lemma OverwriteReadBack<T>(s: seq<T>, start: nat, src: seq<T>)
    requires start + |src| <= |s|
    ensures |Overwrite(s, start, src)| == |s|
    ensures Overwrite(s, start, src)[start..start + |src|] == src
    ensures forall i :: 0 <= i < |s| && !(start <= i < start + |src|) ==> Overwrite(s, start, src)[i] == s[i]
  {
    var t := Overwrite(s, start, src);
    assert t[start..start + |src|] == src;
  }
}
