/**
 * `Num<i32, N>` (agb-fixnum/src/num.rs): a fixed-point number kept as an
 * `i32` raw value with `N` fractional bits, so that it stands for
 * `raw / 2^N`. `N` is a const generic in Rust; here it is the `n` passed
 * beside the value. Shifts lose the bits pushed past bit 31, as Rust's do;
 * `+`, `-`, `*` and `/` that overflow panic in a debug build, and that is a
 * precondition here. The operations are plain functions; what they mean is
 * stated by the lemmas beside them.
 */
module FixNum {
  import opened Bits

  /** `N`: `1 << N` on an `i32` needs a shift below the bit width. */
  type Precision = n: nat | n < 32

  datatype Num = Num(raw: i32)
  {
    /** `to_raw`. */
    function ToRaw(): i32
    {
      raw
    }
  }

  /** `from_raw`: the raw bits become the number unchanged, so `to_raw` gives them back. */
  function FromRaw(x: i32): (r: Num)
    ensures r.ToRaw() == x
  {
    Num(x)
  }

  /** `from_raw(to_raw(a))` is `a` again. */
  lemma RawRoundTrip(a: Num)
    ensures FromRaw(a.ToRaw()) == a
  {
  }

  /** `Num::new` and `From<i32>`: `i << N`. */
  function New(i: i32, n: Precision): Num
  {
    Num(Shl(i, n))
  }

  /** The low `N` bits of a converted integer are zero, and when `i * 2^N` fits, that is the raw value. */
  lemma NewIsScaled(i: i32, n: Precision)
    ensures New(i, n).raw % Pow2(n) == 0
    ensures InI32(i * Pow2(n)) ==> New(i, n).raw == i * Pow2(n)
  {
    ShlLowBits(i, n);
  }

  lemma ShlLowBits(x: int, k: Precision)
    ensures Shl(x, k) % Pow2(k) == 0
    ensures InI32(x * Pow2(k)) ==> Shl(x, k) == x * Pow2(k)
  {
    var p := Pow2(k);
    var w := Shl(x, k);
    WrapI32Mod(x * p);
    Pow2Is32();
    Pow2Monotone(k, 32);
    Pow2IsPowerOfTwo(k);
    ModulusMultipleOf(p);
    ModOfMultipleMod(w, p, U32_MODULUS);
    ModOfMultipleMod(x * p, p, U32_MODULUS);
    ModUnique(x * p, p, x, 0);
  }

  /** `floor`: `raw >> N`. */
  function Floor(a: Num, n: Precision): i32
  {
    Shr(a.raw, n)
  }

  /** `floor` is the largest integer not above the number. */
  lemma FloorBounds(a: Num, n: Precision)
    ensures Pow2(n) * Floor(a, n) <= a.raw < Pow2(n) * (Floor(a, n) + 1)
  {
    ShrFloor(a.raw, n);
  }

  /** No other integer brackets the number that way. */
  lemma FloorUnique(a: Num, n: Precision, k: int)
    requires Pow2(n) * k <= a.raw < Pow2(n) * (k + 1)
    ensures Floor(a, n) == k
  {
    FloorBounds(a, n);
    BracketUnique(a.raw, Pow2(n), k, Floor(a, n));
  }

  /** `p * k + f` with `0 <= f < p` lies between `p * k` and `p * (k + 1)`. */
  lemma Bracket(x: int, p: int, k: int, f: int)
    requires x == p * k + f && 0 <= f < p
    ensures p * k <= x < p * (k + 1)
  {
    assert p * (k + 1) == p * k + p;
  }

  /** Two integers whose multiples of `p` both bracket `x` are the same. */
  lemma BracketUnique(x: int, p: int, k: int, j: int)
    requires p >= 1
    requires p * k <= x < p * (k + 1)
    requires p * j <= x < p * (j + 1)
    ensures k == j
  {
    if k < j {
      MulLe(p, k + 1, j);
    } else if j < k {
      MulLe(p, j + 1, k);
    }
  }

  /** `trunc`: `raw / (1 << N)`, Rust's division, which rounds toward zero. */
  function Trunc(a: Num, n: Precision): i32
  {
    ShlOne(n);
    TruncDivI32(a.raw, Shl(1, n));
    TruncDiv(a.raw, Shl(1, n))
  }

  /**
   * `trunc` is the integral part rounded toward zero: its magnitude is the
   * floor of the number's magnitude and it keeps the sign. For `N = 31`,
   * `1 << N` is `i32::MIN`, and that case is left unstated.
   */
  lemma TruncTowardZero(a: Num, n: Precision)
    requires n < 31
    ensures Pow2(n) * Magnitude(Trunc(a, n)) <= Magnitude(a.raw) < Pow2(n) * (Magnitude(Trunc(a, n)) + 1)
    ensures Trunc(a, n) == 0 || (Trunc(a, n) < 0 <==> a.raw < 0)
  {
    ShlOne(n);
    TruncDivMagnitude(a.raw, Pow2(n));
  }

  /** Truncating division by a positive divisor: the magnitude is the floor of the magnitudes, the sign the dividend's. */
  lemma TruncDivMagnitude(a: int, d: int)
    requires d > 0
    ensures Magnitude(TruncDiv(a, d)) == Magnitude(a) / d
    ensures d * Magnitude(TruncDiv(a, d)) <= Magnitude(a) < d * (Magnitude(TruncDiv(a, d)) + 1)
    ensures TruncDiv(a, d) == 0 || (TruncDiv(a, d) < 0 <==> a < 0)
  {
    DivFloor(Magnitude(a), d);
  }

  /** `frac`: `raw & ((1 << N) - 1)`; `(1 << 31) - 1` overflows, so `N` is below 31. */
  function Frac(a: Num, n: Precision): i32
    requires n < 31
  {
    ShlOne(n);
    AndLowMask(a.raw, n);
    AndI32(a.raw, Shl(1, n) - 1)
  }

  /** `frac` is the raw value modulo 2^N, which with `floor` rebuilds the number. */
  lemma FracSplit(a: Num, n: Precision)
    requires n < 31
    ensures Frac(a, n) == a.raw % Pow2(n) && 0 <= Frac(a, n) < Pow2(n)
    ensures a.raw == Pow2(n) * Floor(a, n) + Frac(a, n)
  {
    ShlOne(n);
    AndLowMask(a.raw, n);
    DivMod(a.raw, Pow2(n));
  }

  /** An integer converted to `Num` truncates and floors back to itself, with no fractional part. */
  lemma IntegerRoundTrip(i: i32, n: Precision)
    requires n < 31 && InI32(i * Pow2(n))
    ensures Floor(New(i, n), n) == i && Trunc(New(i, n), n) == i && Frac(New(i, n), n) == 0
  {
    NewIsScaled(i, n);
    Commute(i, Pow2(n));
    Bracket(New(i, n).raw, Pow2(n), i, 0);
    FloorUnique(New(i, n), n, i);
    ShlOne(n);
    TruncDivExact(i, Pow2(n));
    FracSplit(New(i, n), n);
  }

  /**
   * `new_from_parts((integer, fractional))`, the constructor behind `num!`:
   * `fractional` counts 2^-30ths, of which the top `N` bits are kept.
   */
  function NewFromParts(integer: i32, fractional: i32, n: Precision): Num
    requires n <= 30 && InI32(Shl(integer, n) + Shr(fractional, 30 - n))
  {
    Num(Shl(integer, n) + Shr(fractional, 30 - n))
  }

  /** For a fraction in `0..2^30`, the integer part is `floor` and the kept bits are `frac`. */
  lemma NewFromPartsSplit(integer: i32, fractional: i32, n: Precision)
    requires n <= 30 && InI32(Shl(integer, n) + Shr(fractional, 30 - n))
    requires 0 <= fractional < 0x4000_0000 && InI32(integer * Pow2(n))
    ensures Floor(NewFromParts(integer, fractional, n), n) == integer
    ensures Frac(NewFromParts(integer, fractional, n), n) == fractional / Pow2(30 - n)
  {
    ShlLowBits(integer, n);
    Commute(integer, Pow2(n));
    PartsFraction(fractional, n);
    SplitAt(NewFromParts(integer, fractional, n), n, integer, Shr(fractional, 30 - n));
  }

  /** A fraction in `0..2^30` shifted down by `30 - N` keeps `N` bits. */
  lemma PartsFraction(fractional: i32, n: Precision)
    requires n <= 30 && 0 <= fractional < 0x4000_0000
    ensures Shr(fractional, 30 - n) == fractional / Pow2(30 - n) && 0 <= Shr(fractional, 30 - n) < Pow2(n)
  {
    PartsFactors(n);
    ShrFloor(fractional, 30 - n);
    QuotientBelow(fractional, Shr(fractional, 30 - n), Pow2(30 - n), Pow2(n));
  }

  lemma Commute(x: int, y: int)
    ensures x * y == y * x
  {
  }

  /** A raw value `2^N * k + f` with `0 <= f < 2^N` has `floor` `k` and `frac` `f`. */
  lemma SplitAt(a: Num, n: Precision, k: int, f: int)
    requires n < 31 && a.raw == Pow2(n) * k + f && 0 <= f < Pow2(n)
    ensures Floor(a, n) == k && Frac(a, n) == f
  {
    Bracket(a.raw, Pow2(n), k, f);
    FloorUnique(a, n, k);
    FracSplit(a, n);
    ModUnique(a.raw, Pow2(n), k, f);
  }

  lemma PartsFactors(n: Precision)
    requires n <= 30
    ensures 0x4000_0000 == Pow2(n) * Pow2(30 - n)
  {
    Pow2Is32();
    Pow2Add(n, 30 - n);
    var k := n + (30 - n);
    assert k == 30;
  }

  /** A quotient by `q` of something below `p * q` is below `p`. */
  lemma QuotientBelow(x: int, f: int, q: int, p: int)
    requires q >= 1 && q * f <= x < p * q
    ensures f < p
  {
    if f >= p {
      MulLe(q, p, f);
    }
  }

  /** `new_from_parts((2, 1 << 26))` with four fractional bits is raw 33, that is 2 + 1/16. */
  lemma NewFromPartsExample()
    ensures NewFromParts(2, 0x400_0000, 4).raw == 33
  {
    Pow2Is32();
    assert Shl(2, 4) == 32;
    assert Shr(0x400_0000, 26) == 1;
  }

  /** One half: 2^(N-1) raw, and nothing for `N = 0`, which keeps no fractional bit. */
  function Half(n: Precision): Num
    requires n <= 30
  {
    if n >= 1 then Pow2Below(n - 1); Num(Pow2(n - 1)) else Num(0)
  }

  /** `num!(0.5)` expands to `new_from_parts((0, 1 << 29))`, and that is `Half`. */
  lemma HalfIsNumHalf(n: Precision)
    requires n <= 30
    ensures InI32(Shl(0, n) + Shr(0x2000_0000, 30 - n))
    ensures NewFromParts(0, 0x2000_0000, n) == Half(n)
  {
    HalfParts(n);
  }

  lemma HalfParts(n: Precision)
    requires n <= 30
    ensures Shl(0, n) == 0
    ensures Shr(0x2000_0000, 30 - n) == if n >= 1 then Pow2(n - 1) else 0
  {
    Pow2Is32();
    if n >= 1 {
      HalfFactors(n);
      DivExactly(0x2000_0000, Pow2(30 - n), Pow2(n - 1));
    } else {
      ModUnique(0x2000_0000, Pow2(30), 0, 0x2000_0000);
    }
  }

  lemma HalfFactors(n: Precision)
    requires 1 <= n <= 30
    ensures Pow2(n - 1) * Pow2(30 - n) == 0x2000_0000
  {
    Pow2Is32();
    Pow2Add(n - 1, 30 - n);
    var k := n - 1 + (30 - n);
    assert k == 29;
  }

  /** `+` (an integer operand is first converted with `From`). */
  function Add(a: Num, b: Num): Num
    requires InI32(a.raw + b.raw)
  {
    Num(a.raw + b.raw)
  }

  /** `-`. */
  function Sub(a: Num, b: Num): Num
    requires InI32(a.raw - b.raw)
  {
    Num(a.raw - b.raw)
  }

  /** Unary `-`; negating `i32::MIN` overflows. */
  function Neg(a: Num): Num
    requires a.raw != I32_MIN
  {
    Num(-a.raw)
  }

  /** `abs`: the non-negative one of the number and its negation. */
  function Abs(a: Num): (r: Num)
    requires a.raw != I32_MIN
    ensures r.raw >= 0 && (r == a || r == Neg(a))
  {
    Num(Magnitude(a.raw))
  }

  /** Sums of integers are integers: `Num::new(i) + j == Num::new(i + j)`. */
  lemma AddIntegers(i: i32, j: i32, n: Precision)
    requires InI32(i * Pow2(n)) && InI32(j * Pow2(n)) && InI32(i + j) && InI32((i + j) * Pow2(n))
    ensures New(i, n).raw == i * Pow2(n) && New(j, n).raw == j * Pow2(n)
    ensures Add(New(i, n), New(j, n)) == New(i + j, n)
  {
    NewIsScaled(i, n);
    NewIsScaled(j, n);
    NewIsScaled(i + j, n);
    Distribute(i, j, Pow2(n));
  }

  lemma Distribute(i: int, j: int, p: int)
    ensures (i + j) * p == i * p + j * p
  {
  }

  /** Subtraction undoes addition. */
  lemma AddSubInverse(a: Num, b: Num)
    requires InI32(a.raw + b.raw)
    ensures Sub(Add(a, b), b) == a
  {
  }

  /** `round`: `(self + num!(0.5)).floor()`. */
  function Round(a: Num, n: Precision): i32
    requires n <= 30 && InI32(a.raw + Half(n).raw)
  {
    Floor(Add(a, Half(n)), n)
  }

  /** `round` gives the nearest integer, halves rounding up; with no fractional bit it is the number itself. */
  lemma RoundNearest(a: Num, n: Precision)
    requires n <= 30 && InI32(a.raw + Half(n).raw)
    ensures n >= 1 ==> Pow2(n) * Round(a, n) - Pow2(n - 1) <= a.raw < Pow2(n) * Round(a, n) + Pow2(n - 1)
    ensures n == 0 ==> Round(a, n) == a.raw
  {
    FloorBounds(Add(a, Half(n)), n);
    if n >= 1 {
      RoundBounds(a.raw, Pow2(n - 1), Round(a, n), Pow2(n));
    } else {
      RoundBounds(a.raw, 0, Round(a, n), 1);
    }
  }

  /** A floor taken half a unit up lies within half a unit of the value. */
  lemma RoundBounds(x: int, h: int, r: int, p: int)
    requires p == 2 * h || (h == 0 && p == 1)
    requires p * r <= x + h < p * (r + 1)
    ensures p * r - h <= x < p * r + h || (h == 0 && r == x)
  {
    assert p * (r + 1) == p * r + p;
  }

  /** `Num * i32`: the raw value times the integer. */
  function MulInt(a: Num, k: i32): Num
    requires InI32(a.raw * k)
  {
    Num(a.raw * k)
  }

  /** `Num::new(i) * k == Num::new(i * k)`, as in the `5 * 3 == 15` test. */
  lemma MulIntIntegers(i: i32, k: i32, n: Precision)
    requires InI32(i * Pow2(n)) && InI32(i * k) && InI32(i * k * Pow2(n))
    ensures New(i, n).raw == i * Pow2(n) && InI32(New(i, n).raw * k)
    ensures MulInt(New(i, n), k) == New(i * k, n)
  {
    NewIsScaled(i, n);
    NewIsScaled(i * k, n);
    MulSwap(i, Pow2(n), k);
  }

  lemma MulSwap(a: int, b: int, c: int)
    ensures a * b * c == a * c * b
  {
  }

  /**
   * `upcast_multiply` for `i32` (the `optimised_64_bit` form), as written:
   * both operands split into integral and fractional halves, the partial
   * products added with wrapping `i32` arithmetic, the fraction product in `u32`.
   */
  function UpcastMultiply(a: i32, b: i32, n: nat): i32
    requires 2 * n <= 32
  {
    var mask := WrapI32(Shl(1, n) - 1);
    PartialProducts(Shr(a, n), AndI32(a, mask), Shr(b, n), AndI32(b, mask), n)
  }

  /** The three partial products of `upcast_multiply` from the halves, summed with wrapping. */
  function PartialProducts(aFloor: i32, aFrac: i32, bFloor: i32, bFrac: i32, n: nat): i32
    requires n < 32
  {
    WrapI32(WrapI32(HighProduct(aFloor, bFloor, n) + MiddleSum(aFloor, aFrac, bFloor, bFrac)) + LowProduct(aFrac, bFrac, n))
  }

  /** The integral halves' product, wrapped and shifted back up by `N`. */
  function HighProduct(aFloor: i32, bFloor: i32, n: nat): i32
    requires n < 32
  {
    Shl(WrapI32(aFloor * bFloor), n)
  }

  /** The cross products of an integral half with a fractional half, added with wrapping. */
  function MiddleSum(aFloor: i32, aFrac: i32, bFloor: i32, bFrac: i32): i32
  {
    WrapI32(WrapI32(aFloor * bFrac) + WrapI32(bFloor * aFrac))
  }

  /** The fractional halves' product, taken in `u32` and shifted down by `N`. */
  function LowProduct(aFrac: i32, bFrac: i32, n: nat): i32
  {
    WrapI32(((aFrac % U32_MODULUS) * (bFrac % U32_MODULUS)) % U32_MODULUS / Pow2(n))
  }

  /** `Num * Num`; the debug assertion demands `2 * N <= 32`. */
  function Mul(a: Num, b: Num, n: Precision): Num
    requires 2 * n <= 32
  {
    Num(UpcastMultiply(a.raw, b.raw, n))
  }

  lemma WrapAdd(x: int, y: int)
    ensures WrapI32(WrapI32(x) + WrapI32(y)) == WrapI32(x + y)
  {
    WrapI32Mod(x);
    WrapI32Mod(y);
    ModAddLeft(WrapI32(x), WrapI32(y), U32_MODULUS);
    ModAddLeft(x, WrapI32(y), U32_MODULUS);
    ModAddLeft(WrapI32(y), x, U32_MODULUS);
    ModAddLeft(y, x, U32_MODULUS);
    WrapI32Congruent(WrapI32(x) + WrapI32(y), x + y);
  }

  lemma WrapMul(x: int, k: int)
    ensures WrapI32(WrapI32(x) * k) == WrapI32(x * k)
  {
    WrapI32Mod(x);
    ModMulLeft(WrapI32(x), k, U32_MODULUS);
    ModMulLeft(x, k, U32_MODULUS);
    WrapI32Congruent(WrapI32(x) * k, x * k);
  }

  /**
   * The split multiplication is the full 64-bit product shifted down by `N`
   * and cast back to `i32`, as the 16-bit precision test checks against `i64`.
   */
  lemma MulIsWideProduct(a: Num, b: Num, n: Precision)
    requires 2 * n <= 32
    ensures Mul(a, b, n).raw == WrapI32((a.raw * b.raw) / Pow2(n))
  {
    var p := Pow2(n);
    var af, ar := a.raw / p, a.raw % p;
    var bf, br := b.raw / p, b.raw % p;
    UpcastParts(a.raw, b.raw, n, af, ar, bf, br);
    DivMod(a.raw, p);
    DivMod(b.raw, p);
    WideQuotient(a.raw, b.raw, p, af, ar, bf, br);
  }

  /** Each partial product of `upcast_multiply`, with its wrapping, in terms of the exact halves. */
  lemma UpcastParts(a: i32, b: i32, n: nat, af: int, ar: int, bf: int, br: int)
    requires 2 * n <= 32
    requires af == a / Pow2(n) && ar == a % Pow2(n) && bf == b / Pow2(n) && br == b % Pow2(n)
    ensures UpcastMultiply(a, b, n) == WrapI32(af * bf * Pow2(n) + (af * br + bf * ar) + (ar * br) / Pow2(n))
  {
    Halves(a, n);
    Halves(b, n);
    PartialProductsExact(af, ar, bf, br, n);
  }

  /** With fractions below `2^N <= 2^16`, the wrapped partial products are the wide product wrapped once. */
  lemma PartialProductsExact(af: i32, ar: i32, bf: i32, br: i32, n: nat)
    requires n <= 16 && 0 <= ar < Pow2(n) && 0 <= br < Pow2(n) && Pow2(n) <= 0x1_0000
    ensures PartialProducts(af, ar, bf, br, n) == WrapI32(af * bf * Pow2(n) + (af * br + bf * ar) + (ar * br) / Pow2(n))
  {
    LowPart(ar, br, n);
    HighPart(af, bf, n);
    WrapAdd(af * br, bf * ar);
    Assemble(PartialProducts(af, ar, bf, br, n), HighProduct(af, bf, n), MiddleSum(af, ar, bf, br), LowProduct(ar, br, n),
             af * bf * Pow2(n), af * br + bf * ar, (ar * br) / Pow2(n));
  }

  /** The three partial products added with wrapping are their exact sum wrapped once. */
  lemma Assemble(sum: int, high: int, middle: int, low: int, x: int, y: int, z: int)
    requires InI32(z) && high == WrapI32(x) && middle == WrapI32(y) && low == z
    requires sum == WrapI32(WrapI32(high + middle) + low)
    ensures sum == WrapI32(x + y + z)
  {
    Combine(x, y, z);
  }

  /** `wrapping(u) << N` is `u * 2^N` wrapped once. */
  lemma HighPart(af: i32, bf: i32, n: nat)
    requires n < 32
    ensures HighProduct(af, bf, n) == WrapI32(af * bf * Pow2(n))
  {
    WrapMul(af * bf, Pow2(n));
  }

  /** Wrapping the partial sums on the way changes nothing modulo 2^32. */
  lemma Combine(x: int, y: int, z: int)
    requires InI32(z)
    ensures WrapI32(WrapI32(WrapI32(x) + WrapI32(y)) + z) == WrapI32(x + y + z)
  {
    WrapAdd(x, y);
    WrapI32Mod(z);
    WrapAdd(x + y, z);
  }

  /** `x >> N` and `x & mask` are the floor and the remainder of `x / 2^N`; the mask is `2^N - 1`. */
  lemma Halves(x: i32, n: nat)
    requires n <= 16
    ensures Pow2(n) <= 0x1_0000
    ensures Shr(x, n) == x / Pow2(n)
    ensures AndI32(x, WrapI32(Shl(1, n) - 1)) == x % Pow2(n) && 0 <= x % Pow2(n) < Pow2(n)
  {
    Pow2Is32();
    Pow2Monotone(n, 16);
    ShlOne(n);
    WrapI32Mod(Pow2(n) - 1);
    AndLowMask(x, n);
  }

  /** The fraction product, taken in `u32` and shifted down by `N`, is the exact quotient. */
  lemma LowPart(x: i32, y: i32, n: nat)
    requires 0 <= x < Pow2(n) && 0 <= y < Pow2(n) && Pow2(n) <= 0x1_0000
    ensures LowProduct(x, y, n) == (x * y) / Pow2(n)
  {
    var p := Pow2(n);
    ModUnique(x, U32_MODULUS, 0, x);
    ModUnique(y, U32_MODULUS, 0, y);
    FracProduct(x, y, p);
    ModUnique(x * y, U32_MODULUS, 0, x * y);
    WrapI32Mod((x * y) / p);
  }

  /** Two fractions below `p <= 2^16` have a product that fits a `u32`, and whose top half is below `p`. */
  lemma FracProduct(x: int, y: int, p: int)
    requires 0 <= x < p && 0 <= y < p && p <= 0x1_0000
    ensures 0 <= x * y < U32_MODULUS
    ensures 0 <= (x * y) / p < p
  {
    MulLe(x, y, p - 1);
    MulLe(p - 1, x, p - 1);
    MulLe(p - 1, p - 1, 0xFFFF);
    MulLe(0xFFFF, p - 1, 0xFFFF);
    MulLe(x, 0, y);
    DivFloor(x * y, p);
    assert x * y < p * p by {
      MulLe(p, p - 1, p);
    }
    QuotientBelow(x * y, (x * y) / p, p, p);
  }

  /** Splitting both factors at `p` rebuilds the product's quotient by `p` from the partial products. */
  lemma WideQuotient(x: int, y: int, p: int, xf: int, xr: int, yf: int, yr: int)
    requires p >= 1 && x == p * xf + xr && y == p * yf + yr
    ensures (x * y) / p == xf * yf * p + (xf * yr + yf * xr) + (xr * yr) / p
  {
    var k := xf * yf * p + (xf * yr + yf * xr);
    Expand(p * xf, xr, p * yf, yr);
    Collect(p, xf, xr, yf, yr);
    DivAddMultiple(p, k, xr * yr);
  }

  lemma Collect(p: int, xf: int, xr: int, yf: int, yr: int)
    ensures (p * xf) * (p * yf) + (p * xf) * yr + xr * (p * yf) == p * (xf * yf * p + (xf * yr + yf * xr))
  {
  }

  /** Adding a multiple of `p` adds its factor to the quotient. */
  lemma DivAddMultiple(p: int, k: int, z: int)
    requires p >= 1
    ensures (p * k + z) / p == k + z / p
  {
    DivMod(z, p);
    assert p * k + z == p * (k + z / p) + z % p;
    ModUnique(p * k + z, p, k + z / p, z % p);
  }

  /** `Num / Num` (`(raw << N) / rhs`); dividing by zero or `i32::MIN / -1` panics. */
  function Div(a: Num, b: Num, n: Precision): Num
    requires 2 * n <= 32 && b.raw != 0 && !(Shl(a.raw, n) == I32_MIN && b.raw == -1)
  {
    TruncDivI32(Shl(a.raw, n), b.raw);
    Num(TruncDiv(Shl(a.raw, n), b.raw))
  }

  /** `Num / i32`: the raw value divided, rounding toward zero. */
  function DivInt(a: Num, k: i32): Num
    requires k != 0 && !(a.raw == I32_MIN && k == -1)
  {
    TruncDivI32(a.raw, k);
    Num(TruncDiv(a.raw, k))
  }

  /** `Num / i32` rounds toward zero: its magnitude is the floor of the magnitudes, its sign that of the exact quotient. */
  lemma DivIntTowardZero(a: Num, k: i32)
    requires k != 0 && !(a.raw == I32_MIN && k == -1)
    ensures Magnitude(k) * Magnitude(DivInt(a, k).raw) <= Magnitude(a.raw) < Magnitude(k) * (Magnitude(DivInt(a, k).raw) + 1)
    ensures DivInt(a, k).raw == 0 || (DivInt(a, k).raw < 0 <==> (a.raw < 0) != (k < 0))
  {
    DivFloor(Magnitude(a.raw), Magnitude(k));
  }

  /** Dividing by one is the identity whenever `raw << N` does not overflow. */
  lemma DivByOne(a: Num, n: Precision)
    requires 2 * n <= 32 && InI32(a.raw * Pow2(n))
    ensures New(1, n).raw == Pow2(n)
    ensures Div(a, New(1, n), n) == a
  {
    Pow2Below(n);
    NewIsScaled(1, n);
    ShlLowBits(a.raw, n);
    TruncDivExact(a.raw, Pow2(n));
  }

  /** Integers survive a division by sixteen and a multiplication back, given four fractional bits or more. */
  lemma DivThenMulSixteen(i: i32, n: Precision)
    requires 4 <= n && 2 * n <= 32 && InI32(i * Pow2(n) * Pow2(n))
    ensures New(16, n).raw == 16 * Pow2(n)
    ensures Shl(New(i, n).raw, n) == i * Pow2(n) * Pow2(n)
    ensures Mul(Div(New(i, n), New(16, n), n), New(16, n), n) == New(i, n)
  {
    var p, q := Pow2(n), Pow2(n - 4);
    Pow2Is32();
    Pow2Monotone(n, 16);
    Pow2Add(4, n - 4);
    assert p == 16 * q;
    ScaleDown(i * p, p);
    NewIsScaled(i, n);
    NewIsScaled(16, n);
    ShlLowBits(i * p, n);
    SixteenRegroup(i, q, p);
    TruncDivExact(i * q, 16 * p);
    var m := Div(New(i, n), New(16, n), n);
    assert m.raw == i * q;
    MulIsWideProduct(m, New(16, n), n);
    DivExactly((i * q) * (16 * p), p, 16 * (i * q));
    WrapI32Mod(i * p);
  }

  /** The products `(i / 16) * 16` meets on the way, with `p = 16 q`. */
  lemma SixteenRegroup(i: int, q: int, p: int)
    requires p == 16 * q
    ensures (i * q) * (16 * p) == i * p * p
    ensures 16 * (i * q) * p == (i * q) * (16 * p)
    ensures 16 * (i * q) == i * p
  {
  }

  /** A factor of something that fits an `i32`, times a positive `p`, fits too. */
  lemma ScaleDown(x: int, p: int)
    requires p >= 1 && InI32(x * p)
    ensures InI32(x)
  {
    if x > 0 {
      MulLe(x, 1, p);
    } else if x < 0 {
      MulLe(-x, 1, p);
    }
  }

  /** `%` (`raw % rhs`): the remainder of truncating division. */
  function Rem(a: Num, b: Num): Num
    requires b.raw != 0 && !(a.raw == I32_MIN && b.raw == -1)
  {
    TruncRemBounds(a.raw, b.raw);
    Num(TruncRem(a.raw, b.raw))
  }

  /** On integers `%` agrees with integer `%`. */
  lemma RemOfIntegers(i: i32, j: i32, n: Precision)
    requires j != 0 && InI32(i * Pow2(n)) && InI32(j * Pow2(n))
    requires !(i * Pow2(n) == I32_MIN && j * Pow2(n) == -1)
    ensures New(i, n).raw == i * Pow2(n) && New(j, n).raw == j * Pow2(n)
    ensures InI32(TruncRem(i, j) * Pow2(n))
    ensures Rem(New(i, n), New(j, n)) == New(TruncRem(i, j), n)
  {
    var p := Pow2(n);
    NewIsScaled(i, n);
    NewIsScaled(j, n);
    var t, m := TruncDiv(i, j), TruncRem(i, j);
    TruncDivScaled(i, j, p);
    RemRegroup(i, j, p, t);
    TruncRemBounds(i, j);
    MagnitudeMul(m, p);
    MagnitudeMul(j, p);
    StrictScale(Magnitude(m), Magnitude(j), p);
    NewIsScaled(m, n);
  }

  lemma StrictScale(x: int, y: int, p: int)
    requires 0 <= x < y && p >= 1
    ensures x * p < y * p
  {
    MulLe(p, x, y - 1);
    assert p * (y - 1) == p * y - p;
  }

  /** The remainder of the scaled division is the scaled remainder. */
  lemma RemRegroup(i: int, j: int, p: int, t: int)
    ensures i * p - (j * p) * t == (i - j * t) * p
  {
  }

  /** Scaling both operands by a positive `p` leaves the truncating quotient alone. */
  lemma TruncDivScaled(i: int, j: int, p: int)
    requires j != 0 && p >= 1
    ensures TruncDiv(i * p, j * p) == TruncDiv(i, j)
  {
    MagnitudeMul(i, p);
    MagnitudeMul(j, p);
    DivCancel(Magnitude(i), Magnitude(j), p);
  }

  /** Magnitude and sign of a product with a positive factor. */
  lemma MagnitudeMul(x: int, p: int)
    requires p >= 1
    ensures Magnitude(x * p) == Magnitude(x) * p
    ensures (x * p < 0) == (x < 0) && (x * p == 0) == (x == 0)
  {
    if x < 0 {
      assert x * p == -((-x) * p);
      MulLe(p, 1, -x);
    } else if x > 0 {
      MulLe(p, 1, x);
    }
  }

  lemma DivCancel(x: nat, y: nat, p: nat)
    requires y > 0 && p > 0
    ensures (x * p) / (y * p) == x / y
  {
    var q, r := x / y, x % y;
    assert x * p == (y * p) * q + r * p;
    MulLe(p, r, y - 1);
    ModUnique(x * p, y * p, q, r * p);
  }

  /** `rem_euclid`: the remainder moved into `0..|rhs|` when it is negative. */
  function RemEuclid(a: Num, b: Num): Num
    requires b.raw != 0 && !(a.raw == I32_MIN && b.raw == -1)
  {
    var m := Rem(a, b);
    EuclidAdjust(a.raw, b.raw);
    if m.raw < 0 then (if b.raw < 0 then Sub(m, b) else Add(m, b)) else m
  }

  /** `rem_euclid` is the least non-negative `q` with `raw = p * rhs + q` for some integer `p`. */
  lemma RemEuclidRange(a: Num, b: Num)
    requires b.raw != 0 && !(a.raw == I32_MIN && b.raw == -1)
    ensures 0 <= RemEuclid(a, b).raw < Magnitude(b.raw)
    ensures (a.raw - RemEuclid(a, b).raw) % Magnitude(b.raw) == 0
  {
    EuclidAdjust(a.raw, b.raw);
  }

  /** Moving a truncated remainder by `|b|` when it is negative gives the Euclidean remainder. */
  lemma EuclidAdjust(x: int, b: int)
    requires b != 0
    ensures var m := TruncRem(x, b);
      var r := if m < 0 then (if b < 0 then m - b else m + b) else m;
      0 <= r < Magnitude(b) && (x - r) % Magnitude(b) == 0
  {
    var m := TruncRem(x, b);
    TruncRemBounds(x, b);
    var r := if m < 0 then (if b < 0 then m - b else m + b) else m;
    var t := TruncDiv(x, b);
    assert x - m == b * t;
    if b < 0 {
      assert b * t == Magnitude(b) * -t;
      if m < 0 {
        assert x - r == Magnitude(b) * (-t - 1);
        ModUnique(x - r, Magnitude(b), -t - 1, 0);
      } else {
        ModUnique(x - r, Magnitude(b), -t, 0);
      }
    } else {
      if m < 0 {
        assert x - r == b * (t - 1);
        ModUnique(x - r, b, t - 1, 0);
      } else {
        ModUnique(x - r, b, t, 0);
      }
    }
  }

  /** The `rem_euclid` of a number with a fractional part by a non-zero integer is strictly positive. */
  lemma RemEuclidPositive(a: Num, b: Num, n: Precision)
    requires n < 31 && b.raw != 0 && !(a.raw == I32_MIN && b.raw == -1)
    requires Frac(b, n) == 0 && Frac(a, n) != 0
    ensures RemEuclid(a, b).raw > 0
  {
    RemEuclidRange(a, b);
    FracSplit(a, n);
    FracSplit(b, n);
    if RemEuclid(a, b).raw == 0 {
      ModNeg(b.raw, Pow2(n));
      ModTransitive(a.raw, Magnitude(b.raw), Pow2(n));
      assert false;
    }
  }

  /** `-x` is a multiple of `p` when `x` is. */
  lemma ModNeg(x: int, p: int)
    requires p >= 1 && x % p == 0
    ensures Magnitude(x) % p == 0
  {
    DivMod(x, p);
    if x < 0 {
      ModUnique(-x, p, -(x / p), 0);
    }
  }

  /** A multiple of a multiple of `p` is a multiple of `p`. */
  lemma ModTransitive(x: int, m: int, p: int)
    requires m >= 1 && p >= 1 && x % m == 0 && m % p == 0
    ensures x % p == 0
  {
    DivMod(x, m);
    DivMod(m, p);
    var k, j := x / m, m / p;
    assert x == p * (j * k) by {
      assert x == m * k && m == p * j;
    }
    ModUnique(x, p, j * k, 0);
  }

  /**
   * `change_base` between two `i32` precisions: shift left to gain
   * fractional bits, arithmetic shift right to drop them.
   */
  function ChangeBase(a: Num, from: Precision, to: Precision): Num
  {
    if from < to then Num(Shl(a.raw, to - from)) else Num(Shr(a.raw, from - to))
  }

  /** An integer keeps its value across a change of precision. */
  lemma ChangeBaseOfInteger(i: i32, from: Precision, to: Precision)
    requires InI32(i * Pow2(from)) && InI32(i * Pow2(to))
    ensures ChangeBase(New(i, from), from, to) == New(i, to)
  {
    NewIsScaled(i, from);
    NewIsScaled(i, to);
    if from < to {
      var d := to - from;
      Pow2Add(from, d);
      assert from + d == to;
      Regroup(i, Pow2(from), Pow2(d), Pow2(to));
      ShlLowBits(i * Pow2(from), d);
    } else {
      var d := from - to;
      Pow2Add(to, d);
      assert to + d == from;
      Regroup(i, Pow2(to), Pow2(d), Pow2(from));
      DivExactly(i * Pow2(from), Pow2(d), i * Pow2(to));
    }
  }

  lemma Regroup(i: int, x: int, y: int, z: int)
    requires z == x * y
    ensures i * x * y == i * z
  {
  }

  /** The integer square root: the `r` with `r * r <= v < (r + 1) * (r + 1)`. */
  function IntSqrt(v: nat): (r: nat)
    ensures r * r <= v < (r + 1) * (r + 1)
  {
    if v == 0 then 0
    else
      var s := IntSqrt(v - 1);
      if (s + 1) * (s + 1) <= v then s + 1 else s
  }

  /** Only one natural brackets `v` that way. */
  lemma IntSqrtUnique(v: nat, p: nat)
    requires p * p <= v < (p + 1) * (p + 1)
    ensures IntSqrt(v) == p
  {
    var r := IntSqrt(v);
    if r < p {
      SquareMonotone(r + 1, p);
    } else if r > p {
      SquareMonotone(p + 1, r);
    }
  }

  lemma SquareMonotone(a: int, b: int)
    requires 0 <= a <= b
    ensures a * a <= b * b
  {
    MulLe(a, a, b);
    MulLe(b, a, b);
  }

  /**
   * `sqrt` on `Num<i32, N>`: the digit-by-digit square root of the raw
   * value, shifted up by `N / 2`. Panics for an odd `N` or a negative number.
   */
  method Sqrt(a: Num, n: Precision) returns (r: Num)
    requires n % 2 == 0 && a.raw >= 0
    ensures r.raw == Shl(IntSqrt(a.raw), n / 2)
  {
    var v: int := a.raw;
    var d: int := 0x4000_0000;
    // `d` is `(2^k / 2)^2`, so each `d >>= 2` takes one off `k`.
    ghost var k: nat := 16;
    SqrtStart(v);
    while d > v
      invariant d == Four(k) && Above(v, k)
      decreases d
    {
      Shrink(v, k);
      d := d / 4;
      k := k - 1;
    }
    var c := RootDigits(v, d, k);
    r := Num(Shl(c, n / 2));
  }

  /** The digit loop of `sqrt`: from the highest `d = 4^j` not above `v`, every bit of the root in turn. */
  method RootDigits(v: int, d0: int, ghost k0: nat) returns (c: int)
    requires 0 <= v && d0 == Four(k0) && Above(v, k0)
    ensures c == IntSqrt(v)
  {
    var d, x := d0, v;
    c := 0;
    // `p` is the root so far, with `k` bits still to find, and `e = 2^k`.
    ghost var k, p, e := k0, 0, Pow2(k0);
    RootStart(v, k);
    while d != 0
      invariant d == Four(k) && e == Pow2(k) && RootSoFar(v, p, e, c, x)
      decreases d
    {
      Halve(k);
      ghost var h, p0, c0, x0 := Pow2(k - 1), p, c, x;
      if x >= c + d {
        x := x - (c + d);
        c := c / 2 + d;
        p := p + h;
      } else {
        c := c / 2;
      }
      NextDigit(v, p0, h, e, c0, x0, d, p, c, x);
      d := d / 4;
      k := k - 1;
      e := h;
    }
    RootDone(v, p, k, e, c, x);
  }

  /** `(2^k / 2)^2` as a recursion that `d >>= 2` follows: 0, 1, 4, 16, ... */
  ghost function Four(k: nat): (r: nat)
    ensures k >= 1 ==> r >= 1
  {
    if k == 0 then 0 else if k == 1 then 1 else 4 * Four(k - 1)
  }

  lemma {:induction false} FourIsSquare(k: nat)
    requires k >= 1
    ensures Four(k) == Pow2(k - 1) * Pow2(k - 1)
    ensures Four(k) / 4 == Four(k - 1)
  {
    if k >= 2 {
      FourIsSquare(k - 1);
      var m := Pow2(k - 2);
      assert Pow2(k - 1) == 2 * m;
      DoubleSquare(m);
    }
  }

  lemma DoubleSquare(m: int)
    ensures (2 * m) * (2 * m) == 4 * (m * m)
  {
  }

  /** The value is below `(2^k)^2`: its root has at most `k` bits. */
  ghost predicate Above(v: int, k: nat)
  {
    k <= 16 && v < Pow2(k) * Pow2(k)
  }

  /**
   * The second loop's state, with `e = 2^k`: `p` is the root found so far,
   * within `e` of the real one; `c = p * e` and `x = v - p^2` are what the
   * code keeps.
   */
  ghost predicate RootSoFar(v: int, p: int, e: int, c: int, x: int)
  {
    p >= 0 && p * p <= v < (p + e) * (p + e) && c == p * e && x == v - p * p
  }

  /** `d` starts at `1 << 30`, which is `Four(16)`, and an `i32` has a root of at most 16 bits. */
  lemma SqrtStart(v: int)
    requires 0 <= v < 0x8000_0000
    ensures Four(16) == 0x4000_0000 && Above(v, 16)
  {
    FourIsSquare(16);
    SixteenSquares();
  }

  /** `(2^15)^2 = 2^30` and `(2^16)^2 = 2^32`. */
  lemma SixteenSquares()
    ensures Pow2(15) * Pow2(15) == 0x4000_0000 && Pow2(16) * Pow2(16) == 0x1_0000_0000
  {
    Pow2Is32();
    var e := Pow2(15);
    var f := Pow2(16);
    assert e == 0x8000 && f == 0x1_0000;
  }

  lemma RootStart(v: int, k: nat)
    requires 0 <= v && Above(v, k)
    ensures RootSoFar(v, 0, Pow2(k), 0, v)
  {
  }

  /** With no bit left to find, `c` is the root. */
  lemma RootDone(v: int, p: int, k: nat, e: int, c: int, x: int)
    requires v >= 0 && Four(k) == 0 && e == Pow2(k) && RootSoFar(v, p, e, c, x)
    ensures c == IntSqrt(v)
  {
    IntSqrtUnique(v, p);
  }

  /** The first loop's step: `d` quarters and the bound on `v` carries over to one bit fewer. */
  lemma Shrink(v: int, k: nat)
    requires 0 <= v < Four(k) && Above(v, k)
    ensures k >= 1 && Four(k) / 4 == Four(k - 1) && Above(v, k - 1)
  {
    FourIsSquare(k);
  }

  /** The second loop's bookkeeping: with `d = Four(k) != 0`, `2^k = 2h` and `d = h^2` for `h = 2^(k-1)`. */
  lemma Halve(k: nat)
    requires Four(k) != 0
    ensures k >= 1 && Pow2(k) == 2 * Pow2(k - 1)
    ensures Four(k) == Pow2(k - 1) * Pow2(k - 1) && Four(k) / 4 == Four(k - 1)
  {
    FourIsSquare(k);
  }

  /**
   * One digit of the square root, with `e = 2h` and `d = h^2`: trying
   * `p + h` is the test `x >= c + d`, and either way the state holds for
   * `h` in place of `e`.
   */
  lemma NextDigit(v: int, p: int, h: int, e: int, c: int, x: int, d: int, p': int, c': int, x': int)
    requires h >= 1 && e == 2 * h && d == h * h && RootSoFar(v, p, e, c, x)
    requires x >= c + d ==> p' == p + h && c' == c / 2 + d && x' == x - (c + d)
    requires x < c + d ==> p' == p && c' == c / 2 && x' == x
    ensures RootSoFar(v, p', h, c', x')
  {
    RootDigit(v, p, h, e, c, x, d);
  }

  lemma RootDigit(v: int, p: int, h: int, e: int, c: int, x: int, d: int)
    requires h >= 1 && e == 2 * h && d == h * h && RootSoFar(v, p, e, c, x)
    ensures x >= c + d ==> RootSoFar(v, p + h, h, c / 2 + d, x - (c + d))
    ensures x < c + d ==> RootSoFar(v, p, h, c / 2, x)
  {
    assert (p + h) * (p + h) == p * p + 2 * (p * h) + h * h;
    assert c == 2 * (p * h);
    assert (p + h) * h == p * h + h * h;
    assert p + h + h == p + e;
  }

  /** `sqrt(Num::new(x * x)) == Num::new(x)`: the square root exact on perfect squares, for every even `N`. */
  lemma SqrtOfSquare(x: i32, n: Precision)
    requires n % 2 == 0 && x >= 0 && InI32(x * x) && InI32(x * x * Pow2(n))
    ensures New(x * x, n).raw == x * x * Pow2(n) >= 0
    ensures Shl(IntSqrt(New(x * x, n).raw), n / 2) == New(x, n).raw
  {
    var h := Pow2(n / 2);
    Pow2Add(n / 2, n / 2);
    assert n / 2 + n / 2 == n;
    NewIsScaled(x * x, n);
    MulLe(x, 0, x);
    MulLe(x * x, 1, Pow2(n));
    SquareRegroup(x, h, Pow2(n));
    MulLe(x, 0, h);
    SquareBelowNext(x * h);
    IntSqrtUnique(x * x * Pow2(n), x * h);
    FitsBelowSquare(x, Pow2(n));
    Regroup(x, h, h, Pow2(n));
    ShlLowBits(x * h, n / 2);
    NewIsScaled(x, n);
  }

  lemma SquareRegroup(x: int, h: int, q: int)
    requires q == h * h
    ensures x * x * q == (x * h) * (x * h)
  {
  }

  lemma SquareBelowNext(y: int)
    requires y >= 0
    ensures y * y < (y + 1) * (y + 1)
  {
  }

  /** `x * q` fits when `x * x * q` does and `x` is a natural. */
  lemma FitsBelowSquare(x: int, q: int)
    requires x >= 0 && q >= 1 && InI32(x * x * q)
    ensures InI32(x * q)
  {
    if x >= 1 {
      MulLe(x, 1, x);
      MulLe(q, x, x * x);
      MulLe(x, 0, q);
    }
  }
}
