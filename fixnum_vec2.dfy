/**
 * `Vector2D<T>` (agb-fixnum/src/vec2.rs): a pair of coordinates, with
 * every operation taken coordinate by coordinate. Integer vectors are
 * over unbounded `int`; the fixed-point conversions use `FixNum`.
 */
module FixVector {
  import opened Bits
  import FixNum

  datatype Vector2D<T> = Vector2D(x: T, y: T)
  {
    /** `get`: the coordinates as a pair. */
    function Get(): (T, T)
    {
      (x, y)
    }

    /** `swap`: the coordinates exchanged. */
    function Swap(): Vector2D<T>
    {
      Vector2D(y, x)
    }
  }

  type IntVector = Vector2D<int>

  function Add(a: IntVector, b: IntVector): IntVector
  {
    Vector2D(a.x + b.x, a.y + b.y)
  }

  function Sub(a: IntVector, b: IntVector): IntVector
  {
    Vector2D(a.x - b.x, a.y - b.y)
  }

  /** `vector * scalar`. */
  function Scale(a: IntVector, k: int): IntVector
  {
    Vector2D(a.x * k, a.y * k)
  }

  /** `vector / scalar`, Rust's integer division, which rounds toward zero and panics on zero. */
  function DivScalar(a: IntVector, k: int): IntVector
    requires k != 0
  {
    Vector2D(TruncDiv(a.x, k), TruncDiv(a.y, k))
  }

  function Neg(a: IntVector): IntVector
  {
    Vector2D(-a.x, -a.y)
  }

  function Abs(a: IntVector): IntVector
  {
    Vector2D(Magnitude(a.x), Magnitude(a.y))
  }

  /** `manhattan_distance`: `|x| + |y|`. */
  function ManhattanDistance(a: IntVector): int
  {
    Magnitude(a.x) + Magnitude(a.y)
  }

  function Hadamard(a: IntVector, b: IntVector): IntVector
  {
    Vector2D(a.x * b.x, a.y * b.y)
  }

  function Dot(a: IntVector, b: IntVector): int
  {
    a.x * b.x + a.y * b.y
  }

  /** The `z` component of the cross product. */
  function Cross(a: IntVector, b: IntVector): int
  {
    a.x * b.y - a.y * b.x
  }

  function MagnitudeSquared(a: IntVector): int
  {
    a.x * a.x + a.y * a.y
  }

  /** Subtraction undoes addition, and is addition of the negation. */
  lemma AddSubInverse(a: IntVector, b: IntVector)
    ensures Sub(Add(a, b), b) == a && Add(Sub(a, b), b) == a
    ensures Sub(a, b) == Add(a, Neg(b)) && Add(a, b) == Add(b, a)
  {
  }

  /** `swap` is an involution, and exchanging both vectors' coordinates keeps `dot` and negates `cross`. */
  lemma SwapInvolution<T>(a: Vector2D<T>)
    ensures a.Swap().Swap() == a
    ensures a.Swap().Get() == (a.y, a.x)
  {
  }

  lemma SwapProducts(a: IntVector, b: IntVector)
    ensures Dot(a.Swap(), b.Swap()) == Dot(a, b)
    ensures Cross(a.Swap(), b.Swap()) == -Cross(a, b)
  {
  }

  /** `dot` is symmetric and `cross` antisymmetric; a vector dotted with itself is its squared magnitude. */
  lemma ProductSymmetry(a: IntVector, b: IntVector)
    ensures Dot(a, b) == Dot(b, a) && Cross(a, b) == -Cross(b, a)
    ensures Dot(a, a) == MagnitudeSquared(a) >= 0 && Cross(a, a) == 0
  {
    SquareNonNegative(a.x);
    SquareNonNegative(a.y);
  }

  lemma SquareNonNegative(i: int)
    ensures i * i >= 0
  {
    if i < 0 {
      assert i * i == (-i) * (-i);
      MulLe(-i, 0, -i);
    } else {
      MulLe(i, 0, i);
    }
  }

  /** The Hadamard product's coordinates sum to the dot product. */
  lemma HadamardSumsToDot(a: IntVector, b: IntVector)
    ensures Hadamard(a, b).x + Hadamard(a, b).y == Dot(a, b)
    ensures Hadamard(a, b) == Hadamard(b, a)
  {
  }

  /** `manhattan_distance` is the sum of `abs`'s coordinates: never negative, zero only at the origin, and blind to sign. */
  lemma ManhattanOfAbs(a: IntVector)
    ensures ManhattanDistance(a) == Abs(a).x + Abs(a).y
    ensures Abs(a).x >= 0 && Abs(a).y >= 0 && Abs(Abs(a)) == Abs(a)
    ensures ManhattanDistance(a) >= 0 && (ManhattanDistance(a) == 0 <==> a == Vector2D(0, 0))
    ensures ManhattanDistance(Neg(a)) == ManhattanDistance(a)
  {
  }

  /** `(a * k) / k == a` for a non-zero integer `k`, as the multiplication test checks with `k = 5`. */
  lemma ScaleThenDivide(a: IntVector, k: int)
    requires k != 0
    ensures DivScalar(Scale(a, k), k) == a
  {
    TruncDivByFactor(a.x, k);
    TruncDivByFactor(a.y, k);
  }

  lemma TruncDivByFactor(i: int, k: int)
    requires k != 0
    ensures TruncDiv(i * k, k) == i
  {
    MagnitudeOfProduct(i, k);
    ModUnique(Magnitude(i) * Magnitude(k), Magnitude(k), Magnitude(i), 0);
  }

  lemma MagnitudeOfProduct(i: int, k: int)
    ensures Magnitude(i * k) == Magnitude(i) * Magnitude(k)
    ensures i * k < 0 <==> (i < 0 && k > 0) || (i > 0 && k < 0)
  {
    if i < 0 && k < 0 {
      assert i * k == (-i) * (-k);
      MulLe(-i, 1, -k);
    } else if i < 0 && k > 0 {
      assert -(i * k) == (-i) * k;
      MulLe(-i, 1, k);
    } else if i > 0 && k < 0 {
      assert -(i * k) == i * (-k);
      MulLe(i, 1, -k);
    } else if i > 0 && k > 0 {
      MulLe(i, 1, k);
    }
  }

  /** The examples of the doc comments and the tests: `dot` 76, `cross` -2, `(1, 2) * 5 == (5, 10)`. */
  lemma ProductExamples()
    ensures Dot(Vector2D(3, 5), Vector2D(7, 11)) == 76
    ensures Cross(Vector2D(3, 5), Vector2D(7, 11)) == -2
    ensures Scale(Vector2D(1, 2), 5) == Vector2D(5, 10) && DivScalar(Vector2D(5, 10), 5) == Vector2D(1, 2)
    ensures Hadamard(Vector2D(2, 3), Vector2D(4, 5)) == Vector2D(8, 15)
    ensures Vector2D(2, 3).Swap() == Vector2D(3, 2)
  {
    ScaleThenDivide(Vector2D(1, 2), 5);
  }

  type NumVector = Vector2D<FixNum.Num>

  /** `From<Vector2D<I>>`: each integer coordinate converted with `Num::new`. */
  function FromInts(v: IntVector, n: FixNum.Precision): NumVector
    requires InI32(v.x) && InI32(v.y)
  {
    Vector2D(FixNum.New(v.x, n), FixNum.New(v.y, n))
  }

  function Trunc(v: NumVector, n: FixNum.Precision): IntVector
  {
    Vector2D(FixNum.Trunc(v.x, n), FixNum.Trunc(v.y, n))
  }

  function Floor(v: NumVector, n: FixNum.Precision): IntVector
  {
    Vector2D(FixNum.Floor(v.x, n), FixNum.Floor(v.y, n))
  }

  function Round(v: NumVector, n: FixNum.Precision): IntVector
    requires n <= 30 && InI32(v.x.raw + FixNum.Half(n).raw) && InI32(v.y.raw + FixNum.Half(n).raw)
  {
    Vector2D(FixNum.Round(v.x, n), FixNum.Round(v.y, n))
  }

  /** Fixed-point vectors add with `Num`'s `+` on each coordinate. */
  function AddNum(a: NumVector, b: NumVector): NumVector
    requires InI32(a.x.raw + b.x.raw) && InI32(a.y.raw + b.y.raw)
  {
    Vector2D(FixNum.Add(a.x, b.x), FixNum.Add(a.y, b.y))
  }

  /** Every coordinate of `floor` is the largest integer not above it. */
  lemma FloorBrackets(v: NumVector, n: FixNum.Precision)
    ensures Pow2(n) * Floor(v, n).x <= v.x.raw < Pow2(n) * (Floor(v, n).x + 1)
    ensures Pow2(n) * Floor(v, n).y <= v.y.raw < Pow2(n) * (Floor(v, n).y + 1)
  {
    FixNum.FloorBounds(v.x, n);
    FixNum.FloorBounds(v.y, n);
  }

  /** Every coordinate of `trunc` is rounded toward zero: its magnitude is the floor of the coordinate's. */
  lemma TruncTowardZero(v: NumVector, n: FixNum.Precision)
    requires n < 31
    ensures Pow2(n) * Magnitude(Trunc(v, n).x) <= Magnitude(v.x.raw) < Pow2(n) * (Magnitude(Trunc(v, n).x) + 1)
    ensures Pow2(n) * Magnitude(Trunc(v, n).y) <= Magnitude(v.y.raw) < Pow2(n) * (Magnitude(Trunc(v, n).y) + 1)
  {
    FixNum.TruncTowardZero(v.x, n);
    FixNum.TruncTowardZero(v.y, n);
  }

  /** Every coordinate of `round` is within half a unit of the coordinate. */
  lemma RoundNearest(v: NumVector, n: FixNum.Precision)
    requires 1 <= n <= 30 && InI32(v.x.raw + FixNum.Half(n).raw) && InI32(v.y.raw + FixNum.Half(n).raw)
    ensures Pow2(n) * Round(v, n).x - Pow2(n - 1) <= v.x.raw < Pow2(n) * Round(v, n).x + Pow2(n - 1)
    ensures Pow2(n) * Round(v, n).y - Pow2(n - 1) <= v.y.raw < Pow2(n) * Round(v, n).y + Pow2(n - 1)
  {
    FixNum.RoundNearest(v.x, n);
    FixNum.RoundNearest(v.y, n);
  }

  /** Converting an integer vector to fixed point and back with `trunc` or `floor` gives it back. */
  lemma IntegerVectorRoundTrip(v: IntVector, n: FixNum.Precision)
    requires n < 31 && InI32(v.x) && InI32(v.y) && InI32(v.x * Pow2(n)) && InI32(v.y * Pow2(n))
    ensures Trunc(FromInts(v, n), n) == v && Floor(FromInts(v, n), n) == v
  {
    FixNum.IntegerRoundTrip(v.x, n);
    FixNum.IntegerRoundTrip(v.y, n);
  }

  /** Adding converted vectors is converting their sum: `v1 + v1 == (v2 + v2).into()` in the vector test. */
  lemma AddOfIntegerVectors(v: IntVector, w: IntVector, n: FixNum.Precision)
    requires InI32(v.x) && InI32(v.y) && InI32(w.x) && InI32(w.y) && InI32(v.x + w.x) && InI32(v.y + w.y)
    requires InI32(v.x * Pow2(n)) && InI32(v.y * Pow2(n)) && InI32(w.x * Pow2(n)) && InI32(w.y * Pow2(n))
    requires InI32((v.x + w.x) * Pow2(n)) && InI32((v.y + w.y) * Pow2(n))
    ensures InI32(FromInts(v, n).x.raw + FromInts(w, n).x.raw) && InI32(FromInts(v, n).y.raw + FromInts(w, n).y.raw)
    ensures AddNum(FromInts(v, n), FromInts(w, n)) == FromInts(Add(v, w), n)
  {
    FixNum.AddIntegers(v.x, w.x, n);
    FixNum.AddIntegers(v.y, w.y, n);
  }

  /** The vector test's `(1, 2)` at eight fractional bits: `trunc` gives `(1, 2)` back and the sum is `(2, 4)` converted. */
  lemma VectorChangingExample()
    ensures Trunc(FromInts(Vector2D(1, 2), 8), 8) == Vector2D(1, 2)
    ensures AddNum(FromInts(Vector2D(1, 2), 8), FromInts(Vector2D(1, 2), 8)) == FromInts(Vector2D(2, 4), 8)
  {
    Pow2Is32();
    var p := Pow2(8);
    assert 1 * p == 0x100 && 2 * p == 0x200 && 4 * p == 0x400;
    IntegerVectorRoundTrip(Vector2D(1, 2), 8);
    AddOfIntegerVectors(Vector2D(1, 2), Vector2D(1, 2), 8);
  }
}
