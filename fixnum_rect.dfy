/**
 * `Rect<T>` (agb-fixnum/src/rect.rs): a rectangle given by its top-left
 * position and its size, over unbounded integers. Containment counts the
 * boundary; `touches` uses strict comparisons, so two rectangles that only
 * share an edge share points but do not touch.
 */
module FixRect {
  import opened Wrappers
  import opened Bits
  import opened FixVector

  datatype Rect = Rect(position: IntVector, size: IntVector)

  function TopLeft(r: Rect): IntVector
  {
    r.position
  }

  function TopRight(r: Rect): IntVector
  {
    Add(r.position, Vector2D(r.size.x, 0))
  }

  function BottomLeft(r: Rect): IntVector
  {
    Add(r.position, Vector2D(0, r.size.y))
  }

  function BottomRight(r: Rect): IntVector
  {
    Add(r.position, r.size)
  }

  /** `contains_point`: inclusive on all four sides. */
  predicate ContainsPoint(r: Rect, p: IntVector)
  {
    r.position.x <= p.x <= r.position.x + r.size.x && r.position.y <= p.y <= r.position.y + r.size.y
  }

  /** `touches`: the two open extents overlap on both axes. */
  predicate Touches(r: Rect, o: Rect)
  {
    r.position.x < o.position.x + o.size.x && r.position.x + r.size.x > o.position.x
    && r.position.y < o.position.y + o.size.y && r.position.y + r.size.y > o.position.y
  }

  function Max(a: int, b: int): int
  {
    if a > b then a else b
  }

  function Min(a: int, b: int): int
  {
    if a > b then b else a
  }

  /** `overlapping_rect`: `None` unless the rectangles touch, else the span from the larger top-left to the smaller bottom-right. */
  function OverlappingRect(r: Rect, o: Rect): Option<Rect>
  {
    if !Touches(r, o) then None
    else
      var topLeft := Vector2D(Max(r.position.x, o.position.x), Max(r.position.y, o.position.y));
      var bottomRight := Vector2D(Min(r.position.x + r.size.x, o.position.x + o.size.x), Min(r.position.y + r.size.y, o.position.y + o.size.y));
      Some(Rect(topLeft, Sub(bottomRight, topLeft)))
  }

  /** Rust's `Ord::clamp`, which panics when `lo > hi`. */
  function Clamp(v: int, lo: int, hi: int): (r: int)
    requires lo <= hi
    ensures lo <= r <= hi
    ensures lo <= v <= hi ==> r == v
    ensures r == v || r == lo || r == hi
  {
    if v < lo then lo else if v > hi then hi else v
  }

  /** `clamp_point`: each coordinate clamped between the top-left and bottom-right corners. */
  function ClampPoint(r: Rect, p: IntVector): IntVector
    requires r.size.x >= 0 && r.size.y >= 0
  {
    Vector2D(Clamp(p.x, TopLeft(r).x, BottomRight(r).x), Clamp(p.y, TopLeft(r).y, BottomRight(r).y))
  }

  /** `abs`: the same region with a non-negative size, the position moved to the smaller corner. */
  function AbsRect(r: Rect): Rect
  {
    Rect(Vector2D(r.position.x + Min(r.size.x, 0), r.position.y + Min(r.size.y, 0)), Abs(r.size))
  }

  /** With a non-negative size all four corners are inside, the boundary counting. */
  lemma CornersInside(r: Rect)
    requires r.size.x >= 0 && r.size.y >= 0
    ensures ContainsPoint(r, TopLeft(r)) && ContainsPoint(r, TopRight(r))
    ensures ContainsPoint(r, BottomLeft(r)) && ContainsPoint(r, BottomRight(r))
    ensures !ContainsPoint(r, Add(BottomRight(r), Vector2D(1, 0))) && !ContainsPoint(r, Add(TopLeft(r), Vector2D(0, -1)))
  {
  }

  /** The doc examples of `contains_point` on the rectangle at (1, 1) of size (3, 3), and of the corners. */
  lemma ContainsExamples()
    ensures var r := Rect(Vector2D(1, 1), Vector2D(3, 3));
      ContainsPoint(r, Vector2D(1, 1)) && ContainsPoint(r, Vector2D(2, 2)) && ContainsPoint(r, Vector2D(3, 3)) && ContainsPoint(r, Vector2D(4, 4))
      && !ContainsPoint(r, Vector2D(0, 2)) && !ContainsPoint(r, Vector2D(5, 2)) && !ContainsPoint(r, Vector2D(2, 0)) && !ContainsPoint(r, Vector2D(2, 5))
    ensures var r := Rect(Vector2D(10, 10), Vector2D(10, 10));
      TopLeft(r) == Vector2D(10, 10) && TopRight(r) == Vector2D(20, 10) && BottomLeft(r) == Vector2D(10, 20) && BottomRight(r) == Vector2D(20, 20)
  {
  }

  /** `touches` is symmetric, and a rectangle touches itself exactly when both sides are positive. */
  lemma TouchesSymmetric(r: Rect, o: Rect)
    ensures Touches(r, o) == Touches(o, r)
    ensures Touches(r, r) <==> r.size.x > 0 && r.size.y > 0
  {
  }

  /** Rectangles that share only an edge have a common point but do not touch. */
  lemma SharedEdgeDoesNotTouch()
    ensures var a, b := Rect(Vector2D(0, 0), Vector2D(1, 1)), Rect(Vector2D(1, 0), Vector2D(1, 1));
      !Touches(a, b) && ContainsPoint(a, Vector2D(1, 0)) && ContainsPoint(b, Vector2D(1, 0)) && OverlappingRect(a, b) == None
  {
  }

  /**
   * `overlapping_rect` is `None` exactly when the rectangles do not touch;
   * otherwise, for rectangles with non-negative sizes, it has a
   * non-negative size and holds exactly the points both rectangles hold.
   */
  lemma OverlapIsIntersection(r: Rect, o: Rect)
    requires r.size.x >= 0 && r.size.y >= 0 && o.size.x >= 0 && o.size.y >= 0
    ensures OverlappingRect(r, o).None? <==> !Touches(r, o)
    ensures OverlappingRect(r, o).Some? ==> OverlappingRect(r, o).value.size.x >= 0 && OverlappingRect(r, o).value.size.y >= 0
    ensures OverlappingRect(r, o).Some? ==> forall p :: ContainsPoint(OverlappingRect(r, o).value, p) <==> ContainsPoint(r, p) && ContainsPoint(o, p)
  {
  }

  /** The doc examples of `touches` and `overlapping_rect`. */
  lemma OverlapExamples()
    ensures var r, r1, r2 := Rect(Vector2D(1, 1), Vector2D(3, 3)), Rect(Vector2D(2, 2), Vector2D(3, 3)), Rect(Vector2D(-10, -10), Vector2D(3, 3));
      Touches(r, r) && Touches(r, r1) && !Touches(r, r2)
      && OverlappingRect(r, r1) == Some(Rect(Vector2D(2, 2), Vector2D(2, 2))) && OverlappingRect(r, r2) == None
  {
  }

  /** `clamp_point` lands inside the rectangle, leaves points already inside alone, and moves a coordinate only onto the nearer edge. */
  lemma ClampLandsInside(r: Rect, p: IntVector)
    requires r.size.x >= 0 && r.size.y >= 0
    ensures ContainsPoint(r, ClampPoint(r, p))
    ensures ContainsPoint(r, p) ==> ClampPoint(r, p) == p
    ensures ClampPoint(r, p).x != p.x ==> ClampPoint(r, p).x == (if p.x < r.position.x then r.position.x else r.position.x + r.size.x)
    ensures ClampPoint(r, p).y != p.y ==> ClampPoint(r, p).y == (if p.y < r.position.y then r.position.y else r.position.y + r.size.y)
  {
  }

  /** The doc examples of `clamp_point` on the rectangle at (10, 10) of size (10, 10). */
  lemma ClampExamples()
    ensures var r := Rect(Vector2D(10, 10), Vector2D(10, 10));
      ClampPoint(r, Vector2D(15, 15)) == Vector2D(15, 15) && ClampPoint(r, Vector2D(0, 15)) == Vector2D(10, 15)
      && ClampPoint(r, Vector2D(100, 30)) == Vector2D(20, 20)
  {
  }

  /** `v` lies between `a` and `b`, in whichever order they come. */
  predicate Between(v: int, a: int, b: int)
  {
    Min(a, b) <= v <= Max(a, b)
  }

  /** `abs` has a non-negative size and spans the same points as the original between its two corners; a rectangle already non-negative is unchanged. */
  lemma AbsCoversSameRegion(r: Rect)
    ensures AbsRect(r).size.x >= 0 && AbsRect(r).size.y >= 0
    ensures forall p :: ContainsPoint(AbsRect(r), p) <==> Between(p.x, r.position.x, r.position.x + r.size.x) && Between(p.y, r.position.y, r.position.y + r.size.y)
    ensures r.size.x >= 0 && r.size.y >= 0 ==> AbsRect(r) == r
    ensures AbsRect(AbsRect(r)) == AbsRect(r)
  {
  }

  /** The row `y` from column `x` to `last`, left to right. */
  function RowFrom(x: int, last: int, y: int): seq<IntVector>
    decreases last + 1 - x
  {
    if x > last then [] else [Vector2D(x, y)] + RowFrom(x + 1, last, y)
  }

  /** `count` full rows of `r` from row `y` on, top to bottom. */
  function Rows(r: Rect, y: int, count: nat): seq<IntVector>
    decreases count
  {
    if count == 0 then [] else RowFrom(r.position.x, r.position.x + r.size.x, y) + Rows(r, y + 1, count - 1)
  }

  /**
   * What `iter`'s closure still yields from the state `(x, y)`, one call at a
   * time: past the right edge it moves to the next row's first column, and
   * stops once that row is past the bottom edge.
   */
  function Remaining(r: Rect, x: int, y: int): seq<IntVector>
    decreases if y < r.position.y + r.size.y then r.position.y + r.size.y - y else 0, if x <= r.position.x + r.size.x + 1 then r.position.x + r.size.x + 1 - x else 0
  {
    if x > r.position.x + r.size.x then
      if y + 1 > r.position.y + r.size.y then [] else [Vector2D(r.position.x, y + 1)] + Remaining(r, r.position.x + 1, y + 1)
    else
      [Vector2D(x, y)] + Remaining(r, x + 1, y)
  }

  /** Everything `iter` yields: the closure's output from the starting state. */
  function Points(r: Rect): seq<IntVector>
  {
    Remaining(r, r.position.x, r.position.y)
  }

  /** From inside a row, the closure finishes the row and then yields each full row below it down to the bottom edge. */
  lemma {:induction false} RemainingRows(r: Rect, x: int, y: int)
    requires r.size.x >= 0 && r.position.x <= x <= r.position.x + r.size.x + 1 && y <= r.position.y + r.size.y
    ensures Remaining(r, x, y) == RowFrom(x, r.position.x + r.size.x, y) + Rows(r, y + 1, r.position.y + r.size.y - y)
    decreases r.position.y + r.size.y - y, r.position.x + r.size.x + 1 - x
  {
    var last := r.position.x + r.size.x;
    if x > last {
      if y + 1 > r.position.y + r.size.y {
      } else {
        RemainingRows(r, r.position.x + 1, y + 1);
        assert RowFrom(r.position.x, last, y + 1) == [Vector2D(r.position.x, y + 1)] + RowFrom(r.position.x + 1, last, y + 1);
      }
    } else {
      RemainingRows(r, x + 1, y);
    }
  }

  /** `iter` over a rectangle with a non-negative size yields its `h + 1` rows of `w + 1` points, top to bottom, each left to right. */
  lemma PointsAreRows(r: Rect)
    requires r.size.x >= 0 && r.size.y >= 0
    ensures Points(r) == Rows(r, r.position.y, r.size.y + 1)
  {
    RemainingRows(r, r.position.x, r.position.y);
  }

  lemma {:induction false} RowFromLength(x: int, last: int, y: int)
    ensures |RowFrom(x, last, y)| == if x > last then 0 else last + 1 - x
    ensures forall i :: 0 <= i < |RowFrom(x, last, y)| ==> RowFrom(x, last, y)[i] == Vector2D(x + i, y)
    decreases last + 1 - x
  {
    if x <= last {
      RowFromLength(x + 1, last, y);
    }
  }

  /** The `i`-th point, in row-major order, of rows `w` wide whose first point is `(x0, y0)`. */
  function RowMajor(x0: int, y0: int, w: int, i: int): IntVector
    requires w > 0
  {
    Vector2D(x0 + i % w, y0 + i / w)
  }

  lemma RowMajorFirstRow(x0: int, y0: int, w: int, i: int)
    requires 0 <= i < w
    ensures RowMajor(x0, y0, w, i) == Vector2D(x0 + i, y0)
  {
    ModUnique(i, w, 0, i);
  }

  lemma RowMajorNextRow(x0: int, y0: int, w: int, i: int)
    requires 0 < w <= i
    ensures RowMajor(x0, y0, w, i) == RowMajor(x0, y0 + 1, w, i - w)
  {
    ModUnique(i, w, (i - w) / w + 1, (i - w) % w);
  }

  /** `count` rows of `w + 1` points hold `count * (w + 1)` points, the `i`-th at column `i % (w + 1)` of row `i / (w + 1)`. */
  lemma {:induction false} RowsLayout(r: Rect, y: int, count: nat)
    requires r.size.x >= 0
    ensures |Rows(r, y, count)| == count * (r.size.x + 1)
    ensures forall i :: 0 <= i < |Rows(r, y, count)| ==> Rows(r, y, count)[i] == RowMajor(r.position.x, y, r.size.x + 1, i)
    decreases count
  {
    var w := r.size.x + 1;
    if count > 0 {
      RowFromLength(r.position.x, r.position.x + r.size.x, y);
      RowsLayout(r, y + 1, count - 1);
      var rows, row, rest := Rows(r, y, count), RowFrom(r.position.x, r.position.x + r.size.x, y), Rows(r, y + 1, count - 1);
      assert rows == row + rest;
      assert |rows| == count * w by {
        assert count * w == w + (count - 1) * w;
      }
      forall i | 0 <= i < |rows|
        ensures rows[i] == RowMajor(r.position.x, y, w, i)
      {
        if i < w {
          RowMajorFirstRow(r.position.x, y, w, i);
          assert rows[i] == row[i];
        } else {
          RowMajorNextRow(r.position.x, y, w, i);
          assert rows[i] == rest[i - w];
        }
      }
    }
  }

  /**
   * `iter` with a non-negative size yields `(w + 1) * (h + 1)` points in
   * row-major order: the `i`-th is `(x + i % (w + 1), y + i / (w + 1))`,
   * and a point is yielded exactly when the rectangle contains it.
   */
  lemma PointsRowMajor(r: Rect)
    requires r.size.x >= 0 && r.size.y >= 0
    ensures |Points(r)| == (r.size.x + 1) * (r.size.y + 1)
    ensures forall i :: 0 <= i < |Points(r)| ==> Points(r)[i] == RowMajor(r.position.x, r.position.y, r.size.x + 1, i)
    ensures forall p :: p in Points(r) <==> ContainsPoint(r, p)
  {
    PointsLayout(r);
    forall p
      ensures p in Points(r) <==> ContainsPoint(r, p)
    {
      PointMembership(r, p);
    }
  }

  lemma PointsLayout(r: Rect)
    requires r.size.x >= 0 && r.size.y >= 0
    ensures |Points(r)| == (r.size.x + 1) * (r.size.y + 1)
    ensures forall i :: 0 <= i < |Points(r)| ==> Points(r)[i] == RowMajor(r.position.x, r.position.y, r.size.x + 1, i)
  {
    PointsAreRows(r);
    RowsLayout(r, r.position.y, r.size.y + 1);
    assert (r.size.y + 1) * (r.size.x + 1) == (r.size.x + 1) * (r.size.y + 1);
  }

  lemma PointMembership(r: Rect, p: IntVector)
    requires r.size.x >= 0 && r.size.y >= 0
    ensures p in Points(r) <==> ContainsPoint(r, p)
  {
    PointsLayout(r);
    var w := r.size.x + 1;
    var h := r.size.y + 1;
    assert w * h == h * w;
    if ContainsPoint(r, p) {
      var i := (p.y - r.position.y) * w + (p.x - r.position.x);
      IndexOfPoint(p.x - r.position.x, p.y - r.position.y, w, h);
      assert Points(r)[i] == p;
    }
    if p in Points(r) {
      var i :| 0 <= i < |Points(r)| && Points(r)[i] == p;
      PointOfIndex(i, w, h);
    }
  }

  /** The point at row `b`, column `a` is at index `b * w + a`. */
  lemma IndexOfPoint(a: int, b: int, w: int, h: int)
    requires 0 <= a < w && 0 <= b < h
    ensures 0 <= b * w + a < h * w && (b * w + a) % w == a && (b * w + a) / w == b
  {
    MulLe(w, b + 1, h);
    assert (b + 1) * w == b * w + w;
    assert w * h == h * w;
    ModUnique(b * w + a, w, b, a);
  }

  /** An index below `h * w` splits into a column below `w` and a row below `h`. */
  lemma PointOfIndex(i: int, w: int, h: int)
    requires w >= 1 && 0 <= i < h * w
    ensures 0 <= i % w < w && 0 <= i / w < h
  {
    var q := i / w;
    DivMod(i, w);
    assert w * h == h * w;
    if q >= h {
      MulLe(w, h, q);
      assert false;
    }
    if q < 0 {
      MulLe(w, q, -1);
      assert false;
    }
  }

  /** The test's rectangle at (5, 5) of size (2, 2) yields the nine points row by row. */
  lemma IterExample()
    ensures Points(Rect(Vector2D(5, 5), Vector2D(2, 2))) == [
      Vector2D(5, 5), Vector2D(6, 5), Vector2D(7, 5),
      Vector2D(5, 6), Vector2D(6, 6), Vector2D(7, 6),
      Vector2D(5, 7), Vector2D(6, 7), Vector2D(7, 7)]
  {
    var r := Rect(Vector2D(5, 5), Vector2D(2, 2));
    PointsAreRows(r);
    assert RowFrom(5, 7, 5) == [Vector2D(5, 5), Vector2D(6, 5), Vector2D(7, 5)];
    assert RowFrom(5, 7, 6) == [Vector2D(5, 6), Vector2D(6, 6), Vector2D(7, 6)];
    assert RowFrom(5, 7, 7) == [Vector2D(5, 7), Vector2D(6, 7), Vector2D(7, 7)];
  }

  /**
   * The iterator `iter` returns: the rectangle and the closure's two
   * captured counters `x` and `y`, which each call updates in place.
   */
  class RectIter {
    const rect: Rect
    var x: int
    var y: int

    constructor (r: Rect)
      ensures rect == r && x == r.position.x && y == r.position.y
    {
      rect := r;
      x := r.position.x;
      y := r.position.y;
    }

    /** What the iterator yields from here on. */
    function Rest(): seq<IntVector>
      reads this
    {
      Remaining(rect, x, y)
    }

    /** One call of the closure: it yields the head of `Rest()` and moves to the state that yields the tail. */
    method Next() returns (p: Option<IntVector>)
      modifies this
      ensures old(Rest()) == [] <==> p == None
      ensures p.Some? ==> old(Rest()) == [p.value] + Rest()
      ensures p.None? ==> x == rect.position.x && y == old(y) + 1
    {
      if x > rect.position.x + rect.size.x {
        x := rect.position.x;
        y := y + 1;
        if y > rect.position.y + rect.size.y {
          return None;
        }
      }
      var retX := x;
      x := x + 1;
      p := Some(Vector2D(retX, y));
    }
  }

  /** `r.iter().collect()`: the iterator drained until it yields `None`. */
  method Collect(r: Rect) returns (points: seq<IntVector>)
    ensures points == Points(r)
  {
    var it := new RectIter(r);
    points := [];
    var done := false;
    while !done
      invariant it.rect == r
      invariant !done ==> points + it.Rest() == Points(r)
      invariant done ==> points == Points(r)
      decreases if done then 0 else 1, |it.Rest()|
    {
      var p := it.Next();
      if p.None? {
        done := true;
      } else {
        points := points + [p.value];
      }
    }
  }
}
