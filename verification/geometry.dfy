/**
 * Real-valued plane geometry shared by the layout and the touch handling:
 * offsets, rectangles, clamping, and the truncating integer conversion
 * that Swift applies when it turns a `CGFloat` into an `Int`.
 */
module Geometry {

  /** A `UIOffset`: a horizontal and a vertical displacement. */
  datatype Offset = Offset(horizontal: real, vertical: real)

  /** A `CGPoint`. */
  datatype Point = Point(x: real, y: real)

  /** A `CGRect` given by its origin and size. */
  datatype Rect = Rect(x: real, y: real, width: real, height: real)

  function Max(a: real, b: real): (r: real)
    ensures r >= a && r >= b
    ensures r == a || r == b
  {
    if a >= b then a else b
  }

  function Min(a: real, b: real): (r: real)
    ensures r <= a && r <= b
    ensures r == a || r == b
  {
    if a <= b then a else b
  }

  /** `Int(x)` for a `CGFloat` x: the integer part, truncated toward zero. */
  function Trunc(x: real): (r: int)
    ensures x >= 0.0 ==> 0 <= r && r as real <= x < r as real + 1.0
    ensures x < 0.0 ==> r <= 0 && r as real - 1.0 < x <= r as real
  {
    if x >= 0.0 then x.Floor else -((-x).Floor)
  }

  /**
   * `CGRect.contains(_:)` for a rectangle of non-negative size: the
   * minimum edges are inside, the maximum edges are not.
   */
  predicate Contains(r: Rect, p: Point)
  {
    r.x <= p.x < r.x + r.width && r.y <= p.y < r.y + r.height
  }

  /** `x` kept within `[lo, hi]`. */
  function Clamp(x: real, lo: real, hi: real): (r: real)
    requires lo <= hi
    ensures lo <= r <= hi
    ensures lo <= x <= hi ==> r == x
    ensures x <= lo ==> r == lo
    ensures x >= hi ==> r == hi
  {
    Max(lo, Min(x, hi))
  }

  /** Multiplying by a positive number keeps order. */
  lemma MulMonotone(a: real, b: real, c: real)
    requires a <= b && c > 0.0
    ensures a * c <= b * c
    ensures a < b ==> a * c < b * c
  {
  }

  /** The same for naturals, where any factor keeps order. */
  lemma MulMonotoneNat(a: nat, b: nat, c: nat)
    requires a <= b
    ensures a * c <= b * c
  {
  }

  /** Dividing out a positive factor keeps the order of whole numbers. */
  lemma WholeCancel(k: int, m: int, c: real, h: real)
    requires c > 0.0 && k as real * c <= h && h < m as real * c
    ensures k < m
  {
  }

  /** Dividing out a positive factor keeps order. */
  lemma MulCancelLe(a: real, b: real, c: real)
    requires c > 0.0 && a * c <= b * c
    ensures a <= b
  {
  }

  /** Dividing by a positive number keeps order. */
  lemma DivMonotone(a: real, b: real, c: real)
    requires c > 0.0 && a <= b
    ensures a / c <= b / c
  {
  }

  lemma FloorMonotone(a: real, b: real)
    requires a <= b
    ensures a.Floor <= b.Floor
  {
    assert a.Floor as real <= a;
    assert b < b.Floor as real + 1.0;
  }
}
