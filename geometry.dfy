/** Page-space rectangles and typed field descriptors shared by every strategy. */
module Geometry {

  datatype Option<+T> = None | Some(value: T)

  /** A rectangle (x0, y0, x1, y1) in page units; y grows downwards. */
  datatype Rect = Rect(x0: real, y0: real, x1: real, y1: real)
  {
    function Width(): real { x1 - x0 }
    function Height(): real { y1 - y0 }

    /** Zero or negative extent: such a rectangle is never turned into a widget. */
    predicate IsDegenerate() { Width() <= 0.0 || Height() <= 0.0 }

    /** Every point of `other` lies in this rectangle. */
    predicate Contains(other: Rect)
    {
      x0 <= other.x0 && y0 <= other.y0 && other.x1 <= x1 && other.y1 <= y1
    }
  }

  /** The two kinds of widget the engine places. */
  datatype Kind = Checkbox | TextBox

  /** A placed, typed field: the engine's output unit. */
  datatype Field = Field(kind: Kind, rect: Rect)

  function Abs(x: real): real { if x < 0.0 then -x else x }
  function Min(a: real, b: real): real { if a <= b then a else b }
  function Max(a: real, b: real): real { if a >= b then a else b }

  /** Two non-empty rectangles whose interiors overlap. */
  predicate Intersects(a: Rect, b: Rect)
  {
    !a.IsDegenerate() && !b.IsDegenerate() &&
    a.x0 < b.x1 && b.x0 < a.x1 && a.y0 < b.y1 && b.y0 < a.y1
  }

  /** The smallest rectangle containing both arguments. */
  function Hull(a: Rect, b: Rect): (h: Rect)
    ensures h.Contains(a) && h.Contains(b)
    ensures forall r: Rect :: r.Contains(a) && r.Contains(b) ==> r.Contains(h)
  {
    Rect(Min(a.x0, b.x0), Min(a.y0, b.y0), Max(a.x1, b.x1), Max(a.y1, b.y1))
  }
}
