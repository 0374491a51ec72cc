/** Rectangles, moves and the pixels they stand for.
    Every coordinate is half-open: a rectangle covers x1..x2 by y1..y2. */
module Geometry {

  datatype Option<+T> = None | Some(value: T)

  datatype Point = Point(x: int, y: int)

  function Min(a: int, b: int): int { if a <= b then a else b }

  function Max(a: int, b: int): int { if a >= b then a else b }

  datatype Rect = Rect(x1: int, y1: int, x2: int, y2: int) {

    function Width(): nat { if x2 > x1 then x2 - x1 else 0 }

    function Height(): nat { if y2 > y1 then y2 - y1 else 0 }

    predicate IsEmpty() { x2 <= x1 || y2 <= y1 }

    /** Whether the rectangle holds the pixel (x, y). */
    predicate Has(x: int, y: int) { x1 <= x < x2 && y1 <= y < y2 }

    /** Every empty rectangle as the one EMPTY, so they compare equal. */
    function Normalised(): (r: Rect)
      ensures forall x, y :: r.Has(x, y) <==> Has(x, y)
    {
      if IsEmpty() then EMPTY else this
    }

    function Intersection(other: Rect): (r: Rect)
      ensures forall x, y :: r.Has(x, y) <==> Has(x, y) && other.Has(x, y)
    {
      Rect(Max(x1, other.x1), Max(y1, other.y1), Min(x2, other.x2), Min(y2, other.y2)).Normalised()
    }

    /** Two rectangles intersect exactly when some pixel lies in both. */
    predicate Intersects(other: Rect)
      ensures Intersects(other) <==> exists x, y :: Has(x, y) && other.Has(x, y)
    {
      var overlap := Intersection(other);
      assert !overlap.IsEmpty() ==> overlap.Has(overlap.x1, overlap.y1);
      !overlap.IsEmpty()
    }

    /** Containment is containment of pixels: an empty other is inside everything. */
    predicate Contains(other: Rect)
      ensures Contains(other) <==> forall x, y :: other.Has(x, y) ==> Has(x, y)
    {
      assert !other.IsEmpty() ==> other.Has(other.x1, other.y1) && other.Has(other.x2 - 1, other.y2 - 1);
      other.IsEmpty() || (x1 <= other.x1 && y1 <= other.y1 && other.x2 <= x2 && other.y2 <= y2)
    }

    /** The smallest rectangle holding both; an empty side is ignored. */
    function UnionBounds(other: Rect): (r: Rect)
      ensures r.Contains(this) && r.Contains(other)
      ensures forall big: Rect :: big.Contains(this) && big.Contains(other) ==> big.Contains(r)
    {
      if IsEmpty() then other.Normalised()
      else if other.IsEmpty() then Normalised()
      else Rect(Min(x1, other.x1), Min(y1, other.y1), Max(x2, other.x2), Max(y2, other.y2))
    }

    ghost function Pixels(): iset<Point> { iset p: Point | Has(p.x, p.y) }
  }

  const EMPTY := Rect(0, 0, 0, 0)

  /** A rectangle from its corner and its size. */
  function Sized(x: int, y: int, width: nat, height: nat): Rect {
    Rect(x, y, x + width, y + height)
  }

  /** A block that moved: dst now holds what was at (srcX, srcY), a block of dst's size. */
  datatype Move = Move(srcX: int, srcY: int, dst: Rect) {

    function Src(): Rect { Sized(srcX, srcY, dst.Width(), dst.Height()) }

    /** Where the pixel that ends up at (x, y) came from. */
    function Origin(p: Point): Point { Point(srcX + p.x - dst.x1, srcY + p.y - dst.y1) }
  }
}
