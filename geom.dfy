/**
 * Integer points and rectangles with the semantics of Go's image.Point and
 * image.Rectangle, as used by Dither211.Draw and dither211 in quant.go.
 * A rectangle holds the points p with Min.X <= p.X < Max.X and
 * Min.Y <= p.Y < Max.Y (the maximum corner is exclusive).
 */
module Geom {

  datatype Point = Point(x: int, y: int) {

    /** Point.Add: componentwise sum. */
    function Add(q: Point): Point {
      Point(x + q.x, y + q.y)
    }

    /** Point.Sub: componentwise difference. */
    function Sub(q: Point): (d: Point)
      ensures d.Add(q) == this
    {
      Point(x - q.x, y - q.y)
    }
  }

  datatype Rect = Rect(min: Point, max: Point) {

    function Dx(): int { max.x - min.x }

    function Dy(): int { max.y - min.y }

    /** The bounds of an image: Min is never past Max. */
    predicate WellFormed() {
      min.x <= max.x && min.y <= max.y
    }

    /** Rectangle.Empty: no point lies inside. */
    predicate Empty() {
      min.x >= max.x || min.y >= max.y
    }

    /** Point.In(r): the point lies inside the rectangle. */
    predicate Has(p: Point) {
      min.x <= p.x < max.x && min.y <= p.y < max.y
    }

    /** Rectangle.Add: the rectangle translated by p. */
    function Add(p: Point): (t: Rect)
      ensures t.Dx() == Dx() && t.Dy() == Dy()
      ensures forall q {:trigger t.Has(q)} {:trigger Has(q.Sub(p))} :: t.Has(q) <==> Has(q.Sub(p))
    {
      Rect(min.Add(p), max.Add(p))
    }

    /**
     * Rectangle.Intersect: the largest rectangle inside both, or the zero
     * rectangle when they do not overlap.
     */
    function Intersect(s: Rect): (t: Rect)
      ensures forall q :: t.Has(q) <==> Has(q) && s.Has(q)
      ensures t.Empty() ==> t == ZR
      ensures t.WellFormed()
    {
      var c := Rect(Point(if min.x < s.min.x then s.min.x else min.x,
                          if min.y < s.min.y then s.min.y else min.y),
                    Point(if max.x > s.max.x then s.max.x else max.x,
                          if max.y > s.max.y then s.max.y else max.y));
      if c.Empty() then ZR else c
    }

    /** Rectangle.Eq: the same rectangle, or both empty. */
    predicate Eq(s: Rect) {
      this == s || (Empty() && s.Empty())
    }
  }

  /** image.ZR, the zero rectangle. */
  const ZR := Rect(Point(0, 0), Point(0, 0))

  /** A rectangle is empty exactly when it holds no point. */
  lemma EmptyIffNoPoint(r: Rect)
    ensures r.Empty() <==> forall q :: !r.Has(q)
  {
    if !r.Empty() {
      assert r.Has(r.min);
    }
  }

  /** Rectangle.Eq holds exactly when both rectangles hold the same points. */
  lemma EqIffSamePoints(a: Rect, b: Rect)
    ensures a.Eq(b) <==> forall q :: a.Has(q) <==> b.Has(q)
  {
    if forall q :: a.Has(q) <==> b.Has(q) {
      EmptyIffNoPoint(a);
      EmptyIffNoPoint(b);
      if !a.Empty() {
        assert b.Has(a.min);
        assert b.Has(Point(a.max.x - 1, a.max.y - 1));
        assert a.Has(b.min);
        assert a.Has(Point(b.max.x - 1, b.max.y - 1));
      }
    }
  }
}
