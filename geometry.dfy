/** Polygon area as OpenCV's `contourArea` computes it (non-oriented): half
    the absolute value of the shoelace sum over the closed vertex list. The
    vertices are pixel coordinates. */
module Geometry {

  datatype Point = Point(x: int, y: int)

  /** A closed polygon given by its vertices; the last joins the first. */
  type Polygon = seq<Point>

  /** Twice the signed area of the triangle (origin, p, q). */
  function Cross(p: Point, q: Point): int
  {
    p.x * q.y - q.x * p.y
  }

  /** Sum of Cross over the edges pts[0]->pts[1], ..., pts[n-1]->first. */
  function EdgeSum(pts: seq<Point>, first: Point): int
    requires |pts| > 0
  {
    if |pts| == 1 then Cross(pts[0], first)
    else Cross(pts[0], pts[1]) + EdgeSum(pts[1..], first)
  }

  /** Twice the signed area of the polygon (0 for no vertices). */
  function ShoelaceSum(poly: Polygon): int
  {
    if |poly| == 0 then 0 else EdgeSum(poly, poly[0])
  }

  function Abs(n: int): nat
  {
    if n < 0 then -n else n
  }

  /** `cv2.contourArea(poly)` with the default `oriented=False`. */
  function ContourArea(poly: Polygon): (area: real)
    ensures area >= 0.0
    ensures area == 0.0 <==> ShoelaceSum(poly) == 0
  {
    Abs(ShoelaceSum(poly)) as real / 2.0
  }

  /** A hull with fewer than three vertices (a single pixel, a straight
      segment) encloses no area. */
  lemma DegenerateHullHasNoArea(poly: Polygon)
    requires |poly| < 3
    ensures ContourArea(poly) == 0.0
  {
    if |poly| == 2 {
      assert poly[1..][0] == poly[1];
      assert EdgeSum(poly, poly[0]) == Cross(poly[0], poly[1]) + Cross(poly[1], poly[0]);
    }
  }

  /** The corner points of an axis-aligned rectangle with its lower-left
      vertex at (x, y), traversed in the order the contour tracer emits
      them. */
  function Rectangle(x: int, y: int, w: nat, h: nat): Polygon
  {
    [Point(x, y), Point(x, y + h), Point(x + w, y + h), Point(x + w, y)]
  }

  /** The hull of a w x h rectangle of vertices has area w * h wherever it
      sits. */
  lemma RectangleArea(x: int, y: int, w: nat, h: nat)
    ensures ContourArea(Rectangle(x, y, w, h)) == (w * h) as real
  {
    var r := Rectangle(x, y, w, h);
    var first := r[0];
    assert EdgeSum(r[3..], first) == Cross(r[3], first);
    assert r[2..][1..] == r[3..];
    assert EdgeSum(r[2..], first) == Cross(r[2], r[3]) + EdgeSum(r[3..], first);
    assert r[1..][1..] == r[2..];
    assert EdgeSum(r[1..], first) == Cross(r[1], r[2]) + EdgeSum(r[2..], first);
    assert EdgeSum(r, first) == Cross(r[0], r[1]) + EdgeSum(r[1..], first);
    assert ShoelaceSum(r) == -2 * w * h;
  }
}
