/**
 `VisBounds` (src/VisBounds.h): a 2D rectangle of the visibility tree and
 its `MinDist`, the distance from a point to the rectangle. Per axis the
 distance is 0 inside the closed interval `[lo, hi]` and otherwise the
 smaller of the distances to the two edges; the result is the smaller of
 the two axis distances (not their sum, whatever its doc comment says).
 */
module VisBounds {
  import VisTreeTypes

  datatype VisBounds = VisBounds(x0: int, x1: int, y0: int, y1: int)

  /** The default constructor zeroes all four edges. */
  const DefaultVisBounds: VisBounds := VisBounds(0, 0, 0, 0)

  function Abs(v: int): (r: nat)
    ensures r == v || r == -v
  {
    if v < 0 then -v else v
  }

  function Min(a: int, b: int): (r: int)
    ensures r <= a && r <= b && (r == a || r == b)
  {
    if a < b then a else b
  }

  /** Distance from `v` to the closed interval `[lo, hi]`, written as the usual reference definition. */
  function IntervalDist(v: int, lo: int, hi: int): nat
    requires lo <= hi
  {
    if v < lo then lo - v else if v > hi then v - hi else 0
  }

  /**
   One axis of `MinDist`, branch for branch. On a well-formed axis it is
   the distance to the closed interval; on an inverted one (`hi < lo`) no
   coordinate counts as inside and it is the gap to the nearer edge.
   */
  function AxisDist(v: int, lo: int, hi: int): (d: nat)
    ensures lo <= hi ==> d == IntervalDist(v, lo, hi)
    ensures hi < lo ==> d == Min(Abs(v - lo), Abs(hi - v))
  {
    var d0 := v - lo;
    var d1 := hi - v;
    if d0 >= 0 && d1 >= 0 then 0 else Min(Abs(d0), Abs(d1))
  }

  /** `MinDist(x, y)`: the smaller of the two axis distances. */
  function MinDist(b: VisBounds, x: int, y: int): (d: nat)
    ensures d <= AxisDist(x, b.x0, b.x1) && d <= AxisDist(y, b.y0, b.y1)
    ensures d == AxisDist(x, b.x0, b.x1) || d == AxisDist(y, b.y0, b.y1)
  {
    var dx := AxisDist(x, b.x0, b.x1);
    var dy := AxisDist(y, b.y0, b.y1);
    if dx < dy then dx else dy
  }

  /** On a well-formed rectangle `MinDist` is 0 exactly when one coordinate is within its closed range. */
  lemma MinDistZeroIff(b: VisBounds, x: int, y: int)
    requires b.x0 <= b.x1 && b.y0 <= b.y1
    ensures MinDist(b, x, y) == 0 <==> (b.x0 <= x <= b.x1 || b.y0 <= y <= b.y1)
  {
  }

  /** Inside the closed rectangle the distance is 0, the right and bottom edges included. */
  lemma MinDistInside(b: VisBounds, x: int, y: int)
    requires b.x0 <= x <= b.x1 && b.y0 <= y <= b.y1
    ensures MinDist(b, x, y) == 0
    ensures MinDist(b, b.x1, b.y1) == 0
  {
  }

  /**
   `MinDist` treats the high edge as part of the rectangle while
   `VisTree::Bounds::Inside` does not: the corner `(x1, y1)` is at
   distance 0 yet outside the tree's half-open bounds.
   */
  lemma ClosedUnlikeHalfOpen(b: VisBounds)
    ensures MinDist(b, b.x1, b.y1) == 0
    ensures !VisTreeTypes.Bounds(b.x0, b.x1, b.y0, b.y1).Inside(b.x1, b.y1)
  {
  }

  /** Swapping the roles of x and y (point and edges) gives the same distance. */
  lemma MinDistSymmetric(b: VisBounds, x: int, y: int)
    ensures MinDist(VisBounds(b.y0, b.y1, b.x0, b.x1), y, x) == MinDist(b, x, y)
  {
  }

  /** For the default rectangle the distance is the smaller of `|x|` and `|y|`. */
  lemma DefaultMinDist(x: int, y: int)
    ensures MinDist(DefaultVisBounds, x, y) == Min(Abs(x), Abs(y))
  {
  }
}
