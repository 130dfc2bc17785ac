/** Per-triangle setup helpers of the rasterizer: edge function, signed area,
    clamped integer bounding box and the top-left edge classification.
    Screen space is y-down; coordinates are exact reals. */
module TriangleSetup {
  import opened Numeric
  import opened Vec

  /** E(a, b, p) = cross(b - a, p - a). */
  function EdgeFunction(a: Vec2, b: Vec2, p: Vec2): real {
    (b.x - a.x) * (p.y - a.y) - (b.y - a.y) * (p.x - a.x)
  }

  /** Twice the signed area of the triangle; positive for clockwise
      vertices on a y-down screen. */
  function SignedArea(v0: Vec2, v1: Vec2, v2: Vec2): real {
    EdgeFunction(v0, v1, v2)
  }

  /** For a rightward edge, points below it (larger y) are on the positive side. */
  lemma EdgeSignRightward(a: Vec2, b: Vec2, p: Vec2)
    requires b.y == a.y && b.x > a.x
    ensures EdgeFunction(a, b, p) > 0.0 <==> p.y > a.y
    ensures EdgeFunction(a, b, p) < 0.0 <==> p.y < a.y
  {
    assert EdgeFunction(a, b, p) == (b.x - a.x) * (p.y - a.y);
  }

  /** Reversing an edge negates the edge function; both end points lie on it. */
  lemma EdgeReverse(a: Vec2, b: Vec2, p: Vec2)
    ensures EdgeFunction(b, a, p) == -EdgeFunction(a, b, p)
    ensures EdgeFunction(a, b, a) == 0.0 && EdgeFunction(a, b, b) == 0.0
  {
  }

  /** Swapping two vertices negates the signed area, rotating them keeps it. */
  lemma AreaSwapRotate(v0: Vec2, v1: Vec2, v2: Vec2)
    ensures SignedArea(v0, v2, v1) == -SignedArea(v0, v1, v2)
    ensures SignedArea(v1, v2, v0) == SignedArea(v0, v1, v2)
    ensures SignedArea(v2, v0, v1) == SignedArea(v0, v1, v2)
  {
  }

  /** Collinear vertices have zero area. */
  lemma CollinearZeroArea(v0: Vec2, v1: Vec2, t: real)
    ensures SignedArea(v0, v1, Vec2(v0.x + t * (v1.x - v0.x), v0.y + t * (v1.y - v0.y))) == 0.0
  {
  }

  /** The three edge values at any point add up to the signed area. */
  lemma EdgeSum(p0: Vec2, p1: Vec2, p2: Vec2, p: Vec2)
    ensures EdgeFunction(p1, p2, p) + EdgeFunction(p2, p0, p) + EdgeFunction(p0, p1, p)
            == SignedArea(p0, p1, p2)
  {
  }

  /** The edge values are the unnormalised barycentric weights of `p`. */
  lemma EdgeWeights(p0: Vec2, p1: Vec2, p2: Vec2, p: Vec2)
    ensures EdgeFunction(p1, p2, p) * p0.x + EdgeFunction(p2, p0, p) * p1.x + EdgeFunction(p0, p1, p) * p2.x
            == SignedArea(p0, p1, p2) * p.x
    ensures EdgeFunction(p1, p2, p) * p0.y + EdgeFunction(p2, p0, p) * p1.y + EdgeFunction(p0, p1, p) * p2.y
            == SignedArea(p0, p1, p2) * p.y
  {
  }

  /** An inclusive integer pixel range; empty when min > max on an axis. */
  datatype BBox = BBox(minX: int, minY: int, maxX: int, maxY: int)

  function Min3(a: real, b: real, c: real): real { RMin(RMin(a, b), c) }
  function Max3(a: real, b: real, c: real): real { RMax(RMax(a, b), c) }

  /** floor(min corner) to ceil(max corner) - 1 on each axis, before clamping. */
  function BBoxUnclamped(v0: Vec2, v1: Vec2, v2: Vec2): BBox {
    BBox(Min3(v0.x, v1.x, v2.x).Floor, Min3(v0.y, v1.y, v2.y).Floor,
         Ceil(Max3(v0.x, v1.x, v2.x)) - 1, Ceil(Max3(v0.y, v1.y, v2.y)) - 1)
  }

  /** The unclamped box clamped into the target; `i32::clamp(0, -1)` panics,
      so the target must be at least one pixel wide and high. */
  function BBoxClamped(v0: Vec2, v1: Vec2, v2: Vec2, width: nat, height: nat): (b: BBox)
    requires width >= 1 && height >= 1
    ensures 0 <= b.minX < width && 0 <= b.maxX < width
    ensures 0 <= b.minY < height && 0 <= b.maxY < height
  {
    var u := BBoxUnclamped(v0, v1, v2);
    var wmax := width - 1;
    var hmax := height - 1;
    BBox(Clamp(u.minX, 0, wmax), Clamp(u.minY, 0, hmax), Clamp(u.maxX, 0, wmax), Clamp(u.maxY, 0, hmax))
  }

  /** With positive extent on both axes the clamped box is ordered. */
  lemma {:induction false} BBoxOrdered(v0: Vec2, v1: Vec2, v2: Vec2, width: nat, height: nat)
    requires width >= 1 && height >= 1
    requires Min3(v0.x, v1.x, v2.x) < Max3(v0.x, v1.x, v2.x)
    requires Min3(v0.y, v1.y, v2.y) < Max3(v0.y, v1.y, v2.y)
    ensures var b := BBoxClamped(v0, v1, v2, width, height);
      b.minX <= b.maxX && b.minY <= b.maxY
  {
    var u := BBoxUnclamped(v0, v1, v2);
    FloorBelowCeil(Min3(v0.x, v1.x, v2.x), Max3(v0.x, v1.x, v2.x));
    FloorBelowCeil(Min3(v0.y, v1.y, v2.y), Max3(v0.y, v1.y, v2.y));
    assert u.minX <= u.maxX && u.minY <= u.maxY;
  }

  lemma FloorBelowCeil(lo: real, hi: real)
    requires lo < hi
    ensures lo.Floor <= Ceil(hi) - 1
  {
  }

  /** A pixel whose centre lies in the closed extent of the vertices is in
      the unclamped box. */
  lemma {:induction false} CenterInBBox(v0: Vec2, v1: Vec2, v2: Vec2, x: int, y: int)
    requires Min3(v0.x, v1.x, v2.x) <= x as real + 0.5 <= Max3(v0.x, v1.x, v2.x)
    requires Min3(v0.y, v1.y, v2.y) <= y as real + 0.5 <= Max3(v0.y, v1.y, v2.y)
    ensures var u := BBoxUnclamped(v0, v1, v2);
      u.minX <= x <= u.maxX && u.minY <= y <= u.maxY
  {
  }

  /** Top edge (horizontal, pointing right) or left edge (pointing up). */
  predicate IsTopLeft(a: Vec2, b: Vec2) {
    var dx := b.x - a.x;
    var dy := b.y - a.y;
    dy < 0.0 || (dy == 0.0 && dx > 0.0)
  }

  /** Exactly one direction of a proper edge is top-left; a point edge is neither. */
  lemma TopLeftExactlyOne(a: Vec2, b: Vec2)
    ensures a != b ==> (IsTopLeft(a, b) <==> !IsTopLeft(b, a))
    ensures a == b ==> !IsTopLeft(a, b)
  {
  }
}
