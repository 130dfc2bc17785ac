/** Half-open axis-aligned rectangles [min, max) over the reals. */
module Rect {
  import opened Numeric
  import opened Vec

  datatype Rect = Rect(min: Vec2, max: Vec2)

  /** Both axes ordered: the form every constructor produces. */
  predicate Normalized(r: Rect) {
    r.min.x <= r.max.x && r.min.y <= r.max.y
  }

  /** Builds a rect from two corners in any order. */
  function FromMinMax(a: Vec2, b: Vec2): (r: Rect)
    ensures Normalized(r)
    ensures r.min.x == RMin(a.x, b.x) && r.max.x == RMax(a.x, b.x)
    ensures r.min.y == RMin(a.y, b.y) && r.max.y == RMax(a.y, b.y)
  {
    var (minx, maxx) := if a.x <= b.x then (a.x, b.x) else (b.x, a.x);
    var (miny, maxy) := if a.y <= b.y then (a.y, b.y) else (b.y, a.y);
    Rect(Vec2(minx, miny), Vec2(maxx, maxy))
  }

  /** Builds a rect from an origin and a size; a negative size extends the
      rect towards smaller coordinates. */
  function FromOriginSize(origin: Vec2, size: Vec2): (r: Rect)
    ensures Normalized(r)
    ensures Width(r) == Abs(size.x) && Height(r) == Abs(size.y)
    ensures r.min.x == RMin(origin.x, origin.x + size.x)
    ensures r.min.y == RMin(origin.y, origin.y + size.y)
  {
    FromMinMax(origin, Add(origin, size))
  }

  function MinCorner(r: Rect): Vec2 { r.min }
  function MaxCorner(r: Rect): Vec2 { r.max }
  function Origin(r: Rect): Vec2 { r.min }
  function Size(r: Rect): Vec2 { Sub(r.max, r.min) }
  function Width(r: Rect): real { r.max.x - r.min.x }
  function Height(r: Rect): real { r.max.y - r.min.y }
  function Center(r: Rect): Vec2 { Vec2((r.min.x + r.max.x) / 2.0, (r.min.y + r.max.y) / 2.0) }

  predicate IsEmpty(r: Rect) { Width(r) <= 0.0 || Height(r) <= 0.0 }

  /** Half-open membership: the min edges belong to the rect, the max edges do not. */
  predicate ContainsPoint(r: Rect, p: Vec2) {
    p.x >= r.min.x && p.x < r.max.x && p.y >= r.min.y && p.y < r.max.y
  }

  predicate ContainsRect(r: Rect, other: Rect) {
    other.min.x >= r.min.x && other.max.x <= r.max.x &&
    other.min.y >= r.min.y && other.max.y <= r.max.y
  }

  predicate Intersects(a: Rect, b: Rect) {
    var xOverlaps := a.min.x < b.max.x && b.min.x < a.max.x;
    var yOverlaps := a.min.y < b.max.y && b.min.y < a.max.y;
    xOverlaps && yOverlaps
  }

  /** Smallest rect containing both. */
  function Union(a: Rect, b: Rect): (u: Rect)
    ensures ContainsRect(u, a) && ContainsRect(u, b)
    ensures forall c: Rect :: ContainsRect(c, a) && ContainsRect(c, b) ==> ContainsRect(c, u)
  {
    Rect(Vec2(RMin(a.min.x, b.min.x), RMin(a.min.y, b.min.y)),
         Vec2(RMax(a.max.x, b.max.x), RMax(a.max.y, b.max.y)))
  }

  /** Grows the bounds just enough to reach `p`; on a normalised rect this
      is the smallest rect containing it and the point's rect. */
  function ExpandToIncludePoint(r: Rect, p: Vec2): (e: Rect)
    ensures Normalized(e)
    ensures e.min.x <= p.x <= e.max.x && e.min.y <= p.y <= e.max.y
    ensures Normalized(r) ==> ContainsRect(e, r) && ContainsRect(e, FromMinMax(p, p))
    ensures Normalized(r) ==> forall c: Rect :: ContainsRect(c, r) && ContainsRect(c, FromMinMax(p, p)) ==> ContainsRect(c, e)
  {
    FromMinMax(Vec2(RMin(r.min.x, p.x), RMin(r.min.y, p.y)),
               Vec2(RMax(r.max.x, p.x), RMax(r.max.y, p.y)))
  }

  function ExpandToIncludeRect(r: Rect, other: Rect): Rect {
    Rect(Vec2(RMin(r.min.x, other.min.x), RMin(r.min.y, other.min.y)),
         Vec2(RMax(r.max.x, other.max.x), RMax(r.max.y, other.max.y)))
  }

  /** The half-open size accessors: min corner plus size is the max corner,
      and the center is as far from the min corner as from the max corner. */
  lemma SizeIsExtent(r: Rect)
    ensures Add(Origin(r), Size(r)) == MaxCorner(r)
    ensures Size(r) == Vec2(Width(r), Height(r))
    ensures Sub(Center(r), MinCorner(r)) == Sub(MaxCorner(r), Center(r))
  {
  }

  /** A rect is empty exactly when it contains no point. */
  lemma EmptyIffNoPoint(r: Rect)
    ensures IsEmpty(r) <==> forall p: Vec2 :: !ContainsPoint(r, p)
  {
    if !IsEmpty(r) {
      assert ContainsPoint(r, r.min);
    }
  }

  /** A non-empty rect contains its min corner and its center, never its max corner. */
  lemma HalfOpenCorners(r: Rect)
    requires !IsEmpty(r)
    ensures ContainsPoint(r, r.min) && ContainsPoint(r, Center(r))
    ensures !ContainsPoint(r, r.max)
  {
  }

  /** Two rects sharing a point intersect, and intersection is symmetric. */
  lemma CommonPointIntersects(a: Rect, b: Rect, p: Vec2)
    requires ContainsPoint(a, p) && ContainsPoint(b, p)
    ensures Intersects(a, b) && Intersects(b, a)
  {
  }

  /** For non-empty rects the converse holds as well: intersecting rects
      share a point, so touching edges or corners is not intersection. */
  lemma IntersectsHasCommonPoint(a: Rect, b: Rect)
    requires !IsEmpty(a) && !IsEmpty(b)
    ensures Intersects(a, b) <==> exists p: Vec2 :: ContainsPoint(a, p) && ContainsPoint(b, p)
  {
    if Intersects(a, b) {
      var p := Vec2(RMax(a.min.x, b.min.x), RMax(a.min.y, b.min.y));
      assert ContainsPoint(a, p) && ContainsPoint(b, p);
    }
  }

  /** Whether two rectangles overlap does not depend on their order. */
  lemma IntersectsSymmetric(a: Rect, b: Rect)
    ensures Intersects(a, b) == Intersects(b, a)
  {
  }

  lemma TouchingDoesNotIntersect(a: Rect, b: Rect)
    requires a.max.x == b.min.x || a.max.y == b.min.y
    ensures !Intersects(a, b)
  {
  }

  /** Containment of rects transfers to their points. */
  lemma ContainsRectTransfersPoints(a: Rect, b: Rect, p: Vec2)
    requires ContainsRect(a, b) && ContainsPoint(b, p)
    ensures ContainsPoint(a, p)
  {
  }

  /** Union of normalized rects is normalized, and including a rect is the union. */
  lemma UnionNormalized(a: Rect, b: Rect)
    requires Normalized(a) && Normalized(b)
    ensures Normalized(Union(a, b))
    ensures ExpandToIncludeRect(a, b) == Union(a, b)
  {
  }

  /** Including a point is the union with the degenerate rect at that point. */
  lemma ExpandPointIsUnion(r: Rect, p: Vec2)
    requires Normalized(r)
    ensures ExpandToIncludePoint(r, p) == Union(r, FromMinMax(p, p))
  {
  }

  function FoldExpand(acc: Rect, ps: seq<Vec2>): Rect
    decreases |ps|
  {
    if ps == [] then acc else FoldExpand(ExpandToIncludePoint(acc, ps[0]), ps[1..])
  }

  function FoldUnion(acc: Rect, ps: seq<Vec2>): Rect
    decreases |ps|
  {
    if ps == [] then acc else FoldUnion(Union(acc, FromMinMax(ps[0], ps[0])), ps[1..])
  }

  /** Growing a normalized rect point by point gives the same rect as
      folding union over the degenerate point rects. */
  lemma {:induction false} FoldExpandIsFoldUnion(acc: Rect, ps: seq<Vec2>)
    requires Normalized(acc)
    ensures FoldExpand(acc, ps) == FoldUnion(acc, ps)
    decreases |ps|
  {
    if ps != [] {
      ExpandPointIsUnion(acc, ps[0]);
      FoldExpandIsFoldUnion(ExpandToIncludePoint(acc, ps[0]), ps[1..]);
    }
  }
}
