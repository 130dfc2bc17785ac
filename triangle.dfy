/** Solid triangle rasterization with edge functions and the top-left fill rule.
    A pixel (x, y) is sampled at its centre (x + 0.5, y + 0.5). */
module Triangle {
  import opened Numeric
  import opened Vec
  import opened Pix
  import opened Frame
  import opened TriangleSetup

  /** Tolerance below which a triangle's doubled area counts as zero. */
  const EPS: real := 0.000001

  /** A screen-space vertex; `uv` and `color` are carried for later stages. */
  datatype Vertex = Vertex(pos: Vec3, uv: Vec2, color: (real, real, real))

  /** A vertex at `pos` with zero texture coordinates and white colour. */
  function VertexNew(pos: Vec3): (v: Vertex)
    ensures v.pos == pos && v.uv == ZERO2 && v.color == (1.0, 1.0, 1.0)
  {
    Vertex(pos, ZERO2, (1.0, 1.0, 1.0))
  }

  /** The screen position of a vertex; z is not used. */
  function Pos2(v: Vertex): Vec2 { Vec2(v.pos.x, v.pos.y) }

  predicate Degenerate(p0: Vec2, p1: Vec2, p2: Vec2) {
    Abs(SignedArea(p0, p1, p2)) <= EPS
  }

  /** The vertices reordered so the signed area is not negative. */
  function Oriented(p0: Vec2, p1: Vec2, p2: Vec2): (Vec2, Vec2, Vec2) {
    if SignedArea(p0, p1, p2) < 0.0 then (p0, p2, p1) else (p0, p1, p2)
  }

  function PixelCenter(x: int, y: int): Vec2 { Vec2(x as real + 0.5, y as real + 0.5) }

  /** Inside one edge: on the edge itself only when it is a top or left edge. */
  predicate EdgeInside(a: Vec2, b: Vec2, p: Vec2) {
    if IsTopLeft(a, b) then EdgeFunction(a, b, p) >= 0.0 else EdgeFunction(a, b, p) > 0.0
  }

  predicate InsideOriented(q0: Vec2, q1: Vec2, q2: Vec2, p: Vec2) {
    EdgeInside(q1, q2, p) && EdgeInside(q2, q0, p) && EdgeInside(q0, q1, p)
  }

  /** The fill rule: a non-degenerate triangle covers pixel (x, y) when the
      pixel centre is inside all three edges of the positively oriented triangle. */
  predicate Covers(p0: Vec2, p1: Vec2, p2: Vec2, x: int, y: int) {
    !Degenerate(p0, p1, p2) &&
    var (q0, q1, q2) := Oriented(p0, p1, p2);
    InsideOriented(q0, q1, q2, PixelCenter(x, y))
  }

  /** The buffer after filling every covered pixel with `color`. */
  function PaintSolid(orig: seq<bv32>, w: nat, h: nat, p0: Vec2, p1: Vec2, p2: Vec2, color: Color): (r: seq<bv32>)
    requires |orig| == w * h
    ensures |r| == |orig|
  {
    if w == 0 then orig
    else seq(|orig|, i requires 0 <= i < |orig| =>
               if Covers(p0, p1, p2, i % w, i / w) then color.ToU32() else orig[i])
  }

  // ---------------------------------------------------------------------
  // Properties of the fill rule

  /** Orienting makes the doubled area exceed EPS and keeps the vertex set. */
  lemma OrientedPositive(p0: Vec2, p1: Vec2, p2: Vec2)
    requires !Degenerate(p0, p1, p2)
    ensures var (q0, q1, q2) := Oriented(p0, p1, p2);
      SignedArea(q0, q1, q2) > EPS && q0 == p0 &&
      ((q1 == p1 && q2 == p2) || (q1 == p2 && q2 == p1))
  {
    AreaSwapRotate(p0, p1, p2);
  }

  /** Coverage does not depend on the winding order of the vertices. */
  lemma CoversWindingIndependent(p0: Vec2, p1: Vec2, p2: Vec2, x: int, y: int)
    ensures Covers(p0, p2, p1, x, y) == Covers(p0, p1, p2, x, y)
  {
    AreaSwapRotate(p0, p1, p2);
  }

  /** Coverage does not depend on which vertex comes first. */
  lemma CoversRotationIndependent(p0: Vec2, p1: Vec2, p2: Vec2, x: int, y: int)
    ensures Covers(p1, p2, p0, x, y) == Covers(p0, p1, p2, x, y)
  {
    AreaSwapRotate(p0, p1, p2);
  }

  /** Along a proper edge every point is inside exactly one of its two
      directions, so two triangles sharing that edge from opposite sides
      neither overlap nor leave a crack along it. */
  lemma EdgeInsideExactlyOne(a: Vec2, b: Vec2, p: Vec2)
    requires a != b
    ensures EdgeInside(a, b, p) != EdgeInside(b, a, p)
  {
    EdgeReverse(a, b, p);
    TopLeftExactlyOne(a, b);
  }

  /** Non-negative weights summing to `area` and averaging the coordinates
      to `s` place `s` between the smallest and largest coordinate. */
  lemma {:induction false} WeightedBetween(w0: real, w1: real, w2: real, a0: real, a1: real, a2: real, area: real, s: real)
    requires w0 >= 0.0 && w1 >= 0.0 && w2 >= 0.0
    requires w0 + w1 + w2 == area && area > 0.0
    requires w0 * a0 + w1 * a1 + w2 * a2 == area * s
    ensures Min3(a0, a1, a2) <= s <= Max3(a0, a1, a2)
  {
    var lo, hi := Min3(a0, a1, a2), Max3(a0, a1, a2);
    WeightedLe(w0, w1, w2, lo, lo, lo, a0, a1, a2);
    WeightedLe(w0, w1, w2, a0, a1, a2, hi, hi, hi);
    Distribute3(w0, w1, w2, area, lo);
    Distribute3(w0, w1, w2, area, hi);
    LeChain(area * lo, w0 * lo + w1 * lo + w2 * lo, w0 * a0 + w1 * a1 + w2 * a2, area * s);
    LeChain(area * s, w0 * a0 + w1 * a1 + w2 * a2, w0 * hi + w1 * hi + w2 * hi, area * hi);
    CancelLe(area, lo, s);
    CancelLe(area, s, hi);
  }

  /** Raising each coordinate raises a non-negatively weighted sum. */
  lemma WeightedLe(w0: real, w1: real, w2: real, a0: real, a1: real, a2: real, b0: real, b1: real, b2: real)
    requires w0 >= 0.0 && w1 >= 0.0 && w2 >= 0.0
    requires a0 <= b0 && a1 <= b1 && a2 <= b2
    ensures w0 * a0 + w1 * a1 + w2 * a2 <= w0 * b0 + w1 * b1 + w2 * b2
  {
    MulLe(w0, a0, b0);
    MulLe(w1, a1, b1);
    MulLe(w2, a2, b2);
  }

  lemma MulLe(w: real, a: real, b: real)
    requires w >= 0.0 && a <= b
    ensures w * a <= w * b
  {
    assert w * b - w * a == w * (b - a);
  }

  lemma Distribute3(w0: real, w1: real, w2: real, sum: real, c: real)
    requires w0 + w1 + w2 == sum
    ensures sum * c == w0 * c + w1 * c + w2 * c
  {
  }

  lemma LeChain(a: real, b: real, c: real, d: real)
    requires a == b && b <= c && c == d
    ensures a <= d
  {
  }

  lemma CancelLe(k: real, a: real, b: real)
    requires k > 0.0 && k * a <= k * b
    ensures a <= b
  {
  }

  /** A point inside a positively oriented triangle lies within the closed
      extent of its vertices on both axes. */
  lemma {:induction false} InsideWithinExtent(q0: Vec2, q1: Vec2, q2: Vec2, p: Vec2)
    requires SignedArea(q0, q1, q2) > 0.0
    requires InsideOriented(q0, q1, q2, p)
    ensures Min3(q0.x, q1.x, q2.x) <= p.x <= Max3(q0.x, q1.x, q2.x)
    ensures Min3(q0.y, q1.y, q2.y) <= p.y <= Max3(q0.y, q1.y, q2.y)
  {
    EdgeSum(q0, q1, q2, p);
    EdgeWeights(q0, q1, q2, p);
    var w0, w1, w2 := EdgeFunction(q1, q2, p), EdgeFunction(q2, q0, p), EdgeFunction(q0, q1, p);
    var area := SignedArea(q0, q1, q2);
    WeightedBetween(w0, w1, w2, q0.x, q1.x, q2.x, area, p.x);
    WeightedBetween(w0, w1, w2, q0.y, q1.y, q2.y, area, p.y);
  }

  /** Every covered pixel of the target lies in the clamped bounding box the
      rasterizer scans, so scanning only that box misses no covered pixel. */
  lemma {:induction false} CoveredInBBox(p0: Vec2, p1: Vec2, p2: Vec2, w: nat, h: nat, x: int, y: int)
    requires InBounds(x, y, w, h)
    requires Covers(p0, p1, p2, x, y)
    ensures var (q0, q1, q2) := Oriented(p0, p1, p2);
      var b := BBoxClamped(q0, q1, q2, w, h);
      b.minX <= x <= b.maxX && b.minY <= y <= b.maxY
  {
    OrientedPositive(p0, p1, p2);
    var (q0, q1, q2) := Oriented(p0, p1, p2);
    InsideWithinExtent(q0, q1, q2, PixelCenter(x, y));
    CenterInBBox(q0, q1, q2, x, y);
  }

  // ---------------------------------------------------------------------
  // Properties of the painted buffer

  /** Row-major decomposition of an in-bounds pixel's index. */
  lemma {:induction false} IndexParts(x: int, y: int, w: nat)
    requires 0 <= x < w && 0 <= y
    ensures Index(x, y, w) % w == x && Index(x, y, w) / w == y
  {
    DivModUnique(Index(x, y, w), w, y, x);
  }

  lemma IndexDecompose(i: int, w: nat)
    requires w > 0 && 0 <= i
    ensures i == Index(i % w, i / w, w)
  {
  }

  lemma {:induction false} RowInRange(i: int, w: nat, h: nat)
    requires w > 0 && 0 <= i < w * h
    ensures 0 <= i / w < h && i == Index(i % w, i / w, w)
  {
    if i / w >= h {
      MulLeft(h, i / w, w);
      assert false;
    }
  }

  /** Pixel by pixel: a covered pixel reads as `color`, every other pixel as before. */
  lemma {:induction false} PaintSolidPixel(orig: seq<bv32>, w: nat, h: nat, p0: Vec2, p1: Vec2, p2: Vec2, color: Color, x: int, y: int)
    requires |orig| == w * h
    ensures PixelAt(PaintSolid(orig, w, h, p0, p1, p2, color), w, h, x, y) ==
              if InBounds(x, y, w, h) && Covers(p0, p1, p2, x, y) then Some(color)
              else PixelAt(orig, w, h, x, y)
  {
    if InBounds(x, y, w, h) {
      IndexInRange(x, y, w, h);
      IndexParts(x, y, w);
      PackUnpack(color);
    }
  }

  /** A degenerate triangle leaves the buffer unchanged. */
  lemma DegenerateUnchanged(orig: seq<bv32>, w: nat, h: nat, p0: Vec2, p1: Vec2, p2: Vec2, color: Color)
    requires |orig| == w * h
    requires Degenerate(p0, p1, p2)
    ensures PaintSolid(orig, w, h, p0, p1, p2, color) == orig
  {
  }

  /** Painting does not depend on the winding order. */
  lemma {:induction false} PaintWindingIndependent(orig: seq<bv32>, w: nat, h: nat, p0: Vec2, p1: Vec2, p2: Vec2, color: Color)
    requires |orig| == w * h
    ensures PaintSolid(orig, w, h, p0, p2, p1, color) == PaintSolid(orig, w, h, p0, p1, p2, color)
  {
    if w > 0 {
      forall i | 0 <= i < |orig|
        ensures Covers(p0, p2, p1, i % w, i / w) == Covers(p0, p1, p2, i % w, i / w)
      {
        CoversWindingIndependent(p0, p1, p2, i % w, i / w);
      }
    }
  }

  // ---------------------------------------------------------------------
  // The rasterizer

  /** Colour already written once the scan cursor is at column cx of row cy. */
  predicate Scanned(i: int, w: nat, cx: int, cy: int)
    requires w > 0
  {
    i / w < cy || (i / w == cy && i % w < cx)
  }

  /** Loop invariant: covered pixels before the cursor hold `color`, all
      others still hold their original value. */
  ghost predicate PartialPaint(buf: seq<bv32>, orig: seq<bv32>, w: nat, p0: Vec2, p1: Vec2, p2: Vec2, c: bv32, cx: int, cy: int)
    requires w > 0
  {
    |buf| == |orig| &&
    forall i | 0 <= i < |buf| ::
      buf[i] == if Covers(p0, p1, p2, i % w, i / w) && Scanned(i, w, cx, cy) then c else orig[i]
  }

  /** Painting the pixel under the cursor (when covered) advances the cursor by one column. */
  lemma {:induction false} PartialPaintStep(buf: seq<bv32>, orig: seq<bv32>, w: nat, p0: Vec2, p1: Vec2, p2: Vec2, c: bv32, x: int, y: int)
    requires 0 <= x < w && 0 <= y && Index(x, y, w) < |buf|
    requires PartialPaint(buf, orig, w, p0, p1, p2, c, x, y)
    ensures var k := Index(x, y, w);
      PartialPaint(if Covers(p0, p1, p2, x, y) then buf[k := c] else buf, orig, w, p0, p1, p2, c, x + 1, y)
  {
    var k := Index(x, y, w);
    IndexParts(x, y, w);
    var buf' := if Covers(p0, p1, p2, x, y) then buf[k := c] else buf;
    forall i | 0 <= i < |buf'|
      ensures buf'[i] == if Covers(p0, p1, p2, i % w, i / w) && Scanned(i, w, x + 1, y) then c else orig[i]
    {
      IndexDecompose(i, w);
    }
  }

  /** Past the box's last column the cursor may move to the next row. */
  lemma {:induction false} PartialPaintNextRow(buf: seq<bv32>, orig: seq<bv32>, w: nat, h: nat, p0: Vec2, p1: Vec2, p2: Vec2, c: bv32, x: int, y: int)
    requires w > 0 && |orig| == w * h && h > 0
    requires PartialPaint(buf, orig, w, p0, p1, p2, c, x, y)
    requires var (q0, q1, q2) := Oriented(p0, p1, p2);
      x > BBoxClamped(q0, q1, q2, w, h).maxX
    ensures var (q0, q1, q2) := Oriented(p0, p1, p2);
      PartialPaint(buf, orig, w, p0, p1, p2, c, BBoxClamped(q0, q1, q2, w, h).minX, y + 1)
  {
    var (q0, q1, q2) := Oriented(p0, p1, p2);
    var b := BBoxClamped(q0, q1, q2, w, h);
    forall i | 0 <= i < |buf| && Covers(p0, p1, p2, i % w, i / w)
      ensures Scanned(i, w, x, y) == Scanned(i, w, b.minX, y + 1)
    {
      RowInRange(i, w, h);
      CoveredInBBox(p0, p1, p2, w, h, i % w, i / w);
    }
  }

  /** Before the box's first row nothing is painted; past its last row all
      covered pixels are. */
  lemma {:induction false} PartialPaintEnds(buf: seq<bv32>, orig: seq<bv32>, w: nat, h: nat, p0: Vec2, p1: Vec2, p2: Vec2, color: Color, y: int)
    requires w > 0 && h > 0 && |orig| == w * h
    ensures var (q0, q1, q2) := Oriented(p0, p1, p2);
      PartialPaint(orig, orig, w, p0, p1, p2, color.ToU32(), BBoxClamped(q0, q1, q2, w, h).minX, BBoxClamped(q0, q1, q2, w, h).minY)
    ensures var (q0, q1, q2) := Oriented(p0, p1, p2);
      y > BBoxClamped(q0, q1, q2, w, h).maxY &&
      PartialPaint(buf, orig, w, p0, p1, p2, color.ToU32(), BBoxClamped(q0, q1, q2, w, h).minX, y) ==>
      buf == PaintSolid(orig, w, h, p0, p1, p2, color)
  {
    var (q0, q1, q2) := Oriented(p0, p1, p2);
    var b := BBoxClamped(q0, q1, q2, w, h);
    forall i | 0 <= i < |orig| && Covers(p0, p1, p2, i % w, i / w)
      ensures !Scanned(i, w, b.minX, b.minY)
      ensures y > b.maxY ==> Scanned(i, w, b.minX, y)
    {
      RowInRange(i, w, h);
      CoveredInBBox(p0, p1, p2, w, h, i % w, i / w);
    }
  }

  /** Fills the triangle (v0, v1, v2) with `color`: scans the clamped bounding
      box of the positively oriented triangle and writes every pixel whose
      centre passes the top-left inside test. Degenerate triangles draw nothing.
      The `i32` conversions of the source need the frame to be at most
      `i32::MAX` wide and high, and `i32::clamp` panics on an empty frame. */
  method DrawTriangleSolid(frame: Frame, v0: Vertex, v1: Vertex, v2: Vertex, color: Color)
    requires frame.Valid()
    requires frame.Width() <= I32_MAX && frame.Height() <= I32_MAX
    requires Degenerate(Pos2(v0), Pos2(v1), Pos2(v2)) || (frame.Width() >= 1 && frame.Height() >= 1)
    modifies frame.surface.pixels
    ensures frame.Valid()
    ensures frame.Pixels() ==
      PaintSolid(old(frame.Pixels()), frame.Width(), frame.Height(), Pos2(v0), Pos2(v1), Pos2(v2), color)
  {
    var p0, p1, p2 := Pos2(v0), Pos2(v1), Pos2(v2);
    ghost var orig := frame.Pixels();
    var area := SignedArea(p0, p1, p2);
    if Abs(area) <= EPS {
      return;
    }
    var q0, q1, q2 := p0, p1, p2;
    if area < 0.0 {
      q1, q2 := p2, p1;
    }
    assert (q0, q1, q2) == Oriented(p0, p1, p2);
    var w, h := frame.Width(), frame.Height();
    var box := BBoxClamped(q0, q1, q2, w, h);
    var tl0, tl1, tl2 := IsTopLeft(q1, q2), IsTopLeft(q2, q0), IsTopLeft(q0, q1);
    ghost var c := color.ToU32();
    PartialPaintEnds(orig, orig, w, h, p0, p1, p2, color, box.minY);

    var y := box.minY;
    while y <= box.maxY
      invariant frame.Valid() && 0 <= y
      invariant PartialPaint(frame.Pixels(), orig, w, p0, p1, p2, c, box.minX, y)
    {
      var x := ScanRow(frame, p0, p1, p2, q0, q1, q2, tl0, tl1, tl2, box, y, color, orig);
      PartialPaintNextRow(frame.Pixels(), orig, w, h, p0, p1, p2, c, x, y);
      y := y + 1;
    }
    PartialPaintEnds(frame.Pixels(), orig, w, h, p0, p1, p2, color, y);
  }

  /** The inner loop of the rasterizer: tests the centre of every pixel of
      row y from box.minX to box.maxX against the three edges and writes the
      covered ones; returns the column where the scan stopped. */
  method ScanRow(frame: Frame, p0: Vec2, p1: Vec2, p2: Vec2, q0: Vec2, q1: Vec2, q2: Vec2,
                 tl0: bool, tl1: bool, tl2: bool, box: BBox, y: int, color: Color, ghost orig: seq<bv32>)
      returns (x: int)
    requires frame.Valid() && !Degenerate(p0, p1, p2) && (q0, q1, q2) == Oriented(p0, p1, p2)
    requires tl0 == IsTopLeft(q1, q2) && tl1 == IsTopLeft(q2, q0) && tl2 == IsTopLeft(q0, q1)
    requires 0 < frame.Width() && 0 <= box.minX && box.maxX < frame.Width() && 0 <= y < frame.Height()
    requires PartialPaint(frame.Pixels(), orig, frame.Width(), p0, p1, p2, color.ToU32(), box.minX, y)
    modifies frame.surface.pixels
    ensures frame.Valid() && x > box.maxX
    ensures PartialPaint(frame.Pixels(), orig, frame.Width(), p0, p1, p2, color.ToU32(), x, y)
  {
    var w, h := frame.Width(), frame.Height();
    ghost var c := color.ToU32();
    x := box.minX;
    while x <= box.maxX
      invariant frame.Valid() && box.minX <= x
      invariant PartialPaint(frame.Pixels(), orig, w, p0, p1, p2, c, x, y)
    {
      var p := PixelCenter(x, y);
      var e0, e1, e2 := EdgeFunction(q1, q2, p), EdgeFunction(q2, q0, p), EdgeFunction(q0, q1, p);
      var inside0 := if tl0 then e0 >= 0.0 else e0 > 0.0;
      var inside1 := if tl1 then e1 >= 0.0 else e1 > 0.0;
      var inside2 := if tl2 then e2 >= 0.0 else e2 > 0.0;
      assert (inside0 && inside1 && inside2) == Covers(p0, p1, p2, x, y);
      IndexInRange(x, y, w, h);
      PartialPaintStep(frame.Pixels(), orig, w, p0, p1, p2, c, x, y);
      if inside0 && inside1 && inside2 {
        frame.SetPixel(x, y, color);
      }
      x := x + 1;
    }
  }

  // ---------------------------------------------------------------------
  // Worked examples

  /** Pixel (10, 10) lies inside the triangle (5, 5), (25, 6), (10, 20). */
  lemma SampleTriangleCoversPixel()
    ensures Covers(Vec2(5.0, 5.0), Vec2(25.0, 6.0), Vec2(10.0, 20.0), 10, 10)
  {
  }

  /** The square with corners (2, 2) and (13, 13), split along its diagonal
      into (a, b, c) and (a, c, d), covers exactly the pixels of [2, 13) x [2, 13)
      and no pixel twice: the right and bottom edges are excluded. */
  lemma SplitSquareTiles(x: int, y: int)
    ensures var a, b, c, d := Vec2(2.0, 2.0), Vec2(13.0, 2.0), Vec2(13.0, 13.0), Vec2(2.0, 13.0);
      (Covers(a, b, c, x, y) || Covers(a, c, d, x, y)) <==> (2 <= x < 13 && 2 <= y < 13)
    ensures var a, b, c, d := Vec2(2.0, 2.0), Vec2(13.0, 2.0), Vec2(13.0, 13.0), Vec2(2.0, 13.0);
      !(Covers(a, b, c, x, y) && Covers(a, c, d, x, y))
  {
  }

  /** Drawing both halves of the split square into a 16 x 16 buffer fills
      exactly [2, 13) x [2, 13) with the colour. */
  lemma {:induction false} SplitSquareFills(orig: seq<bv32>, color: Color, x: int, y: int)
    requires |orig| == 16 * 16
    ensures var a, b, c, d := Vec2(2.0, 2.0), Vec2(13.0, 2.0), Vec2(13.0, 13.0), Vec2(2.0, 13.0);
      var r := PaintSolid(PaintSolid(orig, 16, 16, a, b, c, color), 16, 16, a, c, d, color);
      PixelAt(r, 16, 16, x, y) ==
        if 2 <= x < 13 && 2 <= y < 13 then Some(color) else PixelAt(orig, 16, 16, x, y)
  {
    var a, b, c, d := Vec2(2.0, 2.0), Vec2(13.0, 2.0), Vec2(13.0, 13.0), Vec2(2.0, 13.0);
    var r1 := PaintSolid(orig, 16, 16, a, b, c, color);
    PaintSolidPixel(orig, 16, 16, a, b, c, color, x, y);
    PaintSolidPixel(r1, 16, 16, a, c, d, color, x, y);
    SplitSquareTiles(x, y);
  }
}
