/** An immutable RGBA texture sampled with nearest-neighbour filtering and
    clamp-to-edge addressing. */
module Texture {
  import opened Numeric
  import opened Vec
  import opened Pix

  datatype Texture = Texture(width: nat, height: nat, pixels: seq<bv32>)

  /** Non-empty and one packed pixel per texel, row-major. */
  predicate Valid(t: Texture) {
    t.width > 0 && t.height > 0 && |t.pixels| == t.width * t.height
  }

  /** Wraps a packed buffer; the source asserts (panics) unless both sizes
      are positive and the buffer holds exactly width * height pixels. */
  function FromRgbaLe(pixels: seq<bv32>, width: nat, height: nat): (t: Texture)
    requires width > 0 && height > 0
    requires |pixels| == width * height
    ensures Valid(t)
    ensures t.width == width && t.height == height && t.pixels == pixels
  {
    Texture(width, height, pixels)
  }

  function Width(t: Texture): nat { t.width }
  function Height(t: Texture): nat { t.height }

  /** Nearest texel column (or row) for a coordinate in [0, 1] over `n` texels:
      round-half-up of u * (n - 1), clamped to the valid range. */
  function NearestTexel(u: real, n: nat): (k: nat)
    requires n > 0
    ensures k < n
    ensures 0.0 <= u <= 1.0 ==> k as real <= u * (n - 1) as real + 0.5 < k as real + 1.0
  {
    var uc := RClamp(u, 0.0, 1.0);
    var f := (uc * (n - 1) as real + 0.5).Floor;
    MulUnitBound(uc, (n - 1) as real);
    Clamp(f, 0, n - 1)
  }

  lemma MulUnitBound(u: real, m: real)
    requires 0.0 <= u <= 1.0 && m >= 0.0
    ensures 0.0 <= u * m <= m
  {
    assert m - u * m == (1.0 - u) * m;
  }

  /** Coordinates outside [0, 1] address the same texel as the nearest edge. */
  lemma NearestTexelClamps(u: real, n: nat)
    requires n > 0
    ensures NearestTexel(u, n) == NearestTexel(RClamp(u, 0.0, 1.0), n)
    ensures u <= 0.0 ==> NearestTexel(u, n) == 0
    ensures u >= 1.0 ==> NearestTexel(u, n) == n - 1
  {
  }

  /** The colour of the texel nearest to `uv`, after clamping `uv` into
      the unit square; v grows downward. */
  function SampleNearest(t: Texture, uv: Vec2): (c: Color)
    requires Valid(t)
    ensures var tx, ty := NearestTexel(uv.x, t.width), NearestTexel(uv.y, t.height);
      PixelAt(t.pixels, t.width, t.height, tx, ty) == Some(c)
  {
    var tx := NearestTexel(uv.x, t.width);
    var ty := NearestTexel(uv.y, t.height);
    IndexInRange(tx, ty, t.width, t.height);
    FromU32(t.pixels[ty * t.width + tx])
  }

  /** The four corners of the unit square sample the four corner texels,
      and points beyond a corner sample that corner too. */
  lemma {:induction false} SampleCorners(t: Texture, uv: Vec2)
    requires Valid(t)
    ensures SampleNearest(t, Vec2(0.0, 0.0)) == FromU32(t.pixels[0])
    ensures SampleNearest(t, Vec2(1.0, 1.0)) == FromU32(t.pixels[t.width * t.height - 1])
    ensures uv.x <= 0.0 && uv.y <= 0.0 ==> SampleNearest(t, uv) == SampleNearest(t, Vec2(0.0, 0.0))
  {
    NearestTexelClamps(0.0, t.width);
    NearestTexelClamps(0.0, t.height);
    NearestTexelClamps(1.0, t.width);
    NearestTexelClamps(1.0, t.height);
    NearestTexelClamps(uv.x, t.width);
    NearestTexelClamps(uv.y, t.height);
    assert (t.height - 1) * t.width + (t.width - 1) == t.width * t.height - 1;
  }

  /** A 2 x 2 texture: each corner of the unit square samples its own texel. */
  lemma {:induction false} TwoByTwoCorners(tl: Color, tr: Color, bl: Color, br: Color)
    ensures var t := FromRgbaLe([tl.ToU32(), tr.ToU32(), bl.ToU32(), br.ToU32()], 2, 2);
      SampleNearest(t, Vec2(0.0, 0.0)) == tl && SampleNearest(t, Vec2(1.0, 0.0)) == tr &&
      SampleNearest(t, Vec2(0.0, 1.0)) == bl && SampleNearest(t, Vec2(1.0, 1.0)) == br &&
      SampleNearest(t, Vec2(-1.0, -1.0)) == tl
  {
    PackUnpack(tl); PackUnpack(tr); PackUnpack(bl); PackUnpack(br);
  }
}
