/** kpix's PPM writer: a surface becomes the binary PPM (P6) header for its
    width and height, followed by R, G, B of every stored pixel in
    row-major order. Alpha is dropped and there is no size check. */
module PixIo {
  import opened Numeric
  import opened Bytes
  import Ppm
  import opened Pix

  /** R, G, B of a colour as output bytes. */
  function ColorRgb(c: Color): (s: seq<byte>)
    ensures |s| == 3
  {
    [c.r as int, c.g as int, c.b as int]
  }

  /** The raster of a surface buffer: R, G, B of each pixel in order. */
  function SurfaceRaster(pixels: seq<bv32>): (s: seq<byte>)
    ensures |s| == 3 * |pixels|
    decreases |pixels|
  {
    if pixels == [] then []
    else SurfaceRaster(pixels[..|pixels| - 1]) + ColorRgb(FromU32(pixels[|pixels| - 1]))
  }

  /** The whole file for a surface of the given size and buffer. */
  function SurfacePpm(width: nat, height: nat, pixels: seq<bv32>): seq<byte>
  {
    Ppm.PpmHeader(width, height) + SurfaceRaster(pixels)
  }

  /** Writes the header, then R, G, B of every pixel of the surface. It has
      no failure path of its own: any surface can be written. */
  method WritePpmToWriter(s: Surface) returns (out: seq<byte>)
    requires s.Valid()
    ensures out == SurfacePpm(s.width, s.height, s.pixels[..])
  {
    var width := s.Width();
    var height := s.Height();
    out := Ppm.MAGIC + Decimal(width) + [Ppm.SPACE] + Decimal(height) + Ppm.MAXVAL_LINE;
    var i := 0;
    while i < s.pixels.Length
      invariant 0 <= i <= s.pixels.Length
      invariant out == Ppm.PpmHeader(width, height) + SurfaceRaster(s.pixels[..i])
    {
      var c := FromU32(s.pixels[i]);
      out := out + [c.r as int, c.g as int, c.b as int];
      assert s.pixels[..i + 1] == s.pixels[..i] + [s.pixels[i]];
      i := i + 1;
    }
    assert s.pixels[..i] == s.pixels[..];
  }

  /** The file is the header followed by exactly three bytes per pixel of
      the surface. */
  lemma SurfacePpmLength(width: nat, height: nat, pixels: seq<bv32>)
    requires |pixels| == width * height
    ensures |SurfacePpm(width, height, pixels)| == |Ppm.PpmHeader(width, height)| + 3 * (width * height)
    ensures SurfacePpm(width, height, pixels)[..3] == Ppm.MAGIC
  {
  }

  /** Pixel k of the buffer is bytes 3k .. 3k + 3 of the raster: its red,
      green and blue channels. */
  lemma {:induction false} SurfaceRasterAt(pixels: seq<bv32>, k: nat)
    requires k < |pixels|
    ensures SurfaceRaster(pixels)[3 * k .. 3 * k + 3]
      == [FromU32(pixels[k]).r as int, FromU32(pixels[k]).g as int, FromU32(pixels[k]).b as int]
    decreases |pixels|
  {
    var n := |pixels| - 1;
    var front := SurfaceRaster(pixels[..n]);
    assert SurfaceRaster(pixels) == front + ColorRgb(FromU32(pixels[n]));
    if k < n {
      SurfaceRasterAt(pixels[..n], k);
      assert pixels[..n][k] == pixels[k];
      SliceOfConcatLeft(front, ColorRgb(FromU32(pixels[n])), 3 * k, 3 * k + 3);
    } else {
      SliceOfConcatRight(front, ColorRgb(FromU32(pixels[n])));
    }
  }

  /** The 2 x 1 surface holding (10, 20, 30, 255) and (40, 50, 60, 255) is
      written as "P6\n2 1\n255\n" followed by 10 20 30 40 50 60. */
  lemma TwoPixelSurface(pixels: seq<bv32>)
    requires pixels == [Rgba(10, 20, 30, 255).ToU32(), Rgba(40, 50, 60, 255).ToU32()]
    ensures SurfacePpm(2, 1, pixels) == [80, 54, 10, 50, 32, 49, 10, 50, 53, 53, 10] + [10, 20, 30, 40, 50, 60]
  {
    Ppm.SmallHeader();
    PackUnpack(Rgba(10, 20, 30, 255));
    PackUnpack(Rgba(40, 50, 60, 255));
    assert pixels[..1][..0] == [];
    assert SurfaceRaster(pixels[..1]) == [10, 20, 30];
  }
}
