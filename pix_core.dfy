/** kpix core types: an RGBA colour packed little-endian into 32 bits, and
    a width x height surface of packed pixels stored row-major. */
module Pix {
  import opened Numeric

  /** `Vec<u32>` of this many elements is the largest allocation Rust accepts
      (isize::MAX bytes, 4 bytes per element). */
  const MAX_PIXELS: int := 0x7FFF_FFFF_FFFF_FFFF / 4

  datatype Color = Color(r: bv8, g: bv8, b: bv8, a: bv8)
  {
    /** Packs the channels little-endian: r is the lowest byte, a the highest. */
    function ToU32(): bv32
    {
      (a as bv32 << 24) | (b as bv32 << 16) | (g as bv32 << 8) | (r as bv32)
    }
  }

  function Rgba(r: bv8, g: bv8, b: bv8, a: bv8): Color { Color(r, g, b, a) }

  /** Unpacks a little-endian RGBA word. */
  function FromU32(p: bv32): Color
  {
    Color((p & 0xFF) as bv8, ((p >> 8) & 0xFF) as bv8, ((p >> 16) & 0xFF) as bv8, (p >> 24) as bv8)
  }

  /** The packed word holds r, g, b, a in its bytes 0, 1, 2, 3. */
  lemma PackedLayout(c: Color)
    ensures (c.ToU32() & 0xFF) as bv8 == c.r && ((c.ToU32() >> 8) & 0xFF) as bv8 == c.g
    ensures ((c.ToU32() >> 16) & 0xFF) as bv8 == c.b && (c.ToU32() >> 24) as bv8 == c.a
  {
  }

  /** Packing and unpacking are inverse bijections. */
  lemma PackUnpack(c: Color)
    ensures FromU32(c.ToU32()) == c
  {
  }

  lemma UnpackPack(p: bv32)
    ensures FromU32(p).ToU32() == p
  {
  }

  /** Row-major index of an in-bounds pixel. */
  function Index(x: int, y: int, width: nat): int { y * width + x }

  predicate InBounds(x: int, y: int, width: nat, height: nat) {
    0 <= x < width && 0 <= y < height
  }

  lemma {:induction false} IndexInRange(x: int, y: int, width: nat, height: nat)
    requires InBounds(x, y, width, height)
    ensures 0 <= Index(x, y, width) < width * height
  {
    assert y * width <= (height - 1) * width by { MulLeft(y, height - 1, width); }
    assert (height - 1) * width == height * width - width;
  }

  /** Two in-bounds coordinates share an index only if they are equal. */
  lemma {:induction false} IndexInjective(x: int, y: int, x': int, y': int, width: nat, height: nat)
    requires InBounds(x, y, width, height) && InBounds(x', y', width, height)
    requires Index(x, y, width) == Index(x', y', width)
    ensures x == x' && y == y'
  {
    if y < y' {
      RowsApart(y, y', x, x', width);
      assert false;
    } else if y' < y {
      RowsApart(y', y, x', x, width);
      assert false;
    }
  }

  /** Any pixel of a lower row has a larger index than every pixel of a higher row. */
  lemma {:induction false} RowsApart(lo: int, hi: int, xlo: int, xhi: int, width: nat)
    requires lo < hi && 0 <= xlo < width && 0 <= xhi
    ensures Index(xlo, lo, width) < Index(xhi, hi, width)
  {
    MulLeft(lo + 1, hi, width);
    assert (lo + 1) * width == lo * width + width;
  }

  /** `get_pixel` on a raw buffer: None out of bounds, else the stored colour. */
  function PixelAt(pixels: seq<bv32>, width: nat, height: nat, x: int, y: int): (c: Option<Color>)
    requires |pixels| == width * height
    ensures c.None? <==> !InBounds(x, y, width, height)
  {
    if x < 0 || y < 0 then None
    else if x >= width || y >= height then None
    else
      IndexInRange(x, y, width, height);
      Some(FromU32(pixels[Index(x, y, width)]))
  }

  /** `set_pixel` on a raw buffer: out-of-bounds writes are ignored. */
  function WithPixel(pixels: seq<bv32>, width: nat, height: nat, x: int, y: int, c: Color): (r: seq<bv32>)
    requires |pixels| == width * height
    ensures |r| == |pixels|
  {
    if InBounds(x, y, width, height) then
      IndexInRange(x, y, width, height);
      pixels[Index(x, y, width) := c.ToU32()]
    else pixels
  }

  /** Reading back a written pixel gives the written colour; every other
      pixel reads as before. */
  lemma {:induction false} GetAfterSet(pixels: seq<bv32>, width: nat, height: nat, x: int, y: int, c: Color, qx: int, qy: int)
    requires |pixels| == width * height
    ensures PixelAt(WithPixel(pixels, width, height, x, y, c), width, height, qx, qy) ==
              if InBounds(x, y, width, height) && qx == x && qy == y then Some(c)
              else PixelAt(pixels, width, height, qx, qy)
  {
    var r := WithPixel(pixels, width, height, x, y, c);
    if InBounds(x, y, width, height) && InBounds(qx, qy, width, height) {
      IndexInRange(x, y, width, height);
      IndexInRange(qx, qy, width, height);
      var k, q := Index(x, y, width), Index(qx, qy, width);
      assert r == pixels[k := c.ToU32()];
      if qx == x && qy == y {
        assert r[q] == c.ToU32();
        PackUnpack(c);
      } else {
        if k == q {
          IndexInjective(x, y, qx, qy, width, height);
        }
        assert r[q] == pixels[q];
      }
    }
  }

  class Surface {
    const width: nat
    const height: nat
    const pixels: array<bv32>

    ghost predicate Valid() {
      pixels.Length == width * height
    }

    /** A zero-filled surface; the Rust allocation aborts beyond MAX_PIXELS, so
        `width.saturating_mul(height)` never saturates here. */
    constructor (width: nat, height: nat)
      requires width * height <= MAX_PIXELS
      ensures Valid() && fresh(pixels)
      ensures this.width == width && this.height == height
      ensures pixels[..] == seq(width * height, _ => 0)
    {
      this.width := width;
      this.height := height;
      pixels := new bv32[width * height](_ => 0);
    }

    function Width(): nat { width }
    function Height(): nat { height }

    /** Fills every pixel with `color`. */
    method Clear(color: Color)
      requires Valid()
      modifies pixels
      ensures pixels[..] == seq(pixels.Length, _ => color.ToU32())
    {
      var v := color.ToU32();
      forall i | 0 <= i < pixels.Length {
        pixels[i] := v;
      }
    }

    /** Writes one pixel; coordinates outside the surface are ignored. */
    method SetPixel(x: int, y: int, color: Color)
      requires Valid()
      modifies pixels
      ensures pixels[..] == WithPixel(old(pixels[..]), width, height, x, y, color)
    {
      if x < 0 || y < 0 {
        return;
      }
      if x >= width || y >= height {
        return;
      }
      IndexInRange(x, y, width, height);
      pixels[y * width + x] := color.ToU32();
    }

    /** Reads one pixel: None exactly outside the surface. */
    function GetPixel(x: int, y: int): (c: Option<Color>)
      requires Valid()
      reads pixels
      ensures c.None? <==> !InBounds(x, y, width, height)
    {
      PixelAt(pixels[..], width, height, x, y)
    }

    function Pixels(): seq<bv32>
      reads pixels
    {
      pixels[..]
    }
  }
}
