/** Binary PPM (P6) writer: the header "P6\n<width> <height>\n255\n" in
    ASCII, then R, G, B of each of the first width * height pixels. Pixels
    are packed RGBA words whose little-endian bytes are R, G, B, A. */
module Ppm {
  import opened Numeric
  import opened Bytes

  /** "P6\n" */
  const MAGIC: seq<byte> := [80, 54, 10]
  /** "\n255\n": the maximum sample value and the single whitespace byte
      before the raster. */
  const MAXVAL_LINE: seq<byte> := [10, 50, 53, 53, 10]
  /** ASCII space. */
  const SPACE: byte := 32

  /** The header `write!(w, "P6\n{} {}\n255\n", width, height)` produces. */
  function PpmHeader(width: nat, height: nat): (s: seq<byte>)
    ensures |s| == 9 + |Decimal(width)| + |Decimal(height)|
  {
    MAGIC + Decimal(width) + [SPACE] + Decimal(height) + MAXVAL_LINE
  }

  /** R, G, B of a packed pixel: bytes 0, 1, 2 of `to_le_bytes`; alpha is
      byte 3 and is dropped. */
  function Rgb(p: uint32): (s: seq<byte>)
    ensures |s| == 3
  {
    var le := LE32(p);
    [le[0], le[1], le[2]]
  }

  /** The alpha byte does not reach the output: two pixels that agree in
      their low three bytes give the same R, G, B. */
  lemma AlphaIgnored(p: uint32, q: uint32)
    requires p % 0x100_0000 == q % 0x100_0000
    ensures Rgb(p) == Rgb(q)
  {
    LowBytes(p);
    LowBytes(q);
  }

  /** Bytes 0, 1, 2 of a word depend only on the word modulo 2^24. */
  lemma LowBytes(p: uint32)
    ensures var l := p % 0x100_0000;
      Rgb(p) == [l % 256, (l / 256) % 256, l / 0x1_0000]
  {
    var l := p % 0x100_0000;
    var hi := p / 0x100_0000;
    assert p == hi * 0x100_0000 + l;
    ModShift(l, hi * 0x1_0000, 256);
    assert p / 256 == hi * 0x1_0000 + l / 256;
    ModShift(l / 256, hi * 256, 256);
    assert p / 0x1_0000 == hi * 256 + l / 0x1_0000;
    ModShift(l / 0x1_0000, hi, 256);
  }

  /** The raster: R, G, B of each pixel in order. */
  function RgbPayload(pixels: seq<uint32>): (s: seq<byte>)
    ensures |s| == 3 * |pixels|
    decreases |pixels|
  {
    if pixels == [] then [] else RgbPayload(pixels[..|pixels| - 1]) + Rgb(pixels[|pixels| - 1])
  }

  /** What `write_ppm_from_rgba_le_to_writer` hands to the writer: nothing
      when width * height overflows usize or the buffer is short, else the
      header and the first width * height pixels. */
  function PpmFromRgbaLe(pixels: seq<uint32>, width: usize, height: usize): Written
  {
    if width * height > USIZE_MAX || |pixels| < width * height then Written([], InvalidInput)
    else Written(PpmHeader(width, height) + RgbPayload(pixels[..width * height]), Ok)
  }

  /** The writer fails exactly when the pixel count overflows or the buffer
      holds fewer pixels, and then it writes nothing; it never fails after
      writing. */
  lemma PpmErrors(pixels: seq<uint32>, width: usize, height: usize)
    ensures var w := PpmFromRgbaLe(pixels, width, height);
      (w.outcome == InvalidInput <==> width * height > USIZE_MAX || |pixels| < width * height)
      && (w.outcome == InvalidInput ==> w.bytes == [])
  {
  }

  /** A successful write is the header followed by exactly three bytes per
      pixel, and starts with the magic "P6\n". */
  lemma PpmLength(pixels: seq<uint32>, width: usize, height: usize)
    requires PpmFromRgbaLe(pixels, width, height).outcome == Ok
    ensures var b := PpmFromRgbaLe(pixels, width, height).bytes;
      && |b| == |PpmHeader(width, height)| + 3 * (width * height)
      && b[..3] == MAGIC
  {
  }

  /** Pixels beyond width * height do not affect the output. */
  lemma ExtraPixelsIgnored(pixels: seq<uint32>, extra: seq<uint32>, width: usize, height: usize)
    requires width * height <= |pixels|
    ensures PpmFromRgbaLe(pixels + extra, width, height) == PpmFromRgbaLe(pixels, width, height)
  {
    if width * height <= USIZE_MAX {
      assert (pixels + extra)[..width * height] == pixels[..width * height];
    }
  }

  /** Pixel k of the raster is bytes 3k .. 3k + 3, its R, G, B. */
  lemma {:induction false} RgbPayloadAt(pixels: seq<uint32>, k: nat)
    requires k < |pixels|
    ensures RgbPayload(pixels)[3 * k .. 3 * k + 3] == Rgb(pixels[k])
    decreases |pixels|
  {
    if k < |pixels| - 1 {
      RgbPayloadAt(pixels[..|pixels| - 1], k);
      assert RgbPayload(pixels)[..3 * (|pixels| - 1)] == RgbPayload(pixels[..|pixels| - 1]);
    }
  }

  /** The width and height digits can be read back from the header: the
      width numeral starts at byte 3 and ends at the first space. */
  lemma HeaderFields(width: nat, height: nat)
    ensures var h := PpmHeader(width, height);
      var dw := |Decimal(width)|;
      var dh := |Decimal(height)|;
      && h[..3] == MAGIC
      && (forall i :: 3 <= i < 3 + dw ==> IsDigit(h[i]))
      && h[3 + dw] == SPACE
      && DecimalValue(h[3 .. 3 + dw]) == width
      && DecimalValue(h[4 + dw .. 4 + dw + dh]) == height
      && h[4 + dw + dh ..] == MAXVAL_LINE
  {
    var h := PpmHeader(width, height);
    var dw := |Decimal(width)|;
    var dh := |Decimal(height)|;
    var pre := MAGIC + Decimal(width) + [SPACE];
    assert h == pre + Decimal(height) + MAXVAL_LINE;
    SliceOfConcatLeft(pre + Decimal(height), MAXVAL_LINE, |pre|, |pre| + dh);
    SliceOfConcatRight(pre, Decimal(height));
    assert h[3 .. 3 + dw] == Decimal(width) by {
      SliceOfConcatLeft(MAGIC + Decimal(width), [SPACE] + Decimal(height) + MAXVAL_LINE, 3, 3 + dw);
      SliceOfConcatRight(MAGIC, Decimal(width));
      assert h == (MAGIC + Decimal(width)) + ([SPACE] + Decimal(height) + MAXVAL_LINE);
    }
    DecimalRoundTrip(width);
    DecimalRoundTrip(height);
  }

  /** Index of the first space in `s`, or |s| when there is none. */
  function SpaceIndex(s: seq<byte>): (i: nat)
    ensures i <= |s|
    decreases |s|
  {
    if s == [] then 0 else if s[0] == SPACE then 0 else 1 + SpaceIndex(s[1..])
  }

  /** After a run of digits the first space is the one that ends the run. */
  lemma {:induction false} SpaceIndexAfterDigits(a: seq<byte>, rest: seq<byte>)
    requires forall i :: 0 <= i < |a| ==> IsDigit(a[i])
    ensures SpaceIndex(a + [SPACE] + rest) == |a|
    decreases |a|
  {
    if a != [] {
      assert IsDigit(a[0]);
      assert (a + [SPACE] + rest)[1..] == a[1..] + [SPACE] + rest;
      SpaceIndexAfterDigits(a[1..], rest);
    }
  }

  /** Two digit strings each followed by a space inside the same sequence
      are the same string. */
  lemma DigitsBeforeSpace(a: seq<byte>, a': seq<byte>, rest: seq<byte>, rest': seq<byte>)
    requires forall i :: 0 <= i < |a| ==> IsDigit(a[i])
    requires forall i :: 0 <= i < |a'| ==> IsDigit(a'[i])
    requires a + [SPACE] + rest == a' + [SPACE] + rest'
    ensures a == a' && rest == rest'
  {
    var s := a + [SPACE] + rest;
    SpaceIndexAfterDigits(a, rest);
    SpaceIndexAfterDigits(a', rest');
    assert a == s[..|a|] == a';
    assert rest == s[|a| + 1 ..] == rest';
  }

  /** Different sizes give different headers. */
  lemma PpmHeaderInjective(width: nat, height: nat, width': nat, height': nat)
    requires PpmHeader(width, height) == PpmHeader(width', height')
    ensures width == width' && height == height'
  {
    var h := PpmHeader(width, height);
    assert h[3..] == Decimal(width) + [SPACE] + (Decimal(height) + MAXVAL_LINE);
    assert h[3..] == Decimal(width') + [SPACE] + (Decimal(height') + MAXVAL_LINE);
    DigitsBeforeSpace(Decimal(width), Decimal(width'), Decimal(height) + MAXVAL_LINE, Decimal(height') + MAXVAL_LINE);
    DecimalInjective(width, width');
    assert Decimal(height) == (Decimal(height) + MAXVAL_LINE)[..|Decimal(height)|];
    assert Decimal(height') == (Decimal(height') + MAXVAL_LINE)[..|Decimal(height')|];
    DecimalInjective(height, height');
  }

  /** The header of a 2 x 1 image is "P6\n2 1\n255\n". */
  lemma SmallHeader()
    ensures PpmHeader(2, 1) == [80, 54, 10, 50, 32, 49, 10, 50, 53, 53, 10]
  {
    assert Decimal(2) == [50] && Decimal(1) == [49];
  }

  /** The raster of (10, 20, 30, 255) and (40, 50, 60, 128) is
      10 20 30 40 50 60: alpha is dropped. */
  lemma TwoPixelRaster()
    ensures RgbPayload([0xFF1E_140A, 0x803C_3228]) == [10, 20, 30, 40, 50, 60]
  {
    var px: seq<uint32> := [0xFF1E_140A, 0x803C_3228];
    assert Rgb(px[0]) == [10, 20, 30];
    assert Rgb(px[1]) == [40, 50, 60];
    assert px[..1] == [px[0]] && px[..1][..0] == [];
    assert RgbPayload(px[..1]) == Rgb(px[0]);
  }

  /** The 2 x 1 example: the header "P6\n2 1\n255\n", then the raster. */
  lemma TwoPixelExample()
    ensures PpmFromRgbaLe([0xFF1E_140A, 0x803C_3228], 2, 1)
      == Written([80, 54, 10, 50, 32, 49, 10, 50, 53, 53, 10] + [10, 20, 30, 40, 50, 60], Ok)
  {
    var px: seq<uint32> := [0xFF1E_140A, 0x803C_3228];
    SmallHeader();
    TwoPixelRaster();
    assert px[..2] == px;
  }

  /** Writes the header, then R, G, B of each of the first width * height
      pixels. */
  method WritePpmFromRgbaLeToWriter(pixels: seq<uint32>, width: usize, height: usize) returns (w: Written)
    ensures w == PpmFromRgbaLe(pixels, width, height)
  {
    if width * height > USIZE_MAX {
      return Written([], InvalidInput);
    }
    var count := width * height;
    if |pixels| < count {
      return Written([], InvalidInput);
    }
    var out := MAGIC + Decimal(width) + [SPACE] + Decimal(height) + MAXVAL_LINE;
    var i := 0;
    while i < count
      invariant 0 <= i <= count
      invariant out == PpmHeader(width, height) + RgbPayload(pixels[..i])
    {
      var px := pixels[i];
      out := out + Rgb(px);
      assert pixels[..i + 1] == pixels[..i] + [px];
      i := i + 1;
    }
    w := Written(out, Ok);
  }
}
