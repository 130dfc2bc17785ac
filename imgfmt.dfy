/** The image-format front end: a format selector and a save helper that
    dispatches to the PPM or the 24-bit BMP writer. */
module ImgFmt {
  import opened Numeric
  import opened Bytes
  import PpmFile = Ppm
  import Bmp

  datatype Format = Ppm | Bmp24

  /** Writes `pixels` in the selected format; the outcome and the bytes are
      exactly those of the chosen writer. */
  method SaveRgbaLeToWriter(pixels: seq<uint32>, width: usize, height: usize, format: Format) returns (w: Written)
    ensures format == Ppm ==> w == PpmFile.PpmFromRgbaLe(pixels, width, height)
    ensures format == Bmp24 ==> w == Bmp.Bmp24FromRgbaLe(pixels, width, height)
  {
    match format {
      case Ppm => w := PpmFile.WritePpmFromRgbaLeToWriter(pixels, width, height);
      case Bmp24 => w := Bmp.WriteBmp24FromRgbaLeToWriter(pixels, width, height);
    }
  }

  /** A 1 x 1 image of (1, 2, 3, 255) as PPM ends with R, G, B = 1, 2, 3
      after the header "P6\n1 1\n255\n". */
  lemma OnePixelPpm()
    ensures var w := PpmFile.PpmFromRgbaLe([0xFF03_0201], 1, 1);
      && w.outcome == Ok
      && w.bytes == [80, 54, 10, 49, 32, 49, 10, 50, 53, 53, 10] + [1, 2, 3]
  {
    var px: seq<uint32> := [0xFF03_0201];
    assert Decimal(1) == [49];
    assert px[..1] == px && px[..0] == [];
    assert PpmFile.Rgb(px[0]) == [1, 2, 3];
    assert PpmFile.RgbPayload(px) == PpmFile.Rgb(px[0]);
  }

  /** The same pixel as BMP starts with "BM", is 58 bytes long (one row
      of three bytes padded to four) and stores B, G, R = 3, 2, 1 at byte
      54, right after the two headers. */
  lemma OnePixelBmp(px: seq<uint32>, width: usize, height: usize, b: seq<byte>)
    requires px == [0xFF03_0201] && width == 1 && height == 1
    requires Bmp.Bmp24FromRgbaLe(px, width, height) == Written(b, Ok)
    ensures b[0] == 66 && b[1] == 77
    ensures |b| == 58
    ensures b[54..57] == [3, 2, 1]
  {
    assert Bmp.RowPadded(width) == 4;
    Bmp.BmpOkParts(px, width, height, b);
    Bmp.BmpLayout(px, width, height, b);
    Bmp.PixelBytesAt(px, width, height, 0, 0);
    StoredPixel();
    SuffixWithin(b, 54, Bmp.Rows(px, width, height), 0, 3, [3, 2, 1]);
  }

  /** (1, 2, 3, 255) is stored as B, G, R = 3, 2, 1. */
  lemma StoredPixel()
    ensures Bmp.Bgr(0xFF03_0201) == [3, 2, 1]
  {
  }

  /** The 1 x 1 image is accepted. */
  lemma OnePixelBmpAccepted()
    ensures Bmp.Bmp24FromRgbaLe([0xFF03_0201], 1, 1).outcome == Ok
  {
  }
}
