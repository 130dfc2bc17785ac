/** 24-bit BMP writer: BITMAPFILEHEADER (14 bytes), BITMAPINFOHEADER
    (40 bytes, BI_RGB, negative height for top-down rows), then the pixel
    rows as B, G, R triples, each row padded with zeros to a multiple of
    four bytes. */
module Bmp {
  import opened Numeric
  import opened Bytes

  const FILE_HEADER_SIZE: int := 14
  const INFO_HEADER_SIZE: int := 40
  const PIXEL_DATA_OFFSET: int := 54

  /** Zero bytes that bring a row of `width` pixels to a multiple of four. */
  function Padding(width: nat): (p: nat)
    ensures p <= 3 && (3 * width + p) % 4 == 0
  {
    (4 - (3 * width) % 4) % 4
  }

  /** Bytes per stored row, padding included. */
  function RowPadded(width: nat): nat { 3 * width + Padding(width) }

  /** Channel c of a pixel in stored order: byte 2 - c of its
      little-endian bytes R, G, B, A, so B, G, R for c = 0, 1, 2. */
  function Channel(p: uint32, c: nat): byte
    requires c < 3
  {
    if c == 0 then (p / 0x1_0000) % 256 else if c == 1 then (p / 256) % 256 else p % 256
  }

  /** One pixel as B, G, R; alpha is dropped. */
  function Bgr(p: uint32): (s: seq<byte>)
    ensures |s| == 3
  {
    [Channel(p, 0), Channel(p, 1), Channel(p, 2)]
  }

  /** The B, G, R bytes of a run of pixels: byte i is channel i % 3 of
      pixel i / 3. */
  function BgrRow(row: seq<uint32>): (s: seq<byte>)
    ensures |s| == 3 * |row|
  {
    seq(3 * |row|, i requires 0 <= i < 3 * |row| => Channel(row[i / 3], i % 3))
  }

  /** Appending a pixel appends its B, G, R bytes. */
  lemma BgrRowSnoc(row: seq<uint32>, p: uint32)
    ensures BgrRow(row + [p]) == BgrRow(row) + Bgr(p)
  {
    var n := 3 * |row|;
    forall i | 0 <= i < n + 3
      ensures BgrRow(row + [p])[i] == (BgrRow(row) + Bgr(p))[i]
    {
      if i >= n {
        DivModUnique(i, 3, |row|, i - n);
      }
    }
  }


  /** Offset of the first byte of row `y` in the pixel data. */
  function RowOffset(y: nat, width: nat): nat { y * RowPadded(width) }

  /** Each row starts `width` pixels and row_padded bytes after the previous one. */
  lemma NextRow(y: nat, width: nat)
    ensures RowStart(y + 1, width) == RowStart(y, width) + width
    ensures RowOffset(y + 1, width) == RowOffset(y, width) + RowPadded(width)
  {
    MulSucc(y, width);
    MulSucc(y, RowPadded(width));
  }

  /** Later rows start later. */
  lemma RowsMonotone(y: nat, rows: nat, width: nat)
    requires y <= rows
    ensures RowStart(y, width) <= RowStart(rows, width)
    ensures RowOffset(y, width) <= RowOffset(rows, width)
  {
    MulLeft(y, rows, width);
    MulLeft(y, rows, RowPadded(width));
  }

  /** Pixels start .. start + n of the buffer; a window past its end,
      which the writer never reads, is taken as zeros so that every window
      has n pixels. */
  function Window(pixels: seq<uint32>, start: nat, n: nat): (w: seq<uint32>)
    ensures |w| == n
  {
    if start + n <= |pixels| then pixels[start .. start + n] else seq(n, i => 0)
  }

  /** Row `y` as stored: B, G, R of each of its pixels, then the padding. */
  function Row(pixels: seq<uint32>, width: nat, y: nat): (s: seq<byte>)
    ensures |s| == RowPadded(width)
  {
    BgrRow(Window(pixels, RowStart(y, width), width)) + Zeros(Padding(width))
  }

  /** The first `rows` padded rows of the image, top row first. */
  function Rows(pixels: seq<uint32>, width: nat, rows: nat): (s: seq<byte>)
    ensures |s| == RowOffset(rows, width)
    decreases rows
  {
    if rows == 0 then []
    else
      NextRow(rows - 1, width);
      Rows(pixels, width, rows - 1) + Row(pixels, width, rows - 1)
  }

  /** The 14-byte BITMAPFILEHEADER. */
  function FileHeader(fileSize: int): (s: seq<byte>)
    requires 0 <= fileSize < U32_LIMIT
    ensures |s| == FILE_HEADER_SIZE
  {
    [66, 77] + LE32(fileSize) + LE16(0) + LE16(0) + LE32(PIXEL_DATA_OFFSET)
  }

  /** The 40-byte BITMAPINFOHEADER: size, width, negated height, one plane,
      24 bits per pixel, BI_RGB, image size, then four zero fields. */
  function InfoHeader(width: nat, height: nat, imageSize: int): (s: seq<byte>)
    requires width <= I32_MAX && height <= I32_MAX && 0 <= imageSize < U32_LIMIT
    ensures |s| == INFO_HEADER_SIZE
  {
    LE32(INFO_HEADER_SIZE) + I32LE(width) + I32LE(-(height as int)) + LE16(1) + LE16(24) + LE32(0)
      + LE32(imageSize) + LE32(0) + LE32(0) + LE32(0) + LE32(0)
  }

  /** What `write_bmp24_from_rgba_le_to_writer` hands to the writer. Size
      checks come first and write nothing; the i32 range of width and
      height is checked only after the file header went out. `image_size`
      is cast to u32 with truncation, as in the source. The padded row
      length is checked against usize::MAX, which the source omits (see
      PaddedRowOverflows). */
  function Bmp24FromRgbaLe(pixels: seq<uint32>, width: usize, height: usize): (w: Written)
    ensures w.outcome == Ok ==> RowPadded(width) <= USIZE_MAX
    ensures w.outcome == Ok ==> RowOffset(height, width) <= USIZE_MAX
    ensures w.outcome == Ok ==> |w.bytes| == PIXEL_DATA_OFFSET + RowOffset(height, width)
  {
    if width * height > USIZE_MAX then Written([], InvalidInput)
    else if |pixels| < width * height then Written([], InvalidInput)
    else if 3 * width > USIZE_MAX then Written([], InvalidInput)
    else if RowPadded(width) > USIZE_MAX then Written([], InvalidInput)
    else if RowOffset(height, width) > USIZE_MAX then Written([], InvalidInput)
    else
      var imageSize := RowOffset(height, width) % U32_LIMIT;
      if PIXEL_DATA_OFFSET + imageSize >= U32_LIMIT then Written([], InvalidInput)
      else
        var fileHeader := FileHeader(PIXEL_DATA_OFFSET + imageSize);
        if width > I32_MAX || height > I32_MAX then Written(fileHeader, InvalidInput)
        else
          assert RowStart(height, width) == width * height;
          Written(fileHeader + InfoHeader(width, height, imageSize) + Rows(pixels, width, height), Ok)
  }

  /** Every size the writer computes before the first byte goes out is in
      range, and the buffer holds width * height pixels. */
  predicate SizesFit(pixels: seq<uint32>, width: usize, height: usize) {
    && width * height <= USIZE_MAX
    && width * height <= |pixels|
    && 3 * width <= USIZE_MAX
    && RowPadded(width) <= USIZE_MAX
    && RowOffset(height, width) <= USIZE_MAX
    && PIXEL_DATA_OFFSET + RowOffset(height, width) % U32_LIMIT < U32_LIMIT
  }

  /** The outcome of a write, case by case: nothing is written when a size
      is out of range or the buffer is short; exactly the file header, with
      its file size, when the sizes fit but width or height does not fit an
      i32; success otherwise. */
  lemma BmpErrors(pixels: seq<uint32>, width: usize, height: usize)
    ensures var w := Bmp24FromRgbaLe(pixels, width, height);
      (width * height > USIZE_MAX || |pixels| < width * height || 3 * width > USIZE_MAX)
        ==> w == Written([], InvalidInput)
    ensures var w := Bmp24FromRgbaLe(pixels, width, height);
      w.outcome == InvalidInput && w.bytes != [] ==>
        |w.bytes| == FILE_HEADER_SIZE && (width > I32_MAX || height > I32_MAX)
    ensures !SizesFit(pixels, width, height) ==>
      Bmp24FromRgbaLe(pixels, width, height) == Written([], InvalidInput)
    ensures SizesFit(pixels, width, height) && (width > I32_MAX || height > I32_MAX) ==>
      Bmp24FromRgbaLe(pixels, width, height)
        == Written(FileHeader(PIXEL_DATA_OFFSET + RowOffset(height, width) % U32_LIMIT), InvalidInput)
    ensures SizesFit(pixels, width, height) && width <= I32_MAX && height <= I32_MAX <==>
      Bmp24FromRgbaLe(pixels, width, height).outcome == Ok
  {
  }

  /** The fields of the two headers decode back to the values written,
      whatever follows them. */
  lemma HeaderFields(fileSize: int, width: nat, height: nat, imageSize: int, rest: seq<byte>)
    requires 0 <= fileSize < U32_LIMIT && 0 <= imageSize < U32_LIMIT
    requires width <= I32_MAX && height <= I32_MAX
    ensures var b := FileHeader(fileSize) + InfoHeader(width, height, imageSize) + rest;
      && |b| == PIXEL_DATA_OFFSET + |rest|
      && b[0] == 66 && b[1] == 77
      && DecodeLE32(b[2..6]) == fileSize
      && DecodeLE32(b[10..14]) == PIXEL_DATA_OFFSET
      && DecodeLE32(b[14..18]) == INFO_HEADER_SIZE
      && DecodeI32LE(b[18..22]) == width
      && DecodeI32LE(b[22..26]) == -(height as int)
      && DecodeLE32(b[34..38]) == imageSize
      && b[PIXEL_DATA_OFFSET..] == rest
  {
    var b := FileHeader(fileSize) + InfoHeader(width, height, imageSize) + rest;
    assert b[2..6] == LE32(fileSize);
    assert b[10..14] == LE32(PIXEL_DATA_OFFSET);
    assert b[14..18] == LE32(INFO_HEADER_SIZE);
    assert b[18..22] == I32LE(width);
    assert b[22..26] == I32LE(-(height as int));
    assert b[34..38] == LE32(imageSize);
    LE32RoundTrip(fileSize);
    LE32RoundTrip(PIXEL_DATA_OFFSET);
    LE32RoundTrip(INFO_HEADER_SIZE);
    LE32RoundTrip(imageSize);
    I32LERoundTrip(width);
    I32LERoundTrip(-(height as int));
  }

  /** The constant fields of the info header, by offset within it. */
  lemma InfoHeaderConstants(width: nat, height: nat, imageSize: int)
    requires width <= I32_MAX && height <= I32_MAX && 0 <= imageSize < U32_LIMIT
    ensures var h := InfoHeader(width, height, imageSize);
      && h[12..14] == [1, 0] && h[14..16] == [24, 0] && h[16..20] == [0, 0, 0, 0]
      && h[24..40] == Zeros(16)
  {
    var h := InfoHeader(width, height, imageSize);
    assert h[12..14] == LE16(1);
    assert h[14..16] == LE16(24);
    assert h[16..20] == LE32(0);
    assert h[24..40] == LE32(0) + LE32(0) + LE32(0) + LE32(0);
  }

  /** The constant fields of the two headers: the reserved words are zero,
      one plane, 24 bits per pixel, BI_RGB (0), and the resolution and
      colour-table fields (bytes 38 to 54) are zero. */
  lemma HeaderFixedFields(fileSize: int, width: nat, height: nat, imageSize: int, rest: seq<byte>)
    requires 0 <= fileSize < U32_LIMIT && 0 <= imageSize < U32_LIMIT
    requires width <= I32_MAX && height <= I32_MAX
    ensures var b := FileHeader(fileSize) + InfoHeader(width, height, imageSize) + rest;
      && b[6..10] == [0, 0, 0, 0]
      && b[26..28] == [1, 0]
      && b[28..30] == [24, 0]
      && b[30..34] == [0, 0, 0, 0]
      && forall i :: 38 <= i < PIXEL_DATA_OFFSET ==> b[i] == 0
  {
    var f := FileHeader(fileSize);
    var h := InfoHeader(width, height, imageSize);
    var b := f + h + rest;
    assert f[6..10] == LE16(0) + LE16(0);
    InfoHeaderConstants(width, height, imageSize);
    assert b[6..10] == f[6..10];
    assert b[26..28] == h[12..14];
    assert b[28..30] == h[14..16];
    assert b[30..34] == h[16..20];
    assert b[38..54] == h[24..40];
    forall i | 38 <= i < PIXEL_DATA_OFFSET
      ensures b[i] == 0
    {
      assert b[i] == b[38..54][i - 38];
    }
  }

  /** A successful write checked every size and consists of the two
      headers followed by the padded rows. */
  lemma BmpOkParts(pixels: seq<uint32>, width: usize, height: usize, b: seq<byte>)
    requires Bmp24FromRgbaLe(pixels, width, height) == Written(b, Ok)
    ensures RowStart(height, width) <= |pixels| && width <= I32_MAX && height <= I32_MAX
    ensures PIXEL_DATA_OFFSET + RowOffset(height, width) % U32_LIMIT < U32_LIMIT
    ensures b == FileHeader(PIXEL_DATA_OFFSET + RowOffset(height, width) % U32_LIMIT)
      + InfoHeader(width, height, RowOffset(height, width) % U32_LIMIT) + Rows(pixels, width, height)
  {
  }

  /** Two headers for `data` bytes of pixel data followed by those bytes:
      the data starts at byte 54, and the size fields are right when the
      data fits in 32 bits. */
  lemma LayoutOfParts(width: nat, height: nat, data: nat, rest: seq<byte>)
    requires width <= I32_MAX && height <= I32_MAX && |rest| == data
    requires PIXEL_DATA_OFFSET + data % U32_LIMIT < U32_LIMIT
    ensures var b := FileHeader(PIXEL_DATA_OFFSET + data % U32_LIMIT)
      + InfoHeader(width, height, data % U32_LIMIT) + rest;
      && |b| == PIXEL_DATA_OFFSET + data && b[PIXEL_DATA_OFFSET..] == rest
      && (data < U32_LIMIT ==>
        DecodeLE32(b[2..6]) == |b| && DecodeLE32(b[34..38]) == |b| - PIXEL_DATA_OFFSET)
  {
    var imageSize := data % U32_LIMIT;
    HeaderFields(PIXEL_DATA_OFFSET + imageSize, width, height, imageSize, rest);
    if data < U32_LIMIT {
      ModBelow(data, U32_LIMIT);
    }
  }

  /** A successful write is the 54 bytes of the two headers followed by the
      padded rows, RowOffset(height) = height * row_padded bytes of them. */
  lemma BmpLayout(pixels: seq<uint32>, width: usize, height: usize, b: seq<byte>)
    requires Bmp24FromRgbaLe(pixels, width, height) == Written(b, Ok)
    ensures |b| == PIXEL_DATA_OFFSET + RowOffset(height, width)
    ensures b[PIXEL_DATA_OFFSET..] == Rows(pixels, width, height)
  {
    BmpOkParts(pixels, width, height, b);
    LayoutOfParts(width, height, RowOffset(height, width), Rows(pixels, width, height));
  }

  /** The file-size and image-size fields of a successful write equal the
      real sizes when the pixel data fits in 32 bits. */
  lemma BmpSizeFields(pixels: seq<uint32>, width: usize, height: usize, b: seq<byte>)
    requires Bmp24FromRgbaLe(pixels, width, height) == Written(b, Ok)
    requires RowOffset(height, width) < U32_LIMIT
    ensures DecodeLE32(b[2..6]) == |b| && DecodeLE32(b[34..38]) == |b| - PIXEL_DATA_OFFSET
  {
    BmpOkParts(pixels, width, height, b);
    LayoutOfParts(width, height, RowOffset(height, width), Rows(pixels, width, height));
  }

  /** Adding a row appends it. */
  lemma RowsSnoc(pixels: seq<uint32>, width: nat, y: nat)
    ensures Rows(pixels, width, y + 1) == Rows(pixels, width, y) + Row(pixels, width, y)
  {
  }

  /** The first k rows are a prefix of any longer run of rows. */
  lemma {:induction false} RowsPrefix(pixels: seq<uint32>, width: nat, rows: nat, k: nat)
    requires k <= rows
    ensures |Rows(pixels, width, k)| <= |Rows(pixels, width, rows)|
    ensures Rows(pixels, width, rows)[..|Rows(pixels, width, k)|] == Rows(pixels, width, k)
    decreases rows
  {
    if k < rows {
      RowsPrefix(pixels, width, rows - 1, k);
      PrefixOfConcat(Rows(pixels, width, rows), Rows(pixels, width, rows - 1), Row(pixels, width, rows - 1),
        |Rows(pixels, width, k)|, Rows(pixels, width, k));
    } else {
      var all := Rows(pixels, width, rows);
      assert all[..|all|] == all;
    }
  }

  /** The bytes of the first y + 1 rows are the first y rows followed by row y. */
  lemma RowsThrough(pixels: seq<uint32>, width: nat, rows: nat, y: nat)
    requires y < rows
    ensures RowOffset(y + 1, width) <= RowOffset(rows, width)
    ensures Rows(pixels, width, rows)[..RowOffset(y + 1, width)]
      == Rows(pixels, width, y) + Row(pixels, width, y)
  {
    RowsPrefix(pixels, width, rows, y + 1);
    RowsSnoc(pixels, width, y);
  }

  /** Row `y` occupies bytes RowOffset(y) .. RowOffset(y) + row_padded of
      the pixel data. */
  lemma RowAt(pixels: seq<uint32>, width: nat, rows: nat, y: nat)
    requires y < rows
    ensures RowOffset(y, width) + RowPadded(width) <= RowOffset(rows, width)
    ensures Rows(pixels, width, rows)[RowOffset(y, width) .. RowOffset(y, width) + RowPadded(width)]
      == Row(pixels, width, y)
  {
    RowsThrough(pixels, width, rows, y);
    NextRow(y, width);
    LastOfPrefix(Rows(pixels, width, rows), RowOffset(y + 1, width), Rows(pixels, width, y), Row(pixels, width, y));
  }

  /** Within its stored row, pixel x is bytes 3x .. 3x + 3. */
  lemma PixelInRow(pixels: seq<uint32>, width: nat, x: nat, y: nat)
    requires RowStart(y, width) + width <= |pixels| && x < width
    ensures Row(pixels, width, y)[3 * x .. 3 * x + 3] == Bgr(pixels[RowStart(y, width) + x])
  {
    var start := RowStart(y, width);
    var row := pixels[start .. start + width];
    assert Window(pixels, start, width) == row;
    SliceOfConcatLeft(BgrRow(row), Zeros(Padding(width)), 3 * x, 3 * x + 3);
    BgrRowAt(row, x);
    assert row[x] == pixels[start + x];
  }

  /** Pixel (x, y) of the buffer is stored as B, G, R at byte
      RowOffset(y) + 3x of the pixel data, that is y * row_padded + 3x. */
  lemma PixelBytesAt(pixels: seq<uint32>, width: nat, rows: nat, x: nat, y: nat)
    requires RowStart(y, width) + width <= |pixels| && x < width && y < rows
    ensures RowOffset(y, width) + 3 * x + 3 <= |Rows(pixels, width, rows)|
    ensures Rows(pixels, width, rows)[RowOffset(y, width) + 3 * x .. RowOffset(y, width) + 3 * x + 3]
      == Bgr(pixels[RowStart(y, width) + x])
  {
    var all, row, px := Rows(pixels, width, rows), Row(pixels, width, y), Bgr(pixels[RowStart(y, width) + x]);
    var o := RowOffset(y, width);
    assert o + |row| <= |all| && all[o .. o + |row|] == row by { RowAt(pixels, width, rows, y); }
    assert row[3 * x .. 3 * x + 3] == px by { PixelInRow(pixels, width, x, y); }
    SliceWithin(all, o, o + |row|, row, 3 * x, 3, px);
  }

  /** The padding bytes at the end of each row are zero. */
  lemma PaddingBytesAt(pixels: seq<uint32>, width: nat, rows: nat, x: nat, y: nat)
    requires y < rows && 3 * width <= x < RowPadded(width)
    ensures RowOffset(y, width) + x < |Rows(pixels, width, rows)|
    ensures Rows(pixels, width, rows)[RowOffset(y, width) + x] == 0
  {
    RowAt(pixels, width, rows, y);
    var row := Row(pixels, width, y);
    IndexWithin(Rows(pixels, width, rows), RowOffset(y, width), RowOffset(y, width) + RowPadded(width), row, x);
    assert row[x] == Zeros(Padding(width))[x - 3 * width];
  }

  /** Pixel k of a run sits at bytes 3k .. 3k + 3 of its B, G, R bytes. */
  lemma BgrRowAt(row: seq<uint32>, k: nat)
    requires k < |row|
    ensures BgrRow(row)[3 * k .. 3 * k + 3] == Bgr(row[k])
  {
    forall j | 0 <= j < 3
      ensures BgrRow(row)[3 * k + j] == Bgr(row[k])[j]
    {
      DivModUnique(3 * k + j, 3, k, j);
    }
  }

  /** `row_bytes + padding` as the source computes it: an unchecked usize
      addition, which wraps in a release build (a debug build panics). */
  function RowPaddedAsWritten(width: nat): (r: nat)
    ensures r < U64_LIMIT
    ensures RowPadded(width) <= USIZE_MAX ==> r == RowPadded(width)
  {
    (3 * width + Padding(width)) % U64_LIMIT
  }

  /** The writer as the source has it (a release build): the padded row
      length is RowPaddedAsWritten, unchecked, and the image size is
      computed from it. */
  function Bmp24FromRgbaLeAsWritten(pixels: seq<uint32>, width: usize, height: usize): (w: Written)
  {
    if width * height > USIZE_MAX then Written([], InvalidInput)
    else if |pixels| < width * height then Written([], InvalidInput)
    else if 3 * width > USIZE_MAX then Written([], InvalidInput)
    else
      var rowPadded := RowPaddedAsWritten(width);
      if rowPadded * height > USIZE_MAX then Written([], InvalidInput)
      else
        var imageSize := rowPadded * height % U32_LIMIT;
        if PIXEL_DATA_OFFSET + imageSize >= U32_LIMIT then Written([], InvalidInput)
        else
          var fileHeader := FileHeader(PIXEL_DATA_OFFSET + imageSize);
          if width > I32_MAX || height > I32_MAX then Written(fileHeader, InvalidInput)
          else Written(fileHeader + InfoHeader(width, height, imageSize) + Rows(pixels, width, height), Ok)
  }

  /** The padded row length is a multiple of four: once 3 * width fits in a
      usize, the only way for it not to fit is to be exactly 2^64. */
  lemma RowPaddedOverflowIsExact(width: nat)
    requires 3 * width <= USIZE_MAX && RowPadded(width) > USIZE_MAX
    ensures RowPadded(width) == U64_LIMIT && RowPaddedAsWritten(width) == 0
    ensures width > I32_MAX
  {
  }

  /** The code as written and the corrected writer agree whenever the
      padded row length fits. */
  lemma AsWrittenAgreesWhenRowFits(pixels: seq<uint32>, width: usize, height: usize)
    requires RowPadded(width) <= USIZE_MAX
    ensures Bmp24FromRgbaLeAsWritten(pixels, width, height) == Bmp24FromRgbaLe(pixels, width, height)
  {
    assert RowPaddedAsWritten(width) * height == RowOffset(height, width);
  }

  /** When the padded row length does not fit but every earlier check
      passed, the code as written wraps it to 0, emits a file header for an
      empty image and then fails the i32 width check, where the corrected
      writer emits nothing. */
  lemma AsWrittenRowOverflow(pixels: seq<uint32>, width: usize, height: usize)
    requires width * height <= USIZE_MAX && width * height <= |pixels| && 3 * width <= USIZE_MAX
    requires RowPadded(width) > USIZE_MAX
    ensures Bmp24FromRgbaLeAsWritten(pixels, width, height) == Written(FileHeader(PIXEL_DATA_OFFSET), InvalidInput)
    ensures Bmp24FromRgbaLe(pixels, width, height) == Written([], InvalidInput)
  {
    RowPaddedOverflowIsExact(width);
  }

  /** For this width every check before the addition passes (with height 0
      the pixel count is 0 and an empty buffer suffices, and 3 * width is
      exactly usize::MAX), yet the padded row length is 2^64: the
      unchecked addition overflows and wraps to 0. The code as written then
      emits a 14-byte file header (file size 54) before failing; the
      corrected writer emits nothing. */
  lemma PaddedRowOverflows()
    ensures var width := 0x5555_5555_5555_5555;
      && width * 0 <= USIZE_MAX
      && 3 * width <= USIZE_MAX
      && RowPadded(width) == USIZE_MAX + 1
      && RowPaddedAsWritten(width) == 0
      && Bmp24FromRgbaLeAsWritten([], width, 0) == Written(FileHeader(PIXEL_DATA_OFFSET), InvalidInput)
      && Bmp24FromRgbaLe([], width, 0) == Written([], InvalidInput)
  {
  }

  /** When the writer succeeds every size it computed fits in a usize and
      the pixel data fills whole rows of a multiple of four bytes. */
  lemma BmpOkSizesFit(pixels: seq<uint32>, width: usize, height: usize)
    requires Bmp24FromRgbaLe(pixels, width, height).outcome == Ok
    ensures width * height <= |pixels|
    ensures 3 * width <= RowPadded(width) <= USIZE_MAX && RowPadded(width) % 4 == 0
    ensures RowPadded(width) * height <= USIZE_MAX
    ensures width <= I32_MAX && height <= I32_MAX
  {
  }

  /** The bytes of one stored row: the B, G, R bytes of each of its pixels,
      then `padding` zero bytes. One iteration of the writer's row loop. */
  method EncodeRow(row: seq<uint32>, padding: nat) returns (o: seq<byte>)
    requires padding <= 3
    ensures o == BgrRow(row) + Zeros(padding)
  {
    o := [];
    var x := 0;
    while x < |row|
      invariant 0 <= x <= |row|
      invariant o == BgrRow(row[..x])
    {
      var px := row[x];
      o := o + Bgr(px);
      assert row[..x + 1] == row[..x] + [px];
      BgrRowSnoc(row[..x], px);
      x := x + 1;
    }
    assert row[..|row|] == row;
    if padding != 0 {
      o := o + Zeros(padding);
    } else {
      assert Zeros(padding) == [];
    }
  }

  /** Row `y` is the stored form of pixels y * width .. y * width + width,
      and the first y + 1 rows are the first y rows followed by it. */
  lemma RowsStep(pixels: seq<uint32>, width: nat, y: nat)
    requires RowStart(y, width) + width <= |pixels|
    ensures RowStart(y + 1, width) <= |pixels|
    ensures Rows(pixels, width, y + 1) == Rows(pixels, width, y)
      + (BgrRow(pixels[RowStart(y, width) .. RowStart(y, width) + width]) + Zeros(Padding(width)))
  {
    NextRow(y, width);
    RowsSnoc(pixels, width, y);
    assert Window(pixels, RowStart(y, width), width) == pixels[RowStart(y, width) .. RowStart(y, width) + width];
  }

  /** One pass of the writer's outer loop: appends row `y`. */
  method AppendRow(o: seq<byte>, pixels: seq<uint32>, width: nat, y: nat, padding: nat)
    returns (o': seq<byte>)
    requires RowStart(y, width) + width <= |pixels| && padding == Padding(width)
    requires o == Rows(pixels, width, y)
    ensures RowStart(y + 1, width) <= |pixels|
    ensures o' == Rows(pixels, width, y + 1)
  {
    RowsStep(pixels, width, y);
    var start := y * width;
    var row := EncodeRow(pixels[start .. start + width], padding);
    o' := o + row;
  }

  /** The pixel data, the first `height` padded rows: the writer's outer
      row loop. */
  method EncodeRows(pixels: seq<uint32>, width: nat, height: nat, padding: nat) returns (o: seq<byte>)
    requires RowStart(height, width) <= |pixels| && padding == Padding(width)
    ensures o == Rows(pixels, width, height)
  {
    o := [];
    var y := 0;
    while y < height
      invariant 0 <= y <= height
      invariant RowStart(y, width) <= |pixels|
      invariant o == Rows(pixels, width, y)
    {
      RowsMonotone(y + 1, height, width);
      NextRow(y, width);
      o := AppendRow(o, pixels, width, y, padding);
      y := y + 1;
    }
  }

  /** The file header as the writer emits it: "BM", the file size, two
      reserved zero words, the pixel-data offset. */
  method WriteFileHeader(fileSize: int) returns (out: seq<byte>)
    requires 0 <= fileSize < U32_LIMIT
    ensures out == FileHeader(fileSize)
  {
    out := [66, 77];
    out := out + LE32(fileSize);
    out := out + LE16(0);
    out := out + LE16(0);
    out := out + LE32(PIXEL_DATA_OFFSET);
  }

  /** Writes the headers, then every row top to bottom. */
  method WriteBmp24FromRgbaLeToWriter(pixels: seq<uint32>, width: usize, height: usize) returns (w: Written)
    ensures w == Bmp24FromRgbaLe(pixels, width, height)
  {
    if width * height > USIZE_MAX || |pixels| < width * height {
      return Written([], InvalidInput);
    }
    if 3 * width > USIZE_MAX {
      return Written([], InvalidInput);
    }
    var rowBytes := 3 * width;
    var padding := (4 - rowBytes % 4) % 4;
    assert padding == Padding(width);
    if rowBytes + padding > USIZE_MAX {
      return Written([], InvalidInput);
    }
    var rowPadded := rowBytes + padding;
    var dataSize := rowPadded * height;
    assert dataSize == RowOffset(height, width);
    if dataSize > USIZE_MAX {
      return Written([], InvalidInput);
    }
    var imageSize := dataSize % U32_LIMIT;
    if PIXEL_DATA_OFFSET + imageSize >= U32_LIMIT {
      return Written([], InvalidInput);
    }
    var fileSize := PIXEL_DATA_OFFSET + imageSize;
    var out := WriteFileHeader(fileSize);
    if width > I32_MAX || height > I32_MAX {
      return Written(out, InvalidInput);
    }
    out := out + InfoHeader(width, height, imageSize);
    assert out == FileHeader(fileSize) + InfoHeader(width, height, imageSize);
    assert RowStart(height, width) == width * height;
    var data := EncodeRows(pixels, width, height, padding);
    w := Written(out + data, Ok);
  }
}
