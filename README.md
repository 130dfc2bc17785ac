# from-scratch-rust, modelled in Dafny

This project models the deterministic core of a small from-scratch graphics
and game toolkit written in Rust, and proves properties of that model.

- **kpix** (`pix_core.dfy`, `pix_io.dfy`): an RGBA colour packed
  little-endian into a `u32`, and a width x height `Surface` of packed
  pixels with clear, clipped set and get. The PPM writer for a surface is
  modelled too.
- **kraster2d** (`triangle_setup.dfy`, `triangle.dfy`, `texture.dfy`,
  `frame.dfy`):
  - the edge function, the signed area, the clamped bounding box and the
    top-left classification;
  - `draw_triangle_solid`, which scans the clamped box and fills the
    pixels whose centres pass the three edge tests;
  - the nearest-neighbour, edge-clamped texture sampler;
  - the `Frame` wrapper around a `Surface`.
- **kid** (`arena.dfy`): a generational arena. It is a vector of slots with
  an intrusive free list and a generation per slot, and it counts the live
  values.
- **krand** (`splitmix64.dfy`, `pcg32.dfy`, `krand.dfy`): SplitMix64 seeds a
  PCG32 (XSH-RR 64/32). Ranges are drawn with Lemire's multiply-and-reject
  method.
- **kimgfmt** (`ppm.dfy`, `bmp.dfy`, `imgfmt.dfy`): the binary PPM (P6)
  writer, the 24-bit top-down BMP writer (BITMAPFILEHEADER plus
  BITMAPINFOHEADER, rows padded to four bytes) and the format dispatch.
- **kplatform_term** (`term.dfy`):
  - the key-byte parser for single bytes and CSI cursor sequences;
  - the run-length truecolour row encoder (SGR `48;2;r;g;b`);
  - the chunked space writer;
  - the frame building of `present_to_writer`.
- **kloop** (`loop_config.dfy`, `fixed_loop.dfy`): the loop configuration,
  and the fixed-timestep loop with its accumulator, update cap and reset
  rule.
- **kmath** (`rect.dfy`, `vec.dfy`): half-open axis-aligned rectangles. A
  plain 2D/3D vector type supports the other modules.

Shared pieces are in `numeric.dfy` and `bytes.dfy`:
- machine-integer ranges and wrapping arithmetic;
- slice lemmas;
- decimal numerals;
- little-endian encodings;
- the `Written` record. A writer call is modelled as the bytes it hands to
  the writer plus its outcome.

Conventions:
- Coordinates, texture coordinates and alpha are `real`.
- Durations are whole nanoseconds.
- `usize` is 64 bits wide.
- Packed pixels are `bv32` where bit operations matter (kpix, rasterizer)
  and integers below 2^32 elsewhere.

Where the code does something stateful, the model is stateful:
- `Surface`, `Frame`, `Arena`, `SplitMix64`, `Pcg32`, `Krand` and
  `FixedLoop` are classes with `modifies` clauses.
- The writers and the rasterizer are loops with invariants. Each is proved
  against a specification function.

## Model

| member | source | states |
|---|---|---|
| Pix.PackedLayout | kpix/src/core.rs:16-21 | the packed word holds r, g, b, a in its bytes 0, 1, 2, 3 |
| Pix.PackUnpack | kpix/src/core.rs:17-27 | unpacking a packed colour gives the colour back |
| Pix.UnpackPack | kpix/src/core.rs:17-27 | packing an unpacked word gives the word back |
| Pix.IndexInRange | kpix/src/core.rs:64-73 | an in-bounds (x, y) has index y*width+x inside the buffer |
| Pix.IndexInjective | kpix/src/core.rs:72-73 | distinct in-bounds coordinates have distinct indices |
| Pix.PixelAt | kpix/src/core.rs:77-87 | get_pixel on a buffer is None exactly out of bounds |
| Pix.WithPixel | kpix/src/core.rs:64-74 | set_pixel on a buffer keeps its length |
| Pix.GetAfterSet | kpix/src/core.rs:64-87 | after set_pixel the written pixel reads back as the colour and every other pixel reads as before; out-of-bounds writes change nothing |
| Pix.Surface.constructor | kpix/src/core.rs:38-46 | width and height are stored and the buffer is width*height zeros |
| Pix.Surface.Clear | kpix/src/core.rs:58-61 | every element becomes color.to_u32() |
| Pix.Surface.SetPixel | kpix/src/core.rs:64-74 | the buffer becomes WithPixel of the old buffer: out of bounds ignored, else index y*width+x written |
| Pix.Surface.GetPixel | kpix/src/core.rs:77-87 | None exactly when (x, y) is outside the surface |
| PixIo.ColorRgb | kpix/src/io.rs:23-26 | three bytes per pixel |
| PixIo.SurfaceRaster | kpix/src/io.rs:23-27 | the raster has three bytes per buffer pixel |
| PixIo.WritePpmToWriter | kpix/src/io.rs:16-28 | the output is the P6 header for the surface size followed by R, G, B of every buffer pixel; no failure path |
| PixIo.SurfacePpmLength | kpix/src/io.rs:16-28 | the file is the header plus 3*width*height bytes and starts with "P6" |
| PixIo.SurfaceRasterAt | kpix/src/io.rs:23-26 | pixel k is bytes 3k..3k+3, its red, green and blue (alpha dropped) |
| PixIo.TwoPixelSurface | kpix/src/io.rs:35-48 | a 2 x 1 surface is written as "P6\n2 1\n255\n" then 10 20 30 40 50 60 |
| TriangleSetup.EdgeSignRightward | kraster2d/src/raster/triangle_setup.rs:5-9 | for a rightward horizontal edge the edge function is positive exactly below it (y down) and negative exactly above |
| TriangleSetup.EdgeReverse | kraster2d/src/raster/triangle_setup.rs:5-9 | reversing an edge negates the edge function; both end points give 0 |
| TriangleSetup.AreaSwapRotate | kraster2d/src/raster/triangle_setup.rs:13-15 | swapping two vertices negates the signed area and rotating them keeps it |
| TriangleSetup.CollinearZeroArea | kraster2d/src/raster/triangle_setup.rs:13-15 | three collinear points have zero signed area |
| TriangleSetup.EdgeSum | kraster2d/src/raster/triangle_setup.rs:5-15 | the three edge values at any point sum to the signed area |
| TriangleSetup.EdgeWeights | kraster2d/src/raster/triangle_setup.rs:5-15 | the edge values weight the vertices to area times the point (barycentric identity) |
| TriangleSetup.BBoxClamped | kraster2d/src/raster/triangle_setup.rs:19-39 | with width, height >= 1 every bound lies in [0, width-1] or [0, height-1] |
| TriangleSetup.BBoxOrdered | kraster2d/src/raster/triangle_setup.rs:26-38 | with positive extent on both axes, min <= max after clamping |
| TriangleSetup.CenterInBBox | kraster2d/src/raster/triangle_setup.rs:26-29 | a pixel whose centre lies within the vertex extent is inside floor(min) .. ceil(max)-1 |
| TriangleSetup.TopLeftExactlyOne | kraster2d/src/raster/triangle_setup.rs:44-48 | for a != b exactly one of is_top_left(a, b), is_top_left(b, a) holds; neither when a == b |
| Triangle.VertexNew | kraster2d/src/raster/triangle.rs:15-21 | keeps pos, zero uv, white colour |
| Triangle.PaintSolid | kraster2d/src/raster/triangle.rs:25-72 | painting keeps the buffer length |
| Triangle.OrientedPositive | kraster2d/src/raster/triangle.rs:30-41 | after the winding swap a non-degenerate triangle has area above EPS and the same vertices |
| Triangle.CoversWindingIndependent | kraster2d/src/raster/triangle.rs:37-65 | the inside test gives the same answer for (v0, v2, v1) as for (v0, v1, v2) |
| Triangle.CoversRotationIndependent | kraster2d/src/raster/triangle.rs:37-65 | the inside test does not depend on which vertex comes first |
| Triangle.EdgeInsideExactlyOne | kraster2d/src/raster/triangle.rs:47-49 | a point is inside exactly one of the two opposite traversals of a proper edge |
| Triangle.InsideWithinExtent | kraster2d/src/raster/triangle.rs:58-67 | a point passing all three edge tests lies within the vertices' extent |
| Triangle.CoveredInBBox | kraster2d/src/raster/triangle.rs:44-67 | every covered in-buffer pixel lies in the clamped bounding box the loops scan |
| Triangle.PaintSolidPixel | kraster2d/src/raster/triangle.rs:52-69 | a covered in-buffer pixel reads as the colour, every other pixel as before |
| Triangle.DegenerateUnchanged | kraster2d/src/raster/triangle.rs:31-34 | a triangle with area at most EPS leaves the buffer unchanged |
| Triangle.PaintWindingIndependent | kraster2d/src/raster/triangle.rs:37-41 | drawing (v0, v2, v1) paints the same buffer as (v0, v1, v2) |
| Triangle.PartialPaintStep | kraster2d/src/raster/triangle.rs:53-69 | one pixel of the scan keeps the loop invariant with the cursor one column on |
| Triangle.PartialPaintNextRow | kraster2d/src/raster/triangle.rs:52-53 | past the box's last column the invariant holds at the next row's first column |
| Triangle.PartialPaintEnds | kraster2d/src/raster/triangle.rs:52-71 | before the box nothing is painted; after its last row the partial paint is the whole paint |
| Triangle.DrawTriangleSolid | kraster2d/src/raster/triangle.rs:25-72 | the new buffer is PaintSolid of the old: exactly the covered in-buffer pixels become the colour |
| Triangle.ScanRow | kraster2d/src/raster/triangle.rs:53-70 | scanning one row of the box extends the painted prefix by that row |
| Triangle.SampleTriangleCoversPixel | kraster2d/src/raster/triangle.rs:79-94 | pixel (10, 10) is inside the triangle (5, 5), (25, 6), (10, 20), so the draw writes a pixel |
| Triangle.SplitSquareTiles | kraster2d/src/raster/triangle.rs:96-123 | each pixel of [2, 13) x [2, 13) is covered by exactly one of the two halves of the square |
| Triangle.SplitSquareFills | kraster2d/src/raster/triangle.rs:96-123 | drawing both halves into a 16 x 16 buffer fills every pixel of [2, 13) x [2, 13) with no cracks |
| Texture.FromRgbaLe | kraster2d/src/core/texture.rs:12-30 | with positive sizes and w*h pixels, the texture keeps the buffer and reports the given width and height |
| Texture.NearestTexel | kraster2d/src/core/texture.rs:34-42 | the texel index is below n, and for u in [0, 1] it is floor(u*(n-1) + 0.5) |
| Texture.NearestTexelClamps | kraster2d/src/core/texture.rs:34-42 | coordinates outside [0, 1] address the nearest edge texel |
| Texture.SampleNearest | kraster2d/src/core/texture.rs:33-44 | the colour is from_u32 of the stored texel at (tx, ty) |
| Texture.SampleCorners | kraster2d/src/core/texture.rs:33-44 | (0, 0) samples the first texel, (1, 1) the last, and (-1, -1) samples like (0, 0) |
| Texture.TwoByTwoCorners | kraster2d/src/core/texture.rs:51-73 | on a 2 x 2 texture the four corners of the unit square sample TL, TR, BL, BR |
| Frame.Frame.constructor | kraster2d/src/core/frame.rs:14-31 | the frame reports the given size over w*h zero pixels, with no depth buffer |
| Frame.Frame.Clear | kraster2d/src/core/frame.rs:35-37 | every pixel becomes color.to_u32() |
| Frame.Frame.SetPixel | kraster2d/src/core/frame.rs:41-43 | the buffer becomes WithPixel of the old: clipped write at y*width+x |
| Frame.Frame.GetSurface | kraster2d/src/core/frame.rs:47-55 | the surface view shares the buffer that pixels() shows |
| Arena.Live | kid/src/arena.rs:135-147 | the live pairs number the occupied slots, each addresses its value, in increasing index order |
| Arena.LiveComplete | kid/src/arena.rs:135-147 | every occupied slot appears among the live pairs with its current generation |
| Arena.LookupAfterWrite | kid/src/arena.rs:76-84 | writing slot i only changes what ids with index i address |
| Arena.LookupAfterAppend | kid/src/arena.rs:60-72 | appending a slot only gives meaning to ids with the new index |
| Arena.InvPop | kid/src/arena.rs:45-59 | filling and popping the free-list head keeps the arena invariant |
| Arena.InvAppend | kid/src/arena.rs:60-72 | appending an occupied slot with an empty free list keeps the invariant |
| Arena.InvRelease | kid/src/arena.rs:112-120 | emptying a slot, bumping its generation and pushing it keeps the invariant |
| Arena.InvRewrite | kid/src/arena.rs:86-94 | rewriting a value in place keeps the invariant |
| Arena.Arena.constructor | kid/src/arena.rs:28-34 | an empty arena: no slots, no free list, len 0 |
| Arena.Arena.WithCapacity | kid/src/arena.rs:36-42 | the same empty arena; the capacity is only a hint |
| Arena.Arena.Insert | kid/src/arena.rs:44-74 | the new id addresses the value, was dead before, no other id changes, len grows by one; it reuses the free-list head with its generation, or else appends at index len with generation 0 |
| Arena.Arena.Remove | kid/src/arena.rs:96-121 | returns the value a live id addressed and kills that id only; len drops by one; a stale, out-of-range or empty id changes nothing; the slot's generation wraps up by one and heads the free list |
| Arena.Arena.GetMut | kid/src/arena.rs:86-94 | a write through a live id is seen by get; other ids and len are unchanged; a stale id writes nothing |
| Arena.Arena.Contains | kid/src/arena.rs:123-125 | true exactly when the index is in range, the generation matches and the slot is occupied |
| Arena.Arena.Len | kid/src/arena.rs:127-129 | len equals the number of live pairs |
| Arena.Arena.IsEmpty | kid/src/arena.rs:131-133 | empty exactly when no id addresses a value |
| Arena.Arena.EmptyIffNoLive | kid/src/arena.rs:127-133 | len is 0 exactly when no id is live |
| Arena.Arena.Iter | kid/src/arena.rs:135-147 | yields exactly the live (id, value) pairs, len of them, in increasing index order |
| Arena.Arena.IterMut | kid/src/arena.rs:149-161 | every live value becomes f of itself; liveness, len and the free list are unchanged |
| Arena.RecycleInvalidatesOld | kid/src/arena.rs:205-216 | removing a live id and inserting again reuses its index with generation +1; the old id stays dead |
| SplitMix64.StateAfterClosedForm | krand/src/splitmix64.rs:24-25 | n draws from seed s leave the state at s + n*GAMMA mod 2^64 |
| SplitMix64.MixedSmallStates | krand/src/splitmix64.rs:27-31 | the finaliser's values on 0, 1 and 2 |
| SplitMix64.MixedWeylStates | krand/src/splitmix64.rs:27-31 | the finaliser's values on GAMMA and 2*GAMMA mod 2^64 |
| SplitMix64.FirstOutputsOfSmallSeeds | krand/src/splitmix64.rs:49-54 | seeds 1 and 2 give different first outputs |
| SplitMix64.FirstOutputsOfSeedZero | krand/src/splitmix64.rs:57-66 | from seed 0 the first three outputs are pairwise different |
| SplitMix64.SplitMix64.constructor | krand/src/splitmix64.rs:12-14 | the state is the seed |
| SplitMix64.SplitMix64.NextU64 | krand/src/splitmix64.rs:18-32 | returns the mix of the old state and advances the state by GAMMA mod 2^64 |
| Pcg32.SeedStateClosedForm | krand/src/pcg32.rs:14-28 | the seeded state is ((inc + init)*MULT + inc) mod 2^64 |
| Pcg32.RotationInRange | krand/src/pcg32.rs:37-39 | the rotation amount old >> 59 is below 32 |
| Pcg32.SeededWithStreamThree | krand/src/pcg32.rs:58-64 | the state seeded with 123456789 and stream 3 |
| Pcg32.SeededWithStreamSeven | krand/src/pcg32.rs:58-64 | the state seeded with 123456789 and stream 7 |
| Pcg32.OutputOfStreamThree | krand/src/pcg32.rs:37-39 | the XSH-RR output of the stream-3 state |
| Pcg32.OutputOfStreamSeven | krand/src/pcg32.rs:37-39 | the XSH-RR output of the stream-7 state |
| Pcg32.StreamsFirstOutputsDiffer | krand/src/pcg32.rs:58-64 | streams 3 and 7 give different first outputs |
| Pcg32.Pcg32.Seed | krand/src/pcg32.rs:14-28 | with an odd inc, the state is the seeding protocol's state and inc is kept |
| Pcg32.Pcg32.NextU32 | krand/src/pcg32.rs:32-40 | the state becomes old*MULT + inc mod 2^64 and the output is XSH-RR of the old state; inc unchanged |
| Krand.IncFromStream | krand/src/krand.rs:23 | the stream shifted left with the low bit set is odd |
| Krand.IncOf | krand/src/krand.rs:19-26 | the stream selector from a seed is odd |
| Krand.UnitReal | krand/src/krand.rs:36-40 | (x >> 8) / 2^24 lies in [0, 1) |
| Krand.Threshold | krand/src/krand.rs:52 | bound.wrapping_neg() % bound is below bound |
| Krand.ThresholdIsPowModBound | krand/src/krand.rs:51-52 | the threshold equals 2^32 mod bound |
| Krand.AcceptedInRange | krand/src/krand.rs:53-60 | an accepted draw is start + the high word, in [start, end) |
| Krand.AcceptIffAboveThreshold | krand/src/krand.rs:55-59 | a draw is rejected exactly when the low word of x*bound is below 2^32 mod bound |
| Krand.AcceptOne | krand/src/krand.rs:53-60 | with bound 1 every draw is accepted and gives start |
| Krand.RangeWithinBounds | krand/src/krand.rs:53-61 | every value the range draw returns lies in [start, end) |
| Krand.RangeOfOneIsStart | krand/src/krand.rs:80-89 | range start..start+1 returns start after exactly one step, so 0..1 gives 0 |
| Krand.SeedParts | krand/src/krand.rs:20-23 | the initial state and the odd stream selector are the first two SplitMix64 outputs |
| Krand.SeededPcg | krand/src/krand.rs:19-26 | the PCG32 is seeded from those two values |
| Krand.Krand.FromSeed | krand/src/krand.rs:19-26 | the inner PCG32 has inc IncOf(seed) and the seeded state |
| Krand.Krand.New | krand/src/krand.rs:15-17 | new is from_seed |
| Krand.Krand.NextU32 | krand/src/krand.rs:30-32 | exactly one PCG32 step and its output |
| Krand.Krand.NextF32 | krand/src/krand.rs:36-40 | one step; the result is the top 24 bits over 2^24, in [0, 1) |
| Krand.Krand.RangeU32 | krand/src/krand.rs:44-62 | the result and the new state are those of the rejection loop; any result is in [start, end) |
| Krand.Krand.TryDraw | krand/src/krand.rs:54-60 | one loop pass: one step, then accept or reject the draw |
| Bytes.DigitByte | kimgfmt/src/ppm.rs:40 | a decimal digit's ASCII code is a digit byte |
| Bytes.Decimal | kimgfmt/src/ppm.rs:40 | the numeral `{}` prints is non-empty and all digits |
| Bytes.DecimalRoundTrip | kimgfmt/src/ppm.rs:40 | reading the numeral back gives the number |
| Bytes.DecimalNoLeadingZero | kimgfmt/src/ppm.rs:40 | only 0 is written with a leading zero |
| Bytes.DecimalInjective | kimgfmt/src/ppm.rs:40 | different numbers have different numerals |
| Bytes.LE16 | kimgfmt/src/bmp.rs:56-77 | a u16 field is two bytes |
| Bytes.LE32 | kimgfmt/src/bmp.rs:56-77 | a u32 field is four bytes |
| Bytes.I32LE | kimgfmt/src/bmp.rs:67-77 | an i32 field is four bytes |
| Bytes.LE32RoundTrip | kimgfmt/src/bmp.rs:56-77 | u32 little-endian encoding decodes back |
| Bytes.I32LERoundTrip | kimgfmt/src/bmp.rs:67-77 | i32 two's-complement little-endian encoding decodes back |
| Ppm.PpmHeader | kimgfmt/src/ppm.rs:40 | the header is 9 bytes plus the two numerals |
| Ppm.Rgb | kimgfmt/src/ppm.rs:43-45 | three bytes per pixel |
| Ppm.AlphaIgnored | kimgfmt/src/ppm.rs:43-45 | pixels that differ only in alpha give the same bytes |
| Ppm.RgbPayload | kimgfmt/src/ppm.rs:43-46 | three bytes per pixel written |
| Ppm.PpmErrors | kimgfmt/src/ppm.rs:28-37 | InvalidInput with nothing written exactly when width*height overflows or the buffer is short |
| Ppm.PpmLength | kimgfmt/src/ppm.rs:40-46 | a successful write is the header plus 3*width*height bytes |
| Ppm.ExtraPixelsIgnored | kimgfmt/src/ppm.rs:43 | pixels beyond width*height do not change the output |
| Ppm.RgbPayloadAt | kimgfmt/src/ppm.rs:43-46 | pixel k is bytes 3k..3k+3: its R, G, B |
| Ppm.HeaderFields | kimgfmt/src/ppm.rs:40 | the width and height numerals can be read back from the header |
| Ppm.PpmHeaderInjective | kimgfmt/src/ppm.rs:40 | different sizes give different headers |
| Ppm.SmallHeader | kimgfmt/src/ppm.rs:63-64 | the 2 x 1 header is "P6\n2 1\n255\n" |
| Ppm.TwoPixelRaster | kimgfmt/src/ppm.rs:57-65 | the raster of the two test pixels is 10 20 30 40 50 60 |
| Ppm.TwoPixelExample | kimgfmt/src/ppm.rs:54-66 | the whole 2 x 1 file is that header then that raster |
| Ppm.WritePpmFromRgbaLeToWriter | kimgfmt/src/ppm.rs:22-48 | the loop writes exactly PpmFromRgbaLe: header then R, G, B of the first width*height pixels, or the error |
| ImgFmt.SaveRgbaLeToWriter | kimgfmt/src/lib.rs:74-85 | Format::Ppm gives the PPM writer's result and Format::Bmp24 the BMP writer's |
| ImgFmt.OnePixelPpm | kimgfmt/src/lib.rs:119-126 | the 1 x 1 PPM starts with "P6\n1 1\n255\n" and ends with 1, 2, 3 |
| ImgFmt.OnePixelBmp | kimgfmt/src/lib.rs:127-131 | the 1 x 1 BMP starts with "BM" and has B, G, R = 3, 2, 1 at bytes 54..57 |
| ImgFmt.StoredPixel | kimgfmt/src/lib.rs:131 | (1, 2, 3, 255) is stored as 3, 2, 1 |
| ImgFmt.OnePixelBmpAccepted | kimgfmt/src/lib.rs:127-131 | the 1 x 1 image is written successfully |
| Bmp.Padding | kimgfmt/src/bmp.rs:44 | padding is at most 3 and makes the padded row a multiple of 4 |
| Bmp.Bgr | kimgfmt/src/bmp.rs:84-87 | three bytes per pixel, blue first |
| Bmp.BgrRow | kimgfmt/src/bmp.rs:82-88 | three bytes per pixel of the row |
| Bmp.NextRow | kimgfmt/src/bmp.rs:79-91 | each row starts width pixels and row_padded bytes after the previous |
| Bmp.Row | kimgfmt/src/bmp.rs:81-90 | a stored row is row_padded bytes long |
| Bmp.Rows | kimgfmt/src/bmp.rs:79-91 | the pixel data of rows rows is rows*row_padded bytes long |
| Bmp.FileHeader | kimgfmt/src/bmp.rs:56-60 | the file header is 14 bytes |
| Bmp.InfoHeader | kimgfmt/src/bmp.rs:67-77 | the info header is 40 bytes |
| Bmp.Bmp24FromRgbaLe | kimgfmt/src/bmp.rs:25-93 | on success the padded row length and the image size fit in a usize, and the file is 54 + row_padded*height bytes |
| Bmp.BmpErrors | kimgfmt/src/bmp.rs:31-66 | the outcome case by case: nothing is written exactly when a size check or the buffer check fails; when they pass and width or height exceeds i32::MAX the output is exactly the file header with file size 54 + image_size; the write succeeds if and only if every check passes and both fit an i32 |
| Bmp.HeaderFields | kimgfmt/src/bmp.rs:56-77 | the variable header fields decode back: "BM", file size, offset 54, info-header size 40, width, -height, image size; the bytes after 54 are the data |
| Bmp.InfoHeaderConstants | kimgfmt/src/bmp.rs:67-77 | within the info header: planes 1, 24 bits per pixel, compression 0, and the four trailing fields zero |
| Bmp.HeaderFixedFields | kimgfmt/src/bmp.rs:56-77 | in the file: reserved bytes 6..10 zero, planes = 1 at 26, bit count = 24 at 28, compression = 0 at 30..34, bytes 38..54 zero |
| Bmp.BmpOkParts | kimgfmt/src/bmp.rs:46-91 | a successful file is file header, info header and the padded rows, with image_size truncated to u32 |
| Bmp.BmpLayout | kimgfmt/src/bmp.rs:46-91 | the file is 54 + height*row_padded bytes and the padded rows follow byte 54 |
| Bmp.BmpSizeFields | kimgfmt/src/bmp.rs:46-77 | the file-size field is the file length and the image-size field the pixel-data length when that fits 32 bits |
| Bmp.RowsPrefix | kimgfmt/src/bmp.rs:79-91 | the first k rows are a prefix of the pixel data |
| Bmp.RowAt | kimgfmt/src/bmp.rs:79-91 | row y occupies bytes y*row_padded .. (y+1)*row_padded of the pixel data |
| Bmp.PixelInRow | kimgfmt/src/bmp.rs:82-88 | pixel x of a stored row is bytes 3x..3x+3 |
| Bmp.PixelBytesAt | kimgfmt/src/bmp.rs:79-91 | pixel (x, y) is B, G, R at byte y*row_padded + 3x of the pixel data |
| Bmp.PaddingBytesAt | kimgfmt/src/bmp.rs:89 | the padding bytes of every row are zero |
| Bmp.BgrRowAt | kimgfmt/src/bmp.rs:84-87 | pixel k of a run is bytes 3k..3k+3 |
| Bmp.RowPaddedAsWritten | kimgfmt/src/bmp.rs:45 | the unchecked usize addition as written: a wrapped value that equals row_padded when that fits |
| Bmp.RowPaddedOverflowIsExact | kimgfmt/src/bmp.rs:41-45 | once 3*width fits, an overflowing padded row is exactly 2^64, wraps to 0, and the width exceeds i32::MAX |
| Bmp.AsWrittenAgreesWhenRowFits | kimgfmt/src/bmp.rs:41-49 | the code as written and the corrected writer give the same bytes and outcome whenever the padded row fits |
| Bmp.AsWrittenRowOverflow | kimgfmt/src/bmp.rs:41-64 | when only the padded row overflows, the code as written emits the file header for size 54 and fails, the corrected writer emits nothing |
| Bmp.PaddedRowOverflows | kimgfmt/src/bmp.rs:32-64 | a width that passes every earlier check and whose padded row wraps to 0; the code as written then emits a 14-byte header and fails, the corrected writer emits nothing |
| Bmp.BmpOkSizesFit | kimgfmt/src/bmp.rs:32-66 | on success every computed size fits a usize, the padded row is a multiple of 4, and both sizes fit an i32 |
| Bmp.EncodeRow | kimgfmt/src/bmp.rs:82-89 | the loop writes B, G, R of each pixel, then the padding zeros |
| Bmp.AppendRow | kimgfmt/src/bmp.rs:80-90 | one row iteration appends the stored row |
| Bmp.EncodeRows | kimgfmt/src/bmp.rs:79-91 | the row loop writes Rows: every padded row, top row first |
| Bmp.WriteFileHeader | kimgfmt/src/bmp.rs:56-60 | the write calls produce FileHeader |
| Bmp.WriteBmp24FromRgbaLeToWriter | kimgfmt/src/bmp.rs:25-93 | the writer's output and outcome are those of Bmp24FromRgbaLe |
| Term.ParseEvent | kplatform_term/src/lib.rs:230-254 | a decoded event is a key press that used between 1 and len bytes |
| Term.CursorKeys | kplatform_term/src/lib.rs:236-244 | ESC [ A/B/C/D gives Up/Down/Right/Left using 3 bytes; any other third byte gives None |
| Term.LoneEscape | kplatform_term/src/lib.rs:236-247 | ESC gives Escape using 1 byte exactly when fewer than 3 bytes are present or the second is not '[' |
| Term.ControlKeys | kplatform_term/src/lib.rs:249-250 | Enter exactly for CR or LF, Backspace exactly for DEL or BS |
| Term.CharKeys | kplatform_term/src/lib.rs:251 | Char(c) exactly for a printable ASCII byte c, using 1 byte |
| Term.Unrecognised | kplatform_term/src/lib.rs:231-233 | an empty buffer or an unknown first byte gives None |
| Term.ThreeBytesSuffice | kplatform_term/src/lib.rs:230-254 | bytes after the third never change the result |
| Term.ConsumedBytesDecide | kplatform_term/src/lib.rs:230-254 | a decoded key other than Escape stays the same whatever follows the bytes it used |
| Term.KeyExamples | kplatform_term/src/lib.rs:351-375 | 'a', '\n', DEL, the four cursor sequences and a lone ESC decode as the tests expect |
| Term.Spaces | kplatform_term/src/lib.rs:160-168 | n bytes, all spaces |
| Term.WriteSpaces | kplatform_term/src/lib.rs:160-168 | the chunks spell exactly len spaces, in ceil(len/64) chunks of 1 to 64 bytes |
| Term.RunCount | kplatform_term/src/lib.rs:141-153 | a row has at most as many runs as pixels |
| Term.CellsSnoc | kplatform_term/src/lib.rs:141-153 | adding a pixel adds its cell: an escape when its RGB differs, then a space |
| Term.WriteRowTruecolor | kplatform_term/src/lib.rs:133-158 | the loop over cur and run writes exactly RowLine(row) |
| Term.CountConcat | kplatform_term/src/lib.rs:133-158 | byte counts add over concatenation |
| Term.CellCounts | kplatform_term/src/lib.rs:133-158 | the cells hold one space per pixel, one escape per run and no newline |
| Term.RowLineCounts | kplatform_term/src/lib.rs:133-158 | a row's line has len spaces, one escape per run plus the reset's, and one newline |
| Term.RowLineEnd | kplatform_term/src/lib.rs:155-156 | every line ends with "\x1b[0m\n" |
| Term.RowLineStart | kplatform_term/src/lib.rs:133-140 | an empty row gives only the reset; otherwise the line opens with the first pixel's escape |
| Term.ThreeRuns | kplatform_term/src/lib.rs:318-331 | the test row a a a b b c c c c has three runs |
| Term.ExampleRowLine | kplatform_term/src/lib.rs:318-331 | its line has 4 escapes (three colours and the reset) and 9 spaces |
| Term.ExampleSgr | kplatform_term/src/lib.rs:140 | (10, 20, 30) selects "\x1b[48;2;10;20;30m" |
| Term.AppendRowLine | kplatform_term/src/lib.rs:190-193 | one loop pass appends row y's line |
| Term.BuildFrame | kplatform_term/src/lib.rs:188-193 | the frame is cursor-home then the line of every row |
| Term.PresentToWriter | kplatform_term/src/lib.rs:170-196 | the result is Present: InvalidInput or the built frame |
| Term.PresentErrors | kplatform_term/src/lib.rs:177-184 | InvalidInput with nothing written exactly when the buffer is shorter than width*height |
| Term.FrameRowsNewlines | kplatform_term/src/lib.rs:190-193 | the rows of a frame hold one newline each |
| Term.PresentShape | kplatform_term/src/lib.rs:186-193 | a successful frame starts with cursor-home and holds height newlines |
| Term.OnePixelFrame | kplatform_term/src/lib.rs:306-316 | the 1 x 1 frame is home, "\x1b[48;2;10;20;30m", one space and the reset |
| LoopConfig.NearestNanos | ktime/src/duration.rs:14-20 | one second over hz, rounded to the nearest nanosecond with ties to even |
| LoopConfig.NearestNanosAtMostSecond | kloop/src/config.rs:16 | the rounded step is at most one second |
| LoopConfig.FromHz | kloop/src/config.rs:14-23 | the rate is never 0 (0 means 60), the step is 1/rate to the nearest ns, and the limits are 250 ms and 10 |
| LoopConfig.WithLimits | kloop/src/config.rs:25-29 | only the two limits change |
| LoopConfig.ZeroHzIsDefault | kloop/src/config.rs:14-36 | from_hz(0) == from_hz(60) == default |
| LoopConfig.DefaultValues | kloop/src/config.rs:32-36 | the default is 60 Hz, a 16 666 667 ns step, 250 ms and 10 updates |
| LoopConfig.FastRateHasZeroStep | kloop/src/config.rs:16 | a rate above 2e9 Hz gives a zero step |
| LoopConfig.WithLimitsLastWins | kloop/src/config.rs:25-29 | setting the limits twice keeps the second pair |
| FixedLoop.FrameDt | kloop/src/fixed_loop.rs:36-42 | elapsed time, 0 if the clock went backwards, capped at max_frame_dt |
| FixedLoop.SaturatingAdd | kloop/src/fixed_loop.rs:43 | the sum, or Duration::MAX when it would overflow |
| FixedLoop.StepCount | kloop/src/fixed_loop.rs:45-50 | at most the cap; total/step when that fits; the cap when the step is 0 |
| FixedLoop.Updates | kloop/src/fixed_loop.rs:47 | n update calls, each with the fixed step |
| FixedLoop.FixedLoop.constructor | kloop/src/fixed_loop.rs:23-32 | last is now; accumulator and frame index are 0 |
| FixedLoop.FixedLoop.Tick | kloop/src/fixed_loop.rs:35-70 | last becomes now; updates is StepCount of old accumulator + frame_dt; the accumulator is the leftover or 0 at the cap; alpha as specified; the calls are the updates then one render; frame index + 1 |
| FixedLoop.FixedLoop.RunSteps | kloop/src/fixed_loop.rs:73-78 | n updates and no render; frame index + n; last and accumulator unchanged |
| FixedLoop.StepsDone | kloop/src/fixed_loop.rs:45-55 | when the loop stops it has run StepCount updates and kept the leftover |
| FixedLoop.LeftoverBelowStep | kloop/src/fixed_loop.rs:46-55 | with a non-zero step less than one step is left |
| FixedLoop.TimeConserved | kloop/src/fixed_loop.rs:43-50 | below the cap, steps run plus leftover equal the accumulated time |
| FixedLoop.AlphaRange | kloop/src/fixed_loop.rs:57-64 | alpha lies in [0, 0.999999] and is 0 when the step is 0 |
| FixedLoop.AlphaIsFraction | kloop/src/fixed_loop.rs:60-63 | below the clamp, alpha is the leftover as a fraction of the step |
| FixedLoop.OneSecondAtSixtyHz | kloop/src/fixed_loop.rs:111-128 | one second at 60 Hz with room for 1000 updates runs 59 updates |
| FixedLoop.ClampedJump | kloop/src/fixed_loop.rs:130-143 | a 500 ms jump against a 50 ms limit and cap 3 runs 2 updates |
| Rect.FromMinMax | kmath/src/rect.rs:17-21 | the result is normalised (min <= max per axis) and spans the two points |
| Rect.FromOriginSize | kmath/src/rect.rs:24-27 | equals from_min_max(origin, origin + size), so negative sizes are normalised |
| Rect.Union | kmath/src/rect.rs:68-72 | the componentwise min and max, which contains both rectangles |
| Rect.ExpandToIncludePoint | kmath/src/rect.rs:75-79 | the result is normalised and reaches the point; from a normalised rect it contains the rect and the point's rect and lies inside every rect that contains both |
| Rect.SizeIsExtent | kmath/src/rect.rs:35-44 | origin + size is the max corner, size is (width, height), and the center is equidistant from the min and max corners |
| Rect.EmptyIffNoPoint | kmath/src/rect.rs:47-52 | a normalised rectangle is empty exactly when it contains no point |
| Rect.HalfOpenCorners | kmath/src/rect.rs:50-52 | the min corner is inside and the max corner is outside a non-empty rectangle |
| Rect.CommonPointIntersects | kmath/src/rect.rs:61-65 | a shared point means the rectangles intersect |
| Rect.IntersectsHasCommonPoint | kmath/src/rect.rs:61-65 | non-empty rectangles intersect exactly when they share a point |
| Rect.IntersectsSymmetric | kmath/src/rect.rs:61-65 | intersects(a, b) == intersects(b, a) for every pair of rectangles |
| Rect.TouchingDoesNotIntersect | kmath/src/rect.rs:61-65 | rectangles touching at an edge do not intersect |
| Rect.ContainsRectTransfersPoints | kmath/src/rect.rs:50-58 | every point of a contained rectangle is in the container |
| Rect.UnionNormalized | kmath/src/rect.rs:68-86 | union and both expansions keep a rectangle normalised |
| Rect.ExpandPointIsUnion | kmath/src/rect.rs:75-79 | expanding to a point is the union with the degenerate rectangle at that point |
| Rect.FoldExpandIsFoldUnion | kmath/src/rect.rs:213-234 | folding expand over points equals folding union over point rectangles |

## Left out

- File-path writers (`File::create` with `BufWriter`), stdout, stdin reading, termios raw mode, `TermGuard` and `sleep` are not modelled. Writer failures of the underlying `Write` are not modelled either. A writer call is the bytes it hands over plus an `Ok` or `InvalidInput` outcome.
- `robust_write_all` and `robust_flush` (WouldBlock retries) are not modelled; `present_to_writer` ends at the built frame.
- f32 and f64 arithmetic is exact `real` arithmetic. This covers coordinates, edge values, uv, rectangle bounds and alpha. NaN, infinities and the saturating float-to-int casts are not modelled.
- kmath's vector and matrix numerics (length, normalise, lerp, sqrt, transforms) are not modelled; `vec.dfy` only carries the component types.
- Clocks are not modelled: `ktime` and `Instant` become a nanosecond count passed to `Tick`. The `App` is the sequence of update and render calls a tick makes.
- LoopConfig.NearestNanos: `from_secs_f64(1.0 / hz)` is modelled as exact rounding to the nearest nanosecond, ties to even. The f64 quotient can move an exact tie (hz = 1024 * 5^j) to the other neighbour. The `u64::MAX` seconds fallback is never reached for a positive integer rate.
- FixedLoop.FixedLoop.Tick: alpha is the exact quotient clamped to [0, 0.999999]; the `as_secs_f64` division and the `as f32` cast are not modelled.
- FixedLoop.FixedLoop: the frame index is unbounded; the u64 overflow after 2^64 frames is not modelled.
- Krand.Krand.RangeU32: the source loops until a draw is accepted. The model gives up after `maxDraws` draws and returns None, because termination of the rejection loop depends on the generator's outputs.
- Krand.Krand.RangeU32: `start < end` is a precondition, as the source panics otherwise.
- Pcg32.Pcg32.Seed: an odd increment is a precondition, as the source documents.
- TriangleSetup.BBoxClamped and Triangle.DrawTriangleSolid require a frame of width and height at least 1 for a non-degenerate triangle. With a zero size the source calls `i32::clamp(0, -1)`, which panics.
- Triangle.DrawTriangleSolid: frame sizes above `i32::MAX` are excluded, because the `as i32` casts would truncate.
- Texture.FromRgbaLe: positive sizes and `len == width * height` are preconditions, as the source asserts; `saturating_mul` never saturates for a buffer that exists.
- Pix.Surface.constructor and Frame.Frame.constructor: `width * height` is bounded by the largest `Vec<u32>`; beyond it the allocation aborts, so `saturating_mul` never saturates here.
- Pix.Surface.GetPixel: the contract states only when the result is None. The value read back is stated by GetAfterSet on the buffer function.
- Arena.Arena.Insert: with an empty free list it requires fewer than 2^32 slots. The source's `slots.len() as u32` would truncate the new index beyond that.
- Arena.Arena.GetMut: the returned `&mut T` is modelled as a write of the new value through a live id.
- The bit-vector and integer forms of a packed pixel are shown equal only where a proof needs them (the example lemmas). The general agreement of kpix's bv32 pixels with kimgfmt's integer pixels is not stated.
- Term.FrameRows: it reads rows y * width .. y * width + width, which the length check keeps inside the buffer; a row past the buffer never occurs and is modelled as empty.
- The PPM writer in `kimgfmt/src/lib.rs` (lines 31-57) is byte-for-byte the one in `kimgfmt/src/ppm.rs`. Both are modelled by the `Ppm` module, and `ImgFmt.SaveRgbaLeToWriter` dispatches to it.
- `Default` for the loop configuration is `LoopConfig.Default`, whose values LoopConfig.DefaultValues states.
- The `kplatform_core` key and event types are mirrored as datatypes in `term.dfy`; their `Display` is not modelled.
- Bmp.Bmp24FromRgbaLe: when only the padded row length overflows, it writes nothing, where the code as written first emits the 14-byte file header (see Findings). Bmp.Bmp24FromRgbaLeAsWritten models the code as written, and Bmp.AsWrittenAgreesWhenRowFits shows the two agree on every other input.
- PixIo.SurfaceRaster: kpix's raster is defined on bv32 pixels and Ppm.RgbPayload on integer pixels; the two take the same bytes of each pixel, but their equality is not stated, because proofs that convert a bv32 value to an integer do not close within the verifier's resource limit.
- Two behaviours of kraster2d worth noting, both modelled as the code has them:
  - The triangle bounding box is clamped at both ends. A triangle wholly outside the frame still gets a non-empty box, and the edge tests reject its pixels.
  - A non-degenerate triangle on a zero-size frame panics rather than painting nothing.

## Findings

| source | as written | input that shows it | evidently intended | confidence | as-written member | corrected member |
|---|---|---|---|---|---|---|
| kimgfmt/src/bmp.rs:45 | `row_bytes + padding` is an unchecked usize addition after `width * 3` was checked | width = 0x5555_5555_5555_5555, height = 0, empty pixel buffer: every earlier check passes, 3 * width = usize::MAX, padding = 1, and the padded row wraps to 0. A release build then computes image_size = 0, writes the 14-byte file header with file size 54, and fails the i32 width check with InvalidInput; a debug build panics at the addition | the padded row length is checked like the other sizes, and the write fails with InvalidInput before any byte is written | not executed | Bmp.Bmp24FromRgbaLeAsWritten, Bmp.AsWrittenRowOverflow, Bmp.PaddedRowOverflows | Bmp.Bmp24FromRgbaLe |
