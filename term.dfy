/** The byte-level pieces of the ANSI terminal platform: decoding key
    presses from raw input bytes (control characters and the ECMA-48 CSI
    cursor-key sequences ESC [ A..D), and encoding a frame of packed RGBA
    pixels as rows of spaces whose background colour is set with the
    truecolour SGR sequence ESC [ 48 ; 2 ; r ; g ; b m, run-length encoded so
    that one escape covers each maximal run of equal colour. */
module Term {
  import opened Numeric
  import opened Bytes
  import Ppm

  // Input events (the platform-independent event types).

  datatype Key = Escape | Enter | Backspace | Left | Right | Up | Down | Char(c: char)

  datatype MouseButton = ButtonLeft | ButtonMiddle | ButtonRight | ButtonOther(code: byte)

  datatype Event =
    | CloseRequested
    | KeyDown(key: Key)
    | KeyUp(key: Key)
    | MouseMove(x: int, y: int)
    | MouseDown(button: MouseButton, x: int, y: int)
    | MouseUp(button: MouseButton, x: int, y: int)

  const ESC: byte := 0x1B
  const CR: byte := 13
  const LF: byte := 10
  const DEL: byte := 0x7F
  const BS: byte := 0x08
  /** '[' */
  const CSI_BRACKET: byte := 91

  /** Decodes the key press at the start of `buf`, with the number of bytes
      it takes up; None for an empty buffer, an unknown byte, or a CSI
      sequence other than the four cursor keys. */
  function ParseEvent(buf: seq<byte>): (r: Option<(Event, nat)>)
    ensures r.Some? ==> 1 <= r.value.1 <= |buf| && r.value.0.KeyDown?
  {
    if buf == [] then None
    else if buf[0] == ESC then
      if |buf| >= 3 && buf[1] == CSI_BRACKET then
        if buf[2] == 65 then Some((KeyDown(Up), 3))
        else if buf[2] == 66 then Some((KeyDown(Down), 3))
        else if buf[2] == 67 then Some((KeyDown(Right), 3))
        else if buf[2] == 68 then Some((KeyDown(Left), 3))
        else None
      else Some((KeyDown(Escape), 1))
    else if buf[0] == CR || buf[0] == LF then Some((KeyDown(Enter), 1))
    else if buf[0] == DEL || buf[0] == BS then Some((KeyDown(Backspace), 1))
    else if 0x20 <= buf[0] <= 0x7E then Some((KeyDown(Char(buf[0] as char)), 1))
    else None
  }

  /** ESC [ followed by A, B, C or D is a cursor key taking three bytes;
      followed by any other byte it is not recognised at all. */
  lemma CursorKeys(buf: seq<byte>)
    requires |buf| >= 3 && buf[0] == ESC && buf[1] == CSI_BRACKET
    ensures ParseEvent(buf).Some? <==> 65 <= buf[2] <= 68
    ensures buf[2] == 65 ==> ParseEvent(buf) == Some((KeyDown(Up), 3))
    ensures buf[2] == 66 ==> ParseEvent(buf) == Some((KeyDown(Down), 3))
    ensures buf[2] == 67 ==> ParseEvent(buf) == Some((KeyDown(Right), 3))
    ensures buf[2] == 68 ==> ParseEvent(buf) == Some((KeyDown(Left), 3))
  {
  }

  /** ESC not followed by '[' and a third byte is the Escape key on its own. */
  lemma LoneEscape(buf: seq<byte>)
    requires |buf| >= 1 && buf[0] == ESC
    ensures ParseEvent(buf) == Some((KeyDown(Escape), 1)) <==> |buf| < 3 || buf[1] != CSI_BRACKET
  {
  }

  /** Exactly CR and LF give Enter, DEL and BS give Backspace. */
  lemma ControlKeys(buf: seq<byte>)
    requires |buf| >= 1
    ensures ParseEvent(buf) == Some((KeyDown(Enter), 1)) <==> buf[0] == CR || buf[0] == LF
    ensures ParseEvent(buf) == Some((KeyDown(Backspace), 1)) <==> buf[0] == DEL || buf[0] == BS
  {
  }

  /** A character key is exactly a printable ASCII byte, read back as that
      character and taking one byte. */
  lemma CharKeys(buf: seq<byte>, c: char, n: nat)
    ensures ParseEvent(buf) == Some((KeyDown(Char(c)), n))
      <==> |buf| >= 1 && 0x20 <= buf[0] <= 0x7E && c as int == buf[0] && n == 1
  {
  }

  /** Nothing is decoded from an empty buffer or from a byte that is neither
      ESC, a control key nor printable ASCII. */
  lemma Unrecognised(buf: seq<byte>)
    requires buf == [] || (buf[0] != ESC && buf[0] != CR && buf[0] != LF
      && buf[0] != DEL && buf[0] != BS && !(0x20 <= buf[0] <= 0x7E))
    ensures ParseEvent(buf) == None
  {
  }

  /** Only the first three bytes are ever inspected. */
  lemma ThreeBytesSuffice(buf: seq<byte>, rest: seq<byte>)
    requires |buf| >= 3
    ensures ParseEvent(buf + rest) == ParseEvent(buf)
  {
    assert (buf + rest)[..3] == buf[..3];
  }

  /** A decoded key other than Escape depends only on the bytes it takes
      up: whatever follows them, the same key is decoded. Escape is the
      exception, since further bytes may turn it into a cursor key. */
  lemma ConsumedBytesDecide(buf: seq<byte>, e: Event, n: nat, rest: seq<byte>)
    requires ParseEvent(buf) == Some((e, n)) && e != KeyDown(Escape)
    ensures ParseEvent(buf[..n] + rest) == Some((e, n))
  {
    assert (buf[..n] + rest)[..n] == buf[..n];
  }

  /** The keys of the source's examples: 'a', '\n', DEL and the cursor keys. */
  lemma KeyExamples()
    ensures ParseEvent([97]) == Some((KeyDown(Char('a')), 1))
    ensures ParseEvent([10]) == Some((KeyDown(Enter), 1))
    ensures ParseEvent([0x7F]) == Some((KeyDown(Backspace), 1))
    ensures ParseEvent([27, 91, 65]) == Some((KeyDown(Up), 3))
    ensures ParseEvent([27, 91, 66]) == Some((KeyDown(Down), 3))
    ensures ParseEvent([27, 91, 67]) == Some((KeyDown(Right), 3))
    ensures ParseEvent([27, 91, 68]) == Some((KeyDown(Left), 3))
    ensures ParseEvent([27]) == Some((KeyDown(Escape), 1))
  {
  }

  // Output: spaces, colour escapes and rows.

  const SPACE: byte := 32
  /** "\x1b[48;2;" */
  const SGR_BG_PREFIX: seq<byte> := [27, 91, 52, 56, 59, 50, 59]
  const SEMICOLON: byte := 59
  /** 'm' */
  const SGR_END: byte := 109
  /** "\x1b[0m\n": reset attributes, end the line. */
  const RESET_NL: seq<byte> := [27, 91, 48, 109, 10]
  /** "\x1b[H": cursor home. */
  const HOME: seq<byte> := [27, 91, 72]
  /** Size of the constant buffer spaces are written from. */
  const SPACE_CHUNK: nat := 64

  /** `n` spaces. */
  function Spaces(n: nat): (s: seq<byte>)
    ensures |s| == n && forall i :: 0 <= i < n ==> s[i] == SPACE
  {
    seq(n, i => SPACE)
  }

  /** The concatenation of the chunks handed to the writer. */
  function Flatten(chunks: seq<seq<byte>>): seq<byte>
    decreases |chunks|
  {
    if chunks == [] then [] else Flatten(chunks[..|chunks| - 1]) + chunks[|chunks| - 1]
  }

  /** Writes `len` spaces from a 64-byte buffer: full chunks of 64, then the
      remainder. The result is the sequence of writes. */
  method WriteSpaces(len: nat) returns (chunks: seq<seq<byte>>)
    ensures Flatten(chunks) == Spaces(len)
    ensures forall k :: 0 <= k < |chunks| ==> 1 <= |chunks[k]| <= SPACE_CHUNK
    ensures |chunks| == (len + SPACE_CHUNK - 1) / SPACE_CHUNK
  {
    var buf := Spaces(SPACE_CHUNK);
    var left: nat := len;
    chunks := [];
    while left > 0
      invariant left <= len
      invariant Flatten(chunks) == Spaces(len - left)
      invariant forall k :: 0 <= k < |chunks| ==> 1 <= |chunks[k]| <= SPACE_CHUNK
      invariant left > 0 ==> len - left == SPACE_CHUNK * |chunks|
      invariant left == 0 ==> |chunks| == (len + SPACE_CHUNK - 1) / SPACE_CHUNK
    {
      var n := Min(left, SPACE_CHUNK);
      ghost var before := chunks;
      chunks := chunks + [buf[..n]];
      assert chunks[..|chunks| - 1] == before;
      assert Spaces(len - left) + buf[..n] == Spaces(len - left + n);
      if n < SPACE_CHUNK {
        DivModUnique(len + SPACE_CHUNK - 1, SPACE_CHUNK, |chunks|, n - 1);
      } else if left == n {
        DivModUnique(len + SPACE_CHUNK - 1, SPACE_CHUNK, |chunks|, SPACE_CHUNK - 1);
      }
      left := left - n;
    }
  }

  /** The truecolour background escape for a colour. */
  function SgrBackground(r: byte, g: byte, b: byte): seq<byte>
  {
    SGR_BG_PREFIX + Decimal(r) + [SEMICOLON] + Decimal(g) + [SEMICOLON] + Decimal(b) + [SGR_END]
  }

  /** The escape that selects the colour of a packed pixel: R, G, B are its
      little-endian bytes 0, 1, 2. */
  function PixelSgr(p: uint32): seq<byte>
  {
    var c := Ppm.Rgb(p);
    SgrBackground(c[0], c[1], c[2])
  }

  /** Pixel i begins a run: it is the first, or its R, G, B differ from
      those of the pixel before it. Alpha plays no part. */
  predicate StartsRun(row: seq<uint32>, i: nat)
    requires i < |row|
  {
    i == 0 || Ppm.Rgb(row[i]) != Ppm.Rgb(row[i - 1])
  }

  /** The cell of pixel i: one space, preceded by the pixel's colour escape
      when it begins a run. */
  function Cell(row: seq<uint32>, i: nat): seq<byte>
    requires i < |row|
  {
    (if StartsRun(row, i) then PixelSgr(row[i]) else []) + [SPACE]
  }

  /** The coloured cells of a row, pixel by pixel. */
  function Cells(row: seq<uint32>): seq<byte>
    decreases |row|
  {
    if row == [] then [] else Cells(row[..|row| - 1]) + Cell(row, |row| - 1)
  }

  /** The number of maximal runs of equal colour in a row. */
  function RunCount(row: seq<uint32>): (k: nat)
    ensures k <= |row|
    decreases |row|
  {
    if row == [] then 0
    else RunCount(row[..|row| - 1]) + (if StartsRun(row, |row| - 1) then 1 else 0)
  }

  /** The line written for one row of pixels. */
  function RowLine(row: seq<uint32>): seq<byte>
  {
    Cells(row) + RESET_NL
  }

  /** Extending a row by one pixel extends its cells by that pixel's cell. */
  lemma CellsSnoc(row: seq<uint32>, i: nat)
    requires i < |row|
    ensures Cells(row[..i + 1]) == Cells(row[..i]) + Cell(row, i)
  {
    assert row[..i + 1][..i] == row[..i];
    assert Cell(row[..i + 1], i) == Cell(row, i);
  }

  /** The cells of a one-pixel prefix: the first pixel's escape and a space. */
  lemma CellsOfFirst(row: seq<uint32>)
    requires row != []
    ensures Cells(row[..1]) == PixelSgr(row[0]) + Spaces(1)
  {
    CellsSnoc(row, 0);
    assert row[..0] == [];
  }

  /** A pixel of the current colour adds one space to the open run. */
  lemma CellsSameColour(row: seq<uint32>, i: nat, done: seq<byte>, run: nat)
    requires 0 < i < |row| && Ppm.Rgb(row[i]) == Ppm.Rgb(row[i - 1])
    requires done + Spaces(run) == Cells(row[..i])
    ensures done + Spaces(run + 1) == Cells(row[..i + 1])
  {
    CellsSnoc(row, i);
    assert Spaces(run + 1) == Spaces(run) + [SPACE];
  }

  /** A pixel of a new colour closes the open run and opens its own. */
  lemma CellsNewColour(row: seq<uint32>, i: nat, done: seq<byte>, run: nat)
    requires 0 < i < |row| && Ppm.Rgb(row[i]) != Ppm.Rgb(row[i - 1])
    requires done + Spaces(run) == Cells(row[..i])
    ensures done + Spaces(run) + PixelSgr(row[i]) + Spaces(1) == Cells(row[..i + 1])
  {
    CellsSnoc(row, i);
    assert Spaces(1) == [SPACE];
  }

  /** Writes a row: the colour escape of the first pixel, then for each
      later pixel either one more cell of the current colour or, on a colour
      change, the spaces of the finished run and the new escape; finally the
      spaces of the last run and the reset. */
  method WriteRowTruecolor(row: seq<uint32>) returns (out: seq<byte>)
    ensures out == RowLine(row)
  {
    if row == [] {
      return RESET_NL;
    }
    var cur := LE32(row[0]);
    var run := 1;
    out := SgrBackground(cur[0], cur[1], cur[2]);
    CellsOfFirst(row);
    for i := 1 to |row|
      invariant run >= 1 && |cur| == 4
      invariant cur[..3] == Ppm.Rgb(row[i - 1])
      invariant out + Spaces(run) == Cells(row[..i])
    {
      var px := row[i];
      var rgb := LE32(px);
      assert rgb[..3] == Ppm.Rgb(px);
      if rgb[..3] == cur[..3] {
        CellsSameColour(row, i, out, run);
        run := run + 1;
      } else {
        CellsNewColour(row, i, out, run);
        var chunks := WriteSpaces(run);
        out := out + Flatten(chunks);
        out := out + SgrBackground(rgb[0], rgb[1], rgb[2]);
        cur := rgb;
        run := 1;
      }
    }
    var chunks := WriteSpaces(run);
    out := out + Flatten(chunks) + RESET_NL;
    assert row[..|row|] == row;
  }

  // Counting bytes of the output.

  /** Occurrences of byte `x` in `s`. */
  function Count(s: seq<byte>, x: byte): nat
    decreases |s|
  {
    if s == [] then 0 else (if s[0] == x then 1 else 0) + Count(s[1..], x)
  }

  lemma {:induction false} CountConcat(a: seq<byte>, b: seq<byte>, x: byte)
    ensures Count(a + b, x) == Count(a, x) + Count(b, x)
    decreases |a|
  {
    if a != [] {
      assert (a + b)[1..] == a[1..] + b;
      CountConcat(a[1..], b, x);
    } else {
      assert a + b == b;
    }
  }

  /** A numeral contains no byte other than digits. */
  lemma {:induction false} CountInDigits(s: seq<byte>, x: byte)
    requires forall i :: 0 <= i < |s| ==> IsDigit(s[i])
    requires !IsDigit(x)
    ensures Count(s, x) == 0
    decreases |s|
  {
    if s != [] {
      assert IsDigit(s[0]);
      CountInDigits(s[1..], x);
    }
  }

  /** ESC, space and newline in the start of a colour escape. */
  lemma PrefixCounts()
    ensures Count(SGR_BG_PREFIX, ESC) == 1 && Count(SGR_BG_PREFIX, SPACE) == 0 && Count(SGR_BG_PREFIX, LF) == 0
  {
    assert SGR_BG_PREFIX[1..] == [91, 52, 56, 59, 50, 59];
    assert SGR_BG_PREFIX[1..][1..] == [52, 56, 59, 50, 59];
    assert SGR_BG_PREFIX[1..][1..][1..] == [56, 59, 50, 59];
    assert SGR_BG_PREFIX[1..][1..][1..][1..] == [59, 50, 59];
    assert SGR_BG_PREFIX[1..][1..][1..][1..][1..] == [50, 59];
    assert SGR_BG_PREFIX[1..][1..][1..][1..][1..][1..] == [59];
  }

  /** ESC, space and newline in the reset and in cursor-home. */
  lemma ResetCounts()
    ensures Count(RESET_NL, ESC) == 1 && Count(RESET_NL, SPACE) == 0 && Count(RESET_NL, LF) == 1
    ensures Count(HOME, LF) == 0
  {
    assert RESET_NL[1..] == [91, 48, 109, 10];
    assert RESET_NL[1..][1..] == [48, 109, 10];
    assert RESET_NL[1..][1..][1..] == [109, 10];
    assert RESET_NL[1..][1..][1..][1..] == [10];
    assert HOME[1..] == [91, 72];
    assert HOME[1..][1..] == [72];
  }

  /** ESC, space and newline in the one-byte parts. */
  lemma SingletonCounts()
    ensures Count([SEMICOLON], ESC) == 0 && Count([SEMICOLON], SPACE) == 0 && Count([SEMICOLON], LF) == 0
    ensures Count([SGR_END], ESC) == 0 && Count([SGR_END], SPACE) == 0 && Count([SGR_END], LF) == 0
    ensures Count([SPACE], ESC) == 0 && Count([SPACE], SPACE) == 1 && Count([SPACE], LF) == 0
  {
    assert [SEMICOLON][1..] == [] && [SGR_END][1..] == [] && [SPACE][1..] == [];
  }

  /** A colour escape holds one ESC, and neither a space nor a newline. */
  lemma SgrCounts(r: byte, g: byte, b: byte)
    ensures Count(SgrBackground(r, g, b), ESC) == 1
    ensures Count(SgrBackground(r, g, b), SPACE) == 0
    ensures Count(SgrBackground(r, g, b), LF) == 0
  {
    var semi: seq<byte> := [SEMICOLON];
    var end: seq<byte> := [SGR_END];
    PrefixCounts();
    SingletonCounts();
    forall x: byte | x == ESC || x == SPACE || x == LF
      ensures Count(SgrBackground(r, g, b), x) == if x == ESC then 1 else 0
    {
      CountInDigits(Decimal(r), x);
      CountInDigits(Decimal(g), x);
      CountInDigits(Decimal(b), x);
      CountConcat(SGR_BG_PREFIX, Decimal(r), x);
      CountConcat(SGR_BG_PREFIX + Decimal(r), semi, x);
      CountConcat(SGR_BG_PREFIX + Decimal(r) + semi, Decimal(g), x);
      CountConcat(SGR_BG_PREFIX + Decimal(r) + semi + Decimal(g), semi, x);
      CountConcat(SGR_BG_PREFIX + Decimal(r) + semi + Decimal(g) + semi, Decimal(b), x);
      CountConcat(SGR_BG_PREFIX + Decimal(r) + semi + Decimal(g) + semi + Decimal(b), end, x);
    }
  }

  /** A cell holds one space, an ESC exactly when its pixel begins a run,
      and no newline. */
  lemma CellCountsOne(row: seq<uint32>, i: nat)
    requires i < |row|
    ensures Count(Cell(row, i), SPACE) == 1
    ensures Count(Cell(row, i), ESC) == if StartsRun(row, i) then 1 else 0
    ensures Count(Cell(row, i), LF) == 0
  {
    var c := Ppm.Rgb(row[i]);
    var esc := if StartsRun(row, i) then PixelSgr(row[i]) else [];
    SgrCounts(c[0], c[1], c[2]);
    SingletonCounts();
    CountConcat(esc, [SPACE], SPACE);
    CountConcat(esc, [SPACE], ESC);
    CountConcat(esc, [SPACE], LF);
  }

  /** The cells of a row hold one space per pixel, one ESC per maximal run
      of equal colour, and no newline. */
  lemma {:induction false} CellCounts(row: seq<uint32>)
    ensures Count(Cells(row), SPACE) == |row|
    ensures Count(Cells(row), ESC) == RunCount(row)
    ensures Count(Cells(row), LF) == 0
    decreases |row|
  {
    if row != [] {
      var n := |row| - 1;
      CellCounts(row[..n]);
      CellCountsOne(row, n);
      CountConcat(Cells(row[..n]), Cell(row, n), SPACE);
      CountConcat(Cells(row[..n]), Cell(row, n), ESC);
      CountConcat(Cells(row[..n]), Cell(row, n), LF);
    }
  }

  /** A written row holds exactly one space per pixel, one colour escape
      per maximal run of equal colour plus the reset's ESC, and exactly one
      newline, at its end. */
  lemma RowLineCounts(row: seq<uint32>)
    ensures Count(RowLine(row), SPACE) == |row|
    ensures Count(RowLine(row), ESC) == RunCount(row) + 1
    ensures Count(RowLine(row), LF) == 1
  {
    CellCounts(row);
    assert Count(RowLine(row), SPACE) == |row| by { RowLineCount(row, SPACE); ResetCounts(); }
    assert Count(RowLine(row), ESC) == RunCount(row) + 1 by { RowLineCount(row, ESC); ResetCounts(); }
    assert Count(RowLine(row), LF) == 1 by { RowLineCount(row, LF); ResetCounts(); }
  }

  lemma RowLineCount(row: seq<uint32>, x: byte)
    ensures Count(RowLine(row), x) == Count(Cells(row), x) + Count(RESET_NL, x)
  {
    CountConcat(Cells(row), RESET_NL, x);
  }

  /** Every row's line ends with the reset and newline. */
  lemma RowLineEnd(row: seq<uint32>)
    ensures |RowLine(row)| >= 5 && RowLine(row)[|RowLine(row)| - 5 ..] == RESET_NL
  {
    SliceOfConcatRight(Cells(row), RESET_NL);
  }

  /** The cells of a non-empty row start with the escape of its first pixel. */
  lemma {:induction false} CellsStart(row: seq<uint32>)
    requires row != []
    ensures |PixelSgr(row[0])| <= |Cells(row)| && Cells(row)[..|PixelSgr(row[0])|] == PixelSgr(row[0])
    decreases |row|
  {
    var n := |row| - 1;
    var k := |PixelSgr(row[0])|;
    if n == 0 {
      CellsOfFirst(row);
      assert row[..1] == row;
      PrefixOfConcat(Cells(row), PixelSgr(row[0]), Spaces(1), k, PixelSgr(row[0]));
    } else {
      CellsStart(row[..n]);
      assert row[..n][0] == row[0];
      PrefixOfConcat(Cells(row), Cells(row[..n]), Cell(row, n), k, PixelSgr(row[0]));
    }
  }

  /** An empty row is only the reset and newline; a non-empty one starts
      with the colour escape of its first pixel. */
  lemma RowLineStart(row: seq<uint32>)
    ensures row == [] ==> RowLine(row) == RESET_NL
    ensures row != [] ==>
      (|PixelSgr(row[0])| <= |RowLine(row)| && RowLine(row)[..|PixelSgr(row[0])|] == PixelSgr(row[0]))
  {
    if row != [] {
      CellsStart(row);
      PrefixOfConcat(RowLine(row), Cells(row), RESET_NL, |PixelSgr(row[0])|, PixelSgr(row[0]));
    }
  }

  /** Extending a row by one pixel adds one run exactly when the pixel
      begins one. */
  lemma RunCountSnoc(row: seq<uint32>, i: nat)
    requires i < |row|
    ensures RunCount(row[..i + 1]) == RunCount(row[..i]) + if StartsRun(row, i) then 1 else 0
  {
    assert row[..i + 1][..i] == row[..i];
  }

  /** A pixel of the same colour as its left neighbour continues its run. */
  lemma SameColourStep(row: seq<uint32>, i: nat, k: nat)
    requires 0 < i < |row| && row[i] == row[i - 1]
    requires RunCount(row[..i]) == k
    ensures RunCount(row[..i + 1]) == k
  {
    RunCountSnoc(row, i);
  }

  /** A pixel of a different colour from its left neighbour starts a run. */
  lemma NewColourStep(row: seq<uint32>, i: nat, k: nat)
    requires 0 < i < |row| && Ppm.Rgb(row[i]) != Ppm.Rgb(row[i - 1])
    requires RunCount(row[..i]) == k
    ensures RunCount(row[..i + 1]) == k + 1
  {
    RunCountSnoc(row, i);
  }

  /** R, G, B of the three colours of the example row. */
  lemma ExampleColours()
    ensures Ppm.Rgb(0xFF03_0201) == [1, 2, 3]
    ensures Ppm.Rgb(0xFF07_0809) == [9, 8, 7]
    ensures Ppm.Rgb(0xFF46_3C32) == [50, 60, 70]
  {
  }

  /** Nine pixels whose colour changes exactly between pixels 2 and 3 and
      between pixels 4 and 5 form three runs. */
  lemma {:induction false} ThreeRunsOfShape(row: seq<uint32>)
    requires |row| == 9
    requires row[1] == row[0] && row[2] == row[1] && row[4] == row[3]
    requires row[6] == row[5] && row[7] == row[6] && row[8] == row[7]
    requires Ppm.Rgb(row[3]) != Ppm.Rgb(row[2]) && Ppm.Rgb(row[5]) != Ppm.Rgb(row[4])
    ensures RunCount(row) == 3
  {
    assert RunCount(row[..1]) == 1 by { assert row[..0] == []; RunCountSnoc(row, 0); }
    SameColourStep(row, 1, 1);
    SameColourStep(row, 2, 1);
    NewColourStep(row, 3, 1);
    SameColourStep(row, 4, 2);
    NewColourStep(row, 5, 2);
    SameColourStep(row, 6, 3);
    SameColourStep(row, 7, 3);
    SameColourStep(row, 8, 3);
    assert row[..9] == row;
  }

  /** A row a a a b b c c c c, with a, b and c of pairwise different
      colour as in the source's tests, has three runs, beginning at pixels
      0, 3 and 5. */
  lemma ThreeRuns(row: seq<uint32>, a: uint32, b: uint32, c: uint32)
    requires Ppm.Rgb(a) != Ppm.Rgb(b) && Ppm.Rgb(b) != Ppm.Rgb(c)
    requires row == [a, a, a, b, b, c, c, c, c]
    ensures RunCount(row) == 3
  {
    ThreeRunsOfShape(row);
  }

  /** So the line of the example row has three colour escapes besides the
      reset's ESC, and nine spaces. */
  lemma ExampleRowLine(row: seq<uint32>)
    requires row == [0xFF03_0201, 0xFF03_0201, 0xFF03_0201, 0xFF07_0809, 0xFF07_0809,
                     0xFF46_3C32, 0xFF46_3C32, 0xFF46_3C32, 0xFF46_3C32]
    ensures Count(RowLine(row), ESC) == 4 && Count(RowLine(row), SPACE) == 9
  {
    ExampleColours();
    ThreeRuns(row, 0xFF03_0201, 0xFF07_0809, 0xFF46_3C32);
    RowLineCounts(row);
  }

  // The frame.

  /** Row y of a frame `width` pixels wide: the pixels from y * width on;
      empty past the end of the buffer, which presenting never reaches. */
  function FrameRow(pixels: seq<uint32>, width: nat, y: nat): seq<uint32>
  {
    var start := RowStart(y, width);
    if start + width <= |pixels| then pixels[start .. start + width] else []
  }

  /** The lines of the first `rows` rows. */
  function FrameRows(pixels: seq<uint32>, width: nat, rows: nat): seq<byte>
    decreases rows
  {
    if rows == 0 then [] else FrameRows(pixels, width, rows - 1) + RowLine(FrameRow(pixels, width, rows - 1))
  }

  /** Every row of the frame lies inside a buffer of width * height pixels. */
  lemma RowInBuffer(y: nat, height: nat, width: nat, n: nat)
    requires y < height && width * height <= n
    ensures RowStart(y, width) + width <= n
  {
    MulSucc(y, width);
    MulLeft(y + 1, height, width);
  }

  /** Appending the line of row y to the first y rows gives the first
      y + 1 rows. */
  lemma FrameRowsStep(pixels: seq<uint32>, width: nat, y: nat, done: seq<byte>, line: seq<byte>)
    requires RowStart(y, width) + width <= |pixels|
    requires done == HOME + FrameRows(pixels, width, y)
    requires line == RowLine(pixels[RowStart(y, width) .. RowStart(y, width) + width])
    ensures done + line == HOME + FrameRows(pixels, width, y + 1)
  {
  }

  /** What presenting a frame builds: InvalidInput and nothing when the
      buffer holds fewer than width * height pixels, else cursor-home
      followed by one line per row. Both sizes are 32-bit, so their product
      fits a 64-bit usize and the saturating multiply never saturates. */
  function Present(width: uint32, height: uint32, pixels: seq<uint32>): Written
  {
    if |pixels| < width * height then Written([], InvalidInput)
    else Written(HOME + FrameRows(pixels, width, height), Ok)
  }

  /** Writes the line of row y after the first y rows. */
  method AppendRowLine(done: seq<byte>, pixels: seq<uint32>, width: nat, y: nat) returns (out: seq<byte>)
    requires RowStart(y, width) + width <= |pixels|
    requires done == HOME + FrameRows(pixels, width, y)
    ensures out == HOME + FrameRows(pixels, width, y + 1)
  {
    var start := RowStart(y, width);
    var line := WriteRowTruecolor(pixels[start .. start + width]);
    FrameRowsStep(pixels, width, y, done, line);
    out := done + line;
  }

  /** Builds the frame in a buffer: cursor-home, then the line of each row,
      slicing row y at y * width. */
  method BuildFrame(width: nat, height: nat, pixels: seq<uint32>) returns (out: seq<byte>)
    requires width * height <= |pixels|
    ensures out == HOME + FrameRows(pixels, width, height)
  {
    out := HOME;
    for y := 0 to height
      invariant out == HOME + FrameRows(pixels, width, y)
    {
      RowInBuffer(y, height, width, |pixels|);
      out := AppendRowLine(out, pixels, width, y);
    }
  }

  /** Presents a frame: rejects a short buffer, otherwise builds the frame. */
  method PresentToWriter(width: uint32, height: uint32, pixels: seq<uint32>) returns (w: Written)
    ensures w == Present(width, height, pixels)
  {
    var count := width * height;
    if |pixels| < count {
      return Written([], InvalidInput);
    }
    var out := BuildFrame(width, height, pixels);
    w := Written(out, Ok);
  }

  /** The frame fails exactly when the buffer is short, writing nothing. */
  lemma PresentErrors(width: uint32, height: uint32, pixels: seq<uint32>)
    ensures Present(width, height, pixels).outcome == InvalidInput <==> |pixels| < width * height
    ensures Present(width, height, pixels).outcome == InvalidInput ==> Present(width, height, pixels).bytes == []
  {
  }

  /** The lines of a frame hold one newline per row, each at the end of its
      row's line. */
  lemma {:induction false} FrameRowsNewlines(pixels: seq<uint32>, width: nat, rows: nat)
    ensures Count(FrameRows(pixels, width, rows), LF) == rows
    decreases rows
  {
    if rows > 0 {
      var prev := FrameRows(pixels, width, rows - 1);
      var line := RowLine(FrameRow(pixels, width, rows - 1));
      FrameRowsNewlines(pixels, width, rows - 1);
      RowLineCounts(FrameRow(pixels, width, rows - 1));
      assert FrameRows(pixels, width, rows) == prev + line;
      CountConcat(prev, line, LF);
    }
  }

  /** A presented frame starts with cursor-home and holds one line per row. */
  lemma PresentShape(width: uint32, height: uint32, pixels: seq<uint32>)
    requires |pixels| >= width * height
    ensures Present(width, height, pixels).outcome == Ok
    ensures Present(width, height, pixels).bytes[..3] == HOME
    ensures Count(Present(width, height, pixels).bytes, LF) == height
  {
    FrameRowsNewlines(pixels, width, height);
    ResetCounts();
    CountConcat(HOME, FrameRows(pixels, width, height), LF);
  }

  /** The escape selecting (10, 20, 30) is "\x1b[48;2;10;20;30m". */
  lemma ExampleSgr()
    ensures PixelSgr(0xFF1E_140A) == [27, 91, 52, 56, 59, 50, 59, 49, 48, 59, 50, 48, 59, 51, 48, 109]
  {
    assert Ppm.Rgb(0xFF1E_140A) == [10, 20, 30];
    assert Decimal(10) == [49, 48] && Decimal(20) == [50, 48] && Decimal(30) == [51, 48];
  }

  /** A 1 x 1 frame of (10, 20, 30, 255) is cursor-home, the escape
      "\x1b[48;2;10;20;30m", one space and the reset. */
  lemma OnePixelFrame(pixels: seq<uint32>, width: uint32, height: uint32)
    requires pixels == [0xFF1E_140A] && width == 1 && height == 1
    ensures Present(width, height, pixels)
      == Written(HOME + [27, 91, 52, 56, 59, 50, 59, 49, 48, 59, 50, 48, 59, 51, 48, 109] + [SPACE] + RESET_NL, Ok)
  {
    var sgr: seq<byte> := [27, 91, 52, 56, 59, 50, 59, 49, 48, 59, 50, 48, 59, 51, 48, 109];
    ExampleSgr();
    assert FrameRow(pixels, width, 0) == pixels;
    assert pixels[..0] == [];
    assert Cells(pixels) == sgr + [SPACE];
    assert FrameRows(pixels, width, height) == FrameRows(pixels, width, 0) + RowLine(pixels);
    assert FrameRows(pixels, width, height) == sgr + [SPACE] + RESET_NL;
  }
}
