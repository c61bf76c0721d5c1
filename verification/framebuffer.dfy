/** The pixels of shared_lib/src/logger.rs: four bytes each, in rows of `stride` pixels, with 8x8
    character cells that begin one pixel from the left and the top.  The font is a parameter. */
module Framebuffer {
  import opened Bits
  import opened PhysicalMemory
  import opened Collections
  import opened Terminals

  datatype PixelFormat = Rgb | Bgr | Bitmask | BltOnly

  datatype Info = Info(size: nat, width: nat, height: nat, format: PixelFormat, stride: nat)

  type Glyph = g: seq<Byte> | |g| == 8 witness seq(8, i => 0)
  type Font = char -> Option<Glyph>

  const BLANK_GLYPH: Glyph := seq(8, i => 0)
  const SOLID_GLYPH: Glyph := seq(8, i => 0xFF)

  function Columns(info: Info): nat { if info.width == 0 then 0 else (info.width - 1) / 8 }
  function VisibleRows(info: Info): nat { if info.height == 0 then 0 else (info.height - 1) / 8 }

  /** The buffer holds all the lines, and the format is one that can be drawn. */
  ghost predicate Fits(info: Info) {
    && (info.format.Rgb? || info.format.Bgr?)
    && 1 <= info.width <= info.stride && 1 <= info.height && 4 * (info.height * info.stride) <= info.size
  }

  /** The three colour bytes and the padding byte. */
  function Color(format: PixelFormat, intensity: Byte): (c: seq<Byte>)
    ensures |c| == 4
  {
    if format.Rgb? then [intensity, intensity, intensity / 2, 0] else [intensity / 2, intensity, intensity, 0]
  }

  function Intensity(lit: bool): Byte { if lit then 255 else 0 }

  /** Whether a glyph has a dot in column x of row y. */
  predicate Lit(g: Glyph, x: nat, y: nat)
    requires x < 8 && y < 8
  {
    And(g[y], Pow2(x)) != 0
  }

  // ---- From bytes to pixels -----------------------------------------------------------------------------------

  /** The column and the line of the pixel that byte b belongs to. */
  function PixelX(stride: nat, b: nat): nat { if stride == 0 then 0 else b / 4 % stride }
  function PixelY(stride: nat, b: nat): nat { if stride == 0 then 0 else b / 4 / stride }

  lemma BytesOfPixel(stride: nat, x: nat, y: nat, b: nat)
    requires x < stride
    ensures var at := 4 * (y * stride + x);
            && (at <= b < at + 4 <==> PixelX(stride, b) == x && PixelY(stride, b) == y)
            && (at <= b < at + 4 ==> b % 4 == b - at)
  {
    var p := y * stride + x;
    DivUnique(p, stride, y, x);
    if PixelX(stride, b) == x && PixelY(stride, b) == y {
      assert b / 4 == y * stride + x;
    }
    if 4 * p <= b < 4 * p + 4 {
      assert b / 4 == p;
    }
  }

  /** The pixels of a cell lie inside the buffer. */
  lemma CellInBounds(info: Info, cx: nat, cy: nat, x: nat, y: nat)
    requires Fits(info) && cx < Columns(info) && cy < VisibleRows(info) && x < 8 && y < 8
    ensures 1 + 8 * cx + x < info.stride
    ensures 4 * ((1 + 8 * cy + y) * info.stride + (1 + 8 * cx + x)) + 4 <= info.size
  {
    var py := 1 + 8 * cy + y;
    assert py + 1 <= info.height;
    MulOrder(py + 1, info.height, info.stride);
    assert (py + 1) * info.stride == py * info.stride + info.stride;
  }

  lemma MulOrder(a: nat, b: nat, q: nat)
    requires a <= b
    ensures a * q <= b * q
  {
  }

  // ---- One cell ------------------------------------------------------------------------------------------------

  predicate InCell(stride: nat, b: nat, cx: nat, cy: nat) {
    8 * cx < PixelX(stride, b) <= 8 * cx + 8 && 8 * cy < PixelY(stride, b) <= 8 * cy + 8
  }

  /** The value of a byte of a cell that shows a glyph. */
  function CellByte(info: Info, g: Glyph, cx: nat, cy: nat, b: nat): Byte
    requires InCell(info.stride, b, cx, cy)
  {
    Color(info.format, Intensity(Lit(g, PixelX(info.stride, b) - 1 - 8 * cx, PixelY(info.stride, b) - 1 - 8 * cy)))[b % 4]
  }

  /** The position of a byte's pixel in its cell, line by line. */
  function Rank(stride: nat, b: nat, cx: nat, cy: nat): nat
    requires InCell(stride, b, cx, cy)
  {
    8 * (PixelY(stride, b) - 1 - 8 * cy) + (PixelX(stride, b) - 1 - 8 * cx)
  }

  /** The first k pixels of a cell are drawn, nothing else changed. */
  ghost predicate DrawnUpTo(fb: Memory, fb': Memory, info: Info, g: Glyph, cx: nat, cy: nat, k: nat) {
    && |fb'| == |fb|
    && forall b :: 0 <= b < |fb| ==>
         fb'[b] == if InCell(info.stride, b, cx, cy) && Rank(info.stride, b, cx, cy) < k then CellByte(info, g, cx, cy, b) else fb[b]
  }

  /** write_pixel. */
  function PixelWritten(fb: Memory, info: Info, x: nat, y: nat, intensity: Byte): Memory {
    Store(fb, 4 * (y * info.stride + x), Color(info.format, intensity))
  }

  /** The first k pixels of a glyph written with its corner at pixel (x, y), line by line. */
  ghost function GlyphWritten(fb: Memory, info: Info, g: Glyph, x: nat, y: nat, k: nat): Memory
    requires k <= 64
    decreases k
  {
    if k == 0 then fb
    else
      var i, j := (k - 1) % 8, (k - 1) / 8;
      PixelWritten(GlyphWritten(fb, info, g, x, y, k - 1), info, x + i, y + j, Intensity(Lit(g, i, j)))
  }

  /** Every pixel of a glyph at (x, y) has its place in a buffer of `size` bytes. */
  ghost predicate GlyphFits(info: Info, size: nat, x: nat, y: nat) {
    forall i: nat, j: nat :: i < 8 && j < 8 ==> PixelFits(info, size, x, y, i, j)
  }

  predicate PixelFits(info: Info, size: nat, x: nat, y: nat, i: nat, j: nat) {
    4 * ((y + j) * info.stride + (x + i)) + 4 <= size
  }

  lemma CellFits(info: Info, cx: nat, cy: nat)
    requires Fits(info) && cx < Columns(info) && cy < VisibleRows(info)
    ensures GlyphFits(info, info.size, 1 + 8 * cx, 1 + 8 * cy)
  {
    hide Fits, Columns, VisibleRows;
    var x, y := 1 + 8 * cx, 1 + 8 * cy;
    forall i: nat, j: nat | i < 8 && j < 8 ensures PixelFits(info, info.size, x, y, i, j) {
      CellInBounds(info, cx, cy, i, j);
    }
  }

  /** At the corner of a cell, writing a glyph draws exactly that cell. */
  lemma {:induction false} GlyphFillsCell(fb: Memory, info: Info, g: Glyph, cx: nat, cy: nat, k: nat)
    requires Fits(info) && |fb| == info.size && cx < Columns(info) && cy < VisibleRows(info) && k <= 64
    ensures DrawnUpTo(fb, GlyphWritten(fb, info, g, 1 + 8 * cx, 1 + 8 * cy, k), info, g, cx, cy, k)
    decreases k
  {
    hide Fits, Columns, VisibleRows, DrawnUpTo, PixelWritten, Lit;
    if k == 0 {
      NothingDrawn(fb, info, g, cx, cy);
    } else {
      var x, y := (k - 1) % 8, (k - 1) / 8;
      GlyphFillsCell(fb, info, g, cx, cy, k - 1);
      NextPixelDrawn(fb, GlyphWritten(fb, info, g, 1 + 8 * cx, 1 + 8 * cy, k - 1), info, g, cx, cy, x, y);
    }
  }

  lemma NothingDrawn(fb: Memory, info: Info, g: Glyph, cx: nat, cy: nat)
    ensures DrawnUpTo(fb, fb, info, g, cx, cy, 0)
  {
    hide PixelX, PixelY;
  }

  lemma GlyphDrawsCell(fb: Memory, info: Info, g: Glyph, cx: nat, cy: nat)
    requires Fits(info) && |fb| == info.size && cx < Columns(info) && cy < VisibleRows(info)
    ensures CellDrawn(fb, GlyphWritten(fb, info, g, 1 + 8 * cx, 1 + 8 * cy, 64), info, g, cx, cy)
  {
    hide Fits, Columns, VisibleRows, DrawnUpTo, CellDrawn, GlyphWritten;
    GlyphFillsCell(fb, info, g, cx, cy, 64);
    AllPixelsDrawn(fb, GlyphWritten(fb, info, g, 1 + 8 * cx, 1 + 8 * cy, 64), info, g, cx, cy);
  }

  lemma NextPixelDrawn(fb: Memory, fb': Memory, info: Info, g: Glyph, cx: nat, cy: nat, x: nat, y: nat)
    requires Fits(info) && |fb| == info.size && cx < Columns(info) && cy < VisibleRows(info) && x < 8 && y < 8
    requires DrawnUpTo(fb, fb', info, g, cx, cy, 8 * y + x)
    ensures DrawnUpTo(fb, PixelWritten(fb', info, 1 + 8 * cx + x, 1 + 8 * cy + y, Intensity(Lit(g, x, y))), info, g, cx, cy, 8 * y + x + 1)
  {
    hide Columns, VisibleRows, Store, Color, Lit, PixelX, PixelY, Fits;
    var px, py := 1 + 8 * cx + x, 1 + 8 * cy + y;
    var color := Color(info.format, Intensity(Lit(g, x, y)));
    var at := 4 * (py * info.stride + px);
    CellInBounds(info, cx, cy, x, y);
    var next := Store(fb', at, color);
    forall b | 0 <= b < |fb|
      ensures next[b] == if InCell(info.stride, b, cx, cy) && Rank(info.stride, b, cx, cy) < 8 * y + x + 1 then CellByte(info, g, cx, cy, b) else fb[b]
    {
      assert next[b] == ByteAt(next, b) && fb'[b] == ByteAt(fb', b);
      BytesOfPixel(info.stride, px, py, b);
      RankOfPixel(info, cx, cy, x, y, b);
    }
  }

  lemma RankOfPixel(info: Info, cx: nat, cy: nat, x: nat, y: nat, b: nat)
    requires x < 8 && y < 8
    ensures PixelX(info.stride, b) == 1 + 8 * cx + x && PixelY(info.stride, b) == 1 + 8 * cy + y <==>
              InCell(info.stride, b, cx, cy) && Rank(info.stride, b, cx, cy) == 8 * y + x
  {
    hide PixelX, PixelY;
  }

  /** A cell drawn completely. */
  ghost predicate CellDrawn(fb: Memory, fb': Memory, info: Info, g: Glyph, cx: nat, cy: nat) {
    && |fb'| == |fb|
    && forall b :: 0 <= b < |fb| ==> fb'[b] == if InCell(info.stride, b, cx, cy) then CellByte(info, g, cx, cy, b) else fb[b]
  }

  lemma AllPixelsDrawn(fb: Memory, fb': Memory, info: Info, g: Glyph, cx: nat, cy: nat)
    requires DrawnUpTo(fb, fb', info, g, cx, cy, 64)
    ensures CellDrawn(fb, fb', info, g, cx, cy)
  {
    hide PixelX, PixelY, CellByte;
  }

  // ---- The whole screen ----------------------------------------------------------------------------------------

  /** Every character of the buffer has a glyph. */
  ghost predicate Renderable(font: Font, rows: seq<Row>) {
    forall r, c :: 0 <= r < |rows| && 0 <= c < |rows[r]| ==> font(rows[r][c]).Some?
  }

  ghost predicate Sized(info: Info, rows: seq<Row>) {
    VisibleRows(info) <= |rows| && forall r :: 0 <= r < |rows| ==> |rows[r]| == Columns(info)
  }

  predicate InText(info: Info, b: nat) {
    1 <= PixelX(info.stride, b) <= 8 * Columns(info) && 1 <= PixelY(info.stride, b) <= 8 * VisibleRows(info)
  }

  function CellX(info: Info, b: nat): nat
    requires InText(info, b)
  {
    (PixelX(info.stride, b) - 1) / 8
  }

  function CellY(info: Info, b: nat): nat
    requires InText(info, b)
  {
    (PixelY(info.stride, b) - 1) / 8
  }

  lemma CellOfByte(info: Info, b: nat, cx: nat, cy: nat)
    requires cx < Columns(info) && cy < VisibleRows(info)
    ensures InCell(info.stride, b, cx, cy) <==> InText(info, b) && CellX(info, b) == cx && CellY(info, b) == cy
  {
    hide PixelX, PixelY, Columns, VisibleRows;
  }

  lemma TextIsInCells(info: Info, b: nat)
    requires InText(info, b)
    ensures CellX(info, b) < Columns(info) && CellY(info, b) < VisibleRows(info) && InCell(info.stride, b, CellX(info, b), CellY(info, b))
  {
    hide PixelX, PixelY, Columns, VisibleRows;
  }

  /** What a byte of the buffer should be: the glyph of its cell, or zero in the margins. */
  ghost function Expected(info: Info, font: Font, rows: seq<Row>, b: nat): Byte
    requires Sized(info, rows) && Renderable(font, rows)
  {
    if InText(info, b)
    then
      TextIsInCells(info, b);
      CellByte(info, font(rows[CellY(info, b)][CellX(info, b)]).value, CellX(info, b), CellY(info, b), b)
    else 0
  }

  /** The pixels agree with the characters. */
  ghost predicate Shows(fb: Memory, info: Info, font: Font, rows: seq<Row>)
    requires Sized(info, rows) && Renderable(font, rows)
  {
    |fb| == info.size && forall b :: 0 <= b < |fb| ==> fb[b] == Expected(info, font, rows, b)
  }

  /** A character put into the buffer and its glyph drawn into its cell keep the agreement. */
  lemma PutShows(fb: Memory, fb': Memory, info: Info, font: Font, rows: seq<Row>, cx: nat, cy: nat, c: char)
    requires Sized(info, rows) && Renderable(font, rows) && Shows(fb, info, font, rows)
    requires cx < Columns(info) && cy < VisibleRows(info) && font(c).Some? && CellDrawn(fb, fb', info, font(c).value, cx, cy)
    ensures var rows' := rows[cy := rows[cy][cx := c]];
            Sized(info, rows') && Renderable(font, rows') && Shows(fb', info, font, rows')
  {
    hide PixelX, PixelY, Columns, VisibleRows, CellByte, InCell, CellX, CellY, InText;
    var rows' := rows[cy := rows[cy][cx := c]];
    forall b | 0 <= b < |fb'| ensures fb'[b] == Expected(info, font, rows', b) {
      CellOfByte(info, b, cx, cy);
      assert fb[b] == Expected(info, font, rows, b);
      if InText(info, b) {
        TextIsInCells(info, b);
      }
    }
  }

  // ---- Redrawing -------------------------------------------------------------------------------------------------

  ghost predicate MarginsZero(fb: Memory, info: Info) {
    |fb| == info.size && forall b :: 0 <= b < |fb| && !InText(info, b) ==> fb[b] == 0
  }

  predicate Before(info: Info, b: nat, cx: nat, cy: nat)
    requires InText(info, b)
  {
    CellY(info, b) < cy || (CellY(info, b) == cy && CellX(info, b) < cx)
  }

  /** The cells before (cx, cy), line by line, and the margins are as they should be. */
  ghost predicate ShownUpTo(fb: Memory, info: Info, font: Font, rows: seq<Row>, cx: nat, cy: nat)
    requires Sized(info, rows) && Renderable(font, rows)
  {
    |fb| == info.size && forall b :: 0 <= b < |fb| && (InText(info, b) ==> Before(info, b, cx, cy)) ==> fb[b] == Expected(info, font, rows, b)
  }

  lemma NothingShown(fb: Memory, info: Info, font: Font, rows: seq<Row>)
    requires Sized(info, rows) && Renderable(font, rows) && MarginsZero(fb, info)
    ensures ShownUpTo(fb, info, font, rows, 0, 0)
  {
    hide PixelX, PixelY, Columns, VisibleRows, CellByte;
  }

  lemma OneMoreShown(fb: Memory, fb': Memory, info: Info, font: Font, rows: seq<Row>, cx: nat, cy: nat)
    requires Sized(info, rows) && Renderable(font, rows) && ShownUpTo(fb, info, font, rows, cx, cy)
    requires cx < Columns(info) && cy < VisibleRows(info) && CellDrawn(fb, fb', info, font(rows[cy][cx]).value, cx, cy)
    ensures ShownUpTo(fb', info, font, rows, cx + 1, cy)
  {
    hide PixelX, PixelY, Columns, VisibleRows, CellByte, InCell, CellX, CellY, InText;
    forall b | 0 <= b < |fb'| && (InText(info, b) ==> Before(info, b, cx + 1, cy)) ensures fb'[b] == Expected(info, font, rows, b) {
      CellOfByte(info, b, cx, cy);
      if InText(info, b) {
        TextIsInCells(info, b);
        assert Before(info, b, cx, cy) || InCell(info.stride, b, cx, cy);
      }
    }
  }

  lemma LineShown(fb: Memory, info: Info, font: Font, rows: seq<Row>, cy: nat)
    requires Sized(info, rows) && Renderable(font, rows) && ShownUpTo(fb, info, font, rows, Columns(info), cy)
    ensures ShownUpTo(fb, info, font, rows, 0, cy + 1)
  {
    hide PixelX, PixelY, Columns, VisibleRows, CellByte, CellX, CellY, Expected, InText;
    forall b | 0 <= b < |fb| && (InText(info, b) ==> Before(info, b, 0, cy + 1)) ensures fb[b] == Expected(info, font, rows, b) {
      if InText(info, b) {
        TextIsInCells(info, b);
      }
    }
  }

  lemma AllShown(fb: Memory, info: Info, font: Font, rows: seq<Row>)
    requires Sized(info, rows) && Renderable(font, rows) && ShownUpTo(fb, info, font, rows, 0, VisibleRows(info))
    ensures Shows(fb, info, font, rows)
  {
    hide PixelX, PixelY, Columns, VisibleRows, CellByte, CellX, CellY, Expected, InText;
    forall b | 0 <= b < |fb| ensures fb[b] == Expected(info, font, rows, b) {
      if InText(info, b) {
        TextIsInCells(info, b);
      }
    }
  }

  lemma DrawingKeepsMargins(fb: Memory, fb': Memory, info: Info, g: Glyph, cx: nat, cy: nat)
    requires MarginsZero(fb, info) && cx < Columns(info) && cy < VisibleRows(info) && CellDrawn(fb, fb', info, g, cx, cy)
    ensures MarginsZero(fb', info)
  {
    hide PixelX, PixelY, Columns, VisibleRows, CellByte, CellX, CellY, InCell, InText;
    forall b | 0 <= b < |fb'| && !InText(info, b) ensures fb'[b] == 0 {
      CellOfByte(info, b, cx, cy);
    }
  }

  lemma ShownHasZeroMargins(fb: Memory, info: Info, font: Font, rows: seq<Row>)
    requires Sized(info, rows) && Renderable(font, rows) && Shows(fb, info, font, rows)
    ensures MarginsZero(fb, info)
  {
    hide PixelX, PixelY, Columns, VisibleRows, CellByte;
  }

  // ---- Blank and solid cells ---------------------------------------------------------------------------------------

  lemma BlankIsDark(x: nat, y: nat)
    requires x < 8 && y < 8
    ensures !Lit(BLANK_GLYPH, x, y)
  {
  }

  lemma SolidIsLit()
    ensures Lit(SOLID_GLYPH, 0, 0)
  {
    assert Pow2(0) == 1;
    AndOne(0xFF);
  }

  /** An all-zero buffer shows blank rows. */
  lemma ZerosShowBlanks(fb: Memory, info: Info, font: Font, rows: seq<Row>)
    requires Sized(info, rows) && font(NUL) == Some(BLANK_GLYPH) && |fb| == info.size
    requires forall r :: 0 <= r < |rows| ==> rows[r] == Blank(Columns(info))
    requires forall b :: 0 <= b < |fb| ==> fb[b] == 0
    ensures Renderable(font, rows) && Shows(fb, info, font, rows)
  {
    hide PixelX, PixelY, Columns, VisibleRows, Lit, CellX, CellY;
    assert Renderable(font, rows);
    forall b | 0 <= b < |fb| ensures fb[b] == Expected(info, font, rows, b) {
      if InText(info, b) {
        TextIsInCells(info, b);
        var cx, cy := CellX(info, b), CellY(info, b);
        BlankIsDark(PixelX(info.stride, b) - 1 - 8 * cx, PixelY(info.stride, b) - 1 - 8 * cy);
      }
    }
  }

  /** A solid cell where the buffer holds a blank: the agreement is lost. */
  lemma SolidIsNotBlank(fb: Memory, fb': Memory, info: Info, font: Font, rows: seq<Row>, cx: nat, cy: nat)
    requires Fits(info) && Sized(info, rows) && Renderable(font, rows) && font(NUL) == Some(BLANK_GLYPH) && |fb| == info.size
    requires cx < Columns(info) && cy < VisibleRows(info) && CellDrawn(fb, fb', info, SOLID_GLYPH, cx, cy) && rows[cy][cx] == NUL
    ensures !Shows(fb', info, font, rows)
  {
    hide PixelX, PixelY, Columns, VisibleRows, Lit, CellX, CellY, InText, Fits;
    CellInBounds(info, cx, cy, 0, 0);
    var b := 4 * ((1 + 8 * cy) * info.stride + (1 + 8 * cx)) + 1;
    BytesOfPixel(info.stride, 1 + 8 * cx, 1 + 8 * cy, b);
    CellOfByte(info, b, cx, cy);
    SolidIsLit();
    BlankIsDark(0, 0);
    assert fb'[b] == CellByte(info, SOLID_GLYPH, cx, cy, b);
    assert fb'[b] == 255;
    assert Expected(info, font, rows, b) == 0;
  }

  // ---- What is on the screen, byte by byte ---------------------------------------------------------------------------

  /** As many cells as fit behind the margin of one pixel. */
  lemma CellsFillScreen(info: Info)
    requires info.width >= 1 && info.height >= 1
    ensures 1 + 8 * Columns(info) <= info.width < 9 + 8 * Columns(info)
    ensures 1 + 8 * VisibleRows(info) <= info.height < 9 + 8 * VisibleRows(info)
  {
  }

  /** Row y of a glyph is its byte y, column x the bit x of it. */
  predicate Dot(g: Glyph, x: nat, y: nat)
    requires x < 8 && y < 8
  {
    g[y] / [1, 2, 4, 8, 16, 32, 64, 128][x] % 2 == 1
  }

  lemma LitIsDot(g: Glyph, x: nat, y: nat)
    requires x < 8 && y < 8
    ensures Lit(g, x, y) <==> Dot(g, x, y)
  {
    hide And, Pow2, Mask;
    AndMask(g[y], x, 1);
    MaskIsShiftedOnes(x, 1);
    SmallPowers();
    var p := [1, 2, 4, 8, 16, 32, 64, 128][x];
    assert Pow2(x) == p;
    assert Field(g[y], x, 1) == g[y] / p % 2;
  }

  lemma SmallPowers()
    ensures Pow2(0) == 1 && Pow2(1) == 2 && Pow2(2) == 4 && Pow2(3) == 8 && Pow2(4) == 16 && Pow2(5) == 32 && Pow2(6) == 64 && Pow2(7) == 128
  {
  }

  /** The four bytes of a pixel: yellowish white in the order of the format, or black. */
  ghost predicate PixelIs(fb: Memory, info: Info, px: nat, py: nat, on: bool) {
    var at := 4 * (py * info.stride + px);
    && at + 4 <= |fb|
    && fb[at..at + 4] == if !on then [0, 0, 0, 0] else if info.format.Rgb? then [255, 255, 127, 0] else [127, 255, 255, 0]
  }

  /** The cell shows the glyph, dot by dot. */
  ghost predicate GlyphAt(fb: Memory, info: Info, g: Glyph, cx: nat, cy: nat) {
    forall x: nat, y: nat :: x < 8 && y < 8 ==> DotAt(fb, info, g, cx, cy, x, y)
  }

  ghost predicate DotAt(fb: Memory, info: Info, g: Glyph, cx: nat, cy: nat, x: nat, y: nat)
    requires x < 8 && y < 8
  {
    PixelIs(fb, info, 1 + 8 * cx + x, 1 + 8 * cy + y, Dot(g, x, y))
  }

  lemma ColorBytes(format: PixelFormat, lit: bool)
    requires format.Rgb? || format.Bgr?
    ensures Color(format, Intensity(lit)) == if !lit then [0, 0, 0, 0] else if format.Rgb? then [255, 255, 127, 0] else [127, 255, 255, 0]
  {
  }

  /** The bytes of a cell show a glyph exactly if its dots do. */
  lemma CellShowsGlyph(fb: Memory, info: Info, g: Glyph, cx: nat, cy: nat)
    requires Fits(info) && |fb| == info.size && cx < Columns(info) && cy < VisibleRows(info)
    ensures GlyphAt(fb, info, g, cx, cy) <==> forall b :: 0 <= b < |fb| && InCell(info.stride, b, cx, cy) ==> fb[b] == CellByte(info, g, cx, cy, b)
  {
    hide Columns, VisibleRows, Lit, Dot, PixelX, PixelY, Color, Fits, InCell, CellByte, DotAt;
    if forall b :: 0 <= b < |fb| && InCell(info.stride, b, cx, cy) ==> fb[b] == CellByte(info, g, cx, cy, b) {
      forall x: nat, y: nat | x < 8 && y < 8 ensures DotAt(fb, info, g, cx, cy, x, y) {
        BytesMakeDot(fb, info, g, cx, cy, x, y);
      }
    }
    if GlyphAt(fb, info, g, cx, cy) {
      forall b | 0 <= b < |fb| && InCell(info.stride, b, cx, cy) ensures fb[b] == CellByte(info, g, cx, cy, b) {
        DotMakesByte(fb, info, g, cx, cy, b);
      }
    }
  }

  lemma BytesMakeDot(fb: Memory, info: Info, g: Glyph, cx: nat, cy: nat, x: nat, y: nat)
    requires Fits(info) && |fb| == info.size && cx < Columns(info) && cy < VisibleRows(info) && x < 8 && y < 8
    requires forall b :: 0 <= b < |fb| && InCell(info.stride, b, cx, cy) ==> fb[b] == CellByte(info, g, cx, cy, b)
    ensures DotAt(fb, info, g, cx, cy, x, y)
  {
    hide Columns, VisibleRows, Lit, Dot, PixelX, PixelY, Color, Fits;
    var px, py := 1 + 8 * cx + x, 1 + 8 * cy + y;
    var at := 4 * (py * info.stride + px);
    CellInBounds(info, cx, cy, x, y);
    LitIsDot(g, x, y);
    FormatFits(info);
    ColorBytes(info.format, Lit(g, x, y));
    forall i | 0 <= i < 4 ensures fb[at + i] == Color(info.format, Intensity(Lit(g, x, y)))[i] {
      BytesOfPixel(info.stride, px, py, at + i);
    }
    assert fb[at..at + 4] == Color(info.format, Intensity(Lit(g, x, y)));
  }

  lemma FormatFits(info: Info)
    requires Fits(info)
    ensures info.format.Rgb? || info.format.Bgr?
  {
  }

  lemma DotMakesByte(fb: Memory, info: Info, g: Glyph, cx: nat, cy: nat, b: nat)
    requires Fits(info) && |fb| == info.size && cx < Columns(info) && cy < VisibleRows(info)
    requires b < |fb| && InCell(info.stride, b, cx, cy) && GlyphAt(fb, info, g, cx, cy)
    ensures fb[b] == CellByte(info, g, cx, cy, b)
  {
    hide Columns, VisibleRows, Lit, Dot, PixelX, PixelY, Color, Fits;
    var x, y := PixelX(info.stride, b) - 1 - 8 * cx, PixelY(info.stride, b) - 1 - 8 * cy;
    var px, py := 1 + 8 * cx + x, 1 + 8 * cy + y;
    var at := 4 * (py * info.stride + px);
    CellInBounds(info, cx, cy, x, y);
    BytesOfPixel(info.stride, px, py, b);
    assert DotAt(fb, info, g, cx, cy, x, y);
    LitIsDot(g, x, y);
    FormatFits(info);
    ColorBytes(info.format, Lit(g, x, y));
    assert fb[b] == fb[at..at + 4][b - at];
  }

  /** Byte b belongs to pixel (x, y) of the cell. */
  predicate ByteOfDot(info: Info, b: nat, cx: nat, cy: nat, x: nat, y: nat) {
    var at := 4 * ((1 + 8 * cy + y) * info.stride + (1 + 8 * cx + x));
    at <= b < at + 4
  }

  /** The screen shows rows of text: every cell its glyph, every other byte zero. */
  ghost predicate ScreenShows(fb: Memory, info: Info, font: Font, rows: seq<Row>)
    requires Sized(info, rows) && Renderable(font, rows)
  {
    && |fb| == info.size
    && (forall cx: nat, cy: nat :: cx < Columns(info) && cy < VisibleRows(info) ==> CharAt(fb, info, font, rows, cx, cy))
    && (forall b :: 0 <= b < |fb| && Outside(info, b) ==> fb[b] == 0)
  }

  ghost predicate CharAt(fb: Memory, info: Info, font: Font, rows: seq<Row>, cx: nat, cy: nat)
    requires Sized(info, rows) && Renderable(font, rows) && cx < Columns(info) && cy < VisibleRows(info)
  {
    GlyphAt(fb, info, font(rows[cy][cx]).value, cx, cy)
  }

  ghost predicate Outside(info: Info, b: nat) {
    forall cx: nat, cy: nat, x: nat, y: nat :: cx < Columns(info) && cy < VisibleRows(info) && x < 8 && y < 8 ==>
      !ByteOfDot(info, b, cx, cy, x, y)
  }

  lemma OutsideText(info: Info, b: nat)
    requires Fits(info)
    ensures Outside(info, b) <==> !InText(info, b)
  {
    hide Columns, VisibleRows, PixelX, PixelY, Fits, ByteOfDot, InText, CellX, CellY;
    if InText(info, b) {
      TextIsInCells(info, b);
      var cx, cy := CellX(info, b), CellY(info, b);
      var x, y := PixelX(info.stride, b) - 1 - 8 * cx, PixelY(info.stride, b) - 1 - 8 * cy;
      ByteInCell(info, b, cx, cy, x, y);
    } else {
      forall cx: nat, cy: nat, x: nat, y: nat | cx < Columns(info) && cy < VisibleRows(info) && x < 8 && y < 8
        ensures !ByteOfDot(info, b, cx, cy, x, y)
      {
        ByteInCell(info, b, cx, cy, x, y);
        CellOfByte(info, b, cx, cy);
      }
    }
  }

  lemma ByteInCell(info: Info, b: nat, cx: nat, cy: nat, x: nat, y: nat)
    requires Fits(info) && cx < Columns(info) && cy < VisibleRows(info) && x < 8 && y < 8
    ensures ByteOfDot(info, b, cx, cy, x, y) <==> PixelX(info.stride, b) == 1 + 8 * cx + x && PixelY(info.stride, b) == 1 + 8 * cy + y
  {
    hide Columns, VisibleRows, PixelX, PixelY, Fits;
    CellInBounds(info, cx, cy, x, y);
    BytesOfPixel(info.stride, 1 + 8 * cx + x, 1 + 8 * cy + y, b);
  }

  /** Agreement of pixels and characters, said without reference to how they are drawn. */
  lemma ShowsExactly(fb: Memory, info: Info, font: Font, rows: seq<Row>)
    requires Fits(info) && Sized(info, rows) && Renderable(font, rows) && |fb| == info.size
    ensures Shows(fb, info, font, rows) <==> ScreenShows(fb, info, font, rows)
  {
    hide Columns, VisibleRows, Fits, InText, CellX, CellY, InCell, CellByte, GlyphAt, Outside, Renderable;
    if Shows(fb, info, font, rows) {
      forall cx: nat, cy: nat | cx < Columns(info) && cy < VisibleRows(info) ensures CharAt(fb, info, font, rows, cx, cy) {
        assert font(rows[cy][cx]).Some? by { CharHasSomeGlyph(font, rows, cx, cy); }
        forall b | 0 <= b < |fb| && InCell(info.stride, b, cx, cy) ensures fb[b] == CellByte(info, font(rows[cy][cx]).value, cx, cy, b) {
          CellOfByte(info, b, cx, cy);
          assert fb[b] == Expected(info, font, rows, b);
        }
        CellShowsGlyph(fb, info, font(rows[cy][cx]).value, cx, cy);
      }
      forall b | 0 <= b < |fb| && Outside(info, b) ensures fb[b] == 0 {
        OutsideText(info, b);
        assert fb[b] == Expected(info, font, rows, b);
      }
    }
    if ScreenShows(fb, info, font, rows) {
      forall b | 0 <= b < |fb| ensures fb[b] == Expected(info, font, rows, b) {
        OutsideText(info, b);
        if InText(info, b) {
          TextIsInCells(info, b);
          var cx, cy := CellX(info, b), CellY(info, b);
          assert CharAt(fb, info, font, rows, cx, cy);
          assert font(rows[cy][cx]).Some? by { CharHasSomeGlyph(font, rows, cx, cy); }
          CellShowsGlyph(fb, info, font(rows[cy][cx]).value, cx, cy);
        }
      }
    }
  }

  lemma CharHasSomeGlyph(font: Font, rows: seq<Row>, cx: nat, cy: nat)
    requires Renderable(font, rows) && cy < |rows| && cx < |rows[cy]|
    ensures font(rows[cy][cx]).Some?
  {
  }

  /** A cell that was drawn shows its glyph. */
  lemma DrawnShowsGlyph(fb: Memory, fb': Memory, info: Info, g: Glyph, cx: nat, cy: nat)
    requires Fits(info) && |fb| == info.size && cx < Columns(info) && cy < VisibleRows(info) && CellDrawn(fb, fb', info, g, cx, cy)
    ensures GlyphAt(fb', info, g, cx, cy)
  {
    hide Columns, VisibleRows, Fits, InCell, CellByte, GlyphAt;
    CellShowsGlyph(fb', info, g, cx, cy);
  }
}
