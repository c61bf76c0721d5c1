/** The logger object: the character buffer, the cursor and the framebuffer bytes. */
module LoggerCode {
  import opened Bits
  import opened PhysicalMemory
  import opened Collections
  import opened Terminals
  import opened Framebuffer

  /** A screen whose cursor is on it. */
  ghost predicate GoodScreen(s: Screen, w: nat, h: nat) {
    |s.rows| == w && s.x <= w && s.y < h && forall r :: 0 <= r < |s.rows| ==> |s.rows[r]| == w
  }

  lemma NewLineGood(s: Screen, w: nat, h: nat)
    requires GoodScreen(s, w, h) && TWO_63 > w >= h >= 1
    ensures GoodScreen(NewLine(s, w, h), w, h) && NewLine(s, w, h).x == 0
  {
  }

  lemma NewLineRenderable(s: Screen, font: Font, w: nat, h: nat)
    requires Renderable(font, s.rows) && font(NUL).Some?
    ensures Renderable(font, NewLine(s, w, h).rows)
  {
    var rows := NewLine(s, w, h).rows;
    forall r, c | 0 <= r < |rows| && 0 <= c < |rows[r]| ensures font(rows[r][c]).Some? {
      assert rows[r] == Blank(w) || (r < |s.rows| && rows[r] == s.rows[r]) || (r + 1 < |s.rows| && rows[r] == s.rows[r + 1]);
    }
  }

  /** What write_char can show: control characters, and whatever the font has. */
  predicate Printable(font: Font, c: char) {
    c == '\n' || c == '\r' || c == NUL || font(c).Some?
  }

  class Logger {
    const info: Info
    const font: Font
    const fb: array<Byte>
    var xPos: nat
    var yPos: nat
    var charBuffer: seq<Row>

    ghost function View(): Screen
      reads this
    {
      Screen(charBuffer, xPos, yPos)
    }

    /** What the display must be like: wide enough for its height, with a buffer that holds it and a
        font whose NUL is blank. */
    ghost predicate Usable()
    {
      && Fits(info) && TWO_63 > Columns(info) >= VisibleRows(info) >= 1 && fb.Length == info.size
      && font(NUL) == Some(BLANK_GLYPH)
    }

    ghost predicate Valid()
      reads this, fb
    {
      && Usable() && GoodScreen(View(), Columns(info), VisibleRows(info)) && Renderable(font, charBuffer)
      && MarginsZero(fb[..], info)
    }

    /** The pixels agree with the characters. */
    ghost predicate Agrees()
      requires Valid()
      reads this, fb
    {
      Shows(fb[..], info, font, charBuffer)
    }

    /** The glyph drawn for a character: solid for NUL. */
    ghost function Drawn(c: char): Glyph {
      if c == NUL || font(c).None? then [0xFF, 0xFF, 0xFF, 0xFF, 0xFF, 0xFF, 0xFF, 0xFF] else font(c).value
    }

    /** On any display; on a usable one the new logger is valid and shows its empty screen. */
    constructor (info: Info, font: Font)
      requires info.width >= 1 && info.height >= 1
      ensures this.info == info && this.font == font && fresh(fb) && fb.Length == info.size
      ensures View() == NewScreen(Columns(info)) && forall b :: 0 <= b < fb.Length ==> fb[b] == 0
      ensures Usable() ==> Valid() && Agrees()
    {
      this.info, this.font := info, font;
      fb := new Byte[info.size](_ => 0);
      xPos, yPos := 0, 0;
      var rows: seq<Row> := [];
      for i := 0 to Columns(info)
        invariant rows == seq(i, j => Blank(Columns(info)))
      {
        rows := rows + [Blank(Columns(info))];
      }
      charBuffer := rows;
      new;
      hide Columns, VisibleRows, Fits, Shows, MarginsZero, InText;
      if Usable() {
        ZerosShowBlanks(fb[..], info, font, charBuffer);
        ShownHasZeroMargins(fb[..], info, font, charBuffer);
      }
    }

    /** write_pixel. */
    method WritePixel(x: nat, y: nat, intensity: Byte)
      requires 4 * (y * info.stride + x) + 4 <= fb.Length && (info.format.Rgb? || info.format.Bgr?)
      modifies fb
      ensures fb[..] == PixelWritten(old(fb[..]), info, x, y, intensity)
    {
      var pixelOffset := y * info.stride + x;
      var color := Color(info.format, intensity);
      var byteOffset := 4 * pixelOffset;
      forall i | 0 <= i < 4 {
        fb[byteOffset + i] := color[i];
      }
      assert fb[..] == old(fb[..])[..byteOffset] + color + old(fb[..])[byteOffset + 4..];
    }

    /** write_8x8, its corner at any pixel; a pixel outside the buffer would be a panic. */
    method Write8x8(rendered: Glyph, x0: nat, y0: nat)
      requires GlyphFits(info, fb.Length, x0, y0) && (info.format.Rgb? || info.format.Bgr?)
      modifies fb
      ensures fb[..] == GlyphWritten(old(fb[..]), info, rendered, x0, y0, 64)
    {
      hide Lit, PixelWritten, GlyphWritten;
      ghost var before := fb[..];
      NothingWritten(before, info, rendered, x0, y0);
      for y := 0 to 8
        invariant fb[..] == GlyphWritten(before, info, rendered, x0, y0, 8 * y)
      {
        for x := 0 to 8
          invariant fb[..] == GlyphWritten(before, info, rendered, x0, y0, 8 * y + x)
        {
          OneMorePixel(before, info, rendered, x0, y0, x, y);
          assert PixelFits(info, fb.Length, x0, y0, x, y);
          WritePixel(x0 + x, y0 + y, Intensity(Lit(rendered, x, y)));
        }
      }
    }

    /** A glyph in a character cell. */
    method DrawCell(rendered: Glyph, cx: nat, cy: nat)
      requires Usable() && cx < Columns(info) && cy < VisibleRows(info)
      modifies fb
      ensures CellDrawn(old(fb[..]), fb[..], info, rendered, cx, cy)
    {
      hide Columns, VisibleRows, CellDrawn, GlyphWritten, GlyphFits;
      CellFits(info, cx, cy);
      GlyphDrawsCell(fb[..], info, rendered, cx, cy);
      Write8x8(rendered, 1 + cx * 8, 1 + cy * 8);
    }

    /** draw_char_buffer. */
    method DrawCharBuffer()
      requires Valid()
      modifies fb
      ensures Valid() && Agrees()
    {
      hide Columns, VisibleRows, Fits, Shows, MarginsZero, ShownUpTo, CellDrawn, GoodScreen, Renderable;
      SizedView(View(), info);
      NothingShown(fb[..], info, font, charBuffer);
      for y := 0 to VisibleRows(info)
        invariant Sized(info, charBuffer) && ShownUpTo(fb[..], info, font, charBuffer, 0, y)
      {
        for x := 0 to Columns(info)
          invariant ShownUpTo(fb[..], info, font, charBuffer, x, y)
        {
          ghost var before := fb[..];
          CharHasSomeGlyph(font, charBuffer, x, y);
          DrawCell(font(charBuffer[y][x]).value, x, y);
          OneMoreShown(before, fb[..], info, font, charBuffer, x, y);
        }
        LineShown(fb[..], info, font, charBuffer, y);
      }
      AllShown(fb[..], info, font, charBuffer);
      ShownHasZeroMargins(fb[..], info, font, charBuffer);
    }

    method CarriageReturn()
      modifies `xPos
      ensures xPos == 0
    {
      xPos := 0;
    }

    /** newline: moves down, or scrolls and redraws. */
    method Newline()
      requires Valid()
      modifies this, fb
      ensures Valid() && View() == NewLine(old(View()), Columns(info), VisibleRows(info)) && xPos == 0
      ensures old(Agrees()) ==> Agrees()
    {
      hide Columns, VisibleRows, Fits, Shows, MarginsZero, Renderable;
      NewLineGood(View(), Columns(info), VisibleRows(info));
      NewLineRenderable(View(), font, Columns(info), VisibleRows(info));
      yPos := yPos + 1;
      CarriageReturn();
      if yPos >= VisibleRows(info) {
        charBuffer := charBuffer[1..] + [Blank(Columns(info))];
        yPos := VisibleRows(info) - 1;
        xPos := 0;
        DrawCharBuffer();
      }
    }

    /** clear: back to the state of a new logger. */
    method Clear()
      requires Valid()
      modifies this, fb
      ensures Valid() && View() == NewScreen(Columns(info)) && Agrees()
    {
      hide Columns, VisibleRows, Fits, Shows, MarginsZero, InText;
      xPos := 0;
      yPos := 0;
      for i := 0 to fb.Length
        modifies fb
        invariant forall b :: 0 <= b < i ==> fb[b] == 0
      {
        fb[i] := 0;
      }
      for i := 0 to Columns(info)
        modifies `charBuffer
        invariant |charBuffer| == Columns(info)
        invariant forall r :: 0 <= r < i ==> charBuffer[r] == Blank(Columns(info))
      {
        charBuffer := charBuffer[i := Blank(Columns(info))];
      }
      assert charBuffer == seq(Columns(info), i => Blank(Columns(info)));
      ZerosShowBlanks(fb[..], info, font, charBuffer);
      ShownHasZeroMargins(fb[..], info, font, charBuffer);
    }

    /** write_char; `ok` is false where the code panics. */
    method WriteChar(c: char) returns (ok: bool)
      requires Valid()
      modifies this, fb
      ensures ok <==> Printable(font, c)
      ensures ok ==> Valid() && Type(old(View()), c, Columns(info), VisibleRows(info)) == Some(View())
      ensures ok && c != '\n' && c != '\r' ==> xPos >= 1 && GlyphAt(fb[..], info, Drawn(c), xPos - 1, yPos)
      ensures ok && old(Agrees()) ==> (Agrees() <==> c != NUL)
    {
      hide Columns, VisibleRows, Fits, Shows, MarginsZero, Renderable, CellDrawn, GlyphAt;
      if c == '\n' {
        Newline();
        return true;
      }
      if c == '\r' {
        CarriageReturn();
        return true;
      }
      if xPos >= Columns(info) {
        Newline();
      }
      ok := PutChar(c);
    }

    /** The character itself, on the line where it fits. */
    method PutChar(c: char) returns (ok: bool)
      requires Valid() && xPos < Columns(info) && c != '\n' && c != '\r'
      modifies this, fb
      ensures ok <==> Printable(font, c)
      ensures ok ==> Valid() && View() == Screen(old(charBuffer)[old(yPos) := old(charBuffer)[old(yPos)][old(xPos) := c]], old(xPos) + 1, old(yPos))
      ensures ok ==> GlyphAt(fb[..], info, Drawn(c), old(xPos), old(yPos))
      ensures ok && old(Agrees()) ==> (Agrees() <==> c != NUL)
    {
      hide Columns, VisibleRows, Fits, Shows, MarginsZero, CellDrawn, GlyphAt;
      ghost var rows, before := charBuffer, fb[..];
      charBuffer := charBuffer[yPos := charBuffer[yPos][xPos := c]];
      if c != NUL {
        var rendered := font(c);
        if rendered.None? {
          return false;
        }
        DrawCell(rendered.value, xPos, yPos);
        DrawnShowsGlyph(before, fb[..], info, rendered.value, xPos, yPos);
        DrawingKeepsMargins(before, fb[..], info, rendered.value, xPos, yPos);
        if Shows(before, info, font, rows) {
          PutShows(before, fb[..], info, font, rows, xPos, yPos, c);
        }
      } else {
        DrawCell(SOLID_GLYPH, xPos, yPos);
        assert SOLID_GLYPH == [0xFF, 0xFF, 0xFF, 0xFF, 0xFF, 0xFF, 0xFF, 0xFF];
        DrawnShowsGlyph(before, fb[..], info, SOLID_GLYPH, xPos, yPos);
        DrawingKeepsMargins(before, fb[..], info, SOLID_GLYPH, xPos, yPos);
        SolidIsNotBlank(before, fb[..], info, font, charBuffer, xPos, yPos);
      }
      xPos := xPos + 1;
      return true;
    }

    /** write_str: the first character that cannot be shown ends it. */
    method WriteStr(text: seq<char>) returns (ok: bool)
      requires Valid()
      modifies this, fb
      ensures ok <==> forall i :: 0 <= i < |text| ==> Printable(font, text[i])
      ensures ok ==> Valid() && TypeAll(old(View()), text, Columns(info), VisibleRows(info)) == Some(View())
      ensures ok && old(Agrees()) && NUL !in text ==> Agrees()
    {
      hide Valid, Agrees, Type, Printable, Columns, VisibleRows;
      ghost var start := View();
      var i := 0;
      while i < |text|
        invariant 0 <= i <= |text| && Valid()
        invariant forall j :: 0 <= j < i ==> Printable(font, text[j])
        invariant TypeAll(start, text, Columns(info), VisibleRows(info)) == TypeAll(View(), text[i..], Columns(info), VisibleRows(info))
        invariant old(Agrees()) && NUL !in text ==> Agrees()
      {
        assert text[i..][0] == text[i] && text[i..][1..] == text[i + 1..];
        var shown := WriteChar(text[i]);
        if !shown {
          return false;
        }
        i := i + 1;
      }
      return true;
    }
  }

  lemma NothingWritten(fb: Memory, info: Info, g: Glyph, x: nat, y: nat)
    ensures GlyphWritten(fb, info, g, x, y, 0) == fb
  {
  }

  lemma OneMorePixel(fb: Memory, info: Info, g: Glyph, x0: nat, y0: nat, x: nat, y: nat)
    requires x < 8 && y < 8
    ensures GlyphWritten(fb, info, g, x0, y0, 8 * y + x + 1) ==
            PixelWritten(GlyphWritten(fb, info, g, x0, y0, 8 * y + x), info, x0 + x, y0 + y, Intensity(Lit(g, x, y)))
  {
    hide Lit, PixelWritten;
    assert (8 * y + x) % 8 == x && (8 * y + x) / 8 == y;
  }

  lemma SizedView(s: Screen, info: Info)
    requires GoodScreen(s, Columns(info), VisibleRows(info)) && Columns(info) >= VisibleRows(info)
    ensures Sized(info, s.rows)
  {
  }
}
