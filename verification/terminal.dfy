/** The character buffer of shared_lib/src/logger.rs against a terminal that never forgets a line. */
module Terminals {
  import opened Bits
  import opened Collections

  const NUL: char := '\0'

  type Row = seq<char>

  /** char_buffer, x_pos and y_pos. */
  datatype Screen = Screen(rows: seq<Row>, x: nat, y: nat)

  /** Every line written so far, the last one being the current one, and the column. */
  datatype Terminal = Terminal(lines: seq<Row>, col: nat)

  function Blank(w: nat): (r: Row)
    ensures |r| == w && forall i :: 0 <= i < w ==> r[i] == NUL
  {
    seq(w, i => NUL)
  }

  // ---- The logger's buffer --------------------------------------------------------------------------------

  /** The constructor pushes as many rows as there are columns. */
  function NewScreen(w: nat): Screen { Screen(seq(w, i => Blank(w)), 0, 0) }

  /** newline, with the wrap-around of `h - 1`. */
  function NewLine(s: Screen, w: nat, h: nat): Screen {
    var y := (s.y + 1) % TWO_64;
    if y >= h then Screen((if s.rows == [] then [] else s.rows[1..]) + [Blank(w)], 0, if h == 0 then TWO_64 - 1 else h - 1)
    else Screen(s.rows, 0, y)
  }

  /** write_char on the buffer; an index out of range is a panic. */
  function Type(s: Screen, c: char, w: nat, h: nat): Option<Screen> {
    if c == '\n' then Some(NewLine(s, w, h))
    else if c == '\r' then Some(s.(x := 0))
    else
      var s1 := if s.x >= w then NewLine(s, w, h) else s;
      if s1.y < |s1.rows| && s1.x < |s1.rows[s1.y]|
      then Some(Screen(s1.rows[s1.y := s1.rows[s1.y][s1.x := c]], s1.x + 1, s1.y))
      else None
  }

  function TypeAll(s: Screen, text: seq<char>, w: nat, h: nat): Option<Screen>
    decreases |text|
  {
    if text == [] then Some(s)
    else match Type(s, text[0], w, h)
         case Some(s1) => TypeAll(s1, text[1..], w, h)
         case None => None
  }

  // ---- The unbounded terminal -------------------------------------------------------------------------------

  function NewTerminal(w: nat): Terminal { Terminal([Blank(w)], 0) }

  function NextLine(t: Terminal, w: nat): Terminal { Terminal(t.lines + [Blank(w)], 0) }

  function Put(t: Terminal, c: char): Terminal {
    var last := |t.lines| - 1;
    if t.lines != [] && t.col < |t.lines[last]| then Terminal(t.lines[last := t.lines[last][t.col := c]], t.col + 1) else t
  }

  /** A terminal of width w: lines wrap, none is ever lost. */
  function Print(t: Terminal, c: char, w: nat): Terminal {
    if c == '\n' then NextLine(t, w)
    else if c == '\r' then t.(col := 0)
    else Put(if t.col >= w then NextLine(t, w) else t, c)
  }

  function PrintAll(t: Terminal, text: seq<char>, w: nat): Terminal
    decreases |text|
  {
    if text == [] then t else PrintAll(Print(t, text[0], w), text[1..], w)
  }

  // ---- Refinement -------------------------------------------------------------------------------------------

  /** The buffer shows the end of the terminal: the row of the cursor is the current line, those
      above are the lines before it, as many as fit, and all rows below are blank. */
  ghost predicate Represents(s: Screen, t: Terminal, w: nat, h: nat) {
    && |s.rows| == w && 1 <= |t.lines| && s.x == t.col <= w
    && s.y == (if |t.lines| <= h then |t.lines| else h) - 1
    && (forall i :: 0 <= i < |t.lines| ==> |t.lines[i]| == w)
    && (forall i :: 0 <= i <= s.y < w ==> s.rows[i] == t.lines[|t.lines| - 1 - s.y + i])
    && (forall i :: s.y < i < w ==> s.rows[i] == Blank(w))
  }

  lemma NewRepresents(w: nat, h: nat)
    requires w >= h >= 1
    ensures Represents(NewScreen(w), NewTerminal(w), w, h)
  {
  }

  lemma NewLineRepresents(s: Screen, t: Terminal, w: nat, h: nat)
    requires Represents(s, t, w, h) && TWO_64 > w >= h >= 1
    ensures Represents(NewLine(s, w, h), NextLine(t, w), w, h)
  {
    var s' := NewLine(s, w, h);
    var t' := NextLine(t, w);
    forall i | 0 <= i <= s'.y ensures s'.rows[i] == t'.lines[|t'.lines| - 1 - s'.y + i] {
      if s.y + 1 >= h && i < s'.y {
        assert s'.rows[i] == s.rows[i + 1];
      }
    }
  }

  lemma PutRepresents(s: Screen, t: Terminal, c: char, w: nat, h: nat)
    requires Represents(s, t, w, h) && w >= h >= 1 && s.x < w
    ensures s.y < w && |s.rows[s.y]| == w
    ensures Represents(Screen(s.rows[s.y := s.rows[s.y][s.x := c]], s.x + 1, s.y), Put(t, c), w, h)
  {
  }

  /** No character makes the logger fail, and it keeps showing the end of the terminal. */
  lemma TypeRefines(s: Screen, t: Terminal, c: char, w: nat, h: nat)
    requires Represents(s, t, w, h) && TWO_64 > w >= h >= 1
    ensures Type(s, c, w, h).Some? && Represents(Type(s, c, w, h).value, Print(t, c, w), w, h)
  {
    hide Represents, NewLine, NextLine, Put;
    NewLineRepresents(s, t, w, h);
    if c != '\n' && c != '\r' {
      WithinWidth(s, t, w, h);
      WithinWidth(NewLine(s, w, h), NextLine(t, w), w, h);
      AfterNewLine(s, t, w, h);
      if s.x >= w {
        PutRepresents(NewLine(s, w, h), NextLine(t, w), c, w, h);
      } else {
        PutRepresents(s, t, c, w, h);
      }
    } else if c == '\r' {
      ReturnRepresents(s, t, w, h);
    }
  }

  lemma ReturnRepresents(s: Screen, t: Terminal, w: nat, h: nat)
    requires Represents(s, t, w, h)
    ensures Represents(s.(x := 0), t.(col := 0), w, h)
  {
  }

  lemma WithinWidth(s: Screen, t: Terminal, w: nat, h: nat)
    requires Represents(s, t, w, h) && w >= h >= 1
    ensures s.x == t.col && s.y < |s.rows| && |s.rows| == w && |s.rows[s.y]| == w
  {
    assert s.rows[s.y] == t.lines[|t.lines| - 1];
  }

  lemma AfterNewLine(s: Screen, t: Terminal, w: nat, h: nat)
    ensures NewLine(s, w, h).x == 0 && NextLine(t, w).col == 0
  {
  }

  lemma {:induction false} TypeAllRefines(s: Screen, t: Terminal, text: seq<char>, w: nat, h: nat)
    requires Represents(s, t, w, h) && TWO_64 > w >= h >= 1
    ensures TypeAll(s, text, w, h).Some? && Represents(TypeAll(s, text, w, h).value, PrintAll(t, text, w), w, h)
    decreases |text|
  {
    hide Represents, Type, Print;
    if text != [] {
      TypeRefines(s, t, text[0], w, h);
      TypeAllRefines(Type(s, text[0], w, h).value, Print(t, text[0], w), text[1..], w, h);
    }
  }

  /** The last lines of a terminal, as many as fit, padded with blank rows. */
  function LastLines(t: Terminal, w: nat, h: nat): seq<Row> {
    if |t.lines| >= h then t.lines[|t.lines| - h..] else t.lines + seq(h - |t.lines|, i => Blank(w))
  }

  /** Terminal refinement: after any text the visible rows are the last lines of the unbounded
      terminal, all rows below the cursor are blank, and there are still as many rows as columns. */
  lemma VisibleRowsAreLastLines(text: seq<char>, w: nat, h: nat)
    requires TWO_64 > w >= h >= 1
    ensures var r := TypeAll(NewScreen(w), text, w, h);
            && r.Some? && |r.value.rows| == w && r.value.y < h && r.value.x <= w
            && r.value.rows[..h] == LastLines(PrintAll(NewTerminal(w), text, w), w, h)
            && forall i :: r.value.y < i < w ==> r.value.rows[i] == Blank(w)
  {
    hide TypeAll, PrintAll;
    NewRepresents(w, h);
    TypeAllRefines(NewScreen(w), NewTerminal(w), text, w, h);
    ShownAreLast(TypeAll(NewScreen(w), text, w, h).value, PrintAll(NewTerminal(w), text, w), w, h);
  }

  lemma ShownAreLast(s: Screen, t: Terminal, w: nat, h: nat)
    requires Represents(s, t, w, h) && w >= h >= 1
    ensures s.rows[..h] == LastLines(t, w, h)
  {
    var n := |t.lines|;
    if n >= h {
      forall i | 0 <= i < h ensures s.rows[i] == t.lines[n - h..][i] {
        assert s.rows[i] == t.lines[n - 1 - s.y + i];
      }
      assert s.rows[..h] == t.lines[n - h..];
    } else {
      var padding := seq(h - n, i => Blank(w));
      forall i | 0 <= i < h ensures s.rows[i] == (t.lines + padding)[i] {
        ShownRow(s, t, w, h, i);
      }
      assert s.rows[..h] == t.lines + padding;
    }
  }

  lemma ShownRow(s: Screen, t: Terminal, w: nat, h: nat, i: nat)
    requires Represents(s, t, w, h) && w >= h > i && |t.lines| < h
    ensures s.rows[i] == if i < |t.lines| then t.lines[i] else Blank(w)
  {
    if i < |t.lines| {
      assert s.rows[i] == t.lines[|t.lines| - 1 - s.y + i];
    }
  }

  // ---- When it can fail ---------------------------------------------------------------------------------------

  function NewLines(n: nat): (text: seq<char>)
    ensures |text| == n
  {
    if n == 0 then [] else ['\n'] + NewLines(n - 1)
  }

  /** With more rows on the screen than rows in the buffer, enough newlines reach a missing row. */
  lemma {:induction false} TooFewRows(s: Screen, n: nat, w: nat, h: nat)
    requires w < h && |s.rows| == w < TWO_63 && s.y + n == w && s.x == 0
    ensures TypeAll(s, NewLines(n) + ['a'], w, h).None?
    decreases n
  {
    var text := NewLines(n) + ['a'];
    if n == 0 {
      assert text[0] == 'a';
    } else {
      assert text[0] == '\n' && text[1..] == NewLines(n - 1) + ['a'];
      TooFewRows(NewLine(s, w, h), n - 1, w, h);
    }
  }

  /** Without any row on the screen, a newline leaves the cursor nowhere. */
  lemma NoRows(w: nat)
    requires w < TWO_63
    ensures TypeAll(NewScreen(w), ['\n', 'a'], w, 0).None?
  {
    var s := NewLine(NewScreen(w), w, 0);
    assert s.y == TWO_64 - 1 && |s.rows| <= w + 1;
    assert ['\n', 'a'][1..] == ['a'];
    assert Type(s, 'a', w, 0).None?;
    assert TypeAll(s, ['a'], w, 0).None?;
  }

  /** The logger survives every text exactly if it has at least one visible row and at least as
      many columns as visible rows. */
  lemma NeverFailsExactly(w: nat, h: nat)
    requires w < TWO_63
    ensures (forall text: seq<char> :: TypeAll(NewScreen(w), text, w, h).Some?) <==> w >= h >= 1
  {
    hide TypeAll;
    if w >= h >= 1 {
      forall text: seq<char> ensures TypeAll(NewScreen(w), text, w, h).Some? {
        VisibleRowsAreLastLines(text, w, h);
      }
    } else if h == 0 {
      NoRows(w);
    } else {
      TooFewRows(NewScreen(w), w, w, h);
    }
  }
}
