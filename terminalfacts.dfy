/**
 * Properties of the terminal of term/uterm.c, proved about the functions of module Terminal:
 * what one glyph, a scroll, the cursor overlay, one byte and a string do to the cells, the
 * pixels, the cursor and the escape parser.
 */
module TerminalFacts {
  import opened Arith
  import opened Terminal
  import Color

  /** Pixel (px, py) of the back buffer. */
  function PixelAt(g: Geometry, s: State, px: int, py: int): bv32
    requires Wf(g, s) && 0 <= px < g.width && 0 <= py < g.height
  {
    IndexBound(g.width, g.height, px, py);
    s.fb[py * g.width + px]
  }

  /** Cell (x, y) is a cell of the grid. */
  predicate IsCell(g: Geometry, x: int, y: int) {
    0 <= x < g.Cols() && 0 <= y < g.Lines()
  }

  // ---------------------------------------------------------------- one glyph

  /** Distinct cells of the grid have distinct row-major indices. */
  lemma CellIndexInjective(g: Geometry, x: int, y: int, x': int, y': int)
    requires g.Ok() && IsCell(g, x, y) && IsCell(g, x', y')
    ensures CellIndex(g, x, y) == CellIndex(g, x', y') <==> x == x' && y == y'
  {
    DivModIndex(g.Cols(), x, y);
    DivModIndex(g.Cols(), x', y');
  }

  /** `uterm_cell_putc_raw` records `ch` in its own cell, when that is a cell, and in no other. */
  lemma PutCellRawCells(g: Geometry, s: State, ch: char, x: int, y: int, f: bv32, b: bv32, x': int, y': int)
    requires Wf(g, s) && IsCell(g, x', y')
    ensures CellAt(g, PutCellRaw(g, s, ch, x, y, f, b), x', y')
      == if x' == x && y' == y then ch else CellAt(g, s, x', y')
  {
    if IsCell(g, x, y) {
      CellIndexInjective(g, x, y, x', y');
      IndexBound(g.Cols(), g.Lines(), x, y);
      IndexBound(g.Cols(), g.Lines(), x', y');
    }
  }

  /**
   * `uterm_cell_putc_raw` sets pixel (8x + j, 16y + i) of a cell's block to the foreground when
   * bit `0x80 >> j` of glyph row `i` is set and to the background otherwise; every pixel outside
   * the block, and every pixel at all when (x, y) is not a cell, keeps its colour.
   */
  lemma PutCellRawPixels(g: Geometry, s: State, ch: char, x: int, y: int, f: bv32, b: bv32, px: int, py: int)
    requires Wf(g, s) && 0 <= px < g.width && 0 <= py < g.height
    ensures PixelAt(g, PutCellRaw(g, s, ch, x, y, f, b), px, py)
      == if IsCell(g, x, y) && InCellBlock(px, py, x, y)
         then Ink(g, ch, py - 16 * y, px - 8 * x, f, b)
         else PixelAt(g, s, px, py)
  {
    IndexBound(g.width, g.height, px, py);
    DivModIndex(g.width, px, py);
  }

  // ---------------------------------------------------------------- scrolling

  /** After `uterm_scroll` every cell row holds the row below it, and the last row is NUL. */
  lemma ScrollCells(g: Geometry, s: State, x: int, y: int)
    requires Wf(g, s) && IsCell(g, x, y)
    ensures CellAt(g, Scroll(g, s), x, y) == if y + 1 < g.Lines() then CellAt(g, s, x, y + 1) else Nul
  {
    var cols, lines := g.Cols(), g.Lines();
    IndexBound(cols, lines, x, y);
    if y + 1 < lines {
      IndexBound(cols, lines - 1, x, y);
      IndexBound(cols, lines, x, y + 1);
      assert (y + 1) * cols + x == y * cols + x + cols;
    } else {
      assert y * cols == (lines - 1) * cols;
    }
  }

  /**
   * After `uterm_scroll` every scanline of the text area holds the scanline 16 below it, the
   * 16 scanlines of the last text line are 0, and scanlines below the text area are untouched.
   */
  lemma ScrollPixels(g: Geometry, s: State, px: int, py: int)
    requires Wf(g, s) && 0 <= px < g.width && 0 <= py < g.height
    ensures PixelAt(g, Scroll(g, s), px, py)
      == if py + 16 < 16 * g.Lines() then PixelAt(g, s, px, py + 16)
         else if py < 16 * g.Lines() then 0
         else PixelAt(g, s, px, py)
  {
    var w, lines := g.width, g.Lines();
    MulMono(lines * 16, g.height, w);
    IndexBound(w, g.height, px, py);
    RowBefore(w, px, py, (lines - 1) * 16);
    RowBefore(w, px, py, lines * 16);
    assert (py + 16) * w + px == py * w + px + 16 * w;
  }

  /** `n` successive calls of `uterm_scroll`. */
  function Scrolls(g: Geometry, s: State, n: nat): (r: State)
    requires Wf(g, s)
    ensures Wf(g, r)
  {
    if n == 0 then s else Scroll(g, Scrolls(g, s, n - 1))
  }

  /** After `n` scrolls row y holds what row y + n held, and rows past the old last row are NUL. */
  lemma {:induction false} ScrollsCells(g: Geometry, s: State, n: nat, x: int, y: int)
    requires Wf(g, s) && IsCell(g, x, y)
    ensures CellAt(g, Scrolls(g, s, n), x, y) == if y + n < g.Lines() then CellAt(g, s, x, y + n) else Nul
  {
    if n > 0 {
      ScrollCells(g, Scrolls(g, s, n - 1), x, y);
      if y + 1 < g.Lines() {
        ScrollsCells(g, s, n - 1, x, y + 1);
      }
    }
  }

  /** Scrolling once per text line empties the whole grid. */
  lemma ScrollingAllLinesClears(g: Geometry, s: State, x: int, y: int)
    requires Wf(g, s) && IsCell(g, x, y)
    ensures CellAt(g, Scrolls(g, s, g.Lines()), x, y) == Nul
  {
    ScrollsCells(g, s, g.Lines(), x, y);
  }

  // ---------------------------------------------------------------- line feed and cursor

  /**
   * The row advance: the cursor moves one row down and the cells stay, or, on the last row,
   * every cell row takes the one below it, the last row becomes NUL and the cursor stays there.
   */
  lemma LineFeedCells(g: Geometry, s: State, x: int, y: int)
    requires Wf(g, s) && s.cy < g.Lines() && IsCell(g, x, y)
    ensures var r := LineFeed(g, s);
      r.cx == s.cx && r.cy == (if s.cy + 1 < g.Lines() then s.cy + 1 else s.cy)
      && r.parser == s.parser && r.fg == s.fg && r.bg == s.bg
      && CellAt(g, r, x, y) == if s.cy + 1 < g.Lines() then CellAt(g, s, x, y)
                               else if y + 1 < g.Lines() then CellAt(g, s, x, y + 1)
                               else Nul
  {
    if s.cy + 1 >= g.Lines() {
      ScrollCells(g, s.(cy := s.cy + 1), x, y);
    }
  }

  /** Redrawing a cell from its own recorded character leaves the cell buffer as it was. */
  lemma RedrawKeepsCells(g: Geometry, s: State, x: int, y: int)
    requires Wf(g, s) && IsCell(g, x, y)
    ensures PutCell(g, s, CellAt(g, s, x, y), x, y).cells == s.cells
  {
    IndexBound(g.Cols(), g.Lines(), x, y);
    var i := CellIndex(g, x, y);
    assert s.cells[i := s.cells[i]] == s.cells;
  }

  /**
   * `uterm_show_cursor` only redraws: it never changes the text, the cursor, the parser or the
   * colours; afterwards the cursor is visible exactly when asked, and a shown cursor has its
   * position saved.
   */
  lemma ShowCursorKeepsText(g: Geometry, s: State, show: bool)
    requires Wf(g, s) && (show ==> InGrid(g, s))
    ensures var r := ShowCursor(g, s, show);
      r.cells == s.cells && r.front == s.front
      && r.cx == s.cx && r.cy == s.cy && r.parser == s.parser && r.fg == s.fg && r.bg == s.bg
      && r.visible == show
      && (show ==> r.sx == s.cx && r.sy == s.cy)
      && (!show ==> r.sx == s.sx && r.sy == s.sy)
  {
    var h := if s.visible then PutCell(g, s, CellAt(g, s, s.sx, s.sy), s.sx, s.sy) else s;
    if s.visible {
      RedrawKeepsCells(g, s, s.sx, s.sy);
    }
    assert h.cells == s.cells;
    if show {
      var t := h.(sx := h.cx, sy := h.cy);
      RedrawKeepsCells(g, t, t.cx, t.cy);
    }
  }

  /**
   * `uterm_putcursor` on a cursor inside the grid: the cursor stays put, its cell records ' ',
   * its whole block is painted in `CursorColor`, and every other cell and pixel is unchanged.
   */
  lemma PutCursorDraws(g: Geometry, s: State, x: int, y: int, px: int, py: int)
    requires Wf(g, s) && InGrid(g, s) && IsCell(g, x, y) && 0 <= px < g.width && 0 <= py < g.height
    ensures var r := PutCursor(g, s);
      r == s.(cells := r.cells, fb := r.fb)
      && CellAt(g, r, x, y) == (if x == s.cx && y == s.cy then ' ' else CellAt(g, s, x, y))
      && PixelAt(g, r, px, py)
         == (if InCellBlock(px, py, s.cx, s.cy) then CursorColor else PixelAt(g, s, px, py))
  {
    PutCellRawCells(g, s, ' ', s.cx, s.cy, CursorColor, CursorColor, x, y);
    PutCellRawPixels(g, s, ' ', s.cx, s.cy, CursorColor, CursorColor, px, py);
  }

  /** `uterm_putcursor` on a cursor past the right edge first moves it to the start of the next row. */
  lemma PutCursorWraps(g: Geometry, s: State)
    requires Wf(g, s) && s.cy < g.Lines() && s.cx >= g.Cols()
    ensures var r := PutCursor(g, s);
      r.cx == 0 && r.cy == (if s.cy + 1 < g.Lines() then s.cy + 1 else s.cy)
  {
  }

  /**
   * The tail that `uterm_putc` and `handle_vt100_command` share (show the cursor, draw its
   * block): the cursor, the parser and the colours stay, the cursor is visible, and the only
   * cell that changes is the one under the cursor, which records ' '.
   */
  lemma ShowAndDraw(g: Geometry, t: State, x: int, y: int)
    requires Wf(g, t) && InGrid(g, t) && IsCell(g, x, y)
    ensures var r := PutCursor(g, ShowCursor(g, t, true));
      r.cx == t.cx && r.cy == t.cy && r.parser == t.parser && r.fg == t.fg && r.bg == t.bg
      && r.visible && r.sx == t.cx && r.sy == t.cy
      && CellAt(g, r, x, y) == (if x == t.cx && y == t.cy then ' ' else CellAt(g, t, x, y))
  {
    var u := ShowCursor(g, t, true);
    ShowCursorKeepsText(g, t, true);
    PutCursorDraws(g, u, x, y, 0, 0);
  }

  /**
   * Hiding the cursor repaints the block of the saved cell, when the cursor was visible, with the
   * character recorded there in the current colours; every other pixel keeps its value.
   */
  lemma HidePixels(g: Geometry, s: State, px: int, py: int)
    requires Wf(g, s) && 0 <= px < g.width && 0 <= py < g.height
    ensures PixelAt(g, ShowCursor(g, s, false), px, py)
      == if s.visible && InCellBlock(px, py, s.sx, s.sy)
         then Ink(g, CellAt(g, s, s.sx, s.sy), py - 16 * s.sy, px - 8 * s.sx, s.fg, s.bg)
         else PixelAt(g, s, px, py)
  {
    if s.visible {
      PutCellRawPixels(g, s, CellAt(g, s, s.sx, s.sy), s.sx, s.sy, s.fg, s.bg, px, py);
    }
  }

  /**
   * Showing a hidden cursor and drawing its block paints the cursor block in `CursorColor`;
   * every other pixel keeps its value.
   */
  lemma ShowAndDrawPixels(g: Geometry, t: State, px: int, py: int)
    requires Wf(g, t) && InGrid(g, t) && !t.visible && 0 <= px < g.width && 0 <= py < g.height
    ensures PixelAt(g, PutCursor(g, ShowCursor(g, t, true)), px, py)
      == if InCellBlock(px, py, t.cx, t.cy) then CursorColor else PixelAt(g, t, px, py)
  {
    var u := ShowCursor(g, t, true);
    ShowCursorKeepsText(g, t, true);
    var saved := t.(sx := t.cx, sy := t.cy);
    var ch := CellAt(g, saved, t.cx, t.cy);
    assert u == PutCell(g, saved, ch, t.cx, t.cy).(visible := true);
    PutCellRawPixels(g, saved, ch, t.cx, t.cy, t.fg, t.bg, px, py);
    PutCursorDraws(g, u, t.cx, t.cy, px, py);
  }

  // ---------------------------------------------------------------- one byte

  /** The bytes `uterm_putc` treats specially outside an escape sequence. */
  predicate Control(ch: char) {
    ch == '\r' || ch == '\n' || ch == Backspace || ch == '\t' || ch == Esc
  }

  /**
   * A printable byte is recorded at the cursor and the cursor advances one column; past the
   * last column it goes to the start of the next row, and past the last row the screen scrolls,
   * so the byte ends up one row higher.
   */
  lemma PrintPlaces(g: Geometry, s: State, ch: char)
    requires Wf(g, s) && InGrid(g, s)
    ensures var r := Print(g, s, ch);
      r.parser == s.parser && r.fg == s.fg && r.bg == s.bg
      && (s.cx + 1 < g.Cols() ==> r.cx == s.cx + 1 && r.cy == s.cy && CellAt(g, r, s.cx, s.cy) == ch)
      && (s.cx + 1 == g.Cols() && s.cy + 1 < g.Lines() ==>
            r.cx == 0 && r.cy == s.cy + 1 && CellAt(g, r, s.cx, s.cy) == ch)
      && (s.cx + 1 == g.Cols() && s.cy + 1 == g.Lines() ==>
            r.cx == 0 && r.cy == s.cy && (s.cy > 0 ==> CellAt(g, r, s.cx, s.cy - 1) == ch))
  {
    var t := PutCell(g, s, ch, s.cx, s.cy).(cx := s.cx + 1);
    PutCellRawCells(g, s, ch, s.cx, s.cy, s.fg, s.bg, s.cx, s.cy);
    assert CellAt(g, t, s.cx, s.cy) == ch;
    if s.cx + 1 == g.Cols() && s.cy + 1 == g.Lines() && s.cy > 0 {
      ScrollCells(g, t.(cx := 0), s.cx, s.cy - 1);
    }
  }

  /**
   * `uterm_putc` outside an escape sequence hides the cursor (which changes neither the text,
   * the cursor nor the parser), acts on the byte, shows the cursor and draws its block.
   */
  lemma PutcGround(g: Geometry, s: State, ch: char)
    requires Wf(g, s) && InGrid(g, s) && s.parser.status == Ground && PutcOk(s, ch)
    ensures var h := ShowCursor(g, s, false);
      Wf(g, h) && InGrid(g, h) && !h.visible && h.cells == s.cells && h.cx == s.cx && h.cy == s.cy
      && h.parser == s.parser && h.fg == s.fg && h.bg == s.bg && PutcOk(h, ch)
      && Putc(g, s, ch) == PutCursor(g, ShowCursor(g, GroundByte(g, h, ch), true))
  {
    ShowCursorKeepsText(g, s, false);
  }

  /**
   * `uterm_putc` on a printable byte outside an escape sequence: the byte is recorded in the
   * cell the cursor was on (one row higher when the screen scrolled) and the cursor moves one
   * column right, wrapping to the next row past the last column.
   */
  lemma PutcPrintable(g: Geometry, s: State, ch: char)
    requires Wf(g, s) && InGrid(g, s) && s.parser.status == Ground && !Control(ch)
    ensures var r := Putc(g, s, ch);
      r.parser == s.parser && r.fg == s.fg && r.bg == s.bg && r.visible
      && (s.cx + 1 < g.Cols() ==> r.cx == s.cx + 1 && r.cy == s.cy && CellAt(g, r, s.cx, s.cy) == ch)
      && (s.cx + 1 == g.Cols() && s.cy + 1 < g.Lines() ==>
            r.cx == 0 && r.cy == s.cy + 1 && CellAt(g, r, s.cx, s.cy) == ch)
      && (s.cx + 1 == g.Cols() && s.cy + 1 == g.Lines() ==>
            r.cx == 0 && r.cy == s.cy && (s.cy > 0 ==> CellAt(g, r, s.cx, s.cy - 1) == ch))
  {
    PutcGround(g, s, ch);
    var h := ShowCursor(g, s, false);
    var t := Print(g, h, ch);
    assert GroundByte(g, h, ch) == t;
    PrintPlaces(g, h, ch);
    var y := if s.cx + 1 == g.Cols() && s.cy + 1 == g.Lines() && s.cy > 0 then s.cy - 1 else s.cy;
    ShowAndDraw(g, t, s.cx, y);
  }

  /**
   * A non-control byte that does not wrap is recorded in the cursor cell; the cell right of it
   * takes the cursor, and no other cell changes.
   */
  lemma PutcPrintableCells(g: Geometry, s: State, ch: char, x: int, y: int)
    requires Wf(g, s) && InGrid(g, s) && s.parser.status == Ground && !Control(ch)
    requires s.cx + 1 < g.Cols() && IsCell(g, x, y)
    ensures CellAt(g, Putc(g, s, ch), x, y)
      == if x == s.cx + 1 && y == s.cy then ' '
         else if x == s.cx && y == s.cy then ch
         else CellAt(g, s, x, y)
  {
    PutcGround(g, s, ch);
    var h := ShowCursor(g, s, false);
    PutCellRawCells(g, h, ch, h.cx, h.cy, h.fg, h.bg, x, y);
    var t := Print(g, h, ch);
    assert GroundByte(g, h, ch) == t;
    assert t.cx == s.cx + 1 && t.cy == s.cy;
    ShowAndDraw(g, t, x, y);
  }

  /**
   * The pixels of a printable byte that does not wrap: its cell block shows the glyph in the
   * current colours, the next block is the cursor, the block the cursor was hidden from shows its
   * recorded character again, and every other pixel keeps its value.
   */
  lemma PutcPrintablePixels(g: Geometry, s: State, ch: char, px: int, py: int)
    requires Wf(g, s) && InGrid(g, s) && s.parser.status == Ground && !Control(ch)
    requires s.cx + 1 < g.Cols() && 0 <= px < g.width && 0 <= py < g.height
    ensures PixelAt(g, Putc(g, s, ch), px, py)
      == if InCellBlock(px, py, s.cx + 1, s.cy) then CursorColor
         else if InCellBlock(px, py, s.cx, s.cy) then Ink(g, ch, py - 16 * s.cy, px - 8 * s.cx, s.fg, s.bg)
         else if s.visible && InCellBlock(px, py, s.sx, s.sy)
         then Ink(g, CellAt(g, s, s.sx, s.sy), py - 16 * s.sy, px - 8 * s.sx, s.fg, s.bg)
         else PixelAt(g, s, px, py)
  {
    PutcGround(g, s, ch);
    HidePixels(g, s, px, py);
    PrintPixels(g, ShowCursor(g, s, false), ch, px, py);
  }

  /** The ground-state stage of `PutcPrintablePixels`, with the cursor already hidden. */
  lemma PrintPixels(g: Geometry, h: State, ch: char, px: int, py: int)
    requires Wf(g, h) && InGrid(g, h) && !h.visible && h.parser.status == Ground && !Control(ch)
    requires h.cx + 1 < g.Cols() && 0 <= px < g.width && 0 <= py < g.height
    ensures PixelAt(g, PutCursor(g, ShowCursor(g, GroundByte(g, h, ch), true)), px, py)
      == if InCellBlock(px, py, h.cx + 1, h.cy) then CursorColor
         else if InCellBlock(px, py, h.cx, h.cy) then Ink(g, ch, py - 16 * h.cy, px - 8 * h.cx, h.fg, h.bg)
         else PixelAt(g, h, px, py)
  {
    PutCellRawPixels(g, h, ch, h.cx, h.cy, h.fg, h.bg, px, py);
    var t := Print(g, h, ch);
    assert GroundByte(g, h, ch) == t;
    assert t.cx == h.cx + 1 && t.cy == h.cy && !t.visible;
    ShowAndDrawPixels(g, t, px, py);
  }

  /**
   * '\r' returns the cursor to column 0 of its row; the character recorded there is replaced
   * by the cursor's ' ', so it is lost once the cursor moves on.
   */
  lemma PutcCarriageReturn(g: Geometry, s: State)
    requires Wf(g, s) && InGrid(g, s) && s.parser.status == Ground
    ensures var r := Putc(g, s, '\r');
      r.cx == 0 && r.cy == s.cy && r.parser == s.parser && r.visible && CellAt(g, r, 0, s.cy) == ' '
  {
    PutcGround(g, s, '\r');
    var h := ShowCursor(g, s, false);
    assert GroundByte(g, h, '\r') == h.(cx := 0);
    ShowAndDraw(g, h.(cx := 0), 0, s.cy);
  }

  /** '\n' goes to column 0 of the next row, scrolling the screen on the last row. */
  lemma PutcNewline(g: Geometry, s: State)
    requires Wf(g, s) && InGrid(g, s) && s.parser.status == Ground
    ensures var r := Putc(g, s, '\n');
      r.cx == 0 && r.cy == (if s.cy + 1 < g.Lines() then s.cy + 1 else s.cy)
      && r.parser == s.parser && r.visible
  {
    PutcGround(g, s, '\n');
    var h := ShowCursor(g, s, false);
    var t := LineFeed(g, h.(cx := 0));
    assert t.cx == 0 && t.cy == (if s.cy + 1 < g.Lines() then s.cy + 1 else s.cy);
    assert t.parser == s.parser;
    assert GroundByte(g, h, '\n') == t;
    ShowAndDraw(g, t, 0, 0);
  }

  /**
   * Backspace away from column 0 steps the cursor one column left and blanks the cell it left;
   * the cell it lands on records the cursor's ' '.
   */
  lemma PutcBackspace(g: Geometry, s: State)
    requires Wf(g, s) && InGrid(g, s) && s.parser.status == Ground && s.cx > 0
    ensures var r := Putc(g, s, Backspace);
      r.cx == s.cx - 1 && r.cy == s.cy && r.parser == s.parser && r.fg == s.fg && r.bg == s.bg
      && CellAt(g, r, s.cx, s.cy) == ' ' && CellAt(g, r, s.cx - 1, s.cy) == ' '
  {
    PutcGround(g, s, Backspace);
    var h := ShowCursor(g, s, false);
    var t := PutCell(g, h.(cx := h.cx - 1), ' ', h.cx, h.cy);
    assert GroundByte(g, h, Backspace) == t;
    PutCellRawCells(g, h.(cx := h.cx - 1), ' ', h.cx, h.cy, h.fg, h.bg, s.cx, s.cy);
    ShowAndDraw(g, t, s.cx, s.cy);
    ShowAndDraw(g, t, s.cx - 1, s.cy);
  }

  /** ESC outside a sequence starts one; the cursor stays and is shown. */
  lemma PutcEscape(g: Geometry, s: State)
    requires Wf(g, s) && InGrid(g, s) && s.parser.status == Ground
    ensures var r := Putc(g, s, Esc);
      r.parser == s.parser.(status := EscSeen) && r.cx == s.cx && r.cy == s.cy
      && r.fg == s.fg && r.bg == s.bg && r.visible
  {
    PutcGround(g, s, Esc);
    var h := ShowCursor(g, s, false);
    var t := h.(parser := h.parser.(status := EscSeen));
    assert GroundByte(g, h, Esc) == t;
    ShowAndDraw(g, t, 0, 0);
  }

  /**
   * The byte after ESC: '[' opens a control sequence with four zero parameters, any other byte
   * is dropped and ends the sequence. Either way the text, the cursor and the colours stay and
   * the cursor is left hidden.
   */
  lemma PutcAfterEscape(g: Geometry, s: State, ch: char)
    requires Wf(g, s) && InGrid(g, s) && s.parser.status == EscSeen
    ensures var r := Putc(g, s, ch);
      r.cells == s.cells && r.cx == s.cx && r.cy == s.cy && r.fg == s.fg && r.bg == s.bg
      && !r.visible
      && r.parser == (if ch == '[' then Parser(CsiParams, [0, 0, 0, 0], 0, s.parser.command)
                      else s.parser.(status := Ground))
  {
    ShowCursorKeepsText(g, s, false);
  }

  /**
   * Inside a control sequence a digit is appended in decimal to the current parameter, ';'
   * moves to the next of at most four parameters, and any byte other than a digit, ';', 'm',
   * 'H' or 'J' ends the sequence without effect. The text, the cursor and the colours stay and
   * the cursor is left hidden.
   */
  lemma PutcInSequence(g: Geometry, s: State, ch: char)
    requires Wf(g, s) && InGrid(g, s) && s.parser.status == CsiParams && !Dispatched(ch)
    ensures var r := Putc(g, s, ch);
      var p, n := s.parser, s.parser.count;
      r.cells == s.cells && r.cx == s.cx && r.cy == s.cy && r.fg == s.fg && r.bg == s.bg
      && !r.visible
      && ('0' <= ch <= '9' ==> r.parser == p.(params := p.params[n := p.params[n] * 10 + (ch as int - '0' as int)]))
      && (ch == ';' ==> r.parser == p.(count := if n < 3 then n + 1 else 3))
      && (!('0' <= ch <= '9') && ch != ';' ==> r.parser == p.(status := Ground))
  {
    ShowCursorKeepsText(g, s, false);
  }

  // ---------------------------------------------------------------- commands

  /** A final byte 'm', 'H' or 'J' hides the cursor, runs the command and returns to ground state. */
  lemma PutcFinal(g: Geometry, s: State, ch: char)
    requires Wf(g, s) && InGrid(g, s) && s.parser.status == CsiParams && Dispatched(ch)
    ensures var u := ShowCursor(g, s, false).(parser := s.parser.(command := ch));
      var c := Command(g, u);
      Wf(g, u) && InGrid(g, u) && !u.visible && u.cells == s.cells && u.cx == s.cx && u.cy == s.cy
      && u.fg == s.fg && u.bg == s.bg && u.parser == s.parser.(command := ch)
      && Putc(g, s, ch) == c.(parser := c.parser.(status := Ground))
  {
    ShowCursorKeepsText(g, s, false);
  }

  /**
   * 'H' ends a control sequence by moving the cursor to row `params[0]` and column `params[1]`
   * (1-based, 0 meaning 1, clamped to the grid), where it is shown and its block drawn.
   */
  lemma PutcCursorPosition(g: Geometry, s: State)
    requires Wf(g, s) && InGrid(g, s) && s.parser.status == CsiParams
    ensures var r := Putc(g, s, 'H');
      var p := s.parser.params;
      r.cy == CupCoordinate(p[0], g.Lines()) && r.cx == CupCoordinate(p[1], g.Cols())
      && r.parser == s.parser.(command := 'H', status := Ground)
      && r.fg == s.fg && r.bg == s.bg && r.visible
      && CellAt(g, r, r.cx, r.cy) == ' '
  {
    PutcFinal(g, s, 'H');
    var u := ShowCursor(g, s, false).(parser := s.parser.(command := 'H'));
    var e := Execute(g, u);
    assert e == u.(cy := CupCoordinate(s.parser.params[0], g.Lines()),
                   cx := CupCoordinate(s.parser.params[1], g.Cols()));
    ShowAndDraw(g, e, e.cx, e.cy);
  }

  /** ED 2 run with the cursor hidden: a blank screen with the cursor block at home. */
  lemma CommandEraseDisplay(g: Geometry, u: State, x: int, y: int, px: int, py: int)
    requires Wf(g, u) && InGrid(g, u) && !u.visible && u.parser.command == 'J' && u.parser.params[0] == 2
    requires IsCell(g, x, y) && 0 <= px < g.width && 0 <= py < g.height
    ensures var r := Command(g, u);
      r.cx == 0 && r.cy == 0 && r.parser == u.parser
      && CellAt(g, r, x, y) == (if x == 0 && y == 0 then ' ' else Nul)
      && PixelAt(g, r, px, py) == (if InCellBlock(px, py, 0, 0) then CursorColor else 0)
  {
    var e := Execute(g, u);
    assert e == ClearScreen(u);
    IndexBound(g.Cols(), g.Lines(), x, y);
    IndexBound(g.width, g.height, px, py);
    assert CellAt(g, e, x, y) == Nul && CellAt(g, e, 0, 0) == Nul;
    assert PixelAt(g, e, px, py) == 0;
    var t := e.(sx := 0, sy := 0);
    var v := ShowCursor(g, e, true);
    assert v == PutCell(g, t, Nul, 0, 0).(visible := true);
    PutCellRawPixels(g, t, Nul, 0, 0, t.fg, t.bg, px, py);
    ShowAndDraw(g, e, x, y);
    PutCursorDraws(g, v, x, y, px, py);
  }

  /**
   * 'J' with first parameter 2 ends a control sequence by clearing the screen: every cell
   * becomes NUL and every pixel 0, and the cursor goes home, where its block is drawn.
   */
  lemma PutcEraseDisplay(g: Geometry, s: State, x: int, y: int, px: int, py: int)
    requires Wf(g, s) && InGrid(g, s) && s.parser.status == CsiParams && s.parser.params[0] == 2
    requires IsCell(g, x, y) && 0 <= px < g.width && 0 <= py < g.height
    ensures var r := Putc(g, s, 'J');
      r.cx == 0 && r.cy == 0 && r.parser == s.parser.(command := 'J', status := Ground)
      && CellAt(g, r, x, y) == (if x == 0 && y == 0 then ' ' else Nul)
      && PixelAt(g, r, px, py) == (if InCellBlock(px, py, 0, 0) then CursorColor else 0)
  {
    PutcFinal(g, s, 'J');
    CommandEraseDisplay(g, ShowCursor(g, s, false).(parser := s.parser.(command := 'J')), x, y, px, py);
  }

  /** 'J' with any other first parameter leaves the screen alone: only the cursor is redrawn. */
  lemma PutcEraseOther(g: Geometry, s: State, x: int, y: int, px: int, py: int)
    requires Wf(g, s) && InGrid(g, s) && s.parser.status == CsiParams && s.parser.params[0] != 2
    requires IsCell(g, x, y) && 0 <= px < g.width && 0 <= py < g.height
    ensures var r := Putc(g, s, 'J');
      r.cx == s.cx && r.cy == s.cy && r.parser == s.parser.(command := 'J', status := Ground)
      && r.fg == s.fg && r.bg == s.bg
      && CellAt(g, r, x, y) == (if x == s.cx && y == s.cy then ' ' else CellAt(g, s, x, y))
      && PixelAt(g, r, px, py)
         == if InCellBlock(px, py, s.cx, s.cy) then CursorColor
            else if s.visible && InCellBlock(px, py, s.sx, s.sy)
            then Ink(g, CellAt(g, s, s.sx, s.sy), py - 16 * s.sy, px - 8 * s.sx, s.fg, s.bg)
            else PixelAt(g, s, px, py)
  {
    PutcFinal(g, s, 'J');
    HidePixels(g, s, px, py);
    var u := ShowCursor(g, s, false).(parser := s.parser.(command := 'J'));
    assert Execute(g, u) == u;
    ShowAndDraw(g, u, x, y);
    ShowAndDrawPixels(g, u, px, py);
  }

  /** SGR run with the cursor hidden: new colours, the cursor block drawn where it was. */
  lemma CommandSgr(g: Geometry, u: State, x: int, y: int)
    requires Wf(g, u) && InGrid(g, u) && !u.visible && u.parser.command == 'm' && IsCell(g, x, y)
    ensures var r := Command(g, u);
      (r.fg, r.bg) == Sweep(u.parser.params[..u.parser.count + 1], u.fg, u.bg)
      && r.cx == u.cx && r.cy == u.cy && r.parser == u.parser
      && CellAt(g, r, x, y) == (if x == u.cx && y == u.cy then ' ' else CellAt(g, u, x, y))
  {
    var e := Execute(g, u);
    var colors := Sweep(u.parser.params[..u.parser.count + 1], u.fg, u.bg);
    assert e == u.(fg := colors.0, bg := colors.1);
    ShowAndDraw(g, e, x, y);
  }

  /**
   * 'm' ends a control sequence by applying parameters 0 to `count` to the colours, left to
   * right; the cursor and the text (but for the cursor cell) stay.
   */
  lemma PutcSelectGraphicRendition(g: Geometry, s: State, x: int, y: int)
    requires Wf(g, s) && InGrid(g, s) && s.parser.status == CsiParams && IsCell(g, x, y)
    ensures var r := Putc(g, s, 'm');
      (r.fg, r.bg) == Sweep(s.parser.params[..s.parser.count + 1], s.fg, s.bg)
      && r.cx == s.cx && r.cy == s.cy && r.parser == s.parser.(command := 'm', status := Ground)
      && CellAt(g, r, x, y) == (if x == s.cx && y == s.cy then ' ' else CellAt(g, s, x, y))
  {
    PutcFinal(g, s, 'm');
    CommandSgr(g, ShowCursor(g, s, false).(parser := s.parser.(command := 'm')), x, y);
  }

  // ---------------------------------------------------------------- colours

  /** SGR parameters that set the foreground, and those that set the background. */
  predicate SetsFg(code: int) {
    code == 0 || 30 <= code <= 37 || 90 <= code <= 97
  }

  predicate SetsBg(code: int) {
    code == 0 || 40 <= code <= 47 || 100 <= code <= 107
  }

  /** A parameter that sets a colour sets it to the same value whatever the colours were. */
  lemma SgrCodeSets(code: int, fg: bv32, bg: bv32)
    ensures SetsFg(code) ==> SgrCode(code, fg, bg).0 == SgrCode(code, 0, 0).0
    ensures SetsBg(code) ==> SgrCode(code, fg, bg).1 == SgrCode(code, 0, 0).1
    ensures !SetsFg(code) ==> SgrCode(code, fg, bg).0 == fg
    ensures !SetsBg(code) ==> SgrCode(code, fg, bg).1 == bg
  {
  }

  /** Sweeping two runs of parameters is sweeping the first and then the second from there. */
  lemma {:induction false} SweepAppend(a: seq<int>, b: seq<int>, fg: bv32, bg: bv32)
    ensures Sweep(a + b, fg, bg) == Sweep(b, Sweep(a, fg, bg).0, Sweep(a, fg, bg).1)
    decreases |b|
  {
    if b == [] {
      assert a + b == a;
    } else {
      assert (a + b)[..|a + b| - 1] == a + b[..|b| - 1];
      SweepAppend(a, b[..|b| - 1], fg, bg);
    }
  }

  /** Parameters that do not set a colour leave it as it was. */
  lemma {:induction false} SweepKeeps(codes: seq<int>, fg: bv32, bg: bv32)
    ensures (forall i :: 0 <= i < |codes| ==> !SetsFg(codes[i])) ==> Sweep(codes, fg, bg).0 == fg
    ensures (forall i :: 0 <= i < |codes| ==> !SetsBg(codes[i])) ==> Sweep(codes, fg, bg).1 == bg
    decreases |codes|
  {
    if codes != [] {
      SweepKeeps(codes[..|codes| - 1], fg, bg);
    }
  }

  /** A reset (parameter 0) forgets everything before it: white on black, then the rest. */
  lemma SweepReset(a: seq<int>, b: seq<int>, fg: bv32, bg: bv32)
    ensures Sweep(a + [0] + b, fg, bg) == Sweep(b, Color.DefaultFg, Color.DefaultBg)
  {
    SweepAppend(a + [0], b, fg, bg);
    SweepAppend(a, [0], fg, bg);
    assert Sweep([0], Sweep(a, fg, bg).0, Sweep(a, fg, bg).1) == (Color.DefaultFg, Color.DefaultBg);
  }

  /** The last parameter that sets the foreground decides it, whatever came before. */
  lemma LastForegroundWins(a: seq<int>, code: int, b: seq<int>, fg: bv32, bg: bv32)
    requires SetsFg(code) && forall i :: 0 <= i < |b| ==> !SetsFg(b[i])
    ensures Sweep(a + [code] + b, fg, bg).0 == SgrCode(code, 0, 0).0
  {
    SweepAppend(a + [code], b, fg, bg);
    SweepAppend(a, [code], fg, bg);
    var m := Sweep(a + [code], fg, bg);
    var p := Sweep(a, fg, bg);
    assert [code][..0] == [];
    assert m == SgrCode(code, p.0, p.1);
    SgrCodeSets(code, p.0, p.1);
    SweepKeeps(b, m.0, m.1);
  }

  /** The last parameter that sets the background decides it, whatever came before. */
  lemma LastBackgroundWins(a: seq<int>, code: int, b: seq<int>, fg: bv32, bg: bv32)
    requires SetsBg(code) && forall i :: 0 <= i < |b| ==> !SetsBg(b[i])
    ensures Sweep(a + [code] + b, fg, bg).1 == SgrCode(code, 0, 0).1
  {
    SweepAppend(a + [code], b, fg, bg);
    SweepAppend(a, [code], fg, bg);
    var m := Sweep(a + [code], fg, bg);
    var p := Sweep(a, fg, bg);
    assert [code][..0] == [];
    assert m == SgrCode(code, p.0, p.1);
    SgrCodeSets(code, p.0, p.1);
    SweepKeeps(b, m.0, m.1);
  }

  // ---------------------------------------------------------------- redrawing the cursor

  /** Painting a glyph into a cell hides whatever glyph was painted there before. */
  lemma PaintOverwrites(g: Geometry, fb: seq<bv32>, ch: char, ch': char, x: int, y: int,
                        f: bv32, b: bv32, f': bv32, b': bv32)
    requires g.Ok() && |fb| == g.width * g.height && IsCell(g, x, y)
    ensures Paint(g, Paint(g, fb, ch, x, y, f, b), ch', x, y, f', b') == Paint(g, fb, ch', x, y, f', b')
  {
    var p := Paint(g, fb, ch, x, y, f, b);
    var lhs, rhs := Paint(g, p, ch', x, y, f', b'), Paint(g, fb, ch', x, y, f', b');
    forall k | 0 <= k < |fb|
      ensures lhs[k] == rhs[k]
    {
    }
  }

  /** Writing ' ' in the current colours and then in `CursorColor` over a ' ' cell leaves it as drawn. */
  lemma RedrawCursorCell(g: Geometry, t: State, u: State)
    requires Wf(g, u) && InGrid(g, u)
    requires t == PutCellRaw(g, u, ' ', u.cx, u.cy, CursorColor, CursorColor)
    ensures PutCellRaw(g, PutCell(g, PutCell(g, t, ' ', t.cx, t.cy), ' ', t.cx, t.cy),
                       ' ', t.cx, t.cy, CursorColor, CursorColor) == t
  {
    IndexBound(g.Cols(), g.Lines(), t.cx, t.cy);
    var i := CellIndex(g, t.cx, t.cy);
    var c := t.cx;
    var l := t.cy;
    PaintOverwrites(g, u.fb, ' ', ' ', c, l, CursorColor, CursorColor, t.fg, t.bg);
    PaintOverwrites(g, t.fb, ' ', ' ', c, l, t.fg, t.bg, t.fg, t.bg);
    PaintOverwrites(g, Paint(g, t.fb, ' ', c, l, t.fg, t.bg), ' ', ' ', c, l, t.fg, t.bg, CursorColor, CursorColor);
    PaintOverwrites(g, u.fb, ' ', ' ', c, l, CursorColor, CursorColor, CursorColor, CursorColor);
    PaintOverwrites(g, t.fb, ' ', ' ', c, l, t.fg, t.bg, CursorColor, CursorColor);
    assert t.cells[i := ' '] == t.cells;
  }

  /** Showing the cursor and drawing its block a second time changes nothing. */
  lemma ShowAndDrawAgain(g: Geometry, v: State)
    requires Wf(g, v) && InGrid(g, v)
    ensures var t := PutCursor(g, ShowCursor(g, v, true));
      PutCursor(g, ShowCursor(g, t, true)) == t
  {
    var u := ShowCursor(g, v, true);
    ShowCursorKeepsText(g, v, true);
    var t := PutCursor(g, u);
    assert t == PutCellRaw(g, u, ' ', u.cx, u.cy, CursorColor, CursorColor);
    PutCursorDraws(g, u, u.cx, u.cy, 0, 0);
    assert CellAt(g, t, t.cx, t.cy) == ' ' && t.visible && t.sx == t.cx && t.sy == t.cy;
    var h := PutCell(g, t, ' ', t.cx, t.cy);
    assert h == PutCell(g, t, CellAt(g, t, t.sx, t.sy), t.sx, t.sy);
    assert h.(sx := h.cx, sy := h.cy) == h;
    PutCellRawCells(g, t, ' ', t.cx, t.cy, t.fg, t.bg, t.cx, t.cy);
    assert CellAt(g, h, h.cx, h.cy) == ' ';
    assert ShowCursor(g, t, true) == PutCell(g, h, ' ', t.cx, t.cy).(visible := true);
    RedrawCursorCell(g, t, u);
  }

  /** Hiding an already hidden cursor changes nothing. */
  lemma HideTwice(g: Geometry, s: State)
    requires Wf(g, s)
    ensures ShowCursor(g, ShowCursor(g, s, false), false) == ShowCursor(g, s, false)
  {
  }

  // ---------------------------------------------------------------- tab

  /** Spaces typed after the cursor was hidden are the same spaces typed before. */
  lemma {:induction false} SpacesAfterHide(g: Geometry, s: State, n: nat)
    requires Wf(g, s) && InGrid(g, s) && n >= 1
    ensures Spaces(g, ShowCursor(g, s, false), n) == Spaces(g, s, n)
  {
    ShowCursorKeepsText(g, s, false);
    if n == 1 {
      HideTwice(g, s);
    } else {
      SpacesAfterHide(g, s, n - 1);
    }
  }

  /** Typing spaces outside an escape sequence leaves the parser and the colours alone. */
  lemma {:induction false} SpacesKeepParser(g: Geometry, s: State, n: nat)
    requires Wf(g, s) && InGrid(g, s) && s.parser.status == Ground
    ensures var r := Spaces(g, s, n);
      r.parser == s.parser && r.fg == s.fg && r.bg == s.bg
  {
    if n > 0 {
      var m: nat := n - 1;
      var prev := Spaces(g, s, m);
      SpacesKeepParser(g, s, m);
      assert prev.parser.status == Ground;
      PutcPrintable(g, prev, ' ');
      assert Spaces(g, s, n) == Putc(g, prev, ' ');
    }
  }

  /**
   * Spaces that stay in the row advance the cursor one column each, keep the parser and the
   * colours, and blank every cell they pass.
   */
  lemma {:induction false} SpacesRow(g: Geometry, s: State, n: nat, x: int)
    requires Wf(g, s) && InGrid(g, s) && s.parser.status == Ground && s.cx + n < g.Cols()
    ensures var r := Spaces(g, s, n);
      r.cx == s.cx + n && r.cy == s.cy && r.parser == s.parser && r.fg == s.fg && r.bg == s.bg
      && (s.cx <= x < s.cx + n ==> CellAt(g, r, x, s.cy) == ' ')
  {
    if n > 0 {
      var prev := Spaces(g, s, n - 1);
      SpacesRow(g, s, n - 1, x);
      assert prev.cx == s.cx + n - 1 && prev.cy == s.cy && prev.parser.status == Ground;
      PutcPrintable(g, prev, ' ');
      if s.cx <= x < s.cx + n {
        PutcPrintableCells(g, prev, ' ', x, s.cy);
      }
      assert Spaces(g, s, n) == Putc(g, prev, ' ');
    }
  }

  /** A byte taken outside an escape sequence leaves the cursor shown and drawn. */
  lemma PutcShownAgain(g: Geometry, s: State, ch: char)
    requires Wf(g, s) && InGrid(g, s) && s.parser.status == Ground && PutcOk(s, ch)
    ensures PutCursor(g, ShowCursor(g, Putc(g, s, ch), true)) == Putc(g, s, ch)
  {
    PutcGround(g, s, ch);
    ShowAndDrawAgain(g, GroundByte(g, ShowCursor(g, s, false), ch));
  }

  /** After at least one space the cursor is already shown and drawn: doing so again changes nothing. */
  lemma {:induction false} SpacesShown(g: Geometry, s: State, n: nat)
    requires Wf(g, s) && InGrid(g, s) && s.parser.status == Ground && n >= 1
    ensures PutCursor(g, ShowCursor(g, Spaces(g, s, n), true)) == Spaces(g, s, n)
  {
    var prev := Spaces(g, s, n - 1);
    SpacesKeepParser(g, s, n - 1);
    assert prev.parser.status == Ground;
    PutcShownAgain(g, prev, ' ');
    assert Spaces(g, s, n) == Putc(g, prev, ' ');
  }

  /** `uterm_putc('\t')` outside an escape sequence is exactly four calls of `uterm_putc(' ')`. */
  lemma TabIsFourSpaces(g: Geometry, s: State)
    requires Wf(g, s) && InGrid(g, s) && s.parser.status == Ground
    ensures Putc(g, s, '\t') == Spaces(g, s, 4)
  {
    PutcGround(g, s, '\t');
    var h := ShowCursor(g, s, false);
    assert GroundByte(g, h, '\t') == Spaces(g, h, 4);
    SpacesAfterHide(g, s, 4);
    SpacesShown(g, s, 4);
  }

  /** A tab that stays in the row moves the cursor four columns right over blank cells. */
  lemma PutcTab(g: Geometry, s: State, x: int)
    requires Wf(g, s) && InGrid(g, s) && s.parser.status == Ground && s.cx + 4 < g.Cols()
    requires s.cx <= x < s.cx + 4
    ensures var r := Putc(g, s, '\t');
      r.cx == s.cx + 4 && r.cy == s.cy && r.parser == s.parser && CellAt(g, r, x, s.cy) == ' '
  {
    TabIsFourSpaces(g, s);
    SpacesRow(g, s, 4, x);
  }

  // ---------------------------------------------------------------- strings and start-up

  /** `uterm_puts` of two NUL-free pieces is `uterm_puts` of the first and then of the second. */
  lemma {:induction false} PutsConcat(g: Geometry, s: State, a: seq<char>, b: seq<char>)
    requires PutsOk(g, s, a + b) && forall i :: 0 <= i < |a| ==> a[i] != Nul
    ensures PutsOk(g, s, a) && PutsOk(g, Puts(g, s, a), b)
    ensures Puts(g, s, a + b) == Puts(g, Puts(g, s, a), b)
    decreases |a|
  {
    if a == [] {
      assert a + b == b;
    } else {
      assert (a + b)[0] == a[0] && (a + b)[1..] == a[1..] + b;
      PutsConcat(g, Putc(g, s, a[0]), a[1..], b);
    }
  }

  /** `uterm_puts` stops at the first NUL: nothing after it reaches the terminal. */
  lemma PutsStopsAtNul(g: Geometry, s: State, a: seq<char>, b: seq<char>)
    requires PutsOk(g, s, a + [Nul] + b) && forall i :: 0 <= i < |a| ==> a[i] != Nul
    ensures PutsOk(g, s, a) && Puts(g, s, a + [Nul] + b) == Puts(g, s, a)
  {
    assert a + [Nul] + b == a + ([Nul] + b);
    PutsConcat(g, s, a, [Nul] + b);
  }

  /**
   * `init_uterm`: the parser in ground state, white on black, the cursor home and not yet
   * shown, every cell NUL but the cursor's ' ', and the caller's video memory untouched.
   */
  lemma InitState(g: Geometry, front: seq<bv32>, x: int, y: int)
    requires g.Ok() && |front| == g.width * g.height && IsCell(g, x, y)
    ensures var r := Init(g, front);
      r.cx == 0 && r.cy == 0 && !r.visible && r.front == front
      && r.parser == Parser(Ground, [0, 0, 0, 0], 0, Nul)
      && r.fg == Color.DefaultFg && r.bg == Color.DefaultBg
      && CellAt(g, r, x, y) == (if x == 0 && y == 0 then ' ' else Nul)
  {
    var s := Fresh(g, front);
    Color.DefaultColors();
    IndexBound(g.Cols(), g.Lines(), x, y);
    assert CellAt(g, s, x, y) == Nul;
    PutCursorDraws(g, s, x, y, 0, 0);
  }

  /** After `init_uterm` every pixel is 0 but those of the cursor block at the home cell. */
  lemma InitPixels(g: Geometry, front: seq<bv32>, px: int, py: int)
    requires g.Ok() && |front| == g.width * g.height && 0 <= px < g.width && 0 <= py < g.height
    ensures PixelAt(g, Init(g, front), px, py) == if InCellBlock(px, py, 0, 0) then CursorColor else 0
  {
    var s := Fresh(g, front);
    IndexBound(g.width, g.height, px, py);
    assert PixelAt(g, s, px, py) == 0;
    PutCursorDraws(g, s, 0, 0, px, py);
  }
}
