/**
 * The console of term/uterm.c as one object: the C file's globals become fields, the
 * back buffer's cell and pixel memory and the caller's video memory become arrays, and each
 * routine becomes a method proved to compute the matching function of module Terminal.
 */
module Uterm {
  import opened Arith
  import Color
  import T = Terminal

  /** Position of pixel `k` within the block of cell (cx, cy), counted row by row (0 to 127). */
  function BlockOffset(w: nat, k: int, cx: int, cy: int): int
    requires w > 0
  {
    (k / w - 16 * cy) * 8 + (k % w - 8 * cx)
  }

  /** The pixels once the first `n` pixels of the glyph block, row by row, have been painted. */
  ghost function PaintPrefix(g: T.Geometry, fb: seq<bv32>, ch: char, cx: int, cy: int,
                             f: bv32, b: bv32, n: int): seq<bv32>
    requires g.Ok() && |fb| == g.width * g.height
    requires 0 <= cx < g.Cols() && 0 <= cy < g.Lines()
  {
    seq(|fb|, k requires 0 <= k < |fb| =>
      if T.InBlock(g.width, k, cx, cy) && BlockOffset(g.width, k, cx, cy) < n
      then T.Ink(g, ch, k / g.width - 16 * cy, k % g.width - 8 * cx, f, b)
      else fb[k])
  }

  /** Painting pixel (j, i) of the block extends the painted prefix by one pixel. */
  lemma PaintStep(g: T.Geometry, fb: seq<bv32>, ch: char, cx: int, cy: int,
                  f: bv32, b: bv32, i: int, j: int)
    requires g.Ok() && |fb| == g.width * g.height
    requires 0 <= cx < g.Cols() && 0 <= cy < g.Lines()
    requires 0 <= i < 16 && 0 <= j < 8
    ensures 0 <= (16 * cy + i) * g.width + 8 * cx + j < |fb|
    ensures PaintPrefix(g, fb, ch, cx, cy, f, b, 8 * i + j)
              [(16 * cy + i) * g.width + 8 * cx + j := T.Ink(g, ch, i, j, f, b)]
            == PaintPrefix(g, fb, ch, cx, cy, f, b, 8 * i + j + 1)
  {
    var w := g.width;
    var x, y := 8 * cx + j, 16 * cy + i;
    MulMono(8 * cx + 8, 8 * g.Cols(), 1);
    MulMono(16 * cy + 16, 16 * g.Lines(), 1);
    IndexBound(w, g.height, x, y);
    DivModIndex(w, x, y);
    var idx := y * w + x;
    var before := PaintPrefix(g, fb, ch, cx, cy, f, b, 8 * i + j);
    var after := PaintPrefix(g, fb, ch, cx, cy, f, b, 8 * i + j + 1);
    forall k | 0 <= k < |fb| && k != idx
      ensures before[k] == after[k]
    {
      Decompose(w, k);
    }
  }

  /** No pixel painted is the buffer as it was. */
  lemma PaintNone(g: T.Geometry, fb: seq<bv32>, ch: char, cx: int, cy: int, f: bv32, b: bv32)
    requires g.Ok() && |fb| == g.width * g.height
    requires 0 <= cx < g.Cols() && 0 <= cy < g.Lines()
    ensures PaintPrefix(g, fb, ch, cx, cy, f, b, 0) == fb
  {
  }

  /** All 128 pixels painted is the whole glyph block. */
  lemma PaintComplete(g: T.Geometry, fb: seq<bv32>, ch: char, cx: int, cy: int, f: bv32, b: bv32)
    requires g.Ok() && |fb| == g.width * g.height
    requires 0 <= cx < g.Cols() && 0 <= cy < g.Lines()
    ensures PaintPrefix(g, fb, ch, cx, cy, f, b, 128) == T.Paint(g, fb, ch, cx, cy, f, b)
  {
  }

  /** The scanline loop of `uterm_scroll`: each of the first `count` scanlines takes the one 16 below. */
  method ScanlinesUp(fb: array<bv32>, width: nat, count: nat)
    requires (count + 16) * width <= fb.Length
    modifies fb
    ensures forall k :: 0 <= k < fb.Length ==>
      fb[k] == if k < count * width then old(fb[k + 16 * width]) else old(fb[k])
  {
    var i, line := 0, 0;
    while i < count
      invariant 0 <= i <= count
      invariant line == i * width
      invariant forall k :: 0 <= k < fb.Length ==>
        fb[k] == if k < line then old(fb[k + 16 * width]) else old(fb[k])
    {
      assert (i + 1) * width == line + width;
      MulMono(i + 17, count + 16, width);
      // memmove of one scanline
      forall k | line <= k < line + width {
        fb[k] := fb[k + 16 * width];
      }
      i, line := i + 1, line + width;
    }
  }

  /** The clearing loop of `uterm_scroll`: scanlines `from` up to `to` become 0. */
  method ClearScanlines(fb: array<bv32>, width: nat, from: nat, to: nat)
    requires from <= to && to * width <= fb.Length
    modifies fb
    ensures forall k :: 0 <= k < fb.Length ==>
      fb[k] == if k < from * width || k >= to * width then old(fb[k]) else 0
  {
    var y, line := from, from * width;
    while y < to
      invariant from <= y <= to
      invariant line == y * width
      invariant forall k :: 0 <= k < fb.Length ==>
        fb[k] == if k < from * width || k >= line then old(fb[k]) else 0
    {
      assert (y + 1) * width == line + width;
      MulMono(y + 1, to, width);
      var x := 0;
      while x < width
        invariant 0 <= x <= width
        invariant forall k :: 0 <= k < fb.Length ==>
          fb[k] == if k < from * width || k >= line + x then old(fb[k]) else 0
      {
        fb[line + x] := 0;
        x := x + 1;
      }
      y, line := y + 1, line + width;
    }
  }

  /** The cell half of `uterm_scroll`: a memmove of all rows but the first, and a memset of the last. */
  method CellRowsUp(cells: array<char>, cols: nat, lines: nat)
    requires lines >= 1 && cells.Length == cols * lines
    modifies cells
    ensures cells[..] == T.ScrolledCells(old(cells[..]), cols, lines)
  {
    var lastRow := cols * (lines - 1);
    assert lastRow + cols == cols * lines;
    forall k | 0 <= k < lastRow {
      cells[k] := cells[k + cols];
    }
    forall k | lastRow <= k < cols * lines {
      cells[k] := T.Nul;
    }
  }

  /** The pixel half of `uterm_scroll`. */
  method ScrollPixels(fb: array<bv32>, width: nat, lines: nat)
    requires lines >= 1 && lines * 16 * width <= fb.Length
    modifies fb
    ensures fb[..] == T.ScrolledPixels(old(fb[..]), width, lines)
  {
    ghost var before := fb[..];
    var kept := (lines - 1) * 16;
    assert kept + 16 == lines * 16;
    ScanlinesUp(fb, width, kept);
    ghost var moved := fb[..];
    ClearScanlines(fb, width, kept, lines * 16);
    ScrollComposition(before, moved, fb[..], width, lines);
  }

  /** Shifting the kept scanlines up and then zeroing the last text line is the scrolled buffer. */
  lemma ScrollComposition(before: seq<bv32>, moved: seq<bv32>, after: seq<bv32>, width: nat, lines: nat)
    requires lines >= 1 && lines * 16 * width <= |before| == |moved| == |after|
    requires forall k {:trigger moved[k]} :: 0 <= k < |moved| ==>
      moved[k] == if k < (lines - 1) * 16 * width then before[k + 16 * width] else before[k]
    requires forall k {:trigger after[k]} :: 0 <= k < |after| ==>
      after[k] == if k < (lines - 1) * 16 * width || k >= lines * 16 * width then moved[k] else 0
    ensures after == T.ScrolledPixels(before, width, lines)
  {
    var kept := (lines - 1) * 16 * width;
    assert kept + 16 * width == lines * 16 * width;
    var expected := T.ScrolledPixels(before, width, lines);
    forall k | 0 <= k < |after|
      ensures after[k] == expected[k]
    {
      assert after[k] == if k < kept || k >= lines * 16 * width then moved[k] else 0;
      assert moved[k] == if k < kept then before[k + 16 * width] else before[k];
    }
  }

  class Console {
    // term_width, term_height, cell_cols, cell_lines, cell_count
    const width: nat
    const height: nat
    const cols: nat
    const lines: nat
    /** `cell_count` (term/uterm.c:14): cols * lines, the length ED 2 clears with its memset. */
    const cellCount: nat
    /** `ascfont`, left abstract. */
    const font: T.Font

    /** `back_buffer->cell`, `back_buffer->fb` and `front_buffer->fb` (the caller's vram). */
    const cells: array<char>
    const fb: array<bv32>
    const front: array<bv32>

    // vtcontrol
    var status: int
    const params: array<int>
    var paramCount: int
    var command: char
    var fg: bv32
    var bg: bv32

    var cursorX: nat
    var cursorY: nat
    var cursorVisible: bool
    var savedX: nat
    var savedY: nat

    ghost function G(): T.Geometry
      reads this
    {
      T.Geometry(width, height, font)
    }

    /** The whole console as a value of the specification. */
    ghost function Abs(): T.State
      reads this, cells, fb, front, params
    {
      T.State(cells[..], fb[..], front[..], cursorX, cursorY, cursorVisible, savedX, savedY,
              T.Parser(status, params[..], paramCount, command), fg, bg)
    }

    ghost predicate Valid()
      reads this, cells, fb, front, params
    {
      cols == width / 8 && lines == height / 16 && cellCount == cols * lines
      && fb != front
      && cells as object != fb && cells as object != front
      && params as object != fb && params as object != front && params as object != cells
      && T.Wf(G(), Abs())
    }

    ghost predicate InGrid()
      reads this
    {
      cursorX < cols && cursorY < lines
    }

    /** `init_uterm` on video memory `vram` of `width * height` pixels. */
    constructor (vram: array<bv32>, width: nat, height: nat, font: T.Font)
      requires width >= 8 && height >= 16 && vram.Length == width * height
      ensures Valid() && InGrid()
      ensures front == vram && fresh(cells) && fresh(fb) && fresh(params)
      ensures Abs() == T.Init(G(), old(vram[..]))
    {
      this.width := width;
      this.height := height;
      this.font := font;
      cols := width / 8;
      lines := height / 16;
      cellCount := (width / 8) * (height / 16);
      front := vram;
      cells := new char[(width / 8) * (height / 16)](_ => T.Nul);
      fb := new bv32[width * height](_ => 0);
      params := new int[4](_ => 0);
      status, paramCount, command := T.Ground, 0, T.Nul;
      fg := Color.AnsiToRgba(Color.White, false);
      bg := Color.AnsiToRgba(Color.Black, false);
      cursorX, cursorY := 0, 0;
      cursorVisible := false;
      savedX, savedY := 0, 0;
      new;
      assert params[..] == [0, 0, 0, 0];
      PutCursor();
    }

    /** `uterm_cell_putc_raw`: record `ch` in cell (cellX, cellY) and paint its glyph. */
    method CellPutcRaw(ch: char, cellX: int, cellY: int, rgbaF: bv32, rgbaB: bv32)
      requires Valid()
      modifies cells, fb
      ensures Valid()
      ensures Abs() == T.PutCellRaw(G(), old(Abs()), ch, cellX, cellY, rgbaF, rgbaB)
    {
      if cellX < 0 || cellX >= cols || cellY < 0 || cellY >= lines {
        return;
      }
      IndexBound(cols, lines, cellX, cellY);
      var cell := cellY * cols + cellX;
      cells[cell] := ch;
      ghost var newCells := cells[..];
      assert newCells == old(cells[..])[cell := ch];
      assert G().Cols() == cols && G().Lines() == lines;
      PaintGlyph(ch, cellX, cellY, rgbaF, rgbaB);
      ghost var s0 := old(Abs());
      assert T.CellIndex(G(), cellX, cellY) == cell;
      assert cells[..] == newCells;
      ghost var expected := T.PutCellRaw(G(), s0, ch, cellX, cellY, rgbaF, rgbaB);
      assert expected == s0.(cells := s0.cells[T.CellIndex(G(), cellX, cellY) := ch], fb := T.Paint(G(), s0.fb, ch, cellX, cellY, rgbaF, rgbaB));
      assert expected.cells == cells[..];
      assert expected.fb == fb[..];
      assert expected.(cells := old(cells[..]), fb := old(fb[..])) == old(Abs());
    }

    /** The two glyph loops of `uterm_cell_putc_raw`: paint the 8x16 block of cell (cellX, cellY). */
    method PaintGlyph(ch: char, cellX: int, cellY: int, rgbaF: bv32, rgbaB: bv32)
      requires G().Ok() && fb.Length == width * height
      requires 0 <= cellX < G().Cols() && 0 <= cellY < G().Lines()
      modifies fb
      ensures fb[..] == T.Paint(G(), old(fb[..]), ch, cellX, cellY, rgbaF, rgbaB)
    {
      ghost var before := fb[..];
      PaintNone(G(), before, ch, cellX, cellY, rgbaF, rgbaB);
      var startX, startY := cellX * 8, cellY * 16;
      var i := 0;
      while i < 16
        modifies fb
        invariant 0 <= i <= 16
        invariant fb[..] == PaintPrefix(G(), before, ch, cellX, cellY, rgbaF, rgbaB, 8 * i)
      {
        var j := 0;
        while j < 8
          modifies fb
          invariant 0 <= j <= 8
          invariant fb[..] == PaintPrefix(G(), before, ch, cellX, cellY, rgbaF, rgbaB, 8 * i + j)
        {
          var x, y := startX + j, startY + i;
          var color := if font(ch, i) & (0x80 >> j) != 0 then rgbaF else rgbaB;
          assert color == T.Ink(G(), ch, i, j, rgbaF, rgbaB);
          PaintStep(G(), before, ch, cellX, cellY, rgbaF, rgbaB, i, j);
          assert y * width + x == (16 * cellY + i) * width + 8 * cellX + j;
          ghost var painted := fb[..];
          fb[y * width + x] := color;
          assert fb[..] == painted[y * width + x := color];
          assert fb[..] == PaintPrefix(G(), before, ch, cellX, cellY, rgbaF, rgbaB, 8 * i + (j + 1));
          j := j + 1;
        }
        i := i + 1;
      }
      PaintComplete(G(), before, ch, cellX, cellY, rgbaF, rgbaB);
    }

    /** `uterm_cell_putc`: `uterm_cell_putc_raw` in the current colours. */
    method CellPutc(ch: char, cellX: int, cellY: int)
      requires Valid()
      modifies cells, fb
      ensures Valid()
      ensures Abs() == T.PutCell(G(), old(Abs()), ch, cellX, cellY)
    {
      CellPutcRaw(ch, cellX, cellY, fg, bg);
    }

    /** `uterm_scroll`: move cell rows and pixel rows up by one text line. */
    method Scroll()
      requires Valid()
      modifies cells, fb
      ensures Valid()
      ensures Abs() == T.Scroll(G(), old(Abs()))
    {
      MulMono(lines * 16, height, width);
      CellRowsUp(cells, cols, lines);
      ScrollPixels(fb, width, lines);
    }

    /** `swap_buffers`: copy the back pixels over the front pixels. */
    method SwapBuffers()
      requires Valid()
      modifies front
      ensures Valid()
      ensures Abs() == T.Flush(G(), old(Abs()))
    {
      forall k | 0 <= k < front.Length {
        front[k] := fb[k];
      }
    }

    /** `uterm_flush` */
    method Flush()
      requires Valid()
      modifies front
      ensures Valid()
      ensures Abs() == T.Flush(G(), old(Abs()))
    {
      SwapBuffers();
    }

    /** The cursor-row advance written out at each of its three places in term/uterm.c. */
    method LineFeed()
      requires Valid() && cursorY < lines
      modifies this, cells, fb
      ensures Valid() && cursorY < lines
      ensures Abs() == T.LineFeed(G(), old(Abs()))
    {
      cursorY := cursorY + 1;
      if cursorY >= lines {
        Scroll();
        cursorY := lines - 1;
      }
    }

    /** `uterm_show_cursor` */
    method ShowCursor(show: bool)
      requires Valid() && (show ==> InGrid())
      modifies this, cells, fb
      ensures Valid()
      ensures Abs() == T.ShowCursor(G(), old(Abs()), show)
    {
      if cursorVisible {
        IndexBound(cols, lines, savedX, savedY);
        var ch := cells[savedY * cols + savedX];
        CellPutc(ch, savedX, savedY);
      }
      if show {
        savedX := cursorX;
        savedY := cursorY;
        IndexBound(cols, lines, cursorX, cursorY);
        var ch := cells[cursorY * cols + cursorX];
        CellPutc(ch, cursorX, cursorY);
        cursorVisible := true;
      } else {
        cursorVisible := false;
      }
    }

    /** `uterm_putcursor` */
    method PutCursor()
      requires Valid() && cursorY < lines
      modifies this, cells, fb
      ensures Valid() && InGrid()
      ensures Abs() == T.PutCursor(G(), old(Abs()))
    {
      if cursorX >= cols {
        cursorX := 0;
        LineFeed();
      }
      CellPutcRaw(' ', cursorX, cursorY, T.CursorColor, T.CursorColor);
    }

    /** `handle_ansi_sgr`: apply `params[0..paramCount]` to the colours, left to right. */
    method HandleSgr()
      requires Valid()
      modifies this`fg, this`bg
      ensures Valid()
      ensures Abs() == old(Abs()).(fg := fg, bg := bg)
      ensures (fg, bg) == T.Sweep(params[..paramCount + 1], old(fg), old(bg))
    {
      var i := 0;
      while i <= paramCount
        invariant 0 <= i <= paramCount + 1
        invariant (fg, bg) == T.Sweep(params[..i], old(fg), old(bg))
      {
        var code := params[i];
        assert params[..i + 1][..i] == params[..i];
        ghost var next := T.SgrCode(code, fg, bg);
        assert T.Sweep(params[..i + 1], old(fg), old(bg)) == next;
        if code == 0 {
          fg := Color.AnsiToRgba(Color.White, false);
          bg := Color.AnsiToRgba(Color.Black, false);
        } else if 30 <= code <= 37 {
          fg := Color.AnsiToRgba(code - 30, false);
        } else if 40 <= code <= 47 {
          bg := Color.AnsiToRgba(code - 40, false);
        } else if 90 <= code <= 97 {
          fg := Color.AnsiToRgba(code - 90, true);
        } else if 100 <= code <= 107 {
          bg := Color.AnsiToRgba(code - 100, true);
        }
        assert (fg, bg) == next;
        i := i + 1;
      }
    }

    /** ED 2 of `handle_vt100_command`: both memsets and the cursor home. */
    method ClearScreen()
      requires Valid()
      modifies this`cursorX, this`cursorY, cells, fb
      ensures Valid() && InGrid()
      ensures Abs() == T.ClearScreen(old(Abs()))
    {
      forall k | 0 <= k < cellCount {
        cells[k] := T.Nul;
      }
      forall k | 0 <= k < fb.Length {
        fb[k] := 0;
      }
      cursorX, cursorY := 0, 0;
    }

    /** The `switch` of `handle_vt100_command` for the letters it is handed: H, J and m. */
    method Execute()
      requires Valid() && InGrid() && T.Dispatched(command)
      modifies this, cells, fb
      ensures Valid() && InGrid()
      ensures Abs() == T.Execute(G(), old(Abs()))
    {
      var p1, p2 := params[0], params[1];
      if command == 'H' {
        cursorY := if p1 > 0 then (if lines - 1 < p1 - 1 then lines - 1 else p1 - 1) else 0;
        cursorX := if p2 > 0 then (if cols - 1 < p2 - 1 then cols - 1 else p2 - 1) else 0;
      } else if command == 'J' {
        if p1 == 2 {
          ClearScreen();
        }
      } else {
        HandleSgr();
      }
    }

    /** `handle_vt100_command`: the command, then the cursor shown and its block drawn. */
    method HandleCommand()
      requires Valid() && InGrid() && T.Dispatched(command)
      modifies this, cells, fb
      ensures Valid() && InGrid()
      ensures Abs() == T.Command(G(), old(Abs()))
    {
      Execute();
      ShowCursor(true);
      PutCursor();
    }

    /** `handle_backspace` away from column 0: step left and blank the cell that was left. */
    method HandleBackspace()
      requires Valid() && InGrid() && cursorX > 0
      modifies this, cells, fb
      ensures Valid() && InGrid()
      ensures Abs() == T.PutCell(G(), old(Abs()).(cx := old(cursorX) - 1), ' ', old(cursorX), old(cursorY))
    {
      var originalX, originalY := cursorX, cursorY;
      cursorX := cursorX - 1;
      CellPutc(' ', originalX, originalY);
    }

    /** The byte after ESC in `uterm_putc`. */
    method EscByte(ch: char)
      requires Valid() && status == T.EscSeen
      modifies this, params
      ensures Valid()
      ensures Abs() == old(Abs()).(parser := T.EscByte(old(Abs()), ch))
    {
      if ch == '[' {
        status := T.CsiParams;
        paramCount := 0;
        forall k | 0 <= k < 4 {
          params[k] := 0;
        }
        assert params[..] == [0, 0, 0, 0];
      } else {
        status := T.Ground;
      }
    }

    /** A byte of a control sequence in `uterm_putc`. */
    method CsiByte(ch: char)
      requires Valid() && InGrid() && status == T.CsiParams
      modifies this, cells, fb, params
      ensures Valid() && InGrid()
      ensures Abs() == T.CsiByte(G(), old(Abs()), ch)
    {
      if '0' <= ch <= '9' {
        params[paramCount] := params[paramCount] * 10 + (ch as int - '0' as int);
      } else if ch == ';' {
        if paramCount < 3 {
          paramCount := paramCount + 1;
        }
      } else {
        FinalByte(ch);
      }
    }

    /** A byte that ends a control sequence: run it when it is 'm', 'H' or 'J', then back to ground. */
    method FinalByte(ch: char)
      requires Valid() && InGrid() && status == T.CsiParams
      requires !('0' <= ch <= '9') && ch != ';'
      modifies this, cells, fb
      ensures Valid() && InGrid()
      ensures Abs() == T.CsiByte(G(), old(Abs()), ch)
    {
      if ch == 'm' || ch == 'H' || ch == 'J' {
        command := ch;
        HandleCommand();
      }
      status := T.Ground;
    }

    /** The default case of `uterm_putc`. */
    method Print(ch: char)
      requires Valid() && InGrid()
      modifies this, cells, fb
      ensures Valid() && InGrid()
      ensures Abs() == T.Print(G(), old(Abs()), ch)
    {
      CellPutc(ch, cursorX, cursorY);
      cursorX := cursorX + 1;
      if cursorX >= cols {
        cursorX := 0;
        LineFeed();
      }
    }

    /** The `switch` of `uterm_putc` on a byte outside an escape sequence. */
    method GroundByte(ch: char)
      requires Valid() && InGrid() && status == T.Ground && T.PutcOk(Abs(), ch)
      modifies this, cells, fb, params
      ensures Valid() && InGrid()
      ensures Abs() == T.GroundByte(G(), old(Abs()), ch)
      decreases if ch == '\t' then 1 else 0, 1
    {
      if ch == '\r' {
        cursorX := 0;
      } else if ch == '\n' {
        cursorX := 0;
        LineFeed();
      } else if ch == T.Backspace {
        HandleBackspace();
      } else if ch == '\t' {
        var n := 0;
        while n < 4
          invariant 0 <= n <= 4
          invariant Valid() && InGrid()
          invariant Abs() == T.Spaces(G(), old(Abs()), n)
        {
          Putc(' ');
          n := n + 1;
        }
      } else if ch == T.Esc {
        status := T.EscSeen;
      } else {
        Print(ch);
      }
    }

    /** `uterm_putc` */
    method Putc(ch: char)
      requires Valid() && InGrid() && T.PutcOk(Abs(), ch)
      modifies this, cells, fb, params
      ensures Valid() && InGrid()
      ensures Abs() == T.Putc(G(), old(Abs()), ch)
      decreases if ch == '\t' then 1 else 0, 2
    {
      ShowCursor(false);
      if status > T.Ground {
        if status == T.EscSeen {
          EscByte(ch);
          return;
        } else if status == T.CsiParams {
          CsiByte(ch);
          return;
        }
      }
      GroundByte(ch);
      ShowCursor(true);
      PutCursor();
    }

    /** `uterm_puts`: `uterm_putc` on each byte of `s` up to the first NUL. */
    method Puts(s: seq<char>)
      requires Valid() && InGrid() && T.PutsOk(G(), Abs(), s)
      modifies this, cells, fb, params
      ensures Valid() && InGrid()
      ensures Abs() == T.Puts(G(), old(Abs()), s)
    {
      var i := 0;
      while i < |s| && s[i] != T.Nul
        invariant 0 <= i <= |s|
        invariant Valid() && InGrid()
        invariant T.PutsOk(G(), Abs(), s[i..])
        invariant T.Puts(G(), Abs(), s[i..]) == T.Puts(G(), old(Abs()), s)
      {
        Putc(s[i]);
        assert s[i..][1..] == s[i + 1..];
        i := i + 1;
      }
    }
  }
}
