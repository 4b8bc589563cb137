/**
 * The terminal of term/uterm.c as a pure state machine. Every routine of the C file is a
 * function from the whole console state to the next one, composed in the same order as the
 * C code calls the routines; the class in console.dfy is proved to compute exactly these.
 */
module Terminal {
  import opened Arith
  import Color

  /** Parser status values of `vt100_t.status`. */
  const Ground := 0
  const EscSeen := 1
  const CsiParams := 2

  const Esc: char := 27 as char
  const Backspace: char := 8 as char
  const Nul: char := 0 as char

  /** Colour of the cursor block drawn by `uterm_putcursor`. */
  const CursorColor: bv32 := 0xFFFF_FFFF

  /** The 8x16 font: glyph row `row` of character `ch`, most significant bit = leftmost pixel. */
  type Font = (char, int) -> bv8

  /** Pixel size of the framebuffer and the font; fixed for the whole session. */
  datatype Geometry = Geometry(width: nat, height: nat, font: Font) {
    predicate Ok() { width >= 8 && height >= 16 }
    /** `cell_cols` */
    function Cols(): nat { width / 8 }
    /** `cell_lines` */
    function Lines(): nat { height / 16 }
  }

  /** `vt100_t` without its unused `bold`/`underline` flags and colours. */
  datatype Parser = Parser(status: int, params: seq<int>, count: int, command: char)

  /**
   * Everything the C globals hold: the back buffer's cells and pixels, the front pixels,
   * the cursor, the saved (overlay) cursor position, the parser and the current colours.
   */
  datatype State = State(
    cells: seq<char>, fb: seq<bv32>, front: seq<bv32>,
    cx: nat, cy: nat, visible: bool, sx: nat, sy: nat,
    parser: Parser, fg: bv32, bg: bv32)

  /** Buffer sizes agree with the geometry, the saved cursor is a cell, the parser is in range. */
  predicate Wf(g: Geometry, s: State) {
    g.Ok()
    && |s.cells| == g.Cols() * g.Lines()
    && |s.fb| == g.width * g.height
    && |s.front| == |s.fb|
    && s.sx < g.Cols() && s.sy < g.Lines()
    && Ground <= s.parser.status <= CsiParams
    && |s.parser.params| == 4
    && 0 <= s.parser.count <= 3
  }

  /** The cursor addresses a cell of the grid. */
  predicate InGrid(g: Geometry, s: State) {
    s.cx < g.Cols() && s.cy < g.Lines()
  }

  /** Row-major index of cell (x, y). */
  function CellIndex(g: Geometry, x: int, y: int): int {
    y * g.Cols() + x
  }

  function CellAt(g: Geometry, s: State, x: int, y: int): char
    requires Wf(g, s) && 0 <= x < g.Cols() && 0 <= y < g.Lines()
  {
    IndexBound(g.Cols(), g.Lines(), x, y);
    s.cells[CellIndex(g, x, y)]
  }

  // ---------------------------------------------------------------- glyph rasteriser

  /** Colour of pixel (col, row) of the glyph of `ch`: foreground where the font bit is set. */
  function Ink(g: Geometry, ch: char, row: int, col: int, f: bv32, b: bv32): bv32
    requires 0 <= row < 16 && 0 <= col < 8
  {
    if g.font(ch, row) & (0x80 >> col) != 0 then f else b
  }

  /** Pixel (px, py) lies in the 8x16 glyph block of cell (x, y). */
  predicate InCellBlock(px: int, py: int, x: int, y: int) {
    8 * x <= px < 8 * x + 8 && 16 * y <= py < 16 * y + 16
  }

  /** Pixel index `k` of a `w`-wide buffer lies in the glyph block of cell (cx, cy). */
  predicate InBlock(w: nat, k: int, cx: int, cy: int)
    requires w > 0
  {
    InCellBlock(k % w, k / w, cx, cy)
  }

  /** The pixels after the glyph of `ch` is painted into cell (cx, cy). */
  function Paint(g: Geometry, fb: seq<bv32>, ch: char, cx: int, cy: int, f: bv32, b: bv32): seq<bv32>
    requires g.Ok() && |fb| == g.width * g.height
    requires 0 <= cx < g.Cols() && 0 <= cy < g.Lines()
  {
    seq(|fb|, k requires 0 <= k < |fb| =>
      if InBlock(g.width, k, cx, cy)
      then Ink(g, ch, k / g.width - 16 * cy, k % g.width - 8 * cx, f, b)
      else fb[k])
  }

  /** `uterm_cell_putc_raw`: a no-op outside the grid, otherwise records `ch` and paints it. */
  function PutCellRaw(g: Geometry, s: State, ch: char, x: int, y: int, f: bv32, b: bv32): (r: State)
    requires Wf(g, s)
    ensures Wf(g, r) && r.(cells := s.cells, fb := s.fb) == s
  {
    if 0 <= x < g.Cols() && 0 <= y < g.Lines() then
      IndexBound(g.Cols(), g.Lines(), x, y);
      s.(cells := s.cells[CellIndex(g, x, y) := ch], fb := Paint(g, s.fb, ch, x, y, f, b))
    else
      s
  }

  /** `uterm_cell_putc`: `uterm_cell_putc_raw` in the current colours. */
  function PutCell(g: Geometry, s: State, ch: char, x: int, y: int): (r: State)
    requires Wf(g, s)
    ensures Wf(g, r) && r.(cells := s.cells, fb := s.fb) == s
  {
    PutCellRaw(g, s, ch, x, y, s.fg, s.bg)
  }

  // ---------------------------------------------------------------- buffers

  /** The cell buffer after `uterm_scroll`: each row takes the next one, the last row becomes NUL. */
  function ScrolledCells(cells: seq<char>, cols: nat, lines: nat): seq<char>
    requires lines >= 1 && |cells| == cols * lines
  {
    assert cols * (lines - 1) + cols == cols * lines;
    seq(|cells|, k requires 0 <= k < |cells| =>
      if k < cols * (lines - 1) then cells[k + cols] else Nul)
  }

  /**
   * The pixels after `uterm_scroll`: each scanline above the last text line takes the one 16
   * below it, the 16 scanlines of the last text line become 0, and the scanlines below
   * `lines * 16` (the part of the framebuffer no cell covers) keep their pixels.
   */
  function ScrolledPixels(fb: seq<bv32>, w: nat, lines: nat): seq<bv32>
    requires lines >= 1 && lines * 16 * w <= |fb|
  {
    assert (lines - 1) * 16 * w + 16 * w == lines * 16 * w;
    seq(|fb|, k requires 0 <= k < |fb| =>
      if k < (lines - 1) * 16 * w then fb[k + 16 * w]
      else if k < lines * 16 * w then 0
      else fb[k])
  }

  /** `uterm_scroll` */
  function Scroll(g: Geometry, s: State): (r: State)
    requires Wf(g, s)
    ensures Wf(g, r) && r.(cells := s.cells, fb := s.fb) == s
  {
    MulMono(g.Lines() * 16, g.height, g.width);
    s.(cells := ScrolledCells(s.cells, g.Cols(), g.Lines()),
       fb := ScrolledPixels(s.fb, g.width, g.Lines()))
  }

  /** `uterm_flush` (`swap_buffers`): the front pixels become a copy of the back pixels. */
  function Flush(g: Geometry, s: State): (r: State)
    requires Wf(g, s)
    ensures Wf(g, r) && r.front == s.fb && r.(front := s.front) == s
  {
    s.(front := s.fb)
  }

  /** The row advance shared by '\n' and the column wrap: scroll once past the last row. */
  function LineFeed(g: Geometry, s: State): (r: State)
    requires Wf(g, s) && s.cy < g.Lines()
    ensures Wf(g, r) && r.cy < g.Lines() && r.cx == s.cx && r.front == s.front
  {
    var t := s.(cy := s.cy + 1);
    if t.cy >= g.Lines() then Scroll(g, t).(cy := g.Lines() - 1) else t
  }

  // ---------------------------------------------------------------- cursor

  /**
   * `uterm_show_cursor`: redraw the cell under a visible cursor from its recorded character,
   * then either hide, or save the cursor position and redraw the cell under it (in the normal
   * colours, not inverted) and mark the cursor visible.
   */
  function ShowCursor(g: Geometry, s: State, show: bool): (r: State)
    requires Wf(g, s) && (show ==> InGrid(g, s))
    ensures Wf(g, r) && r.front == s.front
  {
    var h := if s.visible then PutCell(g, s, CellAt(g, s, s.sx, s.sy), s.sx, s.sy) else s;
    if show then
      var t := h.(sx := h.cx, sy := h.cy);
      PutCell(g, t, CellAt(g, t, t.cx, t.cy), t.cx, t.cy).(visible := true)
    else
      h.(visible := false)
  }

  /**
   * `uterm_putcursor`: wrap a cursor that ran off the right edge, then overwrite the cursor
   * cell with ' ' drawn all in `CursorColor`.
   */
  function PutCursor(g: Geometry, s: State): (r: State)
    requires Wf(g, s) && s.cy < g.Lines()
    ensures Wf(g, r) && InGrid(g, r) && r.front == s.front
  {
    var t := if s.cx >= g.Cols() then LineFeed(g, s.(cx := 0)) else s;
    PutCellRaw(g, t, ' ', t.cx, t.cy, CursorColor, CursorColor)
  }

  // ---------------------------------------------------------------- commands

  /** The final bytes that `uterm_putc` hands to `handle_vt100_command`. */
  predicate Dispatched(c: char) {
    c == 'm' || c == 'H' || c == 'J'
  }

  /** The effect of one SGR parameter on (foreground, background). */
  function SgrCode(code: int, fg: bv32, bg: bv32): (bv32, bv32) {
    if code == 0 then (Color.AnsiToRgba(Color.White, false), Color.AnsiToRgba(Color.Black, false))
    else if 30 <= code <= 37 then (Color.AnsiToRgba(code - 30, false), bg)
    else if 40 <= code <= 47 then (fg, Color.AnsiToRgba(code - 40, false))
    else if 90 <= code <= 97 then (Color.AnsiToRgba(code - 90, true), bg)
    else if 100 <= code <= 107 then (fg, Color.AnsiToRgba(code - 100, true))
    else (fg, bg)
  }

  /** `handle_ansi_sgr`'s sweep: the parameters applied left to right. */
  function Sweep(codes: seq<int>, fg: bv32, bg: bv32): (bv32, bv32)
    decreases |codes|
  {
    if codes == [] then (fg, bg)
    else
      var prev := Sweep(codes[..|codes| - 1], fg, bg);
      SgrCode(codes[|codes| - 1], prev.0, prev.1)
  }

  /** CUP coordinate: a 1-based parameter, 0 meaning 1, clamped to the last of `n` positions. */
  function CupCoordinate(p: int, n: nat): (r: nat)
    requires n >= 1
    ensures r < n
    ensures 1 <= p <= n ==> r == p - 1
    ensures p > n ==> r == n - 1
    ensures p < 1 ==> r == 0
  {
    if p > 0 then (if n - 1 < p - 1 then n - 1 else p - 1) else 0
  }

  /** ED 2: every cell NUL, every pixel 0, cursor home. */
  function ClearScreen(s: State): State {
    s.(cells := seq(|s.cells|, _ => Nul), fb := seq(|s.fb|, _ => 0), cx := 0, cy := 0)
  }

  /** The command-specific part of `handle_vt100_command` for the letters it is handed. */
  function Execute(g: Geometry, s: State): (r: State)
    requires Wf(g, s) && InGrid(g, s) && Dispatched(s.parser.command)
    ensures Wf(g, r) && InGrid(g, r) && r.front == s.front
  {
    var p1, p2 := s.parser.params[0], s.parser.params[1];
    if s.parser.command == 'H' then
      s.(cy := CupCoordinate(p1, g.Lines()), cx := CupCoordinate(p2, g.Cols()))
    else if s.parser.command == 'J' then
      if p1 == 2 then ClearScreen(s) else s
    else
      var colors := Sweep(s.parser.params[..s.parser.count + 1], s.fg, s.bg);
      s.(fg := colors.0, bg := colors.1)
  }

  /** `handle_vt100_command`: execute, then show the cursor and draw the cursor block. */
  function Command(g: Geometry, s: State): (r: State)
    requires Wf(g, s) && InGrid(g, s) && Dispatched(s.parser.command)
    ensures Wf(g, r) && InGrid(g, r) && r.front == s.front
  {
    PutCursor(g, ShowCursor(g, Execute(g, s), true))
  }

  // ---------------------------------------------------------------- byte input

  /** Backspace is defined only away from the first column (the C column is unsigned). */
  predicate PutcOk(s: State, ch: char) {
    ch == Backspace && s.parser.status == Ground ==> s.cx > 0
  }

  /** The byte after ESC: '[' opens a control sequence with cleared parameters, anything else is dropped. */
  function EscByte(s: State, ch: char): Parser {
    if ch == '[' then s.parser.(status := CsiParams, count := 0, params := [0, 0, 0, 0])
    else s.parser.(status := Ground)
  }

  /**
   * A byte inside a control sequence (after the cursor has been hidden): digits accumulate into
   * the current parameter, ';' moves to the next of at most four, anything else ends the sequence
   * and runs it when it is 'm', 'H' or 'J'.
   */
  function CsiByte(g: Geometry, s: State, ch: char): (r: State)
    requires Wf(g, s) && InGrid(g, s) && s.parser.status == CsiParams
    ensures Wf(g, r) && InGrid(g, r) && r.front == s.front
  {
    var p := s.parser;
    if '0' <= ch <= '9' then
      s.(parser := p.(params := p.params[p.count := p.params[p.count] * 10 + (ch as int - '0' as int)]))
    else if ch == ';' then
      s.(parser := p.(count := if p.count < 3 then p.count + 1 else p.count))
    else if Dispatched(ch) then
      var r := Command(g, s.(parser := p.(command := ch)));
      r.(parser := r.parser.(status := Ground))
    else
      s.(parser := p.(status := Ground))
  }

  /** `uterm_putc` on a byte that the escape parser does not take (the cursor is hidden). */
  function GroundByte(g: Geometry, s: State, ch: char): (r: State)
    requires Wf(g, s) && InGrid(g, s) && s.parser.status == Ground && PutcOk(s, ch)
    ensures Wf(g, r) && InGrid(g, r) && r.front == s.front
    decreases if ch == '\t' then 1 else 0, 1, 0
  {
    if ch == '\r' then s.(cx := 0)
    else if ch == '\n' then LineFeed(g, s.(cx := 0))
    else if ch == Backspace then PutCell(g, s.(cx := s.cx - 1), ' ', s.cx, s.cy)
    else if ch == '\t' then Spaces(g, s, 4)
    else if ch == Esc then s.(parser := s.parser.(status := EscSeen))
    else Print(g, s, ch)
  }

  /** The default case of `uterm_putc`: draw `ch` at the cursor and advance, wrapping at the right edge. */
  function Print(g: Geometry, s: State, ch: char): (r: State)
    requires Wf(g, s) && InGrid(g, s)
    ensures Wf(g, r) && InGrid(g, r) && r.front == s.front
  {
    var t := PutCell(g, s, ch, s.cx, s.cy).(cx := s.cx + 1);
    if t.cx >= g.Cols() then LineFeed(g, t.(cx := 0)) else t
  }

  /** `n` calls of `uterm_putc(' ')`, as the tab case makes. */
  function Spaces(g: Geometry, s: State, n: nat): (r: State)
    requires Wf(g, s) && InGrid(g, s)
    ensures Wf(g, r) && InGrid(g, r) && r.front == s.front
    decreases 1, 0, n
  {
    if n == 0 then s else Putc(g, Spaces(g, s, n - 1), ' ')
  }

  /**
   * `uterm_putc`: hide the cursor; feed the byte to the escape parser when one is under way
   * (returning with the cursor hidden unless a command ran); otherwise act on the byte, show
   * the cursor and draw the cursor block.
   */
  function Putc(g: Geometry, s: State, ch: char): (r: State)
    requires Wf(g, s) && InGrid(g, s) && PutcOk(s, ch)
    ensures Wf(g, r) && InGrid(g, r) && r.front == s.front
    decreases if ch == '\t' then 1 else 0, 2, 0
  {
    var h := ShowCursor(g, s, false);
    if h.parser.status == EscSeen then h.(parser := EscByte(h, ch))
    else if h.parser.status == CsiParams then CsiByte(g, h, ch)
    else PutCursor(g, ShowCursor(g, GroundByte(g, h, ch), true))
  }

  /** The bytes `uterm_puts` hands to `uterm_putc` can all be taken (no backspace at column 0). */
  predicate PutsOk(g: Geometry, s: State, str: seq<char>)
    decreases |str|
  {
    Wf(g, s) && InGrid(g, s)
    && (str == [] || str[0] == Nul
        || (PutcOk(s, str[0]) && PutsOk(g, Putc(g, s, str[0]), str[1..])))
  }

  /** `uterm_puts`: `uterm_putc` on each byte up to the first NUL. */
  function Puts(g: Geometry, s: State, str: seq<char>): (r: State)
    requires PutsOk(g, s, str)
    ensures Wf(g, r) && InGrid(g, r) && r.front == s.front
    decreases |str|
  {
    if str == [] || str[0] == Nul then s else Puts(g, Putc(g, s, str[0]), str[1..])
  }

  /** The state `init_uterm` builds before its call of `uterm_putcursor`. */
  function Fresh(g: Geometry, front: seq<bv32>): (r: State)
    requires g.Ok() && |front| == g.width * g.height
    ensures Wf(g, r) && InGrid(g, r)
  {
    State(
      seq(g.Cols() * g.Lines(), _ => Nul), seq(g.width * g.height, _ => 0), front,
      0, 0, false, 0, 0,
      Parser(Ground, [0, 0, 0, 0], 0, Nul),
      Color.AnsiToRgba(Color.White, false), Color.AnsiToRgba(Color.Black, false))
  }

  /**
   * `init_uterm`: zeroed back cells and pixels, the caller's front pixels, default colours, a
   * ground-state parser, the cursor at (0, 0) not yet visible, and the cursor block drawn.
   */
  function Init(g: Geometry, front: seq<bv32>): (r: State)
    requires g.Ok() && |front| == g.width * g.height
    ensures Wf(g, r) && InGrid(g, r) && r.front == front
  {
    PutCursor(g, Fresh(g, front))
  }
}
