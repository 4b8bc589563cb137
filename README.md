# uterm terminal core in Dafny

This project models `term/uterm.c` of uterm. uterm is a small character-cell terminal. It takes a
byte stream, runs it through a three-state VT100/ECMA-48 escape parser (ground, ESC seen, control
sequence), and renders the result as 8x16 glyphs into an off-screen pixel buffer. `uterm_flush`
copies that buffer to the caller's video memory.

The model has three layers:

- `Terminal` (terminal.dfy) is the specification. The console state (back cells, back pixels,
  front pixels, cursor, saved cursor, parser, colours) is a `State` value. Every C routine is a
  function on it, composed the way the C code calls the routines.
- `Uterm` (console.dfy) holds class `Console`:
  - the C globals are its fields;
  - `back_buffer->cell`, `back_buffer->fb`, the caller's video memory and `vtcontrol->params`
    are arrays;
  - each C routine is a method with the same loops. Its `ensures` ties the new state to the
    specification function applied to the old state: `Abs() == Terminal.X(G(), old(Abs()))`.
- `TerminalFacts` (terminalfacts.dfy) proves what the routines promise, as lemmas about the
  specification. They cover glyph writes, scrolling, the cursor overlay, every kind of byte,
  the three commands, the SGR sweep, tabs, strings and start-up.

`Color` (color.dfy) is `ansi_to_rgba` and its palette. `Arith` (arith.dfy) holds the row-major
index arithmetic that the proofs need.

In three places the comments in the code promise something the statements do not do. The model
follows the statements:

- `uterm_scroll` calls the value it writes into the last text line the background colour (the
  comment at term/uterm.c:393), but it writes 0. ED 2 (`ESC[2J`) also fills the pixels with 0
  (term/uterm.c:121). The model fills with 0 in both places, not with the current background.
- `uterm_show_cursor` says it draws the cursor cell in inverted colours (the comments at
  term/uterm.c:191 and 195). In fact it redraws the cell with `uterm_cell_putc`, in the current
  foreground and background. `uterm_putcursor` then paints a solid `0xFFFFFFFF` block
  (term/uterm.c:181).
- `ubuffer_t` declares `dirty_start` and `dirty_end` as the first and last dirty rows
  (include/buffer.h:11-12), but no code maintains them. `uterm_flush` copies the whole pixel
  buffer (term/uterm.c:165-169). The front cell buffer is only zeroed (term/uterm.c:221).

`uterm_putcursor` also records `' '` in the cell under the cursor (term/uterm.c:181). Hiding the
cursor therefore redraws a blank, and the character that was there is lost
(`TerminalFacts.PutcCarriageReturn`, `TerminalFacts.PutcBackspace`).

## Model

| member | source | states |
|---|---|---|
| Color.AnsiToRgba | term/uterm.c:40-61 | channel by channel: the palette entry for indices 0..7; in the bright variant the top byte is kept and 0x80 is or-ed into each of the three low bytes |
| Color.BrightIsOr | term/uterm.c:53-59 | the bright colour is the palette entry or-ed with 0x00808080 |
| Color.BaseColor | term/uterm.c:41-50 | the palette: index bit 0 turns red fully on, bit 1 green, bit 2 blue, and every entry is opaque (alpha 0xFF) |
| Color.DefaultColors | term/uterm.c:67-69 | the reset colours are palette white 0xFFFFFFFF and palette black 0x000000FF |
| Terminal.CupCoordinate | term/uterm.c:112-115 | a CUP coordinate is in the grid: parameter p in 1..n gives p-1, above n gives n-1, below 1 gives 0 |
| Terminal.Paint | term/uterm.c:254-261 | the glyph loops as a whole: the block of cell (cx, cy) gets the glyph's ink, every other pixel is kept (no contract of its own; `TerminalFacts.PutCellRawPixels` states it pixel by pixel) |
| Terminal.PutCell | term/uterm.c:264-289 | a glyph write in the current colours keeps the state well-formed and changes only the cells and the pixels |
| Terminal.Scroll | term/uterm.c:378-396 | a scroll keeps the state well-formed and changes only the cells and the pixels |
| Terminal.Flush | term/uterm.c:398-401 | `uterm_flush` through `swap_buffers`: the front pixels become the back pixels and nothing else changes |
| Terminal.LineFeed | term/uterm.c:332-338 | the row advance keeps the column and the front pixels and leaves the cursor row in the grid |
| Terminal.ShowCursor | term/uterm.c:184-200 | showing or hiding the cursor keeps the state well-formed and never touches the front pixels |
| Terminal.PutCursor | term/uterm.c:171-182 | after drawing the cursor block the cursor is in the grid, whatever column it had run to |
| Terminal.SgrCode | term/uterm.c:66-85 | the colour change of one SGR parameter (no contract of its own; `TerminalFacts.SgrCodeSets` states it) |
| Terminal.Sweep | term/uterm.c:64-86 | the parameters applied left to right (no contract of its own; the sweep lemmas state it) |
| Terminal.ClearScreen | term/uterm.c:119-123 | ED 2 as a state change (no contract of its own; `TerminalFacts.CommandEraseDisplay` states it) |
| Terminal.Execute | term/uterm.c:89-143 | each of H, J and m leaves the state well-formed, the cursor in the grid and the front pixels untouched |
| Terminal.Command | term/uterm.c:89-147 | `handle_vt100_command` leaves the cursor in the grid and the front pixels untouched |
| Terminal.EscByte | term/uterm.c:296-305 | the parser after the byte that follows ESC (no contract of its own; `TerminalFacts.PutcAfterEscape` states it) |
| Terminal.CsiByte | term/uterm.c:306-323 | a byte inside a control sequence leaves the cursor in the grid and the front pixels untouched |
| Terminal.GroundByte | term/uterm.c:327-364 | every ground-state byte except a backspace at column 0 leaves the cursor in the grid and the front pixels untouched |
| Terminal.Print | term/uterm.c:353-363 | the default case leaves the cursor in the grid, wrapping and scrolling as needed |
| Terminal.Spaces | term/uterm.c:346 | any number of spaces leaves the cursor in the grid and the front pixels untouched |
| Terminal.Fresh | term/uterm.c:202-232 | the state `init_uterm` builds before drawing the cursor is well-formed with the cursor in the grid |
| Terminal.Init | term/uterm.c:202-237 | `init_uterm` leaves the cursor in the grid and the caller's video memory as the front pixels |
| Terminal.PutCellRaw | term/uterm.c:245-262 | a glyph write keeps the state well-formed and changes only the cells and the pixels |
| Terminal.Putc | term/uterm.c:291-368 | every byte except a backspace at column 0 in ground state leaves the cursor in the grid, the parameter count in 0..3 and the front pixels untouched |
| Terminal.Puts | term/uterm.c:370-376 | a string leaves the cursor in the grid and the front pixels untouched |
| Uterm.ScanlinesUp | term/uterm.c:382-388 | the memmove loop: each of the first `count` scanlines holds the one 16 below it, the rest are unchanged |
| Uterm.ClearScanlines | term/uterm.c:391-395 | the clearing loop: scanlines `from` to `to` become 0 and every other pixel is unchanged |
| Uterm.CellRowsUp | term/uterm.c:379-380 | the cell memmove and memset equal the scrolled cell buffer |
| Uterm.ScrollPixels | term/uterm.c:382-395 | both pixel loops together equal the scrolled pixel buffer |
| Uterm.ScrollComposition | term/uterm.c:382-395 | shifting the kept scanlines, then zeroing the last text line, is the scrolled pixel buffer |
| Uterm.PaintStep | term/uterm.c:254-261 | one pass of the inner glyph loop paints the next pixel of the block, and that pixel lies inside the buffer |
| Uterm.Console.constructor | term/uterm.c:202-237 | `init_uterm`: zeroed back buffers, white on black, a ground-state parser and the cursor block drawn at (0, 0); the video memory becomes the front buffer |
| Uterm.Console.CellPutcRaw | term/uterm.c:245-262 | the bounds check, the cell store and the glyph loops compute the specification's glyph write |
| Uterm.Console.PaintGlyph | term/uterm.c:254-261 | the two nested glyph loops leave the pixel buffer equal to `Terminal.Paint` of the old one: the cell's block painted, every other pixel kept |
| Uterm.Console.CellPutc | term/uterm.c:264-289 | a glyph write in the current colours |
| Uterm.Console.Scroll | term/uterm.c:378-396 | `uterm_scroll` computes the specification's scroll |
| Uterm.Console.SwapBuffers | term/uterm.c:165-169 | the front pixels become a copy of the back pixels and nothing else changes |
| Uterm.Console.Flush | term/uterm.c:398-401 | `uterm_flush` is `swap_buffers` |
| Uterm.Console.LineFeed | term/uterm.c:332-338 | the row advance: one row down, or a scroll on the last row; the cursor row stays in the grid |
| Uterm.Console.ShowCursor | term/uterm.c:184-200 | restore the saved cell, then save and redraw the new one, or hide |
| Uterm.Console.PutCursor | term/uterm.c:171-182 | wrap past the right edge, then draw the cursor block; the cursor ends in the grid |
| Uterm.Console.HandleSgr | term/uterm.c:63-87 | the loop applies `params[0..param_count]` left to right and changes only the colours |
| Uterm.Console.ClearScreen | term/uterm.c:119-123 | both memsets and the cursor home |
| Uterm.Console.Execute | term/uterm.c:89-143 | the command switch for H, J and m |
| Uterm.Console.HandleCommand | term/uterm.c:89-147 | `handle_vt100_command`, ending with the cursor shown and drawn |
| Uterm.Console.HandleBackspace | term/uterm.c:149-162 | away from column 0: one column left, the cell that was left is blanked in the current colours |
| Uterm.Console.EscByte | term/uterm.c:296-305 | the byte after ESC changes only the parser |
| Uterm.Console.CsiByte | term/uterm.c:306-323 | a byte inside a control sequence |
| Uterm.Console.FinalByte | term/uterm.c:313-321 | the end of a control sequence, dispatching only m, H and J |
| Uterm.Console.Print | term/uterm.c:353-363 | the default case: draw and advance, wrapping and scrolling |
| Uterm.Console.GroundByte | term/uterm.c:327-364 | the byte switch; its tab loop keeps `Abs() == Spaces(old, n)` over four recursive `uterm_putc(' ')` calls |
| Uterm.Console.Putc | term/uterm.c:291-368 | `uterm_putc` computes the specification's byte step |
| Uterm.Console.Puts | term/uterm.c:370-376 | the loop stops at the first NUL and computes the specification's string step |
| TerminalFacts.CellIndexInjective | term/uterm.c:252 | distinct cells have distinct row-major slots, in both directions |
| TerminalFacts.PutCellRawCells | term/uterm.c:246-252 | a glyph write records `ch` in its own cell when that is a cell, and in no other cell |
| TerminalFacts.PutCellRawPixels | term/uterm.c:246-261 | in a cell's block, pixel (8x+j, 16y+i) is fg exactly when bit 0x80>>j of glyph row i is set, else bg; every other pixel, and every pixel for an off-grid cell, keeps its value |
| TerminalFacts.ScrollCells | term/uterm.c:379-380 | after a scroll each cell row holds the old row below it, and the last row is NUL |
| TerminalFacts.ScrollPixels | term/uterm.c:382-395 | after a scroll each text scanline holds the old one 16 below it, the last text line's 16 scanlines are 0, and scanlines below the text area keep their pixels |
| TerminalFacts.ScrollsCells | term/uterm.c:378-381 | after n scrolls row y holds old row y+n, or NUL past the old last row |
| TerminalFacts.ScrollingAllLinesClears | term/uterm.c:378-381 | scrolling once per text line leaves every cell NUL |
| TerminalFacts.LineFeedCells | term/uterm.c:332-338 | the row advance keeps the column, parser and colours; below the last row it moves one row down and every cell stays, on the last row it stays there and every cell row takes the one below it, the last becoming NUL |
| TerminalFacts.RedrawKeepsCells | term/uterm.c:187-188 | redrawing a cell from its recorded character leaves the cell buffer unchanged |
| TerminalFacts.ShowCursorKeepsText | term/uterm.c:184-200 | showing or hiding the cursor changes no cell, cursor, parser or colour; the cursor is visible exactly when asked; a shown cursor saves its position |
| TerminalFacts.PutCursorDraws | term/uterm.c:171-182 | on an in-grid cursor: the cursor cell records ' ', its whole block becomes 0xFFFFFFFF, and no other cell or pixel changes |
| TerminalFacts.PutCursorWraps | term/uterm.c:172-179 | a cursor past the right edge goes to column 0 of the next row, or stays on the last row after a scroll |
| TerminalFacts.HidePixels | term/uterm.c:184-199 | hiding a visible cursor repaints the saved cell's block with its recorded character in the current colours; every other pixel is kept |
| TerminalFacts.ShowAndDrawPixels | term/uterm.c:171-196 | showing a hidden cursor and drawing it paints its block 0xFFFFFFFF; every other pixel is kept |
| TerminalFacts.ShowAndDraw | term/uterm.c:366-367 | show then draw keeps the cursor, parser and colours, leaves the cursor visible and saved, and changes only the cursor cell, to ' ' |
| TerminalFacts.PrintPlaces | term/uterm.c:353-363 | the default case records the byte at the cursor and moves one column right; at the last column it wraps, and on the last row it scrolls so the byte moves up a row |
| TerminalFacts.PutcGround | term/uterm.c:291-292 | outside a sequence, the byte step hides the cursor without touching the text, cursor or parser, then switches on the byte, shows and draws |
| TerminalFacts.PutcPrintable | term/uterm.c:353-367 | a printable byte in ground state lands in the cursor cell and the cursor advances, wraps or scrolls as in the C code; parser and colours are kept (its pixels: `TerminalFacts.PutcPrintablePixels`) |
| TerminalFacts.PutcPrintableCells | term/uterm.c:353-367 | a printable byte that does not wrap changes the cursor cell to the byte, the next cell to the cursor's ' ', and no other cell |
| TerminalFacts.PutcPrintablePixels | term/uterm.c:291-367 | a printable byte that does not wrap: the next block becomes the cursor block, the cursor's block shows the byte's glyph in the current colours, the block the cursor was hidden from shows its recorded character again, and every other pixel is kept |
| TerminalFacts.PrintPixels | term/uterm.c:353-367 | the same with the cursor already hidden: glyph in the cursor's block, cursor block next to it, every other pixel kept |
| TerminalFacts.PutcCarriageReturn | term/uterm.c:328-330 | '\r' moves to column 0 of the same row, and that cell now records ' ' |
| TerminalFacts.PutcNewline | term/uterm.c:332-338 | '\n' moves to column 0 of the next row, or of the last row after a scroll |
| TerminalFacts.PutcBackspace | term/uterm.c:149-162 | backspace away from column 0 moves one column left; the cell left and the cell landed on both record ' ' |
| TerminalFacts.PutcEscape | term/uterm.c:349-351 | ESC in ground state moves the parser to "ESC seen" and keeps the cursor and colours |
| TerminalFacts.PutcAfterEscape | term/uterm.c:296-305 | after ESC, '[' opens a sequence with count 0 and four zero parameters, and any other byte returns to ground; text, cursor and colours stay, and the cursor stays hidden |
| TerminalFacts.PutcInSequence | term/uterm.c:306-322 | in a sequence, a digit appends to params[count] in decimal, ';' increments the count only below 3, and any other non-command byte returns to ground; the cursor stays hidden |
| TerminalFacts.PutcFinal | term/uterm.c:313-320 | m, H or J in a sequence hides the cursor, records the command, runs it and returns to ground |
| TerminalFacts.PutcCursorPosition | term/uterm.c:112-115 | H puts the cursor at (CupCoordinate(p2, cols), CupCoordinate(p1, lines)), shown and drawn there |
| TerminalFacts.CommandEraseDisplay | term/uterm.c:118-124 | ED 2 leaves every cell NUL and every pixel 0, except the cursor cell and block at (0, 0) |
| TerminalFacts.PutcEraseDisplay | term/uterm.c:118-124 | 'J' with p1 = 2 ends the sequence with a blank screen and the cursor home |
| TerminalFacts.PutcEraseOther | term/uterm.c:118-124 | 'J' with any other p1 ends the sequence with the cursor in place and changes no cell but the cursor's; in the pixels, the cursor block is 0xFFFFFFFF, the block the cursor was hidden from shows its recorded character again, and every other pixel is kept |
| TerminalFacts.CommandSgr | term/uterm.c:140-143 | SGR sets the colours to the sweep of params[0..count] and keeps the cursor |
| TerminalFacts.PutcSelectGraphicRendition | term/uterm.c:140-143 | 'm' ends the sequence with the swept colours, the cursor in place and no cell changed but the cursor's |
| TerminalFacts.SgrCodeSets | term/uterm.c:66-85 | a code that sets a colour sets it regardless of the old colours; any other code leaves it |
| TerminalFacts.SweepAppend | term/uterm.c:64 | sweeping a+b is sweeping a, then b from there |
| TerminalFacts.SweepKeeps | term/uterm.c:64-86 | codes that do not set a colour leave it unchanged |
| TerminalFacts.SweepReset | term/uterm.c:67-70 | a 0 forgets everything before it: white on black, then the rest |
| TerminalFacts.LastForegroundWins | term/uterm.c:64-86 | the last code that sets the foreground decides it |
| TerminalFacts.LastBackgroundWins | term/uterm.c:64-86 | the last code that sets the background decides it |
| TerminalFacts.PaintOverwrites | term/uterm.c:254-261 | painting a cell twice equals painting it once with the second glyph |
| TerminalFacts.RedrawCursorCell | term/uterm.c:181-195 | redrawing a drawn cursor cell and drawing the cursor again restores it exactly |
| TerminalFacts.ShowAndDrawAgain | term/uterm.c:366-367 | showing and drawing the cursor a second time changes nothing |
| TerminalFacts.HideTwice | term/uterm.c:184-199 | hiding an already hidden cursor changes nothing |
| TerminalFacts.SpacesAfterHide | term/uterm.c:345-346 | spaces typed after the cursor was hidden are the same as spaces typed before |
| TerminalFacts.SpacesKeepParser | term/uterm.c:346 | typing spaces in ground state keeps the parser and colours |
| TerminalFacts.SpacesRow | term/uterm.c:346 | n spaces that stay in the row move the cursor n columns right and blank every cell passed |
| TerminalFacts.PutcShownAgain | term/uterm.c:366-367 | after a ground-state byte, showing and drawing the cursor again changes nothing |
| TerminalFacts.SpacesShown | term/uterm.c:346 | after one or more spaces, showing and drawing the cursor again changes nothing |
| TerminalFacts.TabIsFourSpaces | term/uterm.c:345-347 | '\t' in ground state equals four calls of `uterm_putc(' ')` exactly |
| TerminalFacts.PutcTab | term/uterm.c:345-347 | a tab that stays in the row moves four columns right over blank cells and keeps the parser |
| TerminalFacts.PutsConcat | term/uterm.c:370-376 | `uterm_puts` of a NUL-free prefix and a rest is `uterm_puts` of one and then the other |
| TerminalFacts.PutsStopsAtNul | term/uterm.c:372 | nothing after the first NUL reaches the terminal |
| TerminalFacts.InitState | term/uterm.c:202-237 | after `init_uterm`: cursor home and not visible, ground parser, white on black, every cell NUL except the cursor's ' ', front pixels untouched |
| TerminalFacts.InitPixels | term/uterm.c:233-236 | after `init_uterm` every back pixel is 0 except the cursor block at (0, 0) |

## Left out

- main.c (the X11 window, XImage and event loop) is not part of this model. It only consumes the
  front buffer.
- The `ascfont` table is an abstract function from a character and a glyph row to a byte
  (`Terminal.Font`). The signed-`char` indexing `ascfont + ch * 16` is therefore not modelled.
- Memory management is left out. This covers the injected `umalloc`/`ufree`, `uterm_destroy`,
  and the second allocation of `vtcontrol` (term/uterm.c:223, 226), which leaks the first.
- `init_uterm` never initialises `vtcontrol->status`, `params`, `param_count` or `command`. The
  constructor sets them to ground, zeros and NUL, so the model starts from the state the code
  evidently assumes.
- `uterm_draw_pix` has no bounds check and no caller in the core, so it is not modelled.
- `handle_vt100_command`'s cases A, B, C, D and K cannot be reached: `uterm_putc` only dispatches
  m, H and J (term/uterm.c:315). `Execute` and `HandleCommand` require a dispatched command.
- Unused state is left out: the dirty-row fields of `ubuffer_t`, `cuc_t`, the `bold`/`underline`
  flags, and the front cell buffer, which is zeroed at start-up and never read or written again.
- Uterm.Console.Putc: a backspace at column 0 in ground state is excluded (`PutcOk`). `cursorx`
  is unsigned, so `cursorx < 0` at term/uterm.c:154 never holds and the column wraps to
  0xFFFFFFFF. On row 0 the next `uterm_show_cursor` then reads outside the cell buffer
  (term/uterm.c:193). On any other row the byte blanks (0, y). `uterm_cell_putc` then refuses
  column -1 (term/uterm.c:265), and `uterm_putcursor` moves the cursor to column 0 of the next
  row, scrolling on the last row (term/uterm.c:172-178). The saved cursor is left outside the
  grid. The model does not capture this.
- Uterm.Console.Puts: requires `PutsOk`, the same exclusion applied to every byte of the string.
- Uterm.Console.HandleBackspace: models only the column > 0 branch, for the same reason.
- Uterm.Console.constructor: `init_uterm` never assigns `cursorx`, `cursory`, `cursor_visible` or
  `saved_cursor_cellx`/`saved_cursor_celly`. They are zero only through static initialisation
  (term/uterm.c:25-26, 31). The constructor, `Terminal.Init` and `TerminalFacts.InitState` set
  them to zero, so they match only the first call of `init_uterm` in a process.
- Uterm.Console.CsiByte: parameters are unbounded integers. A long digit run overflows C `int`
  at term/uterm.c:308, and that overflow is not modelled.
- Characters are Dafny `char` values. C's 8-bit signed `char` and its wrap-around are not
  modelled; only the recorded character and the font lookup depend on it.
