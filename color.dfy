/** The colour model of term/uterm.c: the eight-entry ANSI palette and its "bright" variant. */
module Color {

  /** Palette index of the eight basic colours (enum ansi_color in include/ansi.h). */
  const Black := 0
  const Red := 1
  const Green := 2
  const Yellow := 3
  const Blue := 4
  const Magenta := 5
  const Cyan := 6
  const White := 7

  /** Byte `k` of a packed pixel, counted from the least significant byte (k = 3 is the top byte). */
  function Channel(c: bv32, k: nat): bv8
    requires k < 4
  {
    var shifted := if k == 0 then c else if k == 1 then c >> 8 else if k == 2 then c >> 16 else c >> 24;
    (shifted & 0xFF) as bv8
  }

  /**
   * The fixed palette, packed as 0xRRGGBBAA: bit 0 of the index turns red fully on, bit 1
   * green and bit 2 blue, and every entry is opaque.
   */
  function BaseColor(index: int): (r: bv32)
    requires 0 <= index < 8
    ensures Channel(r, 3) == if index % 2 == 1 then 0xFF else 0
    ensures Channel(r, 2) == if (index / 2) % 2 == 1 then 0xFF else 0
    ensures Channel(r, 1) == if index >= 4 then 0xFF else 0
    ensures Channel(r, 0) == 0xFF
  {
    if index == Black then 0x0000_00FF
    else if index == Red then 0xFF00_00FF
    else if index == Green then 0x00FF_00FF
    else if index == Yellow then 0xFFFF_00FF
    else if index == Blue then 0x0000_FFFF
    else if index == Magenta then 0xFF00_FFFF
    else if index == Cyan then 0x00FF_FFFF
    else 0xFFFF_FFFF
  }

  /**
   * `ansi_to_rgba`: the palette entry, and for the bright variant the entry with 0x80 or-ed
   * into each of its three low bytes while the top byte is kept. In the 0xRRGGBBAA packing
   * that raises green, blue and alpha and leaves red as it is.
   */
  function AnsiToRgba(index: int, bright: bool): (r: bv32)
    requires 0 <= index < 8
    ensures Channel(r, 3) == Channel(BaseColor(index), 3)
    ensures Channel(r, 2) == Channel(BaseColor(index), 2) | (if bright then 0x80 else 0)
    ensures Channel(r, 1) == Channel(BaseColor(index), 1) | (if bright then 0x80 else 0)
    ensures Channel(r, 0) == Channel(BaseColor(index), 0) | (if bright then 0x80 else 0)
  {
    var color := BaseColor(index);
    if bright then
      (color & 0xFF00_0000)
      | ((((color >> 16) & 0xFF) | 0x80) << 16)
      | ((((color >> 8) & 0xFF) | 0x80) << 8)
      | ((color & 0xFF) | 0x80)
    else
      color
  }

  /** Default foreground (white) and background (black) of a reset. */
  const DefaultFg: bv32 := 0xFFFF_FFFF
  const DefaultBg: bv32 := 0x0000_00FF

  /** The reset colours are palette white and palette black. */
  lemma DefaultColors()
    ensures AnsiToRgba(White, false) == DefaultFg && AnsiToRgba(Black, false) == DefaultBg
  {
  }

  /**
   * The bright variant is the palette entry with the top bit of each of its three low bytes
   * set: `0x0080_8080` or-ed in.
   */
  lemma BrightIsOr(index: int)
    requires 0 <= index < 8
    ensures AnsiToRgba(index, true) == BaseColor(index) | 0x0080_8080
  {
  }
}
