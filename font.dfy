// Font lookup and glyph bit extraction (bitsflow_image.c, font helpers).
//
// The font itself is supplied by the board (bitsflow_hal_get_font_data) and is
// modelled as a finite map from characters to five row bytes; the only thing
// relied upon is that it has an entry for '?'.

module Font {
  import Screen

  type Byte = b: int | 0 <= b < 256

  /** Five row bytes; bit (4 - x) of row y is the pixel in column x. */
  type Glyph = g: seq<Byte> | |g| == 5 witness [0, 0, 0, 0, 0]

  const BlankGlyph: Glyph := [0, 0, 0, 0, 0]

  const DefaultFont: map<char, Glyph> := map['?' := BlankGlyph]

  type FontTable = f: map<char, Glyph> | '?' in f witness DefaultFont

  /** get_font_data_from_char: the glyph of c, or the glyph of '?' when c has none. */
  function GlyphData(font: FontTable, c: char): (g: Glyph)
  {
    if c in font then font[c] else font['?']
  }

  lemma GlyphFallback(font: FontTable, c: char)
    ensures c !in font ==> GlyphData(font, c) == font['?']
    ensures c in font ==> GlyphData(font, c) == font[c]
    ensures GlyphData(font, c) in font.Values
  {
  }

  function Pow2(k: nat): (r: nat)
    ensures r >= 1
  {
    if k == 0 then 1 else 2 * Pow2(k - 1)
  }

  /** get_pixel_from_font_data: (data[y] >> (4 - x)) & 1, on the byte as the C code does. */
  function FontPixel(g: Glyph, x: int, y: int): (r: int)
    requires 0 <= x < Screen.W && 0 <= y < Screen.H
    ensures r == 0 || r == 1
  {
    (((g[y] as bv8) >> (4 - x)) & 1) as int
  }

  /** The shift-and-mask reads bit (4 - x) of the row, most significant of the five first. */
  lemma FontPixelIsBit(g: Glyph, x: int, y: int)
    requires 0 <= x < Screen.W && 0 <= y < Screen.H
    ensures FontPixel(g, x, y) == (g[y] / Pow2(4 - x)) % 2
  {
    if x == 0 { } else if x == 1 { } else if x == 2 { } else if x == 3 { } else { }
  }

  /** Column col of the glyph has at least one lit pixel. */
  predicate ColumnLit(g: Glyph, col: int)
    requires 0 <= col < Screen.W
  {
    exists y :: 0 <= y < Screen.H && FontPixel(g, col, y) == 1
  }

  /** font_column_non_blank: scan the rows of column col for a lit pixel. */
  method FontColumnNonBlank(g: Glyph, col: int) returns (r: int)
    requires 0 <= col < Screen.W
    ensures r == 0 || r == 1
    ensures r == 1 <==> ColumnLit(g, col)
  {
    var y := 0;
    while y < Screen.H
      invariant 0 <= y <= Screen.H
      invariant forall k :: 0 <= k < y ==> FontPixel(g, col, k) == 0
    {
      if FontPixel(g, col, y) == 1 {
        return 1;
      }
      y := y + 1;
    }
    return 0;
  }

  /** rightmost_non_blank_column: the rightmost lit column among 4 and 3, else 2. */
  function Rightmost(g: Glyph): (r: int)
  {
    if ColumnLit(g, 4) then 4 else if ColumnLit(g, 3) then 3 else 2
  }

  /** The result is the last lit column when it is 3 or 4, every column to its
    * right is blank, and it is never left of column 2. */
  lemma RightmostIsLastLitColumn(g: Glyph)
    ensures 2 <= Rightmost(g) <= 4
    ensures forall c :: Rightmost(g) < c < Screen.W ==> !ColumnLit(g, c)
    ensures Rightmost(g) > 2 ==> ColumnLit(g, Rightmost(g))
    ensures ColumnLit(g, 3) || ColumnLit(g, 4) <==> Rightmost(g) > 2
  {
  }

  method RightmostNonBlankColumn(g: Glyph) returns (r: int)
    ensures r == Rightmost(g)
    ensures 2 <= r <= 4
  {
    var lit4 := FontColumnNonBlank(g, 4);
    if lit4 == 1 {
      return 4;
    }
    var lit3 := FontColumnNonBlank(g, 3);
    if lit3 == 1 {
      return 3;
    }
    return 2;
  }
}
