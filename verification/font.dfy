/** The 3x5 bitmap font and `draw_char_3x5`, which rasterises one glyph
    with its top-left corner at (1, x) and clips it to the grid. */
module Font {
  import opened Grid

  /** Each glyph is five rows of three bits, top row first; '1' is lit. */
  const FONT_3x5: map<char, seq<string>> := map[
    'A' := ["010", "101", "111", "101", "101"],
    'B' := ["110", "101", "110", "101", "110"],
    'C' := ["011", "100", "100", "100", "011"],
    'E' := ["111", "100", "111", "100", "111"],
    'H' := ["101", "101", "111", "101", "101"],
    'K' := ["101", "110", "100", "110", "101"],
    'N' := ["101", "111", "111", "101", "101"],
    'O' := ["010", "101", "101", "101", "010"],
    'R' := ["110", "101", "110", "101", "101"],
    'S' := ["011", "100", "010", "001", "110"],
    'T' := ["111", "010", "010", "010", "010"],
    'U' := ["101", "101", "101", "101", "111"],
    'W' := ["101", "101", "101", "111", "101"],
    'Y' := ["101", "101", "010", "010", "010"],
    ' ' := ["000", "000", "000", "000", "000"]
  ]

  /** Glyph rows and columns; the row of a glyph lands on grid row 1 + i. */
  const GLYPH_ROWS := 5
  const GLYPH_COLS := 3

  /** Bit (i, j) of pattern p exists and is '1'. */
  predicate Lights(p: seq<string>, i: int, j: int) {
    0 <= i < |p| && 0 <= j < |p[i]| && p[i][j] == '1'
  }

  /** The glyph of a character, falling back to the space glyph for a
      character the font lacks. Every glyph, including the
      fallback, is GLYPH_ROWS rows of GLYPH_COLS bits, so a glyph only ever
      lights cells in grid rows 1..5 and in the three columns x .. x + 2;
      a character without a glyph lights nothing. */
  function Glyph(ch: char): (p: seq<string>)
    ensures |p| == GLYPH_ROWS
    ensures forall i :: 0 <= i < GLYPH_ROWS ==> |p[i]| == GLYPH_COLS
    ensures ch !in FONT_3x5 ==> forall i, j :: !Lights(p, i, j)
  {
    if ch in FONT_3x5 then FONT_3x5[ch] else FONT_3x5[' ']
  }

  /** The space glyph, which is also every unknown character's glyph, lights
      nothing. */
  lemma BlankGlyphIsDark(i: int, j: int)
    ensures !Lights(FONT_3x5[' '], i, j)
  {
  }

  /** The inner loop of `draw_char_3x5` over bits c.. of one glyph row drawn
      at grid row rowPos: each '1' at an on-grid column x + c is set. */
  function DrawBits(g: Grid, bits: string, c: nat, rowPos: int, x: int, color: Color): (g': Grid)
    requires c <= |bits|
    ensures forall R, C :: InBounds(R, C) ==>
      g'[R][C] == if R == rowPos && c <= C - x < |bits| && bits[C - x] == '1' then color else g[R][C]
    decreases |bits| - c
  {
    if c == |bits| then g
    else
      var col := x + c;
      var next := if bits[c] == '1' && 0 <= col < COLS && 0 <= rowPos < ROWS
                  then SetPixel(g, rowPos, col, color) else g;
      DrawBits(next, bits, c + 1, rowPos, x, color)
  }

  /** The outer loop of `draw_char_3x5` over glyph rows i.., row i landing
      on grid row 1 + i. */
  function DrawGlyphRows(g: Grid, p: seq<string>, i: nat, x: int, color: Color): (g': Grid)
    requires i <= |p|
    ensures forall R, C :: InBounds(R, C) ==>
      g'[R][C] == if i <= R - 1 && Lights(p, R - 1, C - x) then color else g[R][C]
    decreases |p| - i
  {
    if i == |p| then g
    else DrawGlyphRows(DrawBits(g, p[i], 0, 1 + i, x, color), p, i + 1, x, color)
  }

  /** `draw_char_3x5`: cell (R, C) takes the colour exactly when the glyph
      of ch has a lit bit at (R - 1, C - x); every other cell, including
      the parts of the glyph that fall off the grid, is left as it was. */
  function DrawChar(g: Grid, ch: char, color: Color, x: int): (g': Grid)
    ensures forall R, C :: InBounds(R, C) ==>
      g'[R][C] == if Lights(Glyph(ch), R - 1, C - x) then color else g[R][C]
  {
    DrawGlyphRows(g, Glyph(ch), 0, x, color)
  }

  /** A character outside the font draws nothing at all. */
  lemma UnknownCharDrawsNothing(g: Grid, ch: char, color: Color, x: int)
    requires ch !in FONT_3x5
    ensures DrawChar(g, ch, color, x) == g
  {
    forall R, C | InBounds(R, C)
      ensures DrawChar(g, ch, color, x)[R][C] == g[R][C]
    {
      BlankGlyphIsDark(R - 1, C - x);
    }
    SameCells(DrawChar(g, ch, color, x), g);
  }
}
