/** `scroll_message`: the message, padded with three spaces on each side,
    is laid out as a strip of 3-column glyphs and slid left one grid column
    per frame across the soil. */
module Scroll {
  import opened Grid
  import opened Font
  import opened Drawing
  /** Spaces added on each side of the message before it scrolls. */
  const PADDING := "   "

  /** Python's upper-casing on ASCII: 'a'..'z' become 'A'..'Z', everything else is
      kept. */
  function Upper(s: string): (u: string)
    ensures |u| == |s|
    ensures forall i :: 0 <= i < |s| && !('a' <= s[i] <= 'z') ==> u[i] == s[i]
    ensures forall i :: 0 <= i < |s| ==> !('a' <= u[i] <= 'z')
    ensures forall i :: 0 <= i < |s| && 'a' <= s[i] <= 'z' ==>
      'A' <= u[i] <= 'Z' && u[i] as int - 'A' as int == s[i] as int - 'a' as int
  {
    seq(|s|, i requires 0 <= i < |s| =>
      if 'a' <= s[i] <= 'z' then (s[i] as int - 32) as char else s[i])
  }

  /** The message to scroll: the upper-cased message
      between three spaces on each side. The spaces are there so that the
      strip starts and ends with nine dark columns, more than the grid is
      wide: the text enters from the right edge and leaves at the left. */
  function Pad(message: string): (msg: string)
    ensures |msg| == |message| + 2 * |PADDING|
    ensures msg[|PADDING|..|msg| - |PADDING|] == Upper(message)
    ensures msg[..|PADDING|] == PADDING && msg[|msg| - |PADDING|..] == PADDING
    ensures forall R, m :: 0 <= m < GLYPH_COLS * |PADDING| ==> !StripLights(msg, R, m)
    ensures forall R, m :: GLYPH_COLS * (|msg| - |PADDING|) <= m ==> !StripLights(msg, R, m)
  {
    PADDING + Upper(message) + PADDING
  }

  /** Column m of the laid-out strip (glyph k occupies columns 3k .. 3k + 2)
      is lit in grid row R. */
  predicate StripLights(msg: string, R: int, m: int) {
    0 <= m < GLYPH_COLS * |msg| && Lights(Glyph(msg[m / GLYPH_COLS]), R - 1, m % GLYPH_COLS)
  }

  /** Some glyph msg[j], j >= i, drawn at x = 3j - offset, lights (R, C). */
  predicate Covered(msg: string, i: nat, R: int, C: int, offset: int)
    decreases |msg| - i
  {
    i < |msg| &&
    (Lights(Glyph(msg[i]), R - 1, C - (GLYPH_COLS * i - offset)) || Covered(msg, i + 1, R, C, offset))
  }

  /** Draws the characters of msg from index i on, character j at x = 3j -
      offset, so that neighbouring glyphs sit side by side. */
  function DrawText(g: Grid, msg: string, i: nat, color: Color, offset: int): (g': Grid)
    requires i <= |msg|
    ensures forall R, C :: InBounds(R, C) ==>
      g'[R][C] == if Covered(msg, i, R, C, offset) then color else g[R][C]
    decreases |msg| - i
  {
    if i == |msg| then g
    else DrawText(DrawChar(g, msg[i], color, GLYPH_COLS * i - offset), msg, i + 1, color, offset)
  }

  /** Because glyphs are exactly three columns wide and placed three
      columns apart, the glyphs drawn from index i on cover grid cell
      (R, C) exactly when strip column C + offset, at or right of glyph i,
      is lit. */
  lemma {:induction false} CoveredByColumn(msg: string, i: nat, R: int, C: int, offset: int)
    requires i <= |msg|
    ensures Covered(msg, i, R, C, offset) <==>
      GLYPH_COLS * i <= C + offset && StripLights(msg, R, C + offset)
    decreases |msg| - i
  {
    var m := C + offset;
    if i < |msg| {
      CoveredByColumn(msg, i + 1, R, C, offset);
      if GLYPH_COLS * i <= m < GLYPH_COLS * i + GLYPH_COLS {
        assert m / GLYPH_COLS == i && m % GLYPH_COLS == m - GLYPH_COLS * i;
      }
    }
  }

  /** The soil of each scroll frame: every cell of the bottom row turns
      brown. */
  function SoilRow(g: Grid): (g': Grid)
    ensures forall C :: 0 <= C < COLS ==> g'[SOIL_ROW][C] == Brown
    ensures forall R, C :: InBounds(R, C) && R != SOIL_ROW ==> g'[R][C] == g[R][C]
  {
    g[SOIL_ROW := seq(COLS, _ => Brown)]
  }

  /** One scroll frame: clear, soil, then every
      glyph of the padded message shifted left by `offset` columns. */
  function ScrollFrame(g: Grid, msg: string, color: Color, offset: int): (f: Grid)
    ensures forall R, C :: InBounds(R, C) ==>
      f[R][C] == if Covered(msg, 0, R, C, offset) then color else if R == SOIL_ROW then Brown else Black
  {
    DrawText(SoilRow(Clear(g)), msg, 0, color, offset)
  }

  /** A scroll frame, cell by cell: the strip column under grid column C is
      C + offset; lit strip bits show in the message colour, the bottom row
      is soil and the rest is background. The glyphs are five rows tall, so
      they never reach the soil row or row 0. */
  lemma ScrollFrameCells(g: Grid, msg: string, color: Color, offset: int)
    ensures forall R, C :: InBounds(R, C) ==>
      ScrollFrame(g, msg, color, offset)[R][C] ==
        if StripLights(msg, R, C + offset) then color else if R == SOIL_ROW then Brown else Black
    ensures forall R, C :: InBounds(R, C) && StripLights(msg, R, C + offset) ==> 1 <= R <= GLYPH_ROWS
  {
    forall R, C | InBounds(R, C)
      ensures ScrollFrame(g, msg, color, offset)[R][C] ==
        if StripLights(msg, R, C + offset) then color else if R == SOIL_ROW then Brown else Black
      ensures StripLights(msg, R, C + offset) ==> 1 <= R <= GLYPH_ROWS
    {
      CoveredByColumn(msg, 0, R, C, offset);
    }
  }

  /** Scroll frame `offset` of the laid-out strip as a whole picture: lit
      strip bits in the message colour, the soil row, background elsewhere. */
  function ScrollPicture(msg: string, color: Color, offset: int): (g: Grid)
    ensures forall R, C :: InBounds(R, C) ==>
      g[R][C] == if StripLights(msg, R, C + offset) then color else if R == SOIL_ROW then Brown else Black
  {
    Paint((R, C) => if StripLights(msg, R, C + offset) then color else if R == SOIL_ROW then Brown else Black)
  }

  /** `scroll_message`: one frame per offset 0 .. 3 * |msg| - COLS, so the
      padded strip slides until its last column reaches the right edge. */
  function ScrollMessage(g: Grid, message: string, color: Color): (frames: seq<Grid>)
    ensures |frames| == GLYPH_COLS * (|message| + 2 * |PADDING|) - COLS + 1
  {
    var msg := Pad(message);
    seq(GLYPH_COLS * |msg| - COLS + 1, offset => ScrollFrame(g, msg, color, offset))
  }

  /** Frame k of `scroll_message` shows the strip of the padded,
      upper-cased message from column k on: lit bits in the message colour,
      the soil row, background elsewhere. What was on screen before the
      stage never shows through. */
  lemma ScrollMessageFrames(g: Grid, message: string, color: Color)
    ensures forall k, R, C :: 0 <= k < |ScrollMessage(g, message, color)| && InBounds(R, C) ==>
      ScrollMessage(g, message, color)[k][R][C] ==
        if StripLights(Pad(message), R, C + k) then color else if R == SOIL_ROW then Brown else Black
  {
    forall k | 0 <= k < |ScrollMessage(g, message, color)|
      ensures forall R, C :: InBounds(R, C) ==>
        ScrollMessage(g, message, color)[k][R][C] ==
          if StripLights(Pad(message), R, C + k) then color else if R == SOIL_ROW then Brown else Black
    {
      ScrollFrameCells(g, Pad(message), color, k);
    }
  }

  /** Frame k of `scroll_message` is the strip picture at offset k,
      whatever was on screen before. */
  lemma ScrollMessagePicture(g: Grid, message: string, color: Color, k: nat)
    requires k < |ScrollMessage(g, message, color)|
    ensures ScrollMessage(g, message, color)[k] == ScrollPicture(Pad(message), color, k)
  {
    assert ScrollMessage(g, message, color)[k] == ScrollFrame(g, Pad(message), color, k);
    ScrollFrameIsPicture(g, Pad(message), color, k);
  }

  /** One scroll frame is the strip picture at its offset. */
  lemma ScrollFrameIsPicture(g: Grid, msg: string, color: Color, offset: int)
    ensures ScrollFrame(g, msg, color, offset) == ScrollPicture(msg, color, offset)
  {
    ScrollFrameCells(g, msg, color, offset);
    SameCells(ScrollFrame(g, msg, color, offset), ScrollPicture(msg, color, offset));
  }

  /** Thanks to the padding, the first and the last frame of
      `scroll_message` show no text at all, only the soil row. */
  lemma ScrollStartsAndEndsDark(g: Grid, message: string, color: Color)
    ensures forall R, C :: InBounds(R, C) ==>
      ScrollMessage(g, message, color)[0][R][C] == if R == SOIL_ROW then Brown else Black
    ensures var last := |ScrollMessage(g, message, color)| - 1;
      forall R, C :: InBounds(R, C) ==>
        ScrollMessage(g, message, color)[last][R][C] == if R == SOIL_ROW then Brown else Black
  {
    var last := |ScrollMessage(g, message, color)| - 1;
    ScrollMessagePicture(g, message, color, 0);
    ScrollMessagePicture(g, message, color, last);
  }

  /** The second frame shows the same soil-only picture as the first: the
      padding is nine columns wide, one more than the grid, so two offsets
      pass before any text shows. Each is still a frame of its own. */
  lemma ScrollOpensWithTwoDarkFrames(g: Grid, message: string, color: Color)
    ensures |ScrollMessage(g, message, color)| >= 2
    ensures ScrollMessage(g, message, color)[1] == ScrollMessage(g, message, color)[0]
  {
    OpeningPicturesAgree(message, color);
    ScrollMessagePicture(g, message, color, 0);
    ScrollMessagePicture(g, message, color, 1);
  }

  /** Strip offsets 0 and 1 both show leading padding only. */
  lemma OpeningPicturesAgree(message: string, color: Color)
    ensures ScrollPicture(Pad(message), color, 1) == ScrollPicture(Pad(message), color, 0)
  {
    var msg := Pad(message);
    forall R, C | InBounds(R, C)
      ensures ScrollPicture(msg, color, 1)[R][C] == ScrollPicture(msg, color, 0)[R][C]
    {
      assert !StripLights(msg, R, C + 1) && !StripLights(msg, R, C);
    }
    SameCells(ScrollPicture(msg, color, 1), ScrollPicture(msg, color, 0));
  }

  /** Likewise the last but one frame shows the same soil-only picture as
      the last one. */
  lemma ScrollClosesWithTwoDarkFrames(g: Grid, message: string, color: Color)
    ensures |ScrollMessage(g, message, color)| >= 2
    ensures var last := |ScrollMessage(g, message, color)| - 1;
      ScrollMessage(g, message, color)[last - 1] == ScrollMessage(g, message, color)[last]
  {
    var msg := Pad(message);
    var last := |ScrollMessage(g, message, color)| - 1;
    ScrollMessagePicture(g, message, color, last - 1);
    ScrollMessagePicture(g, message, color, last);
    forall R, C | InBounds(R, C)
      ensures ScrollPicture(msg, color, last - 1)[R][C] == ScrollPicture(msg, color, last)[R][C]
    {
      assert !StripLights(msg, R, C + last - 1) && !StripLights(msg, R, C + last);
    }
    SameCells(ScrollPicture(msg, color, last - 1), ScrollPicture(msg, color, last));
  }

  /** In every scroll frame the whole bottom row is soil, and any other
      cell that is not background lies in rows 1..5 and shows the message
      colour. */
  lemma ScrollFramesStayInTextRows(g: Grid, message: string, color: Color, k: int, R: int, C: int)
    requires 0 <= k < |ScrollMessage(g, message, color)| && InBounds(R, C)
    ensures R == SOIL_ROW ==> ScrollMessage(g, message, color)[k][R][C] == Brown
    ensures R != SOIL_ROW && ScrollMessage(g, message, color)[k][R][C] != Black ==>
      1 <= R <= GLYPH_ROWS && ScrollMessage(g, message, color)[k][R][C] == color
  {
    assert ScrollMessage(g, message, color)[k] == ScrollFrame(g, Pad(message), color, k);
    ScrollFrameCells(g, Pad(message), color, k);
  }

  /** The two messages the program scrolls: 38 frames for "THANK YOU" and
      29 for "WASTED". */
  lemma MessageFrameCounts(g: Grid)
    ensures |ScrollMessage(g, "THANK YOU", Green)| == 38
    ensures |ScrollMessage(g, "WASTED", Blue)| == 29
  {
  }

  /** The font has no glyph for 'D', so the last letter of "WASTED" falls
      back to the blank glyph: its three strip columns never light. */
  lemma WastedEndsInBlank(R: int, m: int)
    requires GLYPH_COLS * 8 <= m < GLYPH_COLS * 9
    ensures !StripLights(Pad("WASTED"), R, m)
  {
    assert Pad("WASTED")[8] == 'D';
    BlankGlyphIsDark(R - 1, m % GLYPH_COLS);
  }
}
