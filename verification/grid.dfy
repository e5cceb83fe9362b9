/** The 8x8 LED surface of the simulator: a grid of named colours that is
    written only through `SetPixel`, which ignores coordinates off the grid. */
module Grid {

  const ROWS := 8
  const COLS := 8

  /** The palette; the comment gives the colour code the program uses. */
  datatype Color =
    | Black    // "B", background
    | Green    // "G", leaves
    | Brown    // "BR", trunk and soil
    | Blue     // "BL", water
    | Gold     // "Y", seed
    | White    // "W", pot
    | Pink     // "S", first celebration colour
    | Cyan     // "T", second celebration colour

  predicate InBounds(r: int, c: int) {
    0 <= r < ROWS && 0 <= c < COLS
  }

  predicate IsGrid(g: seq<seq<Color>>) {
    |g| == ROWS && forall r :: 0 <= r < |g| ==> |g[r]| == COLS
  }

  /** Rows top to bottom, each row left to right. */
  type Grid = g: seq<seq<Color>> | IsGrid(g) witness seq(8, _ => seq(8, _ => Black))

  /** The grid as the window first shows it: every cell background. */
  const Blank: Grid := seq(8, _ => seq(8, _ => Black))

  /** Two grids with the same colour in every cell are the same grid. */
  lemma {:induction false} SameCells(a: Grid, b: Grid)
    requires forall r, c :: InBounds(r, c) ==> a[r][c] == b[r][c]
    ensures a == b
  {
    forall r | 0 <= r < ROWS
      ensures a[r] == b[r]
    {
      assert forall c :: 0 <= c < COLS ==> a[r][c] == b[r][c];
    }
  }

  /** `set_pixel`: recolours cell (r, c) when it lies on the grid and is a
      no-op otherwise. */
  function SetPixel(g: Grid, r: int, c: int, color: Color): (g': Grid)
    ensures !InBounds(r, c) ==> g' == g
    ensures InBounds(r, c) ==> g'[r][c] == color
    ensures forall R, C :: InBounds(R, C) && (R != r || C != c) ==> g'[R][C] == g[R][C]
  {
    if 0 <= r < ROWS && 0 <= c < COLS then g[r := g[r][c := color]] else g
  }

  /** A whole-grid pass that sets every cell (r, c) to f(r, c), as `clear`, `draw_soil` and the flash
      perform it: every coordinate is on the grid, so every cell ends up
      holding its colour under f, whatever the grid showed before. */
  function Paint(f: (int, int) -> Color): (g': Grid)
    ensures forall R, C :: InBounds(R, C) ==> g'[R][C] == f(R, C)
  {
    seq(ROWS, r => seq(COLS, c => f(r, c)))
  }

  /** Every cell set to one colour (the body of one flash frame). */
  function Fill(g: Grid, color: Color): (g': Grid)
    ensures forall R, C :: InBounds(R, C) ==> g'[R][C] == color
  {
    Paint((_, _) => color)
  }

  /** `clear`: every cell back to background, whatever was shown. */
  function Clear(g: Grid): (g': Grid)
    ensures forall R, C :: InBounds(R, C) ==> g'[R][C] == Black
  {
    Paint((_, _) => Black)
  }

  /** After `clear` the screen is the start-up screen, so nothing drawn
      before a `clear` can show through afterwards. */
  lemma ClearIsBlank(g: Grid)
    ensures Clear(g) == Blank
  {
    SameCells(Clear(g), Blank);
  }
}
