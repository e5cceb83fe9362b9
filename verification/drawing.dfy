/** The stage renderers of game.py as grid-to-grid functions, and the two
    multi-frame stages (`grow_tree`, `jig_jag_flash`) as the list of frames
    they hold on screen. */
module Drawing {
  import opened Maybe
  import opened Grid

  /** The bottom row, drawn as soil. */
  const SOIL_ROW := 7
  /** The row the seed sits in, just above the soil. */
  const SEED_ROW := 6
  /** Number of coloured frames of the flash: twelve passes over the grid. */
  const FLASH_FRAMES := 12

  /** `draw_soil`: brown bottom row, background everywhere else, and the
      seed in gold at (SEED_ROW, seedCol) when a column is given. */
  function DrawSoil(g: Grid, seedCol: Option<int>): (g': Grid)
    ensures forall C :: 0 <= C < COLS ==> g'[SOIL_ROW][C] == Brown
    ensures forall R, C :: InBounds(R, C) && R != SOIL_ROW ==>
      g'[R][C] == if R == SEED_ROW && seedCol == Some(C) then Gold else Black
  {
    var soil := Paint((r, _) => if r == SOIL_ROW then Brown else Black);
    match seedCol
    case None => soil
    case Some(s) => SetPixel(soil, SEED_ROW, s, Gold)
  }

  /** `draw_pot`: two white cells (0, potCol) and (0, potCol + 1), each only
      where it is on the grid; nothing else changes. */
  function DrawPot(g: Grid, potCol: int): (g': Grid)
    ensures InBounds(0, potCol) ==> g'[0][potCol] == White
    ensures InBounds(0, potCol + 1) ==> g'[0][potCol + 1] == White
    ensures forall R, C :: InBounds(R, C) && !(R == 0 && (C == potCol || C == potCol + 1)) ==>
      g'[R][C] == g[R][C]
  {
    SetPixel(SetPixel(g, 0, potCol, White), 0, potCol + 1, White)
  }

  /** `draw_drop`: the droplet in blue at row y of column dropCol. */
  function DrawDrop(g: Grid, dropCol: int, y: int): (g': Grid)
    ensures InBounds(y, dropCol) ==> g'[y][dropCol] == Blue
    ensures forall R, C :: InBounds(R, C) && (R != y || C != dropCol) ==> g'[R][C] == g[R][C]
  {
    SetPixel(g, y, dropCol, Blue)
  }

  /** The picture of growth stage `stage` of a tree rooted in column `col`,
      cell by cell: soil row, a trunk of `stage` cells (at most three)
      rising from the seed row, and from stage 3 a three-wide leaf row with
      one leaf on top. */
  function TreeColor(col: int, stage: int, R: int, C: int): Color {
    if R == SOIL_ROW then Brown
    else if C == col && SEED_ROW - stage < R <= SEED_ROW && R >= SEED_ROW - 2 then Brown
    else if stage >= 3 && R == 3 && col - 1 <= C <= col + 1 then Green
    else if stage >= 3 && R == 2 && C == col then Green
    else Black
  }

  /** Growth stage `stage` of the tree in column `col` as a whole picture. */
  function TreePicture(col: int, stage: int): (g: Grid)
    ensures forall R, C :: InBounds(R, C) ==> g[R][C] == TreeColor(col, stage, R, C)
  {
    Paint((R, C) => TreeColor(col, stage, R, C))
  }

  /** The cells of the leaf row that the clipping loop of stage 3 keeps. */
  function DrawLeaves(g: Grid, col: int): (g': Grid)
    ensures forall R, C :: InBounds(R, C) ==>
      g'[R][C] == if R == 3 && col - 1 <= C <= col + 1 then Green else g[R][C]
  {
    var g1 := if 0 <= col - 1 < COLS then SetPixel(g, 3, col - 1, Green) else g;
    var g2 := if 0 <= col < COLS then SetPixel(g1, 3, col, Green) else g1;
    if 0 <= col + 1 < COLS then SetPixel(g2, 3, col + 1, Green) else g2
  }

  /** One growth stage of `grow_tree`, for stage 1, 2 or 3: soil
      without seed, then the trunk cells and (from stage 3) the leaves. The
      frame does not depend on what was shown before. */
  function GrowStage(g: Grid, col: int, stage: int): (g': Grid)
    ensures forall R, C :: InBounds(R, C) ==> g'[R][C] == TreeColor(col, stage, R, C)
  {
    var g0 := DrawSoil(g, None);
    var g1 := if stage >= 1 then SetPixel(g0, SEED_ROW, col, Brown) else g0;
    var g2 := if stage >= 2 then SetPixel(g1, SEED_ROW - 1, col, Brown) else g1;
    if stage >= 3 then SetPixel(DrawLeaves(SetPixel(g2, SEED_ROW - 2, col, Brown), col), 2, col, Green)
    else g2
  }

  /** `grow_tree`: the three frames it holds, each drawn over the previous. */
  function GrowTree(g: Grid, col: int): (frames: seq<Grid>)
    ensures |frames| == 3
    ensures forall k, R, C :: 0 <= k < 3 && InBounds(R, C) ==>
      frames[k][R][C] == TreeColor(col, k + 1, R, C)
  {
    var s1 := GrowStage(g, col, 1);
    var s2 := GrowStage(s1, col, 2);
    var s3 := GrowStage(s2, col, 3);
    [s1, s2, s3]
  }

  /** The frames of `grow_tree` are the three stage pictures, whatever was
      on screen before. */
  lemma GrowTreePictures(g: Grid, col: int)
    ensures GrowTree(g, col) == [TreePicture(col, 1), TreePicture(col, 2), TreePicture(col, 3)]
  {
    var frames := GrowTree(g, col);
    SameCells(frames[0], TreePicture(col, 1));
    SameCells(frames[1], TreePicture(col, 2));
    SameCells(frames[2], TreePicture(col, 3));
  }

  /** The colour of flash frame i: "S" on even frames, "T" on odd ones. */
  function FlashColor(i: int): Color {
    if i % 2 == 0 then Pink else Cyan
  }

  /** Flash frames i .. FLASH_FRAMES - 1, each filling the whole grid, then
      the grid that `clear` leaves behind. */
  function FlashFrom(g: Grid, i: nat): (frames: seq<Grid>)
    requires i <= FLASH_FRAMES
    ensures |frames| == FLASH_FRAMES - i + 1
    ensures forall k, R, C :: 0 <= k < FLASH_FRAMES - i && InBounds(R, C) ==>
      frames[k][R][C] == FlashColor(i + k)
    ensures forall R, C :: InBounds(R, C) ==> frames[FLASH_FRAMES - i][R][C] == Black
    decreases FLASH_FRAMES - i
  {
    if i == FLASH_FRAMES then [Clear(g)]
    else
      var f := Fill(g, FlashColor(i));
      [f] + FlashFrom(f, i + 1)
  }

  /** `jig_jag_flash`: twelve whole-grid frames alternating pink and cyan,
      starting with pink, then a blank grid. */
  function JigJagFlash(g: Grid): (frames: seq<Grid>)
    ensures |frames| == FLASH_FRAMES + 1
    ensures forall k, R, C :: 0 <= k < FLASH_FRAMES && InBounds(R, C) ==>
      frames[k][R][C] == if k % 2 == 0 then Pink else Cyan
    ensures forall R, C :: InBounds(R, C) ==> frames[FLASH_FRAMES][R][C] == Black
  {
    FlashFrom(g, 0)
  }

  /** Flash frame i as a whole picture: every cell in FlashColor(i). */
  function FlashPicture(i: int): (g: Grid)
    ensures forall R, C :: InBounds(R, C) ==> g[R][C] == FlashColor(i)
  {
    Paint((_, _) => FlashColor(i))
  }

  /** Frame j < 12 of `jig_jag_flash` is flash picture j, and the frame
      after the twelfth is the blank grid, whatever was on screen before. */
  lemma JigJagFlashPicture(g: Grid, j: nat)
    requires j < FLASH_FRAMES
    ensures JigJagFlash(g)[j] == FlashPicture(j)
    ensures JigJagFlash(g)[FLASH_FRAMES] == Blank
  {
    SameCells(JigJagFlash(g)[j], FlashPicture(j));
    SameCells(JigJagFlash(g)[FLASH_FRAMES], Clear(g));
    ClearIsBlank(g);
  }
}
