/** The frames `simulate` holds on screen, in order: the opening scene, one
    frame per seed move, one per droplet row, then either the tree, the
    flash and "THANK YOU", or "WASTED". Delays are dropped; each held
    picture is one frame. */
module Animation {
  import opened Maybe
  import opened Grid
  import opened Drawing
  import opened Scroll
  import opened Simulation

  /** The picture of soil, seed and pot, cell by cell. */
  function SceneColor(seedCol: int, potCol: int, R: int, C: int): Color {
    if R == 0 && (C == potCol || C == potCol + 1) then White
    else if R == SOIL_ROW then Brown
    else if R == SEED_ROW && C == seedCol then Gold
    else Black
  }

  /** The soil, seed and pot scene as a whole picture. */
  function ScenePicture(seedCol: int, potCol: int): (g: Grid)
    ensures forall R, C :: InBounds(R, C) ==> g[R][C] == SceneColor(seedCol, potCol, R, C)
  {
    Paint((R, C) => SceneColor(seedCol, potCol, R, C))
  }

  /** The scene: the soil with the seed on it, then the pot drawn on top. */
  function Scene(g: Grid, seedCol: int, potCol: int): (g': Grid)
    ensures forall R, C :: InBounds(R, C) ==> g'[R][C] == SceneColor(seedCol, potCol, R, C)
  {
    DrawPot(DrawSoil(g, Some(seedCol)), potCol)
  }

  /** The seed loop's frames: after each of the n moves, the scene with the
      moved seed and the pot where it started. */
  function MoveFrames(g: Grid, s: Seed, potCol: int, n: nat): (frames: seq<Grid>)
    ensures |frames| == n
    ensures forall k, R, C :: 0 <= k < n && InBounds(R, C) ==>
      frames[k][R][C] == SceneColor(Oscillate(s, k + 1).col, potCol, R, C)
    decreases n
  {
    if n == 0 then []
    else
      var f := Scene(g, Step(s).col, potCol);
      [f] + MoveFrames(f, Step(s), potCol, n - 1)
  }

  /** The frames of one droplet falling from row y to LAST_DROP_ROW. */
  function FallFrames(g: Grid, seedCol: int, potCol: int, dropCol: int, y: int): (frames: seq<Grid>)
    requires FIRST_DROP_ROW <= y <= LAST_DROP_ROW + 1
    ensures |frames| == LAST_DROP_ROW + 1 - y
    ensures forall k, R, C :: 0 <= k < |frames| && InBounds(R, C) ==>
      frames[k][R][C] == if R == y + k && C == dropCol then Blue else SceneColor(seedCol, potCol, R, C)
    decreases LAST_DROP_ROW + 1 - y
  {
    if y == LAST_DROP_ROW + 1 then []
    else
      var f := DrawDrop(Scene(g, seedCol, potCol), dropCol, y);
      [f] + FallFrames(f, seedCol, potCol, dropCol, y + 1)
  }

  /** The frames of n droplets, one full fall after another. */
  function DropFrames(g: Grid, seedCol: int, potCol: int, dropCol: int, n: nat): (frames: seq<Grid>)
    ensures |frames| == FALL_FRAMES * n
    decreases n
  {
    if n == 0 then []
    else
      var fall := FallFrames(g, seedCol, potCol, dropCol, FIRST_DROP_ROW);
      fall + DropFrames(fall[|fall| - 1], seedCol, potCol, dropCol, n - 1)
  }

  /** The row the droplet is on in frame k of the droplet phase: each
      droplet falls through FALL_FRAMES rows before the next one starts. */
  function FallRow(k: nat): int
    decreases k
  {
    if k < FALL_FRAMES then FIRST_DROP_ROW + k else FallRow(k - FALL_FRAMES)
  }

  /** The droplet row cycles with period FALL_FRAMES: frame k is at row
      1 + k % 6. */
  lemma {:induction false} FallRowCycles(k: nat)
    ensures FallRow(k) == FIRST_DROP_ROW + k % FALL_FRAMES
    ensures FIRST_DROP_ROW <= FallRow(k) <= LAST_DROP_ROW
    decreases k
  {
    if k >= FALL_FRAMES {
      FallRowCycles(k - FALL_FRAMES);
      assert (k - FALL_FRAMES) % FALL_FRAMES == k % FALL_FRAMES;
    }
  }

  /** A frame index past the first fall is an index into the remaining
      droplets' frames. */
  lemma LaterDropIndex(k: nat, n: nat)
    requires FALL_FRAMES <= k < FALL_FRAMES * n
    ensures 1 <= n && k - FALL_FRAMES < FALL_FRAMES * (n - 1)
  {
  }

  /** The aligned scene with the droplet at (row, dropCol), as a whole
      picture. */
  function DropPicture(seedCol: int, potCol: int, dropCol: int, row: int): (g: Grid)
    ensures forall R, C :: InBounds(R, C) ==>
      g[R][C] == if R == row && C == dropCol then Blue else SceneColor(seedCol, potCol, R, C)
  {
    Paint((R, C) => if R == row && C == dropCol then Blue else SceneColor(seedCol, potCol, R, C))
  }

  /** Frame k of a fall from the top row shows the droplet on row 1 + k,
      whatever was on screen before. */
  lemma FallFramePicture(g: Grid, seedCol: int, potCol: int, dropCol: int, k: nat)
    requires k < FALL_FRAMES
    ensures FallFrames(g, seedCol, potCol, dropCol, FIRST_DROP_ROW)[k] ==
      DropPicture(seedCol, potCol, dropCol, FIRST_DROP_ROW + k)
  {
    SameCells(FallFrames(g, seedCol, potCol, dropCol, FIRST_DROP_ROW)[k],
      DropPicture(seedCol, potCol, dropCol, FIRST_DROP_ROW + k));
  }

  /** The pictures of one fall from the top row. */
  function FallPictures(seedCol: int, potCol: int, dropCol: int): (frames: seq<Grid>)
    ensures |frames| == FALL_FRAMES
  {
    seq<Grid>(FALL_FRAMES, j => DropPicture(seedCol, potCol, dropCol, FIRST_DROP_ROW + j))
  }

  /** The pictures of n falls, one after another. */
  function DropsPictures(seedCol: int, potCol: int, dropCol: int, n: nat): (frames: seq<Grid>)
    ensures |frames| == FALL_FRAMES * n
  {
    if n == 0 then [] else FallPictures(seedCol, potCol, dropCol) + DropsPictures(seedCol, potCol, dropCol, n - 1)
  }

  /** A fall from the top row shows the fall pictures, whatever was on
      screen before. */
  lemma FallFramesArePictures(g: Grid, seedCol: int, potCol: int, dropCol: int)
    ensures FallFrames(g, seedCol, potCol, dropCol, FIRST_DROP_ROW) == FallPictures(seedCol, potCol, dropCol)
  {
    forall k | 0 <= k < FALL_FRAMES
      ensures FallFrames(g, seedCol, potCol, dropCol, FIRST_DROP_ROW)[k] == FallPictures(seedCol, potCol, dropCol)[k]
    {
      FallFramePicture(g, seedCol, potCol, dropCol, k);
    }
  }

  /** The droplet phase shows the fall pictures n times over. */
  lemma {:induction false} DropFramesArePictures(g: Grid, seedCol: int, potCol: int, dropCol: int, n: nat)
    ensures DropFrames(g, seedCol, potCol, dropCol, n) == DropsPictures(seedCol, potCol, dropCol, n)
    decreases n
  {
    if n > 0 {
      var fall := FallFrames(g, seedCol, potCol, dropCol, FIRST_DROP_ROW);
      FallFramesArePictures(g, seedCol, potCol, dropCol);
      DropFramesArePictures(fall[|fall| - 1], seedCol, potCol, dropCol, n - 1);
    }
  }

  /** Picture k of n falls has the droplet on row FallRow(k). */
  lemma {:induction false} DropsPicturesAt(seedCol: int, potCol: int, dropCol: int, n: nat, k: nat)
    requires k < FALL_FRAMES * n
    ensures DropsPictures(seedCol, potCol, dropCol, n)[k] == DropPicture(seedCol, potCol, dropCol, FallRow(k))
    decreases n
  {
    if k >= FALL_FRAMES {
      LaterDropIndex(k, n);
      DropsPicturesAt(seedCol, potCol, dropCol, n - 1, k - FALL_FRAMES);
    }
  }

  /** Frame k of the droplet phase is the aligned scene with the droplet on
      row FallRow(k). On the last row of a hit the droplet covers the seed
      for that one frame. */
  lemma DropFramePicture(g: Grid, seedCol: int, potCol: int, dropCol: int, n: nat, k: nat)
    requires k < FALL_FRAMES * n
    ensures DropFrames(g, seedCol, potCol, dropCol, n)[k] == DropPicture(seedCol, potCol, dropCol, FallRow(k))
  {
    DropFramesArePictures(g, seedCol, potCol, dropCol, n);
    DropsPicturesAt(seedCol, potCol, dropCol, n, k);
  }

  /** No frame of the list shows any part of a tree: no leaf anywhere,
      and no brown cell (trunk) above the soil row. */
  ghost predicate Treeless(frames: seq<Grid>) {
    forall k, R, C :: 0 <= k < |frames| && InBounds(R, C) ==>
      frames[k][R][C] != Green && (R != SOIL_ROW ==> frames[k][R][C] != Brown)
  }

  lemma TreelessAppend(a: seq<Grid>, b: seq<Grid>)
    requires Treeless(a) && Treeless(b)
    ensures Treeless(a + b)
  {
    forall k | 0 <= k < |a + b|
      ensures (a + b)[k] == if k < |a| then a[k] else b[k - |a|]
    {
    }
  }

  /** The droplet frames never show any part of a tree. */
  lemma {:induction false} DropFramesTreeless(g: Grid, seedCol: int, potCol: int, dropCol: int, n: nat)
    ensures Treeless(DropFrames(g, seedCol, potCol, dropCol, n))
  {
    forall k | 0 <= k < FALL_FRAMES * n
      ensures DropFrames(g, seedCol, potCol, dropCol, n)[k] == DropPicture(seedCol, potCol, dropCol, FallRow(k))
    {
      DropFramePicture(g, seedCol, potCol, dropCol, n, k);
    }
  }

  /** The frames after the droplets: the tree grown at the hit column, the
      flash and "THANK YOU" in green; or "WASTED" in blue. */
  function Finale(g: Grid, hitPosition: Option<int>): (frames: seq<Grid>)
    ensures |frames| == if hitPosition.Some? then 3 + (FLASH_FRAMES + 1) + 38 else 29
    ensures hitPosition.Some? ==> frames[0] == TreePicture(hitPosition.value, 1)
    ensures hitPosition.Some? ==> frames[1] == TreePicture(hitPosition.value, 2)
    ensures hitPosition.Some? ==> frames[2] == TreePicture(hitPosition.value, 3)
  {
    match hitPosition
    case Some(p) =>
      Celebration(g, p)
    case None =>
      MessageFrameCounts(g);
      ScrollMessage(g, "WASTED", Blue)
  }

  /** The finale of a hit at column p: the tree grown at p, the flash, and
      "THANK YOU" in green. */
  function Celebration(g: Grid, p: int): (frames: seq<Grid>)
    ensures |frames| == 3 + (FLASH_FRAMES + 1) + 38
    ensures frames[0] == TreePicture(p, 1)
    ensures frames[1] == TreePicture(p, 2)
    ensures frames[2] == TreePicture(p, 3)
  {
    var tree := GrowTree(g, p);
    GrowTreePictures(g, p);
    var flash := JigJagFlash(tree[2]);
    MessageFrameCounts(flash[FLASH_FRAMES]);
    tree + flash + ScrollMessage(flash[FLASH_FRAMES], "THANK YOU", Green)
  }

  /** The "WASTED" finale shows no part of a tree: its cells are the blue
      message, the soil row and background. */
  lemma WastedFinaleTreeless(g: Grid)
    ensures Treeless(Finale(g, None))
  {
    ScrollMessageFrames(g, "WASTED", Blue);
  }

  /** Index of the first frame after the droplets. */
  function FinaleStart(steps: nat): nat {
    1 + steps + FALL_FRAMES * DROPS
  }

  /** The opening scene followed by one frame per seed move. */
  function Opening(g: Grid, start: Seed, steps: nat): (frames: seq<Grid>)
    ensures |frames| == 1 + steps
  {
    var first := Scene(g, start.col, START_POT_COL);
    [first] + MoveFrames(first, start, START_POT_COL, steps)
  }

  /** The droplet frames, drawn over g, once the seed has made `steps`
      moves from `start` and the pot has been aligned. */
  function DropPhase(g: Grid, start: Seed, steps: nat): (frames: seq<Grid>)
    ensures |frames| == FALL_FRAMES * DROPS
  {
    var o := SimulateFrom(start, steps);
    DropFrames(g, o.seed.col, o.potCol, o.dropCol, DROPS)
  }

  /** The frames before the finale: the opening scene, the seed moves and
      the droplets. */
  function Lead(g: Grid, start: Seed, steps: nat): (frames: seq<Grid>)
    ensures |frames| == FinaleStart(steps)
  {
    var opening := Opening(g, start, steps);
    opening + DropPhase(opening[steps], start, steps)
  }

  /** The seed moves never show any part of a tree. */
  lemma MovesTreeless(g: Grid, s: Seed, potCol: int, n: nat)
    ensures Treeless(MoveFrames(g, s, potCol, n))
  {
  }

  /** No frame before the finale shows any part of a tree. */
  lemma LeadTreeless(g: Grid, start: Seed, steps: nat)
    ensures Treeless(Lead(g, start, steps))
  {
    var first := Scene(g, start.col, START_POT_COL);
    var opening := Opening(g, start, steps);
    var o := SimulateFrom(start, steps);
    assert Treeless([first]);
    MovesTreeless(first, start, START_POT_COL, steps);
    TreelessAppend([first], MoveFrames(first, start, START_POT_COL, steps));
    DropFramesTreeless(opening[steps], o.seed.col, o.potCol, o.dropCol, DROPS);
    TreelessAppend(opening, DropPhase(opening[steps], start, steps));
  }

  /** Every frame `simulate` holds, starting from whatever grid g was on
      screen. */
  function RunFrames(g: Grid, start: Seed, steps: nat): (frames: seq<Grid>)
    ensures |frames| == FinaleStart(steps) +
      if SimulateFrom(start, steps).branch == GrowAndCelebrate then 3 + (FLASH_FRAMES + 1) + 38 else 29
  {
    var lead := Lead(g, start, steps);
    lead + Finale(lead[|lead| - 1], SimulateFrom(start, steps).hitPosition)
  }

  /** Frame j of the finale (j < 29, or j < 54 after a hit) is frame
      FinaleStart + j of the run. */
  lemma FinaleFrame(g: Grid, start: Seed, steps: nat, j: nat)
    requires j < 29 || (j < 54 && SimulateFrom(start, steps).branch == GrowAndCelebrate)
    ensures var lead := Lead(g, start, steps);
      RunFrames(g, start, steps)[FinaleStart(steps) + j] ==
        Finale(lead[|lead| - 1], SimulateFrom(start, steps).hitPosition)[j]
  {
  }

  /** Frame k of the run before the finale is frame k of the lead. */
  lemma LeadFrame(g: Grid, start: Seed, steps: nat, k: nat)
    requires k < FinaleStart(steps)
    ensures RunFrames(g, start, steps)[k] == Lead(g, start, steps)[k]
  {
  }

  /** When a droplet hits, the three frames after the droplets are the
      growth stages of the tree at the recorded hit column. */
  lemma CelebrationGrowsTreeAtHit(g: Grid, start: Seed, steps: nat)
    requires SimulateFrom(start, steps).branch == GrowAndCelebrate
    ensures var p := SimulateFrom(start, steps).hitPosition.value;
      RunFrames(g, start, steps)[FinaleStart(steps)] == TreePicture(p, 1) &&
      RunFrames(g, start, steps)[FinaleStart(steps) + 1] == TreePicture(p, 2) &&
      RunFrames(g, start, steps)[FinaleStart(steps) + 2] == TreePicture(p, 3)
  {
    FinaleFrame(g, start, steps, 0);
    FinaleFrame(g, start, steps, 1);
    FinaleFrame(g, start, steps, 2);
  }

  /** From a bouncing seed the run always takes the celebration branch:
      54 frames follow the droplets, the first three growing the tree in
      the column where the seed came to rest. */
  lemma BouncingRunGrowsTree(g: Grid, start: Seed, steps: nat)
    requires Bouncing(start)
    ensures |RunFrames(g, start, steps)| == FinaleStart(steps) + 54
    ensures var p := Oscillate(start, steps).col;
      RunFrames(g, start, steps)[FinaleStart(steps)] == TreePicture(p, 1) &&
      RunFrames(g, start, steps)[FinaleStart(steps) + 1] == TreePicture(p, 2) &&
      RunFrames(g, start, steps)[FinaleStart(steps) + 2] == TreePicture(p, 3)
  {
    BouncingSeedIsAlwaysHit(start, steps);
    CelebrationGrowsTreeAtHit(g, start, steps);
  }

  /** The program's run holds 93 frames, and frames 39..41 are the three
      growth stages of a tree in column 2, the column of the first hit. */
  lemma ProgramFrames(g: Grid)
    ensures |RunFrames(g, START_SEED, SEED_MOVE_STEPS)| == 93
    ensures RunFrames(g, START_SEED, SEED_MOVE_STEPS)[39] == TreePicture(2, 1)
    ensures RunFrames(g, START_SEED, SEED_MOVE_STEPS)[40] == TreePicture(2, 2)
    ensures RunFrames(g, START_SEED, SEED_MOVE_STEPS)[41] == TreePicture(2, 3)
  {
    SeedAfterMoving();
    BouncingRunGrowsTree(g, START_SEED, SEED_MOVE_STEPS);
  }

  /** When no droplet hits, no frame of the whole run shows any part of a
      tree, neither leaf nor trunk: the tree is never drawn. */
  lemma WastedRunDrawsNoTree(g: Grid, start: Seed, steps: nat)
    requires SimulateFrom(start, steps).branch == Wasted
    ensures Treeless(RunFrames(g, start, steps))
  {
    var lead := Lead(g, start, steps);
    LeadTreeless(g, start, steps);
    WastedFinaleTreeless(lead[|lead| - 1]);
    TreelessAppend(lead, Finale(lead[|lead| - 1], None));
  }

  /** A restart replays the same animation: the frames do not depend on
      what the screen showed before `simulate` began. */
  lemma RestartReplays(g1: Grid, g2: Grid, start: Seed, steps: nat)
    ensures RunFrames(g1, start, steps) == RunFrames(g2, start, steps)
  {
    LeadReplays(g1, g2, start, steps);
  }

  /** The opening scene, and so every frame before the finale, does not
      depend on the grid it is drawn over. */
  lemma LeadReplays(g1: Grid, g2: Grid, start: Seed, steps: nat)
    ensures Lead(g1, start, steps) == Lead(g2, start, steps)
  {
    SameCells(Scene(g1, start.col, START_POT_COL), Scene(g2, start.col, START_POT_COL));
  }

  // ---------- Each stage at its place in the run ----------

  /** Finale frames 3 .. 14 after a hit are the twelve flash pictures,
      and frame 15 is the blank grid. */
  lemma FinaleFlashes(g: Grid, hitPosition: Option<int>, j: nat)
    requires hitPosition.Some? && 3 <= j < 3 + FLASH_FRAMES
    ensures Finale(g, hitPosition)[j] == FlashPicture(j - 3)
    ensures Finale(g, hitPosition)[3 + FLASH_FRAMES] == Blank
  {
    var tree := GrowTree(g, hitPosition.value);
    var flash := JigJagFlash(tree[2]);
    assert Finale(g, hitPosition) == Celebration(g, hitPosition.value);
    assert Celebration(g, hitPosition.value) == tree + flash + ScrollMessage(flash[FLASH_FRAMES], "THANK YOU", Green);
    JigJagFlashPicture(tree[2], j - 3);
  }

  /** Finale frames 16 .. 53 after a hit scroll "THANK YOU" in green. */
  lemma FinaleThanks(g: Grid, hitPosition: Option<int>, j: nat)
    requires hitPosition.Some? && 3 + FLASH_FRAMES + 1 <= j < 54
    ensures Finale(g, hitPosition)[j] == ScrollPicture(Pad("THANK YOU"), Green, j - (3 + FLASH_FRAMES + 1))
  {
    var tree := GrowTree(g, hitPosition.value);
    var flash := JigJagFlash(tree[2]);
    var thanks := ScrollMessage(flash[FLASH_FRAMES], "THANK YOU", Green);
    assert Finale(g, hitPosition) == Celebration(g, hitPosition.value);
    assert Celebration(g, hitPosition.value) == tree + flash + thanks;
    MessageFrameCounts(flash[FLASH_FRAMES]);
    ScrollMessagePicture(flash[FLASH_FRAMES], "THANK YOU", Green, j - (3 + FLASH_FRAMES + 1));
  }

  /** The finale of a miss scrolls "WASTED" in blue. */
  lemma FinaleWasted(g: Grid, j: nat)
    requires j < 29
    ensures Finale(g, None)[j] == ScrollPicture(Pad("WASTED"), Blue, j)
  {
    MessageFrameCounts(g);
    ScrollMessagePicture(g, "WASTED", Blue, j);
  }

  /** Frame k - 1 of the seed loop shows the seed after k moves, whatever
      was on screen before. */
  lemma MoveFramePicture(g: Grid, s: Seed, potCol: int, n: nat, k: nat)
    requires 1 <= k <= n
    ensures MoveFrames(g, s, potCol, n)[k - 1] == ScenePicture(Oscillate(s, k).col, potCol)
  {
    SameCells(MoveFrames(g, s, potCol, n)[k - 1], ScenePicture(Oscillate(s, k).col, potCol));
  }

  /** Frame 0 of the lead is the opening scene. */
  lemma LeadOpens(g: Grid, start: Seed, steps: nat)
    ensures Lead(g, start, steps)[0] == ScenePicture(start.col, START_POT_COL)
  {
    assert Lead(g, start, steps)[0] == Opening(g, start, steps)[0];
    SameCells(Scene(g, start.col, START_POT_COL), ScenePicture(start.col, START_POT_COL));
  }

  /** Lead frames 1 .. steps show the seed after each move, with the pot
      still in column 1. */
  lemma LeadMoves(g: Grid, start: Seed, steps: nat, k: nat)
    requires 1 <= k <= steps
    ensures Lead(g, start, steps)[k] == ScenePicture(Oscillate(start, k).col, START_POT_COL)
  {
    var first := Scene(g, start.col, START_POT_COL);
    assert Lead(g, start, steps)[k] == Opening(g, start, steps)[k];
    assert Opening(g, start, steps)[k] == MoveFrames(first, start, START_POT_COL, steps)[k - 1];
    MoveFramePicture(first, start, START_POT_COL, steps, k);
  }

  /** Droplet frame k, over whatever grid, has the droplet on row
      FallRow(k) over the aligned scene. */
  lemma DropPhasePicture(g: Grid, start: Seed, steps: nat, k: nat)
    requires k < FALL_FRAMES * DROPS
    ensures var o := SimulateFrom(start, steps);
      DropPhase(g, start, steps)[k] == DropPicture(o.seed.col, o.potCol, o.dropCol, FallRow(k))
  {
    var o := SimulateFrom(start, steps);
    DropFramePicture(g, o.seed.col, o.potCol, o.dropCol, DROPS, k);
  }

  /** Lead frames 1 + steps + k, k < 18, show the droplets over the
      aligned scene. */
  lemma LeadDrops(g: Grid, start: Seed, steps: nat, k: nat)
    requires k < FALL_FRAMES * DROPS
    ensures var o := SimulateFrom(start, steps);
      Lead(g, start, steps)[1 + steps + k] == DropPicture(o.seed.col, o.potCol, o.dropCol, FallRow(k))
  {
    LeadDropIndex(g, start, steps, k);
    DropPhasePicture(Opening(g, start, steps)[steps], start, steps, k);
  }

  /** Lead frame 1 + steps + k is droplet frame k, drawn over the last
      frame of the opening. */
  lemma LeadDropIndex(g: Grid, start: Seed, steps: nat, k: nat)
    requires k < FALL_FRAMES * DROPS
    ensures Lead(g, start, steps)[1 + steps + k] == DropPhase(Opening(g, start, steps)[steps], start, steps)[k]
  {
  }

  /** Frame 0 of the run is the opening scene (the seed in its starting
      column, the pot in column 1), and frames 1 .. steps show the seed
      after each move with the pot still in column 1. */
  lemma RunMovesSeed(g: Grid, start: Seed, steps: nat, k: nat)
    requires k <= steps
    ensures RunFrames(g, start, steps)[k] == ScenePicture(Oscillate(start, k).col, START_POT_COL)
  {
    LeadFrame(g, start, steps, k);
    if k == 0 {
      LeadOpens(g, start, steps);
    } else {
      LeadMoves(g, start, steps, k);
    }
  }

  /** The next 18 frames show the droplets over the aligned scene: frame
      1 + steps + k has the droplet on row FallRow(k) of the droplet
      column. */
  lemma RunDropsWater(g: Grid, start: Seed, steps: nat, k: nat)
    requires k < FALL_FRAMES * DROPS
    ensures var o := SimulateFrom(start, steps);
      RunFrames(g, start, steps)[1 + steps + k] == DropPicture(o.seed.col, o.potCol, o.dropCol, FallRow(k))
  {
    LeadFrame(g, start, steps, 1 + steps + k);
    LeadDrops(g, start, steps, k);
  }

  /** After a hit and the three tree frames, the run holds the twelve flash
      pictures (finale frames 3 .. 14) and then the blank grid. */
  lemma RunFlashes(g: Grid, start: Seed, steps: nat, j: nat)
    requires SimulateFrom(start, steps).branch == GrowAndCelebrate
    requires 3 <= j < 3 + FLASH_FRAMES
    ensures RunFrames(g, start, steps)[FinaleStart(steps) + j] == FlashPicture(j - 3)
    ensures RunFrames(g, start, steps)[FinaleStart(steps) + (3 + FLASH_FRAMES)] == Blank
  {
    var lead := Lead(g, start, steps);
    FinaleFrame(g, start, steps, j);
    FinaleFrame(g, start, steps, 3 + FLASH_FRAMES);
    FinaleFlashes(lead[|lead| - 1], SimulateFrom(start, steps).hitPosition, j);
  }

  /** After a hit, the last 38 frames of the run (finale frames 16 .. 53)
      scroll "THANK YOU" in green. */
  lemma RunThanks(g: Grid, start: Seed, steps: nat, j: nat)
    requires SimulateFrom(start, steps).branch == GrowAndCelebrate
    requires 3 + FLASH_FRAMES + 1 <= j < 54
    ensures RunFrames(g, start, steps)[FinaleStart(steps) + j] ==
      ScrollPicture(Pad("THANK YOU"), Green, j - (3 + FLASH_FRAMES + 1))
  {
    var lead := Lead(g, start, steps);
    FinaleFrame(g, start, steps, j);
    FinaleThanks(lead[|lead| - 1], SimulateFrom(start, steps).hitPosition, j);
  }

  /** After a miss, the 29 frames after the droplets scroll "WASTED" in
      blue. */
  lemma RunWasted(g: Grid, start: Seed, steps: nat, j: nat)
    requires SimulateFrom(start, steps).branch == Wasted
    requires j < 29
    ensures RunFrames(g, start, steps)[FinaleStart(steps) + j] == ScrollPicture(Pad("WASTED"), Blue, j)
  {
    var lead := Lead(g, start, steps);
    FinaleFrame(g, start, steps, j);
    FinaleWasted(lead[|lead| - 1], j);
  }
}
