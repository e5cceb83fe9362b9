# Automatic planting animation, modelled in Dafny

`game.py` draws a short animation on an 8x8 LED-style grid. A seed moves
along the soil, and a pot lines itself up above the seed and drops three
water droplets. If a droplet reaches the seed, a tree grows, the screen
flashes and "THANK YOU" scrolls by. Otherwise "WASTED" scrolls by.

This project models that animation as pure functions over an immutable
grid. A frame is a picture the program holds on screen with `sim.delay`.
Two conventions fix the count:
- A delay that follows no new drawing re-holds the previous picture and adds no frame. These are `sim.delay(BETWEEN_DROPS)` (game.py:198), which holds the last droplet picture a little longer after each droplet, and `sim.delay(GROW_HOLD_SECONDS)` (game.py:122), which does the same for the last tree stage. Every delay that follows drawing is a frame, even when the picture equals the previous one: the first two scroll frames, for example, both show only the soil row while the padding passes (`Scroll.ScrollOpensWithTwoDarkFrames`).
- The blank grid that `jig_jag_flash` leaves with its final `clear` (game.py:133) counts as the last frame of the flash. No delay holds it, but `clear` shows it before the scroll starts.

With these conventions, a run after a hit has 1 + moves + 18 + 3 + 13 + 38 frames, and a run after a miss has 1 + moves + 18 + 29.

| module | models |
|---|---|
| `Maybe` (maybe.dfy) | Python's `None`-or-value |
| `Grid` (grid.dfy) | the palette, the 8x8 grid, `set_pixel` (ignores off-grid coordinates), `clear`, whole-grid passes |
| `Drawing` (drawing.dfy) | `draw_soil`, `draw_pot`, `draw_drop`, `grow_tree` (its three frames), `jig_jag_flash` (its thirteen frames) |
| `Font` (font.dfy) | `FONT_3x5` and `draw_char_3x5` |
| `Scroll` (scroll.dfy) | `scroll_message`: upper-casing, padding, laying out the glyph strip, one frame per offset |
| `Simulation` (simulation.dfy) | the logic of `simulate`: seed oscillation, pot alignment, hit detection, branch choice |
| `Animation` (animation.dfy) | the frame sequence `simulate` shows, and `restart` |

Several functions come with independent reference definitions, and
lemmas connect the two:
- Drawing functions are compared with pictures defined cell by cell: `SceneColor`/`ScenePicture`, `TreeColor`/`TreePicture`, `DropPicture`, `FlashPicture`, `ScrollPicture`.
- The scrolling text is compared with a column-by-column definition of the glyph strip (`StripLights`).
- The hit-recording loop is compared with a count and a first-match search over the list of hit tests (`CountQualifying`, `FirstQualifying`).

## Model

| member | source | states |
|---|---|---|
| Grid.SetPixel | game.py:64-66 | an on-grid cell takes the colour and no other cell changes; off-grid coordinates leave the grid as it was |
| Grid.Fill | game.py:128-130 | after one flash pass every cell holds that pass's colour |
| Grid.Clear | game.py:68-72 | after `clear` every cell is background |
| Grid.ClearIsBlank | game.py:68-72 | the cleared grid is the start-up grid, so nothing drawn before a `clear` shows through |
| Drawing.DrawSoil | game.py:84-93 | the bottom row is brown; every other cell is background, except that cell (6, seed) is gold when a seed column is given and lies on the grid |
| Drawing.DrawPot | game.py:95-97 | (0, pot) and (0, pot+1) are white where they are on the grid; nothing else changes |
| Drawing.DrawDrop | game.py:99-100 | the droplet cell is blue when it is on the grid; nothing else changes |
| Drawing.DrawLeaves | game.py:114-117 | row 3 turns green in columns col-1..col+1 (clipped to the grid); nothing else changes |
| Drawing.GrowStage | game.py:104-120 | one growth stage equals the reference tree picture: soil, a trunk of `stage` cells rising from row 6, and from stage 3 leaves in row 3 and a leaf at (2, col) |
| Drawing.GrowTree | game.py:103-122 | `grow_tree` holds exactly three frames, and frame k is growth stage k+1 |
| Drawing.GrowTreePictures | game.py:103-122 | the three frames are the stage pictures, whatever was on screen before |
| Drawing.FlashFrom | game.py:126-133 | the flash frames from index i: colours alternate by index parity, followed by one all-background frame |
| Drawing.JigJagFlash | game.py:125-133 | thirteen frames: twelve whole-grid frames, pink on even indices and cyan on odd ones, then an all-background grid |
| Drawing.JigJagFlashPicture | game.py:125-133 | flash frame j is the flash picture for j, and the frame after the twelfth is the blank grid, whatever was on screen before |
| Font.Glyph | game.py:137 | the glyph looked up for any character, the fallback included, is five rows of three bits; a character outside the font gets a glyph that lights nothing |
| Font.BlankGlyphIsDark | game.py:44 | the space glyph lights no cell |
| Font.DrawBits | game.py:139-144 | the bits from c onward of one glyph row are drawn: an on-grid cell takes the colour exactly when the bit under it is '1'; other cells are unchanged |
| Font.DrawGlyphRows | game.py:138-144 | the glyph rows from i onward land on grid rows 1+i..: a cell takes the colour exactly when the glyph bit over it is lit |
| Font.DrawChar | game.py:136-144 | cell (R, C) takes the colour exactly when glyph bit (R-1, C-x) is lit; every other cell, including parts clipped at the edges, keeps its colour |
| Font.UnknownCharDrawsNothing | game.py:137 | a character without a glyph leaves the grid unchanged |
| Scroll.Upper | game.py:147 | `upper()` keeps the length and every character outside a..z, and turns each a..z letter into the capital at the same alphabet position |
| Scroll.Pad | game.py:147 | the padded message is the upper-cased message between three spaces on each side, so the first and the last nine strip columns are dark |
| Scroll.DrawText | game.py:153-154 | drawing glyphs i.. at x = 3j - offset lights exactly the cells some later glyph covers; other cells are unchanged |
| Scroll.CoveredByColumn | game.py:148-154 | the glyphs from index i onward cover (R, C) exactly when strip column C+offset lies at or right of glyph i and is lit: glyphs are three wide and placed three apart, so they never overlap |
| Scroll.SoilRow | game.py:151-152 | the bottom row becomes brown; other rows keep their colours |
| Scroll.ScrollFrame | game.py:150-154 | a scroll frame shows the text colour where a glyph covers the cell; elsewhere the bottom row is brown and all other cells are background |
| Scroll.ScrollFrameCells | game.py:150-154 | a scroll frame, in terms of the strip: lit strip column C+offset shows the colour; otherwise the bottom row is soil and the rest is background; lit cells are in rows 1..5 |
| Scroll.ScrollMessage | game.py:146-149 | the frame count is 3 x (message length + 6) - 8 + 1 |
| Scroll.ScrollMessageFrames | game.py:146-156 | frame k of `scroll_message` shows strip column C+k under grid column C; what was on screen before never shows |
| Scroll.ScrollMessagePicture | game.py:146-156 | frame k of `scroll_message` is the strip picture at offset k, whatever was on screen before |
| Scroll.ScrollStartsAndEndsDark | game.py:147-156 | the first and the last scroll frames show no text, only the soil row: the message enters from the right and leaves at the left |
| Scroll.ScrollOpensWithTwoDarkFrames | game.py:147-156 | the second scroll frame shows the same soil-only picture as the first, yet is held as a frame of its own |
| Scroll.ScrollClosesWithTwoDarkFrames | game.py:147-156 | the last but one scroll frame shows the same soil-only picture as the last, yet is held as a frame of its own |
| Scroll.ScrollFramesStayInTextRows | game.py:142-154 | in every scroll frame the bottom row is brown, and any other non-background cell lies in rows 1..5 and shows the message colour |
| Scroll.MessageFrameCounts | game.py:147-149 | "THANK YOU" takes 38 frames and "WASTED" takes 29 |
| Scroll.WastedEndsInBlank | game.py:206 | the last letter of "WASTED" lights nothing, because the font has no 'D' |
| Simulation.Step | game.py:173-175 | the seed moves one column in its direction; from a bouncing state it stays bouncing, and it reverses exactly when it reaches column 1 or 6 |
| Simulation.Oscillate | game.py:171-175 | the seed loop run n times; it carries no contract of its own, and its invariant, composition and period are stated by the three lemmas below |
| Simulation.OscillateKeepsBouncing | game.py:171-175 | the bouncing invariant (column in 1..6, pointing inward at the walls) holds after any number of moves |
| Simulation.OscillateAdd | game.py:171-175 | a moves followed by b moves is a+b moves |
| Simulation.OscillatePeriod | game.py:171-175 | a bouncing seed returns to its column and direction after ten moves |
| Simulation.RightwardHalfPeriod | game.py:171-175 | five moves take a bouncing seed heading right to the mirrored column 7 - col, heading left, after one bounce off the right wall |
| Simulation.LeftwardHalfPeriod | game.py:171-175 | five moves take a bouncing seed heading left to the mirrored column 7 - col, heading right, after one bounce off the left wall |
| Simulation.RightwardPeriod | game.py:171-175 | the ten-move period, for seeds heading right |
| Simulation.LeftwardPeriod | game.py:171-175 | the ten-move period, for seeds heading left |
| Simulation.SeedAfterMoving | game.py:160-175 | after 20 moves from column 2 heading right, the seed is back in column 2 heading right |
| Simulation.Align | game.py:182-183 | the pot's two cells are always on the top row; it sits one left of the seed for seed columns 1..7 and is clamped to 0 or 6 otherwise |
| Simulation.DropMeetsSeed | game.py:182-183 | the droplet column equals the seed column exactly when the seed column is in 1..7 |
| Simulation.RecordAll | game.py:186-197 | the hit loop only adds hits, and never overwrites a position once recorded |
| Simulation.Record | game.py:194-197 | a qualifying test adds one hit and records the seed column only if none was recorded yet; a non-qualifying test changes nothing |
| Simulation.FirstQualifyingIsFirst | game.py:194-196 | the recorded position is None exactly when no test qualifies; otherwise it is the seed column of the earliest qualifying test |
| Simulation.RecordAllSummary | game.py:186-198 | the hit loop counts every qualifying test; a recorded position is kept, and otherwise the first qualifying test's column is taken |
| Simulation.QualifyingAppend | game.py:187-197 | the count and the first qualifying test split over consecutive runs of tests |
| Simulation.NoneQualifyingCountsZero | game.py:194-197 | if no test qualifies, the count is zero |
| Simulation.FallChecks | game.py:188-194 | one droplet is tested on rows y..6 in order, at the droplet column |
| Simulation.DropChecks | game.py:187-194 | n droplets give 6n tests |
| Simulation.DropChecksHits | game.py:186-198 | three droplets give three hits, with position = the seed column, when the droplet column is the seed column; otherwise zero hits and no position |
| Simulation.SimulateFrom | game.py:159-206 | the final seed is the start seed after `steps` moves; the pot is aligned to the final seed column; the tree branch is taken exactly when a position was recorded, and then hits = 3 and position = seed column; the "WASTED" branch has zero hits; the tree grows exactly when the final seed column is in 1..7 |
| Simulation.Simulate | game.py:159-206 | the program's run ends with the seed back at its start, three hits at its column, and the tree branch |
| Simulation.BouncingSeedIsAlwaysHit | game.py:171-206 | from any bouncing start and any number of moves, every droplet hits the seed and the tree branch is taken |
| Simulation.SimulateOutcome | game.py:159-206 | the program's own run ends with the seed in column 2 heading right, the pot in column 1, three hits at column 2, and the tree |
| Simulation.WastedFromColumnZero | game.py:182-206 | a seed left in column 0 is missed: the droplets fall in column 1 and the run ends in "WASTED" |
| Simulation.WastedFromColumnOneHeadingLeft | game.py:171-206 | a seed in column 1 heading left is not bouncing: one move takes it to column 0, where it is missed, so a start column in 1..6 alone does not rule out "WASTED" |
| Animation.Scene | game.py:166-167 | the soil, seed and pot scene equals its reference picture cell for cell |
| Animation.MoveFrames | game.py:171-179 | one frame per move: frame k shows the seed where it is after k+1 moves, with the pot in its starting column |
| Animation.FallFrames | game.py:188-193 | frame k of a fall from row y shows the droplet at row y+k in the droplet column, over the scene |
| Animation.DropFrames | game.py:187-198 | n droplets give 6n frames |
| Animation.FallRowCycles | game.py:187-188 | in frame k of the droplet phase the droplet is on row 1 + k mod 6, always within rows 1..6 |
| Animation.FallFramePicture | game.py:188-193 | frame k of a fall is the scene with the droplet on row 1+k, whatever was on screen before |
| Animation.FallFramesArePictures | game.py:188-193 | a whole fall equals the six reference droplet pictures |
| Animation.DropFramesArePictures | game.py:187-198 | the droplet phase is the six reference pictures repeated once per droplet |
| Animation.DropFramePicture | game.py:187-198 | frame k of the droplet phase is the aligned scene with the droplet on row 1 + k mod 6 |
| Animation.DropFramesTreeless | game.py:187-198 | no droplet frame shows any part of a tree: no green cell, and no brown cell above the soil row |
| Animation.Finale | game.py:201-206 | 54 frames after a hit, starting with the three tree stages at the hit column; 29 frames otherwise |
| Animation.Celebration | game.py:201-204 | the finale after a hit at column p: 54 frames, starting with the three tree stages at p |
| Animation.WastedFinaleTreeless | game.py:205-206 | the "WASTED" finale shows no green cell and no brown cell above the soil row |
| Animation.Opening | game.py:166-179 | the opening scene and one frame per move: 1 + moves frames |
| Animation.DropPhase | game.py:186-198 | three droplets of six rows: 18 frames |
| Animation.Lead | game.py:166-198 | the opening scene, the moves and the droplets give 1 + moves + 18 frames |
| Animation.MovesTreeless | game.py:171-179 | no frame of the seed loop shows any part of a tree |
| Animation.LeadTreeless | game.py:166-198 | no frame before the finale shows any part of a tree |
| Animation.MoveFramePicture | game.py:171-179 | the frame after move k is the scene picture with the seed where it is after k moves, whatever was on screen before |
| Animation.LeadOpens | game.py:166-168 | the first frame is the scene with the seed in its starting column and the pot in column 1 |
| Animation.LeadMoves | game.py:171-179 | frame k, for 1 <= k <= moves, is the scene with the seed after k moves and the pot still in column 1 |
| Animation.DropPhasePicture | game.py:186-198 | droplet frame k is the aligned scene with the droplet on row 1 + k mod 6 of the droplet column |
| Animation.LeadDrops | game.py:186-198 | frame 1 + moves + k, k < 18, is the aligned scene with droplet k mod 6 rows down |
| Animation.RunFrames | game.py:159-206 | the whole run has 1 + moves + 18 frames, plus 54 on a hit or 29 on a miss |
| Animation.CelebrationGrowsTreeAtHit | game.py:200-203 | on a hit, the three frames after the droplets are the tree stages at the recorded hit column |
| Animation.BouncingRunGrowsTree | game.py:170-203 | from any bouncing start, the run ends with 54 celebration frames, and the first three show the tree at the seed's final column |
| Animation.ProgramFrames | game.py:159-206 | the program's run is 93 frames long, and frames 39..41 are the three stages of a tree in column 2 |
| Animation.WastedRunDrawsNoTree | game.py:200-206 | when no droplet hits, no frame of the whole run shows any part of a tree: no green cell anywhere and no brown cell above the soil row |
| Animation.LeadReplays | game.py:214-218 | the frames before the finale do not depend on what the screen showed before |
| Animation.FinaleFlashes | game.py:201-203 | after a hit, finale frames 3..14 are the pink/cyan flash pictures and frame 15 is the blank grid |
| Animation.FinaleThanks | game.py:201-204 | after a hit, finale frames 16..53 are the green "THANK YOU" strip pictures at offsets 0..37 |
| Animation.FinaleWasted | game.py:205-206 | after a miss, finale frame j is the blue "WASTED" strip picture at offset j |
| Animation.RunMovesSeed | game.py:166-179 | frame 0 of the run is the opening scene and frame k <= moves shows the seed after k moves, the pot in column 1 |
| Animation.RunDropsWater | game.py:181-198 | frames 1 + moves + k, k < 18, show the droplet on row 1 + k mod 6 over the aligned scene |
| Animation.RunFlashes | game.py:200-203 | after a hit, the twelve frames after the tree are the flash pictures in order, then the blank grid |
| Animation.RunThanks | game.py:200-204 | after a hit, the last 38 frames scroll "THANK YOU" in green, one column per frame |
| Animation.RunWasted | game.py:205-206 | after a miss, the 29 frames after the droplets scroll "WASTED" in blue, one column per frame |
| Animation.RestartReplays | game.py:214-218 | RETRY replays exactly the same frames as the first run, whatever the last frame on screen was |

## Left out

- The tkinter window: the canvas, its rectangles, `root.update`, `mainloop` and the window title. The grid value stands for the canvas colours.
- Time: `delay`, `time.sleep` and every delay constant (`DROP_SPEED`, `BETWEEN_DROPS`, `GROW_STAGE_SECONDS`, `GROW_HOLD_SECONDS`, `FLASH_DELAY`, `SCROLL_DELAY`, and the literal delays). A frame is the grid at a hold point; how long it is held is not modelled.
- The RETRY button: creating it and destroying it. `restart` is modelled only as starting `simulate` again on the grid left on screen.
- Hex colour strings: the palette is an enumeration whose constructors are named after the colours; each constructor's comment gives its code.
- `FLASH_CYCLES`: the code never reads it. The flash uses its own literal 12, which is what is modelled.
- `seed_moving`: the guard is always true, so every iteration of the seed loop moves the seed.
- `CELL`: the on-screen cell size in pixels, which is display-only.
- Scroll.Upper: models `str.upper()` on ASCII only. Python's full Unicode upper-casing can change non-ASCII characters and the string length. The program scrolls only two ASCII literals.
- Simulation.Oscillate: carries no contract of its own. Every ensures of it would be unfolded at each step of the program's literal 20-move run. Its properties are stated as the lemmas OscillateKeepsBouncing, OscillateAdd and OscillatePeriod.
- Animation.DropFrames: its own contract gives only the frame count. The content of each frame is stated by Animation.DropFramePicture.
- Animation.Lead: its own contract gives only the frame count. Animation.LeadOpens, Animation.LeadMoves and Animation.LeadDrops place each frame.
- Animation.RunFrames: its own contract gives only the frame count. Animation.RunMovesSeed, Animation.RunDropsWater, Animation.CelebrationGrowsTreeAtHit, Animation.RunFlashes, Animation.RunThanks and Animation.RunWasted place each stage.
- Animation.Finale: its own contract gives the count and the three tree frames. Animation.FinaleFlashes, Animation.FinaleThanks and Animation.FinaleWasted state the other frames.
- Intermediate redraws: `draw_soil` commits a frame with `sim.update()` before the pot is drawn, but no delay holds that state, so it is not a frame of the model.

## Behaviour worth knowing

- Growth stage 1 draws its trunk cell at (6, col), the seed's own cell, after `draw_soil` has redrawn the soil without the seed (game.py:105-108).
- Glyph row r lands on grid row 1 + r (game.py:142), so the text occupies rows 1..5, above the soil row. `Scroll.ScrollFramesStayInTextRows` states this.
- `offset` goes up by one per frame (game.py:149), so the text moves one grid column per frame. `Scroll.ScrollMessageFrames` states this.
- `FONT_3x5` has no glyph for 'D', so the last letter of "WASTED" falls back to the blank glyph and is never visible (`Scroll.WastedEndsInBlank`).
- From the program's fixed start (column 2, heading right), the seed is bouncing: it stays in columns 1..6 and points inward at both walls. A bouncing seed stays bouncing, so the droplet column always equals the seed column and the run always grows the tree (`Simulation.BouncingSeedIsAlwaysHit`). The "WASTED" branch is taken exactly when the final seed column is outside 1..7 (`Simulation.SimulateFrom`). That can happen only from a start that is not bouncing, such as column 0 (`Simulation.WastedFromColumnZero`) or column 1 heading left (`Simulation.WastedFromColumnOneHeadingLeft`).
