# SquareTap in Dafny

SquareTap is a small reaction game. A 4x4 grid shows three filled cells. A
click on a filled cell scores and moves that filled cell somewhere else. A
click on an empty cell, or the end of the 30-second timer, ends the round. A
shell around the round offers a main menu (Start, Highscore, Settings, Exit),
and a top-nine score table records finished rounds.

This project models the three stateful parts of the game and proves what they
promise:

- `Round` (`round.dfy`) is the round engine `Pattern`. It is a class over a
  16-cell `array<bool>` grid, with a method for each step of `setup` and
  `update`. These steps are the seeding loop, the R/Tab/G keys, the zoom
  clamp, the timer and multiplier, the hit test, the refill loop of a scoring
  click, and the miss. Each method is tied to a function on the value
  `RoundState`, and the round's properties are lemmas about those functions.
- `Grid` (`grid.dfy`) holds the value-level pieces of the round engine. These
  are the cell count, the random stream and the draw a rejection loop accepts,
  the hit test, the multiplier and the scale clamp.
- `HighscoreTable` (`highscore.dfy`) is the score table `Highscore`: nine
  `u32` slots in an array. It has `score_exist` and the in-place insertion loop
  of `add_score`. The loop is proved equal to a recursive insertion pass. That
  pass keeps the table sorted and free of repeats, and it is compared with a
  plain sorted insertion.
- `Shell` (`shell.dfy`) is `Game::update`: the five screens, the menu cursor,
  the Enter dispatch, and the score check after a running frame. It also holds
  the frame loop of `main`, which stops once the shell is closing.
- `Primitives` and `Input` hold the fixed-width integers (`u16`, `u32`,
  `u64`), with the wrap-around and saturation the code relies on, and the
  per-frame input.

The random generator `ThreadRng` is a stream of draws `rng(0), rng(1), ...`
that a round reads from position `drawn` onward. `FairSource(rng)` is what
`gen_range(0..15)` gives: every draw is below 15, and every value below 15
keeps coming up. Under that assumption the rejection loops of `setup` and of a
scoring click are proved to terminate. They are proved to accept exactly the
first draw that names an empty cell.

The model follows the code where a natural reading of the game would expect
something else:

- Both draws use `gen_range(0..15)`, so cell 15 is never filled (`Seeded`,
  `SetupResets`).
- The refill is drawn before the clicked cell is cleared, so the refill is
  never the clicked cell (`ScoringClick`).
- The hit test uses strict bounds, so the grid's top-left pixel is off the
  grid (`OriginPixelOffGrid`).
- `setup` sets the click clock to 0, not to the current time (`SetupResets`).
- The frame on which the timer runs out sets `done` but does not return. The
  click of that same frame is still processed (`TimerExpires`,
  `ScoringClick`, `MissClick`).
- There is no explicit zero-score check. A score of zero never changes a
  ranked table (`RecordZero`).

## Model

| member | source | states |
|---|---|---|
| Primitives.WrapU32 | src/game/pattern.rs:133 | `+=` on `u32` wraps: the result differs from the true sum by a multiple of 2^32, is never above it, and equals it below 2^32 |
| Primitives.WrapU64 | src/game/pattern.rs:135 | `+= 1` on `u64` wraps: the result differs from the true sum by a multiple of 2^64, is never above it, and equals it below 2^64 |
| Primitives.SaturateU16 | src/game/pattern.rs:97 | `as u16` saturates: in-range values are kept, negatives become 0, values of 2^16 or more become 65535 |
| Grid.CountTrueUpdate | src/game/pattern.rs:127 | setting one cell changes the filled count by exactly the change at that cell |
| Grid.SomeCellEmpty | src/game/pattern.rs:121-130 | fewer than `b` filled cells leave an empty cell among the first `b`; with at most 14 filled, a draw in 0..15 can find an empty cell |
| Grid.FirstEmptyDrawExists | src/game/pattern.rs:122-130 | if some later draw names an empty cell, there is a first such draw |
| Grid.NextEmptyDraw | src/game/pattern.rs:121-130 | on a fair source, with fewer than 15 cells filled, the rejection loop accepts the first draw from `from` on that names an empty cell; all earlier draws name filled cells |
| Grid.NextEmptyDrawUnique | src/game/pattern.rs:121-130 | the first draw naming an empty cell is unique |
| Grid.NextEmptyDrawSkip | src/game/pattern.rs:123-126 | a draw naming a filled cell is passed over: the accepted position from the next draw is the same |
| Grid.GridOrigin | src/game/pattern.rs:104-107 | the grid's top-left corner puts the grid's centre at the centre of the screen |
| Grid.HitTest | src/game/pattern.rs:104-117 | a cell is returned exactly when the mouse is strictly inside the centred square, and that cell index is below 16 |
| Grid.HitTestCell | src/game/pattern.rs:115-117 | a click strictly inside maps to cell `col + 4 * row`, and the click lies in that cell's square of side `tiles_size / 4` |
| Grid.FloorSlot | src/game/pattern.rs:115-116 | an offset strictly inside (0, size), scaled by `4 / size` and floored, gives a slot `k` in 0..3 with `k * cell <= offset < (k + 1) * cell` |
| Grid.RowMajor | src/game/pattern.rs:117 | `x + floor(y * 4.0)` is `x + 4y`, and the index gives back column `x` (mod 4) and row `y` (div 4) |
| Grid.Multiplier | src/game/pattern.rs:96-97 | before the first scoring click the multiplier is 1 |
| Grid.MultiplierAtLeastOne | src/game/pattern.rs:96-97 | on a clock that does not run backwards, the multiplier is at least 1 |
| Grid.MultiplierMonotone | src/game/pattern.rs:96-97 | waiting longer never lowers the multiplier |
| Grid.MultiplierSteps | src/game/pattern.rs:97 | exactly `n` steps of `4.5 / clicks` seconds after the last click, the multiplier is `n + 1` |
| Grid.RampMonotone | src/game/pattern.rs:97 | `1 + dt * clicks / 4.5` does not decrease as `dt` grows |
| Grid.SaturatedFloorMonotone | src/game/pattern.rs:97 | floor followed by the saturating `as u16` is monotone |
| Grid.ScaleStep | src/game/pattern.rs:78-82 | a frame asks for a change of at most one quarter step: up exactly when PageUp is pressed, down exactly when only PageDown is |
| Grid.ClampScale | src/game/pattern.rs:84-88 | the clamped scale lies in [0.5, 3.0] and is the allowed scale nearest the requested one |
| Grid.TileSize | src/game/pattern.rs:89 | for an allowed scale the tile size `250 * scale` lies in [125, 750] |
| HighscoreTable.Zeros | src/game/highscore.rs:68 | `[0; n]`: `n` slots, all zero |
| HighscoreTable.Find | src/game/highscore.rs:17 | `find` yields a value exactly when `s` is in the slots, and that value is `s` |
| HighscoreTable.InsertPass | src/game/highscore.rs:20-31 | the insertion pass of `add_score` as a recursive function; it keeps the number of slots (its order, duplicate, value and outcome properties are the lemmas below) |
| HighscoreTable.SortedInsert | src/game/highscore.rs:20-31 | reference insertion: one slot longer, holding the old values plus `s` |
| HighscoreTable.InsertPassValues | src/game/highscore.rs:22-26 | no new values: the pass holds at most the old values plus `s`, and every value is `s` or an old one |
| HighscoreTable.InsertPassSorted | src/game/highscore.rs:20-31 | order is preserved: a non-increasing table stays non-increasing, whatever is carried in |
| HighscoreTable.InsertPassDuplicate | src/game/highscore.rs:27-28 | on a sorted table that holds `s`, the pass changes nothing |
| HighscoreTable.InsertPassShift | src/game/highscore.rs:23-26 | carrying the head of a ranked table through its tail shifts every slot down by one and drops the last one |
| HighscoreTable.InsertPassAbsent | src/game/highscore.rs:21-30 | on a ranked table without `s`, the pass is the sorted insertion of `s` with the last slot dropped |
| HighscoreTable.SortedInsertRanked | src/game/highscore.rs:21-30 | inserting an absent value keeps the table sorted, with no nonzero value repeated |
| HighscoreTable.InsertPassOutcome | src/game/highscore.rs:21-30 | for an absent `s`: if `s` beats the last slot it is placed in order and the last slot is dropped; if it is below the last slot the table is unchanged; `s` ends up in the table exactly when it beats the last slot |
| HighscoreTable.InsertPassKeepsRanked | src/game/highscore.rs:20-31 | `add_score` keeps the table sorted with no nonzero value repeated, for every score |
| HighscoreTable.PassFrom | src/game/highscore.rs:22-30 | the loop from slot `i` keeps the length and leaves the slots before `i` alone |
| HighscoreTable.PassFromInsertPass | src/game/highscore.rs:22-30 | the loop from slot `i` equals the untouched prefix followed by the insertion pass over the remaining slots |
| HighscoreTable.EmptyTableRanked | src/game/highscore.rs:66-69 | the default table is nine zeros and is ranked |
| HighscoreTable.Highscore.constructor | src/game/highscore.rs:66-70 | `Highscore::new` holds nine zero slots |
| HighscoreTable.Highscore.ScoreExist | src/game/highscore.rs:16-18 | true exactly when some slot holds `score`; in particular true for 0 while any slot is still 0 |
| HighscoreTable.Highscore.AddScore | src/game/highscore.rs:20-31 | the swapping loop with early return leaves the slots equal to the insertion pass of `score` over the old slots |
| Round.Cleared | src/game/pattern.rs:48 | `[false; n]`: `n` cells, all empty |
| Round.ClearedEmpty | src/game/pattern.rs:48 | a cleared grid has no filled cell |
| Round.AcceptDraw | src/game/pattern.rs:121-130 | the rejection loop keeps 16 cells and always consumes at least one draw |
| Round.AcceptDrawFills | src/game/pattern.rs:121-130 | the accepted draw fills exactly one previously empty cell below 15; filled cells stay filled and cell 15 is untouched |
| Round.AcceptDrawSkip | src/game/pattern.rs:123-126 | a draw naming a filled cell is rejected: the loop from the next draw ends the same way |
| Round.AcceptDrawHit | src/game/pattern.rs:126-129 | a draw naming an empty cell is accepted at once and fills that cell |
| Round.Fill | src/game/pattern.rs:50-59 | `n` accepted draws add exactly `n` filled cells, never touch cell 15, and consume at least `n` draws |
| Round.FillSkip | src/game/pattern.rs:52-55 | a seeding draw naming a filled cell fills nothing and is spent |
| Round.FillHit | src/game/pattern.rs:55-58 | a seeding draw naming an empty cell fills it, raises the count by one and leaves one fewer to fill |
| Round.SeedRun | src/game/pattern.rs:50-59 | the seeding loop, draw by draw, ends with the same accepted draws as `Fill` |
| Round.DefaultState | src/game/pattern.rs:319-342 | `Pattern::default`: an empty grid, scale 1.0 and tile size 250 |
| Round.SetupState | src/game/pattern.rs:40-60 | `setup` leaves a seeded grid, and a consistent round when the scale was allowed |
| Round.SetupFill | src/game/pattern.rs:48-59 | clearing and then seeding gives 16 cells with exactly three filled and cell 15 empty |
| Round.KeysState | src/game/pattern.rs:65-75 | R runs `setup` and nothing else; Tab toggles the information overlay and G the grid overlay; the round stays consistent and the scale is kept |
| Round.RescaleState | src/game/pattern.rs:78-89 | after PageUp/PageDown and the clamp, the scale is allowed and the tile size is `250 * scale` |
| Round.TickState | src/game/pattern.rs:91-101 | the timer never grows, or it is set to 0 and the round ends; the scale is kept |
| Round.ClickedCell | src/game/pattern.rs:110-117 | a left click inside the grid names a cell below 16 |
| Round.ScoreState | src/game/pattern.rs:119-135 | after a scoring click three cells are still filled, cell 15 is still empty, and the clicked cell is empty |
| Round.ScoreStateMoves | src/game/pattern.rs:121-132 | a scoring click fills one previously empty cell below 15, which is never the clicked cell, and empties the clicked cell |
| Round.ClickState | src/game/pattern.rs:110-141 | a click (off-grid, scoring or miss) keeps the round consistent and keeps the scale |
| Round.UpdateState | src/game/pattern.rs:62-143 | every frame keeps the round consistent; the scale is the clamped request and the tile size follows it |
| Round.SetupResets | src/game/pattern.rs:40-59 | `setup` sets score 0, multiplier 1, time 30, clicks 0, last click position (0, 0), click clock 0 and not done; exactly three cells are filled, cell 15 is empty, and the scale is kept |
| Round.UpdateScale | src/game/pattern.rs:78-89 | after every frame the scale is in [0.5, 3.0] and the tile size is `250 * scale`; PageUp wins over PageDown, and each moves the scale one quarter step when not at the bound |
| Round.ScaleRange | src/game/pattern.rs:84-89 | an allowed scale lies in [0.5, 3.0] and its tile size is `250 * scale` |
| Round.DoneIsTerminal | src/game/pattern.rs:91 | while done and without R, a frame changes none of score, multiplier, time, clicks, tiles, last click position, click clock or draws, and the round stays done |
| Round.Ticked | src/game/pattern.rs:62-101 | on an active frame without R, the keys, scale and timer change no grid or score field, and the frame's click sees the new tile size |
| Round.TimerExpires | src/game/pattern.rs:98-101 | an active frame that finds the timer at or below 0 sets it to 0, ends the round and keeps the multiplier |
| Round.ClickKeepsFrame | src/game/pattern.rs:110-141 | the click never changes the timer, the multiplier or the scale, and never un-ends a round |
| Round.TimerRuns | src/game/pattern.rs:93-97 | with time left, the timer drops by the frame time and the multiplier is `floor(1 + (now - last click) * clicks / 4.5)`, which is 1 with no clicks |
| Round.RestartFrame | src/game/pattern.rs:65-67 | R restarts the round, and the same frame already runs it: time `30 - frame time`, multiplier 1, score and clicks at most 1 |
| Round.FrameTileSize | src/game/pattern.rs:89 | the tile size the hit test uses is positive |
| Round.ClickOffGrid | src/game/pattern.rs:110-113 | no click, or a click on or outside the border, changes no grid, score or click field; the round ends only by the timer |
| Round.ScoringClick | src/game/pattern.rs:119-135 | a click on a filled cell keeps three cells filled and empties the clicked cell; one empty cell below 15, never the clicked one, becomes filled; the score grows by this frame's multiplier (wrapping at 2^32); clicks grows by one; the click clock is set to now |
| Round.MissClick | src/game/pattern.rs:136-139 | a click on an empty cell ends the round and records the mouse position; grid, score, clicks and draws are unchanged |
| Round.OriginPixelOffGrid | src/game/pattern.rs:112 | bounds are strict: a click on the grid's top-left pixel is off the grid |
| Round.Pattern.constructor | src/game/pattern.rs:30-38 | `Pattern::new` is the default values followed by `setup` |
| Round.Pattern.Setup | src/game/pattern.rs:40-60 | `setup` takes the round to `SetupState` of the old round and keeps it valid |
| Round.Pattern.ReseedTiles | src/game/pattern.rs:48-59 | the grid and the draw position after clearing and seeding are those of `SetupFill` |
| Round.Pattern.ResetCounters | src/game/pattern.rs:41-47 | the seven counters take their start values |
| Round.Pattern.ClearTiles | src/game/pattern.rs:48 | every cell is empty |
| Round.Pattern.SeedCells | src/game/pattern.rs:50-59 | the `while generated_cells < 3` loop on an empty grid makes exactly the accepted draws of `Fill` |
| Round.Pattern.Draw | src/game/pattern.rs:52-58 | one draw: an empty cell it names is filled and reported, a filled one is left alone; one draw is consumed |
| Round.Pattern.Update | src/game/pattern.rs:62-143 | `update` takes the round to `UpdateState` and keeps it valid |
| Round.Pattern.HandleKeys | src/game/pattern.rs:65-75 | the key part of `update` is `KeysState` |
| Round.Pattern.Rescale | src/game/pattern.rs:78-89 | the scale part of `update` is `RescaleState` |
| Round.Pattern.Tick | src/game/pattern.rs:93-101 | the timer part of `update` is `TickState` |
| Round.Pattern.HandleClick | src/game/pattern.rs:110-141 | the click part of `update` is `ClickState` |
| Round.Pattern.ScoreCell | src/game/pattern.rs:119-135 | refill, clear the clicked cell and count the click: the result is `ScoreState` |
| Round.Pattern.CountClick | src/game/pattern.rs:133-135 | the score grows by the multiplier (wrapping), the click clock is set to now, and clicks grows by one (wrapping) |
| Round.Pattern.Refill | src/game/pattern.rs:121-130 | the `while !new_cell_found` loop ends with the grid and draw position of `AcceptDraw` |
| Shell.Index | src/game.rs:21-27 | each menu entry sits at its own position in Start, Highscore, Settings, Exit order |
| Shell.MenuMove | src/game.rs:59-73 | Up moves the cursor one entry up and Down one entry down, clamped at both ends, with Up winning; no key leaves it alone |
| Shell.Destination | src/game.rs:75-91 | Enter never stays in the menu: Start opens the round, Highscore the score table, Settings the settings screen, and Exit, alone, closes |
| Shell.RecordScore | src/game.rs:100-102 | the score check keeps the table's length and changes nothing while the round is not done |
| Shell.InitialShell | src/game.rs:226-238 | the shell starts in the menu with Start selected, a consistent round and the nine-zero table, which is ranked |
| Shell.Step | src/game.rs:56-120 | every frame keeps the round consistent |
| Shell.MenuStep | src/game.rs:58-93 | a menu frame keeps the round consistent |
| Shell.RunningStep | src/game.rs:94-103 | a running frame keeps the round consistent |
| Shell.StepSound | src/game.rs:100-102 | every frame keeps the table nine slots long, sorted, and free of repeated nonzero scores |
| Shell.MenuCursor | src/game.rs:59-73 | without Enter a menu frame only moves the cursor, one entry per frame unless at an end |
| Shell.EnterDispatch | src/game.rs:75-91 | Enter opens the screen of the cursor as moved in this frame; Start resets and seeds the round; Exit, and only Exit, closes; the table is untouched |
| Shell.EscapeFromRunning | src/game.rs:94-99 | Escape returns to the menu, yet the round still gets this frame's update |
| Shell.OtherScreens | src/game.rs:104-117 | the score table and settings screens only react to Escape, back to the menu |
| Shell.ClosingIsFinal | src/game.rs:118 | a closing shell does not change |
| Shell.RecordScoreOutcome | src/game.rs:100-102 | a listed score changes nothing; an unlisted one that beats the last slot enters in sorted order; the score is listed afterwards exactly when it was listed before or beat the last slot |
| Shell.RecordZero | src/game.rs:100 | a score of 0 never changes a ranked table |
| Shell.Game.constructor | src/game.rs:226-238 | `Game::default` is the initial shell |
| Shell.Game.Update | src/game.rs:56-120 | `Game::update` takes the shell to `Step` and keeps it valid |
| Shell.Game.UpdateMenu | src/game.rs:58-93 | the menu branch is `MenuStep` |
| Shell.Game.StartRound | src/game.rs:77-80 | Start runs `setup` and switches to the running screen |
| Shell.Game.MoveCursor | src/game.rs:59-73 | the cursor becomes `MenuMove` of the old cursor |
| Shell.Game.UpdateRunning | src/game.rs:94-103 | the running branch, with the `score_exist` gate and `add_score`, is `RunningStep` |
| Shell.RunFrames | src/main.rs:24-29 | the frame loop stops only when the shell is closing or the frames run out, and the shell is then the result of `Step` over the frames used |
| Shell.Steps | src/main.rs:24-25 | the shell stays sound over any sequence of frames |
| Shell.StepsFromClosing | src/main.rs:24 | once closing, the shell stays closed whatever frames follow |

## Left out

- Rendering is not modelled. This covers every `render`, drawing, text layout and the cursor cross. It goes through macroquad, which is not part of this model.
- `src/game/settings.rs` is not part of this model. The settings screen only draws, and its `update` is empty. `Highscore::setup` and `Highscore::update` are empty too. Those screens are modelled only through their Escape transition.
- `src/game/saves.rs` is not part of this model. It is not declared as a module of the game, so no code reaches it.
- `Game::setup` is left out. Its `ShowCursor` call and its texture and font loading are platform I/O.
- From `main.rs`, the window configuration, the camera, `render` and `next_frame` are left out. The loop is modelled over a finite sequence of frames (`RunFrames`).
- Input, the clock and the frame time are the fields of a `Frame` value. Every read within a frame sees the same values, and the frame time is non-negative.
- The generator `ThreadRng` is an injected stream of draws. Termination of the rejection loops rests on `FairSource`: every value below 15 recurs after every position. The distribution of the draws, and so the fairness of which cell gets filled, is not modelled.
- Floating point is modelled as exact `real`: `f32`/`f64` times, mouse coordinates, tile sizes and the multiplier formula, with no IEEE rounding. The scale is an integer count of quarter steps (2..12), which is exact, since 0.25 steps are exact in `f32`.
- Round.Pattern.CountClick: the `u32` score and the `u64` click count wrap around, as in a release build; the overflow panic of a debug build is not modelled.
- The colour fields of `Pattern` and the overlay flags are left out beyond their toggling by Tab and G, because they affect only drawing.
