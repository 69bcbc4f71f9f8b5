# A verified model of the tetris.js game engine

This project models the game-state engine of the browser Tetris game in `tetris.js`:
- the 10 by 20 arena of settled blocks;
- the active piece, as a square shape matrix and a position;
- the session counters: score, level, drop counter, drop interval, and the game-over and pause flags;
- the operations the keyboard, touch and timer handlers call on that state.

The modules follow the structure of the program:

- `Matrix` (matrix.dfy): grids as `seq<seq<int>>`, `createMatrix`.
- `Pieces` (pieces.dfy): the `PIECES` catalogue and `createPiece`.
- `Geometry` (geometry.dfy): `rotate`, the occupied-width and left-offset scan of `playerMove` and `playerRotate`, and `collide`.
- `Kicks` (kicks.dfy): the alternating position search of `playerRotate`.
- `Field` (field.dfy): landing a piece (`merge` and the placement loop of `hardDrop`), the row sweep of `arenaSweep`, and the drop loop of `hardDrop`.
- `Scoring` (scoring.dfy): the points for cleared rows and the level and interval formulas of `updateScore`.
- `Engine` (engine.dfy): class `Game` holds the mutable state. Its methods are:
  - `playerReset`, `playerMove`, `playerRotate`, `playerDrop`;
  - `arenaSweep`, `updateScore`, `hardDrop`;
  - the state updates of `update`, `startGame` and `togglePause`.

Each loop of the source is a method with a loop, proved against a reference function:
- `Rotated` for the in-place turn;
- `Collides` for the collision scan;
- `Stamp` for landing;
- `Swept` for the row sweep;
- `KickColumn`, through the first-fit search `FirstFit`, for the position search;
- `LandingRow` for the drop loop.

Lemmas then prove what the game relies on about those functions.

The model follows the code as written, including these behaviours:
- A block above the top row collides, because `arena[row]` is `undefined` there and `undefined !== 0`.
- `merge` skips blocks below the bottom or outside the side walls, but it would throw on a row above the top. That case is its precondition (`MergeDefined`).
- `playerDrop` spawns the next piece and tests it for game over before sweeping the rows.
- `hardDrop` sweeps first and tests afterwards.
- `playerReset` centres with the literal width 10 and clamps at column 0. `hardDrop`'s own spawn uses the arena width and does not clamp.
- The search in `playerRotate` checks the whole N-wide square against the walls, while `playerMove` checks the tight occupied width.
- For sides 3 and 4 the search tries exactly four columns (`KickCount`).
- `startGame` does not reset the drop interval.
- Only `hardDrop` and `update` return early when the game is over or paused.
- `playerRotate` moves the column left by the turned shape's left offset without adding back the old one, so repeated turns can drift a piece to the left.

Behaviours of the code that are easy to miss, all modelled as written:
- **Invalid piece type.** `createPiece` with a type outside 1..7 returns the I shape.
- **Out-of-range writes.** `merge` silently skips blocks that fall outside the side walls or below the bottom.
- **Spawn column.** The spawn column is computed from the widths alone; the shape's left offset plays no part.
- **Rows above the top.** `collide` counts a block in a row above the top as a collision.
- **No freeze on game over.** The piece operations other than `hardDrop` keep working once the game is over, and `playerDrop` still sweeps and rescores after its spawn ends the game.
- **Kick bound.** The search gives up when the next step exceeds the side N of the square.
- **Inputs on which the code never stops.** With an arena of width 0, every row counts as full, so `arenaSweep` re-visits the same row forever; `Field.SweepRows` therefore requires a positive width. For a shape with no block, `collide` is never true, so the drop loop of `hardDrop` never ends; `Field.DropToRest` and `Field.LandingRow` therefore require a shape with a block. No piece the game creates has either property.

Integers are unbounded. Every value the game computes is a small integer, so no wrap-around arises.

## Model

| member | source | states |
|---|---|---|
| Matrix.CreateMatrix | tetris.js:61-67 | for non-negative sizes, returns h rows, each of w cells, every cell 0 |
| Pieces.CreatePiece | tetris.js:69-75 | the shape is a 3×3 or 4×4 square with at least one block, and every block carries the piece type as its colour; a type outside 1..7 yields the I shape `PIECES[1]` |
| Geometry.Rotate | tetris.js:215-236 | the transpose-then-reverse loop yields `Rotated(m, dir)`: clockwise new[y][x] = old[N-1-x][y] for dir > 0, counter-clockwise new[y][x] = old[x][N-1-y] otherwise |
| Geometry.CellsOfRotatedCW | tetris.js:215-236 | a clockwise turn moves each block from (r, c) to (c, N-1-r) and creates no others |
| Geometry.RotationKeepsBlockCount | tetris.js:215-236 | a turn in either direction keeps the number of blocks, so a shape with a block still has one |
| Geometry.FourTurnsRestore | tetris.js:215-236 | four clockwise turns give back the original shape |
| Geometry.TurnBackRestores | tetris.js:215-236 | a clockwise turn followed by a counter-clockwise turn gives back the original shape |
| Geometry.CCWIsThreeCW | tetris.js:215-236 | a counter-clockwise turn equals three clockwise turns |
| Geometry.MeasurePiece | tetris.js:155-164 | the scan yields one past the rightmost column holding a block (0 if none) and the leftmost such column (N if none) |
| Geometry.Collide | tetris.js:251-267 | true exactly when some block lands below the bottom, above the top, outside the side walls or on a filled cell (`Collides`) |
| Geometry.FreePlacementWithinWalls | tetris.js:166-177 | a placement that does not collide passes playerMove's tight-width wall test, so that test never rejects a move collide accepts |
| Geometry.BelowBottomCollides | tetris.js:420-422 | a shape with a block collides once placed at or below the bottom row, which ends the drop loop |
| Field.Stamp | tetris.js:124-137 | landing keeps the arena's size; every cell under a block takes the block's colour and every other cell keeps its value |
| Field.Merge | tetris.js:124-137 | merge's loops produce `Stamp` of the arena at the piece's position, whenever no written block is above the top row |
| Field.PlaceLanded | tetris.js:426-437 | hardDrop's placement loop produces the same `Stamp`, for every position |
| Field.LandedPieceIsSettled | tetris.js:124-137 | after landing, any piece with a block collides with the arena at the place it landed |
| Field.RowFilled | tetris.js:276-284 | the inner loop reports a row full exactly when no cell holds 0 |
| Field.SweepRows | tetris.js:274-295 | the splice-and-unshift scan that re-visits index y produces `Swept` (the empty rows on top of the rows that were not full) and counts the full rows |
| Field.SweptShape | tetris.js:269-295 | the swept arena has as many rows as before, each of the arena's width, and none of them is full |
| Field.SweptRowMovesDown | tetris.js:287-291 | a row that was not full moves down by the number of full rows beneath it, so the surviving rows keep their order |
| Field.SweptTopIsEmpty | tetris.js:289-290 | the top rows of the swept arena are empty, one per cleared row |
| Field.SweptIdempotent | tetris.js:269-295 | sweeping a swept arena clears nothing and changes nothing |
| Field.LandingRow | tetris.js:419-423 | the drop loop ends one row above the first colliding row: if the start collides, one row above the start; otherwise every row from the start to the result is free and the next one collides |
| Field.DropToRest | tetris.js:419-423 | the while loop with its step back returns `LandingRow` |
| Field.HardLand | tetris.js:419-437 | the drop loop followed by the placement loop yields the arena with the piece stamped at `LandingRow` |
| Kicks.ShiftStep | tetris.js:204 | adding the current offset to the column moves from candidate i to candidate i+1, so the candidates are x0, x0+1, x0-1, x0+2, … |
| Kicks.OffsetStep | tetris.js:205 | the offset update turns 1, -2, 3, -4, … into its successor, and the magnitude after i failures is i+1 |
| Kicks.KickCount | tetris.js:206 | the search gives up after the first failure whose new offset exceeds N; for sides 3 and 4 that is exactly four candidates |
| Kicks.KickEnds | tetris.js:206 | among the failures that can happen, the offset exceeds N only after the last candidate, which bounds the loop |
| Kicks.CheckMisplaced | tetris.js:201-203 | the loop guard rejects a column where the N-wide square crosses a side wall or collides |
| Kicks.FirstFit | tetris.js:200-212 | the reference search returns the first candidate that is not rejected, with all earlier ones rejected, or none when every candidate is rejected |
| Kicks.KickColumn | tetris.js:200-212 | the column the search accepts (x0 moved by the shift of the first candidate `FirstFit` finds) keeps the whole N-wide square within the walls and free of collisions |
| Kicks.Kick | tetris.js:200-212 | the loop, with its step, offset update and give-up test, returns exactly `KickColumn` |
| Kicks.TurnAndPlace | tetris.js:183-212 | playerRotate's steps on values: the turned shape is `Rotated(m, dir)` and the accepted column is `KickColumn` searched from x − leftOffset of the turned shape |
| Scoring.ScoreDelta | tetris.js:298-314 | clearing n rows scores 0 for n = 0, 100, 300, 500 or 800 for n = 1..4, and 100·n beyond that |
| Scoring.LevelFor | tetris.js:325 | the level is the number of whole thousands in the score plus one, and at least 1 for a non-negative score |
| Scoring.IntervalFor | tetris.js:327-328 | the interval is 1000 − 100·level, raised to 100 ms when lower |
| Scoring.IntervalBounds | tetris.js:323-329 | for any non-negative score the interval lies between 100 and 900 ms |
| Scoring.ProgressionMonotone | tetris.js:323-329 | a higher score never gives a lower level or a longer interval |
| Scoring.ProgressionSteps | tetris.js:325-328 | every 1000 points raise the level by one, and from 8000 points on the interval is 100 ms |
| Engine.SpawnFitsEmptyArena | tetris.js:353-363 | every piece spawned on an empty arena fits, so startGame never ends the game at once |
| Engine.Game.constructor | tetris.js:45-59 | the initial state: an empty 10×20 arena, no piece, score 0, level 1, interval 1000 ms, not over, not paused |
| Engine.Game.PlayerReset | tetris.js:238-249 | the new piece is `createPiece(t)` at row 0 and column max(0, 5 − ⌊N/2⌋); the game ends exactly when the piece collides there (or was already over); nothing else changes |
| Engine.Game.PlayerMove | tetris.js:151-178 | only x can change; it becomes x+dir exactly when the piece does not collide there and otherwise stays; a piece that did not collide still does not collide |
| Engine.Game.PlayerRotate | tetris.js:180-213 | either the turned shape is kept, in the same row, at the column `KickColumn` accepts (so within the walls and free of collisions), or shape and column are restored exactly when the search gives up |
| Engine.Game.UpdateScore | tetris.js:323-329 | the level and the interval follow from the score; for a non-negative score the level is at least 1 and the interval lies in [100, 1000] |
| Engine.Game.ArenaSweep | tetris.js:269-321 | the arena becomes `Swept` of the old arena, the score rises by `ScoreDelta` of the number of full rows, and nothing else changes |
| Engine.Game.PlayerDrop | tetris.js:139-149 | a piece that is free one row down moves down and nothing else changes; otherwise it lands where it is, the next piece spawns and is tested for game over before the sweep, and the sweep and rescore follow; the drop counter restarts either way |
| Engine.Game.LandAndSpawn | tetris.js:413-446 | the piece lands at `LandingRow` and the next piece appears at column ⌊W/2⌋ − ⌊N/2⌋, row 0, with no clamp and no collision test |
| Engine.Game.SweepAndCheck | tetris.js:447-458 | the sweep and rescore, then game over exactly when the new piece collides with the swept arena, and otherwise a restarted drop counter |
| Engine.Game.HardDrop | tetris.js:413-459 | a no-op when over or paused; otherwise the new arena is the sweep of the arena with the piece landed at `LandingRow`, with the score, level, interval, spawn and game-over test in that order |
| Engine.Game.Update | tetris.js:331-351 | a no-op when over or paused; otherwise delta is added to the counter, and once the counter exceeds the interval exactly one `playerDrop` happens and the counter restarts |
| Engine.Game.StartGame | tetris.js:353-365 | an empty arena, score 0, level 1, a cleared counter and flags, a fresh piece that fits; the drop interval keeps its old value |
| Engine.Game.TogglePause | tetris.js:367-372 | the pause flag flips and nothing else changes |

## Left out

- Drawing, the canvas, the colour table and the page text written by `updateScore` and `startGame` (tetris.js:1-32, 77-122, 324, 326, 359-360): rendering only, with no effect on the game state.
- Console logging: it has no effect on the game state.
- The keyboard, touch and button listeners (tetris.js:374-526): they capture input and dispatch to the modelled operations.
- `requestAnimationFrame`, `lastTime` and the timestamp arithmetic of `update`: `Engine.Game.Update` takes the elapsed time `delta` as a parameter.
  - The `update()` call at the end of `startGame` runs with time 0 and `lastTime` 0, so it changes nothing; it is not modelled.
  - The `update()` call in `togglePause` adds `0 - lastTime` to the drop counter. It is not modelled, because `lastTime` is not modelled.
- `Math.random`: the piece type is a parameter `t` of the methods that spawn, and callers pass 1..7 as the random choice does.
- `JSON.parse(JSON.stringify(...))` copies and aliasing: grids are values. That `createPiece` with an invalid type returns the shared `PIECES[1]` itself, not a copy, cannot be observed here.
- In-place updates become assignments of new values:
  - `rotate` and `merge` mutate their argument in the source, while `Geometry.Rotate` and `Field.Merge` return the new grid, which the caller stores.
  - `arenaSweep`'s splice and unshift are one sequence assignment.
- Intermediate writes to the player:
  - `playerMove` writes x and writes it back after a collision;
  - `playerRotate` turns the shape, shifts x, moves x through the candidates, and restores both when the search fails;
  - `playerDrop` moves y down and back.

  The model tests a position first and writes the outcome once. The observable state after each call is the same.
- The `score` member of the player object and the `rowCount` variable: nothing reads them.
- Some loops of the source are split into value-level methods, which the class methods call in the source's order. Each of these methods changes nothing, and `Engine.Game.HardDrop` and `Engine.Game.PlayerRotate` state the combined effect:
  - `hardDrop` becomes `Engine.Game.LandAndSpawn` and `Engine.Game.SweepAndCheck`;
  - its drop and placement become `Field.HardLand`;
  - the steps of `playerRotate` become `Kicks.TurnAndPlace`.
- The null player shape before the first spawn is the empty grid. The piece operations require a spawned piece, as the source needs one to read `player.matrix`.
