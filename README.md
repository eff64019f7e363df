# A verified model of the pig.js falling-block game

`pig.js` is a browser falling-block puzzle. The arena is 15 cells wide and 30 rows high. The player steers one of seven pieces in it. A piece is moved sideways, turned with a wall-kick search, and dropped. When it cannot fall any further it is merged into the arena, the next piece spawns, and full rows are swept away for 15 points each. This project models that piece-and-grid simulation in Dafny and proves what each step does.

The model keeps the source's form:

- The arena is a list of rows (`seq<seq<int>>`) that the operations reassign.
- The piece buffer `player.matrix` is an `array2<int>`, and the rotation swaps its cells in place.
- The game state (arena, piece, position, score, drop counter and drop interval) lives in a class, `Tetris.Game`.
- Every method's result is tied to a specification function, and the properties are proved as lemmas:
  - `Merged`, `Rotated`, `FirstFree` and `Swept` describe one step each.
  - `Locked` describes the whole lock step.

Modules:

- `Grid`: the matrix type, `createMatrix` and row clearing.
- `Pieces`: the seven-shape catalogue.
- `Rotation`: quarter turns, and the in-place `rotate`.
- `Collision`: the JavaScript lookup `arena[r] && arena[r][c]`, and `collide`.
- `Kick`: the offset sequence of the wall-kick search, and the first free trial column.
- `Sweep`: `arenaSweep`, with a closed form of its result.
- `Tetris`: the game class (`playerMove`, `playerRotate`, `merge`, `playerReset`, `playerDrop`) and the lock step.

Behaviour of the code worth knowing:

- **Out-of-range collisions.** The collision test treats every filled piece cell that lands outside the arena as a collision, on any side. A missing row makes `arena[r] && …` evaluate to `undefined`, and `undefined !== 0` holds (`Collision.Blocked`).
- **Kick abort test.** The wall-kick search stops on the signed test `offset > width`, not on the offset's magnitude. A piece of width 4 is therefore tried at the same four columns as one of width 3, namely 0, +1, -1 and +2 (`Kick.KickTrialsOfCatalogueWidths`).
- **Spawn before sweep.** The lock step spawns the next piece before it sweeps. The spawn test therefore sees the unswept arena, and the new piece can overlap settled cells once the sweep has shifted them down (`Tetris.SpawnCheckPrecedesSweep`, on the game's own 15-by-30 arena; the settled cells there are chosen for brevity and are not a position reached in play). So `Game.Valid` keeps the piece inside the arena and every cell of the arena and of the piece within 0 to 7, the values a renderer colours by. It does not keep the piece clear of settled cells.
- **Top row.** The sweep never examines row 0 where it starts. A full top row is removed only after a lower full row has shifted it down (`Sweep.TopRowExamples`).

## Model

| member | source | states |
|---|---|---|
| Grid.CreateMatrix | pig.js:12-18 | the result has exactly h rows of exactly w cells, all 0 |
| Grid.Cleared | pig.js:110 | every row keeps its width and every cell becomes 0 |
| Pieces.Pick | pig.js:104-105 | a random number in the k-th seventh [k/7, (k+1)/7) of [0, 1) draws the k-th letter of 'TJLOSZI', so each letter has an equal share |
| Pieces.PickCoversShapes | pig.js:104-105 | every shape is drawn for some random number in [0, 1) |
| Pieces.ShapeValue | pig.js:20-63 | each shape's fill value lies in 1..7 |
| Pieces.CreatePiece | pig.js:20-63 | every pattern is an n-by-n square with n from 2 to 4 |
| Pieces.PieceValues | pig.js:20-63 | every cell of a pattern is 0 or the shape's own value |
| Pieces.PieceCellsIn | pig.js:20-63 | every cell of every pattern holds a value from 0 to 7 |
| Pieces.PieceFilled | pig.js:20-63 | every pattern has exactly four filled cells |
| Pieces.ShapeValueInjective | pig.js:20-63 | distinct shapes have distinct fill values |
| Rotation.Transpose | pig.js:118-128 | after the swap loop, cell [i][j] holds the old cell [j][i] |
| Rotation.ReverseEachRow | pig.js:131 | cell [i][j] holds the old cell [i][n-1-j] |
| Rotation.ReverseRowOrder | pig.js:133 | cell [i][j] holds the old cell [n-1-i][j] |
| Rotation.Rotate | pig.js:117-135 | the buffer holds the clockwise quarter turn (m'[i][j] = m[n-1-j][i]) when dir > 0, else the counter-clockwise one (m'[i][j] = m[j][n-1-i]) |
| Rotation.RotateBack | pig.js:117-135 | turning by dir and then by -dir restores the piece, for either direction |
| Rotation.RotatedCellsIn | pig.js:117-135 | a turn keeps every cell value of the piece within 0 to 7 |
| Rotation.CWThenCCW | pig.js:117-135 | a clockwise turn is undone by a counter-clockwise one |
| Rotation.CCWThenCW | pig.js:117-135 | a counter-clockwise turn is undone by a clockwise one |
| Rotation.HalfTurn | pig.js:117-135 | two clockwise turns map cell [i][j] to [n-1-i][n-1-j] |
| Rotation.FourCW | pig.js:117-135 | four clockwise turns are the identity |
| Rotation.FourCCW | pig.js:117-135 | four counter-clockwise turns are the identity |
| Collision.Lookup | pig.js:157-158 | `arena[r] && arena[r][c]` is a number exactly when row r and column c both exist, and then it is that cell |
| Collision.Blocked | pig.js:156-158 | a target cell blocks exactly when it lies outside the rows or the columns, on any side, or is non-zero |
| Collision.FreeIsInBounds | pig.js:152-164 | a position that does not collide keeps every filled piece cell inside the arena |
| Collision.Collide | pig.js:152-164 | the result is true iff some filled piece cell, offset by the position, lands on a blocked cell; nothing is modified |
| Kick.OffsetStep | pig.js:142-143 | the update rule yields the offsets 1, -2, 3, -4, …, and the shift after k steps is 0, 1, -1, 2, -2, … |
| Kick.AbortExactlyAtLimit | pig.js:144 | the signed test `offset > width` first fires after exactly KickLimit(w) trials |
| Kick.KickTrials | pig.js:137-150 | a piece of width w is tried at KickLimit(w) shifts |
| Kick.KickTrialsOfCatalogueWidths | pig.js:137-150 | the tried shifts are [0,1] for width 2 and [0,1,-1,2] for widths 3 and 4; for width 3 the shift to -2 is applied and never tried |
| Kick.KickTrialsBounded | pig.js:137-150 | the tried shifts are distinct and lie within half the width on either side, so the search is bounded |
| Kick.FirstFreeFits | pig.js:141-149 | a column the search returns is free of collisions |
| Kick.FirstFreeFirst | pig.js:141-149 | a returned column is a trial column, and every earlier trial collides |
| Kick.FirstFreeNone | pig.js:141-149 | the search finds nothing iff every trial column collides |
| Kick.KickMiss | pig.js:141-146 | after a colliding trial, the offset update and the abort test either move the search to the next trial or end it with nothing found exactly after the last trial |
| Kick.KickHit | pig.js:141 | the search stops at the first trial where the piece fits, at that column |
| Sweep.IsFull | pig.js:168-172 | the scan of a row reports full iff no cell is 0 |
| Sweep.Lift | pig.js:174-175 | splicing row r out and unshifting it emptied keeps the number of rows |
| Sweep.SweepRows | pig.js:166-180 | the loop leaves the arena equal to Swept (an empty row on top per removed row, above the non-full rows in their order) and adds 15 points per removed row |
| Sweep.KeepAndFullCount | pig.js:166-180 | every row is either kept or counted as removed |
| Sweep.KeepRows | pig.js:166-180 | the kept rows are rows of the input, none of them full |
| Sweep.KeepNoneFull | pig.js:166-180 | without full rows, every row is kept |
| Sweep.NoFullRowCount | pig.js:166-180 | rows with an empty cell each count no full rows |
| Sweep.ZerosNotFull | pig.js:174-175 | empty rows of positive width are never full |
| Sweep.KeepAppend | pig.js:166-180 | keeping and counting the full rows distribute over two blocks of rows |
| Sweep.SweptBottomRow | pig.js:174-176 | when the bottom row is the only full one, the sweep removes exactly it, puts one empty row on top and shifts every other row down by one |
| Sweep.SweptShape | pig.js:166-180 | the sweep keeps the height and every row's width |
| Sweep.SweptNoFullRowBelowTop | pig.js:166-180 | afterwards every row with index at least 1 has an empty cell |
| Sweep.SweepIdempotent | pig.js:166-180 | a second sweep changes nothing and awards nothing |
| Sweep.SweepEmpty | pig.js:166-180 | an empty arena is left as it is, with no points |
| Sweep.SweptCellsIn | pig.js:166-180 | the sweep keeps every cell value of the arena within 0 to 7, since it only moves input rows and adds empty ones |
| Sweep.TopRowExamples | pig.js:167 | a full top row stays when nothing below is full, and is removed once a lower full row shifts it down |
| Sweep.ScanLooks | pig.js:167-172 | the index the scan examines is in range and its row has the arena's width; while input rows remain unexamined, that row is the next unexamined input row, and when it is full, some input row remains |
| Sweep.ScanKeepStep | pig.js:167-172 | passing over a non-full row keeps the scan invariant |
| Sweep.ScanClearStep | pig.js:174-178 | removing a full row and re-examining the same index keeps the scan invariant with one more removed row |
| Sweep.ScanEnd | pig.js:167 | when the scan stops, the arena is Swept and the removed rows are ClearedRows |
| Tetris.SpawnX | pig.js:107-108 | a piece no wider than the arena spawns inside its columns, and the free columns on its two sides differ by w mod 2 - n mod 2 (centred, leaning left) |
| Tetris.SpawnInBounds | pig.js:106-108 | every catalogue piece spawned at row 0, column floor(15/2) - floor(n/2), lies inside the arena |
| Tetris.Merged | pig.js:86-94 | merging keeps the number of rows and every row's width |
| Tetris.MergedCellsIn | pig.js:86-94 | merging a piece whose cells are within 0 to 7 into an arena whose cells are within 0 to 7 keeps every arena cell within 0 to 7 |
| Tetris.MergedCells | pig.js:86-94 | every filled piece cell is written at its offset and every other arena cell keeps its value |
| Tetris.MergedBlocksPiece | pig.js:86-94 | once merged, the piece collides at the place it was merged at, and no filled cell is emptied |
| Tetris.MergedUpToStep | pig.js:87-92 | one step of the nested loops writes exactly the current filled cell |
| Tetris.DropInterval | pig.js:198-200 | the interval is positive and at most 1000 ms |
| Tetris.DropIntervalHalves | pig.js:198-200 | the interval is 1000 ms below 30 points and halves with every further 30 points |
| Tetris.SpawnCheckPrecedesSweep | pig.js:206-208 | in a 15-by-30 arena, a J that spawns clear, fits at column 0, row 27 and collides one row lower is locked; the T that follows spawns clear of the merged arena, yet in the Locked state (15 points) it overlaps the cell the sweep shifted down |
| Tetris.Locked | pig.js:204-210 | the lock sequence in the source's order: merge, spawn (emptying the arena and the score when the new piece collides at once), sweep with 15 points per removed row, interval from the score; its contract: the new piece is the chosen shape at row 0 inside the arena's columns, and the interval lies in (0, 1000] ms |
| Tetris.LockedGameOver | pig.js:109-114 | a lock whose next piece collides at spawn leaves an empty arena, score 0 and interval 1000 ms |
| Tetris.LockedCellsIn | pig.js:205-210 | a lock keeps every cell of the arena and of the next piece within 0 to 7 |
| Tetris.LockedScores | pig.js:202-213 | otherwise the score grows by a multiple of 15, and the arena keeps its size with no full row below the top |
| Tetris.Game.constructor | pig.js:5-10 | the game starts with an empty 15-by-30 arena, score 0, interval 500 ms and the first piece spawned |
| Tetris.Game.NewPiece | pig.js:105 | a fresh square buffer holding the chosen pattern |
| Tetris.Game.Spawn | pig.js:103-108 | the new piece is at row 0, centred, inside the arena; nothing else changes |
| Tetris.Game.Reset | pig.js:103-115 | if the spawned piece collides, the arena is emptied, the score is 0 and the interval 1000 ms; otherwise they are unchanged |
| Tetris.Game.Move | pig.js:96-101 | x moves by dir iff the piece does not collide there; y, the piece, the arena and the score never change |
| Tetris.Game.KickSearch | pig.js:139-149 | the loop reports the first trial column where the turned piece fits, or failure iff every trial collides |
| Tetris.Game.TurnAndKick | pig.js:137-150 | the buffer ends turned, at the first free trial column, or turned back with the column restored |
| Tetris.Game.RotatePlayer | pig.js:137-150 | the piece is turned and placed at the first free trial column, or the old piece and column are restored; y, the arena and the score never change |
| Tetris.Game.MergeInto | pig.js:86-94 | the nested loops produce Merged |
| Tetris.Game.Merge | pig.js:86-94 | the arena becomes Merged; the player does not change |
| Tetris.Game.Sweep | pig.js:166-180 | the arena becomes Swept and the score grows by 15 per removed row; the game invariant, including the 0-to-7 range of every cell, is kept |
| Tetris.Game.Lock | pig.js:205-210 | merge, spawn, sweep and interval update, in that order, give the state Locked |
| Tetris.Game.Fall | pig.js:203 | a piece that is free one row lower moves down exactly one row |
| Tetris.Game.Drop | pig.js:202-213 | the piece moves down one row if it is free there, otherwise the Locked state follows; the drop counter is 0 either way |

## Left out

- Rendering, meaning `drawMatrix` and `draw` (pig.js:66-84), and the score text written by `updateScore` (pig.js:182-184). These are display output only.
- The mouse, touch and keyboard listeners, the repeat timers and `simulateClick` (pig.js:215-349). They only decide which of Move, RotatePlayer and Drop runs and when.
- The `update` frame loop (pig.js:351-368). The model does not include its accumulation of elapsed time into the drop counter, nor its choice between the normal and the fast interval. Drop only zeroes the counter.
- `Math.random()` in `playerReset` (pig.js:105). Pieces.Pick draws the letter for a given random number; Reset, Lock and Drop take the drawn shape as a parameter.
- Tetris.DropInterval is an exact real, while the source computes it in doubles. Every value 1000/2^k is an exact double for speed levels k up to 1023, that is for scores below 30,720. From level 1024 on, `Math.pow(2, k)` overflows to `Infinity` and the source's interval becomes 0, while the model's stays 1000/2^k.
- Tetris.Game.Drop tests the piece one row lower before moving it. The source moves the piece, tests, and moves it back. The states reached are the same.
- Tetris.Game.RotatePlayer applies the kick search's shifts to a local column and stores it once at the end. The source writes `player.pos.x` on every shift. Only the final column is observable.
- Tetris.Game.Merge and Tetris.Game.Sweep work on a local copy of the arena rows and store it back once.
- JavaScript arrays are shared by reference. The model does not capture aliasing between the arena's row objects: `merge` writes into row objects, and the sweep re-inserts a removed row object zeroed. The model treats rows as values.
- Rotation.Rotate requires a square buffer. Every catalogue piece is square, so the source's result on a non-square matrix is not modelled.
- Sweep.SweepRows requires rows of at least one cell. With empty rows every row counts as full, and the source's scan would re-examine the same index forever. The arena is always 15 wide.
