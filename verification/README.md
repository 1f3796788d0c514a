# QuadBlox game core in Dafny

This project models the game logic of QuadBlox, a falling-block puzzle game
written in C on top of raylib (`quadblox.c`).

The playfield is a 10 x 28 board of colour indices, indexed `board[x][y]`. Row 0
is at the top and 0 means an empty cell. The player steers a piece: a 4 x 4
frame of colour indices, `blocks[x][y]`, placed on the board at an anchor
`(x, y)`. The game keeps one active `piece` and one scratch `swapPiece`. Every
move is proposed in the scratch piece, tested for collision, and committed only
when it fits.

When a drop collides, the active piece is locked into the board. Full rows are
then cleared with the 1/3/6/12 score table, and a new piece spawns at column 5
of row 0. A new game empties the board and seeds its bottom five rows. Each
seeded row is filled with random colours except for one random gap.

The model has three modules:

- **`Grid`** describes the board as a value: a sequence of rows, with `g[y][x]`
  being `board[x][y]`. It defines:
  - the row shift of `clearLines`;
  - the whole `clearLines` scan as a terminating function, `ClearFrom`;
  - an independent reference for that scan, `Compacted`. Full rows are removed,
    the other rows are kept in order, and copies of row 1 fill in beneath row 0;
  - the score table;
  - the rows that `addLine` seeds.
- **`Pieces`** describes 4 x 4 frames as values. It defines:
  - the translation that `positionPiece` performs, and its reference
    definition `Normalized` (shift so the leftmost and topmost occupied cells
    reach column 0 and row 0);
  - the quarter turn `new[3 - x][y] = old[y][x]` of `rotatePiece`;
  - the seven shapes of `generatePiece`.
- **`QuadBlox`** holds:
  - the collision predicate, an independent "fits" predicate and the
    lock-into-board function;
  - the class `Game`, with the C globals as fields: `board: array2<int>`,
    `piece`, `swapPiece`, `score` and `lines`.

  Each C function becomes a method of `Game` with the same loops. Each method
  is proved against the value-level functions above.

The state invariant `Game.Playing` holds between frames. It says:

- every board cell is a colour index 0..8;
- no row from 1 down is full;
- the active piece has exactly four cells, each a colour 1..8, all on the board;
- the anchor row is never negative.

Each operation keeps this invariant.

Random draws and key presses are method parameters: shape 1..7, colour 1..8,
gap column 0..9, and one flag per key. The timer tick is a boolean parameter.

Two behaviours of the C code are captured:

- **The line scan never terminates when row 1 is full.** `clearLines` shifts
  only rows 2..y, so row 1 is never written. After shifting it re-examines the
  same row. One pass of the loop body is `Grid.ScanStep`. With row 1 full, any
  number of passes from any starting row, row 27 included, leaves row 1 full
  and the scan at row 1 or below, so the loop never exits
  (`Grid.ScanNeverExits`). From row 1 itself the board does not change at all
  (`Grid.ClearStuckAtRowOne`). With row 1 not full the scan does exit, with the
  result of `Grid.ClearFrom` (`Grid.ClearFromIsScan`).
  The model does not hang in its place:
  - `Game.ClearLines` requires row 1 not to be full.
  - `Game.PlacePiece` checks for that case and returns `hung = true` instead of
    clearing. Callers get the same report.
- **Clearing a row duplicates row 1 instead of emptying it.** When a row is
  cleared, row 1 is copied down into row 2. Row 0 never moves.

`startGame` (quadblox.c:360-365) does not reset `score` or `lines`, so a new
game continues from the previous counters; the model follows the code
(`Game.StartGame`).

## Model

| member | source | states |
|---|---|---|
| QuadBlox.RowsOf | quadblox.c:37 | the row view of `board[x][y]`: row y, column x of the result is `board[x][y]`, 28 rows of 10 cells |
| QuadBlox.CollidesIffNoFit | quadblox.c:320-340 | the collision test is true exactly when the candidate does not fit, i.e. some occupied cell lands left or right of the board, below row 27, or on a tile (both directions) |
| QuadBlox.SpawnedIsActive | quadblox.c:211-263 | a spawned piece keeps the play invariant: four cells of the drawn colour, anchor (5, 0), on the board in columns 5..7 and rows 0..3 |
| QuadBlox.LockAddsPieceTiles | quadblox.c:344-356 | locking an on-board piece adds exactly its cells to the board's tiles, each with the piece's colour; other cells are unchanged; when the piece fits, none of its cells was occupied |
| QuadBlox.TurnStepFits | quadblox.c:299-318 | one press of the rotate key takes the normalised quarter turn at the same anchor exactly when it fits the board, and otherwise keeps the piece; the tile count and colour range are kept |
| QuadBlox.MoveStepFits | quadblox.c:125-142 | one press of a sideways key moves the piece by dx columns exactly when the moved piece fits the board, and otherwise keeps it |
| QuadBlox.KeyStepKeepsActive | quadblox.c:121-142 | the key half of a frame keeps an active piece active and in its row; the result is the old piece or fits the board; with no key pressed it is the old piece |
| QuadBlox.LockFillsAtMostFourRows | quadblox.c:342-358 | on a board with no full row from row 1 down, one lock leaves at most four full rows there, so the score table covers every case |
| QuadBlox.Game.constructor | quadblox.c:34-37 | the zero-initialised globals: empty board, score 0, lines 0 |
| QuadBlox.Game.DetectSwapPieceCollision | quadblox.c:320-340 | the early-return scan returns exactly the collision predicate of the scratch piece on the current board |
| QuadBlox.Game.ShiftLeft | quadblox.c:270-280 | one left-shift pass moves frame columns 1..3 to 0..2 and empties column 3; the anchor is unchanged |
| QuadBlox.Game.ShiftUp | quadblox.c:285-295 | one up-shift pass moves frame rows 1..3 to 0..2 and empties row 3; the anchor is unchanged |
| QuadBlox.Game.AlignLeft | quadblox.c:268-281 | the left-shift loop runs exactly FirstColumn times (at most 3) and leaves the frame translated by that many columns |
| QuadBlox.Game.AlignTop | quadblox.c:283-296 | the up-shift loop runs exactly FirstRow times (at most 3) and leaves the frame translated by that many rows |
| QuadBlox.Game.PositionPiece | quadblox.c:265-297 | on a non-empty frame, the piece becomes its normalised frame after at most 3 left and 3 up shifts, with the anchor unchanged |
| QuadBlox.Game.TurnIntoSwap | quadblox.c:302-310 | the scratch piece gets the active anchor and the active frame turned: `new[3 - x][y] = old[y][x]` |
| QuadBlox.Game.ProposeTurn | quadblox.c:301-313 | both pieces become the normalised turned frame at the old anchor, still four cells of colours 1..8 |
| QuadBlox.Game.RotatePiece | quadblox.c:299-318 | the piece becomes the normalised turned frame at the same anchor, or stays exactly as before when that candidate collides (the rotate-key step `TurnStep`); the play invariant is kept |
| QuadBlox.Game.MoveSideways | quadblox.c:125-142 | the candidate is the piece with x moved by exactly -1 or +1; the piece takes it only if it does not collide, otherwise it is unchanged (the sideways-key step `MoveStep`); board, score and lines are untouched |
| QuadBlox.Game.GeneratePiece | quadblox.c:211-263 | the piece becomes the chosen shape in the drawn colour, normalised, at anchor (5, 0), and satisfies the play invariant |
| QuadBlox.Game.IsRowFull | quadblox.c:421-425 | the result is true exactly when every column of row y is non-zero |
| QuadBlox.Game.ShiftRowsDown | quadblox.c:430-436 | the board becomes the row shift of row y: rows 2..y take the old rows 1..y-1, and all other rows keep their values |
| QuadBlox.Game.ClearLines | quadblox.c:414-448 | given row 1 is not full, the board becomes the result of the clearing scan; score grows by the table entry for the cleared count, and lines by that count; no row from 1 down is left full |
| QuadBlox.Game.WritePiece | quadblox.c:344-356 | the board becomes the old board with every occupied piece cell written at `(piece.x + x, piece.y + y)` |
| QuadBlox.Game.PlacePiece | quadblox.c:342-358 | the piece is written into the board; when that fills row 1 the result is `hung` (the case where the C scan never exits, `Grid.ScanNeverExits`) and nothing else changes; otherwise lines are cleared (at most four) and scored, and the play invariant is kept |
| QuadBlox.Game.LockAndSpawn | quadblox.c:147-151 | placePiece, then, unless hung, a new piece of the drawn shape and colour is spawned |
| QuadBlox.Game.Drop | quadblox.c:143-156 | the candidate is the piece one row lower. If it fits, only `piece.y` grows by one. If it collides, the piece is locked, lines are cleared and scored, and the next piece spawns (or the result is `hung`) |
| QuadBlox.Game.RaiseRows | quadblox.c:379-385 | every row takes the row below it; row 0 is discarded and row 27 stays |
| QuadBlox.Game.FillBottomRow | quadblox.c:386-398 | row 27 becomes the drawn colours with exactly one 0 at the gap column; other rows are unchanged |
| QuadBlox.Game.AddLine | quadblox.c:377-399 | the board moves up one row, dropping row 0, and gains the seeded row at the bottom; colours stay in range |
| QuadBlox.Game.EmptyBoard | quadblox.c:202 | every board cell becomes 0 |
| QuadBlox.Game.ClearBoard | quadblox.c:200-209 | the board becomes 23 empty rows above the five seeded rows; no row is full |
| QuadBlox.Game.StartGame | quadblox.c:360-365 | board seeded as by clearBoard, a freshly spawned piece, the play invariant established; score and lines unchanged |
| QuadBlox.Game.HandleKeys | quadblox.c:121-142 | the piece becomes the composition of the key steps: the turn step if the rotate key was pressed, then the left move if left was pressed, then the right move if right was pressed; the play invariant is kept |
| QuadBlox.Game.PlayFrame | quadblox.c:121-156 | the piece first takes the key steps; without tick or down key nothing else changes; with a drop, the key-moved piece one row lower is taken if it does not collide (board, score and lines untouched), otherwise the key-moved piece is locked, lines are cleared and scored and the next piece spawns, or the result is `hung`; the play invariant is kept unless hung and the counters never decrease |
| Grid.ShiftDown | quadblox.c:430-436 | the shift for row y equals rows 0..1, then old rows 1..y-1, then the rows below y; row 1 is duplicated rather than emptied |
| Grid.ShiftDownRemovesOne | quadblox.c:427-437 | shifting out a full row y (row 1 not full) removes exactly one full row from rows 1..y and puts a copy of row 1 in front of the others |
| Grid.ClearFrom | quadblox.c:419-439 | the scan with the same-row re-examination terminates while row 1 is not full, and the cleared count only grows |
| Grid.ClearFromCompacts | quadblox.c:419-439 | the scan from row y equals the reference compaction of rows 1..y: copies of row 1, then the non-full rows in order; the count grows by the number of full rows |
| Grid.ClearLinesCompacts | quadblox.c:414-439 | a whole clearLines clears exactly the full rows among 1..27: row 0, then that many copies of row 1, then the remaining rows in order |
| Grid.ClearLinesOutcome | quadblox.c:414-439 | after clearLines no row from 1 down is full; rows 0 and 1 are unchanged; every row is an old row; colours stay in range; fewer than 27 rows are cleared; a board without full rows is returned unchanged with count 0 |
| Grid.ShiftAtRowOneIsIdentity | quadblox.c:430-436 | the shift for row 1 writes nothing: the board is unchanged |
| Grid.ScanNeverExits | quadblox.c:419-437 | with row 1 full, k passes of the loop body from any row y >= 1 leave row 1 full and the scan at a row >= 1, for every k: the whole clearLines loop, started at row 27, never exits |
| Grid.ClearStuckAtRowOne | quadblox.c:419-437 | with row 1 full, k passes of the loop body from row 1 leave the board unchanged, the scan at row 1 and the count raised by k, for every k |
| Grid.ClearFromUnfolds | quadblox.c:419-437 | while row 1 is not full, one pass of the loop body is one unfolding of the terminating scan, and it lowers the scan's measure (fewer full rows, or the same and a higher row) |
| Grid.ClearFromIsScan | quadblox.c:419-439 | while row 1 is not full, some finite number of passes of the loop body from (g, y, n) reaches row 0 with exactly the terminating scan's board and count |
| Grid.KeptFacts | quadblox.c:419-439 | the kept rows plus the full rows account for every row; each kept row is an original row and is not full |
| Grid.ScoreFor | quadblox.c:441-444 | points are positive exactly for 1..4 cleared rows; the 1/3/6/12 table itself is the body |
| Grid.SeedRow | quadblox.c:386-398 | the seeded row has 10 cells, exactly one empty column (the gap), colours 1..8 elsewhere, and is never full |
| Grid.SeedRows | quadblox.c:203-206 | row i of the five seeded rows is the row seeded by the i-th draw |
| Grid.SeedStep | quadblox.c:203-206 | one more addLine on a partly seeded board seeds exactly one more row beneath the earlier ones |
| Grid.SeededBoard | quadblox.c:200-209 | after clearBoard rows 0..22 are empty and each of rows 23..27 has exactly one empty cell at its gap; no row is full and colours are in range |
| Pieces.TranslateTwice | quadblox.c:268-296 | shifting a frame twice equals shifting it once by the sum of the offsets |
| Pieces.FirstColumn | quadblox.c:268 | the first column holding a tile: columns before it are empty and it is not |
| Pieces.FirstRow | quadblox.c:283 | the first row holding a tile: rows before it are empty and it is not |
| Pieces.LeftShiftGuard | quadblox.c:268 | the left-loop guard holds after k shifts exactly when k is below FirstColumn, so the loop stops after FirstColumn shifts |
| Pieces.UpShiftGuard | quadblox.c:283 | the up-loop guard holds after m shifts exactly when m is below FirstRow, so the loop stops after FirstRow shifts |
| Pieces.NormalizedTranslates | quadblox.c:265-297 | normalisation only translates: every occupied cell moves left and up by fixed offsets and keeps its colour, and every occupied result cell comes from such a cell |
| Pieces.NormalizedColours | quadblox.c:265-297 | normalisation keeps every cell a colour index in 0..8 |
| Pieces.NormalizedCount | quadblox.c:265-297 | normalisation keeps the number of occupied cells |
| Pieces.NormalizedTouchesCorner | quadblox.c:265-297 | after normalisation both column 0 and row 0 of the frame hold a tile |
| Pieces.NormalizedIdempotent | quadblox.c:265-297 | running positionPiece a second time changes nothing |
| Pieces.RotatedMovesCells | quadblox.c:304-310 | the turn puts `old[y][x]` at `[3 - x][y]`, keeps the number of occupied cells and keeps colours in range |
| Pieces.RotatedFourTimes | quadblox.c:304-310 | four turns give back the frame, so a turn is a bijection of the 16 cells |
| Pieces.TurnedKeepsTiles | quadblox.c:304-313 | the normalised turned frame has as many occupied cells as the original, and colours in range |
| Pieces.ShapeFrameFacts | quadblox.c:217-261 | each of the seven shapes has exactly four cells, all of the drawn colour, and an empty column 0 |
| Pieces.SpawnedFacts | quadblox.c:211-263 | a spawned piece has anchor (5, 0), four cells of the drawn colour in frame columns 0..2, and touches the top-left of its frame |

## Left out

- The raylib window, the main loop and the `state` switch (quadblox.c:69-97) are not modelled. Neither is the title scene (quadblox.c:99-111). These are I/O.
- Drawing is not modelled: the outline, tiles, score and lines text, and the `colorTable` palette. These are presentation only. The `colorTable` bound is reflected in the invariant that every cell holds a colour index 0..8.
- `Tick` and `lastTick` are left out, because they compare floating-point wall-clock times. The tick is a boolean parameter of `PlayFrame`, and `StartGame` does not record a start time.
- `GetRandomValue`, `randomColorIndex` and `randomColor` are left out, because they are foreign randomness. The shape, colour, gap column and row colours are parameters constrained to their ranges.
- `IsKeyPressed` and `IsKeyDown` are left out, because key polling is I/O. Each key is a boolean parameter.
- QuadBlox.Game.DetectSwapPieceCollision: requires the scratch anchor row to be non-negative. The C has no check for a negative row, and every call in the game happens with `y >= 0` (`Playing` keeps `piece.y >= 0`). The model also tests the bounds before reading the board. The C reads `board[tx][ty]` first, which is outside the array whenever a bound fails; the two agree wherever the C read is defined.
- QuadBlox.Game.PositionPiece: requires a frame with at least one tile, because the C loops forever on an empty frame. Every caller passes a four-tile frame.
- QuadBlox.Game.ClearLines: requires row 1 not to be full, because the C loop never terminates in that case. The divergence is reported as `hung` by PlacePiece, LockAndSpawn, Drop and PlayFrame rather than modelled as a hang.
- `score` and `lines` are unbounded integers; the 32-bit overflow of the C `int` counters is not modelled.
