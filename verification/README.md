# Grid games in Dafny

This project models the game logic of four small SFML games and proves properties about it. Each game keeps a small fixed-size board and changes it cell by cell:

- **Falling blocks** (`01xTetirs/src/main.cpp`). A 20 x 10 `field`, a four-cell live piece `curr` with its saved copy `prev`, and the per-frame `State`. One frame runs in this order:
  1. the horizontal move, rolled back if it does not fit;
  2. the quarter turn about `curr[1]`, rolled back to `prev` if it does not fit;
  3. gravity, which on failure locks the saved cells into the board and spawns a new piece from the shape table;
  4. the single-pass row compaction with a write cursor `k`.
- **Snake** (`04xSnake/src/main.cpp`). A body vector of 101 entries whose first `snake_size` entries are the live snake, plus a fruit. A tick runs `moveBody`, `moveHead`, `eatFruct` and `selfBite`.
- **Minesweeper** (`05xMinesweeper/src/main.cpp`). A 12 x 12 board whose 10 x 10 interior is played, and a mask of what the player sees. `setup` draws the bombs, counts neighbours and covers everything. `click` flags a cell, reveals one cell, or reveals the whole interior after a bomb.
- **Fifteen puzzle** (`06xFifteen-Puzzle/src/main.cpp`). A 6 x 6 matrix whose 4 x 4 interior holds 1..16 (16 is the empty cell) inside a border of zeros. `move` slides a tile into an adjacent empty cell. `check` is the solved test.

## Layout

The state that the C++ updates in place becomes Dafny classes whose methods update it in place:

- `Tetris.Game` and `Tetris.State`;
- `Snake.SnakeGame`;
- `Minesweeper.Minesweeper`;
- `FifteenPuzzle.FifteenPuzzle`.

Boards are `array2<int>`, and the piece and the body are `array<Point>`. Every loop that updates game state is a loop here, and each carries its invariants. The zero-filling allocation loops of the snake body and of the fifteen-puzzle matrix become array initialisers, and the `std::any_of` scan of the Tetris `check` becomes a predicate (`Tetris.Game.Check`).

Each method is proved against a pure specification function:

- For Tetris, `TetrisRules` defines `ShiftPhase`, `RotatePhase`, `FallPhase`, `ClearPhase` and `FrameStep`. The closed form of the compaction is `Compacted`.
- For Snake, `TickStep`, `MovedBody`, `Wrap`, `Step` and `FirstBite`.
- For Minesweeper, `Revealed` and `NeighbourBombs`.
- For the fifteen puzzle, `Slid` and `Target`.

The lemmas state the game's promises about these functions. To let the pure functions speak about the board, the Tetris and fifteen-puzzle classes keep a ghost copy of their matrix as a sequence of rows.

Randomness is an input. The Tetris frame takes the drawn colour and shape, Snake takes the two fruit draws, Minesweeper takes the bomb layout (`Layout`, one boolean per cell), and the fifteen puzzle takes the shuffled numbers. The float timers are replaced by a boolean "gravity is due" input. A tick of the snake is one call of `Tick`.

Modelling decisions where the code leaves something undefined or differs from a plain reading:

- The Tetris validity test `check` (`01xTetirs/src/main.cpp:54-61`) does not test `y < 0`, and such a point would read `field[-1]`. The model treats a point above the top row as free (`TetrisRules.Free`). A lock write at `y < 0`, which would land outside the array, is dropped (`TetrisRules.Paint`).
- The first live piece is four copies of (0, 0), because the global arrays start zeroed (`01xTetirs/src/main.cpp:51-52`).
- A rejected rotation restores `prev`, which was saved before the horizontal move of the same frame. It therefore also undoes an accepted move (`TetrisRules.RejectedRotationUndoesShift`).
- The shape table is decoded as column `code % 2` and row `code / 2`, with no offset. The I piece (codes 1, 3, 5, 7) therefore spawns entirely in column 1, and the other six pieces occupy columns 0 and 1 (`TetrisRules.SpawnExamples`).

## Model

| member | source | states |
|---|---|---|
| TetrisRules.Spawn | 01xTetirs/src/main.cpp:144-149 | a spawned piece has four cells with column 0..1 and row 0..3, decoded from the shape table |
| TetrisRules.SpawnExamples | 01xTetirs/src/main.cpp:19-28 | the I piece decodes to column 1, rows 0..3, and the O piece decodes to (0,1), (1,1), (0,2), (1,2) |
| TetrisRules.FitsWithinWalls | 01xTetirs/src/main.cpp:54-61 | a position that passes the validity test lies within the side walls and above the floor |
| TetrisRules.Rotated | 01xTetirs/src/main.cpp:116-123 | a quarter turn leaves the pivot `curr[1]` where it is, so binding the pivot by reference gives the same result as copying it |
| TetrisRules.RotatedFourTimes | 01xTetirs/src/main.cpp:116-123 | four quarter turns bring every cell back to where it started |
| TetrisRules.RotationKeepsDistance | 01xTetirs/src/main.cpp:119-122 | a quarter turn keeps each cell's squared distance to the pivot |
| TetrisRules.Locked | 01xTetirs/src/main.cpp:139-141 | exactly the piece's cells get the colour, overwriting what was there; every other cell keeps its value |
| TetrisRules.Count | 01xTetirs/src/main.cpp:157-161 | the count of non-empty cells is at most the row length, and it equals the row length exactly when the row is full |
| TetrisRules.Kept | 01xTetirs/src/main.cpp:155-167 | the rows kept by the pass are not full, have N cells, and keep colours in 0..7 |
| TetrisRules.Cleared | 01xTetirs/src/main.cpp:155-167 | the number of full rows among rows 1..M-1 lies in 0..M-1 |
| TetrisRules.SweptStart | 01xTetirs/src/main.cpp:155-156 | the pass invariant holds before the first row, with cursor k = M-1 |
| TetrisRules.SweptStep | 01xTetirs/src/main.cpp:156-166 | row i still holds its old contents when read; after it is copied onto row k, the invariant holds with the cursor kept on a full row and moved up otherwise |
| TetrisRules.SweptSkip | 01xTetirs/src/main.cpp:156-166 | copying a full row keeps the invariant with the cursor unchanged |
| TetrisRules.SweptKeep | 01xTetirs/src/main.cpp:156-166 | copying a row that is not full keeps the invariant with the cursor one row up |
| TetrisRules.SweptEnd | 01xTetirs/src/main.cpp:155-167 | when the scan ends the board is the closed form: non-full rows of 1..M-1 in order in rows f+1..M-1, row f holds old row 1 if that row was full, and rows above are untouched |
| TetrisRules.KeptAll | 01xTetirs/src/main.cpp:155-167 | with no full row in a range, the kept rows are exactly that range |
| TetrisRules.KeptDropsFull | 01xTetirs/src/main.cpp:164-166 | a full row is dropped, so fewer rows are kept than scanned |
| TetrisRules.CompactedWithoutFullRows | 01xTetirs/src/main.cpp:155-167 | with no full row among rows 1..M-1 the pass leaves the board unchanged |
| TetrisRules.CompactedKeepsTopRow | 01xTetirs/src/main.cpp:155-156 | row 0 is never written |
| TetrisRules.CompactedLeavesNoFullRowBelow | 01xTetirs/src/main.cpp:155-167 | after the pass no row below row f is full |
| TetrisRules.CompactedCellsInRange | 01xTetirs/src/main.cpp:155-167 | the pass keeps every cell in 0..7 |
| TetrisRules.RejectedShiftKeepsPiece | 01xTetirs/src/main.cpp:105-113 | when the shifted piece does not fit, the piece is exactly what it was at the start of the frame, and the board is unchanged |
| TetrisRules.RejectedRotationUndoesShift | 01xTetirs/src/main.cpp:104-128 | when the turned piece does not fit, the piece goes back to its position at the start of the frame, undoing an accepted move |
| TetrisRules.GravityLowers | 01xTetirs/src/main.cpp:132-137 | when the lowered piece fits, every cell's row grows by 1, columns stay the same, and the board is untouched |
| TetrisRules.LockWritesPiece | 01xTetirs/src/main.cpp:137-149 | when the lowered piece does not fit: exactly the saved cells get the current colour, the drawn colour becomes current, and the new piece is the decoded shape |
| TetrisRules.FallKeepsInv | 01xTetirs/src/main.cpp:132-152 | gravity keeps the board in 0..7, the piece within the walls and the colour in 1..7 |
| TetrisRules.FrameKeepsInv | 01xTetirs/src/main.cpp:104-167 | a whole frame keeps that invariant, given drawn colours in 1..7 and shapes in 0..6 |
| Tetris.State.constructor | 01xTetirs/src/main.cpp:36-41 | the state starts with dx = 0, no rotation and colour 1 |
| Tetris.State.Reset | 01xTetirs/src/main.cpp:44-48 | reset clears dx and rotate and keeps the colour |
| Tetris.Game.constructor | 01xTetirs/src/main.cpp:51-52 | the board starts empty, `curr` and `prev` start as four copies of (0,0), and the colour is 1 |
| Tetris.Game.Check | 01xTetirs/src/main.cpp:54-61 | the test fails exactly when some cell has x < 0, x >= N, y >= M, or lies on a non-zero board cell with y >= 0 |
| Tetris.Game.Shift | 01xTetirs/src/main.cpp:104-113 | the new state is `ShiftPhase`: `prev` gets the old piece, and the shifted piece is kept only if it fits |
| Tetris.Game.Rotate | 01xTetirs/src/main.cpp:115-129 | the new state is `RotatePhase`: the turned piece if it fits, else `prev` |
| Tetris.Game.Fall | 01xTetirs/src/main.cpp:131-152 | the new state is `FallPhase`: lowered, or locked with the current colour and respawned with the drawn colour and shape |
| Tetris.Game.Lock | 01xTetirs/src/main.cpp:139-141 | the board becomes `Locked` of the saved cells with the current colour |
| Tetris.Game.Respawn | 01xTetirs/src/main.cpp:146-149 | the live piece becomes the decoded table entry |
| Tetris.Game.ClearLines | 01xTetirs/src/main.cpp:154-167 | the board becomes `Compacted` of the old board, and the invariant is kept |
| Tetris.Game.CopyRow | 01xTetirs/src/main.cpp:157-163 | row k becomes a copy of row i, the other rows are unchanged, and the count is the number of non-empty cells of row i |
| Tetris.Game.Frame | 01xTetirs/src/main.cpp:104-170 | one iteration of the main loop equals `FrameStep` of the old state; the invariant is kept and the transient input is reset |
| Snake.Step | 04xSnake/src/main.cpp:93-107 | exactly one coordinate changes, by 1, with its sign fixed by the direction (Up decreases y) |
| Snake.Wrap | 04xSnake/src/main.cpp:109-119 | the result lies in [0,N] x [0,M], inclusive, and a point already there is left alone |
| Snake.StepWrapIsTorusStep | 04xSnake/src/main.cpp:93-119 | from a point of the field, a step followed by the wrap is a step modulo (N+1, M+1) |
| Snake.MovedBody | 04xSnake/src/main.cpp:130-135 | moving the body keeps the head and the vector length |
| Snake.MovedBodyTrailsHead | 04xSnake/src/main.cpp:130-135 | after the move, entries 1..size hold the old entries 0..size-1 |
| Snake.Relocated | 04xSnake/src/main.cpp:125-126 | the new fruit lies in [0,N) x [0,M) |
| Snake.FirstBite | 04xSnake/src/main.cpp:137-144 | the scan stops at the smallest index in i..size-1 whose segment is on the head, or at size if there is none |
| Snake.TickKeepsInv | 04xSnake/src/main.cpp:146-151 | a tick keeps every segment and the fruit on the field, and the length between 1 and one more than before |
| Snake.TickLeavesNoBite | 04xSnake/src/main.cpp:137-151 | after a tick no live segment behind the head is on the head |
| Snake.TickGrowsOnlyByEating | 04xSnake/src/main.cpp:122-128 | a tick that misses the fruit does not grow the snake or move the fruit; one that reaches it moves the fruit to the draws' place |
| Snake.SnakeGame.constructor | 04xSnake/src/main.cpp:69-83 | the snake starts with 4 live segments, every entry at (0,0), the fruit at (10,10), heading down |
| Snake.SnakeGame.MoveHead | 04xSnake/src/main.cpp:93-120 | the head becomes `Wrap(Step(head, direction))`, and the other entries are unchanged |
| Snake.SnakeGame.EatFruct | 04xSnake/src/main.cpp:122-128 | on the fruit: the size grows by exactly 1 and the fruit moves to (r1 % N, r2 % M); otherwise nothing changes |
| Snake.SnakeGame.MoveBody | 04xSnake/src/main.cpp:130-135 | entry i becomes old entry i-1 for 1 <= i <= size, and every other entry is unchanged |
| Snake.SnakeGame.SelfBite | 04xSnake/src/main.cpp:137-144 | the size becomes `FirstBite` of the body: the first bitten index, else unchanged |
| Snake.SnakeGame.Tick | 04xSnake/src/main.cpp:146-151 | the new state is `TickStep` of the old: move body, step head, eat, bite |
| Minesweeper.NeighbourBombs | 05xMinesweeper/src/main.cpp:53-61 | the count lies in 0..8, so it is never the bomb value 9; it is 0 exactly when no neighbour is a bomb and 8 exactly when all are |
| Minesweeper.Revealed | 05xMinesweeper/src/main.cpp:40-63 | a cell after setup is BOMB exactly where the layout has a bomb, and a border cell is only BOMB or EMPTY |
| Minesweeper.CellOf | 05xMinesweeper/src/main.cpp:93-94 | a pixel maps to the cell whose 32-pixel span contains it |
| Minesweeper.Minesweeper.constructor | 05xMinesweeper/src/main.cpp:74-79 | a new game is set up from the layout with every mask cell covered |
| Minesweeper.Minesweeper.Setup | 05xMinesweeper/src/main.cpp:38-72 | every cell holds `Revealed` of the layout, and every mask cell is MASK |
| Minesweeper.Minesweeper.DrawBombs | 05xMinesweeper/src/main.cpp:40-48 | every cell is BOMB where the layout has a bomb, else EMPTY |
| Minesweeper.Minesweeper.CountNeighbours | 05xMinesweeper/src/main.cpp:50-64 | the in-place counting pass gives the count over the drawn layout for every interior cell, whatever the loop order |
| Minesweeper.Minesweeper.CountAround | 05xMinesweeper/src/main.cpp:53-61 | the eight comparisons with BOMB count the layout's bombs around the cell |
| Minesweeper.Minesweeper.CoverAll | 05xMinesweeper/src/main.cpp:66-71 | every mask cell becomes MASK |
| Minesweeper.Minesweeper.Click | 05xMinesweeper/src/main.cpp:92-112 | a flag sets only mask[x][y] to FLAG; a reveal of a non-bomb sets only mask[x][y] to its value; a reveal of a bomb copies all interior cells into the mask and leaves the border mask alone; the board never changes |
| Minesweeper.Minesweeper.Reset | 05xMinesweeper/src/main.cpp:114-116 | reset is a fresh setup from the new layout |
| FifteenPuzzle.Index | 06xFifteen-Puzzle/src/main.cpp:37-43 | the running index of an interior cell lies in 0..15 |
| FifteenPuzzle.IndexRoundTrip | 06xFifteen-Puzzle/src/main.cpp:37-43 | a cell's row and column are recovered from its running index |
| FifteenPuzzle.IndexOnto | 06xFifteen-Puzzle/src/main.cpp:37-43 | every index 0..15 belongs to exactly one interior cell |
| FifteenPuzzle.CellOf | 06xFifteen-Puzzle/src/main.cpp:97-98 | a pixel of the 256 x 256 window maps to an interior cell 1..4 |
| FifteenPuzzle.Target | 06xFifteen-Puzzle/src/main.cpp:100-115 | the direction is the first empty neighbour in the order up, down, left, right, and no move exactly when none of the four is empty |
| FifteenPuzzle.SlidSwaps | 06xFifteen-Puzzle/src/main.cpp:117-119 | with a target, the clicked tile and the empty cell swap and every other cell is unchanged; with none, the matrix is unchanged |
| FifteenPuzzle.SwapKeepsMultiset | 06xFifteen-Puzzle/src/main.cpp:117-119 | swapping two entries keeps the multiset of values |
| FifteenPuzzle.SlidTiles | 06xFifteen-Puzzle/src/main.cpp:117-119 | read row-major, the tiles after a move are the tiles before it with two positions exchanged |
| FifteenPuzzle.SlidKeepsPuzzle | 06xFifteen-Puzzle/src/main.cpp:103-119 | a move keeps the border zero and the interior a permutation of 1..16 |
| FifteenPuzzle.InOrder | 06xFifteen-Puzzle/src/main.cpp:83-94 | a board whose cells hold their running index plus one reads 1..16 in order |
| FifteenPuzzle.SolvedGridIsPuzzle | 06xFifteen-Puzzle/src/main.cpp:83-94 | the solved board is a playable board whose tiles read 1..16 |
| FifteenPuzzle.FifteenPuzzle.constructor | 06xFifteen-Puzzle/src/main.cpp:64-68 | a zeroed 6 x 6 matrix receives the given permutation, which makes a playable board |
| FifteenPuzzle.FifteenPuzzle.Setup | 06xFifteen-Puzzle/src/main.cpp:37-43 | the interior read row-major is the given numbers, and the border keeps its value |
| FifteenPuzzle.FifteenPuzzle.Reset | 06xFifteen-Puzzle/src/main.cpp:47-49 | reset places a new permutation and keeps the board playable |
| FifteenPuzzle.FifteenPuzzle.Move | 06xFifteen-Puzzle/src/main.cpp:96-119 | the matrix becomes `Slid` of the old one at the clicked cell, and the board stays playable |
| FifteenPuzzle.FifteenPuzzle.Check | 06xFifteen-Puzzle/src/main.cpp:83-94 | as written, the solved test returns false on every playable board |
| FifteenPuzzle.FifteenPuzzle.CheckSolved | 06xFifteen-Puzzle/src/main.cpp:83-94 | with bounds 1..4, the solved test is true exactly when the tiles read 1..16 in order |

## Left out

- Rendering, textures, sprites, windows, event polling and keyboard and mouse input are not modelled. This includes the fifteen puzzle's sliding animation and its success message. They go through SFML, which is not part of this model.
- Random generation is not modelled: the draws are parameters with their ranges as preconditions. The Minesweeper rule "a bomb when the draw is divisible by 5" is replaced by a boolean layout.
- The float timers and delays of Tetris and Snake are not modelled. Whether gravity or a tick is due is a boolean input, and `State::reset` restoring `delay` is not modelled.
- The DoodleJump and Arkanoid games are not modelled: they run on float positions and SFML rectangle intersection.
- Tetris.Game.Check: for a point with y < 0, the source reads `field[-1][x]`, which is undefined. The model treats such a point as free, and `Tetris.Game.Lock` drops a write there.
- Snake.SnakeGame.Tick: requires `snake_size` < 101. At 101 the source's `moveBody` writes one entry past the vector, which is undefined behaviour the model does not reproduce.
- Minesweeper.Minesweeper.Click: requires pixel coordinates below 384. The window is 400 pixels wide, and pixels 384..399 give index 12, which is outside the 12-entry vectors. It also requires non-negative pixel coordinates. The mouse position is sampled before the events are polled (`05xMinesweeper/src/main.cpp:126`), so it can lie left of or above the window. C++ division truncates, so pixels -31..-1 map to cell 0, while Dafny's `/` would give -1; such clicks are not modelled.
- The enums `BlockType` (Minesweeper) and `Block` (fifteen puzzle) are modelled as their integer values.
- FifteenPuzzle.FifteenPuzzle.Move: requires pixel coordinates in 0..255, the window's own size. The success check after the move only prints, so it is left out.

## Findings

| source | as written | input that shows it | evidently intended | confidence | as-written member | corrected member |
|---|---|---|---|---|---|---|
| 06xFifteen-Puzzle/src/main.cpp:85-86 | the solved test runs `i` and `j` over 1..BLOCK_SIZE (64) | the solved board (1..16 row-major inside the zero border, `FifteenPuzzle.SolvedGridIsPuzzle`): the walk reaches border cell matrix[1][5] = 0, which differs from 5, and returns false | bounds 1..MATRIX_SIZE (4), true exactly on the solved board | high, not executed | FifteenPuzzle.FifteenPuzzle.Check | FifteenPuzzle.FifteenPuzzle.CheckSolved |
