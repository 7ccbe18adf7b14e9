# Tetrus rule engine in Dafny

This project models the rule engine of Tetrus, a falling-block puzzle game
whose engine lives in the form class `TetrusForm` (src/TetrusForm.cs). The
model covers:

- the playfield: a flat array of 12 x 19 cells with a permanent left border,
  right border and floor;
- the table of the seven tetraminos: four phases of four offsets each, an
  offset `f` decoded as column `f % 4` and row `f / 4` of a 4 x 4 box;
- the collision test: `GetBoard` overlays the piece on a copy of the board,
  and `IsBoardValid` accepts when no cell exceeds 1;
- the Left, Right and Up keys;
- the 7-bag random generator with its look-ahead slot;
- the gravity step of the timer, which does one of two things:
  - it moves the piece one row down;
  - or it locks the piece, deals the next one, sets the level, spawns the new
    piece, detects game over and removes full rows.

The model is split across four files:

- `playfield.dfy` (module `Playfield`): the board geometry, the settled-board
  predicate `WellFormed`, and the reference definition of line clearing. One
  row is removed by `ClearRow`; a top-to-bottom pass is `Scan`.
- `tetraminos.dfy` (module `Tetraminos`): the offset table and the cells a
  pose covers. It defines the overlay and the collision predicate `Fits`, with
  lemmas about fitting poses, the spawn pose and the floor.
- `randombag.dfy` (module `RandomBag`): the reference definition `Fill` of how
  a bag is filled from a sequence of draws, and `NextDeal` for dealing one
  piece. Lemmas show that every filled bag deals each kind exactly once.
- `tetrus.dfy` (module `Tetrus`): the class `TetrusForm`. It has the source's
  fields (`board` is an `array<int>`, `randomBag` an `array<int>` of 8 slots)
  and one method per operation, with the source's loops. Each method is proved
  against the reference functions.
  - The game invariant `Valid()` is established by the constructor and kept by
    every key and every gravity step.
  - The invariant says: the board is settled (cells 0 or 1, border occupied);
    the bag's first seven slots are the seven kinds; the bag index and the
    phase are in range; `1 <= level <= lineCount / 8 + 1`; the falling piece
    fits, unless the game is over with the blocked new piece at its spawn
    pose; and while the game runs, no row 1 .. 17 is full.

The random number generator is not modelled. Its calls are replaced by a
parameter `draws`, the sequence of values `_random.Next(7)` would return. The
methods that draw return `used`, the number of draws they consumed.

Where the code does something one might not expect of the game, the model
follows the code:

- Level. The level is computed from the line count before the rows of the same
  lock are removed (src/TetrusForm.cs:170 runs before 184-201). After a lock,
  `level == old(lineCount) / 8 + 1`. The model therefore keeps only
  `level <= lineCount / 8 + 1` as an invariant, not equality.
- Keys after game over. Nothing in `ProcessCmdKey` checks `_isGameOver`, so
  the Left, Right and Up keys keep working after game over; only the timer
  stops (src/TetrusForm.cs:176, 221-251). The model's key methods behave the
  same before and after game over.
- What a cleared row leaves behind. Clearing row r moves the interior of rows
  1 .. r - 1 down one row and leaves row 1 empty. Row 0 is never touched.
- A full row 1. Such a row would be counted and not removed
  (`Playfield.ClearRowOne`). It cannot occur at that point:
  - every spawn pose covers cell (1, 5), so a full row 1 ends the game before
    rows are scanned (`Tetraminos.SpawnBlocksRowOne`);
  - the gravity step proves `NoFullRow` after every lock that does not end
    the game.

## Model

| member | source | states |
|---|---|---|
| Playfield.InitialBoardWellFormed | src/TetrusForm.cs:94-105 | The board a new game starts from is settled, and a cell is occupied exactly when it is on the floor or a side border. |
| Playfield.InitialBoardHasNoFullRow | src/TetrusForm.cs:94-105 | A new board has no full row among rows 1 .. 17. |
| Playfield.RowSumOnes | src/TetrusForm.cs:186-189 | On a settled board, the counter over the first n cells of a row lies in 0 .. n. It equals n exactly when all those cells are occupied. |
| Playfield.FullRowIff | src/TetrusForm.cs:186-189 | On a settled board, the row counter reaches 12 exactly when all twelve cells of the row are occupied. |
| Playfield.ClearRowOne | src/TetrusForm.cs:193 | Removing row 1 changes nothing: the shift loop starting at row 0 is empty. |
| Playfield.ClearRowWellFormed | src/TetrusForm.cs:193-199 | Removing a row keeps the board settled. |
| Playfield.ClearRowRows | src/TetrusForm.cs:184-201 | After row r is removed: row y in 2 .. r is full exactly when row y - 1 was; rows below r are full exactly as before; row 1 is not full. |
| Playfield.Scan | src/TetrusForm.cs:184-202 | The clearing pass from a row down to row 17 keeps the board size and counts at most one line per row scanned. |
| Playfield.ScanCountsFullRows | src/TetrusForm.cs:184-192 | The pass adds exactly one line for each row from its starting row to row 17 that is full on the board it starts from (`CountFull`), because removing a row never changes the rows below it. |
| Playfield.ScanWellFormed | src/TetrusForm.cs:184-201 | The clearing pass keeps a settled board settled, so the border stays occupied. |
| Playfield.ScanFrame | src/TetrusForm.cs:193-199 | The clearing pass never changes row 0, the floor or the side columns. |
| Playfield.ScanRowOne | src/TetrusForm.cs:193-199 | After the clearing pass, a cell of row 1 is either as it was or empty. |
| Playfield.ScanNoFullRow | src/TetrusForm.cs:184-201 | If row 1 is not full and no row above the starting row is full, the pass leaves no full row among rows 1 .. 17. |
| Tetraminos.TableIsTable | src/TetrusForm.cs:39-76 | Every phase of every kind has four distinct offsets in 0 .. 15. Each spawn phase lies in the top two rows of its box and covers offset 5. |
| Tetraminos.CellsDistinct | src/TetrusForm.cs:263-267 | The four cells of any pose are four different board indices. |
| Tetraminos.OverlayAt | src/TetrusForm.cs:256-268 | The overlaid copy adds exactly 1 at each of the four piece cells and is equal to the board elsewhere. |
| Tetraminos.FitsIffEmpty | src/TetrusForm.cs:212-219 | On a settled board the collision test accepts a pose exactly when the pose is on the board and its four cells are empty. |
| Tetraminos.MergeWellFormed | src/TetrusForm.cs:161 | Merging a fitting piece gives a settled board that differs from the old one exactly at the four piece cells, now occupied. |
| Tetraminos.NeighboursInRange | src/TetrusForm.cs:225-238 | From a fitting pose, the poses the Left and Right keys test, and the pose one row down that the timer tests at line 159, index only inside the board. |
| Tetraminos.CellDecode | src/TetrusForm.cs:263-267 | When the column does not wrap, a piece cell lies at row r + f / 4 and column c + f % 4 of the board. |
| Tetraminos.SpawnCells | src/TetrusForm.cs:115-119 | The spawn pose and its left, right and lower neighbours lie on the board. The spawn cells are in rows 0 .. 1 and columns 4 .. 7. |
| Tetraminos.SpawnFitsInitial | src/TetrusForm.cs:112 | The first piece of a new game fits at its spawn pose. |
| Tetraminos.SpawnBlocksRowOne | src/TetrusForm.cs:170-180 | If the new piece fits at its spawn pose, row 1 is not full. |
| Tetraminos.ScanKeepsSpawn | src/TetrusForm.cs:174-201 | Removing full rows keeps a fitting spawn pose fitting. |
| Tetraminos.DropOnEmptyBoard | src/TetrusForm.cs:157-208 | On an empty board, a piece in its spawn phase at column 4 fits exactly at rows 0 .. 16, so gravity locks it at row 16. |
| Tetraminos.RotateOffBoard | src/TetrusForm.cs:239-267 | As written, a horizontal I resting on the floor at column 4 and rotated makes the collision test index cell 234 of a 228-cell board. |
| RandomBag.Fill | src/TetrusForm.cs:126-151 | Filling the bag yields eight slots and consumes between 1 and all of the draws. |
| RandomBag.FillMakesBag | src/TetrusForm.cs:126-151 | The filled bag holds each of the seven kinds exactly once in slots 0 .. 6 and starts with what it already held (with the carried-over slot 7 first). Its other slots come from draws before the last one consumed, and slot 7 is that last draw. |
| RandomBag.Pigeonhole | src/TetrusForm.cs:135-149 | Distinct kinds number at most seven, and seven of them are all the kinds. So the filling loop stops exactly when every kind is in the bag. |
| RandomBag.NextDeal | src/TetrusForm.cs:163-168 | Dealing advances the index with wrap-around to 0 and a refill after the seventh piece. The new piece is the one the old bag held in slot index + 1, the slot the preview at line 293 shows as next. A bag that is not refilled is unchanged. |
| RandomBag.FillInOrder | src/TetrusForm.cs:135-150 | Drawing the missing kinds in order and then x fills the bag with the kinds in order and x in slot 7. |
| RandomBag.LookaheadMayRepeat | src/TetrusForm.cs:150 | Slot 7 is drawn without a distinctness check, so it can repeat slot 6 and the same kind is dealt twice in a row. |
| Tetrus.TetrusForm.constructor | src/TetrusForm.cs:78-88 | A new form holds the source's piece table (`Table`, so the lemmas about `Table` apply to it) and starts a game in a valid state with the initial board, a freshly filled bag, level 1, no lines, and the first piece at its spawn pose. |
| Tetrus.TetrusForm.InitGame | src/TetrusForm.cs:90-113 | Fills the bag from scratch and resets the board to its border. Sets index 0, level 1 and no lines, spawns a piece, establishes `Valid()` and reports the draws used. |
| Tetrus.TetrusForm.ClearBoard | src/TetrusForm.cs:94-105 | The three loops leave exactly the initial board: the floor and both side columns occupied, every other cell empty. |
| Tetrus.TetrusForm.InitTetramino | src/TetrusForm.cs:115-121 | The piece is at phase 0, column 4, row 0; nothing else changes. |
| Tetrus.TetrusForm.FillRandomBag | src/TetrusForm.cs:126-151 | The bag array ends as the reference `Fill` of the draws, seeded with the old slot 7 when `needCopyLast` holds. The draws consumed are those `Fill` consumes. |
| Tetrus.TetrusForm.InBag | src/TetrusForm.cs:138-146 | The inner loop finds the value exactly when it occurs among the first `count` slots. |
| Tetrus.TetrusForm.GetBoard | src/TetrusForm.cs:254-270 | Returns a fresh array holding the overlay of the piece on the current board; the board itself is not changed. |
| Tetrus.TetrusForm.NoneAboveOne | src/TetrusForm.cs:215-218 | The check loop returns true exactly when no cell of the copy is above 1. |
| Tetrus.TetrusForm.IsBoardValid | src/TetrusForm.cs:212-219 | For a pose on the board, the test returns exactly `Fits`. |
| Tetrus.TetrusForm.IsBoardValidGuarded | src/TetrusForm.cs:212-219 | The corrected collision test: it returns `Fits` for every pose and rejects off-board poses instead of indexing past the board. |
| Tetrus.TetrusForm.MoveLeft | src/TetrusForm.cs:225-231 | The column decreases by 1 exactly when the piece fits there; otherwise nothing changes. The row, the phase and the rest of the game are unchanged and `Valid()` is kept. |
| Tetrus.TetrusForm.MoveRight | src/TetrusForm.cs:232-238 | The column increases by 1 exactly when the piece fits there; otherwise nothing changes. The rest of the game is unchanged and `Valid()` is kept. |
| Tetrus.TetrusForm.Rotate | src/TetrusForm.cs:239-246 | The phase becomes (phase + 1) % 4 exactly when the piece fits in that phase; otherwise nothing changes. The column, the row and the rest of the game are unchanged and `Valid()` is kept. The test is `IsBoardValidGuarded`, so a rotated pose off the board (the input under Findings) leaves the phase unchanged where the source throws. |
| Tetrus.TetrusForm.GravityStep | src/TetrusForm.cs:159-206 | If the piece fits one row lower, only its row increases. Otherwise, against the old state: the bag and index are `NextDeal`'s; the level is old lines / 8 + 1; the new piece is at spawn; game over holds exactly when it does not fit the merged board; the board is the merged board if the game is over, else the merged board with full rows removed, with `lineCount` up by the rows `Scan` counts, which `Playfield.ScanCountsFullRows` shows is the number of full rows of the merged board. `Valid()` is kept. |
| Tetrus.TetrusForm.Fall | src/TetrusForm.cs:205-206 | A piece that fits one row lower moves there, keeping `Valid()` and the rest of the game. |
| Tetrus.TetrusForm.LockTetramino | src/TetrusForm.cs:161-202 | The lock branch of the gravity step, with the same outcome as the second case of GravityStep. |
| Tetrus.TetrusForm.DealNext | src/TetrusForm.cs:163-168 | The bag and index become those `NextDeal` gives, with its draws consumed; no other field changes. |
| Tetrus.TetrusForm.RemoveFullLines | src/TetrusForm.cs:184-202 | The board ends as `Scan` of the old board from row 1, in the same array, and `lineCount` grows by the number of rows `Scan` counts. |
| Tetrus.TetrusForm.ShiftDown | src/TetrusForm.cs:193-200 | The in-place shift turns the board into `ClearRow` of the old board for that row. |
| Tetrus.TetrusForm.NeighbourPoses | src/TetrusForm.cs:225-238 | In every valid state, the test poses of the Left and Right keys lie on the board, also after game over. |

## Left out

- The Windows Forms shell is not modelled: `InitializeComponent`, `DoubleBuffered`, `Invalidate`, `OnPaint` (src/TetrusForm.cs:272-304), brushes, pens and fonts. It is drawing and GUI plumbing. The next-piece slot that `OnPaint` reads (line 293) appears only in `NextDeal`'s statement.
- The timer is not modelled: its setup (lines 85-87), `_timer.Stop()` (line 176), and the counting and reset of `_timerTick` (lines 110, 155-157, 207). `GravityStep` is the body run when the threshold is reached. It requires a running game, because the source stops the timer at game over.
- `_gravity`, `Math.Pow` (line 120) and the Space key (lines 247-249) are left out because they are floating-point timing that does not affect the rules modelled.
- `System.Random` (line 29) is replaced by the `draws` parameter. The source's rejection sampling ends only with probability 1. `Completes` therefore demands draws that finish a bag: every missing kind is drawn before the last draw, and every draw is in 0 .. 6.
- Cells and bag slots are `byte` in the source and unbounded `int` in the model. Board cells stay in 0 .. 2 and slots in 0 .. 6, so no byte wrap-around can occur.
- `_lineCount` is an `Int32` in the source and unbounded in the model. Its overflow after more than two billion lines is not modelled.
- `ProcessCmdKey`'s call to the base class and its return value are left out.
- Tetrus.TetrusForm.Rotate: tests the rotated pose with the corrected `IsBoardValidGuarded`. On the input under Findings it leaves the phase unchanged, where the source throws `IndexOutOfRangeException` (src/TetrusForm.cs:241, 267).
- Tetrus.TetrusForm.IsBoardValid: requires the pose to be on the board, so the exception the as-written code raises for an off-board pose is not modelled. The entry under Findings covers that case.
- The key methods and `GravityStep` require `Valid()`. This holds in every state the constructor and the operations reach, not in an arbitrary heap.

## Findings

| source | as written | input that shows it | evidently intended | confidence | as-written member | corrected member |
|---|---|---|---|---|---|---|
| src/TetrusForm.cs:239-241,263-267 | The Up key tests the rotated pose with `IsBoardValid`, whose `GetBoard` writes `board[y * 12 + x]` with no bounds check. | A horizontal I (kind 0, phase 0) resting on the floor at column 4, row 16, with Up pressed before it locks. Phase 1 has offset 14, so the cell lands at row 19, index 19 * 12 + 6 = 234, and the 228-cell array throws. | A rotation that would leave the board is rejected like one that overlaps. | high, not executed | Tetraminos.RotateOffBoard | Tetrus.TetrusForm.IsBoardValidGuarded |
