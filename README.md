# Falling-block rules engine (tetris-rust), modelled in Dafny

This project models the rules engine of the `tetris-rust` game (the game Clonetris).
It covers three parts:

- **The playfield** (`src/game_board.rs`): a row-major `width * height` grid of
  integers, where 0 is empty. It has a collision query (`test_placement`), an
  unchecked write (`place_piece`) and a scan for full rows (`full_lines`).
- **The pieces** (`src/tetris_piece.rs`):
  - seven tetromino kinds plus the `None` sentinel that marks an empty hold slot;
  - each kind's 5x5 spawn mask and wall-kick table;
  - the 90-degree mask turns `rotate_cw` and `rotate_ccw`;
  - the all-or-nothing `translate`;
  - the Super Rotation System style `srs_rotate`, which tries kick offsets in order
    and reverts completely when none fits.
- **The round controller** (the non-drawing branches of the game loop in `src/main.rs`):
  - the move, rotate, hold and hard-drop keys;
  - the gravity timer (30 frames) and the lock-delay timer (100 frames);
  - locking, scoring with the table `[0, 100, 200, 400, 800]` and clearing rows on the
    10 x 22 board;
  - spawning the next piece and game over.

Files and modules:

| file | module | models |
|---|---|---|
| `mask.dfy` | `Mask` | the 5x5 mask layout and occupied-cell counting (helpers) |
| `game_board.dfy` | `Board` | `GameBoard` as a class, with `Fits` as the meaning of `test_placement` |
| `tetris_piece.dfy` | `Piece` | `TetrisPiece` as a class, with spawn masks, kick tables and rotations |
| `line_clear.dfy` | `LineClear` | the in-place row shifting of the game loop |
| `round.dfy` | `Game` | the game loop's state as the class `Round`, one method per command |
| `fixtures.dfy` | `Fixtures` | the two unit tests of `src/tetris_piece.rs` as verified scenarios |

The board, the pieces and the round state are changed in place in the source, so each
is a class: `GameBoard` holds its grid as a `seq<int>`; `TetrisPiece` holds its mask as a
`seq<int>` and its position and rotation as `int`; `Game.Round` holds the timers and the
score as `int`. Each state-changing method states its new state in terms of functions on
values: `Fits`, `Stamped`, `RotatedCW`, `FirstFit`, `Cleared` and `FullRows`. The lemmas
then prove what the source promises about those functions.

## Model

| member | source | states |
|---|---|---|
| `Board.GameBoard.constructor` | src/game_board.rs:11-17 | a new board has a grid of length width*height with every cell 0 |
| `Board.GameBoard.TestPlacement` | src/game_board.rs:19-39 | the result is true iff every occupied mask cell lands in [0,width) x [0,height) on an empty cell; negative x or y is rejected; the grid is indexed only after both bounds checks |
| `Board.FitsOnBoard` | src/game_board.rs:23-28 | a placement that passes the collision test has every occupied cell on the board |
| `Board.GameBoard.PlacePiece` | src/game_board.rs:41-52 | the new grid is the old grid with the mask written at (x, y) cell by cell in the source's loop order; on-board cells are required, as there is no collision check |
| `Board.PlaceWritesMask` | src/game_board.rs:41-52 | after placement a board cell holds the mask value when an occupied mask cell covers it, and its old value otherwise |
| `Board.PlaceAddsCells` | src/game_board.rs:19-52 | after a successful collision test, placement raises the number of occupied board cells by exactly the mask's occupied count |
| `Board.FullRowsAbove` | src/game_board.rs:56-67 | the rows listed are strictly ascending and are exactly the full rows above row n |
| `Board.GameBoard.FullLines` | src/game_board.rs:54-69 | the result lists exactly the rows whose every cell is occupied, in strictly ascending order |
| `Board.NewFullRowsAtMost` | src/main.rs:183-187 | on a board with no full row, placing a piece completes at most as many rows as the mask has occupied cells |
| `Piece.SpawnMaskIds` | src/tetris_piece.rs:39-70 | every spawn mask holds only 0 and its kind's id (I=1 ... L=7, None=0) |
| `Piece.SpawnMaskCells` | src/tetris_piece.rs:39-70 | each of the seven real kinds spawns with exactly 4 occupied cells; None's mask is all zeros |
| `Piece.KickTable` | src/tetris_piece.rs:71-101 | the JLSTZ, O and I tables have four rotation entries of 5, 1 and 5 kicks; None's table is empty |
| `Piece.KickDifferences` | src/tetris_piece.rs:118-124 | entry i is prev[i] - next[i] componentwise, and the length is the shorter of the two lists |
| `Piece.TetrisPiece.GenKickVectors` | src/tetris_piece.rs:113-125 | entry i is kick_table[prev][i] - kick_table[next][i] componentwise, with one entry per kick of the kind's table; None is excluded because its empty table would panic |
| `Piece.RotatedCWCells` | src/tetris_piece.rs:199-209 | a clockwise turn moves mask cell (x, y) to (4 - y, x) |
| `Piece.RotatedCCWCells` | src/tetris_piece.rs:187-197 | a counter-clockwise turn moves mask cell (x, y) to (y, 4 - x) |
| `Piece.CcwUndoesCw` | src/tetris_piece.rs:187-209 | rotate_ccw after rotate_cw restores the mask |
| `Piece.CwUndoesCcw` | src/tetris_piece.rs:187-209 | rotate_cw after rotate_ccw restores the mask |
| `Piece.CwOrderFour` | src/tetris_piece.rs:199-209 | four clockwise turns are the identity on every mask |
| `Piece.TurnedStepCW` | src/tetris_piece.rs:199-200 | turning the rotation-r mask clockwise gives the mask of rotation (r + 1) % 4 |
| `Piece.TurnedStepCCW` | src/tetris_piece.rs:187-188 | turning the rotation-r mask counter-clockwise gives the mask of rotation (r + 3) % 4 |
| `Piece.TurnUndone` | src/tetris_piece.rs:180-184 | a turn followed by a turn the other way restores both the mask and the rotation index |
| `Piece.CwPermutes` | src/tetris_piece.rs:199-209 | a clockwise turn keeps the multiset of mask values |
| `Piece.CcwPermutes` | src/tetris_piece.rs:187-197 | a counter-clockwise turn keeps the multiset of mask values |
| `Piece.TurnedFilled` | src/tetris_piece.rs:187-209 | any number of turns keeps the number of occupied cells |
| `Piece.PieceFilled` | src/tetris_piece.rs:39-70 | a well-formed real piece has exactly 4 occupied cells in every rotation |
| `Piece.TurnMaskCW` | src/tetris_piece.rs:201-208 | the nested copy loop of rotate_cw produces the clockwise-turned mask |
| `Piece.TurnMaskCCW` | src/tetris_piece.rs:189-196 | the nested copy loop of rotate_ccw produces the counter-clockwise-turned mask |
| `Piece.TetrisPiece.constructor` | src/tetris_piece.rs:38-111 | a new piece has its kind's spawn mask and kick table, x = 2, y = 0, rotation 0 and state Active |
| `Piece.TetrisPiece.RotateCW` | src/tetris_piece.rs:199-209 | the mask is turned clockwise, rotation becomes (r + 1) % 4, and position and state are unchanged |
| `Piece.TetrisPiece.RotateCCW` | src/tetris_piece.rs:187-197 | the mask is turned counter-clockwise, rotation becomes (r + 3) % 4, and position and state are unchanged |
| `Piece.KindOfDraw` | src/tetris_piece.rs:129-138 | draw d in 0..6 gives the kind with id d + 1, never None |
| `Piece.KindOfDrawBijective` | src/tetris_piece.rs:129-138 | the draw-to-kind mapping is a bijection between 0..6 and the seven real kinds |
| `Piece.NewRandomPiece` | src/tetris_piece.rs:127-140 | a random piece is a fresh spawn-state piece of the drawn kind |
| `Piece.TetrisPiece.Translate` | src/tetris_piece.rs:142-154 | a Placed piece does not move; otherwise the piece ends at old + (dx, dy) iff the mask fits there, and stays put otherwise; mask, rotation and state are unchanged; a valid placement stays valid |
| `Piece.FirstFitFirst` | src/tetris_piece.rs:170-178 | the kick search returns a candidate that fits, every earlier candidate fails, and it returns nothing iff no candidate fits |
| `Piece.FirstFitLeast` | src/tetris_piece.rs:170-178 | a fitting candidate preceded only by failing ones is the one the search returns |
| `Piece.TetrisPiece.TryKicks` | src/tetris_piece.rs:170-178 | the loop tries (x + dx, y - dy) for each kick in order, keeps the first that fits, and otherwise returns to the start position |
| `Piece.TetrisPiece.Turn` | src/tetris_piece.rs:164-168 | the direction switch turns the mask clockwise or counter-clockwise and nothing else |
| `Piece.TetrisPiece.SrsRotate` | src/tetris_piece.rs:156-185 | a Placed piece does not change; otherwise the piece is turned and moved by the first fitting kick, or mask, rotation and position are restored exactly; a valid placement stays valid |
| `LineClear.ClearOneIndex` | src/main.rs:190-197 | clearing one line leaves row 0 empty, moves each row above the line down by one, and leaves rows below it untouched |
| `LineClear.ClearOneCellAt` | src/main.rs:190-197 | the same statement, cell by cell in board coordinates |
| `LineClear.ClearLine` | src/main.rs:190-197 | the descending in-place copy loop and the zeroing of row 0 clear exactly one line |
| `LineClear.ClearFullLines` | src/main.rs:189-198 | the outer loop clears the listed lines one after another, in list order |
| `LineClear.ClearedPrefix` | src/main.rs:189-198 | after clearing the first k full rows, no row down to the last cleared one is full, and every row below it is unchanged |
| `LineClear.ClearedNoFullRow` | src/main.rs:189-198 | clearing exactly the full rows leaves no full row |
| `LineClear.ClearedKeepsBelow` | src/main.rs:189-198 | rows below the lowest cleared row are unchanged |
| `LineClear.KeptLength` | src/main.rs:189-198 | leaving out the listed rows keeps the other rows, 10 cells each |
| `LineClear.ClearedShape` | src/main.rs:189-198 | after k clears the board is k empty rows, the uncleared rows above the k-th line, and the rest of the board unchanged |
| `LineClear.ClearedDeletesRows` | src/main.rs:189-198 | the result is one empty row per cleared line followed by the other rows in their old order |
| `LineClear.ClearedFilled` | src/main.rs:189-198 | each cleared full row takes exactly ten occupied cells off the board |
| `Game.LockedLinesAtMostFour` | src/main.rs:185-187 | a four-cell piece locked on a board with no full row completes at most four rows, so the score table index is in range |
| `Game.LockOutcome` | src/main.rs:182-198 | at most four full rows after a lock, and no full row once they are cleared |
| `Game.ClearedBoardShape` | src/main.rs:185-198 | clearing full_lines' rows gives one empty row per cleared row on top of the rows that were not full |
| `Game.UndoRotation` | src/main.rs:143-145 | rotating CCW `rotation` times brings a piece back to rotation 0 with its spawn mask, keeping its position and state |
| `Game.DropPiece` | src/main.rs:153-160 | the hard-drop loop terminates (measure height - y); an Active piece ends Placing at the same x, mask and rotation, every row it passed fits, and one row lower does not; a Placing piece is left as it is |
| `Game.Fall` | src/main.rs:171-178 | a gravity step moves the piece down and makes it Active iff the mask fits one row lower; otherwise the piece stays put and becomes Placing |
| `Game.LockBoard` | src/main.rs:183-198 | the piece is written into the board, the full rows are read and cleared, at most four rows are cleared, and no full row is left |
| `Game.Round.constructor` | src/main.rs:74-84 | an empty 10 x 22 board, two drawn pieces, an empty (None) hold slot, timers at 30 and 100, score 0 |
| `Game.Round.Move` | src/main.rs:99-116 | the Left, Right and Down keys translate the active piece all or nothing |
| `Game.Round.Rotate` | src/main.rs:117-128 | the D and A keys apply srs_rotate to the active piece with its exact outcome |
| `Game.Round.Hold` | src/main.rs:129-148 | hold is ignored while Placing; an empty slot stores the current piece unmodified, and current takes next and next a fresh draw; with a held piece the two swap without a draw, the incoming piece takes the outgoing piece's x and y, and the outgoing piece is turned back to rotation 0 (guarded, see Findings) |
| `Game.Round.Stash` | src/main.rs:133-136 | the empty-slot branch of hold |
| `Game.Round.Swap` | src/main.rs:137-147 | the swap branch of hold, refused when the held piece does not fit at the outgoing position; on a swap the incoming piece keeps its mask, rotation and state and takes the outgoing x and y, and the outgoing piece keeps its x, y and state and is turned back to rotation 0 |
| `Game.Round.HoldAsWritten` | src/main.rs:137-147 | the swap branch as written, with no collision test: the incoming piece takes the outgoing x and y and keeps its mask, rotation and state; the outgoing piece keeps its x, y and state and is turned back to rotation 0 with its spawn mask; the preview piece, timers, score and game-over flag are unchanged |
| `Game.HoldSwapLeavesBoard` | src/main.rs:137-147 | the unguarded swap can put the incoming piece partly off the board |
| `Game.Round.HardDrop` | src/main.rs:149-160 | the space key with the outcome of the hard-drop loop |
| `Game.Round.Gravity` | src/main.rs:170-180 | when the piece moved down, state becomes Active and place_timer 100; otherwise state becomes Placing; drop_timer becomes 30 either way |
| `Game.Round.Lock` | src/main.rs:182-205 | the piece is marked Placed and baked in; score grows once by [0,100,200,400,800][n] where n is the number of full rows, at most 4; the rows are cleared; current takes next, next is a fresh draw; the round ends iff the new piece does not fit, and it is never written |
| `Game.Round.NextPiece` | src/main.rs:200-205 | the spawn step after a lock, with game over iff the new current piece fails test_placement |
| `Game.Round.LockIfDue` | src/main.rs:182-206 | the lock happens exactly when place_timer is 0 while Placing: the board becomes the placed board with its full rows cleared, the score grows once by the table entry for the number of rows, current takes next, and place_timer restarts unless the game is over; otherwise nothing changes |
| `Game.Round.Tick` | src/main.rs:165-206 | the frame's timer work keeps 1 <= drop_timer <= 30 and 1 <= place_timer <= 100 with no unsigned underflow. drop_timer counts down and restarts at 30 after gravity. Without a lock, the piece moves down and becomes Active with place_timer 100 when gravity acts and the row below fits; it becomes Placing when gravity acts and the row below does not fit; place_timer counts down only while Placing; the board and score are unchanged. The piece locks in this frame exactly when it was Placing with place_timer 1 and gravity did not move it, and the lock gives the cleared board, the score increment and the next piece |
| `Fixtures.PieceCreation` | src/tetris_piece.rs:229-237 | a new T piece is a T with the literal mask of the test |
| `Fixtures.JTurnsLeft` | src/tetris_piece.rs:187-197 | rotate_ccw turns the J spawn mask into the left-facing J |
| `Fixtures.JKicksZeroToThree` | src/tetris_piece.rs:113-125 | the J's kick vectors for rotation 0 to 3 are (0,0), (1,0), (1,1), (0,-2), (1,-2) |
| `Fixtures.KickSearch` | src/tetris_piece.rs:239-255 | on the test board the turned J is blocked at the first four candidates and fits at the fifth |
| `Fixtures.PlaceKicked` | src/tetris_piece.rs:256-276 | placing the turned J at (3, 15) gives exactly the expected grid |
| `Fixtures.TurnJ` | src/tetris_piece.rs:255 | srs_rotate(false) on the test piece ends at rotation 3, position (3, 15) |
| `Fixtures.SrsRotation` | src/tetris_piece.rs:239-277 | the whole regression test: the rotated and placed J yields exactly the expected 10 x 20 grid |

## Left out

- Drawing, window and texture set-up, the SDL event pump and key mapping, the Escape and
  Quit events, the `shine_frame` counter and frame pacing: they have no game-rule
  behaviour. Keys are the `Round` methods, and a frame is the key methods the caller
  chooses followed by `Tick`.
- `rand::thread_rng` in `new_random_piece`: each random draw is a parameter in 0..6.
  Only the index-to-kind mapping is modelled.
- `fmt::Display` for `TetrisPiece`: debug output only.
- The `HashMap<u8, Vec<(i32, i32)>>` kick table is a sequence indexed by rotation 0..3.
- Integer widths: coordinates, ids and the score are unbounded integers. The i32
  coordinates stay within a few cells of the board, and the score is not bounded.
  The u32 timers are integers whose bounds are proved, so the unsigned decrements
  never underflow.
- Board.GameBoard.constructor: requires positive width and height. The source would
  build an empty grid for a zero dimension, and the game only builds a 10 x 22 board.
- Board.GameBoard.PlacePiece: requires every occupied cell to be on the board. The
  source writes a wrong cell or panics otherwise. The lock calls it without a collision
  test; the model meets the requirement because the round keeps the active piece on the
  board, which holds once the hold swap is guarded (see Findings).
- Piece.TetrisPiece.GenKickVectors and Piece.TetrisPiece.SrsRotate: require the kind
  not to be None. Indexing None's empty kick table panics in the source, and the game
  never rotates a None piece.
- LineClear.ClearLine and LineClear.ClearFullLines: require a board 10 cells wide. The
  game loop hard-codes that width.
- Game.Round.Hold and Game.Round.Swap: refuse the swap when the held piece does not fit
  at the outgoing piece's position, which the source does not do (see Findings). The
  source's behaviour is `Game.Round.HoldAsWritten`.

## Findings

| source | as written | input that shows it | evidently intended | confidence | as-written member | corrected member |
|---|---|---|---|---|---|---|
| src/main.rs:137-147 | the hold swap gives the incoming held piece the outgoing piece's x and y with no `test_placement`, so the new active piece can overlap locked cells or lie partly off the board; a later `place_piece` then writes wrapped or out-of-range grid indices | on the empty 10 x 22 board, a vertical I (rotation 1) at x = 7 occupies column 9 and fits; swapping in a held I at rotation 0 at x = 7 covers columns 8..11 | the swap never brings in a piece that fails `test_placement`, for instance by refusing the swap when the held piece does not fit there; with that guard the active piece always stays on the board, so `place_piece` writes only in-range cells (the empty-slot hold still activates the preview piece at the spawn position without a collision test, as the source does, so that piece may overlap locked cells) | not executed; high that the placement is invalid, medium on the intended fix | `Game.Round.HoldAsWritten`, `Game.HoldSwapLeavesBoard` | `Game.Round.Swap` |
