# pytetris game engine in Dafny

This project models the game engine of pytetris. The engine is the board widget's state
and game operations, plus the seven tetromino variants and their rotation tables. Painting
is not modelled.

- **Pieces** (`tetromino.dfy`) covers the `Tetronimo` base class and its seven subclasses.
  - A piece has a variant (`Kind`), a 0/1 mask, a rotation counter, a colour and an
    optional anchor position.
  - `Rotate` advances the counter modulo 4.
  - `RotateRight` and `RotateLeft` return the candidate mask that each variant's table
    gives for the current counter.
  - I, S and Z look only at the counter's parity. T, L and J have four entries. The
    square returns its current mask.
- **Grids** (`grid.dfy`) covers the cell-level loops of the board.
  - `CheckCollision` reports whether a mask at a position would cross a side wall or the
    floor, or land on a coloured cell.
  - `Stamp` writes a value into every in-bounds cell of a mask's footprint. Placing and
    erasing a piece are both built from it.
- **Lines** (`lines.dfy`) is the reference definition that line clearing is proved
  against.
  - It removes all full rows at once, keeps the other rows in order, and adds one empty
    row on top per row removed.
- **Boards** (`board.dfy`) covers the board state: size, grid, active piece, score, level
  and paused flag. Its operations are `NewBoard`, `PlacePiece`, `ClearActivePiece`,
  `MovePiece`, `MovePieceDown`, `RotatePiece`, `ClearLines`, `ResetGame` and `GameOver`.
  - Every operation except line clearing is a function from board to board.
  - `ClearLines` keeps the source's two loops: collecting the full rows, then deleting
    each one and inserting an empty row on top.
- **Play** (`play.dfy`) holds facts about sequences of operations:
  - which operations keep a board valid;
  - which operations undo each other;
  - what a freshly placed piece can still do.

The model follows the code as written, including these behaviours:

- `place_piece` writes the piece's colour into the grid straight away. Only the downward
  move erases it again.
  - So right after a new game, the piece collides with its own cells. It can neither move
    sideways nor rotate. `Play.NewGamePieceIsStuck` proves this for every variant.
- When a downward move is blocked, the piece is not locked where it is. It is placed
  again at the top centre, keeping its current mask and rotation counter. The docstring
  of `move_piece_down` says the piece is placed at the point of collision; the model
  follows the code.
- On a board zero columns wide, every row counts as full.
- The I piece's first accepted rotation hands it the flat mask it already has. As a
  result, four rotations of a fresh I piece leave it upright, not back where it started.

## Model

| member | source | states |
|---|---|---|
| Pieces.SpawnShape | src/game/tetronimo.py:15-213 | Each constructor's mask lies flat: one row of four for I, and two rows otherwise. O is two columns wide; T, L, J, S and Z are three. |
| Pieces.ColoursDistinct | src/game/tetronimo.py:15-213 | The seven variants' constructors give seven different colours. |
| Pieces.NewPiece | src/game/tetronimo.py:5-9 | A fresh piece is a well-formed catalogue piece with counter 0 and no position. It is in step with its rotation table exactly when it is not an I piece. An I piece's first accepted rotation keeps its mask and brings it into step. |
| Pieces.Rotate | src/game/tetronimo.py:11-12 | The counter always ends in 0..3. From 0..3 it advances by one and wraps 3 to 0. Nothing but the counter changes. |
| Pieces.Table | src/game/tetronimo.py:23-213 | Every entry of every variant's rotation table is one of that variant's catalogue masks. |
| Pieces.RotateRight | src/game/tetronimo.py:49-50 | For a well-formed piece, the candidate mask is one of its variant's masks. For the square, it is the current mask. |
| Pieces.RotateLeft | src/game/tetronimo.py:36-37 | For every variant, a left rotation proposes the same mask as a right rotation. |
| Pieces.Turn | src/game/board.py:192-194 | An accepted rotation keeps a well-formed piece well-formed. It keeps the square's mask. Position, variant and colour are unchanged. |
| Pieces.TurnKeepsSynced | src/game/board.py:192-194 | A piece whose mask is the table entry for its previous counter value is still in that state after an accepted rotation. |
| Pieces.FourTurnsRestore | src/game/tetronimo.py:56-161 | Four accepted rotations restore a piece that is in step with its table, including its mask, counter and position. |
| Pieces.TurnPeriod | src/game/tetronimo.py:11-12 | For a piece in step with its table, n + 4 accepted rotations give the same piece as n rotations. |
| Pieces.TableDistinct | src/game/tetronimo.py:65-87 | Table entries that the counter tells apart are different masks: any two of the four T/L/J entries, and I/S/Z entries of different parity. |
| Pieces.TableParity | src/game/tetronimo.py:176-187 | The I, S and Z tables give the same mask for counters of equal parity. |
| Pieces.TurnFlipsMask | src/game/tetronimo.py:23-34 | An accepted rotation of an I, S or Z piece in step with its table changes its mask. |
| Pieces.TwoTurnsRestoreMask | src/game/tetronimo.py:176-187 | Two accepted rotations of an I, S or Z piece in step with its table bring its mask back. |
| Pieces.FourTurnsFourMasks | src/game/tetronimo.py:65-87 | A T, L or J piece in step with its table shows four pairwise different masks over four accepted rotations. |
| Pieces.FreshPieceTurns | src/game/tetronimo.py:15-34 | After four rotations, a fresh piece of every variant but I is exactly the fresh piece again. After two rotations, S and Z have their spawn mask again. After four rotations, a fresh I piece stands upright, not flat. |
| Pieces.CatalogueIsTetrominoes | src/game/tetronimo.py:15-216 | Each variant's spawn mask is one of its catalogue masks. Every catalogue mask is rectangular, at most 4 wide and 4 tall, holds only 0s and 1s, and has exactly four 1s. |
| Grids.EmptyGrid | src/game/board.py:29 | The new grid has the board's size, and every cell is empty. |
| Grids.FreeIsInBounds | src/game/board.py:205-206 | A footprint that the collision test accepts lies inside the side walls and above the floor. |
| Grids.LandsOnColour | src/game/board.py:207-208 | A mask cell that lands on a coloured in-bounds cell makes the position a collision. |
| Grids.CheckCollision | src/game/board.py:199-209 | Reports a hit exactly when some occupied mask cell lands outside a side wall, below the floor, or on a coloured cell. |
| Grids.RowsCollide | src/game/board.py:200-209 | The scan from mask row `row` onwards reports a hit exactly when such a blocked cell exists in those rows. |
| Grids.CellsCollide | src/game/board.py:201-208 | The scan of one mask row from entry `col` onwards reports a hit exactly when one of those entries lands on a blocked cell. |
| Grids.Stamp | src/game/board.py:115-118 | The grid keeps its size. Each cell under an occupied mask entry holds the written value. Every other cell is unchanged. |
| Grids.StampRows | src/game/board.py:126-132 | Writing from mask row `row` onwards changes exactly the in-bounds footprint cells in those rows. |
| Grids.StampCells | src/game/board.py:127-132 | Writing one mask row from entry `col` onwards changes exactly the in-bounds cells under its occupied entries. |
| Lines.FullHasNoGap | src/game/board.py:214 | A row counts as full exactly when none of its cells is empty, so a row of width 0 is full. |
| Lines.FullRowsBelow | src/game/board.py:212-215 | After the scan has seen the first n rows, every collected index is below n. |
| Lines.FullRowsBelowFacts | src/game/board.py:212-215 | After scanning the first n rows, the collected indices ascend strictly and name exactly the full rows among them. Together with the rows that are not full, they account for all n rows. |
| Lines.FullRowsBelowAscend | src/game/board.py:213-215 | The collected indices ascend strictly and each is below n. |
| Lines.FullRowsBelowExact | src/game/board.py:213-215 | A row index is collected from the first n rows exactly when it is below n and its row is full. |
| Lines.FullRowsBelowCount | src/game/board.py:213-215 | The number of full rows plus the number of other rows among the first n is n. |
| Lines.KeptRun | src/game/board.py:217-219 | When no row from lo to hi is full, the kept rows below hi are the kept rows below lo followed by those rows unchanged. |
| Lines.ClearedShaped | src/game/board.py:217-219 | Clearing keeps the grid's size. |
| Lines.ClearingTwiceClearsNothing | src/game/board.py:211-222 | On a board at least one column wide, no full row is left after clearing, so a second clearing changes nothing. |
| Lines.ZeroWidthRowsAreAllFull | src/game/board.py:214 | On a board zero columns wide, every row counts as full, and clearing gives back the same grid. |
| Lines.GapsAreNotFull | src/game/board.py:212-215 | No row between two consecutive collected indices, or after the last one, is full. |
| Lines.DeleteInsert | src/game/board.py:218-219 | Deleting one row and inserting an empty row on top keeps the number of rows. Row 0 becomes empty, the rows above the deleted one move down by one, and the rows below it stay where they are. |
| Lines.DeleteInsertStep | src/game/board.py:217-219 | Deleting the next collected row from the partly processed grid, and inserting an empty row on top, gives the next stage. The rows below it are untouched. |
| Lines.StageAfterDelete | src/game/board.py:218-219 | Deleting the row at the current index from a stage, and inserting an empty row, adds one empty row and moves the kept rows up to that index. |
| Lines.DeleteInsertDone | src/game/board.py:217-219 | Once every collected row has been deleted, the loop's grid is the reference clearing: empty rows on top, then the rows that were not full, in order. |
| Boards.NewBoard | src/game/board.py:24-33 | A new board has the requested size, 10 by 20 by default, and an all-empty grid, with no active piece, score 0, level 0 and not paused. It is valid when at least 4 by 4. |
| Boards.SpawnX | src/game/board.py:112 | The spawn column is the floor of half the spare width, even when the spare width is negative. |
| Boards.TetrominoFits | src/game/board.py:112-118 | Every catalogue mask fits at the spawn position on a board at least 4 by 4. |
| Boards.PlacePiece | src/game/board.py:112-119 | The piece becomes the active piece. It is anchored in row 0, with the spare columns split evenly and the odd one on the right, and its footprint inside the board. Its colour is written into exactly its footprint cells. Nothing else changes. |
| Boards.ClearActivePiece | src/game/board.py:126-132 | Exactly the active piece's in-bounds footprint cells are emptied. Nothing else changes. |
| Boards.MovePiece | src/game/board.py:141-158 | "down" is the downward move; any other word is a no-op. Left or right shifts the anchor one column when that footprint is free, and otherwise nothing changes. The grid is never touched. |
| Boards.MovePieceDown | src/game/board.py:166-174 | After erasing the piece, it moves one row down when that footprint is free, and stays out of the grid. Otherwise it is placed again at the top. |
| Boards.RotatePiece | src/game/board.py:176-197 | The direction defaults to right. With an active piece and direction left or right: when the candidate mask is free at the anchor, the piece takes that mask and advances its counter modulo 4 in place; otherwise nothing changes. Any other input is a no-op. Only the active piece ever changes. |
| Boards.ClearLines | src/game/board.py:211-222 | The grid becomes one empty row per full row, followed by the other rows in their original order. The score rises by 100 per full row. Nothing else changes, and a valid board stays valid. |
| Boards.CollectFullRows | src/game/board.py:212-215 | The collected indices ascend strictly, and a row is collected exactly when it is full. |
| Boards.DeleteFullRows | src/game/board.py:217-219 | Deleting the collected rows one at a time, each followed by an insertion on top, gives the same grid as removing them all at once. |
| Boards.ResetGame | src/game/board.py:230-236 | The board keeps its size, with score 0, level 1 and paused. A fresh piece of the drawn variant is at the spawn column of row 0, with its footprint inside the board. Its cells are the only coloured ones. The board is valid when at least 4 by 4. |
| Boards.GameOver | src/game/board.py:239-241 | Game over starts a new game on a board of the same size: score 0, level 1, paused. A fresh piece of the drawn variant is at the spawn column of row 0, with its footprint inside the board. Its cells, in its colour, are the only coloured ones. The board is valid when at least 4 by 4. |
| Play.MoveKeepsValid | src/game/board.py:141-174 | Every move keeps a valid board valid. |
| Play.RotateKeepsValid | src/game/board.py:182-197 | Every rotation keeps a valid board valid. |
| Play.ClearUndoesPlace | src/game/board.py:112-132 | Placing a piece onto empty cells and then erasing it restores the grid. |
| Play.LeftThenRight | src/game/board.py:141-152 | Take a piece that is out of the grid and has free cells one column to its left. Moving it left and then right restores the board. |
| Play.ShiftOntoColourIsRefused | src/game/board.py:151-157 | A sideways move that would put an occupied mask cell on a coloured cell leaves the board unchanged. |
| Play.PlacedPairBlocksShift | src/game/board.py:112-157 | A piece just placed with two horizontally adjacent cells cannot move sideways, because it collides with its own colour. |
| Play.PlacedPieceCannotShift | src/game/board.py:112-157 | A piece just placed with its variant's spawn mask cannot move left or right. |
| Play.PlacedPieceCannotRotate | src/game/board.py:112-197 | A piece just placed with its spawn mask and counter 0 cannot rotate either way. |
| Play.NewGamePieceIsStuck | src/game/board.py:230-236 | Right after a new game, the piece can neither move sideways nor rotate. |
| Play.NewGameIsValid | src/game/board.py:230-236 | On every board at least 4 by 4, the drawn piece fits and the new game is valid. |

## Left out

- Painting, window sizing and `update()` calls (`paintEvent`, `setFixedSize`, `cell_size`) are left out. They only draw the board.
- Debug `print` calls are left out. They have no effect on the state.
- `get_random_piece` is left out. The random choice becomes the `pick` parameter of `ResetGame` and `GameOver`.
- The GUI files and the `start_game` unpausing are left out. They are outside the game engine.
- Colour strings are modelled as an enumeration. No operation looks at their text.
- Boards.PlacePiece: requires the spawn footprint to lie inside the board. For a mask wider than the board, the source computes a negative column. Python then wraps the index or raises IndexError, depending on how far negative it is. For a mask taller than the board, it raises IndexError. Neither is modelled.
- Boards.MovePieceDown: requires the piece's mask to fit at the spawn position, for the same reason as PlacePiece, because a blocked drop places it again.
- Boards.MovePiece: requires an active piece for "left", "right" and "down"; the source would raise AttributeError without one.
- Boards.ResetGame: requires the drawn variant's spawn mask to fit the board, as PlacePiece does. `Play.NewGameIsValid` shows that this holds on every board at least 4 by 4.
- Boards.Valid: covers boards at least 4 by 4 only, the size at which every catalogue mask fits.
- Negative rows are left out. A position's row is a natural number, because pieces only ever sit at row 0 or move down. Python's negative row indexing therefore never arises.
- The `direction == 'down'` branch inside the sideways part of `move_piece` (src/game/board.py:155-156) is left out. It is unreachable, because "down" returns earlier.
- Locking a piece, level progression, game-over detection and timers are left out. The source has none of them. `level` is only ever set to 0 or 1, and no operation calls `clear_lines`.
