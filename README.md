# Tetris game engine in Dafny

A model of the game engine of a falling-block puzzle written in Java
(package `tetris`). Drawing and windowing are not part of it. The model has
one Dafny module per engine class:

- `TetrisCell` (`cell.dfy`) is one cell of the well. It is a class whose
  fixed row and column are `const`s and whose mark and colour are fields.
  The marks are EMPTY = 0, ACTIVE = 1 and INACTIVE = -1.
- `TetrisBoard` (`board.dfy`) is the rows x cols grid of cell objects. It
  provides completed-row detection (`GetLines`), the conditional row shift
  (`ClearLine`), the spawn-band game-over test (`IsFull`) and reset
  (`Clear`). Value-level functions on `Grid` specify them, and the `Board`
  methods are proved against those functions through `Board.Snapshot()`.
- `TetrisPiece` (`piece.dfy`) is the falling piece: the seven spawn shapes,
  the hand-written rotation table with its distance-2 case for cell 3 of the
  Line, `CanMove`/`CanRotate`, and the in-place `Move`, `Rotate`,
  `SetActive` and `SetInactive`. The piece holds the `(row, col)` positions
  of its four cells instead of references to the cell objects.
- `TetrisRules` (`rules.dfy`) states the controller's rules on values. These
  are the score, level and delay formulas, the line clearing of the spawn
  step with its index compensation, and what one move does to the board and
  the piece (`Play`).
- `TetrisGame` (`game.dfy`) is the controller class, with its counters and
  flags. `Move` is the move dispatcher, `Tick` is the timer tick, `Spawn` is
  the spawn step, and `ResetGame` and `TogglePause` complete it. Each method
  is proved against `TetrisRules`.
- `TetrisOptions` (`options.dfy`) holds the two static helpers `parseArgs`
  and `getOptions`.

The model follows the code where it differs from a plain description of the
game:

- `isFull` looks for INACTIVE cells in the spawn band, not for non-empty
  ones. An ACTIVE cell there does not end the game.
- `getLines` writes into an array of length 4 with no bound check. A fifth
  complete row would overflow it, so `GetLines` requires at most four
  complete rows.
- The spawn step skips entries equal to 0, so a complete row 0 is never
  cleared (`LinesReported`).
- `clearLine` copies a cell down only when it or the cell above it is
  INACTIVE. An ACTIVE cell above an EMPTY one is not carried down
  (`ClearLineSkipsActive`).

The rotation table is exactly the quarter turn `(dr, dc) -> (-dc, dr)` of
each cell's offset from the pivot, including the Line's special case.
Because of this, four rotations restore a piece (`RotateFourTimes`).

Randomness is passed in as parameters: the shape of a new piece is
`kind: Shape` and the computer player's move is `aiChoice`. A timer tick is
a call of `Game.Tick`.

## Model

| member | source | states |
|---|---|---|
| `TetrisCell.Cell.constructor` | tetris/TetrisCell.java:32-36 | a new cell is EMPTY, has the null colour, and keeps the row and column it was built with (they are constants, so nothing can reset them) |
| `TetrisCell.Cell.SetMark` | tetris/TetrisCell.java:57-61 | the mark becomes the argument, the previous mark is returned, and the colour is unchanged |
| `TetrisCell.Cell.SetColor` | tetris/TetrisCell.java:97-99 | the colour becomes the argument and the mark is unchanged |
| `TetrisBoard.Board.constructor` | tetris/TetrisBoard.java:35-44 | the board has `rows` x `cols` cells; every cell `[r][c]` exists, is a distinct object with coordinates `(r, c)`, and is EMPTY with no colour |
| `TetrisBoard.Board.GetCell` | tetris/TetrisBoard.java:226-228 | the cell returned for `(r, c)` has row `r` and column `c` and belongs to the board |
| `TetrisBoard.Board.SetCell` | tetris/TetrisBoard.java:233-235 | only the mark of cell `(r, c)` changes; its colour and every other cell stay |
| `TetrisBoard.Board.GetLines` | tetris/TetrisBoard.java:265-289 | the result has length 4: the complete rows of the board, scanned bottom to top, followed by zeros; at most four rows may be complete |
| `TetrisBoard.Board.ScanRows` | tetris/TetrisBoard.java:269-286 | the bottom-to-top scan leaves the complete rows, in the order met, in the first entries of the array and zeros after them |
| `TetrisBoard.ScanStep` | tetris/TetrisBoard.java:272-285 | visiting a row appends it to the array exactly when it is complete, and with at most four complete rows the array has room for it |
| `TetrisBoard.Board.IsComplete` | tetris/TetrisBoard.java:273-280 | the inner loop finds no cell other than INACTIVE exactly when the row is complete |
| `TetrisBoard.LinesExactly` | tetris/TetrisBoard.java:265-289 | the first `found` entries are exactly the rows whose every cell is INACTIVE, in strictly decreasing order, the rest are 0, and a row holding any EMPTY or ACTIVE cell is never reported |
| `TetrisBoard.CompleteRowsInExactly` | tetris/TetrisBoard.java:272-286 | the bottom-to-top scan of a range of rows reports each complete row of that range exactly once, highest first, and nothing else |
| `TetrisBoard.CompleteRowsSplit` | tetris/TetrisBoard.java:272 | scanning rows `[lo, hi)` from the bottom is scanning `[mid, hi)` and then `[lo, mid)` |
| `TetrisBoard.Board.ClearLine` | tetris/TetrisBoard.java:295-308 | for `r` from `k` down to 1, cell `(r, c)` takes over the mark and colour of `(r-1, c)` when either is INACTIVE, each row above still unmodified when read |
| `TetrisBoard.Board.ShiftRow` | tetris/TetrisBoard.java:300-306 | one pass of the inner loop changes only row `r`, and changes each of its cells exactly when the copy condition holds |
| `TetrisBoard.ClearLineKeeps` | tetris/TetrisBoard.java:299 | `clearLine(k)` leaves row 0 and every row below row `k` unchanged |
| `TetrisBoard.ClearLineDeletesRow` | tetris/TetrisBoard.java:299-306 | on a board with no ACTIVE cells, the marks of row `k` are deleted, each row `1..k` takes the marks of the row above, and row 0 stays at the top |
| `TetrisBoard.ClearLineSkipsActive` | tetris/TetrisBoard.java:301-302 | on every board, in the rows clearLine shifts, an ACTIVE cell is neither carried down onto an EMPTY cell nor overwritten by an EMPTY cell above it |
| `TetrisBoard.Board.IsFull` | tetris/TetrisBoard.java:312-327 | true exactly when an INACTIVE cell lies in rows 0-1 within columns `[(w-4)/2, w-(w-4)/2)`; ACTIVE cells do not count |
| `TetrisBoard.BandWidth` | tetris/TetrisBoard.java:313-314 | the band is centred and lies on the board; it is 4 wide for an even width and 5 wide for an odd one |
| `TetrisBoard.Board.Clear` | tetris/TetrisBoard.java:332-342 | every cell becomes EMPTY with the empty colour; the dimensions do not change |
| `TetrisBoard.PaintOverwrites` | tetris/TetrisPiece.java:296-311 | a later painting of every position an earlier one listed hides the earlier one, so blanking cells and showing them again is the same as showing them |
| `TetrisBoard.PaintCommutes` | tetris/TetrisPiece.java:296-311 | paintings of disjoint position lists can be done in either order |
| `TetrisBoard.PaintShown` | tetris/TetrisPiece.java:296-311 | painting cells that already show the state changes nothing |
| `TetrisPiece.ShapeOf` | tetris/TetrisPiece.java:19-25 | type number 0 is the Square and 1 is the Line, and the seven numbers select the seven shapes; the rest of the model takes the drawn `Shape` as a parameter instead of the number, so nothing else calls it |
| `TetrisPiece.SpawnFormed` | tetris/TetrisPiece.java:57-114 | each of the seven spawn shapes has four distinct cells; every cell is within one step of the pivot, except the Line's cell 3, which is two columns away |
| `TetrisPiece.SpawnFits` | tetris/TetrisPiece.java:49-50 | with pivot `(0, w/2 + w%2 - 1)`, every shape's cells are on a board of at least 2 rows and 4 columns |
| `TetrisPiece.Piece.constructor` | tetris/TetrisPiece.java:41-115 | a new piece is active, has its pivot at row 0 and column `w/2 + w%2 - 1`, takes the four spawn cells of its shape and the shape's colour, and satisfies the piece invariant |
| `TetrisPiece.RotationTurns` | tetris/TetrisPiece.java:196-234 | every Square cell gets `(0, 0)`; every other cell at unit offset `(dr, dc)`, and the Line's cell 3 at distance 2, moves to offset `(-dc, dr)` |
| `TetrisPiece.Rotated` | tetris/TetrisPiece.java:130-136 | each cell is moved by its own table entry, read before that cell moves |
| `TetrisPiece.SquareRotationIsIdentity` | tetris/TetrisPiece.java:203 | rotating a Square leaves its cells where they are |
| `TetrisPiece.RotatedTurns` | tetris/TetrisPiece.java:196-234 | one rotation turns every offset a quarter, keeps the shape's geometry, and keeps the four cells distinct |
| `TetrisPiece.RotateFourTimes` | tetris/TetrisPiece.java:123-140 | four rotations about the same pivot restore the original four cells, for every shape |
| `TetrisPiece.FourTurns` | tetris/TetrisPiece.java:213-226 | four successive quarter turns about one pivot end where they started |
| `TetrisPiece.ShiftedKeepsForm` | tetris/TetrisPiece.java:169-176 | moving the cells and the pivot by the same delta keeps the geometry and keeps the cells distinct |
| `TetrisPiece.Piece.CanMove` | tetris/TetrisPiece.java:269-291 | true exactly when the move is not upward, is not `(0, 0)`, and every target is on the board and not INACTIVE (EMPTY and ACTIVE targets are allowed) |
| `TetrisPiece.Piece.CanRotate` | tetris/TetrisPiece.java:238-261 | true exactly when every rotated target is inside `[0, h) x [0, w)` and is not INACTIVE |
| `TetrisPiece.Piece.SetEmpty` | tetris/TetrisPiece.java:296-302 | the four listed cells become EMPTY with the empty colour, and no other cell changes |
| `TetrisBoard.Board.Show` | tetris/TetrisPiece.java:298-300 | one cell takes the given mark and colour, and no other cell changes |
| `TetrisPiece.Piece.SetActive` | tetris/TetrisPiece.java:305-311 | the piece's cells become ACTIVE in the piece's colour, the piece is active, and nothing else changes |
| `TetrisPiece.Piece.SetInactive` | tetris/TetrisPiece.java:314-319 | the piece's cells become INACTIVE and keep their colours, the piece is no longer active, and nothing else changes |
| `TetrisPiece.Piece.Move` | tetris/TetrisPiece.java:162-180 | all four cells and the pivot shift by the same delta; the old cells become EMPTY with the empty colour, then the new cells become ACTIVE in the piece's colour; no other cell changes; the piece invariant is kept |
| `TetrisPiece.Piece.ShiftCells` | tetris/TetrisPiece.java:169-173 | every cell position is moved by the delta |
| `TetrisPiece.Piece.Relocate` | tetris/TetrisPiece.java:169-176 | the cells and the pivot move by the same delta, and the piece invariant is kept |
| `TetrisPiece.Piece.Rotate` | tetris/TetrisPiece.java:123-140 | the cells move by the rotation table; the pivot does not change; the old cells are blanked and the new ones shown ACTIVE; the piece invariant is kept |
| `TetrisPiece.Piece.RotateCells` | tetris/TetrisPiece.java:130-136 | every cell moves by its table entry |
| `TetrisRules.ScorePositive` | tetris/TetrisGame.java:287-289 | the points of a spawn are never negative, and positive exactly when a move was made and either a line was cleared or 100 / moves is not zero; lines cleared with no move earn nothing |
| `TetrisRules.ScoreDeltaShape` | tetris/TetrisGame.java:287-289 | when moves > 0, each cleared line adds `(level+1)*200`, and the move bonus `100/moves` lies in `[0, 100]` |
| `TetrisRules.FewerMovesScoreMore` | tetris/TetrisGame.java:287-289 | fewer moves on a piece never earn fewer points |
| `TetrisRules.DivAntitone` | tetris/TetrisGame.java:289 | integer division by a larger divisor gives no more |
| `TetrisRules.LevelStep` | tetris/TetrisGame.java:292-296 | the level rises by at most one per spawn |
| `TetrisRules.LevelTracksLines` | tetris/TetrisGame.java:292-296 | if the level equals the start level plus lines/10, it still does after a spawn that adds at most 4 lines |
| `TetrisRules.LevelDelayRange` | tetris/TetrisGame.java:301-305 | the human player's level-up delay `1000/(level+1)`, minus 10 when above 10, lies in `[0, 990]`; it is positive exactly below level 1000 |
| `TetrisRules.LevelDelayFalls` | tetris/TetrisGame.java:301-305 | while `1000/(level+1)` stays above 10, a higher level never waits longer |
| `TetrisRules.LevelDelayJumps` | tetris/TetrisGame.java:302-305 | below level 90 the delay is 1000 / (level + 1) less 10; from level 90 on it is 1000 / (level + 1) unreduced, at most 10 ms; so it is 1 ms at level 89 and jumps back up to 10 ms at level 90 |
| `TetrisRules.NextDelay` | tetris/TetrisGame.java:298-307 | the computer player always gets 100; the human player's delay is recomputed only on a level-up |
| `TetrisRules.Tallied` | tetris/TetrisGame.java:285-309 | after a spawn step, lines grows by the number cleared, the level rises by 0 or 1, and the move count is 0 |
| `TetrisRules.TalliedProgress` | tetris/TetrisGame.java:285-296 | a spawn step keeps the level equal to the start level plus a tenth of the lines |
| `TetrisRules.PosListMembers` | tetris/TetrisGame.java:280 | the entries the clearing loop acts on are exactly the positive ones |
| `TetrisRules.ClearPrefixNextPositive` | tetris/TetrisGame.java:280-283 | a positive entry clears the row at that index plus the number of rows already cleared, and counts one more |
| `TetrisRules.ClearPrefixNextOther` | tetris/TetrisGame.java:280 | an entry that is not positive changes nothing |
| `TetrisRules.ReportedRoom` | tetris/TetrisGame.java:277-283 | for a report from `getLines`, every index the loop clears, with its compensation, is still a row of the board |
| `TetrisRules.ReportedEntryRoom` | tetris/TetrisGame.java:281 | entry `r` plus the rows cleared before it names a row of the board |
| `TetrisRules.ReportedDescending` | tetris/TetrisGame.java:277-283 | the positive entries of a report are strictly decreasing |
| `TetrisRules.DescendingRoom` | tetris/TetrisGame.java:281 | strictly decreasing row indices below `n` leave room for the compensation: entry `j` plus `j` is below `n` |
| `TetrisRules.WithoutKeepsLow` | tetris/TetrisGame.java:279-284 | deleting strictly decreasing indices removes one entry per index and leaves every entry below all of them in place |
| `TetrisRules.ClearLineSettled` | tetris/TetrisBoard.java:295-308 | `clearLine` creates no ACTIVE cells on a board that has none |
| `TetrisRules.ClearPrefixSettled` | tetris/TetrisGame.java:279-284 | the clearing loop keeps a board with no ACTIVE cells free of them |
| `TetrisRules.ClearPrefixCompacts` | tetris/TetrisGame.java:277-284 | on a board with no ACTIVE cells, the spawn step's clearing deletes exactly the reported rows; the rows above move down, and as many copies of row 0 fill the top |
| `TetrisRules.CompactsOneMore` | tetris/TetrisGame.java:281 | clearing one more row of an already compacted board deletes one more row |
| `TetrisRules.CompactedLast` | tetris/TetrisGame.java:281-282 | one more deletion, counted below the copies already on top, deletes that row and adds one more copy of row 0 on top |
| `TetrisRules.LinesReported` | tetris/TetrisGame.java:277-283 | the rows the spawn step clears are exactly the complete rows other than row 0, at most 4 of them, and the report is well formed |
| `TetrisRules.FallDepth` | tetris/TetrisGame.java:473-475 | the drop loop never ends above the depth it started from |
| `TetrisRules.DropOneMore` | tetris/TetrisGame.java:473-475 | one pass of the drop loop gives the board one row further down and does not change the final depth |
| `TetrisRules.FallDepthIsLanding` | tetris/TetrisGame.java:473-475 | the drop loop stops at the resting depth judged on the starting board alone: falling never locks or unlocks anything |
| `TetrisRules.LandingLands` | tetris/TetrisGame.java:473-476 | every depth the dropped piece passes is placeable, and the row below its resting depth is not |
| `TetrisRules.DropStepAllowed` | tetris/TetrisGame.java:473 | during the drop, `canMove(0, 1)` holds exactly when the next position is placeable on the starting board |
| `TetrisRules.DroppedSameLocked` | tetris/TetrisGame.java:473-475 | a piece falling through unlocked cells leaves the INACTIVE cells as they were |
| `TetrisRules.PlayBlocked` | tetris/TetrisGame.java:478-490 | a blocked rotation or blocked sideways move changes nothing; a blocked downward move locks the piece where it is |
| `TetrisRules.SquareRotateKeepsBoard` | tetris/TetrisPiece.java:123-140 | rotating a falling Square that the board shows leaves both the board and the piece exactly as they were |
| `TetrisRules.PlayTidy` | tetris/TetrisGame.java:468-495 | every move keeps the board's marks among the three named ones, and keeps the ACTIVE cells exactly those of the falling piece |
| `TetrisRules.DroppedTidy` | tetris/TetrisGame.java:473-475 | during a drop, exactly the piece's current cells are ACTIVE |
| `TetrisRules.SpawnInBand` | tetris/TetrisPiece.java:49-114 | a new piece lies in the top two rows, inside the band `isFull` inspects |
| `TetrisRules.SpawnPlaceable` | tetris/TetrisGame.java:312 | when `isFull` is false, a new piece covers no INACTIVE cell |
| `TetrisGame.Game.constructor` | tetris/TetrisGame.java:97-101 | builds a fresh empty board of the given size, records the start level, has no piece, and sets the counters to zero |
| `TetrisGame.Game.ResetGame` | tetris/TetrisGame.java:418-438 | lines, score and moves are 0, the level is the start level, the delay is `1000/(level+1)`, the game is not paused, and the board is blank; with `start` a first piece is shown, otherwise there is no piece |
| `TetrisGame.Game.ResetCounters` | tetris/TetrisGame.java:421-430 | sets the counters and flags of a reset, and the level equals the start level plus lines/10 |
| `TetrisGame.Game.ResetBoard` | tetris/TetrisGame.java:419-434 | the board is cleared, then a first piece is added or the piece is discarded |
| `TetrisGame.Game.AddPiece` | tetris/TetrisGame.java:441-448 | a fresh piece of the given shape is at the top centre and shown ACTIVE in its colour; no other cell changes |
| `TetrisGame.Game.Move` | tetris/TetrisGame.java:468-495 | `moves` grows by exactly 1 whether or not the move applies; the board and piece change as `Play` dispatches (drop, rotate, or shift with lock on a blocked down-move); the game invariant is kept |
| `TetrisGame.Game.DropPiece` | tetris/TetrisGame.java:472-476 | the piece descends while `canMove(0, 1)` holds and is then locked |
| `TetrisGame.Game.Descend` | tetris/TetrisGame.java:473-475 | the loop leaves the piece `FallDepth` rows lower, with the pivot moved along |
| `TetrisGame.Game.DropLoop` | tetris/TetrisGame.java:473-475 | the loop stops with `canMove(0, 1)` false after moving the piece down one row per step, each step allowed on the board as it then is |
| `TetrisGame.Game.TryRotate` | tetris/TetrisGame.java:478-481 | rotates exactly when `canRotate` holds, and otherwise changes nothing |
| `TetrisGame.Game.TryShift` | tetris/TetrisGame.java:483-490 | moves when `canMove` holds; otherwise locks on a downward move and leaves everything unchanged on a sideways one |
| `TetrisGame.Game.AiMove` | tetris/TetrisGame.java:457-465 | choices 0, 1 and 2 rotate, move left and move right, each counted as one move; any other value does nothing |
| `TetrisGame.Game.Tick` | tetris/TetrisGame.java:275-326 | with no falling piece: the counters are `Tallied` by the number of reported rows, the board is `ClearPrefix` of the report, the game is over exactly when the cleared board is `FullGrid`, and otherwise a fresh piece is spawned on it; with a falling piece: the game is not over and the piece is the same, a paused game changes nothing, and an unpaused one moves board and piece as `Fall` says and counts one move plus one for the computer player; the invariant and the level/lines relation are kept |
| `TetrisGame.Game.Gravity` | tetris/TetrisGame.java:317-323 | when paused, nothing changes; otherwise the piece moves one row down, then the computer player makes its move, each counted |
| `TetrisGame.Game.Spawn` | tetris/TetrisGame.java:275-313 | clears the reported rows with index compensation and updates lines, score, level, delay and moves as `Tallied` says; the game is over exactly when the cleared board `isFull`, and otherwise a new piece of shape `kind` is shown |
| `TetrisGame.Game.Settle` | tetris/TetrisGame.java:277-309 | the board becomes the compacted one, the counters are tallied, and the piece is untouched |
| `TetrisGame.Game.ClearLines` | tetris/TetrisGame.java:277-285 | the count returned is the number of positive reported entries (at most 4), and the board is cleared row by row as `ClearPrefix` says |
| `TetrisGame.Game.ClearReported` | tetris/TetrisGame.java:279-284 | each positive entry clears the row at that index plus the number cleared before it, and the count is returned |
| `TetrisGame.Game.Tally` | tetris/TetrisGame.java:285-309 | the score delta is `(level+1)*(n*200) + 100/moves` (0 with no moves); the level goes up when `lines >= (level-start+1)*10`; the delay is 100 for the computer and recomputed on level-up for the human; moves restart at 0 |
| `TetrisGame.Game.Respawn` | tetris/TetrisGame.java:311-313 | the game is over exactly when `isFull` holds; otherwise a new piece is added; the counters, the start level and the flags stay |
| `TetrisGame.Game.Place` | tetris/TetrisGame.java:312 | on a board with no ACTIVE cell, `addPiece` leaves a valid game with a fresh piece shown, and keeps the counters, the start level and the flags |
| `TetrisGame.Game.SetLines` | tetris/TetrisGame.java:523-525 | lines grows by the argument |
| `TetrisGame.Game.SetScore` | tetris/TetrisGame.java:528-530 | score grows by the argument |
| `TetrisGame.Game.SetLevel` | tetris/TetrisGame.java:533-535 | level grows by the argument |
| `TetrisGame.Game.TogglePause` | tetris/TetrisGame.java:498-500 | `paused` is negated |
| `TetrisOptions.ParseArgs` | tetris/TetrisGame.java:333-348 | slot `k` holds the value of the last complete (flag, value) pair whose flag is the `k`-th of `-r -c -l -g -w -h` |
| `TetrisOptions.LastValueExactly` | tetris/TetrisGame.java:336-345 | a slot holds `v` exactly when some pair with that flag carries `v` and no later pair repeats the flag; it is empty exactly when no pair has that flag |
| `TetrisOptions.LaterFlagOverrides` | tetris/TetrisGame.java:338-343 | a later pair for a known flag overrides that slot and leaves the others alone |
| `TetrisOptions.UnknownFlagIgnored` | tetris/TetrisGame.java:338-343 | a pair with an unknown flag changes nothing |
| `TetrisOptions.DanglingFlagIgnored` | tetris/TetrisGame.java:337 | a final flag with no value is ignored |
| `TetrisOptions.GetOptions` | tetris/TetrisGame.java:370-410 | returns the validated options, or no result where the Java method throws |
| `TetrisOptions.Defaults` | tetris/TetrisGame.java:371-380 | the array starts as rows 20, cols 10, level 0, grid 0, and, only for six slots, width 500 and height 575 |
| `TetrisOptions.ReadFields` | tetris/TetrisGame.java:382-397 | every accepted field replaces its default; the first field the integer parser rejects stops the loop |
| `TetrisOptions.Adjust` | tetris/TetrisGame.java:399-407 | rows are clamped to `[6, 100]`, cols to `[4, 30]`, and level to at most 50; width and height are raised to 500 and 575 |
| `TetrisOptions.OptionsBounds` | tetris/TetrisGame.java:399-407 | every result has rows in `[6, 100]`, cols in `[4, 30]`, level in `[0, 50]`, grid 0 or 1, and, with six slots, width >= 500 and height >= 575 |
| `TetrisOptions.OptionsAt` | tetris/TetrisGame.java:370-410 | there is a result exactly when there are at least four slots and no field fails; then each slot is its adjusted value |
| `TetrisOptions.OptionsDefaults` | tetris/TetrisGame.java:373-380 | with nothing given, the result is `[20, 10, 0, 0]`, plus `[500, 575]` for six slots |
| `TetrisOptions.NumberFieldExactly` | tetris/TetrisGame.java:383-388 | a numeric field is taken exactly when, after trimming, it is a non-empty digit string within the `int` range; then its value is used |
| `TetrisOptions.GridFieldExactly` | tetris/TetrisGame.java:389-395 | the grid field gives 1 for "true"/"1" and 0 for "false"/"0" after trimming; any other text keeps the default, and it never fails |
| `TetrisOptions.NumberField` | tetris/TetrisGame.java:386-387 | a taken value lies in `[0, 2^31-1]`; the parse fails exactly on an empty or oversized digit string |
| `TetrisOptions.TrimExactly` | tetris/TetrisGame.java:384 | trimming keeps a slice of the input, cuts only characters up to the space, and leaves a result that starts and ends printable |
| `TetrisOptions.DigitsValue` | tetris/TetrisGame.java:387 | a digit string of length `n` has a value below `10^n`, and at least `10^(n-1)` without a leading zero |
| `TetrisOptions.OptionsRejectsBlank` | tetris/TetrisGame.java:384-387 | a non-empty value that trims to the empty string, in any slot other than the grid's, makes the integer parser throw |
| `TetrisOptions.OptionsRejectsOverflow` | tetris/TetrisGame.java:386-387 | a value trimming to a digit string beyond the `int` range, in any slot other than the grid's, makes the integer parser throw |
| `TetrisOptions.OptionsTrimsAndReadsGrid` | tetris/TetrisGame.java:383-404 | on an accepted call the level is the trimmed digit string's value capped at 50, or 0 when the slot is absent, empty or not digits; the grid is on exactly when the trimmed grid value is "true" or "1" |

## Left out

- Drawing: `TetrisBoard.displayOn`, `TetrisCell.displayOn`, `getRectangle` and `setRectangle`, and `TetrisPiece.displayOn`. The board's `grid` flag is only stored.
- AWT/Swing plumbing: the widget setup in the controller's constructor, the key, focus and mouse listeners, `init`/`start`/`update`/`paint`/`stop`, the Update/Reset button branch of `actionPerformed`, `repaint`, and the focus requests. A timer tick is a call of `Game.Tick`. The `javax.swing.Timer` is gone, and `delay` is only a field.
- The busy flag of `TetrisPiece.move`/`rotate`, with its `Thread.sleep` retry, and `TetrisGame.busy`. These guard against concurrent ticks and key presses. The model is single-threaded and covers the non-busy path only.
- `java.util.Random`: the new piece's shape and the computer player's move are parameters (`kind`, `aiChoice`).
- Concrete colours: they are tags. The empty colour is `Black`, and the null colour of a freshly built cell is `NoColor`.
- `TetrisBoard.getCellsByMark` is private and never called. The trivial getters (`getRow`, `getCol`, `getMark`, `getColor`, `getHeight`, `getWidth`, `getCells`, `getBoard`, and the controller's `getLines`/`getScore`/`getLevel`) are field reads. `userMove` only forwards to `move`.
- `TetrisBoard.Board.GetLines`: requires at most four complete rows, because the Java method then writes past its array of length 4.
- `TetrisGame.Game.Tally`: lines and score are unbounded integers. Java's 32-bit wrap-around of `int` is not modelled.
- `TetrisOptions.GetOptions`: the Java method writes the trimmed strings back into its argument array. That side effect is not modelled. Its exceptions (a field of only spaces, a number beyond `int`, fewer than four slots) are the `None` result.
- `TetrisGame.Game.Tick`: the spawn step requires at most four complete rows, for the same reason as `GetLines`.
- `TetrisGame.Game.Spawn`: requires at most four complete rows, for the same reason as `GetLines`.
- `TetrisGame.Game.Settle`: requires at most four complete rows, for the same reason as `GetLines`.
- `TetrisGame.Game.ClearLines`: requires at most four complete rows, for the same reason as `GetLines`.
- `TetrisGame.Game.Move`: requires a piece to exist (the Java method would throw on a null piece) and a one-axis move, which is the documented precondition of `canMove`.
- The window entry points `TetrisPanel`, `TetrisApplet` and `printHelp`, and the empty `TetrisAI` class, are not part of this model.
