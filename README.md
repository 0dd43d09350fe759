# Checkers engine and board: a Dafny model

This project models the core of a desktop checkers game (draughts on an 8x8
board) in three modules. The models are proved against specifications written
out in Dafny.

- `Grid` (grid.dfy) holds the board matrix shared by the engine and the board.
  - A cell code is 0 for empty, 1 and 2 for a white and a black man, and 3 and 4 for a white and a black king.
  - A move is `MovePos(x, y, x2, y2, xb, yb)`; `xb = yb = -1` means it captures nothing.
  - The module also defines promotion, relocation of a piece, the starting position and cell counts.
- `GameLogic` (logic.dfy) is the move engine `Logic`:
  - `make_turn`, the pure move application;
  - the two terminal branches of the position score;
  - the per-square move scan, which fills the `turns` list and the `have_beats` flag;
  - the per-side scan, which applies the forced-capture rule and then shuffles;
  - the walk over the best-move continuation table.

  Each scan is a loop method. It is proved equal to a recursive
  specification function, and lemmas prove that function equal to a
  geometric definition of the moves (`IsManCapture`, `IsKingCapture`,
  `IsManStep`, `IsKingSlide`).
- `BoardState` (board.dfy) is the board object `Board`. Its fields are the grid
  `mtx`, the history `historyMtx` of grids after each move, the capture-series
  length `historyBeatSeries` of each of those moves, and the game result. Its
  methods move pieces, promote, record history, undo a capture series and set up
  the starting position. They raise the source's error messages as
  `Failure` outcomes.

Notes on the model:

- The grid is a value of type `seq<seq<int>>`. Board methods reassign the `mtx`
  field, which is how the source's `vector<vector<...>>` member behaves.
- The engine takes the grid as a parameter, where the source reads it from the
  board.
- A comment on the best-move search (Game/Logic.h:22) says that `true` means
  white. The side scan, however, selects the cells with `mtx[i][j] % 2 != color`
  (Game/Logic.h:135), so `true` selects the even codes, which are black. The model
  follows the code (`GameLogic.SidePiece`).
- The per-square scan treats every code other than 1 or 2 as a king,
  including an empty cell, with the parity of that code. The model does the same.
- `move_piece(turn)` empties the captured square before moving. When the move
  then fails, the captured square stays empty (`BoardState.Board.MovePieceTurn`).
- The source's shuffle draws from a seeded random engine. It is modelled as a
  Fisher-Yates pass driven by a sequence of draws given as a parameter. Only
  the permutation property is claimed; the concrete order is not.
- The side scan calls a value-returning form of the per-square scan
  (`GameLogic.SquareTurns`). The source calls the member that overwrites
  `turns` and `have_beats`, then overwrites both fields at the end of the scan,
  so the observable result is the same.
- The source leaves the call that fills the continuation table as an elided
  placeholder and clears both tables before the walk. The walk is modelled with
  the tables as inputs. They have equal, non-zero lengths, and every successor
  is -1 or a later state (`GameLogic.TableOk`), which makes the walk terminate.

## Model

| member | source | states |
|---|---|---|
| Grid.Promote | Game/Board.h:134-135 | The code changes exactly when a white man lands on row 0 or a black man on row 7. It then gains 2 and becomes a king of the same parity; the range 0..4 is kept. |
| Grid.Relocate | Game/Board.h:134-138 | After a move from (i, j) to (i2, j2), the source square is empty and the destination holds the source's code, promoted. Every other cell is unchanged. |
| Grid.ClearCaptured | Game/Logic.h:44-45 | A move that captures empties exactly its captured square; a move with `xb = -1` changes nothing. |
| Grid.StartMtx | Game/Board.h:271-282 | The starting grid is well formed. Every cell holds black man on (i+j) odd in rows 0-2, white man on (i+j) odd in rows 5-7, and is empty otherwise. |
| Grid.StartMtxCounts | Game/Board.h:273-282 | The starting position has 12 white men, 12 black men, no kings and 40 empty squares. |
| Grid.CountZero | Game/Logic.h:58-65 | A piece count is zero exactly when no cell holds that code. |
| Grid.WeightedCountZero | Game/Logic.h:66-70 | A side with no men has a zero row-advance bonus. |
| GameLogic.MakeTurn | Game/Logic.h:42-51 | The grid after a move: the source is empty and the captured square is empty. The destination holds the moved code, promoted by +2 when a 1 lands on row 0 or a 2 on row 7. Every other cell is unchanged. The input grid is a value, so the caller's grid is untouched. |
| GameLogic.CalcScore | Game/Logic.h:53-89 | The counts are oriented by `first_bot_color`. The result is INF exactly when the denominator side has no pieces. It is 0 exactly when that side has pieces and the numerator side has none. Otherwise it is a ratio with both parts positive. |
| GameLogic.CaptureRaySound | Game/Logic.h:198-223 | Every capture the king's ray scan yields is a geometric king capture in that ray's direction. |
| GameLogic.CaptureRayComplete | Game/Logic.h:198-223 | Every geometric king capture in a ray's direction is yielded by that ray's scan. |
| GameLogic.CaptureRayExact | Game/Logic.h:198-223 | A king's captures on one ray are exactly the moves that pass only empty squares to one opposite-parity piece and land on an empty square after it, before the next piece. A same-parity piece or a second piece ends the ray. |
| GameLogic.SlideRayExact | Game/Logic.h:255-266 | A king's slides on one ray are exactly the empty squares up to the first occupied square. |
| GameLogic.KingMovesUpToExact | Game/Logic.h:198-223 | Over the first n of the four directions, the king's captures (or slides) are exactly the geometric ones in those directions. |
| GameLogic.ManJumpExact | Game/Logic.h:181-191 | A single jump yields a move exactly when it is a geometric man capture to that square. |
| GameLogic.ManJumpsExact | Game/Logic.h:176-192 | A man's captures are exactly the moves two diagonal steps away, in any of the four directions, to an empty on-board square with the midpoint recorded as captured and holding an opposite-parity piece. |
| GameLogic.ManStepsExact | Game/Logic.h:241-250 | A man's simple moves are exactly the steps to row x-1 (odd code) or x+1 (even code), one column aside, onto an empty on-board square. None of them captures. |
| GameLogic.CapturesAtExact | Game/Logic.h:169-225 | The captures found for a square are exactly its geometric captures: man rules for codes 1 and 2, king rules otherwise. |
| GameLogic.SimpleAtExact | Game/Logic.h:234-270 | The simple moves found for a square are exactly its geometric simple moves. |
| GameLogic.TurnsAtExact | Game/Logic.h:164-270 | Per-square exclusivity: if the square has a capture, its moves are exactly its captures; otherwise they are exactly its simple moves. All start on the square. Captures record an on-board captured square and simple moves record -1. |
| GameLogic.RowMajorExact | Game/Logic.h:130-133 | The row-major concatenation over the squares before (i, j) contains a move exactly when the move starts on such a square and is one of that square's moves. |
| GameLogic.SideUpToExact | Game/Logic.h:130-153 | The side's captures (or simple moves) gathered before (i, j) are exactly the moves of the side's pieces on those squares. |
| GameLogic.SideTurnsExact | Game/Logic.h:130-157 | Forced-capture rule: the side's moves are exactly the geometric captures of its pieces if any exists, and otherwise exactly their simple moves. A piece of the side has a non-zero code with `code % 2 != color`. |
| GameLogic.SideHasCaptureExact | Game/Logic.h:140-157 | The side's capture flag is set exactly when some piece of the side has a geometric capture. |
| GameLogic.GatherStep | Game/Logic.h:135-150 | One square of the side scan keeps the flag and the gathered list equal to the specified prefix: clear on the first capture, then append only captures. |
| GameLogic.Shuffle | Game/Logic.h:156 | The shuffled list is a permutation (same multiset) of the scanned moves. |
| GameLogic.Visited | Game/Logic.h:30-36 | The visited states start at the given state and stay in range. |
| GameLogic.VisitedIsTheChain | Game/Logic.h:30-36 | A path is a walk of the table that follows successors and stops at the first state whose successor is -1 or holds the no-move record exactly when it is the visited path. |
| GameLogic.BestLine | Game/Logic.h:30-36 | The best line is never empty. It starts with `next_move[0]`, and every later move is a real move (x != -1). |
| GameLogic.BestLineFollowsChain | Game/Logic.h:30-36 | The best line is, position by position, `next_move` at the visited states. |
| GameLogic.FindBestTurns | Game/Logic.h:23-37 | The do-while walk returns the best line from state 0. |
| GameLogic.ScanCaptureRay | Game/Logic.h:202-221 | The loop along one ray computes exactly the king captures on that ray. |
| GameLogic.ScanSlideRay | Game/Logic.h:260-266 | The loop along one ray computes exactly the king slides on that ray. |
| GameLogic.ScanManJumps | Game/Logic.h:176-193 | The nested loops over i and j in steps of 4 compute the man's four jumps in the source's order. |
| GameLogic.ScanKingRays | Game/Logic.h:198-224 | The nested loops over the four directions compute the king's captures (or, with `caps` false, its slides) in the source's order. |
| GameLogic.ScanManSteps | Game/Logic.h:241-250 | The loop over the two columns computes the man's forward steps. |
| GameLogic.SquareTurns | Game/Logic.h:162-271 | The per-square scan returns the square's captures with the flag set if it has any, and otherwise its simple moves with the flag clear. |
| GameLogic.GatherRow | Game/Logic.h:132-152 | The column loop of the side scan extends the gathered list and the flag by one row of squares. |
| GameLogic.GatherSide | Game/Logic.h:130-153 | The row loop of the side scan yields the side's moves under the forced-capture rule, and the flag. |
| GameLogic.Logic.FindSquareTurns | Game/Logic.h:162-271 | The fields `turns` and `haveBeats` become the square's moves and its capture flag. |
| GameLogic.Logic.FindSideTurns | Game/Logic.h:124-158 | `turns` becomes a permutation of the side's moves under the forced-capture rule, and `haveBeats` says whether they are captures. |
| BoardState.RollbackPops | Game/Board.h:211-212 | A rollback removes max(1, last series length) entries, capped so that at least one entry remains; with more than one entry it removes at least one. |
| BoardState.Board.constructor | Game/Board.h:434-446 | A new board has an empty 8x8 grid, empty histories and result -1. |
| BoardState.Board.Redraw | Game/Board.h:95-103 | After a reset the result is -1, the grid is the starting position, and the history holds exactly that position with series length 0. |
| BoardState.Board.MovePieceTurn | Game/Board.h:108-116 | The captured square is emptied first, then the two-square move runs. The two errors are decided on the grid with that square already empty, and on an error the grid keeps it empty. On success the grid is `MakeTurn` of the old grid and one history entry is appended. |
| BoardState.Board.MovePiece | Game/Board.h:121-140 | An occupied destination (checked first) or an empty source raises the matching error and changes nothing. Otherwise the source and destination differ, the grid is the relocation with promotion, and exactly one entry is appended to each history. |
| BoardState.Board.DropPiece | Game/Board.h:143-147 | The cell becomes empty; every other cell and the histories are unchanged. |
| BoardState.Board.TurnIntoQueen | Game/Board.h:150-158 | It succeeds exactly on a man. It then adds 2, giving a king of the same side, and leaves every other cell unchanged. On an empty cell or a king it raises the error and changes nothing. |
| BoardState.Board.GetBoard | Game/Board.h:160-163 | The returned copy holds every cell of the grid and is a well-formed 8x8 grid. |
| BoardState.Board.Rollback | Game/Board.h:209-220 | Both histories lose the same `RollbackPops` entries from the end, at least one entry remains, and the grid becomes the last remaining snapshot. |
| BoardState.Board.AddHistory | Game/Board.h:263-267 | The current grid and the series length are appended, so the two histories stay the same length. |
| BoardState.Board.MakeStartMtx | Game/Board.h:271-285 | The nested loops leave the grid equal to the starting position and append it to the history with series length 0. |

## Left out

- All rendering, window and file I/O members of the board: drawing, textures, the window-size reset, quitting, the destructor, the final-result display (`show_final`) and the exception log. Rendering is treated as a no-op.
- The highlight and active-cell state and its members (highlighting, the active cell, clearing them in `redraw` and `rollback`). This is display state only.
- The board's window-size constructor and the `W`/`H` fields. Only the field initialisers are modelled, as `BoardState.Board.constructor`.
- The best-move searches `find_first_best_turn` and `find_best_turns_rec`, and the call that fills the continuation table. Their bodies are empty or elided in the source. `find_best_turns` clears the tables before that elided call; the model takes the filled tables as inputs.
- The public `find_turns` wrappers, which only pass the board's grid to the private overloads. Calls from one class to the other are replaced by passing the grid as a parameter.
- GameLogic.CalcScore: the ratio is kept as an exact integer numerator and denominator (scaled by 20 in the "NumberAndPotential" mode), not as the source's floating-point division. Only the two sentinel branches and the positivity of the ratio are proved.
- GameLogic.Shuffle: the random engine, its seeding from the clock or the configuration, and the concrete order are not modelled. The draws are a parameter, and only the permutation property is stated.
- GameLogic.Logic.constructor: the source leaves `have_beats` uninitialised until the first scan; the model starts it as false. The configuration lookups (scoring mode, optimisation, search depth) are not modelled.
- The `POS_T` integer type and the `move_pos` record are defined in files that are not part of this model. Coordinates are modelled as unbounded integers; on the 8x8 board they never leave the small range the source type holds.
- The engine members (`GameLogic.SidePiece`, `GameLogic.SquareTurns`, `GameLogic.GatherSide`, `GameLogic.Logic.FindSideTurns`, `GameLogic.CalcScore`) are modelled for cell codes 0..4 only. On a negative code, Dafny's `%` (never negative) differs from the truncating `%` of C++, so a side test such as `code % 2 != color` would select differently. The board never stores such a code (`BoardState.Board.Valid`).
- Illegal input to the board methods, such as off-board coordinates or a rollback on an empty history, is excluded by preconditions. In the source this is undefined behaviour and not a handled error.
