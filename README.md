# Tic-tac-toe against a minimax computer player, in Dafny

This project models the game engine of `ti-tac-ai.py`. A human plays X by clicking
cells. The computer plays O and chooses each move by exhaustive minimax over the
shared 3x3 board.

The model has four modules:

- `Board` (board.dfy): the grid as a value. It defines the three cell states, placing
  a mark, counting cells, the "full" test and the eight winning lines.
- `Search` (search.dfy): the minimax value of a grid and the computer's choice of move,
  as pure functions. The terminal scores are `10 - depth` when O has a line,
  `depth - 10` when X has a line, and `0` on a full grid. The scan over the cells is a
  fold over the empty cells in row-major order. `None` stands for the `±math.inf`
  starting value. The lemmas state what the value means: the extremum over the
  replies, its range, winning and blocking moves.
- `Engine` (state.dfy): the class `BoardState`, holding the one mutable board as an
  `array2`. It has `mark_square`, `available_square`, `is_board_full`, `check_win`, the
  clearing loop of `reset_game`, and the in-place `minimax` and `find_best_move`, which
  write a trial mark, recurse and clear it again. Each operation is proved to compute
  the value-level definition and, for the searches, to leave the board as it was.
- `Turns` (turns.dfy): the turn logic of `main` as a state machine over events. It
  proves that the board is never full between events, so O always has a cell to
  play, and that the marks stay balanced between the players.

## Model

| member | source | states |
|---|---|---|
| Board.EmptyGrid | ti-tac-ai.py:28 | A new board has nine empty cells. |
| Board.Place | ti-tac-ai.py:59-60 | Writing a cell puts the player there and keeps every other cell. |
| Board.PlaceRestore | ti-tac-ai.py:121-124 | Writing a cell's old content back undoes a trial placement exactly. |
| Board.Full | ti-tac-ai.py:67-72 | Defines a full board: no cell is empty. FullIffNoEmpty relates it to the empty count. |
| Board.RowOf | ti-tac-ai.py:78 | Defines a won row: every cell of row r holds the player. |
| Board.ColumnOf | ti-tac-ai.py:79 | Defines a won column: every cell of column c holds the player. |
| Board.MainDiagonalOf | ti-tac-ai.py:83 | Defines a won main diagonal: cell (i, i) holds the player for i = 0, 1, 2. |
| Board.AntiDiagonalOf | ti-tac-ai.py:84 | Defines a won anti-diagonal: cell (i, 2 - i) holds the player for i = 0, 1, 2. |
| Board.Wins | ti-tac-ai.py:75-87 | Defines a win: the player holds some row, some column or one of the two diagonals. |
| Board.FullIffNoEmpty | ti-tac-ai.py:67-72 | The board is full exactly when it has no empty cell. At most nine cells are empty. |
| Board.PlaceCount | ti-tac-ai.py:121-123 | A trial mark on an empty cell lowers the empty count by one. It adds one mark for the mover and leaves the opponent's count alone. The empty count is why the recursion terminates. |
| Board.WinsMonotone | ti-tac-ai.py:75-87 | A line is won only through the player's own cells. A grid where p holds at least the cells it holds in another grid is won by p whenever that other grid is. |
| Engine.BoardState.Rows | ti-tac-ai.py:28 | The board's grid value agrees cell by cell with the array. |
| Engine.BoardState.constructor | ti-tac-ai.py:28 | The board starts with nine empty cells. |
| Engine.BoardState.MarkSquare | ti-tac-ai.py:59-60 | The new board is the old one with the player in (row, col) and every other cell unchanged. |
| Engine.BoardState.AvailableSquare | ti-tac-ai.py:63-64 | True exactly when the cell is empty. An available cell means the board is not full. |
| Engine.BoardState.IsBoardFull | ti-tac-ai.py:67-72 | True exactly when no cell is empty. |
| Engine.BoardState.CheckWin | ti-tac-ai.py:75-87 | True exactly when the player holds a whole row, column or diagonal. The method cannot change the board. |
| Engine.BoardState.Reset | ti-tac-ai.py:104-106 | After the clearing loop, all nine cells are empty. |
| Engine.BoardState.Trial | ti-tac-ai.py:121-124 | Mark, search, clear: returns the minimax value of the board with the mark placed, and the board is restored. |
| Engine.BoardState.ScanCell | ti-tac-ai.py:120-125 | One pass of the inner loop folds the cell's score into the running max or min when the cell is empty, and skips it otherwise. The board is restored. |
| Engine.BoardState.Scan | ti-tac-ai.py:117-136 | The nested loops compute the fold of the replies' scores over all cells. The board is unchanged. |
| Engine.BoardState.Minimax | ti-tac-ai.py:109-136 | The result equals the minimax value of the board, with terminal cases in the source's order. The board is identical after the call. |
| Engine.BoardState.FindBestMove | ti-tac-ai.py:139-153 | On a full board the move is (-1, -1). Otherwise it is an empty cell of maximal score, and every earlier empty cell scores strictly less. The board is unchanged. |
| Search.Score | ti-tac-ai.py:109-136 | Defines the minimax value: 10 - depth if O has a line, else depth - 10 if X has a line, else 0 on a full grid, else the max (O to move) or min (X to move) of ChildScore over the empty cells. The terminal tests come in the order of lines 110-115. |
| Search.ChildScore | ti-tac-ai.py:121-124 | Defines the value of one reply: the mover's mark on an empty cell, scored one ply deeper with the other side to move. |
| Search.Fold | ti-tac-ai.py:117-136 | Defines the running best of the nested loops after the cells before (row, col). It starts at None for the infinite start. Each empty cell's score is combined by max (O) or min (X), and occupied cells are skipped. |
| Search.FoldSome | ti-tac-ai.py:117-128 | The running best leaves its infinite start exactly when an empty cell has been scanned, so the sentinel is never returned. |
| Search.FoldSpec | ti-tac-ai.py:117-136 | The running best is the max (O) or min (X) of the scores of the empty cells scanned so far, and one of them attains it. |
| Search.BestStepEmpty | ti-tac-ai.py:121-125 | Scanning an empty cell folds its reply's score into the running best. |
| Search.BestStepTaken | ti-tac-ai.py:121 | Scanning an occupied cell leaves the running best unchanged. |
| Search.ScoreOfOpenGrid | ti-tac-ai.py:117-136 | With no line and an empty cell, the score is the max (O to move) or min (X to move) over all empty cells of the reply's score one ply deeper, and some cell attains it. |
| Search.BestReply | ti-tac-ai.py:117-136 | On an open grid some empty cell's reply carries the score. |
| Search.ScoreRange | ti-tac-ai.py:109-136 | When depth plus empty cells is at most 10, every score lies in [depth - 10, 10 - depth]. A positive score is at least 10 - depth - empties, and a negative one is at most depth + empties - 10. |
| Search.ScoreBounds | ti-tac-ai.py:109-136 | At any depth, the score lies between min(depth - 10, 10 - depth - empties) and max(10 - depth, depth + empties - 10). It therefore lies in [depth - 10, 10 - depth] whenever depth <= 10 and 2 * depth + empties <= 20. |
| Search.TopScore | ti-tac-ai.py:110-111 | When depth + empties <= 10 and depth < 10 (every call from find_best_move meets this), the score is 10 - depth exactly when O already has a line. |
| Search.BottomScore | ti-tac-ai.py:112-113 | When depth + empties <= 10 and depth < 10 (every call from find_best_move meets this), the score is depth - 10 exactly when X has a line and O has not. |
| Search.MoveScore | ti-tac-ai.py:146-148 | Defines the score the computer gives a cell: O's mark there, scored at depth 0 with X to move. |
| Search.Pick | ti-tac-ai.py:139-153 | Defines the best score and move after the cells before (row, col). They start at None and (-1, -1). An empty cell replaces them only with a strictly greater score. |
| Search.BestMove | ti-tac-ai.py:139-153 | Defines the computer's move: the move of Pick after the whole board, each cell scored by MoveScore. |
| Search.PickStepEmpty | ti-tac-ai.py:145-151 | An empty cell becomes the choice when nothing is chosen yet or its score is strictly greater. |
| Search.PickStepTaken | ti-tac-ai.py:145 | An occupied cell changes nothing. |
| Search.PickSpec | ti-tac-ai.py:139-153 | After the cells before (row, col) are scanned, the choice is an empty cell of maximal score that no earlier empty cell ties. It stays (-1, -1) while no empty cell was seen. |
| Search.BestMoveSpec | ti-tac-ai.py:139-153 | The computer's move is (-1, -1) on a full board. Otherwise it is the first empty cell in row-major order with maximal score. |
| Search.WinningMoveScore | ti-tac-ai.py:139-153 | A move scores at most 10, and exactly 10 when O completes a line with it. |
| Search.ImmediateWin | ti-tac-ai.py:139-153 | If O can complete a line in one move, the computer plays the first such cell. |
| Search.NoNewLineForX | ti-tac-ai.py:75-87 | Placing a mark other than X cannot give X a line it did not have. |
| Search.ImmediateBlock | ti-tac-ai.py:139-153 | If O cannot win at once and X threatens a line on a single cell, the computer plays that cell. |
| Search.BlockScore | ti-tac-ai.py:109-136 | Blocking the single threat scores above -9. |
| Search.ReplyAfterBlock | ti-tac-ai.py:109-136 | After the block, no reply of X completes a line, so every reply scores above -9. |
| Search.MissedBlockScore | ti-tac-ai.py:109-136 | Any other move that does not itself complete an O line lets X complete the line and scores at most -9. |
| Turns.Play | ti-tac-ai.py:177-195 | Defines one move: the player's mark goes on the cell. A line for the player or a full board clears the board and keeps the player to move. Otherwise the turn passes. |
| Turns.Next | ti-tac-ai.py:169-195 | Defines one event. X's click on an empty cell plays it. While O is to move, any event plays O's best move. Anything else changes nothing. |
| Turns.Replay | ti-tac-ai.py:163-164 | Defines the state after a sequence of events, applying Next to each in order. |
| Turns.PlayKeepsInvariant | ti-tac-ai.py:176-195 | After a move the board is not full and the marks stay balanced. The turn passes exactly when no line and no full board arise. Otherwise the board is cleared and the mover keeps the turn. |
| Turns.NextKeepsInvariant | ti-tac-ai.py:169-195 | Every event keeps the board not full and the marks balanced. The human's mark only lands on the empty cell that was clicked. |
| Turns.Game.constructor | ti-tac-ai.py:160 | A game starts with an empty board and X to move. |
| Turns.Game.Move | ti-tac-ai.py:177-184 | Mark, then clear on a line or a full board, otherwise pass the turn. The new state is the value-level move. O's branch at lines 188-195 is the same code. |
| Turns.Game.Step | ti-tac-ai.py:169-195 | One event: X's click on an available cell, O's best move, or no change. The game invariant is preserved. |
| Turns.Game.Run | ti-tac-ai.py:163-164 | A sequence of events is handled in order. The state is the replay of the events, and the invariant holds throughout. |

## Left out

- Rendering and window setup are not modelled because they only draw: `draw_lines`, `draw_figures`, `draw_winner`, the fills, fonts and delays, and the screen calls inside `reset_game`.
- Event polling is not modelled because it is pygame input. This covers the quit event and the pixel-to-cell arithmetic. A click reaches the model already as an in-range (row, col), which the 300x300 window guarantees.
- The `±math.inf` starting values of `minimax` and `find_best_move` are not floats here: `None` stands for them until the first empty cell is scored. `minimax` never returns one, so no floating-point behaviour is needed.
- The two branches of `minimax` are one loop parametrised by the side to move. Maximizing places O and takes the max; minimizing places X and takes the min.
- The unused `random` import is not modelled.
- Python's negative indexing is not modelled. `MarkSquare` requires an in-range cell. The only caller that could pass (-1, -1) is O's turn, and the model proves it always has an empty cell.
- Turns.Next: O's move requires a board that is not full. This is the game invariant, which `Game.Valid` carries and every event preserves.
- Search.ScoreRange: assumes depth plus the number of empty cells is at most 10. Every call from `find_best_move` meets this: depth 0 with at most 8 empty cells. The sign bounds need it. The range alone holds more widely, as Search.ScoreBounds states.
- Two results that need evaluating the whole game tree are not proved: a general "O never loses" theorem, and the value of the empty board (a draw, score 0) with the opening move it implies. Only the immediate-win and immediate-block cases are proved.
- Who moves first after a reset: the code keeps `player` unchanged across `reset_game` (lines 160, 180-184 and 191-195). After O wins or fills the board, O moves first on the fresh board, although by convention X starts. The model follows the code.
