# Tic-tac-toe game-tree search, modelled in Dafny

The repository is a 3x3 tic-tac-toe player. O is the computer and X is the
human. It has two near-identical programs:

- `minimax/tic-tac-toe.py` searches the whole game tree with plain minimax.
- `alpha_beta/tic_tac_toe.py` searches it with alpha-beta pruning.

Both programs share the same board helpers:

- `initialize_board`
- `get_valid_moves`
- `is_winner`
- `is_draw`

Both also share the same move selector, `find_best_move`. It tries O on
every empty cell in row-major order and scores each resulting position
with the search, starting at depth 0 with X to move. It keeps the first
strictly greatest score.

This project models the helpers, both searches and both selectors, and
proves what they promise.

## Modules

- `Scores` (`scores.dfy`): a score is an integer extended with the two
  infinities, `ExtInt = NegInf | Fin(n) | PosInf`. It stands in for the
  floats `float("-inf")` and `float("inf")` that seed the running best and
  the window.
  - `Le` and `Less` are the numeric order.
  - `Max` and `Min` are the built-in `max` and `min`.
- `Board` (`board.dfy`): the board is flattened in row-major order into
  nine cells (`Grid`), and `board[row][col]` is cell `3 * row + col`.
  - A move `(row, col)` is represented by that position (`Move`).
    `MoveAt`, `Row` and `Col` convert between the two forms.
  - `ValidMoves`, `IsWinner` and `IsDraw` are the pure helpers.
  - `InitializeBoard` allocates the board as an array.
- `Minimax` (`minimax.dfy`): the exhaustive search and its selector.
  - `Value` is the search as a function of the board, with `BestOfMoves`
    as the running best after the first `n` moves.
  - `MinimaxSearch` is the search as written. It marks a shared array,
    recurses and unmarks the cell again. It is proved to return `Value` and
    to leave the array as it found it.
  - `BestMove` is the selector as a function, built from `Choice`, the
    running `(best_move, best_score)`. `FindBestMove` is the selector as
    written.
- `AlphaBeta` (`alpha_beta.dfy`): the pruned search and its selector.
  - `Value` and `Loop` are the pruned search as functions. `Loop` is the
    rest of the move loop with the running window, and stops where the
    source breaks.
  - `AlphaBetaPruning` is the in-place method.
  - `ValueSound` proves the fail-soft relation between the pruned and the
    exhaustive value:
    - A pruned result at or below alpha is an upper bound on the exact value.
    - A pruned result at or above beta is a lower bound.
    - A pruned result strictly inside the window is exact.
  - Under the full window the two values are therefore equal. So this
    file's `FindBestMove` returns `Minimax.BestMove`, the same move the
    exhaustive selector picks.

## How the model is shaped

- The two branches of each search (maximizing with O and -inf,
  minimizing with X and +inf) are symmetric. They are written once,
  parameterised by the side to move:
  - `Mark(maximizing)` is the mark placed.
  - `Seed(maximizing)` is the starting best.
- The place, search and undo steps of a loop iteration are a small method
  of their own:
  - `SearchChild` in both searches.
  - `TryMove` in both selectors.

  Each has its own contract, and the loop calls it.
- Every search and selector is proved to leave the board array equal to
  what it was on entry.
- Termination: every recursive call is made on a board with one fewer
  valid move (`Board.Place`). That count is the `decreases` measure.

## Model

| member | source | states |
|---|---|---|
| Board.InitializeBoard | alpha_beta/tic_tac_toe.py:1-3 | a new board of nine cells, all empty |
| Board.RowMajorOrder | alpha_beta/tic_tac_toe.py:7 | a move is determined by its (row, col), and the order of positions is row-major order on (row, col) |
| Board.MovesBefore | alpha_beta/tic_tac_toe.py:7 | the row-major scan of the cells before position k keeps the empty ones: at most k moves, each before k and on an empty cell |
| Board.ValidMoves | alpha_beta/tic_tac_toe.py:5-7 | every listed move is an empty cell |
| Board.MovesBeforeAreEmptyCells | alpha_beta/tic_tac_toe.py:7 | the moves listed before position k are exactly the empty cells before k, in strictly increasing row-major order |
| Board.ValidMovesAreEmptyCells | alpha_beta/tic_tac_toe.py:5-7 | the valid moves are exactly the empty cells, each once, in row-major order; there are none iff the board is full |
| Board.MovesBeforePlace | minimax/tic-tac-toe.py:38-40 | marking an empty cell m removes exactly m from the moves listed before any position k, and nothing else, so the list is one shorter when m < k |
| Board.Place | minimax/tic-tac-toe.py:39 | marking an empty cell leaves exactly one valid move fewer, which makes the recursion terminate |
| Board.IsWinner | alpha_beta/tic_tac_toe.py:9-19 | the three rows, then the three columns, then the two diagonals are tested for being all `p`; its meaning is stated by WinnerIffOwnsLine |
| Board.WinnerIffOwnsLine | alpha_beta/tic_tac_toe.py:9-19 | a player wins iff it owns one of the eight lines (three rows, three columns, two diagonals) |
| Board.IsDraw | alpha_beta/tic_tac_toe.py:21-23 | a draw is a board with no valid move left and no winner on either side |
| Scores.Max | minimax/tic-tac-toe.py:42 | `max` returns one of its arguments, and it is at least both |
| Scores.Min | minimax/tic-tac-toe.py:51 | `min` returns one of its arguments, and it is at most both |
| Minimax.Value | minimax/tic-tac-toe.py:25-52 | the exhaustive search as a function: an O win scores 10 - depth, else an X win depth - 10, else a draw 0, else the best child value for the side to move; its properties are the lemmas below |
| Minimax.BestOfMoves | minimax/tic-tac-toe.py:36-52 | the running best_score after the first n valid moves, starting from the infinite seed and folded with max (O) or min (X) |
| Minimax.Child | minimax/tic-tac-toe.py:38-40 | the child searched one ply deeper has one valid move fewer than its parent |
| Minimax.ValueIsFinite | minimax/tic-tac-toe.py:29-52 | the search never returns the infinite seed: a board that passes the three base-case checks has a valid move |
| Minimax.BestOfMovesIsFinite | minimax/tic-tac-toe.py:36-52 | the running best is finite once at least one move has been searched |
| Minimax.ValueBounds | minimax/tic-tac-toe.py:29-52 | within the nine-ply horizon (depth plus empty cells at most 10), a search at depth d returns a value in [d - 10, 10 - d] |
| Minimax.BestOfMovesBounds | minimax/tic-tac-toe.py:36-52 | the best child value lies in [d - 9, 9 - d] |
| Minimax.BestOfMovesIsExtremum | minimax/tic-tac-toe.py:36-52 | the running best after n moves bounds every child value seen so far (from above when maximizing, from below otherwise) and equals one of them |
| Minimax.ValueIsBestChild | minimax/tic-tac-toe.py:36-52 | at a node past the base cases, the value is the max over every child with O placed (maximizing) or the min with X placed; no move is skipped |
| Minimax.BestOfMovesMonotone | minimax/tic-tac-toe.py:42-51 | the running best only improves as more moves are searched |
| Minimax.MinimaxSearch | minimax/tic-tac-toe.py:25-52 | the in-place search returns the exhaustive value of the board it was given and restores the board cell for cell |
| Minimax.SearchChild | minimax/tic-tac-toe.py:39-41 | placing the side's mark, searching one ply deeper and undoing gives the child's value and restores the board |
| Minimax.MoveScoreBounds | minimax/tic-tac-toe.py:59-62 | every candidate scores in [-10, 10], and a candidate scores 10 exactly when placing O completes an O line |
| Minimax.MoveScores | minimax/tic-tac-toe.py:59-62 | one score per valid move, in the same order: the search of the board with O placed there, X to move, depth 0 |
| Minimax.Choice | minimax/tic-tac-toe.py:56-66 | (best_move, best_score) after n candidates: starts at (None, -inf), and a candidate replaces it only on a strictly greater score |
| Minimax.BestMove | minimax/tic-tac-toe.py:54-68 | the move find_best_move returns, as a function of the board; characterized by BestMoveIsFirstBest and BestMoveTakesFirstWin |
| Minimax.ChoiceIsFirstBest | minimax/tic-tac-toe.py:64-66 | with strict `>`, the selector's choice is the first candidate with the greatest score, and it is None iff there was no candidate |
| Minimax.BestMoveIsFirstBest | minimax/tic-tac-toe.py:54-68 | find_best_move returns None iff the board is full; otherwise the first valid move in row-major order with the greatest score |
| Minimax.BestMoveTakesFirstWin | minimax/tic-tac-toe.py:54-68 | when some empty cell completes a line of O, the first such cell is returned |
| Minimax.TryMove | minimax/tic-tac-toe.py:60-62 | placing O, searching at depth 0 with X to move and undoing gives the candidate's score and restores the board |
| Minimax.FindBestMove | minimax/tic-tac-toe.py:54-68 | the in-place selector returns BestMove of the board it was given and restores the board |
| AlphaBeta.Value | alpha_beta/tic_tac_toe.py:25-64 | the pruned search as a function of the board and window: the same base cases in the same order, else the move loop from the first move with the infinite seed; related to Minimax.Value by ValueSound |
| AlphaBeta.Loop | alpha_beta/tic_tac_toe.py:40-63 | the rest of the move loop from the i-th move: update best, then alpha (maximizing) or beta (minimizing), and stop with the running best once beta <= alpha |
| AlphaBeta.MaxStep | alpha_beta/tic_tac_toe.py:45-49 | one maximizing update (best, then alpha, then the cutoff test) keeps the fail-soft invariant, and a cutoff yields a lower bound at or above beta |
| AlphaBeta.MinStep | alpha_beta/tic_tac_toe.py:59-63 | one minimizing update (best, then beta, then the cutoff test) keeps the fail-soft invariant, and a cutoff yields an upper bound at or below alpha |
| AlphaBeta.ValueSound | alpha_beta/tic_tac_toe.py:25-64 | with alpha < beta, the pruned value is fail-soft with respect to the exhaustive value: a bound outside the window, exact inside it |
| AlphaBeta.MaxLoopSound | alpha_beta/tic_tac_toe.py:37-50 | the maximizing loop, with or without an early break, is fail-soft with respect to the node's window and the max over all moves |
| AlphaBeta.MinLoopSound | alpha_beta/tic_tac_toe.py:51-64 | the minimizing loop, with or without an early break, is fail-soft with respect to the node's window and the min over all moves |
| AlphaBeta.FullWindowIsExact | alpha_beta/tic_tac_toe.py:73 | called with (-inf, +inf), the pruned search returns exactly the exhaustive minimax value |
| AlphaBeta.PrunedMoveScore | alpha_beta/tic_tac_toe.py:72-74 | each candidate's score from the pruned search equals its score in the exhaustive selector |
| AlphaBeta.AlphaBetaPruning | alpha_beta/tic_tac_toe.py:25-64 | the in-place pruned search returns the pruned value of the board and window it was given, breaking once beta <= alpha, and restores the board cell for cell |
| AlphaBeta.SearchChild | alpha_beta/tic_tac_toe.py:41-43 | placing the side's mark, searching one ply deeper with the current window and undoing gives the child's pruned value and restores the board |
| AlphaBeta.TryMove | alpha_beta/tic_tac_toe.py:72-74 | placing O, running the pruned search with the full window and undoing gives the candidate's score and restores the board |
| AlphaBeta.FindBestMove | alpha_beta/tic_tac_toe.py:66-80 | the pruned selector returns the same move as the exhaustive selector (Minimax.BestMove) and restores the board |

## Left out

- The `print` tracing in both searches and both selectors, and `print_board`: console output only.
- `play_game` and the `__main__` blocks: input parsing, exception handling and the turn loop are interactive I/O.
- Python floats: the infinite seeds are `ExtInt` values, and every finite score is an integer. No floating-point arithmetic is modelled.
- Moves are returned as their row-major position `3 * row + col`, not as a `(row, col)` tuple. `Board.MoveAt`, `Board.Row` and `Board.Col` convert between the two.
- The board is a flat array of nine cells, not a list of three row lists. Aliasing between rows is therefore not modelled. The source never aliases them.
- Minimax.ValueBounds: it requires depth plus the number of empty cells to be at most 10. Every call the selectors make meets this bound: each selector places O before it calls the search, so the first call is at depth 0 with at most eight empty cells, and each ply adds one to the depth and removes one empty cell. Without the bound, a deep call on a nearly empty board can exceed the interval.
- Game-theoretic claims (the computer never loses, it blocks an immediate threat) are not stated. They depend on evaluating the full game tree from particular positions, not on the structure of the code.
- Legality of the position (the difference between the numbers of X and O marks): the search accepts any board, and so does the model.
