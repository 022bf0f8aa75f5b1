# Tic-tac-toe engine with minimax and alpha-beta pruning

This project models the game engine of a tic-tac-toe program in which the
computer plays X against a human O. The model covers the following parts.

- The board. It has nine cells, each empty or holding X or O.
- The three board operations:
  - listing the available moves;
  - placing a mark;
  - classifying a board as won by X, won by O, tied, or ongoing.
- The terminal score table.
- `minimax`: an exhaustive search with alpha-beta pruning. It plays each move
  on the shared board, searches the reply, and undoes the move.
- `find_best_move`: the move the engine chooses for X.

Everything about the search is proved against `MinimaxValue`, plain minimax
without pruning, written as a ghost function over board contents.

The modules follow the program:

- `Evaluator` (`evaluator.dfy`): cells, grids and the eight winning lines.
  - `Moves` is the available-move list as a function.
  - `CheckWinner` is `check_winner`.
  - `Place` is a grid with one cell marked.
- `Board` (`board.dfy`): the two operations on the mutable board.
  - `GetAvailableMoves`, with the source's nested loops.
  - `MakeMove`, which writes the cell in place.
- `Search` (`search.dfy`): the score table, plain minimax, the alpha-beta
  search and `FindBestMove`.
- `Scenarios` (`scenarios.dfy`): four concrete positions.
- `Wrappers` (`wrappers.dfy`): the `Option` type, where None means "no move".

## How the source maps to the model

- **Board layout.** The source's board is a list of three row lists. The model
  uses one array of nine cells in row-major order: cell (row, col) is at index
  `3 * row + col`. The contents `board[..]` is the grid the specification
  functions take.
- **Winning lines.** They are stored as triples of row-major positions, in the
  source's scan order: rows, columns, main diagonal, anti-diagonal.
- **`None` and the mark strings.** `check_winner`'s `None` is `Ongoing`. The
  marks `'X'` and `'O'` are the `Player` values. `' '` is `Empty`.
- **Infinities.** `math.inf` and `-math.inf` become the integers 2 and -2. Every
  score lies in [-1, 1], so comparisons against them come out as against the
  infinities.
- **Helper methods for the `minimax` body.** The body is split into three
  helpers, which together do exactly what that one function does:
  - `SearchMax`: the maximising branch.
  - `SearchMin`: the minimising branch.
  - `PlayAndSearch`: the apply / recurse / undo step shared by both branches
    and by `find_best_move`.
- **Fail-soft contract.** Alpha-beta is specified by the fail-soft bounds
  (`FailSoft`) for any window with alpha < beta:
  - a result at or below alpha bounds the true value from above;
  - a result strictly inside the window is the true value;
  - a result at or above beta bounds the true value from below.

  With the full window, which is how `find_best_move` calls it, the result is
  exactly the plain minimax value.
- **Termination.** The recursion ends because the number of empty cells falls
  by one at each level (`EmptyCount`).

## Model

| member | source | states |
|---|---|---|
| Evaluator.CoordAt | tictactoe_ai.py:16-19 | the coordinate visited at row-major step `i` is the one at flat position `i` |
| Evaluator.FirstCompleteLine | tictactoe_ai.py:34-48 | the scan returns the first complete line at or after position `k`, or none when no later line is complete |
| Evaluator.CheckWinner | tictactoe_ai.py:29-54 | the outcome of the scan; what it means is stated by CheckWinnerWon, CheckWinnerFirst, CheckWinnerTie and CheckWinnerOngoing |
| Evaluator.CheckWinnerWon | tictactoe_ai.py:34-48 | a mark is returned exactly when some line holds three equal marks |
| Evaluator.CheckWinnerFirst | tictactoe_ai.py:34-48 | the returned mark owns the first complete line in the order rows, columns, main diagonal, anti-diagonal |
| Evaluator.CheckWinnerTie | tictactoe_ai.py:50-52 | 'Tie' exactly when no line is complete and no cell is empty |
| Evaluator.CheckWinnerOngoing | tictactoe_ai.py:50-54 | None exactly when no line is complete and some cell is empty |
| Evaluator.WinnerOfAgreeingLines | tictactoe_ai.py:34-48 | if every complete line belongs to one player and one line is complete, that player is the winner |
| Evaluator.MovesBelow | tictactoe_ai.py:15-19 | after the first `n` cells of the scan, only empty cells below `n` are listed |
| Evaluator.MovesBelowOrdered | tictactoe_ai.py:16-19 | the partial listing is strictly increasing in row-major order |
| Evaluator.MovesBelowComplete | tictactoe_ai.py:16-19 | every empty cell below `n` is listed |
| Evaluator.MovesBelowNone | tictactoe_ai.py:16-19 | the partial listing is empty exactly when none of the first `n` cells is empty |
| Evaluator.Moves | tictactoe_ai.py:13-20 | every listed move is an empty cell |
| Evaluator.MovesExact | tictactoe_ai.py:13-20 | a cell is listed if and only if it is empty |
| Evaluator.MovesOrdered | tictactoe_ai.py:16-19 | the moves are strictly increasing in row-major order, so each appears once |
| Evaluator.MovesNoneIffFull | tictactoe_ai.py:13-20 | the list is empty exactly when the board is full |
| Evaluator.Place | tictactoe_ai.py:24-25 | the chosen cell holds the player's mark and the other eight cells are unchanged |
| Evaluator.UndoRestores | tictactoe_ai.py:74 | writing ' ' back into a cell just marked restores the board |
| Evaluator.PlaceFillsOne | tictactoe_ai.py:24-25 | marking an empty cell leaves one empty cell fewer |
| Evaluator.PlaceShrinksMovesBelow | tictactoe_ai.py:16-19 | marking an empty cell removes it from the partial listing if it lies below `n` |
| Evaluator.PlaceShrinksMoves | tictactoe_ai.py:22-27 | a successful move removes exactly one available move |
| Board.GetAvailableMoves | tictactoe_ai.py:13-20 | the nested loops return exactly `Moves` of the board: its empty cells, row-major, each once |
| Board.MakeMove | tictactoe_ai.py:22-27 | returns true exactly when the cell was empty; then only that cell changes, to the player's mark; otherwise nothing changes |
| Search.Score | tictactoe_ai.py:58 | X scores 1, O scores -1 and a tie 0, each exactly; every score is in [-1, 1] |
| Search.ExtremeFrom | tictactoe_ai.py:75-76 | the running maximum (minimum) is the start value or some scanned element, and bounds all scanned elements |
| Search.Extreme | tictactoe_ai.py:75 | the max (min) of a non-empty list is one of its elements and bounds them all; the empty list gives -inf (+inf) |
| Search.MinimaxValue | tictactoe_ai.py:60-91 | plain minimax without pruning: the score of a terminal board, otherwise the best child value for the side to move; always in [-1, 1] |
| Search.ChildValues | tictactoe_ai.py:70-73 | one plain minimax value per available move, each in [-1, 1] |
| Search.ChildValueAt | tictactoe_ai.py:71-73 | the `k`-th child value is the value of the board after move `k` with the opponent to move |
| Search.MinimaxTerminal | tictactoe_ai.py:64-66 | a terminal board is worth exactly `scores[result]` |
| Search.MinimaxOngoing | tictactoe_ai.py:68-91 | an ongoing board has at least one move and is worth the best of its children |
| Search.UpperBoundExtends | tictactoe_ai.py:75 | a bound on the scores seen so far, raised to cover the new score, bounds one more score |
| Search.LowerBoundExtends | tictactoe_ai.py:87 | the mirror image of UpperBoundExtends for the minimising loop |
| Search.MaxStep | tictactoe_ai.py:75-78 | one maximising iteration keeps best in [-1, 1] and alpha equal to max(alpha, best); without a cut, best bounds the move's true value and equals it when it rose above alpha; with a cut, beta <= best <= the true value |
| Search.MinStep | tictactoe_ai.py:87-90 | the mirror image of MaxStep for the minimising branch |
| Search.Minimax | tictactoe_ai.py:60-91 | leaves the board as it was; the result is in [-1, 1]; on a terminal board it is `scores[result]`; for any window with alpha < beta it meets the fail-soft bounds against plain minimax; with the full window it equals plain minimax |
| Search.SearchMax | tictactoe_ai.py:68-79 | leaves the board as it was; the result is in [-1, 1] and meets the fail-soft bounds against the maximum child value |
| Search.SearchMin | tictactoe_ai.py:80-91 | leaves the board as it was; the result is in [-1, 1] and meets the fail-soft bounds against the minimum child value |
| Search.PlayAndSearch | tictactoe_ai.py:71-74 | after the move, the opponent's search and the undo, the board is as it was; the score meets the fail-soft bounds against the value of the board after the move, and equals it with the full window |
| Search.FindBestMove | tictactoe_ai.py:93-107 | leaves the board as it was; None exactly when no move is available; otherwise a move whose plain minimax value is the maximum, with every earlier move strictly worse |
| Scenarios.TwoInARowFirstMove | tictactoe_ai.py:13-20 | on X X . / O O . / . . . the first available move is (0, 2) |
| Scenarios.TwoInARowFirstMoveWins | tictactoe_ai.py:64-73 | there, playing (0, 2) completes the top row and is worth 1 to X |
| Scenarios.ImmediateWin | tictactoe_ai.py:93-107 | on X X . / O O . / . . . the chosen move is (0, 2) |
| Scenarios.MaxReachesWin | tictactoe_ai.py:68-79 | an ongoing board with X to move is worth 1 once one of X's moves leads to a board worth 1 |
| Scenarios.MinCannotEscape | tictactoe_ai.py:80-91 | an ongoing board with O to move is worth 1 when every reply of O leads to a board worth 1 |
| Scenarios.WinningMove | tictactoe_ai.py:64-66 | a move that gives X a complete line is worth 1 |
| Scenarios.CornerForksThreats | tictactoe_ai.py:60-91 | after X takes (0, 2) on O O . / X X . / . . ., every reply of O leaves X an immediate win, so the board is worth 1 |
| Scenarios.TwoThreatsFirstMove | tictactoe_ai.py:13-20 | on O O . / X X . / . . . the first available move is (0, 2) |
| Scenarios.BlockAndFork | tictactoe_ai.py:93-107 | on O O . / X X . / . . . the chosen move is (0, 2), the first move worth 1, not the immediate win at (1, 2) |
| Scenarios.FullBoardTie | tictactoe_ai.py:50-52 | the full board X O X / X O O / O X X is a tie and no move is chosen |
| Scenarios.WonBoardScore | tictactoe_ai.py:64-66 | minimax on a board O has won returns -1 at once |

## Left out

- `print_board` and `main` (tictactoe_ai.py:5-11, 111-157) are console I/O and
  an input loop. server.py (HTTP routes, session storage, JSON) and the browser
  script are request handling and UI. None of them is part of this model.
- The `depth` parameter of `minimax` is passed along but never affects a
  result, so it is dropped.
- Floating-point infinities are replaced by the integers -2 and 2, as
  described above.
- Out-of-range indices: `MakeMove` takes a row and a column in 0..2, and the
  model leaves out every other index. Python's negative indexing makes the
  indices -3..-1 wrap around to another cell (`make_move(board, -1, 0, 'O')`
  writes into row 2 when that cell is empty). Indices outside -3..2 raise
  IndexError, which only the I/O loop handles.
- Marks other than X and O: the `player` argument of `make_move` is restricted
  to the two players.
- The three row lists of the source are one flat array of nine cells. Aliasing
  between rows is therefore not modelled.
- Two properties of whole games are not proved:
  - that self-play from the empty board never loses;
  - which move X chooses on the empty board (the corner (0, 0), as the first
    move worth 0). That the chosen move has the maximum value among all
    moves is `FindBestMove`'s contract; naming the move needs the value of
    every subtree of the empty board.

  Each would require the verifier to evaluate large parts of the game tree.
