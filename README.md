# Tic-tac-toe minimax, modelled in Dafny

This project models `portfolio/tictactoe/alphabeta.py`, a tic-tac-toe player for a
3×3 board. The file is plain minimax without pruning, whatever its name says. It has
two parts:

- **Rules** (`rules.dfy`, module `Rules`):
  - `player` works out whose turn it is from the mark counts.
  - `actions` lists the empty cells. On a finished game it returns the tuple `(0, 0)`.
  - `result` applies a move to a copy of the board, or raises "Invalid action".
  - `winner` scans the rows, the columns and both diagonals.
  - `terminal` and `utility` classify and score finished positions.
- **Search** (`search.dfy`, module `Search`):
  - `max_value` and `min_value` are mutually recursive and explore the whole game tree.
  - `minimax` picks an optimal move at the root.

## How the model is built

- A cell is `Empty | X | O`, where `Empty` is the source's `EMPTY` (`None`).
- A board is `seq<seq<Cell>>`. `Shaped` requires 3 rows of 3, the shape the
  source indexes into. `Player` works on any shape, like the source's loop.
- A move is an `(int, int)` pair.
- Every statement loop in the source (`for`) is a Dafny `method` with a loop. Each is
  proved equal to a declarative function:
  - `Player` counts with one running counter. Its contract is stated with `CountBoard`.
  - `Actions` collects cells in row-major order. Its spec is `EmptyCells`/`Moves`.
  - `Winner` keeps the tallies `h`, `v`, `d1` and `d2`. Its spec is `WinnerOf`.
  - `MaxValue` and `MinValue` keep a running maximum or minimum. Their spec is
    `MaxValueOf`/`MinValueOf`, built from `MaxOf`/`MinOf` over the replies' values.
  - `Minimax` itself has no loop. Its two branches, `BestForX` and `BestForO`,
    each keep `v` and `found`, which stands for the source's `best`.
- The generator `any(EMPTY in row for row in board)` at alphabeta.py:108 is an
  expression inside `terminal`. It is the predicate `HasEmptyRow`, not a loop.
  `CountBoardPositive` ties it to the count of EMPTY cells.
- `Terminal` and `Utility` are expressions in the source, so they are functions
  here. Functions cannot call methods, so they use `WinnerOf`. The `Winner`
  method is proved to return exactly `WinnerOf`.
- `actions` returns the tuple `(0, 0)` on a finished game. That is the constructor
  `Sentinel`. Python's `action in (0, 0)` compares the pair with each `0`, so it
  never holds. `Offers(Sentinel, a)` is therefore false, and `result` refuses every
  move on a finished game.
- `WinnerOf` follows the scan order of the code. The scan completes lines at these
  cells:
  - at cell (0, 2): row 0 and column 0;
  - at cell (1, 2): row 1 and column 1;
  - from cell (2, 0) on: the anti-diagonal `board[2-i][i]`;
  - at cell (2, 2): row 2, column 2 and the main diagonal.

  At each check, a line of X is looked for before a line of O.
- Where the source's comments and its code disagree, the model follows the code:
  - The docstring of `winner` (alphabeta.py:61-62) promises "the winner of the
    game". The code reports the first full line its scan meets. The two differ only
    on boards where both marks own a line, which play never reaches. `WinnerOf`
    models the scan. Its contract says X (resp. O) is reported exactly when X
    (resp. O) owns a line, wherever at most one mark owns a line.
  - The comment at alphabeta.py:22 says it is X's turn when there are fewer Xs than
    Os or as many. Line 23 returns X only when the counts are equal, and O
    otherwise, including when there are fewer Xs. `Player` follows line 23. Only
    boards with more O marks than X marks are affected, and play never reaches them.
- The `-math.inf` and `math.inf` starting values are the integers `NegInf = -2`
  and `PosInf = 2`. Every score lies in {-1, 0, 1}, strictly between them.
- The two branches of `minimax` (X maximising, O minimising) are the methods
  `BestForX` and `BestForO`. `Minimax` checks for a finished game, asks `Player`
  and calls one of them.

## Model

| member | source | states |
|---|---|---|
| `Rules.Player` | portfolio/tictactoe/alphabeta.py:8-23 | returns X or O, and X exactly when the board holds as many X marks as O marks |
| `Rules.CountBoardPositive` | portfolio/tictactoe/alphabeta.py:108 | some row contains EMPTY (the `any(EMPTY in row ...)` test) exactly when the count of EMPTY cells is positive |
| `Rules.EmptyCellsAre` | portfolio/tictactoe/alphabeta.py:36-39 | after scanning the first n cells in row-major order, the collected moves are exactly the in-range empty cells of rank below n, in strictly increasing order |
| `Rules.MovesAreEmptyCells` | portfolio/tictactoe/alphabeta.py:33-41 | the move list holds exactly the in-range empty cells, without repetition, and is non-empty on a board that is not terminal |
| `Rules.Actions` | portfolio/tictactoe/alphabeta.py:26-41 | returns the `(0, 0)` sentinel exactly on terminal boards; otherwise a non-empty list whose members are exactly the empty cells on the board |
| `Rules.Tally` | portfolio/tictactoe/alphabeta.py:64-94 | a running tally of fewer than three cells of a line is never ±3; the full tally is 3 exactly when X fills the line and -3 exactly when O fills it |
| `Rules.ScanCheck` | portfolio/tictactoe/alphabeta.py:96-100 | if every line completed before cell (i, j) is clear, a tally of 3 at this check means the winner is X, and otherwise a tally of -3 means it is O; a check that fires on neither leaves the lines completed here clear |
| `Rules.WinnerOf` | portfolio/tictactoe/alphabeta.py:60-101 | None exactly when no row, column or diagonal is filled by one mark; a reported mark fills some line; when not both marks fill a line, X (resp. O) is reported exactly when X (resp. O) fills one |
| `Rules.Winner` | portfolio/tictactoe/alphabeta.py:60-101 | the scan with tallies h, v, d1 and d2 returns exactly WinnerOf: the mark of the first full line in scan order, or None |
| `Rules.Terminal` | portfolio/tictactoe/alphabeta.py:104-110 | true exactly when some line is filled by X or by O, or no cell is EMPTY |
| `Rules.Utility` | portfolio/tictactoe/alphabeta.py:113-121 | lies in {-1, 0, 1}; is 0 exactly when no line is filled; when not both marks fill a line, it is 1 exactly for an X line and -1 exactly for an O line |
| `Rules.PlayEffect` | portfolio/tictactoe/alphabeta.py:53-56 | a move puts the mover's mark in the chosen cell and changes no other cell; the EMPTY count drops by exactly one; the mover's count rises by one; #O ≤ #X ≤ #O + 1 is preserved |
| `Rules.Result` | portfolio/tictactoe/alphabeta.py:44-57 | raises Invalid action exactly when the board is terminal or the cell is out of range or occupied; otherwise returns a 3×3 copy with `player(board)` at the chosen cell and every other cell unchanged |
| `Search.MaxOf` | portfolio/tictactoe/alphabeta.py:151-153 | the running `v = max(v, x)` from -infinity over a list of scores is -infinity for no scores, otherwise an element of the list and no smaller than any element |
| `Search.MinOf` | portfolio/tictactoe/alphabeta.py:161-163 | the running `v = min(v, x)` from +infinity over a list of scores is +infinity for no scores, otherwise an element of the list and no larger than any element |
| `Search.MinValues` | portfolio/tictactoe/alphabeta.py:152-153 | one reply value per action, each in {-1, 0, 1} |
| `Search.MaxValues` | portfolio/tictactoe/alphabeta.py:162-163 | one reply value per action, each in {-1, 0, 1} |
| `Search.MinValuesAt` | portfolio/tictactoe/alphabeta.py:152-153 | the k-th reply value is `min_value(result(board, actions[k]))` |
| `Search.MaxValuesAt` | portfolio/tictactoe/alphabeta.py:162-163 | the k-th reply value is `max_value(result(board, actions[k]))` |
| `Search.MaxValueOf` | portfolio/tictactoe/alphabeta.py:148-155 | the value of a position with X to choose is always in {-1, 0, 1} |
| `Search.MinValueOf` | portfolio/tictactoe/alphabeta.py:158-165 | the value of a position with O to choose is always in {-1, 0, 1} |
| `Search.MaxValueIsBestReply` | portfolio/tictactoe/alphabeta.py:148-155 | on a non-terminal board, `max_value` is at least `min_value` of every position one legal move away, and equals it for some legal move |
| `Search.MinValueIsBestReply` | portfolio/tictactoe/alphabeta.py:158-165 | on a non-terminal board, `min_value` is at most `max_value` of every position one legal move away, and equals it for some legal move |
| `Search.MaxStep` | portfolio/tictactoe/alphabeta.py:152-153 | one more loop iteration turns the running maximum into `max(v, min_value(result(board, action)))` |
| `Search.MinStep` | portfolio/tictactoe/alphabeta.py:162-163 | one more loop iteration turns the running minimum into `min(v, max_value(result(board, action)))` |
| `Search.MaxValue` | portfolio/tictactoe/alphabeta.py:148-155 | the loop with its recursion into `MinValue` returns exactly MaxValueOf |
| `Search.MinValue` | portfolio/tictactoe/alphabeta.py:158-165 | the loop with its recursion into `MaxValue` returns exactly MinValueOf |
| `Search.BestForX` | portfolio/tictactoe/alphabeta.py:130-137 | returns a legal move whose `min_value` equals the board's `max_value` and is no smaller than that of any legal move; the initial `()` never escapes |
| `Search.BestForO` | portfolio/tictactoe/alphabeta.py:138-144 | returns a legal move whose `max_value` equals the board's `min_value` and is no larger than that of any legal move; the initial `()` never escapes |
| `Search.Minimax` | portfolio/tictactoe/alphabeta.py:123-145 | None exactly on terminal boards; otherwise a legal move, so `result` accepts it, that is optimal for the player to move: maximal child `min_value` for X, minimal child `max_value` for O |

## Left out

- Python's set iteration order. The model lists moves in row-major order. `Minimax`
  claims only that the move it returns is optimal, not which of several tied moves it is.
- `math.inf` floats. The integer sentinels -2 and 2 play their part, because all
  scores are integers in {-1, 0, 1}.
- `deepcopy`, and the exception's type and message. Boards are values: `result`
  builds a new sequence and cannot change its input. The exception is the
  `InvalidAction` outcome. Values cannot alias, so the model does not capture
  aliased rows. On a caller-built board such as `[[EMPTY]*3]*3`, `deepcopy` keeps
  the three rows as one shared list. Line 56 would then write the mark into every
  row.
- Inputs outside the game. The model covers 3×3 boards of Empty/X/O and
  `(int, int)` actions, because the game is defined on those. Operations other
  than `Player` require `Shaped`. On other inputs the source does the following:
  - Larger boards raise no error. `actions` and `winner` read only the top-left
    3×3 (lines 36-38, 65-83). `player` and `terminal` see every cell (lines 16-17,
    108).
  - Boards with fewer than 3 rows make `winner` raise IndexError at line 68
    whenever it runs. Rows shorter than 3 make it raise only if the scan reaches a
    missing cell before it returns. For example, `[[X,X,X],[O,O],[O]]` returns X
    at the check after cell (0, 2) (lines 97-98). `terminal` on a board with no
    EMPTY cell stops at line 108 without calling `winner`. `player` never indexes.
  - A cell holding any other value counts as neither mark and is not EMPTY. It
    raises no error (lines 18-21, 38, 69-94).
  - An action that is not a pair, such as a 3-tuple or a string, is not offered.
    `result` raises "Invalid action" (lines 49-50). There is one exception. On a
    terminal board `actions` returns the tuple `(0, 0)`, so the action `0` (or
    `0.0`, or `False`) passes the test at line 49. It then raises TypeError at
    line 56, where `action[0]` is read.
  - An unhashable action, such as a list, raises TypeError at line 49 on a board
    that is not terminal.
- Concrete game-tree facts, such as "the empty board is a draw". Checking one means
  evaluating the whole game tree, which is beyond a verifier's unfolding.
- The game loop and the rendering that call these functions. They are not part of
  this model.
