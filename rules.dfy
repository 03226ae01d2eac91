/** The rules of 3x3 tic-tac-toe as portfolio/tictactoe/alphabeta.py states them:
    whose turn it is, which moves are available, what a move does, who has won,
    whether the game is over and what a finished game is worth. */
module Rules {

  /** The content of one cell; Empty stands for the source's EMPTY (Python None). */
  datatype Cell = Empty | X | O

  /** A board is a sequence of rows; a well-formed one is 3 rows of 3 cells. */
  type Board = seq<seq<Cell>>

  /** A move, as the (row, column) pair the source uses. */
  type Action = (int, int)

  predicate Shaped(b: Board) {
    |b| == 3 && |b[0]| == 3 && |b[1]| == 3 && |b[2]| == 3
  }

  // ---------------------------------------------------------------------------
  // Counting marks

  /** Number of cells of `row` holding `c`. */
  function CountRow(row: seq<Cell>, c: Cell): nat {
    if row == [] then 0
    else CountRow(row[..|row| - 1], c) + (if row[|row| - 1] == c then 1 else 0)
  }

  /** Number of cells of the whole board holding `c`. */
  function CountBoard(b: Board, c: Cell): nat {
    if b == [] then 0
    else CountBoard(b[..|b| - 1], c) + CountRow(b[|b| - 1], c)
  }

  lemma {:induction false} CountRowPositive(row: seq<Cell>, c: Cell)
    ensures CountRow(row, c) > 0 <==> c in row
  {
    if row != [] {
      CountRowPositive(row[..|row| - 1], c);
      assert row == row[..|row| - 1] + [row[|row| - 1]];
    }
  }

  /** A mark occurs somewhere on the board exactly when its count is positive. */
  lemma {:induction false} CountBoardPositive(b: Board, c: Cell)
    ensures CountBoard(b, c) > 0 <==> exists i :: 0 <= i < |b| && c in b[i]
  {
    if b != [] {
      var n := |b| - 1;
      CountBoardPositive(b[..n], c);
      CountRowPositive(b[n], c);
      if CountBoard(b, c) > 0 {
        if CountRow(b[n], c) == 0 {
          var i :| 0 <= i < n && c in b[..n][i];
          assert c in b[i];
        }
      } else {
        forall i | 0 <= i < |b| ensures c !in b[i] {
          if i < n {
            assert b[..n][i] == b[i];
          }
        }
      }
    }
  }

  lemma {:induction false} CountRowUpdate(row: seq<Cell>, j: int, v: Cell, c: Cell)
    requires 0 <= j < |row|
    ensures CountRow(row[j := v], c)
         == CountRow(row, c) - (if row[j] == c then 1 else 0) + (if v == c then 1 else 0)
  {
    var n := |row| - 1;
    if j == n {
      assert row[j := v][..n] == row[..n];
    } else {
      assert row[j := v][..n] == row[..n][j := v];
      CountRowUpdate(row[..n], j, v, c);
    }
  }

  lemma {:induction false} CountBoardUpdate(b: Board, i: int, r: seq<Cell>, c: Cell)
    requires 0 <= i < |b|
    ensures CountBoard(b[i := r], c) == CountBoard(b, c) - CountRow(b[i], c) + CountRow(r, c)
  {
    var n := |b| - 1;
    if i == n {
      assert b[i := r][..n] == b[..n];
    } else {
      assert b[i := r][..n] == b[..n][i := r];
      CountBoardUpdate(b[..n], i, r, c);
    }
  }

  // ---------------------------------------------------------------------------
  // player (alphabeta.py:8-23)

  /** Whose turn it is: X when the boards holds as many X as O marks, O otherwise. */
  function PlayerOf(b: Board): Cell {
    if CountBoard(b, X) == CountBoard(b, O) then X else O
  }

  /** The source's loop: one running counter, +1 per X and -1 per O. */
  method Player(b: Board) returns (p: Cell)
    ensures p == X || p == O
    ensures p == X <==> CountBoard(b, X) == CountBoard(b, O)
  {
    var count := 0;
    for r := 0 to |b|
      invariant count == CountBoard(b[..r], X) - CountBoard(b[..r], O)
    {
      var row := b[r];
      for k := 0 to |row|
        invariant count == CountBoard(b[..r], X) - CountBoard(b[..r], O)
                           + CountRow(row[..k], X) - CountRow(row[..k], O)
      {
        assert row[..k + 1][..k] == row[..k];
        if row[k] == X {
          count := count + 1;
        } else if row[k] == O {
          count := count - 1;
        }
      }
      assert row[..|row|] == row;
      assert b[..r + 1][..r] == b[..r];
    }
    assert b[..|b|] == b;
    p := if count == 0 then X else O;
  }

  // ---------------------------------------------------------------------------
  // Lines and winner (alphabeta.py:60-101)

  /** The eight lines: the rows, the columns, the main diagonal (k, k) and the
      anti-diagonal (2 - k, k). */
  datatype Line = Row(i: int) | Col(j: int) | Main | Anti

  predicate ValidLine(l: Line) {
    match l
    case Row(i) => 0 <= i < 3
    case Col(j) => 0 <= j < 3
    case _ => true
  }

  /** The k-th cell of line `l`. */
  function At(b: Board, l: Line, k: int): Cell
    requires Shaped(b) && ValidLine(l) && 0 <= k < 3
  {
    match l
    case Row(i) => b[i][k]
    case Col(j) => b[k][j]
    case Main => b[k][k]
    case Anti => b[2 - k][k]
  }

  /** Mark `m` fills line `l`. */
  predicate Owns(b: Board, m: Cell, l: Line)
    requires Shaped(b) && ValidLine(l)
  {
    At(b, l, 0) == m && At(b, l, 1) == m && At(b, l, 2) == m
  }

  /** Neither mark fills line `l`. */
  predicate Clear(b: Board, l: Line)
    requires Shaped(b) && ValidLine(l)
  {
    !Owns(b, X, l) && !Owns(b, O, l)
  }

  /** Mark `m` fills some row, column or diagonal. */
  predicate HasLine(b: Board, m: Cell)
    requires Shaped(b)
  {
    Owns(b, m, Row(0)) || Owns(b, m, Row(1)) || Owns(b, m, Row(2)) ||
    Owns(b, m, Col(0)) || Owns(b, m, Col(1)) || Owns(b, m, Col(2)) ||
    Owns(b, m, Main) || Owns(b, m, Anti)
  }

  /** What `winner` returns, in the order its scan meets the lines: after cell
      (0, 2) it has completed row 0 and column 0, after (1, 2) row 1 and column 1,
      from (2, 0) on the anti-diagonal, and at (2, 2) row 2, column 2 and the main
      diagonal; at every check a line of X is looked for before a line of O.
      Empty stands for None. */
  function WinnerOf(b: Board): (w: Cell)
    requires Shaped(b)
    ensures w == Empty <==> !HasLine(b, X) && !HasLine(b, O)
    ensures w != Empty ==> HasLine(b, w)
    ensures !(HasLine(b, X) && HasLine(b, O)) ==>
              (w == X <==> HasLine(b, X)) && (w == O <==> HasLine(b, O))
  {
    if Owns(b, X, Row(0)) || Owns(b, X, Col(0)) then X
    else if Owns(b, O, Row(0)) || Owns(b, O, Col(0)) then O
    else if Owns(b, X, Row(1)) || Owns(b, X, Col(1)) then X
    else if Owns(b, O, Row(1)) || Owns(b, O, Col(1)) then O
    else if Owns(b, X, Anti) then X
    else if Owns(b, O, Anti) then O
    else if Owns(b, X, Row(2)) || Owns(b, X, Col(2)) || Owns(b, X, Main) then X
    else if Owns(b, O, Row(2)) || Owns(b, O, Col(2)) || Owns(b, O, Main) then O
    else Empty
  }

  /** The source's tally of a line: +1 per X and -1 per O over its first n cells. */
  function Tally(b: Board, l: Line, n: int): (s: int)
    requires Shaped(b) && ValidLine(l) && 0 <= n <= 3
    ensures n < 3 ==> -3 < s < 3
    ensures n == 3 ==> (s == 3 <==> Owns(b, X, l)) && (s == -3 <==> Owns(b, O, l))
  {
    (if n > 0 then Score(At(b, l, 0)) else 0) +
    (if n > 1 then Score(At(b, l, 1)) else 0) +
    (if n > 2 then Score(At(b, l, 2)) else 0)
  }

  function Score(c: Cell): int {
    match c
    case X => 1
    case O => -1
    case Empty => 0
  }

  predicate AnyTally(h: int, v: int, d1: int, d2: int, t: int) {
    h == t || v == t || d1 == t || d2 == t
  }

  /** One check of the scan, after cell (i, j): every line completed earlier was
      found clear, so a completed line of X (else of O) decides `WinnerOf`. */
  lemma ScanCheck(b: Board, i: int, j: int, h: int, v: int, d1: int, d2: int)
    requires Shaped(b) && 0 <= i < 3 && 0 <= j < 3
    requires forall k :: 0 <= k < i ==> Clear(b, Row(k)) && Clear(b, Col(k))
    requires i == 2 && j > 0 ==> Clear(b, Anti)
    requires h == Tally(b, Row(i), j + 1) && v == Tally(b, Col(i), j + 1)
    requires d1 == Tally(b, Anti, i + 1) && d2 == Tally(b, Main, if j >= i then i + 1 else i)
    ensures AnyTally(h, v, d1, d2, 3) ==> WinnerOf(b) == X
    ensures !AnyTally(h, v, d1, d2, 3) && AnyTally(h, v, d1, d2, -3) ==> WinnerOf(b) == O
    ensures j == 2 && !(h == 3 || v == 3 || h == -3 || v == -3) ==> Clear(b, Row(i)) && Clear(b, Col(i))
    ensures i == 2 && !(d1 == 3 || d1 == -3) ==> Clear(b, Anti)
    ensures i == 2 && j == 2 && !(d2 == 3 || d2 == -3) ==> Clear(b, Main)
  {
  }

  /** The source's scan: tallies h and v for row i and column i, d1 for the
      anti-diagonal and d2 for the main diagonal, checked after every cell. Each
      `if cell == X: t += 1 elif cell == O: t -= 1` is written `t := t + Score(cell)`. */
  method Winner(b: Board) returns (w: Cell)
    requires Shaped(b)
    ensures w == WinnerOf(b)
  {
    var d1, d2 := 0, 0;
    for i := 0 to 3
      invariant d1 == Tally(b, Anti, i) && d2 == Tally(b, Main, i)
      invariant forall k :: 0 <= k < i ==> Clear(b, Row(k)) && Clear(b, Col(k))
      invariant i == 3 ==> Clear(b, Anti) && Clear(b, Main)
    {
      var h, v := 0, 0;
      d1 := d1 + Score(b[2 - i][i]);
      for j := 0 to 3
        invariant h == Tally(b, Row(i), j) && v == Tally(b, Col(i), j)
        invariant d1 == Tally(b, Anti, i + 1)
        invariant d2 == Tally(b, Main, if j > i then i + 1 else i)
        invariant i == 2 && j > 0 ==> Clear(b, Anti)
        invariant i == 2 && j == 3 ==> Clear(b, Main)
        invariant j == 3 ==> Clear(b, Row(i)) && Clear(b, Col(i))
      {
        h := h + Score(b[i][j]);
        v := v + Score(b[j][i]);
        if i == j {
          d2 := d2 + Score(b[i][j]);
        }
        ScanCheck(b, i, j, h, v, d1, d2);
        if h == 3 || v == 3 || d1 == 3 || d2 == 3 {
          return X;
        }
        if h == -3 || v == -3 || d1 == -3 || d2 == -3 {
          return O;
        }
      }
    }
    return Empty;
  }

  // ---------------------------------------------------------------------------
  // terminal and utility (alphabeta.py:104-121)

  /** Some row still holds an EMPTY cell. */
  predicate HasEmptyRow(b: Board) {
    exists i :: 0 <= i < |b| && Empty in b[i]
  }

  /** The game is over: a line is filled or no cell is empty. */
  function Terminal(b: Board): (t: bool)
    requires Shaped(b)
    ensures t <==> HasLine(b, X) || HasLine(b, O) || CountBoard(b, Empty) == 0
  {
    CountBoardPositive(b, Empty);
    !HasEmptyRow(b) || WinnerOf(b) != Empty
  }

  /** The score of a finished game from X's side. */
  function Utility(b: Board): (u: int)
    requires Shaped(b)
    ensures -1 <= u <= 1
    ensures u == 0 <==> !HasLine(b, X) && !HasLine(b, O)
    ensures !(HasLine(b, X) && HasLine(b, O)) ==>
              (u == 1 <==> HasLine(b, X)) && (u == -1 <==> HasLine(b, O))
  {
    if WinnerOf(b) == X then 1
    else if WinnerOf(b) == O then -1
    else 0
  }

  // ---------------------------------------------------------------------------
  // actions (alphabeta.py:26-41)

  /** What `actions` returns: on a finished game the tuple (0, 0), which is not a
      collection of moves at all, otherwise the empty cells. */
  datatype ActionList = Sentinel | Listed(moves: seq<Action>)

  /** Python's `action in actions(board)`. For the sentinel this compares the pair
      with each integer 0 of the tuple (0, 0), which never holds. */
  predicate Offers(acts: ActionList, a: Action) {
    match acts
    case Sentinel => false
    case Listed(moves) => a in moves
  }

  /** Cell (a.0, a.1) lies on the board and is empty. */
  predicate Open(b: Board, a: Action)
    requires Shaped(b)
  {
    0 <= a.0 < 3 && 0 <= a.1 < 3 && b[a.0][a.1] == Empty
  }

  /** Row-major position of a cell. */
  function Rank(a: Action): int {
    3 * a.0 + a.1
  }

  /** The empty cells among the first n cells in row-major order, in that order. */
  function EmptyCells(b: Board, n: nat): seq<Action>
    requires Shaped(b) && n <= 9
  {
    if n == 0 then []
    else
      var row, col := (n - 1) / 3, (n - 1) % 3;
      EmptyCells(b, n - 1) + (if b[row][col] == Empty then [(row, col)] else [])
  }

  lemma {:induction false} EmptyCellsAre(b: Board, n: nat)
    requires Shaped(b) && n <= 9
    ensures forall a :: a in EmptyCells(b, n) <==> Open(b, a) && Rank(a) < n
    ensures forall p, q :: 0 <= p < q < |EmptyCells(b, n)| ==>
              Rank(EmptyCells(b, n)[p]) < Rank(EmptyCells(b, n)[q])
    ensures forall p :: 0 <= p < |EmptyCells(b, n)| ==> Rank(EmptyCells(b, n)[p]) < n
  {
    if n > 0 {
      EmptyCellsAre(b, n - 1);
      var row, col := (n - 1) / 3, (n - 1) % 3;
      assert Rank((row, col)) == n - 1;
      forall a | Open(b, a) && Rank(a) == n - 1 ensures a == (row, col) {
      }
    }
  }

  /** Every move of the board, in row-major order. */
  function Moves(b: Board): seq<Action>
    requires Shaped(b)
  {
    EmptyCells(b, 9)
  }

  /** The moves are exactly the empty cells, each once, and there is one
      whenever the game is not over. */
  lemma MovesAreEmptyCells(b: Board)
    requires Shaped(b)
    ensures forall a :: a in Moves(b) <==> Open(b, a)
    ensures forall p, q :: 0 <= p < q < |Moves(b)| ==> Moves(b)[p] != Moves(b)[q]
    ensures !Terminal(b) ==> Moves(b) != []
  {
    EmptyCellsAre(b, 9);
    if !Terminal(b) {
      var i :| 0 <= i < 3 && Empty in b[i];
      var j :| 0 <= j < 3 && b[i][j] == Empty;
      assert (i, j) in Moves(b);
    }
  }

  function ActionsOf(b: Board): ActionList
    requires Shaped(b)
  {
    if Terminal(b) then Sentinel else Listed(Moves(b))
  }

  /** The source's scan of every coordinate, collecting the empty ones. */
  method Actions(b: Board) returns (r: ActionList)
    requires Shaped(b)
    ensures r == ActionsOf(b)
    ensures r.Sentinel? <==> Terminal(b)
    ensures r.Listed? ==> r.moves != [] && forall a :: a in r.moves <==> Open(b, a)
  {
    MovesAreEmptyCells(b);
    if Terminal(b) {
      return Sentinel;
    }
    var moves: seq<Action> := [];
    for row := 0 to 3
      invariant moves == EmptyCells(b, 3 * row)
    {
      for col := 0 to 3
        invariant moves == EmptyCells(b, 3 * row + col)
      {
        assert (3 * row + col) / 3 == row && (3 * row + col) % 3 == col;
        if b[row][col] == Empty {
          moves := moves + [(row, col)];
        }
      }
    }
    return Listed(moves);
  }

  // ---------------------------------------------------------------------------
  // result (alphabeta.py:44-57)

  /** What `result` returns, or the "Invalid action" exception. */
  datatype Outcome = Moved(board: Board) | InvalidAction

  /** The board after the player to move marks the open cell `a`. */
  function Play(b: Board, a: Action): (r: Board)
    requires Shaped(b) && Open(b, a)
    ensures Shaped(r)
  {
    b[a.0 := b[a.0][a.1 := PlayerOf(b)]]
  }

  /** A move fills exactly the chosen empty cell with the mover's mark and leaves
      every other cell alone, so the number of empty cells drops by one and X stays
      level with O or one ahead. */
  lemma PlayEffect(b: Board, a: Action)
    requires Shaped(b) && Open(b, a)
    ensures Play(b, a)[a.0][a.1] == PlayerOf(b)
    ensures forall i, j :: 0 <= i < 3 && 0 <= j < 3 && (i, j) != a ==> Play(b, a)[i][j] == b[i][j]
    ensures CountBoard(Play(b, a), Empty) == CountBoard(b, Empty) - 1
    ensures CountBoard(Play(b, a), PlayerOf(b)) == CountBoard(b, PlayerOf(b)) + 1
    ensures CountBoard(b, O) <= CountBoard(b, X) <= CountBoard(b, O) + 1 ==>
              CountBoard(Play(b, a), O) <= CountBoard(Play(b, a), X) <= CountBoard(Play(b, a), O) + 1
  {
    var p := PlayerOf(b);
    var r := b[a.0][a.1 := p];
    forall c ensures CountBoard(Play(b, a), c)
                  == CountBoard(b, c) - (if c == Empty then 1 else 0) + (if c == p then 1 else 0)
    {
      CountRowUpdate(b[a.0], a.1, p, c);
      CountBoardUpdate(b, a.0, r, c);
    }
  }

  /** The source's `result`: the move is refused unless `actions` offers it, which
      happens exactly for an empty cell on the board of an unfinished game;
      otherwise a copy of the board gets the mover's mark in that cell and in no
      other. */
  method Result(b: Board, a: Action) returns (r: Outcome)
    requires Shaped(b)
    ensures r == InvalidAction <==> Terminal(b) || !Open(b, a)
    ensures r.Moved? ==> r.board == Play(b, a) && Shaped(r.board)
    ensures r.Moved? ==> r.board[a.0][a.1] == PlayerOf(b)
    ensures r.Moved? ==> forall i, j :: 0 <= i < 3 && 0 <= j < 3 && (i, j) != a ==> r.board[i][j] == b[i][j]
  {
    MovesAreEmptyCells(b);
    var acts := Actions(b);
    if !Offers(acts, a) {
      return InvalidAction;
    }
    var copy := b;
    var p := Player(b);
    copy := copy[a.0 := copy[a.0][a.1 := p]];
    return Moved(copy);
  }
}
