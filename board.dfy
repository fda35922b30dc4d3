/** The 3x3 board shared by both searches: the cell alphabet, the row-major
    move generator and the win and draw tests.

    The board is a 3x3 grid of rows; here it is flattened row-major into
    nine cells, so that the cell at (row, col) is cell `3 * row + col`. */
module Board {

  /** A cell holds "", "X" or "O". */
  datatype Cell = Empty | X | O

  datatype Option<T> = None | Some(value: T)

  /** A board: nine cells in row-major order. */
  type Grid = b: seq<Cell> | |b| == 9
    witness [Empty, Empty, Empty, Empty, Empty, Empty, Empty, Empty, Empty]

  /** A move (row, col) is identified by the row-major position
      `3 * row + col` of the cell it marks. */
  type Move = k: nat | k < 9

  /** The move for the cell at (row, col). */
  function MoveAt(row: int, col: int): (m: Move)
    requires 0 <= row < 3 && 0 <= col < 3
    ensures Row(m) == row && Col(m) == col
  {
    3 * row + col
  }

  function Row(m: Move): (row: int)
    ensures 0 <= row < 3
  {
    m / 3
  }

  function Col(m: Move): (col: int)
    ensures 0 <= col < 3
  {
    m % 3
  }

  /** A move is determined by its row and column, and the order of
      positions is row-major order on (row, col). */
  lemma RowMajorOrder(m: Move, m': Move)
    ensures m == MoveAt(Row(m), Col(m))
    ensures m < m' <==> Row(m) < Row(m') || (Row(m) == Row(m') && Col(m) < Col(m'))
  {
  }

  /** `board[row][col]`. */
  function At(b: Grid, row: int, col: int): Cell
    requires 0 <= row < 3 && 0 <= col < 3
  {
    b[3 * row + col]
  }

  /** Every cell is marked. */
  predicate IsFull(b: Grid) {
    forall k :: 0 <= k < 9 ==> b[k] != Empty
  }

  /** The empty cells before row-major position `k`, in row-major order. */
  function MovesBefore(b: Grid, k: nat): (ms: seq<Move>)
    requires k <= 9
    ensures |ms| <= k
    ensures forall j :: 0 <= j < |ms| ==> ms[j] < k && b[ms[j]] == Empty
  {
    if k == 0 then []
    else MovesBefore(b, k - 1) + if b[k - 1] == Empty then [k - 1] else []
  }

  lemma {:induction false} MovesBeforeAreEmptyCells(b: Grid, k: nat)
    requires k <= 9
    ensures forall m: Move :: m in MovesBefore(b, k) <==> m < k && b[m] == Empty
    ensures forall j, l :: 0 <= j < l < |MovesBefore(b, k)| ==> MovesBefore(b, k)[j] < MovesBefore(b, k)[l]
  {
    if k > 0 {
      MovesBeforeAreEmptyCells(b, k - 1);
    }
  }

  /** Marking an empty cell before position `k` removes exactly that cell
      from the moves before `k`. */
  lemma {:induction false} MovesBeforePlace(b: Grid, m: Move, mark: Cell, k: nat)
    requires k <= 9 && b[m] == Empty && mark != Empty
    ensures forall m': Move :: m' in MovesBefore(b[m := mark], k) <==> m' in MovesBefore(b, k) && m' != m
    ensures |MovesBefore(b[m := mark], k)| + (if m < k then 1 else 0) == |MovesBefore(b, k)|
  {
    MovesBeforeAreEmptyCells(b, k);
    MovesBeforeAreEmptyCells(b[m := mark], k);
    if k > 0 {
      MovesBeforePlace(b, m, mark, k - 1);
    }
  }

  /** get_valid_moves: the empty cells in row-major order. */
  function ValidMoves(b: Grid): (ms: seq<Move>)
    ensures forall j :: 0 <= j < |ms| ==> b[ms[j]] == Empty
  {
    MovesBefore(b, 9)
  }

  /** The valid moves are exactly the empty cells, each once, in row-major
      order; there are none exactly when the board is full. */
  lemma ValidMovesAreEmptyCells(b: Grid)
    ensures forall m: Move :: m in ValidMoves(b) <==> b[m] == Empty
    ensures forall j, l :: 0 <= j < l < |ValidMoves(b)| ==> ValidMoves(b)[j] < ValidMoves(b)[l]
    ensures |ValidMoves(b)| == 0 <==> IsFull(b)
  {
    MovesBeforeAreEmptyCells(b, 9);
    if |ValidMoves(b)| > 0 {
      assert b[ValidMoves(b)[0]] == Empty;
    }
    if !IsFull(b) {
      var k :| 0 <= k < 9 && b[k] == Empty;
      assert k in ValidMoves(b);
    }
  }

  /** `board[row][col] = mark`, on a value. Marking an empty cell leaves
      one valid move fewer. */
  function Place(b: Grid, m: Move, mark: Cell): (r: Grid)
    ensures b[m] == Empty && mark != Empty ==> |ValidMoves(r)| + 1 == |ValidMoves(b)|
  {
    if b[m] == Empty && mark != Empty then
      MovesBeforePlace(b, m, mark, 9);
      b[m := mark]
    else
      b[m := mark]
  }

  /** `all(cell == player for cell in row)` for the row `row`. */
  predicate RowFull(b: Grid, p: Cell, row: int)
    requires 0 <= row < 3
  {
    At(b, row, 0) == p && At(b, row, 1) == p && At(b, row, 2) == p
  }

  /** `all(board[row][col] == player for row in range(3))`. */
  predicate ColumnFull(b: Grid, p: Cell, col: int)
    requires 0 <= col < 3
  {
    At(b, 0, col) == p && At(b, 1, col) == p && At(b, 2, col) == p
  }

  /** `all(board[i][i] == player for i in range(3))`. */
  predicate DiagonalFull(b: Grid, p: Cell) {
    At(b, 0, 0) == p && At(b, 1, 1) == p && At(b, 2, 2) == p
  }

  /** `all(board[i][2 - i] == player for i in range(3))`. */
  predicate AntiDiagonalFull(b: Grid, p: Cell) {
    At(b, 0, 2) == p && At(b, 1, 1) == p && At(b, 2, 0) == p
  }

  /** is_winner: the rows are tried first, then the columns, then the two
      diagonals. */
  predicate IsWinner(b: Grid, p: Cell) {
    || RowFull(b, p, 0) || RowFull(b, p, 1) || RowFull(b, p, 2)
    || ColumnFull(b, p, 0) || ColumnFull(b, p, 1) || ColumnFull(b, p, 2)
    || DiagonalFull(b, p) || AntiDiagonalFull(b, p)
  }

  /** is_draw: no empty cell and no winner. Equivalently, no valid move is
      left and neither side has won. */
  predicate IsDraw(b: Grid)
    ensures IsDraw(b) <==> |ValidMoves(b)| == 0 && !IsWinner(b, X) && !IsWinner(b, O)
  {
    ValidMovesAreEmptyCells(b);
    IsFull(b) && !IsWinner(b, X) && !IsWinner(b, O)
  }

  /** The eight lines of three, as row-major positions: the rows, the
      columns, then the two diagonals. */
  const WinningLines: seq<(nat, nat, nat)> :=
    [(0, 1, 2), (3, 4, 5), (6, 7, 8),
     (0, 3, 6), (1, 4, 7), (2, 5, 8),
     (0, 4, 8), (2, 4, 6)]

  predicate OwnsLine(b: Grid, p: Cell, line: (nat, nat, nat)) {
    line.0 < 9 && line.1 < 9 && line.2 < 9 &&
    b[line.0] == p && b[line.1] == p && b[line.2] == p
  }

  /** A player wins exactly when it owns one of the eight lines. */
  lemma WinnerIffOwnsLine(b: Grid, p: Cell)
    ensures IsWinner(b, p) <==> exists i :: 0 <= i < |WinningLines| && OwnsLine(b, p, WinningLines[i])
  {
    if RowFull(b, p, 0) {
      assert OwnsLine(b, p, WinningLines[0]);
    } else if RowFull(b, p, 1) {
      assert OwnsLine(b, p, WinningLines[1]);
    } else if RowFull(b, p, 2) {
      assert OwnsLine(b, p, WinningLines[2]);
    } else if ColumnFull(b, p, 0) {
      assert OwnsLine(b, p, WinningLines[3]);
    } else if ColumnFull(b, p, 1) {
      assert OwnsLine(b, p, WinningLines[4]);
    } else if ColumnFull(b, p, 2) {
      assert OwnsLine(b, p, WinningLines[5]);
    } else if DiagonalFull(b, p) {
      assert OwnsLine(b, p, WinningLines[6]);
    } else if AntiDiagonalFull(b, p) {
      assert OwnsLine(b, p, WinningLines[7]);
    }
    if i :| 0 <= i < |WinningLines| && OwnsLine(b, p, WinningLines[i]) {
      assert i == 0 || i == 1 || i == 2 || i == 3 || i == 4 || i == 5 || i == 6 || i == 7;
    }
  }

  /** initialize_board: a new board of nine empty cells. */
  method InitializeBoard() returns (board: array<Cell>)
    ensures fresh(board) && board.Length == 9
    ensures forall k :: 0 <= k < 9 ==> board[k] == Empty
  {
    board := new Cell[9](_ => Empty);
  }
}
