/** The tic-tac-toe board of all.c: a 3x3 grid of cells, stored as a
    two-dimensional array that the game mutates in place.  Every
    property of a board is stated over its row-major snapshot, a
    sequence of nine cells in which cell (i, j) sits at index 3*i + j. */
module Board {

  /** The state of one cell (the source's enum Move: NONE, O, X). */
  datatype Cell = Empty | O | X

  /** A board snapshot: nine cells in row-major order. */
  type Grid = s: seq<Cell> | |s| == 9
    witness [Empty, Empty, Empty, Empty, Empty, Empty, Empty, Empty, Empty]

  /** The board every game starts from. */
  function EmptyGrid(): (g: Grid)
    ensures forall k :: 0 <= k < 9 ==> g[k] == Empty
  {
    [Empty, Empty, Empty, Empty, Empty, Empty, Empty, Empty, Empty]
  }

  /** The position of cell (row, col) in a snapshot. */
  function Index(row: int, col: int): int
  {
    3 * row + col
  }

  /** A board in memory has three rows of three cells. */
  predicate IsBoard(board: array2<Cell>)
  {
    board.Length0 == 3 && board.Length1 == 3
  }

  /** The row-major snapshot of a board in memory. */
  ghost function Cells(board: array2<Cell>): (g: Grid)
    reads board
    requires IsBoard(board)
  {
    [board[0, 0], board[0, 1], board[0, 2],
     board[1, 0], board[1, 1], board[1, 2],
     board[2, 0], board[2, 1], board[2, 2]]
  }

  /** Reading one cell of a board is reading its snapshot at Index. */
  lemma CellsAt(board: array2<Cell>, row: int, col: int)
    requires IsBoard(board) && 0 <= row < 3 && 0 <= col < 3
    ensures Cells(board)[Index(row, col)] == board[row, col]
  {
  }

  /** Writing one cell of a board (board[row][col] = m in the source)
      updates its snapshot at Index(row, col) and nowhere else. */
  method SetCell(board: array2<Cell>, row: int, col: int, m: Cell)
    requires IsBoard(board) && 0 <= row < 3 && 0 <= col < 3
    modifies board
    ensures Cells(board) == old(Cells(board))[Index(row, col) := m]
  {
    board[row, col] := m;
  }

  /** The number of empty cells in a sequence of cells. */
  function EmptyCount(s: seq<Cell>): (n: nat)
    ensures n <= |s|
  {
    if |s| == 0 then 0
    else EmptyCount(s[..|s| - 1]) + (if s[|s| - 1] == Empty then 1 else 0)
  }

  /** Filling an empty cell with a mark leaves one empty cell fewer. */
  lemma {:induction false} EmptyCountFill(s: seq<Cell>, k: int, m: Cell)
    requires 0 <= k < |s| && s[k] == Empty && m != Empty
    ensures EmptyCount(s[k := m]) == EmptyCount(s) - 1
  {
    var n := |s| - 1;
    if k == n {
      assert s[k := m][..n] == s[..n];
    } else {
      assert s[k := m][..n] == s[..n][k := m];
      EmptyCountFill(s[..n], k, m);
    }
  }

  /** A sequence with an empty cell has a positive empty count. */
  lemma {:induction false} EmptyCountPositive(s: seq<Cell>, k: int)
    requires 0 <= k < |s| && s[k] == Empty
    ensures EmptyCount(s) > 0
  {
    var n := |s| - 1;
    if k < n {
      EmptyCountPositive(s[..n], k);
    }
  }

  /** newBoard: a fresh board whose nine cells are all NONE. */
  method NewBoard() returns (board: array2<Cell>)
    ensures fresh(board) && IsBoard(board)
    ensures Cells(board) == EmptyGrid()
  {
    board := new Cell[3, 3];
    for i := 0 to 3
      invariant forall r, c :: 0 <= r < i && 0 <= c < 3 ==> board[r, c] == Empty
    {
      for j := 0 to 3
        invariant forall r, c :: 0 <= r < i && 0 <= c < 3 ==> board[r, c] == Empty
        invariant forall c :: 0 <= c < j ==> board[i, c] == Empty
      {
        board[i, j] := Empty;
      }
    }
  }

  /** copyBoard as written: it fills a fresh board with the cells of
      `board` and then returns `board` itself, so the caller's "copy"
      is the very board it passed in. */
  method CopyBoard(board: array2<Cell>) returns (result: array2<Cell>)
    requires IsBoard(board)
    ensures result == board
  {
    var copy := NewBoard();
    CopyCells(board, copy);
    result := board;
  }

  /** copyBoard as its header comment describes it: a deep copy, with
      storage of its own and the same cells. */
  method CopyBoardDeep(board: array2<Cell>) returns (result: array2<Cell>)
    requires IsBoard(board)
    ensures fresh(result) && IsBoard(result)
    ensures Cells(result) == Cells(board)
  {
    var copy := NewBoard();
    CopyCells(board, copy);
    result := copy;
  }

  /** The copying loop of copyBoard: every cell of `source` is written
      into `target`. */
  method CopyCells(source: array2<Cell>, target: array2<Cell>)
    requires IsBoard(source) && IsBoard(target) && source != target
    modifies target
    ensures Cells(target) == Cells(source)
  {
    for i := 0 to 3
      invariant forall r, c :: 0 <= r < i && 0 <= c < 3 ==> target[r, c] == source[r, c]
    {
      for j := 0 to 3
        invariant forall r, c :: 0 <= r < i && 0 <= c < 3 ==> target[r, c] == source[r, c]
        invariant forall c :: 0 <= c < j ==> target[i, c] == source[i, c]
      {
        target[i, j] := source[i, j];
      }
    }
  }

  /** What the aliasing of CopyBoard means to a caller: a write to the
      "copy" is a write to the original board. */
  method WriteThroughCopy(board: array2<Cell>)
    requires IsBoard(board)
    modifies board
    ensures board[0, 0] == X
  {
    var copy := CopyBoard(board);
    copy[0, 0] := X;
  }

  /** With the deep copy of CopyBoardDeep, writing to the copy leaves
      the original untouched. */
  method WriteThroughDeepCopy(board: array2<Cell>)
    requires IsBoard(board)
    ensures Cells(board) == old(Cells(board))
  {
    var copy := CopyBoardDeep(board);
    copy[0, 0] := X;
  }
}
