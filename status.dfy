/** Status evaluation (getStatus in all.c): win, tie or play on. */
module GameStatus {
  import opened Board

  /** The four outcomes of a board (the source's enum Status). */
  datatype Status = Playing | OWins | XWins | Tie

  /** Cells p, q and r hold the same state, and that state is m. */
  predicate Line(g: Grid, p: int, q: int, r: int, m: Cell)
    requires 0 <= p < 9 && 0 <= q < 9 && 0 <= r < 9
  {
    g[p] == g[q] && g[q] == g[r] && g[p] == m
  }

  /** The eight-line test of getStatus for one mark, line by line in the
      source's order: three rows, three columns, two diagonals. */
  predicate HasLine(g: Grid, m: Cell)
  {
    // rows
    Line(g, 0, 1, 2, m) || Line(g, 3, 4, 5, m) || Line(g, 6, 7, 8, m) ||
    // columns
    Line(g, 0, 3, 6, m) || Line(g, 1, 4, 7, m) || Line(g, 2, 5, 8, m) ||
    // diagonals
    Line(g, 0, 4, 8, m) || Line(g, 2, 4, 6, m)
  }

  /** The status of a snapshot: X's lines are checked before O's, and
      only a board without a winning line can be a tie or still in play. */
  function Evaluate(g: Grid): Status
  {
    if HasLine(g, X) then XWins
    else if HasLine(g, O) then OWins
    else if Empty in g then Playing
    else Tie
  }

  // An independent statement of "three in a row", by row and column number.

  /** The cell at (row, col). */
  function At(g: Grid, row: int, col: int): Cell
    requires 0 <= row < 3 && 0 <= col < 3
  {
    g[Index(row, col)]
  }

  predicate RowOf(g: Grid, row: int, m: Cell)
    requires 0 <= row < 3
  {
    At(g, row, 0) == m && At(g, row, 1) == m && At(g, row, 2) == m
  }

  predicate ColumnOf(g: Grid, col: int, m: Cell)
    requires 0 <= col < 3
  {
    At(g, 0, col) == m && At(g, 1, col) == m && At(g, 2, col) == m
  }

  predicate DiagonalsOf(g: Grid, m: Cell)
  {
    (At(g, 0, 0) == m && At(g, 1, 1) == m && At(g, 2, 2) == m) ||
    (At(g, 0, 2) == m && At(g, 1, 1) == m && At(g, 2, 0) == m)
  }

  /** Some row, column or diagonal holds three m. */
  predicate ThreeInARow(g: Grid, m: Cell)
  {
    (exists row :: 0 <= row < 3 && RowOf(g, row, m)) ||
    (exists col :: 0 <= col < 3 && ColumnOf(g, col, m)) ||
    DiagonalsOf(g, m)
  }

  /** Some row holds three m exactly when one of the three row tests holds. */
  lemma SomeRowIff(g: Grid, m: Cell)
    ensures (exists row :: 0 <= row < 3 && RowOf(g, row, m)) <==>
      Line(g, 0, 1, 2, m) || Line(g, 3, 4, 5, m) || Line(g, 6, 7, 8, m)
  {
    if Line(g, 0, 1, 2, m) { assert RowOf(g, 0, m); }
    if Line(g, 3, 4, 5, m) { assert RowOf(g, 1, m); }
    if Line(g, 6, 7, 8, m) { assert RowOf(g, 2, m); }
    if row :| 0 <= row < 3 && RowOf(g, row, m) {
      assert row == 0 || row == 1 || row == 2;
    }
  }

  /** Some column holds three m exactly when one of the three column tests holds. */
  lemma SomeColumnIff(g: Grid, m: Cell)
    ensures (exists col :: 0 <= col < 3 && ColumnOf(g, col, m)) <==>
      Line(g, 0, 3, 6, m) || Line(g, 1, 4, 7, m) || Line(g, 2, 5, 8, m)
  {
    if Line(g, 0, 3, 6, m) { assert ColumnOf(g, 0, m); }
    if Line(g, 1, 4, 7, m) { assert ColumnOf(g, 1, m); }
    if Line(g, 2, 5, 8, m) { assert ColumnOf(g, 2, m); }
    if col :| 0 <= col < 3 && ColumnOf(g, col, m) {
      assert col == 0 || col == 1 || col == 2;
    }
  }

  /** The source's eight explicit tests are exactly "three in a row". */
  lemma HasLineIsThreeInARow(g: Grid, m: Cell)
    ensures HasLine(g, m) <==> ThreeInARow(g, m)
  {
    SomeRowIff(g, m);
    SomeColumnIff(g, m);
    assert DiagonalsOf(g, m) <==> Line(g, 0, 4, 8, m) || Line(g, 2, 4, 6, m);
  }

  /** X wins exactly when X holds a line, whatever O holds. */
  lemma XWinsIff(g: Grid)
    ensures Evaluate(g) == XWins <==> ThreeInARow(g, X)
  {
    HasLineIsThreeInARow(g, X);
  }

  /** O wins exactly when X holds no line and O holds one. */
  lemma OWinsIff(g: Grid)
    ensures Evaluate(g) == OWins <==> !ThreeInARow(g, X) && ThreeInARow(g, O)
  {
    HasLineIsThreeInARow(g, X);
    HasLineIsThreeInARow(g, O);
  }

  /** Without a winning line the game goes on while some cell is empty. */
  lemma PlayingIff(g: Grid)
    ensures Evaluate(g) == Playing <==>
      !ThreeInARow(g, X) && !ThreeInARow(g, O) && exists k :: 0 <= k < 9 && g[k] == Empty
  {
    HasLineIsThreeInARow(g, X);
    HasLineIsThreeInARow(g, O);
  }

  /** Without a winning line a full board is a tie. */
  lemma TieIff(g: Grid)
    ensures Evaluate(g) == Tie <==>
      !ThreeInARow(g, X) && !ThreeInARow(g, O) && forall k :: 0 <= k < 9 ==> g[k] != Empty
  {
    HasLineIsThreeInARow(g, X);
    HasLineIsThreeInARow(g, O);
  }

  /** A new board is in play. */
  lemma NewBoardIsPlaying()
    ensures Evaluate(EmptyGrid()) == Playing
  {
  }

  /** A board in play has an empty cell, so an opponent asked to move
      while the status is Playing always has a cell to choose. */
  lemma PlayingHasEmptyCell(g: Grid)
    requires Evaluate(g) == Playing
    ensures EmptyCount(g) > 0
  {
    var k :| 0 <= k < 9 && g[k] == Empty;
    EmptyCountPositive(g, k);
  }

  /** The eight-line test of getStatus on the board in memory, for mark m. */
  predicate BoardHasLine(board: array2<Cell>, m: Cell)
    reads board
    requires IsBoard(board)
  {
    // rows
    (board[0, 0] == board[0, 1] && board[0, 1] == board[0, 2] && board[0, 0] == m) ||
    (board[1, 0] == board[1, 1] && board[1, 1] == board[1, 2] && board[1, 0] == m) ||
    (board[2, 0] == board[2, 1] && board[2, 1] == board[2, 2] && board[2, 0] == m) ||
    // columns
    (board[0, 0] == board[1, 0] && board[1, 0] == board[2, 0] && board[0, 0] == m) ||
    (board[0, 1] == board[1, 1] && board[1, 1] == board[2, 1] && board[0, 1] == m) ||
    (board[0, 2] == board[1, 2] && board[1, 2] == board[2, 2] && board[0, 2] == m) ||
    // diagonals
    (board[0, 0] == board[1, 1] && board[1, 1] == board[2, 2] && board[0, 0] == m) ||
    (board[0, 2] == board[1, 1] && board[1, 1] == board[2, 0] && board[0, 2] == m)
  }

  /** The test on the board in memory is the test on its snapshot. */
  lemma BoardHasLineIsHasLine(board: array2<Cell>, m: Cell)
    requires IsBoard(board)
    ensures BoardHasLine(board, m) == HasLine(Cells(board), m)
  {
  }

  /** getStatus: X's lines, then O's lines, then a row-major scan that
      reports Playing at the first NONE cell and Tie if there is none. */
  method GetStatus(board: array2<Cell>) returns (s: Status)
    requires IsBoard(board)
    ensures s == Evaluate(Cells(board))
  {
    BoardHasLineIsHasLine(board, X);
    BoardHasLineIsHasLine(board, O);
    s := Tie;
    if BoardHasLine(board, X) {
      s := XWins;
    } else if BoardHasLine(board, O) {
      s := OWins;
    } else {
      // the game goes on while some cell is NONE
      for i := 0 to 3
        invariant forall r, c :: 0 <= r < i && 0 <= c < 3 ==> board[r, c] != Empty
      {
        for j := 0 to 3
          invariant forall r, c :: 0 <= r < i && 0 <= c < 3 ==> board[r, c] != Empty
          invariant forall c :: 0 <= c < j ==> board[i, c] != Empty
        {
          if board[i, j] == Empty {
            CellsAt(board, i, j);
            s := Playing;
            return;
          }
        }
      }
      ghost var g := Cells(board);
      assert forall k :: 0 <= k < 9 ==> g[k] != Empty;
    }
  }
}
