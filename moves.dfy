/** Move placement in all.c: one validation step of userMove on a number
    the player typed, and one draw of randomComputerMove. */
module Moves {
  import opened Board

  /** The outcome of checking one typed number. */
  datatype Verdict = Placed | OutOfRange | AlreadyChosen

  /** The cell a number 1..9 names: row (n-1)/3, column (n-1)%3.  The
      numbers 1..9 name the nine cells in row-major order, one each.
      (n - 1 is never negative here, so C's truncating / and % agree
      with Dafny's.) */
  function InputCell(n: int): (rc: (int, int))
    requires 1 <= n <= 9
    ensures 0 <= rc.0 < 3 && 0 <= rc.1 < 3
    ensures Index(rc.0, rc.1) == n - 1
  {
    ((n - 1) / 3, (n - 1) % 3)
  }

  /** One pass of userMove's loop on the number `input`: a number outside
      1..9 is rejected as out of range, a number naming a cell that is
      not NONE is rejected as already chosen, and otherwise that cell
      becomes `player`.  A rejected number leaves the board unchanged. */
  method UserMoveStep(board: array2<Cell>, player: Cell, input: int) returns (v: Verdict)
    requires IsBoard(board)
    modifies board
    ensures v == OutOfRange <==> input < 1 || input > 9
    ensures v == AlreadyChosen <==> 1 <= input <= 9 && old(Cells(board))[input - 1] != Empty
    ensures v == Placed ==> Cells(board) == old(Cells(board))[input - 1 := player]
    ensures v != Placed ==> Cells(board) == old(Cells(board))
  {
    if input < 1 || input > 9 {
      v := OutOfRange;
    } else {
      var cell := InputCell(input);
      CellsAt(board, cell.0, cell.1);
      if board[cell.0, cell.1] != Empty {
        v := AlreadyChosen;
      } else {
        // input n names the cell at row-major index n - 1
        SetCell(board, cell.0, cell.1, player);
        v := Placed;
      }
    }
  }

  /** One pass of randomComputerMove's loop on two draws of rand(): the
      cell (draw1 % 3, draw2 % 3) receives O if it is NONE, and the board
      is unchanged otherwise. */
  method RandomComputerMoveStep(board: array2<Cell>, draw1: nat, draw2: nat) returns (isValid: bool)
    requires IsBoard(board)
    modifies board
    ensures isValid <==> old(Cells(board))[Index(draw1 % 3, draw2 % 3)] == Empty
    ensures isValid ==> Cells(board) == old(Cells(board))[Index(draw1 % 3, draw2 % 3) := O]
    ensures !isValid ==> Cells(board) == old(Cells(board))
  {
    var moveRow := draw1 % 3;
    var moveCol := draw2 % 3;
    CellsAt(board, moveRow, moveCol);
    isValid := false;
    if board[moveRow, moveCol] == Empty {
      SetCell(board, moveRow, moveCol, O);
      isValid := true;
    }
  }

  /** On a board with a single NONE cell every accepted draw lands on
      that cell. */
  lemma OnlyEmptyCellIsAccepted(g: Grid, k: int, w: int)
    requires EmptyCount(g) == 1
    requires 0 <= k < 9 && g[k] == Empty
    requires 0 <= w < 9 && g[w] == Empty
    ensures k == w
  {
    if k != w {
      EmptyCountFill(g, k, O);
      EmptyCountPositive(g[k := O], w);
    }
  }
}
