/** The "smart" O opponent of all.c: an exhaustive count of the game
    continuations that X does not win (numWinningCombos), the choice of
    a move from those counts (findBestMove) and the move itself
    (smartComputerMove). */
module Search {
  import opened Board
  import opened GameStatus

  /** The mark placed after `m` (nextMove == X ? O : X). */
  function Other(m: Cell): Cell
  {
    if m == X then O else X
  }

  /** Part of the termination measure: placing a NONE mark changes
      nothing, but the next ply places X. */
  function Rank(m: Cell): nat
  {
    if m == Empty then 1 else 0
  }

  /** Placing `next` on an empty cell either fills it, or (for a NONE
      mark) leaves the board as it is. */
  lemma PlaceDecreases(g: Grid, k: int, next: Cell)
    requires 0 <= k < 9 && g[k] == Empty
    ensures next != Empty ==> EmptyCount(g[k := next]) == EmptyCount(g) - 1
    ensures next == Empty ==> g[k := next] == g
  {
    if next != Empty {
      EmptyCountFill(g, k, next);
    }
  }

  /** The number of continuations of `g`, with `next` to move, that do
      not end in a win for X: a finished board counts 1 if O won or it
      is a tie and 0 if X won; a board in play counts the sum over its
      empty cells of the continuations after `next` is placed there. */
  function Count(g: Grid, next: Cell): nat
    decreases EmptyCount(g), Rank(next), 1, 0
  {
    match Evaluate(g)
    case Playing => SumTo(g, next, 9)
    case OWins => 1
    case Tie => 1
    case XWins => 0
  }

  /** The part of the sum of a board in play that comes from its first
      k cells in row-major order. */
  function SumTo(g: Grid, next: Cell, k: nat): nat
    requires k <= 9
    decreases EmptyCount(g), Rank(next), 0, k
  {
    if k == 0 then 0
    else
      SumTo(g, next, k - 1) +
      if g[k - 1] == Empty then
        PlaceDecreases(g, k - 1, next);
        Count(g[k - 1 := next], Other(next))
      else 0
  }

  /** The count of a finished board depends only on who won. */
  lemma CountOfFinishedBoard(g: Grid, next: Cell)
    ensures Evaluate(g) == XWins ==> Count(g, next) == 0
    ensures Evaluate(g) == OWins || Evaluate(g) == Tie ==> Count(g, next) == 1
  {
  }

  /** Factorial, used to bound the counts. */
  function Factorial(n: int): (f: nat)
    ensures f >= 1
  {
    if n <= 0 then 1 else n * Factorial(n - 1)
  }

  lemma {:induction false} FactorialMonotone(m: int, n: int)
    requires m <= n
    ensures Factorial(m) <= Factorial(n)
    decreases n - m
  {
    if m < n {
      FactorialMonotone(m, n - 1);
    }
  }

  /** With E empty cells and X and O alternating, at most E! games can
      be played out, so the count never exceeds E!. */
  lemma {:induction false} CountBound(g: Grid, next: Cell)
    requires next != Empty
    ensures Count(g, next) <= Factorial(EmptyCount(g))
    decreases EmptyCount(g), 1
  {
    if Evaluate(g) == Playing {
      SumToBound(g, next, 9);
      assert g[..9] == g;
    }
  }

  /** The first k cells contribute at most one (E-1)! per empty cell. */
  lemma {:induction false} SumToBound(g: Grid, next: Cell, k: nat)
    requires next != Empty && k <= 9
    ensures SumTo(g, next, k) <= EmptyCount(g[..k]) * Factorial(EmptyCount(g) - 1)
    decreases EmptyCount(g), 0, k
  {
    if k > 0 {
      var f := Factorial(EmptyCount(g) - 1);
      var before := EmptyCount(g[..k - 1]);
      var now := EmptyCount(g[..k]);
      SumToBound(g, next, k - 1);
      assert g[..k][..k - 1] == g[..k - 1];
      var sum := SumTo(g, next, k - 1);
      assert sum <= before * f;
      if g[k - 1] == Empty {
        var child := g[k - 1 := next];
        EmptyCountFill(g, k - 1, next);
        CountBound(child, Other(next));
        var c := Count(child, Other(next));
        assert c <= f;
        assert now == before + 1;
        assert SumTo(g, next, k) == sum + c;
        MultiplyStep(sum, before, c, f);
      } else {
        assert now == before;
        assert SumTo(g, next, k) == sum;
      }
    }
  }

  /** a <= b*f and c <= f give a + c <= (b + 1)*f. */
  lemma MultiplyStep(a: int, b: int, c: int, f: int)
    requires a <= b * f && c <= f
    ensures a + c <= (b + 1) * f
  {
  }

  /** Every count fits easily in the source's 32-bit int: 9! = 362880. */
  lemma CountFitsInInt(g: Grid, next: Cell)
    requires next == X || next == O
    ensures Count(g, next) <= 362880
  {
    CountBound(g, next);
    FactorialMonotone(EmptyCount(g), 9);
  }

  /** numWinningCombos: place, recurse with the other mark, undo, for
      every empty cell in row-major order.  The result is the count of
      the snapshot, and every cell is restored. */
  method NumWinningCombos(board: array2<Cell>, nextMove: Cell) returns (total: int)
    requires IsBoard(board)
    modifies board
    ensures total == Count(old(Cells(board)), nextMove)
    ensures Cells(board) == old(Cells(board))
    decreases EmptyCount(Cells(board)), Rank(nextMove)
  {
    ghost var g := Cells(board);
    total := 0;
    var s := GetStatus(board);
    if s == Playing {
      for i := 0 to 3
        invariant Cells(board) == g
        invariant total == SumTo(g, nextMove, Index(i, 0))
      {
        for j := 0 to 3
          invariant Cells(board) == g
          invariant total == SumTo(g, nextMove, Index(i, j))
        {
          CellsAt(board, i, j);
          if board[i, j] == Empty {
            SetCell(board, i, j, nextMove);
            PlaceDecreases(g, Index(i, j), nextMove);
            var n := NumWinningCombos(board, if nextMove == X then O else X);
            total := total + n;
            SetCell(board, i, j, Empty);
            assert g[Index(i, j) := nextMove][Index(i, j) := Empty] == g;
          }
        }
      }
      return total;
    } else if s == OWins || s == Tie {
      // a win for O or a tie counts as one continuation
      return 1;
    } else if s == XWins {
      return 0;
    } else {
      // "Illegal state": getStatus has no fifth value
      assert false;
    }
  }

  /** Placing O on the empty cell k wins the game for O at once. */
  predicate WinsAt(g: Grid, k: int)
  {
    0 <= k < 9 && g[k] == Empty && Evaluate(g[k := O]) == OWins
  }

  /** The count findBestMove gives the move k: O placed there, X next. */
  function Score(g: Grid, k: int): nat
    requires 0 <= k < 9
  {
    Count(g[k := O], X)
  }

  /** The move findBestMove picks: the first (row-major) empty cell where
      O wins at once if there is one, and otherwise the first empty cell
      of greatest score. */
  predicate IsBestMove(g: Grid, k: int)
  {
    0 <= k < 9 && g[k] == Empty &&
    if exists w :: 0 <= w < 9 && WinsAt(g, w) then
      WinsAt(g, k) && forall w :: 0 <= w < k ==> !WinsAt(g, w)
    else
      (forall w :: 0 <= w < 9 && g[w] == Empty ==> Score(g, w) <= Score(g, k)) &&
      (forall w :: 0 <= w < k && g[w] == Empty ==> Score(g, w) < Score(g, k))
  }

  /** The rule picks at most one cell of a board. */
  lemma BestMoveIsUnique(g: Grid, k1: int, k2: int)
    requires IsBestMove(g, k1) && IsBestMove(g, k2)
    ensures k1 == k2
  {
  }

  /** What findBestMove's scan knows after the first n cells in
      row-major order: none of them wins at once for O; if `best` is
      still -1 none of them was empty; otherwise k is an empty cell
      before n whose score `best` is the greatest so far and strictly
      greater than that of every empty cell before k. */
  predicate ScanState(g: Grid, n: int, best: int, k: int)
  {
    0 <= n <= 9 &&
    (forall w :: 0 <= w < n ==> !WinsAt(g, w)) &&
    (best == -1 ==> forall w :: 0 <= w < n ==> g[w] != Empty) &&
    (best != -1 ==>
      0 <= k < n && g[k] == Empty && best == Score(g, k) &&
      (forall w :: 0 <= w < n && g[w] == Empty ==> Score(g, w) <= best) &&
      (forall w :: 0 <= w < k && g[w] == Empty ==> Score(g, w) < best))
  }

  /** One step of the scan: an occupied cell changes nothing; an empty
      cell that does not win at once, with count x, becomes the leading
      candidate exactly when x is strictly greater than `best`. */
  lemma ScanStep(g: Grid, n: int, best: int, k: int, x: int)
    requires ScanState(g, n, best, k) && n < 9 && best >= -1
    requires g[n] == Empty ==> !WinsAt(g, n) && x == Score(g, n)
    ensures g[n] == Empty && x > best ==> ScanState(g, n + 1, x, n)
    ensures !(g[n] == Empty && x > best) ==> ScanState(g, n + 1, best, k)
  {
  }

  /** At the end of a scan that found no immediate win, the leading
      candidate of a board with an empty cell is the rule's choice. */
  lemma ScanDone(g: Grid, best: int, k: int)
    requires ScanState(g, 9, best, k) && Empty in g
    ensures IsBestMove(g, k) && !WinsAt(g, k)
  {
  }

  /** findBestMove: try O on every empty cell in row-major order; stop at
      the first one that wins; otherwise count the continuations with X
      to move, undo, and keep the cell if its count is strictly greater
      than the best so far.  A winning cell is left holding O; otherwise
      the board is left as it was. */
  method FindBestMove(board: array2<Cell>) returns (row: int, col: int)
    requires IsBoard(board)
    requires Empty in Cells(board)
    modifies board
    ensures 0 <= row < 3 && 0 <= col < 3
    ensures IsBestMove(old(Cells(board)), Index(row, col))
    ensures Cells(board) ==
      if WinsAt(old(Cells(board)), Index(row, col))
      then old(Cells(board))[Index(row, col) := O]
      else old(Cells(board))
  {
    ghost var g := Cells(board);
    // the computer is always O; row and col are set before any return
    row, col := 0, 0;
    var best := -1;
    for i := 0 to 3
      invariant Cells(board) == g
      invariant 0 <= row < 3 && 0 <= col < 3 && best >= -1
      invariant ScanState(g, Index(i, 0), best, Index(row, col))
    {
      for j := 0 to 3
        invariant Cells(board) == g
        invariant 0 <= row < 3 && 0 <= col < 3 && best >= -1
        invariant ScanState(g, Index(i, j), best, Index(row, col))
      {
        CellsAt(board, i, j);
        if board[i, j] == Empty {
          SetCell(board, i, j, O);
          // a cell where O wins at once is taken without counting
          var s := GetStatus(board);
          if s == OWins {
            assert WinsAt(g, Index(i, j));
            row, col := i, j;
            return;
          }
          var x := NumWinningCombos(board, X);
          SetCell(board, i, j, Empty);  // take the trial move back
          assert g[Index(i, j) := O][Index(i, j) := Empty] == g;
          CellsAt(board, i, j);
          ScanStep(g, Index(i, j), best, Index(row, col), x);
          if x > best && board[i, j] != X {
            row, col := i, j;
            best := x;
          }
        } else {
          ScanStep(g, Index(i, j), best, Index(row, col), 0);
        }
      }
    }
    ScanDone(g, best, Index(row, col));
  }

  /** smartComputerMove as written: copyBoard hands back the live board,
      so findBestMove searches (and, on a winning cell, already writes)
      the board itself; the following write of O then gives the same
      board.  Net effect: exactly the chosen cell becomes O. */
  method SmartComputerMove(board: array2<Cell>)
    requires IsBoard(board)
    requires Empty in Cells(board)
    modifies board
    ensures exists k :: IsBestMove(old(Cells(board)), k) && Cells(board) == old(Cells(board))[k := O]
  {
    ghost var g := Cells(board);
    var copy := CopyBoard(board);
    var row, col := FindBestMove(copy);
    SetCell(board, row, col, O);
    assert g[Index(row, col) := O][Index(row, col) := O] == g[Index(row, col) := O];
  }

  /** smartComputerMove with the deep copy copyBoard was meant to make:
      the search runs on a private board, and the live board changes
      only at the chosen cell. */
  method SmartComputerMoveDeepCopy(board: array2<Cell>)
    requires IsBoard(board)
    requires Empty in Cells(board)
    modifies board
    ensures exists k :: IsBestMove(old(Cells(board)), k) && Cells(board) == old(Cells(board))[k := O]
  {
    var copy := CopyBoardDeep(board);
    var row, col := FindBestMove(copy);
    SetCell(board, row, col, O);
  }

  /** When the first cell in row-major order on which O wins at once
      is w, the rule picks w and nothing else. */
  lemma FirstWinIsTaken(g: Grid, w: int, k: int)
    requires WinsAt(g, w) && forall v :: 0 <= v < w ==> !WinsAt(g, v)
    ensures IsBestMove(g, k) <==> k == w
  {
  }

  /** O on (0,0) and (0,1), every other cell empty. */
  const TwoInTopRow: Grid := [O, O, Empty, Empty, Empty, Empty, Empty, Empty, Empty]

  /** On TwoInTopRow the only move the rule allows is (0,2), the cell
      that completes O's row. */
  lemma ImmediateWinIsTaken(k: int)
    ensures IsBestMove(TwoInTopRow, k) <==> k == Index(0, 2)
  {
    var g := TwoInTopRow;
    assert WinsAt(g, 2) by {
      var won := g[2 := O];
      assert won[0] == O && won[1] == O && won[2] == O;
      assert forall v :: 3 <= v < 9 ==> won[v] == Empty;
      assert !HasLine(won, X) && Line(won, 0, 1, 2, O);
    }
    FirstWinIsTaken(g, 2, k);
  }
}
