/** Concrete positions on which the model's answers are pinned down. Each
    lemma takes the board as a parameter equal to the position it is about. */
module Scenarios {
  import opened TicTacToe
  import opened Search

  /** X to move (two marks each) with two X in the top row: the first empty
      cell in row-major order, (0, 2), completes the row. */
  predicate IsXCanWin(b: Board) {
    b == [[X, X, Empty], [O, O, Empty], [Empty, Empty, Empty]]
  }

  /** The mirror position: two O in the top row and two X in the middle row. */
  predicate IsMirrorPosition(b: Board) {
    b == [[O, O, Empty], [X, X, Empty], [Empty, Empty, Empty]]
  }

  /** A board with a full row of each symbol, which alternating play cannot
      reach: the row of O comes first in the scan, so O is reported although
      X is looked for first within each row. */
  predicate IsTwoFullRows(b: Board) {
    b == [[O, O, O], [X, X, X], [Empty, Empty, Empty]]
  }

  /** Two marks each: X is to move. */
  lemma XCanWinMover(b: Board)
    requires IsXCanWin(b)
    ensures Count(b, X) == 2 && Count(b, O) == 2
    ensures Mover(b) == X
  {
    assert Count(b, X) == 2 by { CountByRows(b, X); }
    assert Count(b, O) == 2 by { CountByRows(b, O); }
  }

  /** Nobody owns a line and the bottom row is empty: the game goes on. */
  lemma XCanWinNotOver(b: Board)
    requires IsXCanWin(b)
    ensures !Terminal(b)
  {
    forall r | 0 <= r < 3
      ensures b[r][2] == Empty && b[2][r] == Empty
    {
      assert At(b, (r, 2)) == Empty && At(b, (2, r)) == Empty;
    }
    assert !NoEmptyCell(b) by {
      assert At(b, (2, 2)) == Empty;
    }
    TerminalExact(b);
  }

  /** Completing the top row wins for X on the spot. */
  lemma XCanWinTopRow(b: Board)
    requires IsXCanWin(b)
    ensures Score(b, (0, 2)) == 1
  {
    assert Mover(b) == X by { XCanWinMover(b); }
    var after := Play(b, (0, 2));
    assert after[0][0] == X && after[0][1] == X && after[0][2] == X;
    RowScanStep(after, 0);
  }

  /** The two cells before (0, 2) in row-major order hold X. */
  lemma XCanWinFirstCells(b: Board)
    requires IsXCanWin(b)
    ensures forall a :: InRange(a) && Index(a) < 2 ==> At(b, a) == X
  {
    forall a | InRange(a) && Index(a) < 2
      ensures At(b, a) == X
    {
      if a.1 == 0 {
        assert a == (0, 0);
      } else {
        assert a == (0, 1);
      }
    }
  }

  /** (0, 2) meets the definition of the minimax choice: no action scores more
      than its 1, and it is the first empty cell. */
  lemma XCanWinChoice(b: Board)
    requires IsXCanWin(b)
    ensures IsMinimaxChoice(b, (0, 2))
  {
    assert Mover(b) == X by { XCanWinMover(b); }
    XCanWinTopRow(b);
    assert (0, 2) in EmptyCells(b) by {
      assert At(b, (0, 2)) == Empty;
    }
    XCanWinFirstCells(b);
    forall a' | a' in EmptyCells(b)
      ensures Score(b, a') <= 1
    {
    }
  }

  /** Minimax on this board picks (0, 2), the first cell that completes a line,
      and no other action. */
  lemma MinimaxTakesFirstWinningCell(b: Board, a: Action)
    requires IsXCanWin(b)
    ensures IsMinimaxChoice(b, a) <==> a == (0, 2)
  {
    XCanWinChoice(b);
    if IsMinimaxChoice(b, a) {
      MinimaxChoiceUnique(b, a, (0, 2));
    }
  }

  /** Equal counts make it X's turn in the mirror position too. */
  lemma MirrorPositionMover(b: Board)
    requires IsMirrorPosition(b)
    ensures Mover(b) == X
  {
    assert Count(b, X) == 2 by { CountByRows(b, X); }
    assert Count(b, O) == 2 by { CountByRows(b, O); }
  }

  /** In the mirror position X completes the middle row by marking (1, 2); the
      top row, scanned first, is not full. */
  lemma MirrorPositionMiddleRow(b: Board)
    requires IsMirrorPosition(b)
    ensures (1, 2) in EmptyCells(b)
    ensures WinnerOf(Play(b, (1, 2))) == Some(X)
  {
    assert Mover(b) == X by { MirrorPositionMover(b); }
    assert At(b, (1, 2)) == Empty;
    var after := Play(b, (1, 2));
    assert ScanFrom(after, 1) == Some(X) by {
      assert after[1][0] == X && after[1][1] == X && after[1][2] == X;
      RowScanStep(after, 1);
    }
    assert ScanFrom(after, 0) == ScanFrom(after, 1) by {
      assert after[0][2] == Empty;
      RowScanStep(after, 0);
    }
  }

  /** So the action minimax picks in the mirror position wins for X. */
  lemma MirrorPositionWinsForX(b: Board, a: Action)
    requires IsMirrorPosition(b) && IsMinimaxChoice(b, a)
    ensures Score(b, a) == 1
  {
    MirrorPositionMover(b);
    MirrorPositionMiddleRow(b);
    ImmediateWinIsKept(b, (1, 2), a);
  }

  /** The scan reports the first full line it meets, the row of O, although X
      also owns a line. */
  lemma TwoFullRowsReportsO(b: Board)
    requires IsTwoFullRows(b)
    ensures HasLine(b, X) && HasLine(b, O)
    ensures WinnerOf(b) == Some(O)
  {
    assert RowLine(0)[0] == (0, 0) && RowLine(0)[1] == (0, 1) && RowLine(0)[2] == (0, 2);
    assert Owns(b, RowLine(0), O) && !Owns(b, RowLine(0), X);
    ScanLineStep(b, 0, RowLine(0));
    assert b[0][0] == O && b[0][1] == O && b[0][2] == O;
    assert b[1][0] == X && b[1][1] == X && b[1][2] == X;
  }
}
