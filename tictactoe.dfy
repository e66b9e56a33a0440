/** The game-state model of 3x3 tic-tac-toe: the board, whose turn it is,
    the legal actions, applying an action, and detecting a winner.

    A board is a value: applying an action builds a new board and never
    alters the one passed in. The turn is never stored; it is derived by
    counting the marks on the board. */
module TicTacToe {

  /** A cell holds a mark of one of the players, or nothing yet. */
  datatype Cell = X | O | Empty

  datatype Option<T> = None | Some(value: T)

  /** Applying an action yields the new board or fails as an invalid move. */
  datatype MoveOutcome = Moved(board: Board) | InvalidMove

  /** A (row, column) pair. */
  type Action = (int, int)

  predicate IsBoard(b: seq<seq<Cell>>) {
    |b| == 3 && forall r :: 0 <= r < 3 ==> |b[r]| == 3
  }

  /** Three rows of three cells. */
  type Board = b: seq<seq<Cell>> | IsBoard(b)
    witness [[Empty, Empty, Empty], [Empty, Empty, Empty], [Empty, Empty, Empty]]

  predicate InRange(a: Action) {
    0 <= a.0 < 3 && 0 <= a.1 < 3
  }

  function At(b: Board, a: Action): Cell
    requires InRange(a)
  {
    b[a.0][a.1]
  }

  /** Position of a cell in row-major order (row 0 left to right, then row 1, then row 2). */
  function Index(a: Action): int {
    3 * a.0 + a.1
  }

  /** Distinct cells have distinct row-major positions. */
  lemma IndexInjective(a: Action, a': Action)
    requires InRange(a) && InRange(a') && Index(a) == Index(a')
    ensures a == a'
  {
    assert 3 * (a.0 - a'.0) == a'.1 - a.1;
  }

  /** No cell of the board is empty. */
  ghost predicate NoEmptyCell(b: Board) {
    forall a :: InRange(a) ==> At(b, a) != Empty
  }

  // ---------------------------------------------------------------------
  // initial_state

  function InitialState(): (b: Board)
    ensures forall a :: InRange(a) ==> At(b, a) == Empty
  {
    [[Empty, Empty, Empty], [Empty, Empty, Empty], [Empty, Empty, Empty]]
  }

  // ---------------------------------------------------------------------
  // Counting marks, and player

  /** The number of cells that hold c, from cell (r, col) on in row-major
      order: the rest of row r, then the rows below it. */
  function CountFrom(b: Board, c: Cell, r: int, col: int): nat
    requires 0 <= r <= 3 && 0 <= col <= 3
    decreases 3 - r, 3 - col
  {
    if r == 3 then 0
    else if col == 3 then CountFrom(b, c, r + 1, 0)
    else (if b[r][col] == c then 1 else 0) + CountFrom(b, c, r, col + 1)
  }

  /** The number of cells of the board that hold c. */
  function Count(b: Board, c: Cell): nat {
    CountFrom(b, c, 0, 0)
  }

  /** Whose turn it is: O once X has placed more marks than O, X otherwise. */
  function Mover(b: Board): Cell {
    if Count(b, X) > Count(b, O) then O else X
  }

  /** The position is one that alternating play from the empty board can reach,
      as far as the counts go: X has as many marks as O, or one more. */
  ghost predicate Balanced(b: Board) {
    Count(b, O) <= Count(b, X) <= Count(b, O) + 1
  }

  /** The player to move, counted cell by cell. */
  method Player(b: Board) returns (p: Cell)
    ensures p == Mover(b)
    ensures p != Empty
    ensures p == O <==> Count(b, X) > Count(b, O)
  {
    var countX, countO := 0, 0;
    for r := 0 to 3
      invariant countX + CountFrom(b, X, r, 0) == Count(b, X)
      invariant countO + CountFrom(b, O, r, 0) == Count(b, O)
    {
      for c := 0 to 3
        invariant countX + CountFrom(b, X, r, c) == Count(b, X)
        invariant countO + CountFrom(b, O, r, c) == Count(b, O)
      {
        if b[r][c] == X {
          countX := countX + 1;
        } else if b[r][c] == O {
          countO := countO + 1;
        }
      }
    }
    if countX > countO {
      p := O;
    } else {
      p := X;
    }
  }

  // ---------------------------------------------------------------------
  // actions

  /** The empty cells from cell (r, col) on, in row-major order. */
  function EmptyFrom(b: Board, r: int, col: int): seq<Action>
    requires 0 <= r <= 3 && 0 <= col <= 3
    decreases 3 - r, 3 - col
  {
    if r == 3 then []
    else if col == 3 then EmptyFrom(b, r + 1, 0)
    else if b[r][col] == Empty then [(r, col)] + EmptyFrom(b, r, col + 1)
    else EmptyFrom(b, r, col + 1)
  }

  /** EmptyFrom lists exactly the empty cells from cell (r, col) on. */
  lemma {:induction false} EmptyFromMembers(b: Board, r: int, col: int)
    requires 0 <= r <= 3 && 0 <= col <= 3
    decreases 3 - r, 3 - col
    ensures forall a :: a in EmptyFrom(b, r, col) <==>
              InRange(a) && 3 * r + col <= Index(a) && At(b, a) == Empty
  {
    if r < 3 {
      if col == 3 {
        EmptyFromMembers(b, r + 1, 0);
      } else {
        EmptyFromMembers(b, r, col + 1);
        forall a | InRange(a) && Index(a) == 3 * r + col
          ensures a == (r, col)
        {
          IndexInjective(a, (r, col));
        }
      }
    }
  }

  /** EmptyFrom lists the cells in strictly increasing row-major order. */
  lemma {:induction false} EmptyFromSorted(b: Board, r: int, col: int)
    requires 0 <= r <= 3 && 0 <= col <= 3
    decreases 3 - r, 3 - col
    ensures forall i, j :: 0 <= i < j < |EmptyFrom(b, r, col)| ==>
              Index(EmptyFrom(b, r, col)[i]) < Index(EmptyFrom(b, r, col)[j])
  {
    if r < 3 {
      if col == 3 {
        EmptyFromSorted(b, r + 1, 0);
      } else {
        EmptyFromSorted(b, r, col + 1);
        EmptyFromMembers(b, r, col + 1);
        var rest := EmptyFrom(b, r, col + 1);
        forall j | 0 <= j < |rest|
          ensures 3 * r + col < Index(rest[j])
        {
          assert rest[j] in rest;
        }
      }
    }
  }

  /** EmptyFrom has one entry per empty cell from cell (r, col) on. */
  lemma {:induction false} EmptyFromLength(b: Board, r: int, col: int)
    requires 0 <= r <= 3 && 0 <= col <= 3
    decreases 3 - r, 3 - col
    ensures |EmptyFrom(b, r, col)| == CountFrom(b, Empty, r, col)
  {
    if r < 3 {
      if col == 3 {
        EmptyFromLength(b, r + 1, 0);
      } else {
        EmptyFromLength(b, r, col + 1);
      }
    }
  }

  /** The legal actions of a board: its empty cells, each once, in row-major order. */
  function EmptyCells(b: Board): (acts: seq<Action>)
    ensures forall a :: a in acts <==> InRange(a) && At(b, a) == Empty
    ensures forall i, j :: 0 <= i < j < |acts| ==> Index(acts[i]) < Index(acts[j])
    ensures |acts| == Count(b, Empty)
    ensures acts == [] <==> NoEmptyCell(b)
  {
    EmptyFromMembers(b, 0, 0);
    EmptyFromSorted(b, 0, 0);
    EmptyFromLength(b, 0, 0);
    var acts := EmptyFrom(b, 0, 0);
    assert acts != [] ==> acts[0] in acts;
    acts
  }

  /** Moving one element from the front of the rest to the end of the prefix. */
  lemma AppendOne(s: seq<Action>, x: Action, t: seq<Action>)
    ensures (s + [x]) + t == s + ([x] + t)
  {
  }

  /** The empty cells, collected cell by cell. */
  method Actions(b: Board) returns (acts: seq<Action>)
    ensures acts == EmptyCells(b)
  {
    acts := [];
    var rowNum := 0;
    while rowNum < 3
      invariant 0 <= rowNum <= 3
      invariant acts + EmptyFrom(b, rowNum, 0) == EmptyFrom(b, 0, 0)
    {
      var colNum := 0;
      while colNum < 3
        invariant 0 <= colNum <= 3
        invariant acts + EmptyFrom(b, rowNum, colNum) == EmptyFrom(b, 0, 0)
      {
        if b[rowNum][colNum] == Empty {
          AppendOne(acts, (rowNum, colNum), EmptyFrom(b, rowNum, colNum + 1));
          acts := acts + [(rowNum, colNum)];
        }
        colNum := colNum + 1;
      }
      rowNum := rowNum + 1;
    }
  }

  // ---------------------------------------------------------------------
  // result

  /** The board with mark m written into cell a. */
  function Mark(b: Board, a: Action, m: Cell): Board
    requires InRange(a)
  {
    b[a.0 := b[a.0][a.1 := m]]
  }

  /** Writing m into cell a puts m there and leaves every other cell as it was. */
  lemma MarkAt(b: Board, a: Action, m: Cell, a': Action)
    requires InRange(a) && InRange(a')
    ensures At(Mark(b, a, m), a') == if a' == a then m else At(b, a')
  {
  }

  /** The board after the player to move marks cell a. */
  function Play(b: Board, a: Action): Board
    requires InRange(a)
  {
    Mark(b, a, Mover(b))
  }

  /** Play differs from its input in exactly one cell, which gets the mark of
      the player to move on the input board. */
  lemma PlayChangesOneCell(b: Board, a: Action)
    requires InRange(a)
    ensures At(Play(b, a), a) == Mover(b)
    ensures forall a' :: InRange(a') && a' != a ==> At(Play(b, a), a') == At(b, a')
  {
  }

  /** Applies an action to a copy of the board. Fails when there is no action
      or its cell is taken; otherwise the copy gets the mover's mark there. */
  method Result(b: Board, action: Option<Action>) returns (r: MoveOutcome)
    requires action.Some? ==> InRange(action.value)
    ensures r.InvalidMove? <==> action.None? || At(b, action.value) != Empty
    ensures r.Moved? ==> r.board == Play(b, action.value)
  {
    var copy := b;
    var currentPlayer := Player(copy);
    if action.None? || copy[action.value.0][action.value.1] != Empty {
      return InvalidMove;
    }
    var a := action.value;
    var rowNum := 0;
    while rowNum < 3
      invariant 0 <= rowNum <= 3
      invariant Index(a) < 3 * rowNum ==> copy == Mark(b, a, currentPlayer)
      invariant 3 * rowNum <= Index(a) ==> copy == b
    {
      var colNum := 0;
      while colNum < 3
        invariant 0 <= colNum <= 3
        invariant Index(a) < 3 * rowNum + colNum ==> copy == Mark(b, a, currentPlayer)
        invariant 3 * rowNum + colNum <= Index(a) ==> copy == b
      {
        if rowNum == a.0 && colNum == a.1 {
          copy := Mark(copy, (rowNum, colNum), currentPlayer);
        }
        colNum := colNum + 1;
      }
      rowNum := rowNum + 1;
    }
    return Moved(copy);
  }

  // ---------------------------------------------------------------------
  // winner

  /** Three in-range cells. */
  predicate IsLine(l: seq<Action>) {
    |l| == 3 && forall i :: 0 <= i < 3 ==> InRange(l[i])
  }

  function RowLine(r: int): (l: seq<Action>)
    requires 0 <= r < 3
    ensures IsLine(l)
  {
    seq(3, k => (r, k))
  }

  function ColLine(c: int): (l: seq<Action>)
    requires 0 <= c < 3
    ensures IsLine(l)
  {
    seq(3, k => (k, c))
  }

  /** Top-left to bottom-right. */
  function MainDiagonal(): (l: seq<Action>)
    ensures IsLine(l)
  {
    seq(3, k => (k, k))
  }

  /** Top-right to bottom-left. */
  function AntiDiagonal(): (l: seq<Action>)
    ensures IsLine(l)
  {
    seq(3, k => (k, 2 - k))
  }

  /** Every cell of line l holds p. */
  predicate Owns(b: Board, l: seq<Action>, p: Cell)
    requires IsLine(l)
  {
    At(b, l[0]) == p && At(b, l[1]) == p && At(b, l[2]) == p
  }

  /** Some row, column or diagonal of the board holds p in all three cells. */
  ghost predicate HasLine(b: Board, p: Cell) {
    (exists r :: 0 <= r < 3 && b[r][0] == p && b[r][1] == p && b[r][2] == p) ||
    (exists c :: 0 <= c < 3 && b[0][c] == p && b[1][c] == p && b[2][c] == p) ||
    (b[0][0] == p && b[1][1] == p && b[2][2] == p) ||
    (b[0][2] == p && b[1][1] == p && b[2][0] == p)
  }

  /** The k-th step of the winner scan: rows 0 to 2, columns 0 to 2, and last
      both diagonals together, so that X on either diagonal is found before O. */
  function ScanGroup(k: int): (g: seq<seq<Action>>)
    requires 0 <= k < 7
    ensures forall l :: l in g ==> IsLine(l)
  {
    if k < 3 then [RowLine(k)]
    else if k < 6 then [ColLine(k - 3)]
    else [MainDiagonal(), AntiDiagonal()]
  }

  /** Some line examined at step k of the scan is owned by p. */
  predicate GroupOwned(b: Board, k: int, p: Cell)
    requires 0 <= k < 7
  {
    exists l | l in ScanGroup(k) :: Owns(b, l, p)
  }

  /** The first winner found by the scan from step k on: within a step a line
      of X is looked for before a line of O. */
  function ScanFrom(b: Board, k: int): Option<Cell>
    requires 0 <= k <= 7
    decreases 7 - k
  {
    if k == 7 then None
    else if GroupOwned(b, k, X) then Some(X)
    else if GroupOwned(b, k, O) then Some(O)
    else ScanFrom(b, k + 1)
  }

  function WinnerOf(b: Board): Option<Cell> {
    ScanFrom(b, 0)
  }

  /** Some line examined at step k or later is owned by p. */
  ghost predicate OwnedFrom(b: Board, p: Cell, k: int)
    requires 0 <= k
  {
    exists j, l :: k <= j < 7 && l in ScanGroup(j) && Owns(b, l, p)
  }

  /** The scan from step k reports X or O only for an owned line, and reports
      nothing exactly when no line is owned. */
  lemma {:induction false} ScanFromExact(b: Board, k: int)
    requires 0 <= k <= 7
    decreases 7 - k
    ensures ScanFrom(b, k).Some? ==>
              (ScanFrom(b, k).value == X || ScanFrom(b, k).value == O) &&
              OwnedFrom(b, ScanFrom(b, k).value, k)
    ensures ScanFrom(b, k).None? <==> !OwnedFrom(b, X, k) && !OwnedFrom(b, O, k)
  {
    if k < 7 {
      ScanFromExact(b, k + 1);
      OwnedFromStep(b, X, k);
      OwnedFromStep(b, O, k);
    }
  }

  /** A line owned from step k on is owned at step k itself or from step k + 1 on. */
  lemma OwnedFromStep(b: Board, p: Cell, k: int)
    requires 0 <= k < 7
    ensures OwnedFrom(b, p, k) <==>
              GroupOwned(b, k, p) || OwnedFrom(b, p, k + 1)
  {
    if OwnedFrom(b, p, k) {
      var j, l :| k <= j < 7 && l in ScanGroup(j) && Owns(b, l, p);
      if j == k {
        assert l in ScanGroup(k) && Owns(b, l, p);
      }
    }
    if OwnedFrom(b, p, k + 1) {
      var j, l :| k + 1 <= j < 7 && l in ScanGroup(j) && Owns(b, l, p);
    }
  }

  /** Owning row r means holding all three of its cells. */
  lemma OwnsRow(b: Board, r: int, p: Cell)
    requires 0 <= r < 3
    ensures Owns(b, RowLine(r), p) <==> b[r][0] == p && b[r][1] == p && b[r][2] == p
  {
    assert RowLine(r)[0] == (r, 0) && RowLine(r)[1] == (r, 1) && RowLine(r)[2] == (r, 2);
  }

  /** Owning column c means holding all three of its cells. */
  lemma OwnsCol(b: Board, c: int, p: Cell)
    requires 0 <= c < 3
    ensures Owns(b, ColLine(c), p) <==> b[0][c] == p && b[1][c] == p && b[2][c] == p
  {
    assert ColLine(c)[0] == (0, c) && ColLine(c)[1] == (1, c) && ColLine(c)[2] == (2, c);
  }

  /** Owning a diagonal means holding all three of its cells. */
  lemma OwnsDiagonals(b: Board, p: Cell)
    ensures Owns(b, MainDiagonal(), p) <==> b[0][0] == p && b[1][1] == p && b[2][2] == p
    ensures Owns(b, AntiDiagonal(), p) <==> b[0][2] == p && b[1][1] == p && b[2][0] == p
  {
    assert MainDiagonal()[0] == (0, 0) && MainDiagonal()[1] == (1, 1) && MainDiagonal()[2] == (2, 2);
    assert AntiDiagonal()[0] == (0, 2) && AntiDiagonal()[1] == (1, 1) && AntiDiagonal()[2] == (2, 0);
  }

  /** The eight lines of the scan are exactly the rows, columns and diagonals. */
  lemma HasLineScanned(b: Board, p: Cell)
    ensures HasLine(b, p) <==> OwnedFrom(b, p, 0)
  {
    if HasLine(b, p) {
      if r :| 0 <= r < 3 && b[r][0] == p && b[r][1] == p && b[r][2] == p {
        OwnsRow(b, r, p);
        assert RowLine(r) in ScanGroup(r);
      } else if c :| 0 <= c < 3 && b[0][c] == p && b[1][c] == p && b[2][c] == p {
        OwnsCol(b, c, p);
        assert ColLine(c) in ScanGroup(c + 3);
      } else {
        OwnsDiagonals(b, p);
        assert MainDiagonal() in ScanGroup(6) && AntiDiagonal() in ScanGroup(6);
      }
    }
    if OwnedFrom(b, p, 0) {
      var j, l :| 0 <= j < 7 && l in ScanGroup(j) && Owns(b, l, p);
      if j < 3 {
        assert l == RowLine(j);
        OwnsRow(b, j, p);
      } else if j < 6 {
        assert l == ColLine(j - 3);
        OwnsCol(b, j - 3, p);
      } else {
        OwnsDiagonals(b, p);
      }
    }
  }

  /** What the winner scan promises: a reported winner is X or O and owns a
      line; nothing is reported exactly when neither X nor O owns a line; and
      when only one of them owns a line, that one is reported. */
  lemma WinnerOfExact(b: Board)
    ensures WinnerOf(b).Some? ==>
              (WinnerOf(b).value == X || WinnerOf(b).value == O) && HasLine(b, WinnerOf(b).value)
    ensures WinnerOf(b).None? <==> !HasLine(b, X) && !HasLine(b, O)
    ensures HasLine(b, X) && !HasLine(b, O) ==> WinnerOf(b) == Some(X)
    ensures HasLine(b, O) && !HasLine(b, X) ==> WinnerOf(b) == Some(O)
  {
    ScanFromExact(b, 0);
    HasLineScanned(b, X);
    HasLineScanned(b, O);
  }

  /** The set of values in the first n cells of line l. */
  function LineValues(b: Board, l: seq<Action>, n: int): set<Cell>
    requires IsLine(l) && 0 <= n <= 3
  {
    if n == 0 then {} else LineValues(b, l, n - 1) + {At(b, l[n - 1])}
  }

  /** The values on a line form the set {p} exactly when p fills the line. */
  lemma LineValuesSingleton(b: Board, l: seq<Action>, p: Cell)
    requires IsLine(l)
    ensures LineValues(b, l, 3) == {p} <==> Owns(b, l, p)
  {
    assert LineValues(b, l, 1) == {At(b, l[0])};
    assert LineValues(b, l, 2) == {At(b, l[0])} + {At(b, l[1])};
    assert LineValues(b, l, 3) == {At(b, l[0])} + {At(b, l[1])} + {At(b, l[2])};
    if LineValues(b, l, 3) == {p} {
      assert At(b, l[0]) in {p} && At(b, l[1]) in {p} && At(b, l[2]) in {p};
    }
  }

  /** One step of the scan over a single row or column. */
  lemma ScanLineStep(b: Board, k: int, l: seq<Action>)
    requires 0 <= k < 6 && l == (if k < 3 then RowLine(k) else ColLine(k - 3))
    ensures ScanFrom(b, k) == if Owns(b, l, X) then Some(X)
                              else if Owns(b, l, O) then Some(O)
                              else ScanFrom(b, k + 1)
  {
    assert ScanGroup(k) == [l];
  }

  /** One step of the winner scan over row r, read off the row's cells. */
  lemma RowScanStep(b: Board, r: int)
    requires 0 <= r < 3
    ensures ScanFrom(b, r) == if b[r][0] == X && b[r][1] == X && b[r][2] == X then Some(X)
                              else if b[r][0] == O && b[r][1] == O && b[r][2] == O then Some(O)
                              else ScanFrom(b, r + 1)
  {
    OwnsRow(b, r, X);
    OwnsRow(b, r, O);
    ScanLineStep(b, r, RowLine(r));
  }

  /** The last step of the scan, over both diagonals. */
  lemma ScanDiagonalsStep(b: Board)
    ensures ScanFrom(b, 6) == if Owns(b, MainDiagonal(), X) || Owns(b, AntiDiagonal(), X) then Some(X)
                              else if Owns(b, MainDiagonal(), O) || Owns(b, AntiDiagonal(), O) then Some(O)
                              else None
  {
    assert ScanGroup(6) == [MainDiagonal(), AntiDiagonal()];
  }

  /** Collecting one more cell of line l into the set of values seen. */
  lemma LineValuesStep(b: Board, l: seq<Action>, n: int, a: Action)
    requires IsLine(l) && 0 <= n < 3 && l[n] == a
    ensures LineValues(b, l, n + 1) == LineValues(b, l, n) + {b[a.0][a.1]}
  {
  }

  /** What the scan concludes at step k from the values collected on its line. */
  lemma LineVerdict(b: Board, k: int, l: seq<Action>, values: set<Cell>)
    requires 0 <= k < 6 && l == (if k < 3 then RowLine(k) else ColLine(k - 3))
    requires values == LineValues(b, l, 3)
    ensures ScanFrom(b, k) == if values == {X} then Some(X)
                              else if values == {O} then Some(O)
                              else ScanFrom(b, k + 1)
  {
    LineValuesSingleton(b, l, X);
    LineValuesSingleton(b, l, O);
    ScanLineStep(b, k, l);
  }

  /** What the scan concludes at its last step from the values collected on
      the two diagonals. */
  lemma DiagonalsVerdict(b: Board, values1: set<Cell>, values2: set<Cell>)
    requires values1 == LineValues(b, MainDiagonal(), 3)
    requires values2 == LineValues(b, AntiDiagonal(), 3)
    ensures ScanFrom(b, 6) == if values1 == {X} || values2 == {X} then Some(X)
                              else if values1 == {O} || values2 == {O} then Some(O)
                              else None
  {
    LineValuesSingleton(b, MainDiagonal(), X);
    LineValuesSingleton(b, MainDiagonal(), O);
    LineValuesSingleton(b, AntiDiagonal(), X);
    LineValuesSingleton(b, AntiDiagonal(), O);
    ScanDiagonalsStep(b);
  }

  /** The winner, looked for by collecting the values of each line into a set:
      rows, then columns, then the two diagonals. */
  method Winner(b: Board) returns (w: Option<Cell>)
    ensures w == WinnerOf(b)
  {
    for r := 0 to 3
      invariant WinnerOf(b) == ScanFrom(b, r)
    {
      var valuesInRow: set<Cell> := {};
      for c := 0 to 3
        invariant valuesInRow == LineValues(b, RowLine(r), c)
      {
        LineValuesStep(b, RowLine(r), c, (r, c));
        valuesInRow := valuesInRow + {b[r][c]};
      }
      LineVerdict(b, r, RowLine(r), valuesInRow);
      if valuesInRow == {X} {
        return Some(X);
      } else if valuesInRow == {O} {
        return Some(O);
      }
    }

    for c := 0 to 3
      invariant WinnerOf(b) == ScanFrom(b, 3 + c)
    {
      var valuesInCol: set<Cell> := {};
      for r := 0 to 3
        invariant valuesInCol == LineValues(b, ColLine(c), r)
      {
        LineValuesStep(b, ColLine(c), r, (r, c));
        valuesInCol := valuesInCol + {b[r][c]};
      }
      LineVerdict(b, 3 + c, ColLine(c), valuesInCol);
      if valuesInCol == {X} {
        return Some(X);
      } else if valuesInCol == {O} {
        return Some(O);
      }
    }

    var valuesInDiag1: set<Cell> := {};
    var valuesInDiag2: set<Cell> := {};
    for r := 0 to 3
      invariant valuesInDiag1 == LineValues(b, MainDiagonal(), r)
      invariant valuesInDiag2 == LineValues(b, AntiDiagonal(), r)
    {
      for c := 0 to 3
        invariant valuesInDiag1 == LineValues(b, MainDiagonal(), if c > r then r + 1 else r)
        invariant valuesInDiag2 == LineValues(b, AntiDiagonal(), if c > 2 - r then r + 1 else r)
      {
        if c == r {
          LineValuesStep(b, MainDiagonal(), r, (r, c));
          valuesInDiag1 := valuesInDiag1 + {b[r][c]};
        }
        if c == 2 - r {
          LineValuesStep(b, AntiDiagonal(), r, (r, c));
          valuesInDiag2 := valuesInDiag2 + {b[r][c]};
        }
      }
    }
    DiagonalsVerdict(b, valuesInDiag1, valuesInDiag2);
    if valuesInDiag1 == {X} || valuesInDiag2 == {X} {
      return Some(X);
    } else if valuesInDiag1 == {O} || valuesInDiag2 == {O} {
      return Some(O);
    }
    return None;
  }

  // ---------------------------------------------------------------------
  // terminal and utility

  /** The game is over: a winner is found, or no action is left. */
  function Terminal(b: Board): (over: bool)
    ensures over <==> WinnerOf(b).Some? || NoEmptyCell(b)
  {
    if WinnerOf(b) != None then true
    else if |EmptyCells(b)| == 0 then true
    else false
  }

  /** The game is over exactly when somebody owns a line or the board is full. */
  lemma TerminalExact(b: Board)
    ensures Terminal(b) <==> HasLine(b, X) || HasLine(b, O) || NoEmptyCell(b)
  {
    WinnerOfExact(b);
  }

  /** 1 when X has won, -1 when O has won, 0 otherwise. */
  function Utility(b: Board): (u: int)
    ensures u == 1 || u == 0 || u == -1
    ensures u != 0 ==> WinnerOf(b).Some?
  {
    if WinnerOf(b) == Some(X) then 1
    else if WinnerOf(b) == Some(O) then -1
    else 0
  }

  /** The utility is 1, -1 or 0; it is 0 exactly when nobody owns a line; a line
      of only one player decides it, and 1 or -1 is never given without a line
      of X or of O respectively. */
  lemma UtilityExact(b: Board)
    ensures Utility(b) == 1 || Utility(b) == 0 || Utility(b) == -1
    ensures Utility(b) == 1 ==> HasLine(b, X)
    ensures Utility(b) == -1 ==> HasLine(b, O)
    ensures Utility(b) == 0 <==> !HasLine(b, X) && !HasLine(b, O)
    ensures HasLine(b, X) && !HasLine(b, O) ==> Utility(b) == 1
    ensures HasLine(b, O) && !HasLine(b, X) ==> Utility(b) == -1
  {
    WinnerOfExact(b);
  }

  // ---------------------------------------------------------------------
  // Counts after a move

  /** Cell a lies at or after cell (r, col) in row-major order. */
  predicate Reaches(r: int, col: int, a: Action) {
    r < a.0 || (r == a.0 && col <= a.1)
  }

  /** Two boards that differ at most in cell a have counts of p, from cell
      (r, col) on, that differ only by what each holds in a. */
  lemma {:induction false} CountFromOneCellApart(b: Board, b': Board, a: Action, p: Cell, r: int, col: int)
    requires InRange(a) && 0 <= r <= 3 && 0 <= col <= 3
    requires forall a' :: InRange(a') && a' != a ==> At(b', a') == At(b, a')
    ensures CountFrom(b', p, r, col) + (if Reaches(r, col, a) && At(b, a) == p then 1 else 0)
         == CountFrom(b, p, r, col) + (if Reaches(r, col, a) && At(b', a) == p then 1 else 0)
    decreases 3 - r, 3 - col
  {
    if r < 3 {
      if col == 3 {
        CountFromOneCellApart(b, b', a, p, r + 1, 0);
      } else {
        CountFromOneCellApart(b, b', a, p, r, col + 1);
        assert CountFrom(b', p, r, col) == (if b'[r][col] == p then 1 else 0) + CountFrom(b', p, r, col + 1);
        assert CountFrom(b, p, r, col) == (if b[r][col] == p then 1 else 0) + CountFrom(b, p, r, col + 1);
        if (r, col) != a {
          assert At(b', (r, col)) == At(b, (r, col));
          assert Reaches(r, col, a) == Reaches(r, col + 1, a);
        }
      }
    }
  }

  /** A legal move uses up exactly one empty cell and adds one mark of the mover. */
  lemma PlayCounts(b: Board, a: Action)
    requires InRange(a) && At(b, a) == Empty
    ensures Count(Play(b, a), Empty) == Count(b, Empty) - 1
    ensures Count(Play(b, a), X) == Count(b, X) + (if Mover(b) == X then 1 else 0)
    ensures Count(Play(b, a), O) == Count(b, O) + (if Mover(b) == O then 1 else 0)
  {
    PlayChangesOneCell(b, a);
    CountFromOneCellApart(b, Play(b, a), a, Empty, 0, 0);
    CountFromOneCellApart(b, Play(b, a), a, X, 0, 0);
    CountFromOneCellApart(b, Play(b, a), a, O, 0, 0);
  }

  /** A legal move removes exactly its own cell from the actions. */
  lemma PlayRemovesAction(b: Board, a: Action)
    requires a in EmptyCells(b)
    ensures |EmptyCells(Play(b, a))| == |EmptyCells(b)| - 1
    ensures forall a' :: a' in EmptyCells(Play(b, a)) <==> a' in EmptyCells(b) && a' != a
  {
    assert |EmptyCells(Play(b, a))| == |EmptyCells(b)| - 1 by {
      PlayCounts(b, a);
    }
    forall a' | InRange(a')
      ensures At(Play(b, a), a') == if a' == a then Mover(b) else At(b, a')
    {
      MarkAt(b, a, Mover(b), a');
    }
  }

  /** On a position reached by alternating play, a legal move hands the turn
      to the other player and keeps the position balanced. */
  lemma PlayerAlternates(b: Board, a: Action)
    requires Balanced(b) && InRange(a) && At(b, a) == Empty
    ensures Balanced(Play(b, a))
    ensures Mover(Play(b, a)) != Mover(b)
  {
    PlayCounts(b, a);
  }

  /** The number of cells of a row that hold c. */
  function CountInRow(row: seq<Cell>, c: Cell): nat
    requires |row| == 3
  {
    (if row[0] == c then 1 else 0) + (if row[1] == c then 1 else 0) + (if row[2] == c then 1 else 0)
  }

  /** Counting from the start of row r takes in that row's cells, then goes on
      with the next row. */
  lemma CountFromRow(b: Board, c: Cell, r: int)
    requires 0 <= r < 3
    ensures CountFrom(b, c, r, 0) == CountInRow(b[r], c) + CountFrom(b, c, r + 1, 0)
  {
    assert CountFrom(b, c, r, 2) == (if b[r][2] == c then 1 else 0) + CountFrom(b, c, r + 1, 0);
  }

  /** Counting in row-major order adds up the counts of the three rows. */
  lemma CountByRows(b: Board, c: Cell)
    ensures Count(b, c) == CountInRow(b[0], c) + CountInRow(b[1], c) + CountInRow(b[2], c)
  {
    CountFromRow(b, c, 0);
    CountFromRow(b, c, 1);
    CountFromRow(b, c, 2);
  }

  /** The empty board: nine empty cells, all of them actions, and X to move. */
  lemma InitialStateCounts()
    ensures Count(InitialState(), Empty) == 9
    ensures Count(InitialState(), X) == 0 && Count(InitialState(), O) == 0
    ensures |EmptyCells(InitialState())| == 9
    ensures Balanced(InitialState()) && Mover(InitialState()) == X
  {
    var b := InitialState();
    assert Count(b, Empty) == 9 by { CountByRows(b, Empty); }
    assert Count(b, X) == 0 by { CountByRows(b, X); }
    assert Count(b, O) == 0 by { CountByRows(b, O); }
  }

  /** The game is not over on the empty board, so minimax may be asked for a move. */
  lemma InitialStateNotTerminal()
    ensures !Terminal(InitialState())
  {
    var b := InitialState();
    forall r | 0 <= r < 3
      ensures b[r][0] == Empty && b[0][r] == Empty
    {
      assert At(b, (r, 0)) == Empty && At(b, (0, r)) == Empty;
    }
    assert !NoEmptyCell(b) by {
      assert At(b, (0, 0)) == Empty;
    }
    TerminalExact(b);
  }
}
