# Tic-tac-toe minimax, modelled in Dafny

This project models `tictactoe.py`, the decision engine of a tic-tac-toe
player. It has two parts:

- the game-state model of a 3x3 board: the empty starting board, whose turn
  it is (derived by counting marks), the legal actions (empty cells in
  row-major order), applying an action to a copy of the board, finding a
  winner, and the terminal test and utility;
- the exhaustive minimax search: `max_value` and `min_value` back up the
  utilities of finished games, and `minimax` picks, among the actions of the
  player to move, the first one in row-major order whose backed-up value is
  best for that player (X maximises, O minimises).

Modules:

- `TicTacToe` (`tictactoe.dfy`) is the board model. A cell is `X`, `O` or
  `Empty`; a board is three rows of three cells; an action is a (row, column)
  pair, wrapped in an `Option` where the source allows `None`. The imperative
  operations (`player`, `actions`, `result`, `winner`) are methods with
  loops. Each loop is proved against a specification function: `Mover`,
  `EmptyCells`, `Play` and `WinnerOf`. Lemmas prove what the source promises
  about those functions. Terminal and utility are plain functions over them.
- `Search` (`search.dfy`) is the minimax search. `MaxValueOf` and
  `MinValueOf` are the recursive backed-up values; they terminate because a
  legal move uses up one empty cell. `MaxValue`, `MinValue` and `Minimax` are
  the source's loops, proved against these functions. `IsMinimaxChoice`
  states which action minimax must return.
- `Scenarios` (`scenarios.dfy`) pins down the answers on concrete positions.

A board is a value, so `result` builds a new board and the board passed in
is never changed. The source gets this from `copy.deepcopy`.

On `[[O,O,_],[X,X,_],[_,_,_]]` one might expect O to move, but `player`
gives the move to X: each side has two marks, and O moves only when X has
strictly more (tictactoe.py:41-44). The model follows the code.
`Scenarios.MirrorPositionMover` proves that X is to move there, and
`Scenarios.MirrorPositionWinsForX` proves that the action minimax returns
there wins for X.

## Model

| member | source | states |
|---|---|---|
| TicTacToe.InitialState | tictactoe.py:13-19 | every one of the nine cells of the starting board is empty |
| TicTacToe.InitialStateCounts | tictactoe.py:13-19 | the starting board has nine empty cells and no marks, nine actions, counts that alternating play can reach, and X to move |
| TicTacToe.InitialStateNotTerminal | tictactoe.py:141-150 | the game is not over on the starting board, so minimax may be asked for a move there |
| TicTacToe.Player | tictactoe.py:25-44 | the counting loops return the player to move: never empty, and O exactly when X has placed strictly more marks than O, X otherwise |
| TicTacToe.EmptyCells | tictactoe.py:47-63 | the actions are exactly the empty cells, in strictly increasing row-major order (so each appears once), as many as there are empty cells; the list is empty exactly when no cell is empty |
| TicTacToe.EmptyFromMembers | tictactoe.py:55-61 | the cells collected from cell (r, col) on are exactly the empty cells at or after it in row-major order |
| TicTacToe.EmptyFromSorted | tictactoe.py:55-61 | the cells collected from cell (r, col) on come in strictly increasing row-major order |
| TicTacToe.EmptyFromLength | tictactoe.py:55-61 | one cell is collected for each empty cell from cell (r, col) on |
| TicTacToe.Actions | tictactoe.py:47-63 | the row and column loops that append empty cells return exactly the list of empty cells in row-major order |
| TicTacToe.MarkAt | tictactoe.py:79-85 | writing a mark into one cell puts it there and leaves every other cell as it was |
| TicTacToe.PlayChangesOneCell | tictactoe.py:74-82 | after a move the chosen cell holds the mark of the player to move on the board before the move, and every other cell is unchanged |
| TicTacToe.Result | tictactoe.py:66-87 | an absent action or an occupied cell gives the invalid-move error and nothing else does; otherwise the outcome is the input board with the mover's mark, computed before the move, in the chosen cell |
| TicTacToe.PlayCounts | tictactoe.py:74-82 | a legal move uses up exactly one empty cell and adds one mark of the player to move and none of the other player |
| TicTacToe.PlayRemovesAction | tictactoe.py:47-87 | after a legal move the actions are those of the board before it minus the cell just played, one fewer in all |
| TicTacToe.PlayerAlternates | tictactoe.py:25-44 | on a position reachable by alternating play, a legal move hands the turn to the other player and keeps the position reachable |
| TicTacToe.CountFromOneCellApart | tictactoe.py:32-37 | the mark counts of two boards that differ in one cell differ only by what each holds in that cell |
| TicTacToe.CountByRows | tictactoe.py:32-37 | counting cell by cell in row-major order adds up the counts of the three rows |
| TicTacToe.OwnsRow | tictactoe.py:96-106 | a player owns row r exactly when all three of its cells hold that player's mark |
| TicTacToe.OwnsCol | tictactoe.py:109-119 | a player owns column c exactly when all three of its cells hold that player's mark |
| TicTacToe.OwnsDiagonals | tictactoe.py:122-136 | a player owns a diagonal exactly when all three of its cells hold that player's mark |
| TicTacToe.LineValuesSingleton | tictactoe.py:97-104 | the set of values collected on a line is `{p}` exactly when p fills the line, so an all-empty or mixed line never wins |
| TicTacToe.ScanLineStep | tictactoe.py:96-119 | at the step of the scan for one row or column, X is reported if it owns the line, else O if it owns it, else the scan goes on |
| TicTacToe.RowScanStep | tictactoe.py:96-106 | the scan step for row r reports X if the row's three cells are X, else O if they are O, else goes on |
| TicTacToe.ScanDiagonalsStep | tictactoe.py:131-138 | at the last step, X is reported if it owns either diagonal, else O if it owns either, else no winner |
| TicTacToe.LineVerdict | tictactoe.py:96-119 | the comparison of a row's or column's collected values with `{X}` and `{O}` gives the same verdict as the scan step for that line |
| TicTacToe.DiagonalsVerdict | tictactoe.py:121-138 | the comparison of the two diagonals' collected values with `{X}` and `{O}` gives the same verdict as the last scan step |
| TicTacToe.Winner | tictactoe.py:90-138 | the loops that collect each line's values into a set and test them in the order rows, columns, diagonals return the winner of the scan |
| TicTacToe.OwnedFromStep | tictactoe.py:96-138 | a line owned at some step from k on is owned at step k itself or at some step after it |
| TicTacToe.ScanFromExact | tictactoe.py:96-138 | the scan from step k reports only X or O, and only for a line owned at step k or later; it reports nothing exactly when neither X nor O owns such a line |
| TicTacToe.HasLineScanned | tictactoe.py:96-136 | the eight lines the scan examines are exactly the three rows, the three columns and the two diagonals |
| TicTacToe.WinnerOfExact | tictactoe.py:90-138 | a reported winner is X or O and owns a line; no winner is reported exactly when neither owns a line; when only one player owns a line, that player is reported |
| TicTacToe.Terminal | tictactoe.py:141-150 | the game is over exactly when the winner scan finds a winner or no action is left, that is, no cell is empty |
| TicTacToe.Utility | tictactoe.py:153-162 | the utility (1 when the winner is X, -1 when it is O, 0 otherwise) is one of 1, 0 and -1, and it is non-zero only when a winner is found |
| TicTacToe.TerminalExact | tictactoe.py:141-150 | the game is over exactly when X or O owns a line or no cell is empty |
| TicTacToe.UtilityExact | tictactoe.py:153-162 | the utility is 1, 0 or -1; 1 only with a line of X and -1 only with a line of O; 0 exactly when nobody owns a line; a line of one player alone gives that player's value |
| Search.MaxOfFirst | tictactoe.py:175-178 | the value kept by the max-accumulating loop after n children is one of those children's values, and none of them exceeds it |
| Search.MinOfFirst | tictactoe.py:187-190 | the value kept by the min-accumulating loop after n children is one of those children's values, and none of them is below it |
| Search.SeqMax | tictactoe.py:201 | the maximum of the utility list is an element of it that no element exceeds |
| Search.SeqMin | tictactoe.py:210 | the minimum of the utility list is an element of it that no element undercuts |
| Search.IndexOf | tictactoe.py:202 | the index found holds the value looked for, and no earlier position does |
| Search.MaxValueOf | tictactoe.py:171-180 | the value backed up for X lies between -1 and 1 |
| Search.MinValueOf | tictactoe.py:183-192 | the value backed up for O lies between -1 and 1 |
| Search.ChildMins | tictactoe.py:176-178 | there is one child value per action, each between -1 and 1 |
| Search.ChildMaxes | tictactoe.py:188-190 | there is one child value per action, each between -1 and 1 |
| Search.MaxValueIsBestChild | tictactoe.py:171-180 | on a board where the game goes on, the value for X is at least min_value after every action and equals it after some action |
| Search.MinValueIsBestChild | tictactoe.py:183-192 | on a board where the game goes on, the value for O is at most max_value after every action and equals it after some action |
| Search.MaxValue | tictactoe.py:171-180 | the recursive loop returns the utility of a finished game, otherwise the largest min_value over the boards after the actions |
| Search.MinValue | tictactoe.py:183-192 | the recursive loop returns the utility of a finished game, otherwise the smallest max_value over the boards after the actions |
| Search.FirstBestIsChoice | tictactoe.py:196-212 | taking from the actions the first position whose value no other value beats for the player to move yields the minimax choice |
| Search.Minimax | tictactoe.py:165-214 | on a board where the game goes on, the returned action is legal, no action has a value better for the player to move, and it beats every action before it in row-major order |
| Search.MinimaxChoiceUnique | tictactoe.py:194-214 | at most one action meets that description, so calling minimax twice on one board returns the same action |
| Search.ChoiceAchievesValue | tictactoe.py:194-212 | the returned action achieves the board's backed-up value: max_value's when X moves, min_value's when O moves |
| Search.ImmediateWinIsKept | tictactoe.py:194-212 | when some action wins on the spot for the player to move, the returned action also leads to a win for that player |
| Scenarios.XCanWinMover | tictactoe.py:25-44 | on `[[X,X,_],[O,O,_],[_,_,_]]` each player has two marks and X is to move |
| Scenarios.XCanWinNotOver | tictactoe.py:141-150 | that board is not terminal |
| Scenarios.XCanWinTopRow | tictactoe.py:96-106 | marking (0, 2) there completes X's top row, a value of 1 |
| Scenarios.XCanWinChoice | tictactoe.py:196-203 | (0, 2) is the minimax choice on that board |
| Scenarios.MinimaxTakesFirstWinningCell | tictactoe.py:196-203 | minimax on that board returns (0, 2) and no other action |
| Scenarios.MirrorPositionMover | tictactoe.py:41-44 | on `[[O,O,_],[X,X,_],[_,_,_]]`, with two marks each, X is to move |
| Scenarios.MirrorPositionMiddleRow | tictactoe.py:96-106 | there (1, 2) is legal and completes X's middle row, a win for X |
| Scenarios.MirrorPositionWinsForX | tictactoe.py:196-212 | so the action minimax returns on that board wins for X |
| Scenarios.TwoFullRowsReportsO | tictactoe.py:96-106 | on a board where O fills row 0 and X fills row 1, both own a line and the scan reports O, the first full line it meets |

## Left out

- The `-math.inf` and `math.inf` seeds of `max_value` and `min_value` are floats. The loops run only on boards where the game goes on, and such boards have at least one action. So the model starts from the first child's value and stays in `int`. `MaxOfFirst` and `MinOfFirst` are the running maximum and minimum.
- `copy.deepcopy` is not modelled. A board is an immutable value, so the copy that `result` writes into cannot alias the caller's board.
- The exception raised by `result` and its message are one `InvalidMove` outcome.
- Python index artefacts are excluded by the precondition `InRange` on `Result`'s action: a negative index wraps to the far row or column, and an index of 3 or more raises `IndexError`.
- `Minimax` requires a board where the game goes on. On a full board, `max([])` or `min([])` would raise. On a won board with empty cells, the source would still pick an action; the model does not cover that case.
- `Utility` is defined on every board, as in the source. Its value on a board where the game goes on is 0 and carries no meaning.
- Boards that are not 3x3, or that hold other values, are excluded by the `Board` type. The `len(board)` bounds of the column and diagonal loops are the constant 3.
- The alternative starting board at tictactoe.py:20-22 is commented out in the source and is not modelled.
- Concrete game-tree values reached from the empty board are not proved. This includes which first move minimax picks there: the verifier would have to unfold about 9! positions.
- Search running time is not modelled. The search has no pruning or memoisation, and the model has none either.
- The interactive front-end that calls these operations is not part of this model.
