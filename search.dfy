/** Exhaustive minimax search over the tic-tac-toe game tree: no pruning, no
    memoisation. X maximises the utility, O minimises it, and among equally
    good actions the first one in row-major order is chosen. */
module Search {
  import opened TicTacToe

  /** The largest of the first n elements, scanning left to right as Python's
      max does. */
  function MaxOfFirst(s: seq<int>, n: int): (m: int)
    requires 0 < n <= |s|
    ensures exists j :: 0 <= j < n && s[j] == m
    ensures forall j :: 0 <= j < n ==> s[j] <= m
  {
    if n == 1 then s[0]
    else
      var m' := MaxOfFirst(s, n - 1);
      if s[n - 1] > m' then s[n - 1] else m'
  }

  /** The smallest of the first n elements, scanning left to right as Python's
      min does. */
  function MinOfFirst(s: seq<int>, n: int): (m: int)
    requires 0 < n <= |s|
    ensures exists j :: 0 <= j < n && s[j] == m
    ensures forall j :: 0 <= j < n ==> m <= s[j]
  {
    if n == 1 then s[0]
    else
      var m' := MinOfFirst(s, n - 1);
      if s[n - 1] < m' then s[n - 1] else m'
  }

  /** Python's max over a non-empty list: an element no element exceeds. */
  function SeqMax(s: seq<int>): (m: int)
    requires |s| > 0
    ensures m in s
    ensures forall i :: 0 <= i < |s| ==> s[i] <= m
  {
    MaxOfFirst(s, |s|)
  }

  /** Python's min over a non-empty list: an element no element undercuts. */
  function SeqMin(s: seq<int>): (m: int)
    requires |s| > 0
    ensures m in s
    ensures forall i :: 0 <= i < |s| ==> m <= s[i]
  {
    MinOfFirst(s, |s|)
  }

  /** The position of the first occurrence of x, as Python's list.index gives it. */
  function IndexOf(s: seq<int>, x: int): (i: int)
    requires x in s
    ensures 0 <= i < |s| && s[i] == x
    ensures forall j :: 0 <= j < i ==> s[j] != x
  {
    if s[0] == x then 0 else 1 + IndexOf(s[1..], x)
  }

  // ---------------------------------------------------------------------
  // Backed-up values

  /** The value of the board with X to choose: its utility when the game is over,
      otherwise the best for X of the values of the boards after each action. */
  function MaxValueOf(b: Board): (v: int)
    decreases Count(b, Empty), 1
    ensures -1 <= v <= 1
  {
    if Terminal(b) then Utility(b) else SeqMax(ChildMins(b))
  }

  /** The value of the board with O to choose, symmetrically. */
  function MinValueOf(b: Board): (v: int)
    decreases Count(b, Empty), 1
    ensures -1 <= v <= 1
  {
    if Terminal(b) then Utility(b) else SeqMin(ChildMaxes(b))
  }

  /** MinValueOf of the board after each action, in the order of the actions. */
  function ChildMins(b: Board): (vs: seq<int>)
    decreases Count(b, Empty), 0
    ensures |vs| == |EmptyCells(b)|
    ensures forall i :: 0 <= i < |vs| ==> -1 <= vs[i] <= 1
  {
    var acts := EmptyCells(b);
    seq(|acts|, i requires 0 <= i < |acts| =>
      assert acts[i] in acts;
      PlayCounts(b, acts[i]);
      MinValueOf(Play(b, acts[i])))
  }

  /** MaxValueOf of the board after each action, in the order of the actions. */
  function ChildMaxes(b: Board): (vs: seq<int>)
    decreases Count(b, Empty), 0
    ensures |vs| == |EmptyCells(b)|
    ensures forall i :: 0 <= i < |vs| ==> -1 <= vs[i] <= 1
  {
    var acts := EmptyCells(b);
    seq(|acts|, i requires 0 <= i < |acts| =>
      assert acts[i] in acts;
      PlayCounts(b, acts[i]);
      MaxValueOf(Play(b, acts[i])))
  }

  /** Entry i of ChildMins is min_value of the board after the i-th action. */
  lemma ChildMinsAt(b: Board, i: int)
    requires 0 <= i < |EmptyCells(b)|
    ensures ChildMins(b)[i] == MinValueOf(Play(b, EmptyCells(b)[i]))
  {
  }

  /** Entry i of ChildMaxes is max_value of the board after the i-th action. */
  lemma ChildMaxesAt(b: Board, i: int)
    requires 0 <= i < |EmptyCells(b)|
    ensures ChildMaxes(b)[i] == MaxValueOf(Play(b, EmptyCells(b)[i]))
  {
  }

  /** The value X can force: at least the value after every action, and
      equal to the value after some action. */
  lemma MaxValueIsBestChild(b: Board)
    requires !Terminal(b)
    ensures forall a :: a in EmptyCells(b) ==> MinValueOf(Play(b, a)) <= MaxValueOf(b)
    ensures exists a :: a in EmptyCells(b) && MinValueOf(Play(b, a)) == MaxValueOf(b)
  {
    var acts, vs := EmptyCells(b), ChildMins(b);
    assert MaxValueOf(b) == SeqMax(vs);
    forall a | a in acts
      ensures MinValueOf(Play(b, a)) <= MaxValueOf(b)
    {
      var i :| 0 <= i < |acts| && acts[i] == a;
      ChildMinsAt(b, i);
    }
    var i :| 0 <= i < |vs| && vs[i] == MaxValueOf(b);
    ChildMinsAt(b, i);
    assert acts[i] in acts;
  }

  /** The value O can force: at most the value after every action, and
      equal to the value after some action. */
  lemma MinValueIsBestChild(b: Board)
    requires !Terminal(b)
    ensures forall a :: a in EmptyCells(b) ==> MinValueOf(b) <= MaxValueOf(Play(b, a))
    ensures exists a :: a in EmptyCells(b) && MaxValueOf(Play(b, a)) == MinValueOf(b)
  {
    var acts, vs := EmptyCells(b), ChildMaxes(b);
    assert MinValueOf(b) == SeqMin(vs);
    forall a | a in acts
      ensures MinValueOf(b) <= MaxValueOf(Play(b, a))
    {
      var i :| 0 <= i < |acts| && acts[i] == a;
      ChildMaxesAt(b, i);
    }
    var i :| 0 <= i < |vs| && vs[i] == MinValueOf(b);
    ChildMaxesAt(b, i);
    assert acts[i] in acts;
  }

  // ---------------------------------------------------------------------
  // max_value and min_value

  /** max_value: the utility of a finished game, otherwise the largest value
      min_value gives the boards after the actions, taken one by one. */
  method MaxValue(b: Board) returns (v: int)
    decreases Count(b, Empty)
    ensures v == MaxValueOf(b)
  {
    if Terminal(b) {
      return Utility(b);
    }
    var acts := Actions(b);
    ghost var values := ChildMins(b);
    assert acts[0] in acts;
    PlayCounts(b, acts[0]);
    var first := Result(b, Some(acts[0]));
    v := MinValue(first.board);
    ChildMinsAt(b, 0);
    for i := 1 to |acts|
      invariant v == MaxOfFirst(values, i)
    {
      assert acts[i] in acts;
      PlayCounts(b, acts[i]);
      var next := Result(b, Some(acts[i]));
      var m := MinValue(next.board);
      ChildMinsAt(b, i);
      v := if v >= m then v else m;
    }
  }

  /** min_value: the utility of a finished game, otherwise the smallest value
      max_value gives the boards after the actions, taken one by one. */
  method MinValue(b: Board) returns (v: int)
    decreases Count(b, Empty)
    ensures v == MinValueOf(b)
  {
    if Terminal(b) {
      return Utility(b);
    }
    var acts := Actions(b);
    ghost var values := ChildMaxes(b);
    assert acts[0] in acts;
    PlayCounts(b, acts[0]);
    var first := Result(b, Some(acts[0]));
    v := MaxValue(first.board);
    ChildMaxesAt(b, 0);
    for i := 1 to |acts|
      invariant v == MinOfFirst(values, i)
    {
      assert acts[i] in acts;
      PlayCounts(b, acts[i]);
      var next := Result(b, Some(acts[i]));
      var m := MaxValue(next.board);
      ChildMaxesAt(b, i);
      v := if v <= m then v else m;
    }
  }

  // ---------------------------------------------------------------------
  // minimax

  /** The value backed up from the board after action a, as the player to move
      on b judges it: X looks at min_value, O at max_value. */
  function Score(b: Board, a: Action): int
    requires InRange(a)
  {
    if Mover(b) == X then MinValueOf(Play(b, a)) else MaxValueOf(Play(b, a))
  }

  /** Player p would rather have value u than value v. */
  predicate Prefers(p: Cell, u: int, v: int) {
    if p == X then u > v else u < v
  }

  /** a is the action minimax must return: a legal action that no other action
      beats for the player to move, and that beats every action before it in
      row-major order. */
  ghost predicate IsMinimaxChoice(b: Board, a: Action) {
    && a in EmptyCells(b)
    && (forall a' :: a' in EmptyCells(b) ==> !Prefers(Mover(b), Score(b, a'), Score(b, a)))
    && (forall a' :: a' in EmptyCells(b) && Index(a') < Index(a) ==>
          Prefers(Mover(b), Score(b, a), Score(b, a')))
  }

  /** Picking from the actions the first position whose value no other value
      beats yields the minimax choice. */
  lemma FirstBestIsChoice(b: Board, acts: seq<Action>, values: seq<int>, k: int)
    requires acts == EmptyCells(b) && |values| == |acts| && 0 <= k < |acts|
    requires forall i :: 0 <= i < |acts| ==> values[i] == Score(b, acts[i])
    requires forall i :: 0 <= i < |values| ==> !Prefers(Mover(b), values[i], values[k])
    requires forall i :: 0 <= i < k ==> values[i] != values[k]
    ensures IsMinimaxChoice(b, acts[k])
  {
    var a := acts[k];
    assert a in acts;
    forall a' | a' in acts
      ensures !Prefers(Mover(b), Score(b, a'), Score(b, a))
      ensures Index(a') < Index(a) ==> Prefers(Mover(b), Score(b, a), Score(b, a'))
    {
      var i :| 0 <= i < |acts| && acts[i] == a';
      if Index(a') < Index(a) {
        assert i < k;
      }
    }
  }

  /** Appending the score of the next action keeps the list of utilities
      equal to the scores of the actions so far. */
  lemma ScoresExtend(b: Board, acts: seq<Action>, utilities: seq<int>, u: int)
    requires |utilities| < |acts| && forall a :: a in acts ==> InRange(a)
    requires forall j :: 0 <= j < |utilities| ==> utilities[j] == Score(b, acts[j])
    requires u == Score(b, acts[|utilities|])
    ensures forall j :: 0 <= j < |utilities| + 1 ==> (utilities + [u])[j] == Score(b, acts[j])
  {
  }

  /** minimax: collects the value of every action, takes the best of them (max
      for X, min for O) and returns the action at its first occurrence. */
  method Minimax(b: Board) returns (a: Action)
    requires !Terminal(b)
    ensures IsMinimaxChoice(b, a)
  {
    var p := Player(b);
    var acts := Actions(b);
    if p == X {
      var utilities: seq<int> := [];
      for i := 0 to |acts|
        invariant |utilities| == i
        invariant forall j :: 0 <= j < i ==> utilities[j] == Score(b, acts[j])
      {
        assert acts[i] in acts;
        var next := Result(b, Some(acts[i]));
        var u := MinValue(next.board);
        ScoresExtend(b, acts, utilities, u);
        utilities := utilities + [u];
      }
      var optimal := SeqMax(utilities);
      var index := IndexOf(utilities, optimal);
      acts := Actions(b);
      a := acts[index];
      FirstBestIsChoice(b, acts, utilities, index);
    } else {
      var utilities: seq<int> := [];
      for i := 0 to |acts|
        invariant |utilities| == i
        invariant forall j :: 0 <= j < i ==> utilities[j] == Score(b, acts[j])
      {
        assert acts[i] in acts;
        var next := Result(b, Some(acts[i]));
        var u := MaxValue(next.board);
        ScoresExtend(b, acts, utilities, u);
        utilities := utilities + [u];
      }
      var optimal := SeqMin(utilities);
      var index := IndexOf(utilities, optimal);
      acts := Actions(b);
      a := acts[index];
      FirstBestIsChoice(b, acts, utilities, index);
    }
  }

  /** Calling minimax twice on one board gives the same action: the choice is unique. */
  lemma MinimaxChoiceUnique(b: Board, a1: Action, a2: Action)
    requires IsMinimaxChoice(b, a1) && IsMinimaxChoice(b, a2)
    ensures a1 == a2
  {
    if Index(a1) == Index(a2) {
      IndexInjective(a1, a2);
    }
  }

  /** The action minimax returns achieves the backed-up value of the board:
      max_value's for X, min_value's for O. */
  lemma ChoiceAchievesValue(b: Board, a: Action)
    requires !Terminal(b) && IsMinimaxChoice(b, a)
    ensures Score(b, a) == if Mover(b) == X then MaxValueOf(b) else MinValueOf(b)
  {
    if Mover(b) == X {
      MaxValueIsBestChild(b);
      var a' :| a' in EmptyCells(b) && MinValueOf(Play(b, a')) == MaxValueOf(b);
      assert Score(b, a') == MaxValueOf(b);
      assert Score(b, a) <= MaxValueOf(b);
      assert !Prefers(X, Score(b, a'), Score(b, a));
      assert Score(b, a) == MaxValueOf(b);
    } else {
      MinValueIsBestChild(b);
      var a' :| a' in EmptyCells(b) && MaxValueOf(Play(b, a')) == MinValueOf(b);
      assert Score(b, a') == MinValueOf(b);
      assert Score(b, a) >= MinValueOf(b);
      assert !Prefers(O, Score(b, a'), Score(b, a));
      assert Score(b, a) == MinValueOf(b);
    }
  }

  /** When some action wins on the spot for the player to move, the action
      minimax returns also leads to a win for that player. */
  lemma ImmediateWinIsKept(b: Board, win: Action, a: Action)
    requires win in EmptyCells(b) && WinnerOf(Play(b, win)) == Some(Mover(b))
    requires IsMinimaxChoice(b, a)
    ensures Score(b, a) == if Mover(b) == X then 1 else -1
  {
    var after := Play(b, win);
    WinnerOfExact(after);
    assert Terminal(after);
    assert !Prefers(Mover(b), Score(b, win), Score(b, a));
  }
}
