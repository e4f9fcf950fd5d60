/**
 * Exhaustive minimax over the tic-tac-toe game tree: X maximises the final
 * score, O minimises it, and the optimal move is the one whose reply value is
 * best for the player to move.
 */
module Minimax {
  import opened Options
  import opened TicTacToe

  /** The position of a square in row-major order, 0 to 8. */
  function Index(a: Action): int {
    a.row * Columns + a.col
  }

  /** The square at a row-major position. */
  function SquareAt(k: int): (a: Action)
    requires 0 <= k < Rows * Columns
    ensures OnBoard(a) && Index(a) == k
  {
    Action(k / Columns, k % Columns)
  }

  /** Python's `max` of two numbers: the first one wins a tie. */
  function Max(v: int, w: int): int {
    if v >= w then v else w
  }

  /** Python's `min` of two numbers: the first one wins a tie. */
  function Min(v: int, w: int): int {
    if v <= w then v else w
  }

  /** Every score lies in -1..1, so -2 and 2 play the part of `-math.inf` and `math.inf`. */
  const MinusInfinity := -2
  const PlusInfinity := 2

  // ---------------------------------------------------------------------------
  // Folding reply values

  /** `v` folded with `max` over the present entries of `vals` from `k` on. */
  function FoldMax(vals: seq<Option<int>>, k: nat, v: int): (r: int)
    requires k <= |vals|
    ensures v <= r
    ensures forall j :: k <= j < |vals| && vals[j].Some? ==> vals[j].value <= r
    ensures r == v || exists j :: k <= j < |vals| && vals[j] == Some(r)
    decreases |vals| - k
  {
    if k == |vals| then v
    else FoldMax(vals, k + 1, if vals[k].Some? then Max(v, vals[k].value) else v)
  }

  /** `v` folded with `min` over the present entries of `vals` from `k` on. */
  function FoldMin(vals: seq<Option<int>>, k: nat, v: int): (r: int)
    requires k <= |vals|
    ensures r <= v
    ensures forall j :: k <= j < |vals| && vals[j].Some? ==> r <= vals[j].value
    ensures r == v || exists j :: k <= j < |vals| && vals[j] == Some(r)
    decreases |vals| - k
  {
    if k == |vals| then v
    else FoldMin(vals, k + 1, if vals[k].Some? then Min(v, vals[k].value) else v)
  }

  // ---------------------------------------------------------------------------
  // The values of a position

  /** The value of the position when X, the maximiser, is to choose. */
  function MaxScore(b: Board): (v: int)
    requires WellFormed(b)
    ensures -1 <= v <= 1
    decreases CountAll(b, Empty), 1
  {
    if Terminal(b) then Utility(b)
    else
      var replies := RepliesToX(b);
      var a :| a in ActionSet(b);
      assert SquareAt(Index(a)) == a;
      FoldMax(replies, 0, MinusInfinity)
  }

  /** The value of the position when O, the minimiser, is to choose. */
  function MinScore(b: Board): (v: int)
    requires WellFormed(b)
    ensures -1 <= v <= 1
    decreases CountAll(b, Empty), 1
  {
    if Terminal(b) then Utility(b)
    else
      var replies := RepliesToO(b);
      var a :| a in ActionSet(b);
      assert SquareAt(Index(a)) == a;
      FoldMin(replies, 0, PlusInfinity)
  }

  /**
   * For each square in row-major order: if empty, the minimising value of
   * the board after the player to move plays there (the replies `max_value`
   * weighs).
   */
  function RepliesToX(b: Board): (r: seq<Option<int>>)
    requires WellFormed(b)
    ensures |r| == Rows * Columns
    ensures forall k :: 0 <= k < |r| && r[k].Some? ==> -1 <= r[k].value <= 1
    ensures forall k :: 0 <= k < |r| ==> (r[k].Some? <==> SquareAt(k) in ActionSet(b))
    decreases CountAll(b, Empty), 0
  {
    seq(Rows * Columns, k requires 0 <= k < Rows * Columns =>
      var a := SquareAt(k);
      if b[a.row][a.col] == Empty then
        ResultEmptyCount(b, a);
        Some(MinScore(Result(b, a).value))
      else None)
  }

  /**
   * For each square in row-major order: if empty, the maximising value of
   * the board after the player to move plays there (the replies `min_value`
   * weighs).
   */
  function RepliesToO(b: Board): (r: seq<Option<int>>)
    requires WellFormed(b)
    ensures |r| == Rows * Columns
    ensures forall k :: 0 <= k < |r| && r[k].Some? ==> -1 <= r[k].value <= 1
    ensures forall k :: 0 <= k < |r| ==> (r[k].Some? <==> SquareAt(k) in ActionSet(b))
    decreases CountAll(b, Empty), 0
  {
    seq(Rows * Columns, k requires 0 <= k < Rows * Columns =>
      var a := SquareAt(k);
      if b[a.row][a.col] == Empty then
        ResultEmptyCount(b, a);
        Some(MaxScore(Result(b, a).value))
      else None)
  }

  /** The entry of a move's square holds the value after that move. */
  lemma RepliesAt(b: Board, a: Action)
    requires WellFormed(b) && a in ActionSet(b)
    ensures Result(b, a).Some?
    ensures RepliesToX(b)[Index(a)] == Some(MinScore(Result(b, a).value))
    ensures RepliesToO(b)[Index(a)] == Some(MaxScore(Result(b, a).value))
  {
    assert SquareAt(Index(a)) == a;
    ResultEmptyCount(b, a);
  }

  /** Off a terminal position, X's value is the largest reply value over X's moves, and one move attains it. */
  lemma MaxScoreIsBest(b: Board)
    requires WellFormed(b) && !Terminal(b)
    ensures forall a :: a in ActionSet(b) ==> MinScore(Result(b, a).value) <= MaxScore(b)
    ensures exists a :: a in ActionSet(b) && MinScore(Result(b, a).value) == MaxScore(b)
  {
    var replies := RepliesToX(b);
    forall a | a in ActionSet(b)
      ensures MinScore(Result(b, a).value) <= MaxScore(b)
    {
      RepliesAt(b, a);
    }
    var j :| 0 <= j < |replies| && replies[j] == Some(MaxScore(b));
    RepliesAt(b, SquareAt(j));
  }


  /** Off a terminal position, O's value is the smallest reply value over O's moves, and one move attains it. */
  lemma MinScoreIsBest(b: Board)
    requires WellFormed(b) && !Terminal(b)
    ensures forall a :: a in ActionSet(b) ==> MinScore(b) <= MaxScore(Result(b, a).value)
    ensures exists a :: a in ActionSet(b) && MaxScore(Result(b, a).value) == MinScore(b)
  {
    var replies := RepliesToO(b);
    forall a | a in ActionSet(b)
      ensures MinScore(b) <= MaxScore(Result(b, a).value)
    {
      RepliesAt(b, a);
    }
    var j :| 0 <= j < |replies| && replies[j] == Some(MinScore(b));
    RepliesAt(b, SquareAt(j));
  }


  // ---------------------------------------------------------------------------
  // The search

  /** Python's `max_value`: the utility of a finished game, else the best reply value over all moves. */
  method MaxValue(b: Board) returns (v: int)
    requires WellFormed(b)
    ensures v == MaxScore(b)
    decreases CountAll(b, Empty), 1
  {
    if Terminal(b) {
      return Utility(b);
    }
    v := MinusInfinity;
    var acts := Actions(b);
    ghost var done: set<Action> := {};
    while acts != {}
      invariant acts + done == ActionSet(b) && acts !! done
      invariant MinusInfinity <= v <= 1
      invariant forall a :: a in done ==> MinScore(Result(b, a).value) <= v
      invariant v == MinusInfinity || exists a :: a in done && MinScore(Result(b, a).value) == v
      decreases acts
    {
      var a :| a in acts;
      ResultEmptyCount(b, a);
      var w := MinValue(Result(b, a).value);
      v := Max(v, w);
      acts := acts - {a};
      done := done + {a};
    }
    MaxScoreIsBest(b);
  }

  /** Python's `min_value`: the utility of a finished game, else the smallest reply value over all moves. */
  method MinValue(b: Board) returns (v: int)
    requires WellFormed(b)
    ensures v == MinScore(b)
    decreases CountAll(b, Empty), 1
  {
    if Terminal(b) {
      return Utility(b);
    }
    v := PlusInfinity;
    var acts := Actions(b);
    ghost var done: set<Action> := {};
    while acts != {}
      invariant acts + done == ActionSet(b) && acts !! done
      invariant -1 <= v <= PlusInfinity
      invariant forall a :: a in done ==> v <= MaxScore(Result(b, a).value)
      invariant v == PlusInfinity || exists a :: a in done && MaxScore(Result(b, a).value) == v
      decreases acts
    {
      var a :| a in acts;
      ResultEmptyCount(b, a);
      var w := MaxValue(Result(b, a).value);
      v := Min(v, w);
      acts := acts - {a};
      done := done + {a};
    }
    MinScoreIsBest(b);
  }

  /** The scan of `minimax` for X: the last entry whose value is largest. */
  method LastMaxIndex(myList: seq<(int, Action)>) returns (index: int)
    requires |myList| > 0
    ensures 0 <= index < |myList|
    ensures forall t :: 0 <= t < |myList| ==> myList[t].0 <= myList[index].0
    ensures forall t :: index < t < |myList| ==> myList[t].0 < myList[index].0
  {
    index := 0;
    var maxVal := myList[0].0;
    var i := 0;
    while i < |myList|
      invariant 0 <= i <= |myList| && 0 <= index < |myList| && index <= i
      invariant maxVal == myList[index].0
      invariant forall t :: 0 <= t < i ==> myList[t].0 <= maxVal
      invariant forall t :: index < t < i ==> myList[t].0 < maxVal
    {
      if myList[i].0 >= maxVal {
        maxVal := myList[i].0;
        index := i;
      }
      i := i + 1;
    }
  }

  /** The scan of `minimax` for O: the last entry whose value is smallest. */
  method LastMinIndex(myList: seq<(int, Action)>) returns (index: int)
    requires |myList| > 0
    ensures 0 <= index < |myList|
    ensures forall t :: 0 <= t < |myList| ==> myList[index].0 <= myList[t].0
    ensures forall t :: index < t < |myList| ==> myList[index].0 < myList[t].0
  {
    index := 0;
    var minVal := myList[0].0;
    var i := 0;
    while i < |myList|
      invariant 0 <= i <= |myList| && 0 <= index < |myList| && index <= i
      invariant minVal == myList[index].0
      invariant forall t :: 0 <= t < i ==> minVal <= myList[t].0
      invariant forall t :: index < t < i ==> minVal < myList[t].0
    {
      if myList[i].0 <= minVal {
        minVal := myList[i].0;
        index := i;
      }
      i := i + 1;
    }
  }

  /** A list scoring every move by O's reply value, and a largest entry of it: that entry's move is best for X. */
  lemma ListBestForX(b: Board, myList: seq<(int, Action)>, slot: map<Action, int>, index: int)
    requires WellFormed(b)
    requires forall t :: 0 <= t < |myList| ==> myList[t].1 in ActionSet(b) && myList[t].0 == MinScore(Result(b, myList[t].1).value)
    requires forall a :: a in ActionSet(b) ==> a in slot && 0 <= slot[a] < |myList| && myList[slot[a]].1 == a
    requires 0 <= index < |myList| && myList[index].1 in ActionSet(b)
    requires forall t :: 0 <= t < |myList| ==> myList[t].0 <= myList[index].0
    ensures forall a :: a in ActionSet(b) ==> MinScore(Result(b, a).value) <= MinScore(Result(b, myList[index].1).value)
  {
  }

  /** A list scoring every move by X's reply value, and a smallest entry of it: that entry's move is best for O. */
  lemma ListBestForO(b: Board, myList: seq<(int, Action)>, slot: map<Action, int>, index: int)
    requires WellFormed(b)
    requires forall t :: 0 <= t < |myList| ==> myList[t].1 in ActionSet(b) && myList[t].0 == MaxScore(Result(b, myList[t].1).value)
    requires forall a :: a in ActionSet(b) ==> a in slot && 0 <= slot[a] < |myList| && myList[slot[a]].1 == a
    requires 0 <= index < |myList| && myList[index].1 in ActionSet(b)
    requires forall t :: 0 <= t < |myList| ==> myList[index].0 <= myList[t].0
    ensures forall a :: a in ActionSet(b) ==> MaxScore(Result(b, myList[index].1).value) <= MaxScore(Result(b, a).value)
  {
  }

  /**
   * Python's `minimax`: no move on a finished game; otherwise a move whose
   * reply value is the best one for the player to move, returning at once on
   * a move that wins outright.
   */
  method Minimax(b: Board) returns (r: Option<Action>)
    requires WellFormed(b)
    ensures r.None? <==> Terminal(b)
    ensures r.Some? ==> r.value in ActionSet(b)
    ensures r.Some? && Player(b) == X ==>
      forall a :: a in ActionSet(b) ==> MinScore(Result(b, a).value) <= MinScore(Result(b, r.value).value)
    ensures r.Some? && Player(b) == O ==>
      forall a :: a in ActionSet(b) ==> MaxScore(Result(b, r.value).value) <= MaxScore(Result(b, a).value)
  {
    if Terminal(b) {
      return None;
    }
    var a;
    if Player(b) == X {
      a := BestMoveForX(b);
    } else {
      a := BestMoveForO(b);
    }
    return Some(a);
  }

  /** The branch of `minimax` for X: score every move by `min_value` and keep the last largest. */
  method BestMoveForX(b: Board) returns (best: Action)
    requires WellFormed(b) && !Terminal(b)
    ensures best in ActionSet(b)
    ensures forall a :: a in ActionSet(b) ==> MinScore(Result(b, a).value) <= MinScore(Result(b, best).value)
  {
    var myList: seq<(int, Action)> := [];
    var acts := Actions(b);
    ghost var done: set<Action> := {};
    // where each examined move sits in the list
    ghost var slot: map<Action, int> := map[];
    while acts != {}
      invariant acts + done == ActionSet(b) && acts !! done
      invariant forall t :: 0 <= t < |myList| ==>
        myList[t].1 in done && myList[t].0 == MinScore(Result(b, myList[t].1).value)
      invariant forall a :: a in done ==> a in slot && 0 <= slot[a] < |myList| && myList[slot[a]].1 == a
      decreases acts
    {
      var a :| a in acts;
      ResultEmptyCount(b, a);
      var v := MinValue(Result(b, a).value);
      if v == 1 {
        return a;
      }
      slot := slot[a := |myList|];
      myList := myList + [(v, a)];
      acts := acts - {a};
      done := done + {a};
    }
    // the board is not terminal, so at least one move was scored
    ghost var first :| first in done;
    var index := LastMaxIndex(myList);
    ListBestForX(b, myList, slot, index);
    return myList[index].1;
  }

  /** The branch of `minimax` for O: score every move by `max_value` and keep the last smallest. */
  method BestMoveForO(b: Board) returns (best: Action)
    requires WellFormed(b) && !Terminal(b)
    ensures best in ActionSet(b)
    ensures forall a :: a in ActionSet(b) ==> MaxScore(Result(b, best).value) <= MaxScore(Result(b, a).value)
  {
    var myList: seq<(int, Action)> := [];
    var acts := Actions(b);
    ghost var done: set<Action> := {};
    // where each examined move sits in the list
    ghost var slot: map<Action, int> := map[];
    while acts != {}
      invariant acts + done == ActionSet(b) && acts !! done
      invariant forall t :: 0 <= t < |myList| ==>
        myList[t].1 in done && myList[t].0 == MaxScore(Result(b, myList[t].1).value)
      invariant forall a :: a in done ==> a in slot && 0 <= slot[a] < |myList| && myList[slot[a]].1 == a
      decreases acts
    {
      var a :| a in acts;
      ResultEmptyCount(b, a);
      var v := MaxValue(Result(b, a).value);
      if v == -1 {
        return a;
      }
      slot := slot[a := |myList|];
      myList := myList + [(v, a)];
      acts := acts - {a};
      done := done + {a};
    }
    // the board is not terminal, so at least one move was scored
    ghost var first :| first in done;
    var index := LastMinIndex(myList);
    ListBestForO(b, myList, slot, index);
    return myList[index].1;
  }
}
