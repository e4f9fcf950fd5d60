/**
 * The rules of tic-tac-toe on a 3x3 board: whose turn it is, the moves
 * available, the board after a move, the winner and the final score.
 * Boards are values; a move builds a new board and leaves the old one as it was.
 */
module TicTacToe {
  import opened Options
  import opened PyLists

  datatype Mark = X | O

  /** A square of the board: `EMPTY` (Python's `None`) or a player's mark. */
  datatype Square = Empty | Filled(mark: Mark)

  /** A board as a list of rows. */
  type Board = seq<seq<Square>>

  /** A move: the row and the column of the square to fill. */
  datatype Action = Action(row: int, col: int)

  const Rows := 3
  const Columns := 3
  const TotalToWin := 3

  /** The board has three rows of three squares. */
  predicate WellFormed(b: Board) {
    |b| == Rows && forall i :: 0 <= i < Rows ==> |b[i]| == Columns
  }

  predicate OnBoard(a: Action) {
    0 <= a.row < Rows && 0 <= a.col < Columns
  }

  // ---------------------------------------------------------------------------
  // Counting marks

  /** Python's `list.count`: how many entries of `s` equal `v`. */
  function Count(s: seq<Square>, v: Square): (n: nat)
    ensures n <= |s|
  {
    if |s| == 0 then 0 else Count(s[..|s| - 1], v) + (if s[|s| - 1] == v then 1 else 0)
  }

  /** The number of squares of the whole board equal to `v`: the sum of the row counts. */
  function CountAll(b: Board, v: Square): nat {
    if |b| == 0 then 0 else CountAll(b[..|b| - 1], v) + Count(b[|b| - 1], v)
  }

  /** Counting one more entry of a prefix adds one when that entry matches. */
  lemma CountExtend(s: seq<Square>, k: int, v: Square)
    requires 0 <= k < |s|
    ensures Count(s[..k + 1], v) == Count(s[..k], v) + (if s[k] == v then 1 else 0)
  {
    assert s[..k + 1][..k] == s[..k];
  }

  /** A count equals the length exactly when every entry matches. */
  lemma {:induction false} CountFull(s: seq<Square>, v: Square)
    ensures Count(s, v) == |s| <==> forall k :: 0 <= k < |s| ==> s[k] == v
  {
    if |s| > 0 {
      var init := s[..|s| - 1];
      CountFull(init, v);
      assert forall k :: 0 <= k < |init| ==> init[k] == s[k];
    }
  }

  /** A count is zero exactly when no entry matches. */
  lemma {:induction false} CountZero(s: seq<Square>, v: Square)
    ensures Count(s, v) == 0 <==> forall k :: 0 <= k < |s| ==> s[k] != v
  {
    if |s| > 0 {
      var init := s[..|s| - 1];
      CountZero(init, v);
      assert forall k :: 0 <= k < |init| ==> init[k] == s[k];
    }
  }

  /** Overwriting one entry changes the count by what left and what came in. */
  lemma {:induction false} CountUpdate(s: seq<Square>, j: int, w: Square, v: Square)
    requires 0 <= j < |s|
    ensures Count(s[j := w], v) == Count(s, v) - (if s[j] == v then 1 else 0) + (if w == v then 1 else 0)
  {
    var t := s[j := w];
    if j < |s| - 1 {
      CountUpdate(s[..|s| - 1], j, w, v);
      assert t[..|t| - 1] == s[..|s| - 1][j := w];
    } else {
      assert t[..|t| - 1] == s[..|s| - 1];
    }
  }

  /** The board count is zero exactly when no square matches. */
  lemma {:induction false} CountAllZero(b: Board, v: Square)
    ensures CountAll(b, v) == 0 <==> forall i, j :: 0 <= i < |b| && 0 <= j < |b[i]| ==> b[i][j] != v
  {
    if |b| > 0 {
      var init := b[..|b| - 1];
      CountAllZero(init, v);
      CountZero(b[|b| - 1], v);
      assert forall i :: 0 <= i < |init| ==> init[i] == b[i];
    }
  }

  /** Overwriting one square changes the board count by what left and what came in. */
  lemma {:induction false} CountAllUpdate(b: Board, i: int, j: int, w: Square, v: Square)
    requires 0 <= i < |b| && 0 <= j < |b[i]|
    ensures CountAll(b[i := b[i][j := w]], v)
      == CountAll(b, v) - (if b[i][j] == v then 1 else 0) + (if w == v then 1 else 0)
  {
    var c := b[i := b[i][j := w]];
    if i < |b| - 1 {
      CountAllUpdate(b[..|b| - 1], i, j, w, v);
      assert c[..|c| - 1] == b[..|b| - 1][i := b[i][j := w]];
    } else {
      assert c[..|c| - 1] == b[..|b| - 1];
      CountUpdate(b[i], j, w, v);
    }
  }

  // ---------------------------------------------------------------------------
  // Turns and moves

  /** The empty starting board; X moves first. */
  function InitialState(): (b: Board)
    ensures WellFormed(b)
    ensures forall i, j :: 0 <= i < Rows && 0 <= j < Columns ==> b[i][j] == Empty
    ensures Player(b) == X && ValidTurn(b)
  {
    var b := [[Empty, Empty, Empty], [Empty, Empty, Empty], [Empty, Empty, Empty]];
    CountAllZero(b, Filled(X));
    CountAllZero(b, Filled(O));
    b
  }

  /**
   * O is to move exactly when O has placed fewer marks than X. On a board
   * reached by taking turns, X moves exactly when the counts are equal.
   */
  function Player(b: Board): (r: Mark)
    ensures r == O <==> CountAll(b, Filled(O)) < CountAll(b, Filled(X))
    ensures ValidTurn(b) ==> (r == X <==> CountAll(b, Filled(X)) == CountAll(b, Filled(O)))
  {
    if CountAll(b, Filled(O)) < CountAll(b, Filled(X)) then O else X
  }

  /** The marks of a game played in turns from the empty board: X has as many as O, or one more. */
  predicate ValidTurn(b: Board) {
    CountAll(b, Filled(X)) == CountAll(b, Filled(O)) || CountAll(b, Filled(X)) == CountAll(b, Filled(O)) + 1
  }

  /** The set of moves: every empty square of the board. */
  function ActionSet(b: Board): (r: set<Action>)
    requires WellFormed(b)
    ensures forall a :: a in r <==> OnBoard(a) && b[a.row][a.col] == Empty
  {
    set i, j | 0 <= i < Rows && 0 <= j < Columns && b[i][j] == Empty :: Action(i, j)
  }

  /** The moves available on the board, gathered row by row. */
  method Actions(b: Board) returns (acts: set<Action>)
    requires WellFormed(b)
    ensures acts == ActionSet(b)
  {
    acts := {};
    var row := 0;
    while row < Rows
      invariant 0 <= row <= Rows
      invariant forall a :: a in acts <==> OnBoard(a) && a.row < row && b[a.row][a.col] == Empty
    {
      var col := 0;
      while col < Columns
        invariant 0 <= col <= Columns
        invariant forall a :: a in acts <==>
          OnBoard(a) && (a.row < row || (a.row == row && a.col < col)) && b[a.row][a.col] == Empty
      {
        if b[row][col] == Empty {
          acts := acts + {Action(row, col)};
        }
        col := col + 1;
      }
      row := row + 1;
    }
  }

  /** There is no move left exactly when no square is empty. */
  lemma NoActionsIffFull(b: Board)
    requires WellFormed(b)
    ensures ActionSet(b) == {} <==> CountAll(b, Empty) == 0
  {
    CountAllZero(b, Empty);
    if CountAll(b, Empty) != 0 {
      var i, j :| 0 <= i < |b| && 0 <= j < |b[i]| && b[i][j] == Empty;
      assert Action(i, j) in ActionSet(b);
    }
  }

  /**
   * The board after the player to move marks the square of `a`, on a copy.
   * Python indexing applies: -3..-1 count from the end, anything else past
   * the edge raises IndexError (`None`). A filled square is overwritten.
   */
  function Result(b: Board, a: Action): (r: Option<Board>)
    requires WellFormed(b)
    ensures r.Some? <==> -Rows <= a.row < Rows && -Columns <= a.col < Columns
    ensures r.Some? ==> WellFormed(r.value)
  {
    match (PyIndex(a.row, |b|), PyIndex(a.col, Columns))
    case (Some(i), Some(j)) => Some(b[i := b[i][j := Filled(Player(b))]])
    case _ => None
  }

  /**
   * The new board holds the mover's mark on the chosen square, a negative
   * index counting from the end, and equals the old board everywhere else.
   */
  lemma ResultPlaces(b: Board, a: Action)
    requires WellFormed(b) && -Rows <= a.row < Rows && -Columns <= a.col < Columns
    ensures Result(b, a).Some?
    ensures var i, j := (a.row + Rows) % Rows, (a.col + Columns) % Columns;
      && Result(b, a).value[i][j] == Filled(Player(b))
      && forall p, q :: 0 <= p < Rows && 0 <= q < Columns && (p != i || q != j) ==> Result(b, a).value[p][q] == b[p][q]
  {
  }

  /** A move on an empty square uses up one empty square. */
  lemma ResultEmptyCount(b: Board, a: Action)
    requires WellFormed(b) && OnBoard(a) && b[a.row][a.col] == Empty
    ensures Result(b, a).Some?
    ensures CountAll(Result(b, a).value, Empty) == CountAll(b, Empty) - 1
  {
    assert Result(b, a).value == b[a.row := b[a.row][a.col := Filled(Player(b))]];
    CountAllUpdate(b, a.row, a.col, Filled(Player(b)), Empty);
  }

  /** From a position reached by taking turns, a move keeps the turns valid and passes the turn. */
  lemma {:induction false} PlayerAlternates(b: Board, a: Action)
    requires WellFormed(b) && ValidTurn(b) && a in ActionSet(b)
    ensures Result(b, a).Some?
    ensures ValidTurn(Result(b, a).value)
    ensures Player(Result(b, a).value) != Player(b)
  {
    var p := Filled(Player(b));
    assert Result(b, a).value == b[a.row := b[a.row][a.col := p]];
    CountAllUpdate(b, a.row, a.col, p, Filled(X));
    CountAllUpdate(b, a.row, a.col, p, Filled(O));
  }

  // ---------------------------------------------------------------------------
  // Lines and the winner

  predicate RowFull(b: Board, i: int, m: Mark)
    requires WellFormed(b) && 0 <= i < Rows
  {
    forall j :: 0 <= j < Columns ==> b[i][j] == Filled(m)
  }

  predicate ColFull(b: Board, j: int, m: Mark)
    requires WellFormed(b) && 0 <= j < Columns
  {
    forall i :: 0 <= i < Rows ==> b[i][j] == Filled(m)
  }

  /** The top-left to bottom-right diagonal holds `m` throughout. */
  predicate MainDiagFull(b: Board, m: Mark)
    requires WellFormed(b)
  {
    forall i :: 0 <= i < Rows ==> b[i][i] == Filled(m)
  }

  /** The bottom-left to top-right diagonal holds `m` throughout. */
  predicate AntiDiagFull(b: Board, m: Mark)
    requires WellFormed(b)
  {
    forall i :: 0 <= i < Rows ==> b[i][Rows - 1 - i] == Filled(m)
  }

  predicate AnyRowFull(b: Board, m: Mark)
    requires WellFormed(b)
  {
    exists i :: 0 <= i < Rows && RowFull(b, i, m)
  }

  predicate AnyColFull(b: Board, m: Mark)
    requires WellFormed(b)
  {
    exists j :: 0 <= j < Columns && ColFull(b, j, m)
  }

  /** `m` holds a whole row, column or diagonal. */
  predicate HasLine(b: Board, m: Mark)
    requires WellFormed(b)
  {
    AnyRowFull(b, m) || AnyColFull(b, m) || MainDiagFull(b, m) || AntiDiagFull(b, m)
  }

  /** X if one of X's counts reaches three, otherwise O if one of O's does. */
  function CheckWinnerHelper(xCounts: seq<int>, oCounts: seq<int>): (r: Option<Mark>)
    ensures r == Some(X) <==> exists i :: 0 <= i < |xCounts| && xCounts[i] == TotalToWin
    ensures r == Some(O) <==>
      (forall i :: 0 <= i < |xCounts| ==> xCounts[i] != TotalToWin) && exists i :: 0 <= i < |oCounts| && oCounts[i] == TotalToWin
  {
    if TotalToWin in xCounts then Some(X) else if TotalToWin in oCounts then Some(O) else None
  }

  /** The winner by rows, from the number of X and of O in each row. */
  function CheckRowWinner(b: Board): (r: Option<Mark>)
    ensures r.Some? ==> exists i :: 0 <= i < |b| && Count(b[i], Filled(r.value)) == TotalToWin
    ensures r.None? <==> forall i :: 0 <= i < |b| ==>
      Count(b[i], Filled(X)) != TotalToWin && Count(b[i], Filled(O)) != TotalToWin
  {
    var xs := seq(|b|, i requires 0 <= i < |b| => Count(b[i], Filled(X)));
    var os := seq(|b|, i requires 0 <= i < |b| => Count(b[i], Filled(O)));
    assert forall i :: 0 <= i < |b| ==> xs[i] == Count(b[i], Filled(X)) && os[i] == Count(b[i], Filled(O));
    CheckWinnerHelper(xs, os)
  }

  /** The squares of column `j`, top to bottom. */
  function Column(b: Board, j: int): seq<Square>
    requires WellFormed(b) && 0 <= j < Columns
  {
    [b[0][j], b[1][j], b[2][j]]
  }

  /** The squares of the top-left to bottom-right diagonal. */
  function MainDiag(b: Board): seq<Square>
    requires WellFormed(b)
  {
    [b[0][0], b[1][1], b[2][2]]
  }

  /** The squares of the bottom-left to top-right diagonal, top row first. */
  function AntiDiag(b: Board): seq<Square>
    requires WellFormed(b)
  {
    [b[0][2], b[1][1], b[2][0]]
  }

  /** Who holds a whole column: X is looked for before O. */
  function ColumnsWinner(b: Board): Option<Mark>
    requires WellFormed(b)
  {
    if AnyColFull(b, X) then Some(X) else if AnyColFull(b, O) then Some(O) else None
  }

  /** Who holds a whole diagonal: the main diagonal first, X before O on each. */
  function DiagonalsWinner(b: Board): Option<Mark>
    requires WellFormed(b)
  {
    if MainDiagFull(b, X) then Some(X)
    else if MainDiagFull(b, O) then Some(O)
    else if AntiDiagFull(b, X) then Some(X)
    else if AntiDiagFull(b, O) then Some(O)
    else None
  }

  /** Reaching three marks on a line of three means filling it. */
  lemma LineCount(s: seq<Square>, m: Mark)
    requires |s| == 3
    ensures Count(s, Filled(m)) == TotalToWin <==> s[0] == s[1] == s[2] == Filled(m)
  {
    CountFull(s, Filled(m));
  }

  /** The row counts find exactly the full rows, X before O. */
  lemma CheckRowWinnerMeaning(b: Board)
    requires WellFormed(b)
    ensures CheckRowWinner(b) == (if AnyRowFull(b, X) then Some(X) else if AnyRowFull(b, O) then Some(O) else None)
  {
    var xs := seq(|b|, i requires 0 <= i < |b| => Count(b[i], Filled(X)));
    var os := seq(|b|, i requires 0 <= i < |b| => Count(b[i], Filled(O)));
    forall i | 0 <= i < Rows
      ensures xs[i] == TotalToWin <==> RowFull(b, i, X)
      ensures os[i] == TotalToWin <==> RowFull(b, i, O)
    {
      LineCount(b[i], X);
      LineCount(b[i], O);
    }
    assert TotalToWin in xs <==> AnyRowFull(b, X);
    assert TotalToWin in os <==> AnyRowFull(b, O);
  }

  /** Python's `winner`: rows first, then columns, then diagonals. */
  function Winner(b: Board): (r: Option<Mark>)
    requires WellFormed(b)
    ensures r.Some? ==> HasLine(b, r.value)
  {
    CheckRowWinnerMeaning(b);
    var rows := CheckRowWinner(b);
    if rows.Some? then rows
    else if ColumnsWinner(b).Some? then ColumnsWinner(b)
    else DiagonalsWinner(b)
  }

  /** The winner holds a whole line, and there is no winner exactly when neither player holds one. */
  lemma WinnerMeaning(b: Board)
    requires WellFormed(b)
    ensures Winner(b).Some? ==> HasLine(b, Winner(b).value)
    ensures Winner(b).None? <==> !HasLine(b, X) && !HasLine(b, O)
  {
    CheckRowWinnerMeaning(b);
  }

  /** Counts the marks of each column, top to bottom, and hands the counts to the helper. */
  method CheckColWinner(b: Board) returns (r: Option<Mark>)
    requires WellFormed(b)
    ensures r == ColumnsWinner(b)
  {
    var xCounts: seq<int> := [];
    var oCounts: seq<int> := [];
    var i := 0;
    while i < Rows
      invariant 0 <= i <= Rows
      invariant |xCounts| == i && |oCounts| == i
      invariant forall c :: 0 <= c < i ==>
        xCounts[c] == Count(Column(b, c), Filled(X)) && oCounts[c] == Count(Column(b, c), Filled(O))
    {
      var xCount := 0;
      var oCount := 0;
      var k := 0;
      while k < Columns
        invariant 0 <= k <= Columns
        invariant xCount == Count(Column(b, i)[..k], Filled(X))
        invariant oCount == Count(Column(b, i)[..k], Filled(O))
        invariant |xCounts| == |oCounts| == (if k == Columns then i + 1 else i)
        invariant forall c :: 0 <= c < i ==>
          xCounts[c] == Count(Column(b, c), Filled(X)) && oCounts[c] == Count(Column(b, c), Filled(O))
        invariant k == Columns ==> xCounts[i] == xCount && oCounts[i] == oCount
      {
        CountExtend(Column(b, i), k, Filled(X));
        CountExtend(Column(b, i), k, Filled(O));
        if b[k][i] == Filled(X) {
          xCount := xCount + 1;
        }
        if b[k][i] == Filled(O) {
          oCount := oCount + 1;
        }
        if k == 2 {
          xCounts := xCounts + [xCount];
          oCounts := oCounts + [oCount];
        }
        k := k + 1;
      }
      assert Column(b, i)[..k] == Column(b, i);
      i := i + 1;
    }
    forall c | 0 <= c < Columns
      ensures xCounts[c] == TotalToWin <==> ColFull(b, c, X)
      ensures oCounts[c] == TotalToWin <==> ColFull(b, c, O)
    {
      LineCount(Column(b, c), X);
      LineCount(Column(b, c), O);
    }
    r := CheckWinnerHelper(xCounts, oCounts);
  }

  /** How many of the first squares of a diagonal a row-major scan has passed at square `(i, k)`. */
  function Passed(i: int, onDiag: int, k: int): int {
    i + (if onDiag < k then 1 else 0)
  }

  /** Scans the board row by row, counting marks on the main diagonal, then on the other one. */
  method CheckDiagonalWinner(b: Board) returns (r: Option<Mark>)
    requires WellFormed(b)
    ensures r == DiagonalsWinner(b)
  {
    var xCount := 0;
    var oCount := 0;
    var gameWinner: Option<Mark> := None;

    var i := 0;
    while i < Rows
      invariant 0 <= i <= Rows
      invariant xCount == Count(MainDiag(b)[..i], Filled(X))
      invariant oCount == Count(MainDiag(b)[..i], Filled(O))
    {
      var k := 0;
      while k < Columns
        invariant 0 <= k <= Columns
        invariant xCount == Count(MainDiag(b)[..Passed(i, i, k)], Filled(X))
        invariant oCount == Count(MainDiag(b)[..Passed(i, i, k)], Filled(O))
      {
        if i == k {
          CountExtend(MainDiag(b), i, Filled(X));
          CountExtend(MainDiag(b), i, Filled(O));
          if b[i][k] == Filled(X) {
            xCount := xCount + 1;
          }
          if b[i][k] == Filled(O) {
            oCount := oCount + 1;
          }
        }
        k := k + 1;
      }
      i := i + 1;
    }
    assert MainDiag(b)[..Rows] == MainDiag(b);
    LineCount(MainDiag(b), X);
    LineCount(MainDiag(b), O);
    if xCount == TotalToWin {
      return Some(X);
    } else if oCount == TotalToWin {
      return Some(O);
    }

    var l := [(0, 2), (1, 1), (2, 0)];
    xCount := 0;
    oCount := 0;
    i := 0;
    while i < Rows
      invariant 0 <= i <= Rows
      invariant xCount == Count(AntiDiag(b)[..i], Filled(X))
      invariant oCount == Count(AntiDiag(b)[..i], Filled(O))
    {
      var k := 0;
      while k < Columns
        invariant 0 <= k <= Columns
        invariant xCount == Count(AntiDiag(b)[..Passed(i, Rows - 1 - i, k)], Filled(X))
        invariant oCount == Count(AntiDiag(b)[..Passed(i, Rows - 1 - i, k)], Filled(O))
      {
        if (i, k) in l {
          assert k == Rows - 1 - i;
          CountExtend(AntiDiag(b), i, Filled(X));
          CountExtend(AntiDiag(b), i, Filled(O));
          if b[i][k] == Filled(X) {
            xCount := xCount + 1;
          }
          if b[i][k] == Filled(O) {
            oCount := oCount + 1;
          }
        }
        k := k + 1;
      }
      i := i + 1;
    }
    assert AntiDiag(b)[..Rows] == AntiDiag(b);
    LineCount(AntiDiag(b), X);
    LineCount(AntiDiag(b), O);
    if xCount == TotalToWin {
      return Some(X);
    } else if oCount == TotalToWin {
      return Some(O);
    }
    return gameWinner;
  }

  /** Python's `winner`, calling the row, column and diagonal checks in turn. */
  method FindWinner(b: Board) returns (r: Option<Mark>)
    requires WellFormed(b)
    ensures r == Winner(b)
  {
    r := CheckRowWinner(b);
    if r.Some? {
      return r;
    }
    r := CheckColWinner(b);
    if r.Some? {
      return r;
    }
    r := CheckDiagonalWinner(b);
  }

  // ---------------------------------------------------------------------------
  // End of the game

  /** The game is over when no square is empty or someone has a line. */
  function Terminal(b: Board): (r: bool)
    requires WellFormed(b)
    ensures r <==> ActionSet(b) == {} || Winner(b).Some?
  {
    NoActionsIffFull(b);
    CountAll(b, Empty) == 0 || Winner(b).Some?
  }

  /** The game is over exactly when there is no move left or a player holds a line. */
  lemma TerminalMeaning(b: Board)
    requires WellFormed(b)
    ensures Terminal(b) <==> ActionSet(b) == {} || HasLine(b, X) || HasLine(b, O)
  {
    WinnerMeaning(b);
  }

  /** 1 if X has won, -1 if O has won, 0 otherwise. */
  function Utility(b: Board): (r: int)
    requires WellFormed(b)
    ensures -1 <= r <= 1
  {
    var w := Winner(b);
    if w == Some(X) then 1 else if w == Some(O) then -1 else 0
  }

  /** The score is 1 only when X holds a line, -1 only when O does, and 0 exactly when neither does. */
  lemma UtilityMeaning(b: Board)
    requires WellFormed(b)
    ensures Utility(b) == 1 ==> HasLine(b, X)
    ensures Utility(b) == -1 ==> HasLine(b, O)
    ensures Utility(b) == 0 <==> !HasLine(b, X) && !HasLine(b, O)
  {
    WinnerMeaning(b);
  }
}
