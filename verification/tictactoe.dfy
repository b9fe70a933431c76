/**
 * The rules of tic-tac-toe and a minimax player (project0/tictactoe/tictactoe.py).
 * A board is a 3-by-3 grid of cells; `Empty` is the source's `EMPTY`, which is
 * Python's `None`, so a `Winner` of `Empty` is the source's "no winner".
 */
module TicTacToe {
  import opened Wrappers

  datatype Cell = Empty | X | O

  type Board = seq<seq<Cell>>

  /** A move: the row and the column of the cell to fill. */
  type Action = (int, int)

  /** `math.inf`, as an integer outside the utilities -1, 0 and 1. */
  const INF: int := 2

  predicate IsBoard(b: Board) {
    |b| == 3 && forall i :: 0 <= i < 3 ==> |b[i]| == 3
  }

  predicate OnBoard(a: Action) {
    0 <= a.0 < 3 && 0 <= a.1 < 3
  }

  /** `a` names a free cell of `b`. */
  predicate Legal(b: Board, a: Action)
    requires IsBoard(b)
  {
    OnBoard(a) && b[a.0][a.1] == Empty
  }

  /** The cells still free: the legal moves. */
  function EmptyCells(b: Board): (r: set<Action>)
    requires IsBoard(b)
    ensures forall a :: a in r <==> Legal(b, a)
  {
    set i, j | 0 <= i < 3 && 0 <= j < 3 && b[i][j] == Empty :: (i, j)
  }

  /** The number of cells among the first `j` of `row` that hold `m`. */
  function RowCount(row: seq<Cell>, m: Cell, j: nat): nat
    requires j <= |row|
  {
    if j == 0 then 0 else RowCount(row, m, j - 1) + (if row[j - 1] == m then 1 else 0)
  }

  /** The number of cells in the first `i` rows of `b` that hold `m`. */
  function BoardCount(b: Board, m: Cell, i: nat): nat
    requires IsBoard(b) && i <= 3
  {
    if i == 0 then 0 else BoardCount(b, m, i - 1) + RowCount(b[i - 1], m, 3)
  }

  /** How many times `m` occurs on the board. */
  function Count(b: Board, m: Cell): nat
    requires IsBoard(b)
  {
    BoardCount(b, m, 3)
  }

  /** The player whose turn it is: X moves whenever the two players have made equally many moves. */
  function ToMove(b: Board): Cell
    requires IsBoard(b)
  {
    if Count(b, X) == Count(b, O) then X else O
  }

  /** `initial_state`: the board with every cell empty. */
  function InitialState(): (b: Board)
    ensures IsBoard(b)
    ensures forall i, j :: 0 <= i < 3 && 0 <= j < 3 ==> b[i][j] == Empty
    ensures EmptyCells(b) == set i, j | 0 <= i < 3 && 0 <= j < 3 :: (i, j)
  {
    [[Empty, Empty, Empty], [Empty, Empty, Empty], [Empty, Empty, Empty]]
  }

  /** `player`: counts the X and O marks, row by row, and answers X exactly when the counts are equal. */
  method Player(b: Board) returns (p: Cell)
    requires IsBoard(b)
    ensures p == X <==> Count(b, X) == Count(b, O)
    ensures p == X || p == O
    ensures p == ToMove(b)
  {
    var contX, contO := 0, 0;
    for i := 0 to 3
      invariant contX == BoardCount(b, X, i) && contO == BoardCount(b, O, i)
    {
      for j := 0 to 3
        invariant contX == BoardCount(b, X, i) + RowCount(b[i], X, j)
        invariant contO == BoardCount(b, O, i) + RowCount(b[i], O, j)
      {
        if b[i][j] == X {
          contX := contX + 1;
        } else if b[i][j] == O {
          contO := contO + 1;
        }
      }
    }
    if contX == contO {
      p := X;
    } else {
      p := O;
    }
  }

  lemma {:induction false} RowCountEmpty(row: seq<Cell>, m: Cell, j: nat)
    requires j <= |row| && forall k :: 0 <= k < |row| ==> row[k] == Empty
    requires m != Empty
    ensures RowCount(row, m, j) == 0
  {
    if j > 0 {
      RowCountEmpty(row, m, j - 1);
    }
  }

  /** On the initial board it is X's turn: X always opens. */
  lemma XMovesFirst()
    ensures ToMove(InitialState()) == X
  {
    var b := InitialState();
    forall i | 0 <= i < 3
      ensures RowCount(b[i], X, 3) == 0 && RowCount(b[i], O, 3) == 0
    {
      RowCountEmpty(b[i], X, 3);
      RowCountEmpty(b[i], O, 3);
    }
  }

  /** `actions`: scans the board and collects every empty cell. */
  method Actions(b: Board) returns (possibleActions: set<Action>)
    requires IsBoard(b)
    ensures possibleActions == EmptyCells(b)
  {
    possibleActions := {};
    for i := 0 to 3
      invariant possibleActions == set ii, jj | 0 <= ii < i && 0 <= jj < 3 && b[ii][jj] == Empty :: (ii, jj)
    {
      for j := 0 to 3
        invariant possibleActions ==
          (set ii, jj | 0 <= ii < i && 0 <= jj < 3 && b[ii][jj] == Empty :: (ii, jj)) +
          (set jj | 0 <= jj < j && b[i][jj] == Empty :: (i, jj))
      {
        if b[i][j] == Empty {
          possibleActions := possibleActions + {(i, j)};
        }
      }
    }
  }

  /**
   * `result`: a copy of the board in which the player to move has marked
   * `action`. The board passed in is a value and is never changed.
   */
  function Result(b: Board, action: Action): (r: Board)
    requires IsBoard(b) && OnBoard(action)
    ensures IsBoard(r)
  {
    b[action.0 := b[action.0][action.1 := ToMove(b)]]
  }

  /** The new board equals the old one except at `action`, which holds the mark of the player to move. */
  lemma ResultMarksOneCell(b: Board, action: Action)
    requires IsBoard(b) && OnBoard(action)
    ensures Result(b, action)[action.0][action.1] == ToMove(b)
    ensures forall i, j :: 0 <= i < 3 && 0 <= j < 3 && (i, j) != action ==> Result(b, action)[i][j] == b[i][j]
  {
  }

  /** Playing a legal move fills exactly that cell: the free cells shrink by one. */
  lemma ResultFillsOneCell(b: Board, action: Action)
    requires IsBoard(b) && action in EmptyCells(b)
    ensures EmptyCells(Result(b, action)) == EmptyCells(b) - {action}
    ensures |EmptyCells(Result(b, action))| == |EmptyCells(b)| - 1
  {
    var r := Result(b, action);
    ResultMarksOneCell(b, action);
    forall a | a in EmptyCells(b) - {action} ensures a in EmptyCells(r) {
      assert r[a.0][a.1] == b[a.0][a.1];
    }
  }

  /** Changing one cell of a row from `Empty` to `p` adds one to the count of `p` and leaves other marks' counts alone. */
  lemma {:induction false} RowCountUpdate(row: seq<Cell>, k: nat, p: Cell, m: Cell, j: nat)
    requires k < |row| && j <= |row| && row[k] == Empty && p != Empty && m != Empty
    ensures RowCount(row[k := p], m, j) ==
      RowCount(row, m, j) + (if k < j && m == p then 1 else 0)
  {
    if j > 0 {
      RowCountUpdate(row, k, p, m, j - 1);
    }
  }

  lemma {:induction false} BoardCountUpdate(b: Board, a: Action, p: Cell, m: Cell, i: nat)
    requires IsBoard(b) && OnBoard(a) && b[a.0][a.1] == Empty && p != Empty && m != Empty && i <= 3
    ensures IsBoard(b[a.0 := b[a.0][a.1 := p]])
    ensures BoardCount(b[a.0 := b[a.0][a.1 := p]], m, i) ==
      BoardCount(b, m, i) + (if a.0 < i && m == p then 1 else 0)
  {
    if i > 0 {
      BoardCountUpdate(b, a, p, m, i - 1);
      if i - 1 == a.0 {
        RowCountUpdate(b[a.0], a.1, p, m, 3);
      }
    }
  }

  /** A board reachable by alternating moves from the initial board: X has made as many moves as O, or one more. */
  predicate Alternating(b: Board)
    requires IsBoard(b)
  {
    Count(b, X) == Count(b, O) || Count(b, X) == Count(b, O) + 1
  }

  /** A legal move hands the turn to the other player and keeps the move counts alternating. */
  lemma TurnsAlternate(b: Board, action: Action)
    requires IsBoard(b) && Alternating(b) && action in EmptyCells(b)
    ensures Alternating(Result(b, action))
    ensures ToMove(Result(b, action)) != ToMove(b)
  {
    BoardCountUpdate(b, action, ToMove(b), X, 3);
    BoardCountUpdate(b, action, ToMove(b), O, 3);
  }

  /** A line of three cells: a row, a column or a diagonal. */
  type Line = (Action, Action, Action)

  /** The lines in the order `winner` checks them: rows, then columns, then the two diagonals. */
  const Lines: seq<Line> := [
    ((0, 0), (0, 1), (0, 2)), ((1, 0), (1, 1), (1, 2)), ((2, 0), (2, 1), (2, 2)),
    ((0, 0), (1, 0), (2, 0)), ((0, 1), (1, 1), (2, 1)), ((0, 2), (1, 2), (2, 2)),
    ((0, 0), (1, 1), (2, 2)), ((2, 0), (1, 1), (0, 2))
  ]

  predicate OnBoardLine(line: Line) {
    OnBoard(line.0) && OnBoard(line.1) && OnBoard(line.2)
  }

  /** Every cell of `line` holds `p`. */
  predicate Complete(b: Board, line: Line, p: Cell)
    requires IsBoard(b) && OnBoardLine(line)
  {
    b[line.0.0][line.0.1] == p && b[line.1.0][line.1.1] == p && b[line.2.0][line.2.1] == p
  }

  /** The first line, from position `k` on, completed by X or O (X checked first on each line). */
  function WinnerFrom(b: Board, k: nat): Cell
    requires IsBoard(b) && k <= |Lines|
    decreases |Lines| - k
  {
    if k == |Lines| then Empty
    else if Complete(b, Lines[k], X) then X
    else if Complete(b, Lines[k], O) then O
    else WinnerFrom(b, k + 1)
  }

  lemma {:induction false} WinnerFromFindsLine(b: Board, k: nat)
    requires IsBoard(b) && k <= |Lines|
    ensures WinnerFrom(b, k) != Empty ==> exists n :: k <= n < |Lines| && Complete(b, Lines[n], WinnerFrom(b, k))
    ensures WinnerFrom(b, k) == Empty <==> forall n, p :: k <= n < |Lines| && p != Empty ==> !Complete(b, Lines[n], p)
    decreases |Lines| - k
  {
    if k < |Lines| {
      WinnerFromFindsLine(b, k + 1);
    }
  }

  /** `winner`: the scan of rows, columns and diagonals, in the source's order. */
  function Winner(b: Board): Cell
    requires IsBoard(b)
  {
    WinnerFrom(b, 0)
  }

  /**
   * `winner` answers X or O only when that player holds a complete row,
   * column or diagonal, and `Empty` (the source's `None`) exactly when no
   * line is complete.
   */
  lemma WinnerHoldsLine(b: Board)
    requires IsBoard(b)
    ensures Winner(b) != Empty ==> exists line :: line in Lines && Complete(b, line, Winner(b))
    ensures Winner(b) == Empty <==> forall line, p :: line in Lines && p != Empty ==> !Complete(b, line, p)
  {
    WinnerFromFindsLine(b, 0);
  }

  /** Cell number `k` of the board in row-major order, the order in which the source's loops visit it. */
  function CellAt(k: int): (a: Action)
    requires 0 <= k < 9
    ensures OnBoard(a) && 3 * a.0 + a.1 == k
  {
    (k / 3, k % 3)
  }

  /** Some cell numbered `k` or later is free. */
  predicate FreeFrom(b: Board, k: int)
    requires IsBoard(b) && 0 <= k <= 9
    decreases 9 - k
  {
    k < 9 && (Legal(b, CellAt(k)) || FreeFrom(b, k + 1))
  }

  lemma {:induction false} FreeFromFindsCell(b: Board, k: int)
    requires IsBoard(b) && 0 <= k <= 9
    ensures FreeFrom(b, k) <==> exists n :: k <= n < 9 && Legal(b, CellAt(n))
    decreases 9 - k
  {
    if k < 9 {
      FreeFromFindsCell(b, k + 1);
    }
  }

  /** Scanning all nine cells finds a free one exactly when there is a legal move. */
  lemma FreeIffMoves(b: Board)
    requires IsBoard(b)
    ensures FreeFrom(b, 0) <==> EmptyCells(b) != {}
  {
    FreeFromFindsCell(b, 0);
    if EmptyCells(b) != {} {
      var a :| a in EmptyCells(b);
      assert CellAt(3 * a.0 + a.1) == a;
    }
    if FreeFrom(b, 0) {
      var n :| 0 <= n < 9 && Legal(b, CellAt(n));
      assert CellAt(n) in EmptyCells(b);
    }
  }

  /** The game is over: someone has won or no cell is free. */
  predicate IsTerminal(b: Board)
    requires IsBoard(b)
  {
    Winner(b) != Empty || !FreeFrom(b, 0)
  }

  /** `terminal`: true when there is a winner; otherwise scans for an empty cell. */
  method Terminal(b: Board) returns (t: bool)
    requires IsBoard(b)
    ensures t <==> Winner(b) != Empty || EmptyCells(b) == {}
    ensures t == IsTerminal(b)
  {
    FreeIffMoves(b);
    var isThereWinner := Winner(b);
    if isThereWinner == Empty {
      for i := 0 to 3
        invariant forall ii, jj :: 0 <= ii < i && 0 <= jj < 3 ==> b[ii][jj] != Empty
      {
        for j := 0 to 3
          invariant forall jj :: 0 <= jj < j ==> b[i][jj] != Empty
        {
          if b[i][j] == Empty {
            assert (i, j) in EmptyCells(b);
            return false;
          }
        }
      }
      assert EmptyCells(b) == {};
    }
    return true;
  }

  /** `utility`: 1 if X has won, -1 if O has won, 0 otherwise. */
  function Utility(b: Board): (u: int)
    requires IsBoard(b)
    ensures u == 1 <==> Winner(b) == X
    ensures u == -1 <==> Winner(b) == O
    ensures u == 0 <==> Winner(b) == Empty
  {
    var isThereWinner := Winner(b);
    if isThereWinner == Empty then 0 else if isThereWinner == X then 1 else -1
  }

  function Max(a: int, b: int): int { if a < b then b else a }

  function Min(a: int, b: int): int { if a < b then a else b }

  /** A legal move takes away one free cell, so the game tree is finite. */
  lemma ResultLosesAMove(b: Board, a: Action)
    requires IsBoard(b) && Legal(b, a)
    ensures EmptyCells(Result(b, a)) < EmptyCells(b)
  {
    ResultFillsOneCell(b, a);
  }

  /** The minimax value of `b` with X (the maximiser) to choose. */
  ghost function MaxSpec(b: Board): int
    requires IsBoard(b)
    decreases EmptyCells(b), 2
  {
    if IsTerminal(b) then Utility(b) else MaxFrom(b, 0)
  }

  /** The minimax value of `b` with O (the minimiser) to choose. */
  ghost function MinSpec(b: Board): int
    requires IsBoard(b)
    decreases EmptyCells(b), 2
  {
    if IsTerminal(b) then Utility(b) else MinFrom(b, 0)
  }

  /** The largest `MinSpec` after playing a free cell numbered `k` or later; `-INF` when there is none. */
  ghost function MaxFrom(b: Board, k: int): int
    requires IsBoard(b) && 0 <= k <= 9
    decreases EmptyCells(b), 1, 9 - k
  {
    if k == 9 then -INF
    else if !Legal(b, CellAt(k)) then MaxFrom(b, k + 1)
    else
      ResultLosesAMove(b, CellAt(k));
      Max(MinSpec(Result(b, CellAt(k))), MaxFrom(b, k + 1))
  }

  /** The smallest `MaxSpec` after playing a free cell numbered `k` or later; `INF` when there is none. */
  ghost function MinFrom(b: Board, k: int): int
    requires IsBoard(b) && 0 <= k <= 9
    decreases EmptyCells(b), 1, 9 - k
  {
    if k == 9 then INF
    else if !Legal(b, CellAt(k)) then MinFrom(b, k + 1)
    else
      ResultLosesAMove(b, CellAt(k));
      Min(MaxSpec(Result(b, CellAt(k))), MinFrom(b, k + 1))
  }

  /** Minimax values are always utilities: the sentinels never escape a board that is not over. */
  lemma {:induction false} MaxSpecIsUtility(b: Board)
    requires IsBoard(b)
    ensures -1 <= MaxSpec(b) <= 1
    decreases EmptyCells(b), 2
  {
    if !IsTerminal(b) {
      FreeIffMoves(b);
      MaxFromAttained(b, 0);
    }
  }

  lemma {:induction false} MinSpecIsUtility(b: Board)
    requires IsBoard(b)
    ensures -1 <= MinSpec(b) <= 1
    decreases EmptyCells(b), 2
  {
    if !IsTerminal(b) {
      FreeIffMoves(b);
      MinFromAttained(b, 0);
    }
  }

  /** No free cell numbered `k` or later leads to a `MinSpec` above `MaxFrom(b, k)`. */
  lemma {:induction false} MaxFromBound(b: Board, k: int, n: int)
    requires IsBoard(b) && 0 <= k <= n < 9 && Legal(b, CellAt(n))
    ensures MinSpec(Result(b, CellAt(n))) <= MaxFrom(b, k)
    decreases n - k
  {
    if k < n {
      MaxFromBound(b, k + 1, n);
    }
  }

  /** With no free cell numbered `k` or later, `MaxFrom(b, k)` is the sentinel `-INF`. */
  lemma {:induction false} MaxFromNone(b: Board, k: int)
    requires IsBoard(b) && 0 <= k <= 9 && !FreeFrom(b, k)
    ensures MaxFrom(b, k) == -INF
    decreases 9 - k
  {
    if k < 9 {
      MaxFromNone(b, k + 1);
    }
  }

  /** When a cell numbered `k` or later is free, `MaxFrom(b, k)` is a utility reached by one of them. */
  lemma {:induction false} MaxFromAttained(b: Board, k: int)
    requires IsBoard(b) && 0 <= k <= 9 && FreeFrom(b, k)
    ensures -1 <= MaxFrom(b, k) <= 1
    ensures exists n :: k <= n < 9 && Legal(b, CellAt(n)) && MaxFrom(b, k) == MinSpec(Result(b, CellAt(n)))
    decreases EmptyCells(b), 1, 9 - k
  {
    var c := CellAt(k);
    if FreeFrom(b, k + 1) {
      MaxFromAttained(b, k + 1);
    }
    if Legal(b, c) {
      ResultLosesAMove(b, c);
      MinSpecIsUtility(Result(b, c));
      if FreeFrom(b, k + 1) {
        var n' :| k + 1 <= n' < 9 && Legal(b, CellAt(n')) && MaxFrom(b, k + 1) == MinSpec(Result(b, CellAt(n')));
        if MaxFrom(b, k) != MinSpec(Result(b, c)) {
          assert MaxFrom(b, k) == MinSpec(Result(b, CellAt(n')));
        }
      } else {
        MaxFromNone(b, k + 1);
        assert MaxFrom(b, k) == MinSpec(Result(b, c));
      }
    }
  }

  /**
   * When some cell is free, `MaxFrom(b, 0)` is X's best choice: the `MinSpec`
   * value of the board after some legal move, and no legal move does better.
   */
  lemma MaxOverMovesIsBest(b: Board)
    requires IsBoard(b) && FreeFrom(b, 0)
    ensures exists a :: Legal(b, a) && MaxFrom(b, 0) == MinSpec(Result(b, a))
    ensures forall a :: Legal(b, a) ==> MinSpec(Result(b, a)) <= MaxFrom(b, 0)
    ensures -1 <= MaxFrom(b, 0) <= 1
  {
    assert forall a :: Legal(b, a) ==> MinSpec(Result(b, a)) <= MaxFrom(b, 0) by {
      forall a | Legal(b, a) ensures MinSpec(Result(b, a)) <= MaxFrom(b, 0) {
        assert CellAt(3 * a.0 + a.1) == a;
        MaxFromBound(b, 0, 3 * a.0 + a.1);
      }
    }
    MaxFromAttained(b, 0);
    var n :| 0 <= n < 9 && Legal(b, CellAt(n)) && MaxFrom(b, 0) == MinSpec(Result(b, CellAt(n)));
  }

  /** No free cell numbered `k` or later leads to a `MaxSpec` below `MinFrom(b, k)`. */
  lemma {:induction false} MinFromBound(b: Board, k: int, n: int)
    requires IsBoard(b) && 0 <= k <= n < 9 && Legal(b, CellAt(n))
    ensures MinFrom(b, k) <= MaxSpec(Result(b, CellAt(n)))
    decreases n - k
  {
    if k < n {
      MinFromBound(b, k + 1, n);
    }
  }

  /** With no free cell numbered `k` or later, `MinFrom(b, k)` is the sentinel `INF`. */
  lemma {:induction false} MinFromNone(b: Board, k: int)
    requires IsBoard(b) && 0 <= k <= 9 && !FreeFrom(b, k)
    ensures MinFrom(b, k) == INF
    decreases 9 - k
  {
    if k < 9 {
      MinFromNone(b, k + 1);
    }
  }

  /** When a cell numbered `k` or later is free, `MinFrom(b, k)` is a utility reached by one of them. */
  lemma {:induction false} MinFromAttained(b: Board, k: int)
    requires IsBoard(b) && 0 <= k <= 9 && FreeFrom(b, k)
    ensures -1 <= MinFrom(b, k) <= 1
    ensures exists n :: k <= n < 9 && Legal(b, CellAt(n)) && MinFrom(b, k) == MaxSpec(Result(b, CellAt(n)))
    decreases EmptyCells(b), 1, 9 - k
  {
    var c := CellAt(k);
    if FreeFrom(b, k + 1) {
      MinFromAttained(b, k + 1);
    }
    if Legal(b, c) {
      ResultLosesAMove(b, c);
      MaxSpecIsUtility(Result(b, c));
      if FreeFrom(b, k + 1) {
        var n' :| k + 1 <= n' < 9 && Legal(b, CellAt(n')) && MinFrom(b, k + 1) == MaxSpec(Result(b, CellAt(n')));
        if MinFrom(b, k) != MaxSpec(Result(b, c)) {
          assert MinFrom(b, k) == MaxSpec(Result(b, CellAt(n')));
        }
      } else {
        MinFromNone(b, k + 1);
        assert MinFrom(b, k) == MaxSpec(Result(b, c));
      }
    }
  }

  /**
   * When some cell is free, `MinFrom(b, 0)` is O's best choice: the `MaxSpec`
   * value of the board after some legal move, and no legal move does better.
   */
  lemma MinOverMovesIsBest(b: Board)
    requires IsBoard(b) && FreeFrom(b, 0)
    ensures exists a :: Legal(b, a) && MinFrom(b, 0) == MaxSpec(Result(b, a))
    ensures forall a :: Legal(b, a) ==> MinFrom(b, 0) <= MaxSpec(Result(b, a))
    ensures -1 <= MinFrom(b, 0) <= 1
  {
    assert forall a :: Legal(b, a) ==> MinFrom(b, 0) <= MaxSpec(Result(b, a)) by {
      forall a | Legal(b, a) ensures MinFrom(b, 0) <= MaxSpec(Result(b, a)) {
        assert CellAt(3 * a.0 + a.1) == a;
        MinFromBound(b, 0, 3 * a.0 + a.1);
      }
    }
    MinFromAttained(b, 0);
    var n :| 0 <= n < 9 && Legal(b, CellAt(n)) && MinFrom(b, 0) == MaxSpec(Result(b, CellAt(n)));
  }


  /**
   * `maxValue`: the utility of a terminal board, otherwise the largest
   * `minValue` over the boards one move away. The recursion ends because
   * every move fills one empty cell.
   */
  method MaxValue(b: Board) returns (v: int)
    requires IsBoard(b)
    ensures v == MaxSpec(b)
    ensures -1 <= v <= 1
    decreases EmptyCells(b)
  {
    v := -INF;
    var isTerminal := Terminal(b);
    if isTerminal {
      return Utility(b);
    }
    var acts := Actions(b);
    MaxOverMovesIsBest(b);
    ghost var best := MaxFrom(b, 0);
    ghost var bestAction :| Legal(b, bestAction) && best == MinSpec(Result(b, bestAction));
    var todo := acts;
    while todo != {}
      invariant todo <= acts
      invariant v <= best
      invariant bestAction !in todo ==> v == best
      decreases todo
    {
      var action :| action in todo;
      ResultLosesAMove(b, action);
      var w := MinValue(Result(b, action));
      v := Max(v, w);
      todo := todo - {action};
    }
  }

  /** `minValue`: the utility of a terminal board, otherwise the smallest `maxValue` one move away. */
  method MinValue(b: Board) returns (v: int)
    requires IsBoard(b)
    ensures v == MinSpec(b)
    ensures -1 <= v <= 1
    decreases EmptyCells(b)
  {
    v := INF;
    var isTerminal := Terminal(b);
    if isTerminal {
      return Utility(b);
    }
    var acts := Actions(b);
    MinOverMovesIsBest(b);
    ghost var best := MinFrom(b, 0);
    ghost var bestAction :| Legal(b, bestAction) && best == MaxSpec(Result(b, bestAction));
    var todo := acts;
    while todo != {}
      invariant todo <= acts
      invariant best <= v
      invariant bestAction !in todo ==> v == best
      decreases todo
    {
      var action :| action in todo;
      ResultLosesAMove(b, action);
      var w := MaxValue(Result(b, action));
      v := Min(v, w);
      todo := todo - {action};
    }
  }

  /**
   * `minimax`: for X, a legal move whose resulting board has the largest
   * `minValue`; for O, one with the smallest `maxValue`; `None` exactly when
   * no cell is free. A finished game with free cells still yields a move,
   * as in the source.
   */
  method Minimax(b: Board) returns (bestMove: Option<Action>)
    requires IsBoard(b)
    ensures bestMove.None? <==> EmptyCells(b) == {}
    ensures bestMove.Some? ==> bestMove.value in EmptyCells(b)
    ensures bestMove.Some? && ToMove(b) == X ==>
      forall a :: a in EmptyCells(b) ==> MinSpec(Result(b, a)) <= MinSpec(Result(b, bestMove.value))
    ensures bestMove.Some? && ToMove(b) == O ==>
      forall a :: a in EmptyCells(b) ==> MaxSpec(Result(b, bestMove.value)) <= MaxSpec(Result(b, a))
  {
    bestMove := None;
    var playerToGo := Player(b);
    var acts := Actions(b);
    var todo := acts;
    if playerToGo == X {
      var previousValue := -INF;
      ghost var best := MaxFrom(b, 0);
      ghost var bestAction := (0, 0);
      if acts != {} {
        FreeIffMoves(b);
        MaxOverMovesIsBest(b);
        bestAction :| Legal(b, bestAction) && best == MinSpec(Result(b, bestAction));
      }
      while todo != {}
        invariant todo <= acts
        invariant bestMove.None? ==> previousValue == -INF
        invariant bestMove.Some? ==> bestMove.value in acts && previousValue == MinSpec(Result(b, bestMove.value))
        invariant acts != {} ==> previousValue <= best && (bestAction !in todo ==> previousValue == best)
        decreases todo
      {
        var action :| action in todo;
        var v := MinValue(Result(b, action));
        if previousValue < v {
          previousValue := v;
          bestMove := Some(action);
        }
        todo := todo - {action};
      }
    } else if playerToGo == O {
      var previousValue := INF;
      ghost var best := MinFrom(b, 0);
      ghost var bestAction := (0, 0);
      if acts != {} {
        FreeIffMoves(b);
        MinOverMovesIsBest(b);
        bestAction :| Legal(b, bestAction) && best == MaxSpec(Result(b, bestAction));
      }
      while todo != {}
        invariant todo <= acts
        invariant bestMove.None? ==> previousValue == INF
        invariant bestMove.Some? ==> bestMove.value in acts && previousValue == MaxSpec(Result(b, bestMove.value))
        invariant acts != {} ==> best <= previousValue && (bestAction !in todo ==> previousValue == best)
        decreases todo
      {
        var action :| action in todo;
        var v := MaxValue(Result(b, action));
        if previousValue > v {
          previousValue := v;
          bestMove := Some(action);
        }
        todo := todo - {action};
      }
    }
  }
}
