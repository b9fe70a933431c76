/**
 * The deterministic part of the Minesweeper board: a height by width grid
 * of booleans (true where a mine lies), the set of mines, and the set of
 * mines the player has flagged.
 */
module MinesweeperGame {
  import opened Wrappers
  import opened Cardinality

  /** A board cell `(row, column)`. */
  type Cell = (int, int)

  predicate InBounds(c: Cell, height: int, width: int) {
    0 <= c.0 < height && 0 <= c.1 < width
  }

  /** The in-bounds cells within one row and one column of `c`, `c` itself excluded. */
  function Neighborhood(c: Cell, height: int, width: int): set<Cell> {
    set i, j | c.0 - 1 <= i <= c.0 + 1 && c.1 - 1 <= j <= c.1 + 1 && (i, j) != c && 0 <= i < height && 0 <= j < width :: (i, j)
  }

  /** The eight cells around `c`, in or out of bounds. */
  function Ring(c: Cell): set<Cell> {
    {(c.0 - 1, c.1 - 1), (c.0 - 1, c.1), (c.0 - 1, c.1 + 1),
     (c.0, c.1 - 1), (c.0, c.1 + 1),
     (c.0 + 1, c.1 - 1), (c.0 + 1, c.1), (c.0 + 1, c.1 + 1)}
  }

  /** A cell has at most eight neighbours, so at most eight of them can be mines. */
  lemma NeighborhoodAtMostEight(c: Cell, height: int, width: int, mines: set<Cell>)
    ensures |Neighborhood(c, height, width) * mines| <= |Neighborhood(c, height, width)| <= 8
  {
    var n := Neighborhood(c, height, width);
    assert n <= Ring(c);
    SubsetCard(n * mines, n);
    SubsetCard(n, Ring(c));
  }

  /** The elements of `s` that come before `(i, j)` in row-major order. */
  function Before(s: set<Cell>, i: int, j: int): set<Cell> {
    set x | x in s && (x.0 < i || (x.0 == i && x.1 < j))
  }

  /** Moving the row-major cursor one column right adds at most the cell it passes. */
  lemma BeforeStep(s: set<Cell>, i: int, j: int)
    ensures (i, j) !in Before(s, i, j)
    ensures Before(s, i, j + 1) == Before(s, i, j) + (if (i, j) in s then {(i, j)} else {})
  {
  }

  /** Within the block's columns, the end of one row is the start of the next. */
  lemma BeforeNextRow(s: set<Cell>, c: Cell, i: int)
    requires forall x :: x in s ==> c.1 - 1 <= x.1 <= c.1 + 1
    ensures Before(s, i, c.1 + 2) == Before(s, i + 1, c.1 - 1)
  {
  }

  /** Past the block's last row, every element of `s` has been passed. */
  lemma BeforeEnd(s: set<Cell>, c: Cell)
    requires forall x :: x in s ==> x.0 <= c.0 + 1
    ensures Before(s, c.0 + 2, c.1 - 1) == s
  {
  }

  /** The mines `nearby_mines` counts around `cell`. */
  function NearMines(c: Cell, height: int, width: int, mines: set<Cell>): set<Cell> {
    Neighborhood(c, height, width) * mines
  }

  /** One cell of the scan in `nearby_mines`: it is counted exactly when the scan's test admits it. */
  lemma NearbyStep(c: Cell, i: int, j: int, height: int, width: int, mines: set<Cell>)
    requires c.0 - 1 <= i <= c.0 + 1 && c.1 - 1 <= j <= c.1 + 1
    ensures |Before(NearMines(c, height, width, mines), i, j + 1)| ==
      |Before(NearMines(c, height, width, mines), i, j)| +
      (if (i, j) != c && 0 <= i < height && 0 <= j < width && (i, j) in mines then 1 else 0)
  {
    var near := NearMines(c, height, width, mines);
    BeforeStep(near, i, j);
    assert (i, j) in near <==> (i, j) != c && 0 <= i < height && 0 <= j < width && (i, j) in mines;
  }

  /** The scan starts with nothing counted, each row ends where the next begins, and the last row ends with every near mine counted. */
  lemma NearbyRows(c: Cell, height: int, width: int, mines: set<Cell>)
    ensures Before(NearMines(c, height, width, mines), c.0 - 1, c.1 - 1) == {}
    ensures Before(NearMines(c, height, width, mines), c.0 + 2, c.1 - 1) == NearMines(c, height, width, mines)
  {
    var near := NearMines(c, height, width, mines);
    assert forall x :: x in near ==> c.0 - 1 <= x.0 <= c.0 + 1 && c.1 - 1 <= x.1 <= c.1 + 1;
    BeforeEnd(near, c);
  }

  lemma NearbyNextRow(c: Cell, i: int, height: int, width: int, mines: set<Cell>)
    ensures Before(NearMines(c, height, width, mines), i, c.1 + 2) == Before(NearMines(c, height, width, mines), i + 1, c.1 - 1)
  {
    var near := NearMines(c, height, width, mines);
    assert forall x :: x in near ==> c.1 - 1 <= x.1 <= c.1 + 1;
    BeforeNextRow(near, c, i);
  }

  /** Python's `x[k]` on a list of length `n`, for `-n <= k < n`: negative indices count from the end. */
  function PyIndex(k: int, n: int): (r: int)
    requires -n <= k < n
    ensures 0 <= r < n
    ensures r == k || r == k + n
  {
    if k < 0 then k + n else k
  }

  class Minesweeper {
    var height: int
    var width: int
    var mines: set<Cell>
    var board: seq<seq<bool>>
    var minesFound: set<Cell>

    /** The grid has the stated shape and marks exactly the cells of `mines`, all of which are in bounds. */
    predicate Valid()
      reads this
    {
      0 <= height && 0 <= width && |board| == height &&
      (forall i :: 0 <= i < height ==> |board[i]| == width) &&
      (forall i, j :: 0 <= i < height && 0 <= j < width ==> (board[i][j] <==> (i, j) in mines)) &&
      (forall c :: c in mines ==> InBounds(c, height, width))
    }

    /**
     * `__init__`: an all-false grid, then one mine at each cell of `placed`.
     * `placed` stands for the cells the source draws at random.
     */
    constructor (height: nat, width: nat, placed: set<Cell>)
      requires forall c :: c in placed ==> InBounds(c, height, width)
      ensures Valid()
      ensures this.height == height && this.width == width
      ensures mines == placed && minesFound == {}
    {
      var grid: seq<seq<bool>> := [];
      for i := 0 to height
        invariant |grid| == i
        invariant forall k :: 0 <= k < i ==> grid[k] == seq(width, _ => false)
      {
        var row: seq<bool> := [];
        for j := 0 to width
          invariant row == seq(j, _ => false)
        {
          row := row + [false];
        }
        grid := grid + [row];
      }
      var found: set<Cell> := {};
      var todo := placed;
      while todo != {}
        invariant todo <= placed && found == placed - todo
        invariant |grid| == height && forall k :: 0 <= k < height ==> |grid[k]| == width
        invariant forall i, j :: 0 <= i < height && 0 <= j < width ==> (grid[i][j] <==> (i, j) in found)
        decreases todo
      {
        var c :| c in todo;
        grid := grid[c.0 := grid[c.0][c.1 := true]];
        found := found + {c};
        todo := todo - {c};
      }
      this.height := height;
      this.width := width;
      board := grid;
      mines := found;
      minesFound := {};
    }

    /**
     * `is_mine`: the grid entry at `cell` under Python's list indexing, where
     * a negative index counts from the end; `None` where the index raises.
     */
    function IsMine(cell: Cell): (r: Option<bool>)
      requires Valid()
      reads this
      ensures r.Some? <==> -height <= cell.0 < height && -width <= cell.1 < width
      ensures InBounds(cell, height, width) ==> r == Some(cell in mines)
      ensures r.Some? ==> (r.value <==> (PyIndex(cell.0, height), PyIndex(cell.1, width)) in mines)
    {
      if -height <= cell.0 < height && -width <= cell.1 < width then
        Some(board[PyIndex(cell.0, height)][PyIndex(cell.1, width)])
      else
        None
    }

    /** `nearby_mines`: scans the 3 by 3 block around `cell` and counts the in-bounds mines other than `cell`. */
    method NearbyMines(cell: Cell) returns (count: int)
      requires Valid()
      ensures count == |Neighborhood(cell, height, width) * mines|
      ensures 0 <= count <= 8
    {
      ghost var near := NearMines(cell, height, width, mines);
      NearbyRows(cell, height, width, mines);
      count := 0;
      for i := cell.0 - 1 to cell.0 + 2
        invariant count == |Before(near, i, cell.1 - 1)|
      {
        for j := cell.1 - 1 to cell.1 + 2
          invariant count == |Before(near, i, j)|
        {
          NearbyStep(cell, i, j, height, width, mines);
          if (i, j) != cell && 0 <= i < height && 0 <= j < width {
            if board[i][j] {
              count := count + 1;
            }
          }
        }
        NearbyNextRow(cell, i, height, width, mines);
      }
      NeighborhoodAtMostEight(cell, height, width, mines);
    }

    /** `won`: every mine has been flagged and nothing else has. */
    function Won(): (r: bool)
      reads this
      ensures r <==> (forall c :: c in mines <==> c in minesFound)
    {
      minesFound == mines
    }
  }
}
