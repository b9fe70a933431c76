/**
 * The letter grid of an assignment: every cell that an assigned word
 * covers holds one of the letters placed there, and every other cell is
 * empty. Where all words crossing a cell agree on its letter (as they do in
 * a consistent assignment), the cell holds that letter.
 */
module CrosswordGrid {
  import opened Wrappers
  import opened CrosswordPuzzle
  import opened CrosswordConstraints

  /** A height by width grid of letters; `None` is an empty cell. */
  type Grid = seq<seq<Option<char>>>

  predicate Shaped(g: Grid, height: nat, width: nat) {
    |g| == height && forall r :: 0 <= r < height ==> |g[r]| == width
  }

  /** Cell `c` is among the first `n` cells of slot `v`. */
  predicate OnSlot(v: Variable, n: int, c: (int, int)) {
    if v.direction == Down then c.1 == v.j && v.i <= c.0 < v.i + n
    else c.0 == v.i && v.j <= c.1 < v.j + n
  }

  /** Which letter of slot `v` falls on cell `c`. */
  function Offset(v: Variable, c: (int, int)): int {
    if v.direction == Down then c.0 - v.i else c.1 - v.j
  }

  /** The cells of a slot are its first `n` cells, each at its own offset. */
  lemma OnSlotCells(v: Variable, n: int)
    ensures forall k :: 0 <= k < n ==> OnSlot(v, n, CellOf(v, k)) && Offset(v, CellOf(v, k)) == k
    ensures forall c :: OnSlot(v, n, c) ==> 0 <= Offset(v, c) < n && CellOf(v, Offset(v, c)) == c
  {
  }

  /** The assigned word of `v` covers cell `c`. */
  predicate Covers(a: Assignment, v: Variable, c: (int, int))
    requires v in a
  {
    OnSlot(v, |a[v]|, c)
  }

  /** Every letter of every assigned word falls inside the grid. */
  predicate Fitted(cw: Crossword, a: Assignment) {
    forall v, k :: v in a && 0 <= k < |a[v]| ==> InGrid(cw, CellOf(v, k))
  }

  /** All assigned words covering cell `c` put the same letter there. */
  predicate Unanimous(a: Assignment, c: (int, int)) {
    forall v, u :: v in a && u in a && Covers(a, v, c) && Covers(a, u, c) ==>
      a[v][Offset(v, c)] == a[u][Offset(u, c)]
  }

  /** A consistent assignment over a well-formed puzzle fits the grid and agrees on every cell. */
  lemma ConsistentUnanimous(cw: Crossword, a: Assignment, c: (int, int))
    requires WellFormed(cw) && a.Keys <= cw.variables && IsConsistent(cw, a)
    ensures Fitted(cw, a)
    ensures Unanimous(a, c)
  {
    forall v, u | v in a && u in a && Covers(a, v, c) && Covers(a, u, c)
      ensures a[v][Offset(v, c)] == a[u][Offset(u, c)]
    {
      OnSlotCells(v, |a[v]|);
      OnSlotCells(u, |a[u]|);
      if v != u {
        assert SharesCell(v, Offset(v, c), u, Offset(u, c));
        assert Fits(a[v], a[u], cw.overlaps[(v, u)]);
      }
    }
  }

  /** The letters of `word` written into the cells of slot `v`; every other cell keeps its content. */
  method PaintWord(g: Grid, v: Variable, word: Word, ghost height: nat, ghost width: nat) returns (painted: Grid)
    requires Shaped(g, height, width)
    requires forall k :: 0 <= k < |word| ==> 0 <= CellOf(v, k).0 < height && 0 <= CellOf(v, k).1 < width
    ensures Shaped(painted, height, width)
    ensures forall r, c :: 0 <= r < height && 0 <= c < width ==>
      painted[r][c] == if OnSlot(v, |word|, (r, c)) then Some(word[Offset(v, (r, c))]) else g[r][c]
  {
    OnSlotCells(v, |word|);
    painted := g;
    for k := 0 to |word|
      invariant Shaped(painted, height, width)
      invariant forall r, c :: 0 <= r < height && 0 <= c < width ==>
        painted[r][c] == if OnSlot(v, k, (r, c)) then Some(word[Offset(v, (r, c))]) else g[r][c]
    {
      var cell := CellOf(v, k);
      painted := painted[cell.0 := painted[cell.0][cell.1 := Some(word[k])]];
    }
  }

  /**
   * The grid shows exactly the cells covered by the words of the slots in
   * `done`, each with the letter of one of those words.
   */
  ghost predicate PaintedBy(g: Grid, a: Assignment, done: set<Variable>, height: nat, width: nat)
    requires Shaped(g, height, width) && done <= a.Keys
  {
    forall r, c :: 0 <= r < height && 0 <= c < width ==>
      (g[r][c].None? <==> forall v :: v in done ==> !Covers(a, v, (r, c))) &&
      (g[r][c].Some? ==> exists v :: v in done && Covers(a, v, (r, c)) && g[r][c].value == a[v][Offset(v, (r, c))])
  }

  /** Painting the word of one more slot `v` keeps `PaintedBy` true of `done + {v}`. */
  lemma PaintedStep(g: Grid, painted: Grid, a: Assignment, done: set<Variable>, v: Variable, height: nat, width: nat)
    requires Shaped(g, height, width) && Shaped(painted, height, width) && done <= a.Keys && v in a
    requires PaintedBy(g, a, done, height, width)
    requires forall r, c :: 0 <= r < height && 0 <= c < width ==>
      painted[r][c] == if OnSlot(v, |a[v]|, (r, c)) then Some(a[v][Offset(v, (r, c))]) else g[r][c]
    ensures PaintedBy(painted, a, done + {v}, height, width)
  {
    forall r, c | 0 <= r < height && 0 <= c < width
      ensures (painted[r][c].None? <==> forall u :: u in done + {v} ==> !Covers(a, u, (r, c)))
      ensures (painted[r][c].Some? ==> exists u :: u in done + {v} && Covers(a, u, (r, c)) && painted[r][c].value == a[u][Offset(u, (r, c))])
    {
      if Covers(a, v, (r, c)) {
        assert painted[r][c] == Some(a[v][Offset(v, (r, c))]);
      } else {
        assert painted[r][c] == g[r][c];
      }
    }
  }
}
