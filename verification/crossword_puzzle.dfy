/**
 * The crossword puzzle the solver works on: its slots ("variables"), the
 * vocabulary, and where slots cross. The parser that builds these from a
 * structure file and a word file is not part of this model; `WellFormed`
 * states what the solver relies on about its output.
 */
module CrosswordPuzzle {
  import opened Wrappers

  datatype Direction = Across | Down

  /**
   * A slot: the cell `(i, j)` of its first letter, its direction and its
   * length. Slots are values: two with the same fields are the same slot.
   */
  datatype Variable = Variable(i: int, j: int, direction: Direction, length: nat)

  type Word = string

  /** The cell that letter `k` of a word placed in `v` occupies. */
  function CellOf(v: Variable, k: int): (int, int) {
    if v.direction == Down then (v.i + k, v.j) else (v.i, v.j + k)
  }

  /**
   * A puzzle: the grid's size, the vocabulary, the slots, and for each
   * ordered pair of crossing slots the offsets `(k, l)` of the shared cell
   * in the first and the second slot. Pairs that do not cross are absent.
   */
  datatype Crossword = Crossword(
    height: nat,
    width: nat,
    words: set<Word>,
    variables: set<Variable>,
    overlaps: map<(Variable, Variable), (nat, nat)>)

  predicate InGrid(cw: Crossword, c: (int, int)) {
    0 <= c.0 < cw.height && 0 <= c.1 < cw.width
  }

  /** Letter `k` of slot `x` and letter `l` of slot `y` fall on the same cell. */
  predicate SharesCell(x: Variable, k: int, y: Variable, l: int) {
    CellOf(x, k) == CellOf(y, l)
  }

  /** Every slot lies on the grid. */
  ghost predicate OnGrid(cw: Crossword) {
    forall v, k :: v in cw.variables && 0 <= k < v.length ==> InGrid(cw, CellOf(v, k))
  }

  /**
   * Overlaps relate distinct slots of the puzzle, both ways round, at
   * offsets inside both slots that name one shared cell.
   */
  ghost predicate OverlapsPaired(cw: Crossword) {
    forall x, y :: (x, y) in cw.overlaps ==>
      x in cw.variables && y in cw.variables && x != y &&
      (y, x) in cw.overlaps && cw.overlaps[(y, x)] == (cw.overlaps[(x, y)].1, cw.overlaps[(x, y)].0) &&
      cw.overlaps[(x, y)].0 < x.length && cw.overlaps[(x, y)].1 < y.length &&
      SharesCell(x, cw.overlaps[(x, y)].0, y, cw.overlaps[(x, y)].1)
  }

  /** Two distinct slots share a cell only at their recorded overlap. */
  ghost predicate CrossingsRecorded(cw: Crossword) {
    forall x, y, k, l ::
      x in cw.variables && y in cw.variables && x != y &&
      0 <= k < x.length && 0 <= l < y.length && SharesCell(x, k, y, l) ==>
      (x, y) in cw.overlaps && cw.overlaps[(x, y)] == (k, l)
  }

  /** What the solver relies on about the puzzle it is given. */
  ghost predicate WellFormed(cw: Crossword) {
    OnGrid(cw) && OverlapsPaired(cw) && CrossingsRecorded(cw)
  }

  /**
   * `overlaps[x, y]` for two distinct slots: the offsets of their shared
   * cell, or `None` when they do not cross.
   */
  function Overlap(cw: Crossword, x: Variable, y: Variable): (r: Option<(nat, nat)>)
    requires x in cw.variables && y in cw.variables && x != y
    ensures OverlapsPaired(cw) && r.Some? ==>
      r.value.0 < x.length && r.value.1 < y.length && SharesCell(x, r.value.0, y, r.value.1)
  {
    if (x, y) in cw.overlaps then Some(cw.overlaps[(x, y)]) else None
  }

  /** Slots without an overlap share no cell. */
  lemma NoOverlapNoSharedCell(cw: Crossword, x: Variable, y: Variable)
    requires CrossingsRecorded(cw) && x in cw.variables && y in cw.variables && x != y
    requires Overlap(cw, x, y).None?
    ensures forall k, l :: 0 <= k < x.length && 0 <= l < y.length ==> !SharesCell(x, k, y, l)
  {
  }

  /** `neighbors(v)`: the slots that cross `v`. */
  function Neighbors(cw: Crossword, v: Variable): (r: set<Variable>)
    ensures v !in r && r <= cw.variables
  {
    set y | y in cw.variables && y != v && (y, v) in cw.overlaps
  }

  /** Crossing is symmetric, and a slot's neighbours are exactly the slots it has an overlap with. */
  lemma NeighborsSymmetric(cw: Crossword, x: Variable, y: Variable)
    requires OverlapsPaired(cw) && x in cw.variables
    ensures y in Neighbors(cw, x) <==> x in Neighbors(cw, y)
    ensures y in Neighbors(cw, x) <==> y in cw.variables && y != x && (x, y) in cw.overlaps
  {
    if (y, x) in cw.overlaps {
      assert (x, y) in cw.overlaps;
    }
    if (x, y) in cw.overlaps {
      assert (y, x) in cw.overlaps;
    }
  }
}
