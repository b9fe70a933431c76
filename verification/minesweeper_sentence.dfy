/**
 * A Minesweeper sentence: a set of board cells and the number of those
 * cells that are mines. `TrueOf` says when a sentence is a true statement
 * about a (hidden) set of mines; the lemmas show which updates keep it true.
 */
module MinesweeperSentence {
  import opened Wrappers
  import opened MinesweeperGame
  import opened Cardinality

  /** The value of a sentence: its cells and its count. */
  type Fact = (set<Cell>, int)

  /** The sentence `f.0 = f.1` is true of the mine set `mineSet`: exactly `f.1` of the cells `f.0` are mines. */
  predicate TrueOf(f: Fact, mineSet: set<Cell>) {
    |f.0 * mineSet| == f.1
  }

  /** What `mark_mine(c)` does to a sentence's value. */
  function AfterMine(f: Fact, c: Cell): (r: Fact)
    ensures c !in r.0 && r.0 + f.0 * {c} == f.0
    ensures r.1 - |r.0| == f.1 - |f.0|
  {
    if c in f.0 then (f.0 - {c}, f.1 - 1) else f
  }

  /** What `mark_safe(c)` does to a sentence's value. */
  function AfterSafe(f: Fact, c: Cell): (r: Fact)
    ensures c !in r.0 && r.0 + f.0 * {c} == f.0
    ensures r.1 == f.1
  {
    (f.0 - {c}, f.1)
  }

  /** A true sentence whose count equals its number of cells is all mines. */
  lemma KnownMinesAreMines(f: Fact, mineSet: set<Cell>)
    requires TrueOf(f, mineSet) && f.1 == |f.0|
    ensures f.0 <= mineSet
  {
    if !(f.0 <= mineSet) {
      var x :| x in f.0 && x !in mineSet;
      SubsetCard(f.0 * mineSet, f.0 - {x});
    }
  }

  /** A true sentence with count zero holds no mine. */
  lemma KnownSafesAreSafe(f: Fact, mineSet: set<Cell>)
    requires TrueOf(f, mineSet) && f.1 == 0
    ensures f.0 !! mineSet
  {
    forall x | x in f.0
      ensures x !in mineSet
    {
      assert x in mineSet ==> x in f.0 * mineSet;
    }
  }

  /**
   * Marking a mine keeps a sentence true of every mine set containing it;
   * afterwards the cell is gone, so marking it again changes nothing.
   */
  lemma AfterMineKeepsTruth(f: Fact, c: Cell, mineSet: set<Cell>)
    requires TrueOf(f, mineSet) && c in mineSet
    ensures TrueOf(AfterMine(f, c), mineSet)
    ensures c !in AfterMine(f, c).0 && AfterMine(AfterMine(f, c), c) == AfterMine(f, c)
  {
    if c in f.0 {
      assert (f.0 - {c}) * mineSet == f.0 * mineSet - {c};
    }
  }

  /**
   * Marking a safe cell keeps a sentence true of every mine set not
   * containing it; afterwards the cell is gone, so marking it again changes
   * nothing.
   */
  lemma AfterSafeKeepsTruth(f: Fact, c: Cell, mineSet: set<Cell>)
    requires TrueOf(f, mineSet) && c !in mineSet
    ensures TrueOf(AfterSafe(f, c), mineSet)
    ensures c !in AfterSafe(f, c).0 && AfterSafe(AfterSafe(f, c), c) == AfterSafe(f, c)
  {
    assert (f.0 - {c}) * mineSet == f.0 * mineSet;
    assert f.0 - {c} - {c} == f.0 - {c};
  }

  /**
   * The inference `add_knowledge` draws from two sentences: when both are
   * true and the cells of `y` lie inside those of `x`, the cells of `x`
   * outside `y` hold the difference of the counts.
   */
  lemma SubsetInference(x: Fact, y: Fact, mineSet: set<Cell>)
    requires TrueOf(x, mineSet) && TrueOf(y, mineSet)
    requires y.0 <= x.0
    ensures TrueOf((x.0 - y.0, x.1 - y.1), mineSet)
  {
    assert x.0 * mineSet == (x.0 - y.0) * mineSet + y.0 * mineSet;
    DisjointCard((x.0 - y.0) * mineSet, y.0 * mineSet);
  }

  class Sentence {
    var cells: set<Cell>
    var count: int

    /** `__init__`: a sentence over (a copy of) `cells`. */
    constructor (cells: set<Cell>, count: int)
      ensures this.cells == cells && this.count == count
    {
      this.cells := cells;
      this.count := count;
    }

    /** The sentence's value; `__eq__` compares sentences by value, not by identity. */
    function Key(): Fact
      reads this
    {
      (cells, count)
    }

    /** `known_mines`: the cells themselves when all of them must be mines (see `KnownMinesAreMines`), `None` otherwise. */
    function KnownMines(): (r: Option<set<Cell>>)
      reads this
      ensures r.Some? <==> count == |cells|
      ensures r.Some? ==> r.value == cells
    {
      if count == |cells| then Some(cells) else None
    }

    /** `known_safes`: the cells themselves when none of them can be a mine (see `KnownSafesAreSafe`), `None` otherwise. */
    function KnownSafes(): (r: Option<set<Cell>>)
      reads this
      ensures r.Some? <==> count == 0
      ensures r.Some? ==> r.value == cells
    {
      if count == 0 then Some(cells) else None
    }

    /** `mark_mine`: a member cell leaves the sentence and the count drops by one; a non-member changes nothing. */
    method MarkMine(cell: Cell)
      modifies this
      ensures Key() == AfterMine(old(Key()), cell)
    {
      if cell in cells {
        cells := cells - {cell};
        count := count - 1;
      }
    }

    /** `mark_safe`: a member cell leaves the sentence and the count stays; a non-member changes nothing. */
    method MarkSafe(cell: Cell)
      modifies this
      ensures Key() == AfterSafe(old(Key()), cell)
    {
      if cell in cells {
        cells := cells - {cell};
      } else {
        assert cells - {cell} == cells;
      }
    }
  }
}
