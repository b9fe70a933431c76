/**
 * The Minesweeper agent: the cells it has played, the cells it knows to be
 * mines or safe, and a list of sentences it believes. Each method follows
 * the source's loops; `Sound(mineSet)` states that all of this knowledge is
 * true of a hidden set of mines, and `AddKnowledge` keeps it true whenever
 * the board reports a correct count.
 */
module MinesweeperAgent {
  import opened Wrappers
  import opened MinesweeperGame
  import opened Cardinality
  import opened MinesweeperSentence
  import opened KnowledgeLists

  /** The test `remove_no_cells` applies: the sentence has no cells left. */
  function NoCells(f: Fact): bool {
    f.0 == {}
  }

  /** Every sentence of `fs` is true of `mineSet`. */
  predicate AllTrue(fs: seq<Fact>, mineSet: set<Cell>) {
    forall f :: f in fs ==> TrueOf(f, mineSet)
  }

  /** The sentence is true of `mineSet` or has no cells left. */
  predicate TrueOrEmpty(f: Fact, mineSet: set<Cell>) {
    f.0 == {} || TrueOf(f, mineSet)
  }

  /** The sentences after the cells `cs` are marked safe in each of them. */
  function SafeMarked(fs: seq<Fact>, cs: set<Cell>): seq<Fact> {
    seq(|fs|, i requires 0 <= i < |fs| => (fs[i].0 - cs, fs[i].1))
  }

  /** The sentences after `c` is marked as a mine in each of them. */
  function MineMarked(fs: seq<Fact>, c: Cell): seq<Fact> {
    seq(|fs|, i requires 0 <= i < |fs| => AfterMine(fs[i], c))
  }

  /** Every sentence of `fs`, by position, is true of `mineSet` or has no cells left. */
  predicate AllTrueOrEmpty(fs: seq<Fact>, mineSet: set<Cell>) {
    forall i :: 0 <= i < |fs| ==> TrueOrEmpty(fs[i], mineSet)
  }

  /** Marking cells that are not mines keeps every sentence true, and every sentence true or empty. */
  lemma SafeMarkedKeepsTruth(fs: seq<Fact>, cs: set<Cell>, mineSet: set<Cell>)
    requires cs !! mineSet
    ensures AllTrue(fs, mineSet) ==> AllTrue(SafeMarked(fs, cs), mineSet)
    ensures AllTrueOrEmpty(fs, mineSet) ==> AllTrueOrEmpty(SafeMarked(fs, cs), mineSet)
  {
    var gs := SafeMarked(fs, cs);
    forall i | 0 <= i < |fs|
      ensures gs[i].0 * mineSet == fs[i].0 * mineSet && gs[i].1 == fs[i].1
      ensures fs[i].0 == {} ==> gs[i].0 == {}
    {
    }
    if AllTrue(fs, mineSet) {
      forall f | f in gs
        ensures TrueOf(f, mineSet)
      {
        var i :| 0 <= i < |gs| && gs[i] == f;
        assert fs[i] in fs;
      }
    }
  }

  /** Marking a mine keeps every sentence true, and every sentence true or empty. */
  lemma MineMarkedKeepsTruth(fs: seq<Fact>, c: Cell, mineSet: set<Cell>)
    requires c in mineSet
    ensures AllTrue(fs, mineSet) ==> AllTrue(MineMarked(fs, c), mineSet)
    ensures forall i :: 0 <= i < |fs| && TrueOrEmpty(fs[i], mineSet) ==> TrueOrEmpty(MineMarked(fs, c)[i], mineSet)
  {
    var gs := MineMarked(fs, c);
    forall i | 0 <= i < |fs| && TrueOf(fs[i], mineSet)
      ensures TrueOf(gs[i], mineSet)
    {
      AfterMineKeepsTruth(fs[i], c, mineSet);
    }
    forall i | 0 <= i < |fs| && fs[i].0 == {}
      ensures gs[i].0 == {}
    {
    }
    if AllTrue(fs, mineSet) {
      forall f | f in gs
        ensures TrueOf(f, mineSet)
      {
        var i :| 0 <= i < |gs| && gs[i] == f;
        assert fs[i] in fs;
      }
    }
  }

  /** Marking `a` and then `b` safe is marking `a + b` safe. */
  lemma SafeMarkedTwice(fs: seq<Fact>, a: set<Cell>, b: set<Cell>)
    ensures SafeMarked(SafeMarked(fs, a), b) == SafeMarked(fs, a + b)
  {
    forall i | 0 <= i < |fs|
      ensures SafeMarked(SafeMarked(fs, a), b)[i] == SafeMarked(fs, a + b)[i]
    {
      assert fs[i].0 - a - b == fs[i].0 - (a + b);
    }
  }

  /** Marking no cell changes nothing. */
  lemma SafeMarkedNothing(fs: seq<Fact>)
    ensures SafeMarked(fs, {}) == fs
  {
    forall i | 0 <= i < |fs|
      ensures SafeMarked(fs, {})[i] == fs[i]
    {
      assert fs[i].0 - {} == fs[i].0;
    }
  }

  /** A true sentence is true or empty. */
  lemma TrueIsTrueOrEmpty(fs: seq<Fact>, mineSet: set<Cell>)
    requires AllTrue(fs, mineSet)
    ensures AllTrueOrEmpty(fs, mineSet)
  {
    forall i | 0 <= i < |fs|
      ensures TrueOrEmpty(fs[i], mineSet)
    {
      assert fs[i] in fs;
    }
  }

  /** Dropping the sentences without cells from a list whose every sentence is true or empty leaves only true sentences. */
  lemma ClearedDropped(fs: seq<Fact>, mineSet: set<Cell>)
    requires AllTrueOrEmpty(fs, mineSet)
    ensures AllTrue(Filter(fs, NoCells, false), mineSet)
  {
    forall f | f in Filter(fs, NoCells, false)
      ensures TrueOf(f, mineSet)
    {
      var i :| 0 <= i < |fs| && fs[i] == f;
    }
  }

  /** The cells around `cell` that `add_knowledge` puts in its new sentence: in bounds, and neither known mines nor known safe. */
  function Unknown(cell: Cell, height: int, width: int, mines: set<Cell>, safes: set<Cell>): set<Cell> {
    Neighborhood(cell, height, width) - mines - safes
  }

  /** The reported count less one for each known mine among the eight cells around `cell`. */
  function Adjusted(cell: Cell, count: int, mines: set<Cell>): int {
    count - |Ring(cell) * mines|
  }

  lemma DifferenceCard<T>(a: set<T>, b: set<T>)
    requires b <= a
    ensures |a - b| == |a| - |b|
  {
    assert a == (a - b) + b;
    DisjointCard(a - b, b);
  }

  /**
   * The sentence `add_knowledge` builds from a correct report is true: when
   * the known mines and safes are right, the mine set lies on the board, and
   * `count` is the number of mines around `cell`, then exactly the adjusted
   * count of the unknown neighbours are mines.
   */
  lemma NeighbourSentenceTrue(cell: Cell, count: int, height: int, width: int,
                              mines: set<Cell>, safes: set<Cell>, mineSet: set<Cell>)
    requires mines <= mineSet && safes !! mineSet
    requires forall c :: c in mineSet ==> InBounds(c, height, width)
    requires count == |Neighborhood(cell, height, width) * mineSet|
    ensures TrueOf((Unknown(cell, height, width, mines, safes), Adjusted(cell, count, mines)), mineSet)
  {
    var near := Neighborhood(cell, height, width);
    KnownMinesNear(cell, height, width, mines);
    var unknown := Unknown(cell, height, width, mines, safes);
    forall x | x in near * mineSet
      ensures x in unknown * mineSet <==> x !in mines
    {
    }
    assert unknown * mineSet == near * mineSet - near * mines;
    DifferenceCard(near * mineSet, near * mines);
  }

  /** On the board, the known mines among the eight cells around `cell` are the known mines among its neighbours. */
  lemma KnownMinesNear(cell: Cell, height: int, width: int, mines: set<Cell>)
    requires forall c :: c in mines ==> InBounds(c, height, width)
    ensures Ring(cell) * mines == Neighborhood(cell, height, width) * mines
  {
    var near := Neighborhood(cell, height, width);
    forall x | x in Ring(cell) * mines
      ensures x in near
    {
      assert InBounds(x, height, width);
      assert x == (x.0, x.1);
    }
  }

  /** The sentence the subset rule draws from `x` and `y`, when it applies. */
  function InferStep(x: Fact, y: Fact): seq<Fact> {
    if x != y && y.0 <= x.0 then [(x.0 - y.0, x.1 - y.1)] else []
  }

  /** What the inner loop of the subset rule collects for one sentence `x` against the sentences `ys`. */
  function InferFor(x: Fact, ys: seq<Fact>): (r: seq<Fact>)
    ensures |r| <= |ys|
    decreases |ys|
  {
    if ys == [] then [] else InferFor(x, ys[..|ys| - 1]) + InferStep(x, ys[|ys| - 1])
  }

  /** `sentence_to_write`: the subset rule over every `x` of `xs` against every `y` of `ys`. */
  function Inferred(xs: seq<Fact>, ys: seq<Fact>): (r: seq<Fact>)
    ensures |r| <= |xs| * |ys|
    decreases |xs|
  {
    if xs == [] then []
    else
      assert (|xs| - 1) * |ys| + |ys| == |xs| * |ys|;
      Inferred(xs[..|xs| - 1], ys) + InferFor(xs[|xs| - 1], ys)
  }

  lemma {:induction false} InferForTrue(x: Fact, ys: seq<Fact>, mineSet: set<Cell>)
    requires TrueOf(x, mineSet) && AllTrue(ys, mineSet)
    ensures AllTrue(InferFor(x, ys), mineSet)
    decreases |ys|
  {
    if ys != [] {
      var y := ys[|ys| - 1];
      assert forall f :: f in ys[..|ys| - 1] ==> f in ys;
      InferForTrue(x, ys[..|ys| - 1], mineSet);
      if x != y && y.0 <= x.0 {
        assert y in ys;
        SubsetInference(x, y, mineSet);
      }
    }
  }

  /** Every sentence the subset rule draws from true sentences is true. */
  lemma {:induction false} InferredTrue(xs: seq<Fact>, ys: seq<Fact>, mineSet: set<Cell>)
    requires AllTrue(xs, mineSet) && AllTrue(ys, mineSet)
    ensures AllTrue(Inferred(xs, ys), mineSet)
    decreases |xs|
  {
    if xs != [] {
      assert forall f :: f in xs[..|xs| - 1] ==> f in xs;
      InferredTrue(xs[..|xs| - 1], ys, mineSet);
      assert xs[|xs| - 1] in xs;
      InferForTrue(xs[|xs| - 1], ys, mineSet);
    }
  }

  /** The subset rule: `y` is another sentence whose cells lie inside `x`'s, and `z` is their difference. */
  predicate Draws(x: Fact, y: Fact, z: Fact) {
    x != y && y.0 <= x.0 && z == (x.0 - y.0, x.1 - y.1)
  }

  /** The inner loop collects `z` for `x` iff some sentence of `ys` draws it with `x`. */
  lemma {:induction false} InferForMembers(x: Fact, ys: seq<Fact>)
    ensures forall z :: z in InferFor(x, ys) <==> exists y :: y in ys && Draws(x, y, z)
    decreases |ys|
  {
    if ys != [] {
      var front, last := ys[..|ys| - 1], ys[|ys| - 1];
      InferForMembers(x, front);
      forall z
        ensures z in InferFor(x, ys) <==> exists y :: y in ys && Draws(x, y, z)
      {
        assert InferFor(x, ys) == InferFor(x, front) + InferStep(x, last);
        assert z in InferStep(x, last) <==> Draws(x, last, z);
        assert last in ys;
        if z in InferFor(x, front) {
          var y :| y in front && Draws(x, y, z);
          assert y in ys;
        }
        if exists y :: y in ys && Draws(x, y, z) {
          var y :| y in ys && Draws(x, y, z);
          if y != last {
            assert y in front by {
              var i :| 0 <= i < |ys| && ys[i] == y;
              assert front[i] == y;
            }
          }
        }
      }
    }
  }

  /** `sentence_to_write` holds `z` iff some `x` of `xs` and some `y` of `ys` draw it. */
  lemma {:induction false} InferredMembers(xs: seq<Fact>, ys: seq<Fact>)
    ensures forall z :: z in Inferred(xs, ys) <==> exists x, y :: x in xs && y in ys && Draws(x, y, z)
    decreases |xs|
  {
    if xs != [] {
      var front, last := xs[..|xs| - 1], xs[|xs| - 1];
      InferredMembers(front, ys);
      InferForMembers(last, ys);
      forall z
        ensures z in Inferred(xs, ys) <==> exists x, y :: x in xs && y in ys && Draws(x, y, z)
      {
        if z in Inferred(front, ys) {
          var x, y :| x in front && y in ys && Draws(x, y, z);
          assert x in xs;
        }
        if z in InferFor(last, ys) {
          var y :| y in ys && Draws(last, y, z);
          assert last in xs;
        }
        if exists x, y :: x in xs && y in ys && Draws(x, y, z) {
          var x, y :| x in xs && y in ys && Draws(x, y, z);
          if x != last {
            assert x in front by {
              var i :| 0 <= i < |xs| && xs[i] == x;
              assert front[i] == x;
            }
          }
        }
      }
    }
  }

  /** The loops that build `sentence_to_write` (lines 295-307 of `add_knowledge`), over a copy of the knowledge. */
  method SubsetInferences(sentences: seq<Fact>) returns (toWrite: seq<Fact>)
    ensures toWrite == Inferred(sentences, sentences)
  {
    var allSentences := sentences;
    toWrite := [];
    for k := 0 to |sentences|
      invariant toWrite == Inferred(sentences[..k], allSentences)
    {
      var inferred := InferAgainst(sentences[k], allSentences);
      toWrite := toWrite + inferred;
      assert sentences[..k + 1][..k] == sentences[..k];
    }
    assert sentences[..|sentences|] == sentences;
  }

  /** The inner loop of the subset rule: what `x` yields against each `y` of `ys` in turn. */
  method InferAgainst(x: Fact, ys: seq<Fact>) returns (inferred: seq<Fact>)
    ensures inferred == InferFor(x, ys)
  {
    inferred := [];
    for j := 0 to |ys|
      invariant inferred == InferFor(x, ys[..j])
    {
      var y := ys[j];
      assert ys[..j + 1][..j] == ys[..j];
      if x != y && y.0 <= x.0 {
        inferred := inferred + [(x.0 - y.0, x.1 - y.1)];
      }
    }
    assert ys[..|ys|] == ys;
  }

  /**
   * One turn of lines 310-322 of `add_knowledge` on values: a sentence of
   * count zero marks its cells safe; any other joins the knowledge unless an
   * equal sentence is there already.
   */
  function WrittenOne(ks: seq<Fact>, safes: set<Cell>, z: Fact): (r: (seq<Fact>, set<Cell>))
    ensures safes <= r.1
    ensures z.1 == 0 ==> z.0 <= r.1 && forall i :: 0 <= i < |r.0| ==> r.0[i].0 !! z.0
    ensures z.1 != 0 ==> z in r.0 && r.1 == safes && forall f :: f in r.0 ==> f in ks || f == z
  {
    if z.1 == 0 then (SafeMarked(ks, z.0), safes + z.0)
    else if z in ks then (ks, safes)
    else (ks + [z], safes)
  }

  /**
   * Lines 309-322 of `add_knowledge` on values: each inferred sentence `z`
   * in turn either marks its cells safe (count zero) or is appended to the
   * knowledge unless an equal sentence is there already. The pair is the
   * resulting knowledge and set of safe cells.
   */
  function WriteInferred(ks: seq<Fact>, safes: set<Cell>, zs: seq<Fact>): (r: (seq<Fact>, set<Cell>))
    ensures safes <= r.1
    ensures forall z :: z in zs && z.1 == 0 ==> z.0 <= r.1
    decreases |zs|
  {
    if zs == [] then (ks, safes)
    else
      var (before, safesBefore) := WriteInferred(ks, safes, zs[..|zs| - 1]);
      WrittenOne(before, safesBefore, zs[|zs| - 1])
  }

  /** Writing one more inferred sentence is one more `WrittenOne` turn. */
  lemma WriteInferredSnoc(ks: seq<Fact>, safes: set<Cell>, zs: seq<Fact>, k: nat)
    requires k < |zs|
    ensures var (before, safesBefore) := WriteInferred(ks, safes, zs[..k]);
      WriteInferred(ks, safes, zs[..k + 1]) == WrittenOne(before, safesBefore, zs[k])
  {
    assert zs[..k + 1][..k] == zs[..k];
  }

  /**
   * The sentences after every cell of `cs` is marked as a mine in each of
   * them: a sentence loses those of its cells, and one from its count for
   * each cell it loses.
   */
  function MineSetMarked(fs: seq<Fact>, cs: set<Cell>): (r: seq<Fact>)
    ensures |r| == |fs|
  {
    seq(|fs|, i requires 0 <= i < |fs| => (fs[i].0 - cs, fs[i].1 - |fs[i].0 * cs|))
  }

  /** Marking mines keeps, in every sentence, the count of the cells that are not mines. */
  lemma MineSetMarkedBalance(fs: seq<Fact>, cs: set<Cell>)
    ensures forall i :: 0 <= i < |fs| ==>
      MineSetMarked(fs, cs)[i].0 <= fs[i].0 && MineSetMarked(fs, cs)[i].0 !! cs &&
      MineSetMarked(fs, cs)[i].1 - |MineSetMarked(fs, cs)[i].0| == fs[i].1 - |fs[i].0|
  {
    forall i | 0 <= i < |fs|
      ensures |fs[i].0 - cs| + |fs[i].0 * cs| == |fs[i].0|
    {
      assert fs[i].0 == (fs[i].0 - cs) + fs[i].0 * cs;
      DisjointCard(fs[i].0 - cs, fs[i].0 * cs);
    }
  }

  /** Marking one more mine `c` after the mines `cs` is marking `cs + {c}`; the sentence at `k` set aside holds neither. */
  lemma MineSetMarkedStep(fs: seq<Fact>, cs: set<Cell>, c: Cell, k: nat, rest: set<Cell>, n: int)
    requires c !in cs && c !in rest && k < |fs|
    ensures MineMarked(MineSetMarked(fs, cs)[k := (rest, n)], c) == MineSetMarked(fs, cs + {c})[k := (rest, n)]
  {
    var before := MineSetMarked(fs, cs)[k := (rest, n)];
    forall i | 0 <= i < |fs|
      ensures MineMarked(before, c)[i] == MineSetMarked(fs, cs + {c})[k := (rest, n)][i]
    {
      if i != k {
        MineSetMarkedOne(fs[i], cs, c);
      }
    }
  }

  /** `MineSetMarkedStep` for one sentence. */
  lemma MineSetMarkedOne(f: Fact, cs: set<Cell>, c: Cell)
    requires c !in cs
    ensures AfterMine((f.0 - cs, f.1 - |f.0 * cs|), c) == (f.0 - (cs + {c}), f.1 - |f.0 * (cs + {c})|)
  {
    if c in f.0 {
      assert f.0 * (cs + {c}) == f.0 * cs + {c};
      DisjointCard(f.0 * cs, {c});
      assert f.0 - cs - {c} == f.0 - (cs + {c});
    } else {
      assert f.0 * (cs + {c}) == f.0 * cs;
      assert f.0 - cs == f.0 - (cs + {c});
    }
  }

  /** Marking no mine changes nothing. */
  lemma MineSetMarkedNothing(fs: seq<Fact>, k: nat)
    requires k < |fs|
    ensures MineSetMarked(fs, {})[k := fs[k]] == fs
  {
    forall i | 0 <= i < |fs|
      ensures MineSetMarked(fs, {})[k := fs[k]][i] == fs[i]
    {
      assert fs[i].0 - {} == fs[i].0 && fs[i].0 * {} == {};
    }
  }

  /** Marking cells that are all mines keeps every sentence true or empty. */
  lemma MineSetMarkedKeepsTruth(fs: seq<Fact>, cs: set<Cell>, mineSet: set<Cell>)
    requires cs <= mineSet
    ensures forall i :: 0 <= i < |fs| && TrueOrEmpty(fs[i], mineSet) ==> TrueOrEmpty(MineSetMarked(fs, cs)[i], mineSet)
  {
    forall i | 0 <= i < |fs| && TrueOf(fs[i], mineSet)
      ensures TrueOf(MineSetMarked(fs, cs)[i], mineSet)
    {
      var f := fs[i];
      assert f.0 * mineSet == (f.0 - cs) * mineSet + f.0 * cs;
      DisjointCard((f.0 - cs) * mineSet, f.0 * cs);
    }
  }

  /** Popping `c` from the sentence at `k` before marking it safe everywhere changes nothing. */
  lemma SafeMarkedPopped(fs: seq<Fact>, k: nat, c: Cell)
    requires k < |fs|
    ensures SafeMarked(fs[k := (fs[k].0 - {c}, fs[k].1)], {c}) == SafeMarked(fs, {c})
  {
    assert fs[k].0 - {c} - {c} == fs[k].0 - {c};
  }

  /**
   * Lines 276-281 of `add_knowledge` on values, for the sentence at
   * position `k`: when its count is zero, each of its cells is marked safe
   * everywhere, the sentence itself included. The pair is the resulting
   * knowledge and set of safe cells.
   */
  function SafesConcluded(ks: seq<Fact>, safes: set<Cell>, k: nat): (r: (seq<Fact>, set<Cell>))
    requires k < |ks|
    ensures |r.0| == |ks| && safes <= r.1
    ensures forall i :: 0 <= i < |ks| ==> r.0[i].0 <= ks[i].0 && r.0[i].1 == ks[i].1
    ensures ks[k].1 == 0 ==> ks[k].0 <= r.1 && forall i :: 0 <= i < |ks| ==> r.0[i].0 !! ks[k].0
  {
    if ks[k].1 == 0 then (SafeMarked(ks, ks[k].0), safes + ks[k].0) else (ks, safes)
  }

  /**
   * Lines 282-288 of `add_knowledge` on values, for the sentence at
   * position `k`: when its count equals its number of cells, each of its
   * cells is marked a mine everywhere. The set `known_mines` returns is the
   * sentence's own, so each cell leaves it before `mark_mine` could take
   * one off its count: the sentence ends empty with its count kept. The pair
   * is the resulting knowledge and set of mines.
   */
  function MinesConcluded(ks: seq<Fact>, mines: set<Cell>, k: nat): (r: (seq<Fact>, set<Cell>))
    requires k < |ks|
    ensures |r.0| == |ks| && mines <= r.1 && r.0[k].1 == ks[k].1
    ensures forall i :: 0 <= i < |ks| ==> r.0[i].0 <= ks[i].0
    ensures ks[k].1 == |ks[k].0| ==> ks[k].0 <= r.1 && forall i :: 0 <= i < |ks| ==> r.0[i].0 !! ks[k].0
  {
    var cs := ks[k].0;
    if ks[k].1 == |cs| then (MineSetMarked(ks, cs)[k := ({}, ks[k].1)], mines + cs) else (ks, mines)
  }

  /** One turn of the loop of lines 274-288: the safes, then the mines, the sentence at `k` yields. */
  function ConcludedAt(ks: seq<Fact>, safes: set<Cell>, mines: set<Cell>, k: nat): (r: (seq<Fact>, set<Cell>, set<Cell>))
    requires k < |ks|
    ensures |r.0| == |ks| && safes <= r.1 && mines <= r.2
  {
    var (ks', safes') := SafesConcluded(ks, safes, k);
    var (ks'', mines') := MinesConcluded(ks', mines, k);
    (ks'', safes', mines')
  }

  /** Lines 274-288 of `add_knowledge` on values: the first `n` turns of the loop. */
  function Concluded(ks: seq<Fact>, safes: set<Cell>, mines: set<Cell>, n: nat): (r: (seq<Fact>, set<Cell>, set<Cell>))
    requires n <= |ks|
    ensures |r.0| == |ks| && safes <= r.1 && mines <= r.2
    decreases n
  {
    if n == 0 then (ks, safes, mines)
    else
      var (ks', safes', mines') := Concluded(ks, safes, mines, n - 1);
      ConcludedAt(ks', safes', mines', n - 1)
  }

  /** The safes a sentence of count zero yields are not mines, and what is left is true or empty. */
  lemma SafesConcludedKeepsTruth(ks: seq<Fact>, safes: set<Cell>, k: nat, mineSet: set<Cell>)
    requires k < |ks| && safes !! mineSet && AllTrueOrEmpty(ks, mineSet)
    ensures SafesConcluded(ks, safes, k).1 !! mineSet && AllTrueOrEmpty(SafesConcluded(ks, safes, k).0, mineSet)
  {
    if ks[k].1 == 0 {
      if ks[k].0 != {} {
        KnownSafesAreSafe(ks[k], mineSet);
      }
      SafeMarkedKeepsTruth(ks, ks[k].0, mineSet);
    }
  }

  /** The mines a sentence as large as its count yields are mines, and what is left is true or empty. */
  lemma MinesConcludedKeepsTruth(ks: seq<Fact>, mines: set<Cell>, k: nat, mineSet: set<Cell>)
    requires k < |ks| && mines <= mineSet && AllTrueOrEmpty(ks, mineSet)
    ensures MinesConcluded(ks, mines, k).1 <= mineSet && AllTrueOrEmpty(MinesConcluded(ks, mines, k).0, mineSet)
  {
    var cs := ks[k].0;
    if ks[k].1 == |cs| {
      if cs != {} {
        KnownMinesAreMines(ks[k], mineSet);
      }
      MineSetMarkedKeepsTruth(ks, cs, mineSet);
    }
  }

  /**
   * Lines 291-292 of `add_knowledge` on values: `remove_no_cells`, then
   * `remove_equal_sentences`. The pair is whether no removal raised, and
   * the knowledge as the removals leave it.
   */
  function Pruned(ks: seq<Fact>): (r: (bool, seq<Fact>))
    ensures r.0 <==> forall f :: multiset(Filter(ks, NoCells, false))[f] <= 3
    ensures forall f :: f in r.1 ==> f in ks && f.0 != {}
  {
    var kept := Filter(ks, NoCells, false);
    var pairs := EqualPairs(kept);
    PrunedOutcome(ks);
    (RemoveEach(kept, pairs).Some?, RemovedSoFar(kept, pairs))
  }

  /** What the two removals of `Pruned` leave, stated on the removal lists themselves. */
  lemma PrunedOutcome(ks: seq<Fact>)
    ensures var kept := Filter(ks, NoCells, false);
      RemoveEach(kept, EqualPairs(kept)).Some? <==> forall f :: multiset(kept)[f] <= 3
    ensures var kept := Filter(ks, NoCells, false);
      forall f :: f in RemovedSoFar(kept, EqualPairs(kept)) ==> f in ks && f.0 != {}
  {
    var kept := Filter(ks, NoCells, false);
    RemoveEqualOutcome(kept);
    RemovedSoFarKeeps(kept, EqualPairs(kept));
  }

  /**
   * Lines 239-271 of `add_knowledge` on values: with the count adjusted to
   * zero, every unknown neighbour is marked safe; otherwise the sentence
   * over the unknown neighbours is appended unless it is there already.
   */
  function NeighbourAdded(ks: seq<Fact>, safes: set<Cell>, mines: set<Cell>, cell: Cell, count: int, height: int, width: int)
    : (r: (seq<Fact>, set<Cell>))
    ensures safes <= r.1
    ensures Adjusted(cell, count, mines) != 0 ==> (Unknown(cell, height, width, mines, safes), Adjusted(cell, count, mines)) in r.0
  {
    var newCells := Unknown(cell, height, width, mines, safes);
    var n := Adjusted(cell, count, mines);
    if n == 0 then (SafeMarked(ks, newCells), safes + newCells)
    else if (newCells, n) in ks then (ks, safes)
    else (ks + [(newCells, n)], safes)
  }

  /**
   * `add_knowledge` on values, from the knowledge, safe cells and mines
   * before: whether it ran to the end without a `ValueError`, and the
   * knowledge, safe cells and mines after. A raise stops it after the
   * first pruning.
   */
  function Added(ks: seq<Fact>, safes: set<Cell>, mines: set<Cell>, cell: Cell, count: int, height: int, width: int)
    : (r: (bool, seq<Fact>, set<Cell>, set<Cell>))
    ensures cell in r.2 && safes <= r.2 && mines <= r.3
    ensures forall f :: f in r.1 ==> f.0 != {}
  {
    var (ks1, safes1) := NeighbourAdded(SafeMarked(ks, {cell}), safes + {cell}, mines, cell, count, height, width);
    Settled(ks1, safes1, mines)
  }

  /**
   * Lines 273-327 of `add_knowledge` on values: the conclusions of every
   * sentence, a pruning, the subset rule and a second pruning; a pruning
   * that raises ends it with `false`.
   */
  function Settled(ks: seq<Fact>, safes: set<Cell>, mines: set<Cell>): (r: (bool, seq<Fact>, set<Cell>, set<Cell>))
    ensures safes <= r.2 && mines <= r.3
    ensures forall f :: f in r.1 ==> f.0 != {}
  {
    var (ks1, safes1, mines1) := Concluded(ks, safes, mines, |ks|);
    var (ok, ks2) := Pruned(ks1);
    if !ok then (false, ks2, safes1, mines1)
    else
      var (ks3, safes3) := WriteInferred(ks2, safes1, Inferred(ks2, ks2));
      var (ok', ks4) := Pruned(ks3);
      (ok', ks4, safes3, mines1)
  }

  /**
   * The scan of `add_knowledge` passes the 3 by 3 block around `cell` row by
   * row: before the first cell it has kept nothing and counted nothing, and
   * after the last row it has passed every cell it keeps and every known
   * mine it counts.
   */
  lemma ScanBounds(cell: Cell, height: int, width: int, mines: set<Cell>, safes: set<Cell>)
    ensures Before(Unknown(cell, height, width, mines, safes), cell.0 - 1, cell.1 - 1) == {}
    ensures Before(Ring(cell) * mines, cell.0 - 1, cell.1 - 1) == {}
    ensures Before(Unknown(cell, height, width, mines, safes), cell.0 + 2, cell.1 - 1) == Unknown(cell, height, width, mines, safes)
    ensures Before(Ring(cell) * mines, cell.0 + 2, cell.1 - 1) == Ring(cell) * mines
  {
    var target := Unknown(cell, height, width, mines, safes);
    var ringMines := Ring(cell) * mines;
    assert forall x :: x in target ==> cell.0 - 1 <= x.0 <= cell.0 + 1 && cell.1 - 1 <= x.1 <= cell.1 + 1;
    assert forall x :: x in ringMines ==> cell.0 - 1 <= x.0 <= cell.0 + 1 && cell.1 - 1 <= x.1 <= cell.1 + 1;
    BeforeEnd(target, cell);
    BeforeEnd(ringMines, cell);
  }

  /** Within the scan, the end of row `i` is the start of row `i + 1`. */
  lemma ScanNextRow(cell: Cell, i: int, height: int, width: int, mines: set<Cell>, safes: set<Cell>)
    ensures Before(Unknown(cell, height, width, mines, safes), i, cell.1 + 2) ==
            Before(Unknown(cell, height, width, mines, safes), i + 1, cell.1 - 1)
    ensures Before(Ring(cell) * mines, i, cell.1 + 2) == Before(Ring(cell) * mines, i + 1, cell.1 - 1)
  {
    var target := Unknown(cell, height, width, mines, safes);
    var ringMines := Ring(cell) * mines;
    assert forall x :: x in target ==> cell.1 - 1 <= x.1 <= cell.1 + 1;
    assert forall x :: x in ringMines ==> cell.1 - 1 <= x.1 <= cell.1 + 1;
    BeforeNextRow(target, cell, i);
    BeforeNextRow(ringMines, cell, i);
  }

  /** One cell of the scan: it joins the kept cells, or is counted as a known mine, exactly as the scan's branches decide. */
  lemma ScanStep(cell: Cell, i: int, j: int, height: int, width: int, mines: set<Cell>, safes: set<Cell>)
    requires cell.0 - 1 <= i <= cell.0 + 1 && cell.1 - 1 <= j <= cell.1 + 1
    ensures Before(Unknown(cell, height, width, mines, safes), i, j + 1) ==
      Before(Unknown(cell, height, width, mines, safes), i, j) +
      (if (i, j) != cell && (i, j) !in mines && (i, j) !in safes && 0 <= i < height && 0 <= j < width then {(i, j)} else {})
    ensures |Before(Ring(cell) * mines, i, j + 1)| ==
      |Before(Ring(cell) * mines, i, j)| + (if (i, j) != cell && (i, j) in mines then 1 else 0)
  {
    var target := Unknown(cell, height, width, mines, safes);
    BeforeStep(target, i, j);
    assert (i, j) in target <==> (i, j) != cell && (i, j) !in mines && (i, j) !in safes && 0 <= i < height && 0 <= j < width;
    BeforeStep(Ring(cell) * mines, i, j);
    assert (i, j) in Ring(cell) <==> (i, j) != cell;
  }

  class MinesweeperAI {
    var height: int
    var width: int
    var movesMade: set<Cell>
    var mines: set<Cell>
    var safes: set<Cell>
    /** The sentences in order, each held as its value (see `Sentence.Key`). */
    var knowledge: seq<Fact>

    /** Everything the agent knows is true of `mineSet`. */
    ghost predicate Sound(mineSet: set<Cell>)
      reads this
    {
      mines <= mineSet && safes !! mineSet && AllTrue(knowledge, mineSet)
    }

    /** As `Sound`, except that sentences whose cells have all been taken out may hold any count. */
    ghost predicate SoundOrCleared(mineSet: set<Cell>)
      reads this
    {
      mines <= mineSet && safes !! mineSet && AllTrueOrEmpty(knowledge, mineSet)
    }

    /** `__init__`: nothing played, nothing known; an empty knowledge base is true of any mine set. */
    constructor (height: int, width: int)
      ensures this.height == height && this.width == width
      ensures movesMade == {} && mines == {} && safes == {} && knowledge == []
      ensures forall mineSet :: Sound(mineSet)
    {
      this.height := height;
      this.width := width;
      movesMade := {};
      mines := {};
      safes := {};
      knowledge := [];
    }

    /** `mark_mine`: records `cell` as a mine and applies `Sentence.MarkMine` to every sentence. */
    method MarkMine(cell: Cell)
      modifies this
      ensures mines == old(mines) + {cell} && knowledge == MineMarked(old(knowledge), cell)
      ensures forall f :: f in knowledge ==> cell !in f.0
      ensures safes == old(safes) && movesMade == old(movesMade)
      ensures height == old(height) && width == old(width)
    {
      mines := mines + {cell};
      var sentences := knowledge;
      for k := 0 to |sentences|
        modifies {}
        invariant |sentences| == |knowledge|
        invariant forall i :: 0 <= i < k ==> sentences[i] == AfterMine(knowledge[i], cell)
        invariant forall i :: k <= i < |sentences| ==> sentences[i] == knowledge[i]
      {
        sentences := sentences[k := AfterMine(sentences[k], cell)];
      }
      knowledge := sentences;
    }

    /** `mark_safe`: records `cell` as safe and applies `Sentence.MarkSafe` to every sentence. */
    method MarkSafe(cell: Cell)
      modifies this
      ensures safes == old(safes) + {cell} && knowledge == SafeMarked(old(knowledge), {cell})
      ensures forall f :: f in knowledge ==> cell !in f.0
      ensures mines == old(mines) && movesMade == old(movesMade)
      ensures height == old(height) && width == old(width)
    {
      safes := safes + {cell};
      var sentences := knowledge;
      for k := 0 to |sentences|
        modifies {}
        invariant |sentences| == |knowledge|
        invariant forall i :: 0 <= i < k ==> sentences[i] == AfterSafe(knowledge[i], cell)
        invariant forall i :: k <= i < |sentences| ==> sentences[i] == knowledge[i]
      {
        sentences := sentences[k := AfterSafe(sentences[k], cell)];
      }
      knowledge := sentences;
    }

    /**
     * `remove_no_cells`: collects the sentences without cells, then removes
     * each with `list.remove`. No removal raises, and what is left is
     * exactly the sentences that still have cells, in their order.
     */
    method RemoveNoCells()
      modifies this
      ensures knowledge == Filter(old(knowledge), NoCells, false)
      ensures forall f :: f in knowledge ==> f.0 != {}
      ensures movesMade == old(movesMade) && mines == old(mines) && safes == old(safes)
      ensures height == old(height) && width == old(width)
    {
      var toRemove := Collect(knowledge, NoCells);
      RemoveEachMatching(knowledge, NoCells);
      if |toRemove| > 0 {
        var _, left := RemoveAll(knowledge, toRemove);
        knowledge := left;
      }
    }

    /**
     * `remove_equal_sentences` as written: pops sentences from the end of a
     * copy of the list, collects every remaining sentence equal to the one
     * popped, then removes each collected sentence with `list.remove`.
     * `false` where a removal raises `ValueError`: exactly when some sentence
     * occurs four times or more; the removals before that one have been
     * made. Otherwise a sentence that occurred once or twice is left once
     * and one that occurred three times is gone.
     */
    method RemoveEqualSentences() returns (ok: bool)
      modifies this
      ensures ok <==> forall f :: multiset(old(knowledge))[f] <= 3
      ensures ok ==> forall f :: (multiset(knowledge)[f] ==
        if multiset(old(knowledge))[f] == 1 || multiset(old(knowledge))[f] == 2 then 1 else 0)
      ensures ok ==> Some(knowledge) == RemoveEach(old(knowledge), EqualPairs(old(knowledge)))
      ensures knowledge == RemovedSoFar(old(knowledge), EqualPairs(old(knowledge)))
      ensures forall f :: f in knowledge ==> f in old(knowledge)
      ensures movesMade == old(movesMade) && mines == old(mines) && safes == old(safes)
      ensures height == old(height) && width == old(width)
    {
      var toRemove := EqualCopies(knowledge);
      RemoveEqualOutcome(knowledge);
      RemovedSoFarKeeps(knowledge, toRemove);
      ok := true;
      var left := knowledge;
      if |toRemove| > 0 {
        ok, left := RemoveAll(knowledge, toRemove);
      }
      knowledge := left;
    }

    /**
     * Lines 239-257 of `add_knowledge`: scans the 3 by 3 block around `cell`,
     * keeping the in-bounds cells not known to be mines or safe and taking one
     * off the count for each known mine. Nothing changes.
     */
    method NeighbourCells(cell: Cell, count: int) returns (newSet: set<Cell>, mineCount: int)
      ensures newSet == Unknown(cell, height, width, mines, safes)
      ensures mineCount == Adjusted(cell, count, mines)
    {
      ScanBounds(cell, height, width, mines, safes);
      newSet := {};
      mineCount := count;
      for i := cell.0 - 1 to cell.0 + 2
        invariant newSet == Before(Unknown(cell, height, width, mines, safes), i, cell.1 - 1)
        invariant mineCount == count - |Before(Ring(cell) * mines, i, cell.1 - 1)|
      {
        newSet, mineCount := ScanRow(cell, count, i, newSet, mineCount);
        ScanNextRow(cell, i, height, width, mines, safes);
      }
    }

    /** One row of the scan in `NeighbourCells`: the inner loop, from the row's first cell to its last. */
    method ScanRow(cell: Cell, count: int, i: int, kept: set<Cell>, counted: int) returns (newSet: set<Cell>, mineCount: int)
      requires cell.0 - 1 <= i <= cell.0 + 1
      requires kept == Before(Unknown(cell, height, width, mines, safes), i, cell.1 - 1)
      requires counted == count - |Before(Ring(cell) * mines, i, cell.1 - 1)|
      ensures newSet == Before(Unknown(cell, height, width, mines, safes), i, cell.1 + 2)
      ensures mineCount == count - |Before(Ring(cell) * mines, i, cell.1 + 2)|
    {
      newSet, mineCount := kept, counted;
      for j := cell.1 - 1 to cell.1 + 2
        invariant newSet == Before(Unknown(cell, height, width, mines, safes), i, j)
        invariant mineCount == count - |Before(Ring(cell) * mines, i, j)|
      {
        ScanStep(cell, i, j, height, width, mines, safes);
        if (i, j) == cell {
        } else if (i, j) in mines {
          mineCount := mineCount - 1;
        } else if (i, j) in safes {
        } else if 0 <= i < height && 0 <= j < width {
          newSet := newSet + {(i, j)};
        }
      }
    }

    /**
     * Lines 239-271 of `add_knowledge`: with count zero every unknown
     * neighbour is marked safe; otherwise the sentence over the unknown
     * neighbours joins the knowledge unless an equal one is there already.
     */
    method AddNeighbourSentence(cell: Cell, count: int, ghost mineSet: set<Cell>)
      modifies this
      ensures height == old(height) && width == old(width)
      ensures movesMade == old(movesMade) && mines == old(mines) && old(safes) <= safes
      ensures Adjusted(cell, count, mines) == 0 ==>
        var newCells := Unknown(cell, height, width, mines, old(safes));
        safes == old(safes) + newCells && knowledge == SafeMarked(old(knowledge), newCells)
      ensures (knowledge, safes) == NeighbourAdded(old(knowledge), old(safes), mines, cell, count, height, width)
      ensures Adjusted(cell, count, mines) != 0 ==>
        var fact := (Unknown(cell, height, width, mines, safes), Adjusted(cell, count, mines));
        safes == old(safes) &&
        knowledge == if fact in old(knowledge) then old(knowledge) else old(knowledge) + [fact]
      ensures (old(Sound(mineSet)) && (forall c :: c in mineSet ==> InBounds(c, height, width)) &&
        count == |Neighborhood(cell, height, width) * mineSet|) ==> Sound(mineSet)
    {
      ghost var premise := Sound(mineSet) && (forall c :: c in mineSet ==> InBounds(c, height, width)) &&
        count == |Neighborhood(cell, height, width) * mineSet|;
      var newSet, mineCount := NeighbourCells(cell, count);
      if premise {
        NeighbourSentenceTrue(cell, count, height, width, mines, safes, mineSet);
      }
      if mineCount == 0 {
        if premise {
          KnownSafesAreSafe((newSet, mineCount), mineSet);
        }
        MarkSafeEach(newSet, mineSet);
      } else {
        var newSentence := (newSet, mineCount);
        var alreadyExists := Occurs(knowledge, newSentence);
        if !alreadyExists {
          knowledge := knowledge + [newSentence];
        }
      }
    }

    /** `for each_cell in cells: self.mark_safe(each_cell)`, in whatever order the set yields its cells. */
    method MarkSafeEach(cells: set<Cell>, ghost mineSet: set<Cell>)
      modifies this
      ensures safes == old(safes) + cells && knowledge == SafeMarked(old(knowledge), cells)
      ensures mines == old(mines) && movesMade == old(movesMade)
      ensures height == old(height) && width == old(width)
      ensures (old(Sound(mineSet)) && cells !! mineSet) ==> Sound(mineSet)
    {
      ghost var sound := Sound(mineSet) && cells !! mineSet;
      var todo := cells;
      SafeMarkedNothing(knowledge);
      assert cells - todo == {};
      while todo != {}
        invariant todo <= cells
        invariant height == old(height) && width == old(width)
        invariant movesMade == old(movesMade) && mines == old(mines)
        invariant safes == old(safes) + (cells - todo)
        invariant knowledge == SafeMarked(old(knowledge), cells - todo)
        invariant sound ==> Sound(mineSet)
        decreases todo
      {
        var c :| c in todo;
        ghost var current := knowledge;
        MarkSafe(c);
        if sound {
          SafeMarkedKeepsTruth(current, {c}, mineSet);
        }
        SafeMarkedTwice(old(knowledge), cells - todo, {c});
        assert (cells - todo) + {c} == cells - (todo - {c});
        todo := todo - {c};
      }
      assert cells - todo == cells;
    }

    /**
     * One pass of lines 274-288 of `add_knowledge` over the sentence at
     * position `k`: its known safes become safe, then its known mines become
     * mines. The set `known_safes` and `known_mines` return is the
     * sentence's own set of cells, so each pop takes the cell out of the
     * sentence itself; a sentence found to be all mines therefore loses its
     * cells but keeps its count.
     */
    method ConcludeFrom(k: nat, ghost mineSet: set<Cell>)
      requires k < |knowledge|
      modifies this
      ensures (knowledge, safes, mines) == ConcludedAt(old(knowledge), old(safes), old(mines), k)
      ensures |knowledge| == |old(knowledge)|
      ensures height == old(height) && width == old(width) && movesMade == old(movesMade)
      ensures old(mines) <= mines && old(safes) <= safes
      ensures old(knowledge[k].1) == 0 ==> knowledge[k].0 == {} && old(knowledge[k].0) <= safes
      ensures old(knowledge[k].1) == |old(knowledge[k].0)| ==> knowledge[k].0 == {} && old(knowledge[k].0) <= mines
      ensures old(SoundOrCleared(mineSet)) ==> SoundOrCleared(mineSet)
    {
      ConcludeSafes(k, mineSet);
      ConcludeMines(k, mineSet);
    }

    /** Lines 276-281 of `add_knowledge` for the sentence at position `k`. */
    method ConcludeSafes(k: nat, ghost mineSet: set<Cell>)
      requires k < |knowledge|
      modifies this
      ensures (knowledge, safes) == SafesConcluded(old(knowledge), old(safes), k)
      ensures |knowledge| == |old(knowledge)| && knowledge[k].1 == old(knowledge[k].1)
      ensures height == old(height) && width == old(width) && movesMade == old(movesMade)
      ensures mines == old(mines) && old(safes) <= safes
      ensures old(knowledge[k].1) == 0 ==> knowledge[k].0 == {} && old(knowledge[k].0) <= safes
      ensures old(knowledge[k].1) != 0 ==> knowledge == old(knowledge) && safes == old(safes)
      ensures old(SoundOrCleared(mineSet)) ==> SoundOrCleared(mineSet)
    {
      if SoundOrCleared(mineSet) {
        SafesConcludedKeepsTruth(knowledge, safes, k, mineSet);
      }
      var knownSafes := if knowledge[k].1 == 0 then Some(knowledge[k].0) else None;
      if knownSafes.Some? {
        PopSafes(k, |knownSafes.value|);
      }
    }

    /**
     * The inner loop of lines 278-281: `count` times, pops a cell from the
     * sentence at `k` and marks it safe everywhere; with `count` its size,
     * every cell of the sentence ends safe.
     */
    method PopSafes(k: nat, count: nat)
      requires k < |knowledge| && count == |knowledge[k].0|
      modifies this
      ensures knowledge == SafeMarked(old(knowledge), old(knowledge[k].0))
      ensures safes == old(safes) + old(knowledge[k].0)
      ensures height == old(height) && width == old(width) && movesMade == old(movesMade) && mines == old(mines)
    {
      ghost var start, startSafes := knowledge, safes;
      ghost var initial := knowledge[k].0;
      ghost var done: set<Cell> := {};
      SafeMarkedNothing(start);
      for j := 0 to count
        invariant height == old(height) && width == old(width) && movesMade == old(movesMade)
        invariant mines == old(mines)
        invariant done <= initial && |done| == j
        invariant knowledge == SafeMarked(start, done) && safes == startSafes + done
      {
        assert knowledge[k].0 != {};
        var c :| c in knowledge[k].0;
        ghost var current := knowledge;
        knowledge := knowledge[k := (knowledge[k].0 - {c}, knowledge[k].1)];
        MarkSafe(c);
        SafeMarkedPopped(current, k, c);
        SafeMarkedTwice(start, done, {c});
        DisjointCard(done, {c});
        done := done + {c};
      }
      SubsetSameSize(done, initial);
    }

    /** Lines 282-288 of `add_knowledge` for the sentence at position `k`. */
    method ConcludeMines(k: nat, ghost mineSet: set<Cell>)
      requires k < |knowledge|
      modifies this
      ensures (knowledge, mines) == MinesConcluded(old(knowledge), old(mines), k)
      ensures |knowledge| == |old(knowledge)| && knowledge[k].1 == old(knowledge[k].1)
      ensures height == old(height) && width == old(width) && movesMade == old(movesMade)
      ensures old(mines) <= mines && safes == old(safes)
      ensures old(knowledge[k].1) == |old(knowledge[k].0)| ==> knowledge[k].0 == {} && old(knowledge[k].0) <= mines
      ensures old(knowledge[k].1) != |old(knowledge[k].0)| ==> knowledge == old(knowledge) && mines == old(mines)
      ensures old(SoundOrCleared(mineSet)) ==> SoundOrCleared(mineSet)
    {
      if SoundOrCleared(mineSet) {
        MinesConcludedKeepsTruth(knowledge, mines, k, mineSet);
      }
      var knownMines := if knowledge[k].1 == |knowledge[k].0| then Some(knowledge[k].0) else None;
      if knownMines.Some? {
        PopMines(k, |knownMines.value|);
      }
    }

    /**
     * The inner loop of lines 284-288: `count` times, pops a cell from the
     * sentence at `k` and marks it a mine everywhere. The popped cell has
     * already left the sentence when `mark_mine` reaches it, so with
     * `count` its size the sentence ends empty with its count kept, and
     * every other sentence has all its cells marked as mines.
     */
    method PopMines(k: nat, count: nat)
      requires k < |knowledge| && count == |knowledge[k].0|
      modifies this
      ensures knowledge == MineSetMarked(old(knowledge), old(knowledge[k].0))[k := ({}, old(knowledge[k].1))]
      ensures mines == old(mines) + old(knowledge[k].0)
      ensures height == old(height) && width == old(width) && movesMade == old(movesMade) && safes == old(safes)
    {
      ghost var start, startMines := knowledge, mines;
      ghost var initial, n := knowledge[k].0, knowledge[k].1;
      ghost var done: set<Cell> := {};
      MineSetMarkedNothing(start, k);
      assert initial - done == initial;
      for j := 0 to count
        invariant height == old(height) && width == old(width) && movesMade == old(movesMade)
        invariant safes == old(safes)
        invariant done <= initial && |done| == j
        invariant knowledge == MineSetMarked(start, done)[k := (initial - done, n)]
        invariant mines == startMines + done
      {
        assert knowledge[k].0 != {};
        var c := PopMine(k);
        DisjointCard(done, {c});
        assert initial - (done + {c}) == (initial - done) - {c};
        MineSetMarkedStep(start, done, c, k, initial - (done + {c}), n);
        done := done + {c};
      }
      SubsetSameSize(done, initial);
    }

    /**
     * One turn of the inner loop of lines 284-288: a cell popped from the
     * sentence at `k` is marked a mine in every sentence and joins `mines`.
     */
    method PopMine(k: nat) returns (c: Cell)
      requires k < |knowledge| && knowledge[k].0 != {}
      modifies this
      ensures c in old(knowledge[k].0)
      ensures knowledge == MineMarked(old(knowledge)[k := (old(knowledge[k].0) - {c}, old(knowledge[k].1))], c)
      ensures mines == old(mines) + {c}
      ensures height == old(height) && width == old(width) && movesMade == old(movesMade) && safes == old(safes)
    {
      c :| c in knowledge[k].0;
      knowledge := knowledge[k := (knowledge[k].0 - {c}, knowledge[k].1)];
      MarkMine(c);
    }

    /** Lines 274-288 of `add_knowledge`: draws the conclusions of every sentence in turn. */
    method MarkConcludedCells(ghost mineSet: set<Cell>)
      modifies this
      ensures (knowledge, safes, mines) == Concluded(old(knowledge), old(safes), old(mines), |old(knowledge)|)
      ensures |knowledge| == |old(knowledge)|
      ensures height == old(height) && width == old(width) && movesMade == old(movesMade)
      ensures old(mines) <= mines && old(safes) <= safes
      ensures old(SoundOrCleared(mineSet)) ==> SoundOrCleared(mineSet)
    {
      for k := 0 to |knowledge|
        invariant (knowledge, safes, mines) == Concluded(old(knowledge), old(safes), old(mines), k)
        invariant |knowledge| == |old(knowledge)|
        invariant height == old(height) && width == old(width) && movesMade == old(movesMade)
        invariant old(mines) <= mines && old(safes) <= safes
        invariant old(SoundOrCleared(mineSet)) ==> SoundOrCleared(mineSet)
      {
        ConcludeFrom(k, mineSet);
      }
    }

    /**
     * Lines 295-324 of `add_knowledge`: each sentence the subset rule draws
     * either marks its cells safe (count zero) or joins the knowledge unless
     * an equal sentence is already there.
     */
    method InferFromSubsets(ghost mineSet: set<Cell>)
      modifies this
      ensures height == old(height) && width == old(width)
      ensures movesMade == old(movesMade) && mines == old(mines) && old(safes) <= safes
      ensures (knowledge, safes) == WriteInferred(old(knowledge), old(safes), Inferred(old(knowledge), old(knowledge)))
      ensures old(Sound(mineSet)) ==> Sound(mineSet)
    {
      ghost var sound := Sound(mineSet);
      var toWrite := SubsetInferences(knowledge);
      if sound {
        InferredTrue(knowledge, knowledge, mineSet);
      }
      for k := 0 to |toWrite|
        invariant height == old(height) && width == old(width)
        invariant movesMade == old(movesMade) && mines == old(mines) && old(safes) <= safes
        invariant (knowledge, safes) == WriteInferred(old(knowledge), old(safes), toWrite[..k])
        invariant sound ==> Sound(mineSet)
      {
        WriteInferredSnoc(old(knowledge), old(safes), toWrite, k);
        if sound {
          assert toWrite[k] in toWrite;
        }
        WriteOne(toWrite[k], mineSet);
      }
      assert toWrite[..|toWrite|] == toWrite;
    }

    /** One turn of the loop of lines 310-322: the knowledge and safes become `WrittenOne` of the old ones. */
    method WriteOne(z: Fact, ghost mineSet: set<Cell>)
      modifies this
      ensures height == old(height) && width == old(width)
      ensures movesMade == old(movesMade) && mines == old(mines)
      ensures (knowledge, safes) == WrittenOne(old(knowledge), old(safes), z)
      ensures old(Sound(mineSet)) && TrueOf(z, mineSet) ==> Sound(mineSet)
    {
      ghost var sound := Sound(mineSet) && TrueOf(z, mineSet);
      if z.1 == 0 {
        if sound {
          KnownSafesAreSafe(z, mineSet);
        }
        MarkSafeEach(z.0, mineSet);
      } else {
        var alreadyExists := Occurs(knowledge, z);
        if !alreadyExists {
          knowledge := knowledge + [z];
        }
      }
    }

    /**
     * `add_knowledge`: records `cell` as played and safe, adds what the
     * report `count` says about its neighbours, draws conclusions, prunes,
     * applies the subset rule and prunes again. `false` where a pruning
     * step raises `ValueError`; the work done up to that point, the
     * removals before the failing one included, stays.
     * When everything known was true of `mineSet`, `cell` is not a mine,
     * the mines lie on the board and `count` is right, everything known
     * afterwards is still true of `mineSet`.
     */
    method AddKnowledge(cell: Cell, count: int, ghost mineSet: set<Cell>) returns (ok: bool)
      modifies this
      ensures (ok, knowledge, safes, mines) == Added(old(knowledge), old(safes), old(mines), cell, count, height, width)
      ensures height == old(height) && width == old(width)
      ensures movesMade == old(movesMade) + {cell}
      ensures cell in safes && old(safes) <= safes && old(mines) <= mines
      ensures forall f :: f in knowledge ==> f.0 != {}
      ensures (old(Sound(mineSet)) && cell !in mineSet && (forall c :: c in mineSet ==> InBounds(c, height, width)) &&
        count == |Neighborhood(cell, height, width) * mineSet|) ==> Sound(mineSet)
    {
      ghost var premise := Sound(mineSet) && cell !in mineSet && (forall c :: c in mineSet ==> InBounds(c, height, width)) &&
        count == |Neighborhood(cell, height, width) * mineSet|;
      movesMade := movesMade + {cell};
      ghost var before := knowledge;
      MarkSafe(cell);
      if premise {
        SafeMarkedKeepsTruth(before, {cell}, mineSet);
      }
      AddNeighbourSentence(cell, count, mineSet);
      ok := DrawConclusions(mineSet);
    }

    /**
     * Lines 273-327 of `add_knowledge`: draws the conclusions of every
     * sentence, prunes, applies the subset rule and prunes again, stopping
     * with `false` where a pruning step raises `ValueError`.
     */
    method DrawConclusions(ghost mineSet: set<Cell>) returns (ok: bool)
      modifies this
      ensures (ok, knowledge, safes, mines) == Settled(old(knowledge), old(safes), old(mines))
      ensures height == old(height) && width == old(width) && movesMade == old(movesMade)
      ensures old(safes) <= safes && old(mines) <= mines
      ensures forall f :: f in knowledge ==> f.0 != {}
      ensures old(Sound(mineSet)) ==> Sound(mineSet)
    {
      if Sound(mineSet) {
        TrueIsTrueOrEmpty(knowledge, mineSet);
      }
      MarkConcludedCells(mineSet);
      ok := Prune(mineSet);
      if !ok {
        return;
      }
      ghost var sound := Sound(mineSet);
      InferFromSubsets(mineSet);
      if sound {
        TrueIsTrueOrEmpty(knowledge, mineSet);
      }
      ok := Prune(mineSet);
    }

    /**
     * Lines 291-292 and 326-327 of `add_knowledge`: `remove_no_cells`, then
     * `remove_equal_sentences`. Sentences only leave the knowledge, and
     * none without cells is left.
     */
    method Prune(ghost mineSet: set<Cell>) returns (ok: bool)
      modifies this
      ensures (ok, knowledge) == Pruned(old(knowledge))
      ensures movesMade == old(movesMade) && mines == old(mines) && safes == old(safes)
      ensures height == old(height) && width == old(width)
      ensures forall f :: f in knowledge ==> f in old(knowledge) && f.0 != {}
      ensures old(SoundOrCleared(mineSet)) ==> Sound(mineSet)
    {
      ghost var before := knowledge;
      RemoveNoCells();
      if old(SoundOrCleared(mineSet)) {
        ClearedDropped(before, mineSet);
      }
      ok := RemoveEqualSentences();
    }

    /** `make_safe_move`: a cell known to be safe and not yet played, or `None` when there is none; nothing changes. */
    method MakeSafeMove() returns (move: Option<Cell>)
      ensures move.None? <==> safes <= movesMade
      ensures move.Some? ==> move.value in safes && move.value !in movesMade
    {
      var safeMoves := safes - movesMade;
      if |safeMoves| > 0 {
        var c :| c in safeMoves;
        move := Some(c);
      } else {
        assert forall c :: c in safes ==> c in safeMoves || c in movesMade;
        move := None;
      }
    }
  }
}
