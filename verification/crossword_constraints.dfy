/**
 * The constraints of the crossword problem, stated once as predicates over
 * assignments and domains: what a consistent assignment is, what a solution
 * is, the unary (length) and binary (overlap) filters, and the "ruled out"
 * count that orders a slot's candidate words.
 */
module CrosswordConstraints {
  import opened CrosswordPuzzle
  import opened Cardinality

  /** Slots decided so far, each with its word. */
  type Assignment = map<Variable, Word>

  /** The candidate words of each slot. */
  type Domains = map<Variable, set<Word>>

  /** `wx` and `wy` agree at the overlap `o`: letter `o.0` of `wx` is letter `o.1` of `wy`. */
  predicate Fits(wx: Word, wy: Word, o: (nat, nat)) {
    o.0 < |wx| && o.1 < |wy| && wx[o.0] == wy[o.1]
  }

  /** `wx` and `wy` disagree at the overlap `o`. */
  predicate Clash(wx: Word, wy: Word, o: (nat, nat)) {
    o.0 < |wx| && o.1 < |wy| && wx[o.0] != wy[o.1]
  }

  predicate DistinctWords(a: Assignment) {
    forall x, y :: x in a && y in a && x != y ==> a[x] != a[y]
  }

  predicate RightLengths(a: Assignment) {
    forall x :: x in a ==> |a[x]| == x.length
  }

  /** Every two assigned slots that cross agree at their shared cell. */
  predicate Agree(cw: Crossword, a: Assignment) {
    forall x, y :: x in a && y in a && (x, y) in cw.overlaps ==> Fits(a[x], a[y], cw.overlaps[(x, y)])
  }

  /** The three conditions a consistent assignment meets: distinct words, right lengths, crossing slots agree. */
  predicate IsConsistent(cw: Crossword, a: Assignment) {
    DistinctWords(a) && RightLengths(a) && Agree(cw, a)
  }

  /** `b` keeps every choice of `a`. */
  predicate Extends(b: Assignment, a: Assignment) {
    forall v :: v in a ==> v in b && b[v] == a[v]
  }

  /** Every slot `b` decides beyond `a` takes a word from its domain in `d`. */
  predicate NewValuesFrom(b: Assignment, a: Assignment, d: Domains) {
    forall v :: v in b && v !in a ==> v in d && b[v] in d[v]
  }

  /** `b` is a consistent, complete extension of `a` whose new words come from `d`. */
  predicate SolutionFrom(cw: Crossword, d: Domains, a: Assignment, b: Assignment) {
    Extends(b, a) && b.Keys == cw.variables && IsConsistent(cw, b) && NewValuesFrom(b, a, d)
  }

  /** `b` solves the puzzle with words drawn from the domains `d`. */
  predicate Solution(cw: Crossword, d: Domains, b: Assignment) {
    SolutionFrom(cw, d, map[], b)
  }

  /** Dropping choices from a consistent assignment leaves it consistent. */
  lemma ConsistentRestrict(cw: Crossword, a: Assignment, b: Assignment)
    requires Extends(b, a) && IsConsistent(cw, b)
    ensures IsConsistent(cw, a)
  {
    forall x, y | x in a && y in a && (x, y) in cw.overlaps
      ensures Fits(a[x], a[y], cw.overlaps[(x, y)])
    {
      assert a[x] == b[x] && a[y] == b[y];
    }
  }

  /** A solution extending `a` also extends `a` plus any one of its own choices. */
  lemma SolutionFromStep(cw: Crossword, d: Domains, a: Assignment, v: Variable, b: Assignment)
    requires SolutionFrom(cw, d, a, b) && v in b && v !in a
    ensures v in d && b[v] in d[v]
    ensures SolutionFrom(cw, d, a[v := b[v]], b)
  {
  }

  /** Every word of every domain is long enough to be indexed at each of its slot's overlaps. */
  predicate Indexable(cw: Crossword, d: Domains) {
    forall p :: p in cw.overlaps ==> p.0 in d && forall w :: w in d[p.0] ==> cw.overlaps[p].0 < |w|
  }

  /** Every word of a slot's domain has the slot's length. */
  predicate NodeConsistent(d: Domains) {
    forall v, w :: v in d && w in d[v] ==> |w| == v.length
  }

  /** Each domain restricted to the words of its slot's length. */
  function NodeFiltered(d: Domains): (r: Domains)
    ensures r.Keys == d.Keys && NodeConsistent(r)
    ensures forall v :: v in d ==> r[v] <= d[v]
  {
    map v | v in d :: set w | w in d[v] && |w| == v.length
  }

  /** Node consistency is what the length filter reaches, and the filter changes a node-consistent store no further. */
  lemma NodeFilteredFixpoint(d: Domains)
    ensures NodeConsistent(NodeFiltered(d))
    ensures NodeConsistent(d) ==> NodeFiltered(d) == d
    ensures NodeFiltered(NodeFiltered(d)) == NodeFiltered(d)
  {
    if NodeConsistent(d) {
      forall v | v in d
        ensures NodeFiltered(d)[v] == d[v]
      {
      }
    }
    var e := NodeFiltered(d);
    forall v | v in e
      ensures NodeFiltered(e)[v] == e[v]
    {
    }
  }

  /** Filtering by length never removes a word of a solution, and never adds a word. */
  lemma NodeFilteredKeepsSolutions(cw: Crossword, d: Domains, b: Assignment)
    ensures forall v :: v in d ==> NodeFiltered(d)[v] <= d[v]
    ensures Solution(cw, d, b) ==> Solution(cw, NodeFiltered(d), b)
  {
  }

  /** On a well-formed puzzle, node-consistent domains can be indexed at every overlap. */
  lemma NodeConsistentIndexable(cw: Crossword, d: Domains)
    requires WellFormed(cw) && d.Keys == cw.variables && NodeConsistent(d)
    ensures Indexable(cw, d)
  {
  }

  /** `d2` has the slots of `d1` and no word that `d1` lacks. */
  predicate Shrunk(d2: Domains, d1: Domains) {
    d2.Keys == d1.Keys && forall v :: v in d1 ==> d2[v] <= d1[v]
  }

  /** Removing words keeps the domains indexable. */
  lemma ShrunkIndexable(cw: Crossword, d1: Domains, d2: Domains)
    requires Indexable(cw, d1) && Shrunk(d2, d1)
    ensures Indexable(cw, d2)
  {
    forall p | p in cw.overlaps
      ensures p.0 in d2 && forall w :: w in d2[p.0] ==> cw.overlaps[p].0 < |w|
    {
      assert d2[p.0] <= d1[p.0];
    }
  }

  /** Some word of `ys` agrees with `wx` at the overlap `o`. */
  predicate Matches(wx: Word, ys: set<Word>, o: (nat, nat)) {
    exists wy :: wy in ys && Fits(wx, wy, o)
  }

  /** The words of `xs` that agree with some word of `ys` at the overlap `o`. */
  function Supported(xs: set<Word>, ys: set<Word>, o: (nat, nat)): (r: set<Word>)
    ensures r <= xs
    ensures forall w :: w in r <==> w in xs && Matches(w, ys, o)
  {
    set w | w in xs && Matches(w, ys, o)
  }

  /**
   * The arc condition `revise` relies on: in a solution, the word of `x`
   * finds a partner (the word of `y`) in the domain of any slot `y` it crosses.
   */
  lemma SolutionWordsMatch(cw: Crossword, d: Domains, b: Assignment, x: Variable, y: Variable)
    requires Solution(cw, d, b) && (x, y) in cw.overlaps && x in cw.variables && y in cw.variables
    ensures x in d && b[x] in d[x]
    ensures Matches(b[x], d[y], cw.overlaps[(x, y)])
  {
    assert b[y] in d[y] && Fits(b[x], b[y], cw.overlaps[(x, y)]);
  }

  /**
   * Keeping in `x`'s domain exactly the words with a partner in `y`'s domain,
   * and touching no other domain, loses no solution.
   */
  lemma RevisedKeepsSolutions(cw: Crossword, d1: Domains, x: Variable, y: Variable)
    requires x in cw.variables && y in cw.variables && (x, y) in cw.overlaps
    requires x in d1 && y in d1 && x != y
    ensures KeepsSolutions(cw, d1, d1[x := Supported(d1[x], d1[y], cw.overlaps[(x, y)])])
  {
    var d2 := d1[x := Supported(d1[x], d1[y], cw.overlaps[(x, y)])];
    forall b | Solution(cw, d1, b)
      ensures Solution(cw, d2, b)
    {
      SolutionWordsMatch(cw, d1, b, x, y);
      assert b[x] in d2[x];
    }
  }

  /**
   * Trying the word `w` for the open slot `v`: the solutions extending
   * `a[v := w]` are exactly the solutions extending `a` that give `v` the
   * word `w`, and `a[v := w]` is one itself when it is complete and
   * consistent.
   */
  lemma ValueStep(cw: Crossword, d: Domains, a: Assignment, v: Variable, w: Word)
    requires v in cw.variables && v !in a && v in d && w in d[v]
    ensures forall b :: SolutionFrom(cw, d, a[v := w], b) ==> SolutionFrom(cw, d, a, b) && b[v] == w
    ensures forall b :: SolutionFrom(cw, d, a, b) && b[v] == w ==> SolutionFrom(cw, d, a[v := w], b)
    ensures a[v := w].Keys == cw.variables && IsConsistent(cw, a[v := w]) ==> SolutionFrom(cw, d, a, a[v := w])
  {
    forall b | SolutionFrom(cw, d, a, b) && b[v] == w
      ensures SolutionFrom(cw, d, a[v := w], b)
    {
      SolutionFromStep(cw, d, a, v, b);
    }
  }

  /** No solution extends an inconsistent assignment. */
  lemma InconsistentNoSolution(cw: Crossword, d: Domains, a: Assignment)
    ensures !IsConsistent(cw, a) ==> forall b :: !SolutionFrom(cw, d, a, b)
  {
    forall b | SolutionFrom(cw, d, a, b)
      ensures IsConsistent(cw, a)
    {
      ConsistentRestrict(cw, a, b);
    }
  }

  /** Every solution extending `a` gives the open slot `v` one of the listed words of its domain. */
  lemma SolutionValueListed(cw: Crossword, d: Domains, a: Assignment, v: Variable, values: seq<Word>)
    requires v in cw.variables && v !in a && v in d && multiset(values) == multiset(d[v])
    ensures forall b :: SolutionFrom(cw, d, a, b) ==> b[v] in values
  {
    forall b | SolutionFrom(cw, d, a, b)
      ensures b[v] in values
    {
      assert b[v] in d[v];
      assert b[v] in multiset(values);
    }
  }

  /** No solution extending `a` gives the slot `v` any of the words `ws`. */
  ghost predicate Excluded(cw: Crossword, d: Domains, a: Assignment, v: Variable, ws: seq<Word>)
    requires v in cw.variables
  {
    forall b :: SolutionFrom(cw, d, a, b) ==> b[v] !in ws
  }

  /** Ruling out one more word for `v`. */
  lemma ExcludedStep(cw: Crossword, d: Domains, a: Assignment, v: Variable, ws: seq<Word>, w: Word)
    requires v in cw.variables && Excluded(cw, d, a, v, ws)
    requires forall b :: SolutionFrom(cw, d, a, b) ==> b[v] != w
    ensures Excluded(cw, d, a, v, ws + [w])
  {
  }

  /** Once every listed word of `v`'s domain is ruled out, nothing extends `a`. */
  lemma ExcludedAll(cw: Crossword, d: Domains, a: Assignment, v: Variable, values: seq<Word>)
    requires v in cw.variables && v !in a && v in d && multiset(values) == multiset(d[v])
    requires Excluded(cw, d, a, v, values)
    ensures forall b :: !SolutionFrom(cw, d, a, b)
  {
    SolutionValueListed(cw, d, a, v, values);
  }

  /** A solution drawing on smaller domains draws on the larger ones too. */
  lemma SolutionShrunk(cw: Crossword, d1: Domains, d2: Domains, a: Assignment, b: Assignment)
    requires Shrunk(d2, d1) && SolutionFrom(cw, d2, a, b)
    ensures SolutionFrom(cw, d1, a, b)
  {
    forall v | v in b && v !in a
      ensures v in d1 && b[v] in d1[v]
    {
      assert b[v] in d2[v];
    }
  }

  /** Every solution drawing on `d1` still draws on `d2`: narrowing `d1` to `d2` pruned no solution. */
  ghost predicate KeepsSolutions(cw: Crossword, d1: Domains, d2: Domains) {
    forall b :: Solution(cw, d1, b) ==> Solution(cw, d2, b)
  }

  lemma KeepsSolutionsTrans(cw: Crossword, d1: Domains, d2: Domains, d3: Domains)
    requires KeepsSolutions(cw, d1, d2) && KeepsSolutions(cw, d2, d3)
    ensures KeepsSolutions(cw, d1, d3)
  {
  }

  /** A slot whose domain is empty leaves the puzzle without a solution. */
  lemma EmptyDomainNoSolution(cw: Crossword, d: Domains, x: Variable)
    requires x in cw.variables && x in d
    ensures d[x] == {} ==> forall b :: !Solution(cw, d, b)
  {
    forall b | Solution(cw, d, b)
      ensures d[x] != {}
    {
      assert b[x] in d[x];
    }
  }

  /** Every (slot, word) candidate of a store; it shrinks strictly whenever one word leaves one domain. */
  function Candidates(d: Domains): set<(Variable, Word)> {
    set v, w | v in d && w in d[v] :: (v, w)
  }

  lemma CandidatesShrink(d: Domains, x: Variable, s: set<Word>)
    requires x in d && s < d[x]
    ensures Candidates(d[x := s]) < Candidates(d)
  {
    var w :| w in d[x] && w !in s;
    assert (x, w) in Candidates(d) && (x, w) !in Candidates(d[x := s]);
  }

  /**
   * The (slot, word) pairs that choosing `wx` for `x` rules out: words of
   * the unassigned slots among `vs` that cross `x` and clash with `wx` at
   * the shared cell.
   */
  function RuledOut(cw: Crossword, d: Domains, x: Variable, a: Assignment, vs: set<Variable>, wx: Word): set<(Variable, Word)> {
    set z, wy | z in vs && z != x && z !in a && (x, z) in cw.overlaps && z in d && wy in d[z] &&
      Clash(wx, wy, cw.overlaps[(x, z)]) :: (z, wy)
  }

  /** How many candidate words of unassigned crossing slots choosing `wx` for `x` eliminates. */
  function Conflicts(cw: Crossword, d: Domains, x: Variable, a: Assignment, wx: Word): nat {
    |RuledOut(cw, d, x, a, cw.variables, wx)|
  }

  /** The pairs `(z, wy)` for the words `wy` of `ys` that clash with `wx` at the overlap `o`. */
  function Clashes(wx: Word, z: Variable, ys: set<Word>, o: (nat, nat)): set<(Variable, Word)> {
    set wy | wy in ys && Clash(wx, wy, o) :: (z, wy)
  }

  /**
   * Counting one more slot `z`: the pairs it contributes are new, and they
   * are its clashing words when `z` is an unassigned slot crossing `x`,
   * none otherwise.
   */
  lemma RuledOutStep(cw: Crossword, d: Domains, x: Variable, a: Assignment, vs: set<Variable>, z: Variable, wx: Word)
    requires z !in vs
    ensures z != x && z !in a && (x, z) in cw.overlaps && z in d ==>
      |RuledOut(cw, d, x, a, vs + {z}, wx)| ==
      |RuledOut(cw, d, x, a, vs, wx)| + |Clashes(wx, z, d[z], cw.overlaps[(x, z)])|
    ensures !(z != x && z !in a && (x, z) in cw.overlaps && z in d) ==>
      RuledOut(cw, d, x, a, vs + {z}, wx) == RuledOut(cw, d, x, a, vs, wx)
  {
    var before, after := RuledOut(cw, d, x, a, vs, wx), RuledOut(cw, d, x, a, vs + {z}, wx);
    if z != x && z !in a && (x, z) in cw.overlaps && z in d {
      var added := Clashes(wx, z, d[z], cw.overlaps[(x, z)]);
      assert after == before + added;
      assert before !! added;
      DisjointCard(before, added);
    } else {
      assert after == before;
    }
  }
}
