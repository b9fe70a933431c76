/**
 * The crossword solver: domains of candidate words per slot, narrowed in
 * place by node consistency and by an arc worklist, then a backtracking
 * search ordered by the minimum-remaining-values, degree and
 * least-constraining-value heuristics.
 */
module CrosswordGenerate {
  import opened Wrappers
  import opened Cardinality
  import opened Iteration
  import opened CrosswordPuzzle
  import opened CrosswordConstraints
  import opened CrosswordSteps
  import opened CrosswordGrid

  class CrosswordCreator {
    const crossword: Crossword
    var domains: Domains

    /** The puzzle is well formed and every slot, and nothing else, has a domain. */
    ghost predicate Valid()
      reads this
    {
      WellFormed(crossword) && domains.Keys == crossword.variables
    }

    /** `__init__`: every slot starts with its own copy of the whole vocabulary. */
    constructor (crossword: Crossword)
      requires WellFormed(crossword)
      ensures Valid() && this.crossword == crossword
      ensures domains == map v | v in crossword.variables :: crossword.words
    {
      this.crossword := crossword;
      domains := map v | v in crossword.variables :: crossword.words;
    }

    /** The removal loop shared by `enforce_node_consistency` and `revise`: each listed word leaves `x`'s domain, where it is present. */
    method RemoveWords(x: Variable, toRemove: seq<Word>)
      requires x in domains && Distinct(toRemove) && Elems(toRemove) <= domains[x]
      modifies this
      ensures domains == old(domains)[x := old(domains)[x] - Elems(toRemove)]
    {
      assert Elems(toRemove[..0]) == {};
      assert old(domains)[x] - {} == old(domains)[x];
      assert old(domains)[x := old(domains)[x]] == old(domains);
      for n := 0 to |toRemove|
        invariant domains == old(domains)[x := old(domains)[x] - Elems(toRemove[..n])]
      {
        var word := toRemove[n];
        assert word !in toRemove[..n];
        assert toRemove[..n + 1] == toRemove[..n] + [word];
        Appended(toRemove[..n], word);
        assert word in domains[x];
        assert domains[x] - {word} == old(domains)[x] - Elems(toRemove[..n + 1]);
        domains := domains[x := domains[x] - {word}];
      }
      assert toRemove[..|toRemove|] == toRemove;
    }

    /** `enforce_node_consistency`: each domain keeps exactly its words of the slot's length. */
    method EnforceNodeConsistency()
      requires Valid()
      modifies this
      ensures Valid()
      ensures domains == NodeFiltered(old(domains))
    {
      ghost var filtered := map v | v in old(domains) :: set w | w in old(domains)[v] && |w| == v.length;
      var vars := Enumerate(domains.Keys);
      for n := 0 to |vars|
        invariant domains.Keys == old(domains).Keys
        invariant forall v :: v in vars[..n] ==> domains[v] == filtered[v]
        invariant forall v :: v in domains && v !in vars[..n] ==> domains[v] == old(domains)[v]
      {
        var variable := vars[n];
        assert variable !in vars[..n];
        FilterLength(variable);
        assert domains[variable] == filtered[variable];
        assert vars[..n + 1] == vars[..n] + [variable];
      }
      assert vars[..|vars|] == vars;
      assert forall v :: v in domains ==> domains[v] == filtered[v];
      assert domains == filtered;
    }

    /** One round of `enforce_node_consistency`: the words of the wrong length leave `x`'s domain. */
    method FilterLength(x: Variable)
      requires x in domains
      modifies this
      ensures domains == old(domains)[x := set w | w in old(domains)[x] && |w| == x.length]
    {
      var wordsToRemove := Misfits(domains[x], x.length);
      assert domains[x] - Elems(wordsToRemove) == set w | w in domains[x] && |w| == x.length;
      if |wordsToRemove| > 0 {
        RemoveWords(x, wordsToRemove);
      } else {
        assert domains[x] - Elems(wordsToRemove) == domains[x];
        assert domains[x := domains[x]] == domains;
      }
    }
  
    /**
     * `revise(x, y)`: without an overlap nothing changes and the answer is
     * false. Otherwise `x` keeps exactly the words that agree with some word
     * of `y` at the shared cell, every other domain is untouched, and the
     * answer says whether a word was removed.
     */
    method Revise(x: Variable, y: Variable) returns (revised: bool)
      requires Valid() && Indexable(crossword, domains)
      requires x in crossword.variables && y in crossword.variables && x != y
      modifies this
      ensures Valid() && Indexable(crossword, domains) && Shrunk(domains, old(domains))
      ensures Overlap(crossword, x, y).None? ==> domains == old(domains)
      ensures Overlap(crossword, x, y).Some? ==>
        domains == old(domains)[x := Supported(old(domains)[x], old(domains)[y], Overlap(crossword, x, y).value)]
      ensures revised <==> domains[x] != old(domains)[x]
    {
      var intersection := Overlap(crossword, x, y);
      if intersection.None? {
        return false;
      }
      var o := intersection.value;
      assert crossword.overlaps[(y, x)] == (o.1, o.0);
      revised := KeepSupported(x, y, o);
      ShrunkIndexable(crossword, old(domains), domains);
    }

    /** The removal half of `revise`, once the overlap `o` is known. */
    method KeepSupported(x: Variable, y: Variable, o: (nat, nat)) returns (revised: bool)
      requires x in domains && y in domains && x != y
      requires forall wx :: wx in domains[x] ==> o.0 < |wx|
      requires forall wy :: wy in domains[y] ==> o.1 < |wy|
      modifies this
      ensures domains == old(domains)[x := Supported(old(domains)[x], old(domains)[y], o)]
      ensures revised <==> domains[x] != old(domains)[x]
    {
      var wordsToRemove := Unsupported(domains[x], domains[y], o);
      assert domains[x] - Elems(wordsToRemove) == Supported(domains[x], domains[y], o);
      if |wordsToRemove| > 0 {
        assert wordsToRemove[0] in Elems(wordsToRemove);
        RemoveWords(x, wordsToRemove);
        assert wordsToRemove[0] !in domains[x];
        revised := true;
      } else {
        assert Elems(wordsToRemove) == {};
        assert domains[x] - {} == domains[x];
        assert domains[x := domains[x]] == domains;
        revised := false;
      }
    }
  
    /**
     * `ac3`: works through a queue of arcs (all neighbour arcs, one direction
     * each, when `arcs` is `None`), revising each and re-queueing the arcs
     * from a slot whose domain shrank. Domains only shrink, no solution is
     * lost, and the answer is false only when a domain has been emptied,
     * in which case the puzzle has no solution at all.
     */
    method AC3(arcs: Option<seq<Arc>>) returns (ok: bool)
      requires Valid() && Indexable(crossword, domains)
      requires arcs.Some? ==> forall a :: a in arcs.value ==> ValidArc(crossword, a)
      modifies this
      ensures Valid() && Indexable(crossword, domains) && Shrunk(domains, old(domains))
      ensures KeepsSolutions(crossword, old(domains), domains)
      ensures !ok ==> exists x :: x in domains && domains[x] == {} && old(domains)[x] != {}
      ensures !ok ==> forall b :: !Solution(crossword, old(domains), b)
      ensures ok ==> forall v :: v in domains && domains[v] == {} ==> old(domains)[v] == {}
    {
      var queue: seq<Arc>;
      if arcs.None? {
        queue := InitialArcs(crossword);
      } else {
        queue := arcs.value;
      }
      while |queue| != 0
        invariant Valid() && Indexable(crossword, domains) && Shrunk(domains, old(domains))
        invariant KeepsSolutions(crossword, old(domains), domains)
        invariant forall a :: a in queue ==> ValidArc(crossword, a)
        invariant forall v :: v in domains && domains[v] == {} ==> old(domains)[v] == {}
        decreases Candidates(domains), |queue|
      {
        var x, y := queue[0].0, queue[0].1;
        ghost var before := domains;
        var emptied;
        emptied, queue := ReviseArc(x, y, queue[1..]);
        KeepsSolutionsTrans(crossword, old(domains), before, domains);
        if emptied {
          assert old(domains)[x] != {} by {
            assert before[x] <= old(domains)[x];
          }
          EmptyDomainNoSolution(crossword, domains, x);
          return false;
        }
      }
      return true;
    }

    /**
     * One turn of the `ac3` loop on the arc `(x, y)`: revise it; when `x`
     * lost words, either report its domain empty or queue the arcs from `x`
     * to its other neighbours. When nothing was removed the queue is left as
     * it was, otherwise the (slot, word) candidates strictly shrink.
     */
    method ReviseArc(x: Variable, y: Variable, queue: seq<Arc>) returns (emptied: bool, q: seq<Arc>)
      requires Valid() && Indexable(crossword, domains) && ValidArc(crossword, (x, y))
      requires forall a :: a in queue ==> ValidArc(crossword, a)
      modifies this
      ensures Valid() && Indexable(crossword, domains) && Shrunk(domains, old(domains))
      ensures KeepsSolutions(crossword, old(domains), domains)
      ensures forall a :: a in q ==> ValidArc(crossword, a)
      ensures (domains == old(domains) && q == queue && !emptied) || Candidates(domains) < Candidates(old(domains))
      ensures emptied <==> x in domains && domains[x] == {} && old(domains)[x] != {}
      ensures domains.Keys == old(domains).Keys
      ensures forall v :: v in domains && v != x ==> domains[v] == old(domains)[v]
      ensures Overlap(crossword, x, y).Some? ==>
        domains[x] == Supported(old(domains)[x], old(domains)[y], Overlap(crossword, x, y).value)
      ensures domains[x] == old(domains)[x] || emptied ==> q == queue
      ensures domains[x] != old(domains)[x] && !emptied ==> Requeued(crossword, x, y, queue, q)
    {
      var revised := Revise(x, y);
      if !revised {
        assert domains == old(domains);
        return false, queue;
      }
      assert (x, y) in crossword.overlaps;
      RevisedKeepsSolutions(crossword, old(domains), x, y);
      CandidatesShrink(old(domains), x, domains[x]);
      if |domains[x]| == 0 {
        return true, queue;
      }
      q := Requeue(crossword, x, y, queue);
      forall a | a in q
        ensures ValidArc(crossword, a)
      {
        var i :| 0 <= i < |q| && q[i] == a;
        if i < |queue| {
          assert a == queue[i];
        }
      }
      emptied := false;
    }
  
    /** `assignment_complete`: compares sizes only, which for an assignment of puzzle slots means every slot has a word. */
    function AssignmentComplete(a: Assignment): (r: bool)
      ensures a.Keys <= crossword.variables ==> (r <==> a.Keys == crossword.variables)
    {
      SubsetSameSize(a.Keys, crossword.variables);
      |a| == |crossword.variables|
    }

    /**
     * `consistent`: the words are pairwise distinct, each has its slot's
     * length, and (unless a single slot is assigned) every two assigned
     * slots that cross agree on the shared letter.
     */
    method Consistent(a: Assignment) returns (ok: bool)
      requires Valid() && a.Keys <= crossword.variables
      ensures ok <==> IsConsistent(crossword, a)
    {
      var keys := Enumerate(a.Keys);
      ok := WordsDistinct(a, keys);
      if !ok {
        return;
      }
      ok := LengthsRight(a, keys);
      if !ok {
        return;
      }
      if |a| == 1 {
        OneSlotAgrees(crossword, a);
        return true;
      }
      ok := CrossingsAgree(crossword, a, keys);
    }

    /**
     * `order_domain_values`: the words of `x`'s domain, each once, in
     * ascending order of how many candidates of unassigned crossing slots
     * they rule out.
     */
    method OrderDomainValues(x: Variable, a: Assignment) returns (values: seq<Word>)
      requires Valid() && Indexable(crossword, domains) && x in crossword.variables
      ensures multiset(values) == multiset(domains[x])
      ensures forall i, j :: 0 <= i < j < |values| ==>
        Conflicts(crossword, domains, x, a, values[i]) <= Conflicts(crossword, domains, x, a, values[j])
    {
      var words := Enumerate(domains[x]);
      DistinctMultiset(words);
      if |domains[x]| == 1 {
        return words;
      }
      AllCross(crossword, domains, x);
      var counts := ConflictCounts(crossword, domains, x, a);
      values := SortByKey(words, counts);
      forall i, j | 0 <= i < j < |values|
        ensures Conflicts(crossword, domains, x, a, values[i]) <= Conflicts(crossword, domains, x, a, values[j])
      {
        assert values[i] in multiset(values) && values[j] in multiset(values);
        assert counts[values[i]] <= counts[values[j]];
      }
    }
  
    /**
     * `select_unassigned_variable`: an unassigned slot with the fewest words
     * left in its domain, and among those, one with the most neighbours.
     */
    method SelectUnassignedVariable(a: Assignment) returns (v: Variable)
      requires Valid() && !(crossword.variables <= a.Keys)
      ensures v in crossword.variables && v !in a
      ensures forall u :: u in crossword.variables && u !in a ==> |domains[v]| <= |domains[u]|
      ensures forall u :: u in crossword.variables && u !in a && |domains[u]| == |domains[v]| ==>
        |Neighbors(crossword, u)| <= |Neighbors(crossword, v)|
    {
      v := FewestThenMostNeighbors(crossword, domains, a);
    }
  
    /**
     * `backtrack`: a complete assignment is returned as it is. Otherwise the
     * search returns a solution extending `a` whose new words come from the
     * domains, and returns `None` only when no such solution exists.
     */
    method Backtrack(a: Assignment) returns (r: Option<Assignment>)
      requires Valid() && Indexable(crossword, domains) && a.Keys <= crossword.variables
      ensures AssignmentComplete(a) ==> r == Some(a)
      ensures !AssignmentComplete(a) && r.Some? ==> SolutionFrom(crossword, domains, a, r.value)
      ensures !AssignmentComplete(a) && r.None? ==> forall b :: !SolutionFrom(crossword, domains, a, b)
      decreases crossword.variables - a.Keys, 1
    {
      if AssignmentComplete(a) {
        return Some(a);
      }
      var v := SelectUnassignedVariable(a);
      var values := OrderDomainValues(v, a);
      assert values[..0] == [];
      for n := 0 to |values|
        invariant Excluded(crossword, domains, a, v, values[..n])
      {
        var w := values[n];
        assert w in multiset(values);
        var result := TryValue(a, v, w);
        if result.Some? {
          return result;
        }
        ExcludedStep(crossword, domains, a, v, values[..n], w);
        assert values[..n + 1] == values[..n] + [w];
      }
      assert values[..|values|] == values;
      ExcludedAll(crossword, domains, a, v, values);
      return None;
    }

    /**
     * One turn of the loop of `backtrack`: give the open slot `v` the word
     * `w` and, when that is consistent, search on from there. A result is a
     * solution extending `a`; `None` means no solution extends `a` with `w`
     * for `v`.
     */
    method TryValue(a: Assignment, v: Variable, w: Word) returns (r: Option<Assignment>)
      requires Valid() && Indexable(crossword, domains) && a.Keys <= crossword.variables
      requires v in crossword.variables && v !in a && w in domains[v]
      ensures r.Some? ==> SolutionFrom(crossword, domains, a, r.value)
      ensures r.None? ==> forall b :: SolutionFrom(crossword, domains, a, b) ==> b[v] != w
      decreases crossword.variables - a.Keys, 0
    {
      var next := a[v := w];
      ValueStep(crossword, domains, a, v, w);
      var ok := Consistent(next);
      if !ok {
        InconsistentNoSolution(crossword, domains, next);
        return None;
      }
      assert crossword.variables - next.Keys < crossword.variables - a.Keys;
      r := Backtrack(next);
    }

    /**
     * `solve`: node consistency, then `ac3` from every neighbour arc (its
     * answer is ignored), then the search from the empty assignment. The
     * result solves the puzzle with words of the domains it started from,
     * and `None` means no such solution exists.
     */
    method Solve() returns (r: Option<Assignment>)
      requires Valid()
      modifies this
      ensures Valid() && Shrunk(domains, old(domains))
      ensures r.Some? ==> Solution(crossword, old(domains), r.value)
      ensures r.None? ==> forall b :: !Solution(crossword, old(domains), b)
    {
      ghost var initial := domains;
      EnforceNodeConsistency();
      NodeFilteredFixpoint(initial);
      NodeConsistentIndexable(crossword, domains);
      forall b | Solution(crossword, initial, b)
        ensures Solution(crossword, domains, b)
      {
        NodeFilteredKeepsSolutions(crossword, initial, b);
      }
      NodeFilteredKeepsSolutions(crossword, initial, map[]);
      var _ := AC3(None);
      r := Backtrack(map[]);
      if AssignmentComplete(map[]) {
        assert crossword.variables == {};
        assert Solution(crossword, domains, map[]);
      }
      if r.Some? {
        SolutionShrunk(crossword, initial, domains, map[], r.value);
      }
    }
  
    /**
     * `letter_grid`: a height by width grid, empty except where an assigned
     * word covers a cell, which shows that word's letter. Where all covering
     * words agree (always, for a consistent assignment; see
     * `ConsistentUnanimous`), it is the letter of every one of them.
     */
    method LetterGrid(a: Assignment) returns (letters: Grid)
      requires Fitted(crossword, a)
      ensures Shaped(letters, crossword.height, crossword.width)
      ensures forall r, c :: 0 <= r < crossword.height && 0 <= c < crossword.width ==>
        (letters[r][c].None? <==> forall v :: v in a ==> !Covers(a, v, (r, c)))
      ensures forall r, c :: 0 <= r < crossword.height && 0 <= c < crossword.width && letters[r][c].Some? ==>
        exists v :: v in a && Covers(a, v, (r, c)) && letters[r][c].value == a[v][Offset(v, (r, c))]
      ensures forall r, c, v ::
        (0 <= r < crossword.height && 0 <= c < crossword.width && v in a && Covers(a, v, (r, c)) && Unanimous(a, (r, c))) ==>
        letters[r][c] == Some(a[v][Offset(v, (r, c))])
    {
      var height, width := crossword.height, crossword.width;
      letters := seq(height, _ => seq(width, _ => None));
      var todo := a.Keys;
      while todo != {}
        invariant todo <= a.Keys && Shaped(letters, height, width)
        invariant PaintedBy(letters, a, a.Keys - todo, height, width)
        decreases todo
      {
        var v :| v in todo;
        ghost var before := letters;
        letters := PaintWord(letters, v, a[v], height, width);
        PaintedStep(before, letters, a, a.Keys - todo, v, height, width);
        assert a.Keys - todo + {v} == a.Keys - (todo - {v});
        todo := todo - {v};
      }
      assert a.Keys - {} == a.Keys;
    }
  }
}
