/**
 * The loops inside the crossword solver's methods that read the puzzle and
 * the domains but change neither: collecting the words to remove, looking
 * for a partner word, building and extending the arc worklist, tallying
 * clashes, and the three checks of `consistent`.
 */
module CrosswordSteps {
  import opened Wrappers
  import opened Iteration
  import opened CrosswordPuzzle
  import opened CrosswordConstraints

  /** An arc of the worklist: revise the first slot's domain against the second's. */
  type Arc = (Variable, Variable)

  /** An arc that `revise` accepts: two distinct slots of the puzzle. */
  predicate ValidArc(cw: Crossword, a: Arc) {
    a.0 in cw.variables && a.1 in cw.variables && a.0 != a.1
  }

  /** The `words_to_remove` list of `enforce_node_consistency`: the words of the wrong length, each once. */
  method Misfits(words: set<Word>, length: nat) returns (toRemove: seq<Word>)
    ensures Distinct(toRemove)
    ensures Elems(toRemove) == set w | w in words && |w| != length
  {
    ghost var misfits := set w | w in words && |w| != length;
    var listed := Enumerate(words);
    toRemove := [];
    for n := 0 to |listed|
      invariant Distinct(toRemove)
      invariant Elems(toRemove) == Elems(listed[..n]) * misfits
    {
      var w := listed[n];
      assert w !in listed[..n];
      assert listed[..n + 1] == listed[..n] + [w];
      Appended(listed[..n], w);
      Appended(toRemove, w);
      if |w| != length {
        toRemove := toRemove + [w];
      }
    }
    assert listed[..|listed|] == listed;
  }

  /** The inner loop of `revise`: whether some word of `ys` agrees with `wx` at the overlap; every word is examined. */
  method HasSupport(wx: Word, ys: seq<Word>, o: (nat, nat)) returns (flag: bool)
    requires o.0 < |wx| && forall wy :: wy in ys ==> o.1 < |wy|
    ensures flag <==> Matches(wx, Elems(ys), o)
  {
    flag := false;
    for n := 0 to |ys|
      invariant flag <==> exists m :: 0 <= m < n && Fits(wx, ys[m], o)
    {
      if wx[o.0] == ys[n][o.1] {
        flag := true;
      }
    }
    if Matches(wx, Elems(ys), o) {
      var wy :| wy in Elems(ys) && Fits(wx, wy, o);
      var m :| 0 <= m < |ys| && ys[m] == wy;
    }
  }

  /** The `words_to_remove` list of `revise`: the words of `xs` without a partner in `ys`, each once. */
  method Unsupported(xs: set<Word>, ys: set<Word>, o: (nat, nat)) returns (toRemove: seq<Word>)
    requires forall wx :: wx in xs ==> o.0 < |wx|
    requires forall wy :: wy in ys ==> o.1 < |wy|
    ensures Distinct(toRemove)
    ensures Elems(toRemove) == set w | w in xs && !Matches(w, ys, o)
  {
    ghost var unsupported := set w | w in xs && !Matches(w, ys, o);
    var wordsX := Enumerate(xs);
    var wordsY := Enumerate(ys);
    toRemove := [];
    for n := 0 to |wordsX|
      invariant Distinct(toRemove)
      invariant Elems(toRemove) == Elems(wordsX[..n]) * unsupported
    {
      var wx := wordsX[n];
      assert wx !in wordsX[..n];
      assert wordsX[..n + 1] == wordsX[..n] + [wx];
      Appended(wordsX[..n], wx);
      Appended(toRemove, wx);
      var flag := HasSupport(wx, wordsY, o);
      if !flag {
        toRemove := toRemove + [wx];
      }
    }
    assert wordsX[..|wordsX|] == wordsX;
  }

  /**
   * The initial worklist of `ac3`: each pair of crossing slots once, in one
   * direction only, as an arc from a slot to one of its neighbours.
   */
  method InitialArcs(cw: Crossword) returns (arcs: seq<Arc>)
    ensures forall a :: a in arcs ==> a.0 in cw.variables && a.1 in Neighbors(cw, a.0)
    ensures forall x, z :: x in cw.variables && z in Neighbors(cw, x) ==> (x, z) in arcs || (z, x) in arcs
    ensures forall x, z :: (x, z) in arcs ==> (z, x) !in arcs
    ensures Distinct(arcs)
  {
    var vars := Enumerate(cw.variables);
    arcs := [];
    for n := 0 to |vars|
      invariant forall a :: a in arcs ==> a.0 in vars[..n] && a.1 in Neighbors(cw, a.0)
      invariant forall x, z :: x in vars[..n] && z in Neighbors(cw, x) ==> (x, z) in arcs || (z, x) in arcs
      invariant forall x, z :: (x, z) in arcs ==> (z, x) !in arcs
      invariant Distinct(arcs)
    {
      var v := vars[n];
      assert v !in vars[..n];
      arcs := ArcsFrom(cw, v, arcs, Elems(vars[..n]));
      assert vars[..n + 1] == vars[..n] + [v];
    }
    assert vars[..|vars|] == vars;
  }

  /** One round of the initial worklist: the arcs `(v, z)` for the neighbours `z` of `v` not yet paired with it. */
  method ArcsFrom(cw: Crossword, v: Variable, arcs: seq<Arc>, ghost done: set<Variable>) returns (r: seq<Arc>)
    requires v in cw.variables && v !in done
    requires forall a :: a in arcs ==> a.0 in done && a.1 in Neighbors(cw, a.0)
    requires forall x, z :: (x, z) in arcs ==> (z, x) !in arcs
    requires Distinct(arcs)
    ensures forall a :: a in r ==> a.0 in done + {v} && a.1 in Neighbors(cw, a.0)
    ensures forall z :: z in Neighbors(cw, v) ==> (v, z) in r || (z, v) in r
    ensures forall a :: a in arcs ==> a in r
    ensures forall x, z :: (x, z) in r ==> (z, x) !in r
    ensures Distinct(r)
  {
    var neighbors := Enumerate(Neighbors(cw, v));
    r := arcs;
    for m := 0 to |neighbors|
      invariant forall a :: a in r ==> (a.0 in done || (a.0 == v && a.1 in neighbors[..m])) && a.1 in Neighbors(cw, a.0)
      invariant forall z :: z in neighbors[..m] ==> (v, z) in r || (z, v) in r
      invariant forall a :: a in arcs ==> a in r
      invariant forall x, z :: (x, z) in r ==> (z, x) !in r
      invariant Distinct(r)
    {
      var z := neighbors[m];
      assert z !in neighbors[..m];
      if (z, v) !in r {
        r := r + [(v, z)];
      }
      assert neighbors[..m + 1] == neighbors[..m] + [z];
    }
    assert neighbors[..|neighbors|] == neighbors;
  }

  /**
   * The re-queueing step of `ac3` after `x` lost words against `y`: the arc
   * `(x, z)` for every other neighbour `z` of `x`, unless `(x, z)` or
   * `(z, x)` is already queued; the queue itself is kept as it was.
   */
  ghost predicate Requeued(cw: Crossword, x: Variable, y: Variable, queue: seq<Arc>, q: seq<Arc>) {
    && |queue| <= |q| && q[..|queue|] == queue
    && (forall i :: |queue| <= i < |q| ==> q[i].0 == x && q[i].1 in Neighbors(cw, x) && q[i].1 != y)
    && (forall i :: |queue| <= i < |q| ==> q[i] !in q[..i] && (q[i].1, q[i].0) !in q[..i])
    && (forall z :: z in Neighbors(cw, x) && z != y ==> (x, z) in q || (z, x) in q)
  }

  /** The loop of `ac3` that performs the re-queueing `Requeued` describes. */
  method Requeue(cw: Crossword, x: Variable, y: Variable, queue: seq<Arc>) returns (q: seq<Arc>)
    ensures |queue| <= |q| && q[..|queue|] == queue
    ensures forall i :: |queue| <= i < |q| ==> q[i].0 == x && q[i].1 in Neighbors(cw, x) && q[i].1 != y
    ensures forall i :: |queue| <= i < |q| ==> q[i] !in q[..i]
    ensures forall i :: |queue| <= i < |q| ==> (q[i].1, q[i].0) !in q[..i]
    ensures forall z :: z in Neighbors(cw, x) && z != y ==> (x, z) in q || (z, x) in q
  {
    var neighbors := Enumerate(Neighbors(cw, x) - {y});
    q := queue;
    for n := 0 to |neighbors|
      invariant |queue| <= |q| && q[..|queue|] == queue
      invariant forall i :: |queue| <= i < |q| ==> q[i].0 == x && q[i].1 in neighbors[..n]
      invariant forall i :: |queue| <= i < |q| ==> q[i] !in q[..i]
      invariant forall i :: |queue| <= i < |q| ==> (q[i].1, q[i].0) !in q[..i]
      invariant forall z :: z in neighbors[..n] ==> (x, z) in q || (z, x) in q
    {
      var z := neighbors[n];
      if (x, z) !in q && (z, x) !in q {
        q := q + [(x, z)];
      }
      assert neighbors[..n + 1] == neighbors[..n] + [z];
    }
    assert neighbors[..|neighbors|] == neighbors;
  }

  /**
   * The tally of `order_domain_values` for one crossing slot `z`: each word
   * of `words` gains one for every word of `ys` it clashes with.
   */
  method TallyClashes(counts: map<Word, int>, words: seq<Word>, z: Variable, ys: seq<Word>, o: (nat, nat))
    returns (tallied: map<Word, int>)
    requires Distinct(words) && Distinct(ys)
    requires forall w :: w in words ==> w in counts && o.0 < |w|
    requires forall wy :: wy in ys ==> o.1 < |wy|
    ensures tallied.Keys == counts.Keys
    ensures forall w :: w in counts ==>
      tallied[w] == counts[w] + (if w in words then |Clashes(w, z, Elems(ys), o)| else 0)
  {
    tallied := counts;
    for n := 0 to |words|
      invariant tallied.Keys == counts.Keys
      invariant forall w :: w in counts ==>
        tallied[w] == counts[w] + (if w in words[..n] then |Clashes(w, z, Elems(ys), o)| else 0)
    {
      var wx := words[n];
      assert wx !in words[..n];
      tallied := TallyWord(tallied, wx, z, ys, o);
      assert words[..n + 1] == words[..n] + [wx];
    }
    assert words[..|words|] == words;
  }

  /**
   * The innermost tally loop: one word against every word of `ys`. The
   * clashes are counted first and added to the word's entry at the end,
   * which leaves the same map as adding them one at a time.
   */
  method TallyWord(counts: map<Word, int>, wx: Word, z: Variable, ys: seq<Word>, o: (nat, nat))
    returns (tallied: map<Word, int>)
    requires Distinct(ys) && wx in counts && o.0 < |wx|
    requires forall wy :: wy in ys ==> o.1 < |wy|
    ensures tallied.Keys == counts.Keys
    ensures tallied[wx] == counts[wx] + |Clashes(wx, z, Elems(ys), o)|
    ensures forall w :: w in counts && w != wx ==> tallied[w] == counts[w]
  {
    var clashes := 0;
    assert Clashes(wx, z, Elems(ys[..0]), o) == {};
    for m := 0 to |ys|
      invariant clashes == |Clashes(wx, z, Elems(ys[..m]), o)|
    {
      var wy := ys[m];
      ClashesPrefix(wx, z, ys, m, o);
      if wx[o.0] != wy[o.1] {
        clashes := clashes + 1;
      }
    }
    assert ys[..|ys|] == ys;
    tallied := counts[wx := counts[wx] + clashes];
  }

  /** Extending the prefix of `ys` by one word adds one clash exactly when that word clashes with `wx`. */
  lemma ClashesPrefix(wx: Word, z: Variable, ys: seq<Word>, m: nat, o: (nat, nat))
    requires Distinct(ys) && m < |ys|
    ensures |Clashes(wx, z, Elems(ys[..m + 1]), o)| ==
      |Clashes(wx, z, Elems(ys[..m]), o)| + (if Clash(wx, ys[m], o) then 1 else 0)
  {
    assert ys[m] !in ys[..m];
    assert ys[..m + 1] == ys[..m] + [ys[m]];
    Appended(ys[..m], ys[m]);
    ClashesAdd(wx, z, Elems(ys[..m]), ys[m], o);
  }

  /** What the tally needs of the slots `x` and `z` when they cross: the words of both are long enough for the shared cell. */
  ghost predicate Crosses(cw: Crossword, d: Domains, x: Variable, z: Variable) {
    (x, z) in cw.overlaps ==>
      (x in d && z in d &&
       (forall w :: w in d[x] ==> cw.overlaps[(x, z)].0 < |w|) &&
       (forall w :: w in d[z] ==> cw.overlaps[(x, z)].1 < |w|))
  }

  /** Overlaps recorded in both directions and indexable domains give `Crosses` for every pair. */
  lemma AllCross(cw: Crossword, d: Domains, x: Variable)
    requires OverlapsPaired(cw) && Indexable(cw, d)
    ensures forall z :: z in cw.variables ==> Crosses(cw, d, x, z)
  {
    forall z | z in cw.variables && (x, z) in cw.overlaps
      ensures Crosses(cw, d, x, z)
    {
      assert (z, x) in cw.overlaps;
    }
  }

  /** `counts` holds, for each word of `x`'s domain, the number of candidates it rules out among the slots `vs`. */
  ghost predicate Tallied(cw: Crossword, d: Domains, x: Variable, a: Assignment, vs: set<Variable>, counts: map<Word, int>)
    requires x in d
  {
    counts.Keys == d[x] && forall w :: w in counts ==> counts[w] == |RuledOut(cw, d, x, a, vs, w)|
  }

  /** Before any slot is counted, every word of `x`'s domain rules out nothing. */
  lemma NothingTallied(cw: Crossword, d: Domains, x: Variable, a: Assignment)
    requires x in d
    ensures Tallied(cw, d, x, a, {}, map w | w in d[x] :: 0)
  {
    forall w | w in d[x]
      ensures RuledOut(cw, d, x, a, {}, w) == {}
    {
    }
  }

  /**
   * The `words_eliminated` tally of `order_domain_values`: for each word of
   * `x`'s domain, how many words of unassigned crossing slots clash with it.
   */
  method ConflictCounts(cw: Crossword, d: Domains, x: Variable, a: Assignment) returns (counts: map<Word, int>)
    requires d.Keys == cw.variables && x in cw.variables
    requires forall z :: z in cw.variables ==> Crosses(cw, d, x, z)
    ensures counts.Keys == d[x]
    ensures forall w :: w in counts ==> counts[w] == Conflicts(cw, d, x, a, w)
  {
    counts := map w | w in d[x] :: 0;
    var todo := cw.variables;
    NothingTallied(cw, d, x, a);
    assert cw.variables - todo == {};
    while todo != {}
      invariant todo <= cw.variables
      invariant Tallied(cw, d, x, a, cw.variables - todo, counts)
      decreases todo
    {
      var z :| z in todo;
      counts := CountSlot(cw, d, x, a, cw.variables - todo, z, counts);
      assert cw.variables - todo + {z} == cw.variables - (todo - {z});
      todo := todo - {z};
    }
    assert cw.variables - {} == cw.variables;
  }

  /**
   * One turn of the tally loop of `order_domain_values`, for the slot `z`:
   * when `z` is an unassigned slot crossing `x`, each word of `x`'s domain
   * gains the number of `z`'s words it clashes with; the tally then counts
   * the pairs ruled out among the slots `vs` and `z`.
   */
  method CountSlot(cw: Crossword, d: Domains, x: Variable, a: Assignment, vs: set<Variable>, z: Variable,
                   counts: map<Word, int>) returns (tallied: map<Word, int>)
    requires Crosses(cw, d, x, z)
    requires x in cw.variables && z in cw.variables && x in d && z in d && z !in vs
    requires Tallied(cw, d, x, a, vs, counts)
    ensures Tallied(cw, d, x, a, vs + {z}, tallied)
  {
    forall w | w in d[x] {
      RuledOutStep(cw, d, x, a, vs, z, w);
    }
    tallied := counts;
    if z != x && z !in a {
      var intersection := Overlap(cw, x, z);
      if intersection.Some? {
        var o := intersection.value;
        var words := Enumerate(d[x]);
        var ys := Enumerate(d[z]);
        tallied := TallyClashes(counts, words, z, ys, o);
      }
    }
  }

  /** One more word `wy` adds the pair `(z, wy)` to the clashes exactly when it clashes. */
  lemma ClashesAdd(wx: Word, z: Variable, ys: set<Word>, wy: Word, o: (nat, nat))
    requires wy !in ys
    ensures Clash(wx, wy, o) ==> Clashes(wx, z, ys + {wy}, o) == Clashes(wx, z, ys, o) + {(z, wy)}
    ensures Clash(wx, wy, o) ==> (z, wy) !in Clashes(wx, z, ys, o)
    ensures !Clash(wx, wy, o) ==> Clashes(wx, z, ys + {wy}, o) == Clashes(wx, z, ys, o)
  {
  }

  /** The first check of `consistent`: no word is used twice, scanning the slots in the order of `keys`. */
  method WordsDistinct(a: Assignment, keys: seq<Variable>) returns (ok: bool)
    requires Elems(keys) == a.Keys && Distinct(keys)
    ensures ok <==> DistinctWords(a)
  {
    var seen: seq<Word> := [];
    for n := 0 to |keys|
      invariant |seen| == n && forall i :: 0 <= i < n ==> seen[i] == a[keys[i]]
      invariant forall i, j :: 0 <= i < j < n ==> a[keys[i]] != a[keys[j]]
    {
      var word := a[keys[n]];
      if word in seen {
        var i :| 0 <= i < n && seen[i] == word;
        assert keys[i] in a && keys[n] in a && keys[i] != keys[n];
        return false;
      }
      seen := seen + [word];
    }
    forall x, y | x in a && y in a && x != y
      ensures a[x] != a[y]
    {
      var i :| 0 <= i < |keys| && keys[i] == x;
      var j :| 0 <= j < |keys| && keys[j] == y;
      assert i < j || j < i;
    }
    return true;
  }

  /** The second check of `consistent`: every word has its slot's length. */
  method LengthsRight(a: Assignment, keys: seq<Variable>) returns (ok: bool)
    requires Elems(keys) == a.Keys
    ensures ok <==> RightLengths(a)
  {
    for n := 0 to |keys|
      invariant forall i :: 0 <= i < n ==> |a[keys[i]]| == keys[i].length
    {
      var v := keys[n];
      if v.length != |a[v]| {
        return false;
      }
    }
    return true;
  }

  /** Assigned slots `x` and `y` agree if they cross. */
  predicate AgreeAt(cw: Crossword, a: Assignment, x: Variable, y: Variable)
    requires x in a && y in a
  {
    (x, y) in cw.overlaps ==> Fits(a[x], a[y], cw.overlaps[(x, y)])
  }

  /** The third check of `consistent`: every pair of listed slots, each pair once, agrees where it crosses. */
  method CrossingsAgree(cw: Crossword, a: Assignment, keys: seq<Variable>) returns (ok: bool)
    requires OverlapsPaired(cw) && RightLengths(a) && a.Keys <= cw.variables
    requires Elems(keys) == a.Keys && Distinct(keys)
    ensures ok <==> Agree(cw, a)
  {
    for i := 0 to |keys|
      invariant forall i', j' :: 0 <= i' < i && i' < j' < |keys| ==> AgreeAt(cw, a, keys[i'], keys[j'])
    {
      ok := LaterAgree(cw, a, keys, i);
      if !ok {
        return false;
      }
    }
    AgreeFromPairs(cw, a, keys);
    return true;
  }

  /** The inner loop of the third check: slot `keys[i]` against each slot listed after it. */
  method LaterAgree(cw: Crossword, a: Assignment, keys: seq<Variable>, i: nat) returns (ok: bool)
    requires OverlapsPaired(cw) && RightLengths(a) && a.Keys <= cw.variables
    requires Elems(keys) == a.Keys && Distinct(keys) && i < |keys|
    ensures ok <==> forall j :: i < j < |keys| ==> AgreeAt(cw, a, keys[i], keys[j])
  {
    for j := i + 1 to |keys|
      invariant forall j' :: i < j' < j ==> AgreeAt(cw, a, keys[i], keys[j'])
    {
      var x, y := keys[i], keys[j];
      var intersection := Overlap(cw, x, y);
      if intersection.Some? {
        var (k, l) := intersection.value;
        if a[x][k] != a[y][l] {
          assert !AgreeAt(cw, a, x, y);
          return false;
        }
      }
    }
    return true;
  }

  /** Agreement checked on each unordered pair of a listing of the slots is agreement on every ordered pair. */
  lemma AgreeFromPairs(cw: Crossword, a: Assignment, keys: seq<Variable>)
    requires OverlapsPaired(cw) && Elems(keys) == a.Keys
    requires forall i, j :: 0 <= i < j < |keys| ==> AgreeAt(cw, a, keys[i], keys[j])
    ensures Agree(cw, a)
  {
    forall x, y | x in a && y in a && (x, y) in cw.overlaps
      ensures Fits(a[x], a[y], cw.overlaps[(x, y)])
    {
      var i :| 0 <= i < |keys| && keys[i] == x;
      var j :| 0 <= j < |keys| && keys[j] == y;
      if j < i {
        assert AgreeAt(cw, a, y, x);
      }
    }
  }

  /** With a single slot assigned there is no pair to disagree. */
  lemma OneSlotAgrees(cw: Crossword, a: Assignment)
    requires OverlapsPaired(cw) && |a| == 1
    ensures Agree(cw, a)
  {
    var x :| x in a.Keys;
    assert |a.Keys - {x}| == 0;
    assert a.Keys == {x};
  }

  /** The `words_in_var` map of `select_unassigned_variable`: each slot of `vs` outside `a` with its domain size. */
  method DomainSizes(d: Domains, vs: set<Variable>, a: Assignment) returns (sizes: map<Variable, int>)
    requires vs <= d.Keys
    ensures sizes.Keys == vs - a.Keys
    ensures forall v :: v in sizes ==> sizes[v] == |d[v]|
  {
    sizes := map v | v in vs && v !in a :: 0;
    var todo := vs;
    while todo != {}
      invariant todo <= vs && sizes.Keys == vs - a.Keys
      invariant forall v :: v in sizes && v !in todo ==> sizes[v] == |d[v]|
      decreases todo
    {
      var v :| v in todo;
      if v !in a {
        sizes := sizes[v := |d[v]|];
      }
      todo := todo - {v};
    }
  }

  /** The `largest_degree` map of `select_unassigned_variable`: each listed slot with its number of neighbours. */
  method Degrees(cw: Crossword, vs: seq<Variable>) returns (degrees: map<Variable, int>)
    ensures degrees.Keys == Elems(vs)
    ensures forall v :: v in degrees ==> degrees[v] == |Neighbors(cw, v)|
  {
    degrees := map v | v in Elems(vs) :: 0;
    for n := 0 to |vs|
      invariant degrees.Keys == Elems(vs)
      invariant forall v :: v in degrees && v in vs[..n] ==> degrees[v] == |Neighbors(cw, v)|
    {
      assert vs[..n + 1] == vs[..n] + [vs[n]];
      degrees := degrees[vs[n] := |Neighbors(cw, vs[n])|];
    }
    assert vs[..|vs|] == vs;
  }

  /**
   * The size sort of `select_unassigned_variable`: the slots sorted by
   * domain size, the smallest size, and (in sorted order) the slots that
   * have it.
   */
  method Fewest(sizes: map<Variable, int>) returns (fewest: int, tied: seq<Variable>)
    requires sizes != map[]
    ensures |tied| > 0
    ensures forall u :: u in sizes ==> fewest <= sizes[u]
    ensures forall u :: u in tied <==> u in sizes && sizes[u] == fewest
  {
    var listed := Enumerate(sizes.Keys);
    var bySize := SortByKey(listed, sizes);
    var u0 :| u0 in sizes;
    assert u0 in multiset(listed);
    fewest := sizes[bySize[0]];
    forall u | u in sizes
      ensures fewest <= sizes[u]
    {
      assert u in multiset(listed);
      var j :| 0 <= j < |bySize| && bySize[j] == u;
      if j > 0 {
        assert sizes[bySize[0]] <= sizes[bySize[j]];
      }
    }
    tied := KeepEqual(bySize, sizes, fewest);
    assert bySize[0] in tied;
    forall u | u in sizes && sizes[u] == fewest
      ensures u in tied
    {
      assert u in multiset(listed);
    }
  }

  /** The degree sort of `select_unassigned_variable`: the last of `tied` sorted by number of neighbours, which has the most. */
  method MostNeighbors(cw: Crossword, tied: seq<Variable>) returns (v: Variable)
    requires |tied| > 0
    ensures v in tied
    ensures forall u :: u in tied ==> |Neighbors(cw, u)| <= |Neighbors(cw, v)|
  {
    var degrees := Degrees(cw, tied);
    var byDegree := SortByKey(tied, degrees);
    assert tied[0] in multiset(byDegree);
    v := byDegree[|byDegree| - 1];
    assert v in multiset(tied);
    forall u | u in tied
      ensures |Neighbors(cw, u)| <= |Neighbors(cw, v)|
    {
      assert u in multiset(byDegree);
      var j :| 0 <= j < |byDegree| && byDegree[j] == u;
      if j < |byDegree| - 1 {
        assert degrees[byDegree[j]] <= degrees[byDegree[|byDegree| - 1]];
      }
    }
  }

  /** The body of `select_unassigned_variable`, over the domains `d`. */
  method FewestThenMostNeighbors(cw: Crossword, d: Domains, a: Assignment) returns (v: Variable)
    requires d.Keys == cw.variables && !(cw.variables <= a.Keys)
    ensures v in cw.variables && v !in a
    ensures forall u :: u in cw.variables && u !in a ==> |d[v]| <= |d[u]|
    ensures forall u :: u in cw.variables && u !in a && |d[u]| == |d[v]| ==>
      |Neighbors(cw, u)| <= |Neighbors(cw, v)|
  {
    var sizes := DomainSizes(d, cw.variables, a);
    var u0 :| u0 in cw.variables && u0 !in a;
    assert u0 in sizes;
    var fewest, tied := Fewest(sizes);
    if |tied| == 1 {
      v := tied[0];
    } else {
      v := MostNeighbors(cw, tied);
    }
    assert v in sizes && sizes[v] == fewest && |d[v]| == fewest;
    forall u | u in cw.variables && u !in a && |d[u]| == fewest
      ensures u in tied
    {
      assert u in sizes;
    }
  }
}
