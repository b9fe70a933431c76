/**
 * Python list operations that the Minesweeper agent uses to prune its
 * knowledge, on values: `list.remove` (which deletes the first equal element
 * and raises `ValueError` when there is none), a run of removals, and the
 * list of duplicates that `remove_equal_sentences` collects.
 */
module KnowledgeLists {
  import opened Wrappers

  /** The position of the first element equal to `x`, or `|xs|` when no element is. */
  function IndexOf<T(==)>(xs: seq<T>, x: T): (k: nat)
    ensures k <= |xs|
    ensures k < |xs| ==> xs[k] == x
    ensures forall i :: 0 <= i < k ==> xs[i] != x
    decreases |xs|
  {
    if xs == [] then 0
    else if xs[0] == x then 0
    else 1 + IndexOf(xs[1..], x)
  }

  lemma {:induction false} IndexOfIsFirst<T>(xs: seq<T>, x: T, k: nat)
    requires k <= |xs| && (k < |xs| ==> xs[k] == x)
    requires forall i :: 0 <= i < k ==> xs[i] != x
    ensures IndexOf(xs, x) == k
    decreases |xs|
  {
    if xs != [] && k > 0 {
      IndexOfIsFirst(xs[1..], x, k - 1);
    }
  }

  /**
   * `list.remove(x)`: the list without its first element equal to `x`;
   * `None` (the source's `ValueError`) when `x` does not occur.
   */
  function RemoveFirst<T(==)>(xs: seq<T>, x: T): (r: Option<seq<T>>)
    ensures r.None? <==> x !in xs
    ensures r.Some? ==> multiset(r.value) == multiset(xs) - multiset{x}
  {
    var k := IndexOf(xs, x);
    if k == |xs| then
      None
    else
      assert xs == xs[..k] + [x] + xs[k + 1..];
      Some(xs[..k] + xs[k + 1..])
  }

  /** `for r in rs: xs.remove(r)`: the removals in order, stopping with `None` at the first that raises. */
  function RemoveEach<T(==)>(xs: seq<T>, rs: seq<T>): (r: Option<seq<T>>)
    ensures r.Some? ==> |r.value| + |rs| == |xs|
    decreases |rs|
  {
    if rs == [] then Some(xs)
    else
      match RemoveFirst(xs, rs[0])
      case None => None
      case Some(ys) => RemoveEach(ys, rs[1..])
  }

  /**
   * The list as the removals of `RemoveEach` leave it: after the last one,
   * or, since `list.remove` works in place, with the removals before the
   * first that raises already done.
   */
  function RemovedSoFar<T(==)>(xs: seq<T>, rs: seq<T>): (r: seq<T>)
    ensures RemoveEach(xs, rs).Some? ==> r == RemoveEach(xs, rs).value
    ensures multiset(r) <= multiset(xs)
    decreases |rs|
  {
    if rs == [] then xs
    else
      match RemoveFirst(xs, rs[0])
      case None => xs
      case Some(ys) => RemovedSoFar(ys, rs[1..])
  }

  /**
   * A run of removals succeeds exactly when every value is removed at most
   * as often as it occurs, and then it takes away exactly those occurrences.
   */
  lemma {:induction false} RemoveEachCounts<T>(xs: seq<T>, rs: seq<T>)
    ensures RemoveEach(xs, rs).Some? <==> multiset(rs) <= multiset(xs)
    ensures RemoveEach(xs, rs).Some? ==> multiset(RemoveEach(xs, rs).value) == multiset(xs) - multiset(rs)
    decreases |rs|
  {
    if rs != [] {
      assert rs == [rs[0]] + rs[1..];
      match RemoveFirst(xs, rs[0])
      case None =>
        assert multiset(rs)[rs[0]] > multiset(xs)[rs[0]];
      case Some(ys) =>
        RemoveEachCounts(ys, rs[1..]);
        assert multiset(rs) == multiset{rs[0]} + multiset(rs[1..]);
        assert rs[0] in multiset(xs);
    }
  }

  /** A run of removals that succeeds leaves only elements that were there. */
  lemma RemoveEachKeeps<T>(xs: seq<T>, rs: seq<T>)
    ensures RemoveEach(xs, rs).Some? ==> forall x :: x in RemoveEach(xs, rs).value ==> x in xs
  {
    RemoveEachCounts(xs, rs);
    if RemoveEach(xs, rs).Some? {
      var ys := RemoveEach(xs, rs).value;
      forall x | x in ys
        ensures x in xs
      {
        assert x in multiset(ys);
      }
    }
  }

  /** The elements `x` of `xs` with `p(x) == keep`, in order. */
  function Filter<T>(xs: seq<T>, p: T -> bool, keep: bool): (r: seq<T>)
    ensures forall x :: x in r ==> x in xs && p(x) == keep
    decreases |xs|
  {
    if xs == [] then []
    else (if p(xs[0]) == keep then [xs[0]] else []) + Filter(xs[1..], p, keep)
  }

  lemma {:induction false} FilterSnoc<T>(xs: seq<T>, x: T, p: T -> bool, keep: bool)
    ensures Filter(xs + [x], p, keep) == Filter(xs, p, keep) + (if p(x) == keep then [x] else [])
    decreases |xs|
  {
    if xs != [] {
      assert (xs + [x])[1..] == xs[1..] + [x];
      FilterSnoc(xs[1..], x, p, keep);
    }
  }

  lemma RemoveFirstPastHead<T>(x: T, ys: seq<T>, r: T)
    requires r != x
    ensures RemoveFirst([x] + ys, r) == match RemoveFirst(ys, r) case None => None case Some(zs) => Some([x] + zs)
  {
    var xs := [x] + ys;
    assert xs[1..] == ys;
    var k := IndexOf(ys, r);
    assert IndexOf(xs, r) == 1 + k;
    if k < |ys| {
      assert xs[..k + 1] + xs[k + 2..] == [x] + (ys[..k] + ys[k + 1..]);
    }
  }

  /** Removals that never name the head `x` leave it in place and act on the rest. */
  lemma {:induction false} RemoveEachPastHead<T>(x: T, ys: seq<T>, rs: seq<T>)
    requires x !in rs
    ensures RemoveEach([x] + ys, rs) == match RemoveEach(ys, rs) case None => None case Some(zs) => Some([x] + zs)
    decreases |rs|
  {
    if rs != [] {
      RemoveFirstPastHead(x, ys, rs[0]);
      match RemoveFirst(ys, rs[0])
      case None =>
      case Some(zs) =>
        RemoveEachPastHead(x, zs, rs[1..]);
    }
  }

  /** Removing the head first, then the rest, acts on the tail. */
  lemma RemoveEachHead<T>(x: T, ys: seq<T>, rs: seq<T>)
    ensures RemoveEach([x] + ys, [x] + rs) == RemoveEach(ys, rs)
  {
    var xs := [x] + ys;
    assert IndexOf(xs, x) == 0;
    assert xs[..0] + xs[1..] == ys;
    assert ([x] + rs)[1..] == rs;
  }

  /**
   * `remove_no_cells`: collecting the elements that satisfy `p` and then
   * removing each of them leaves exactly the others, in their order; no
   * removal raises.
   */
  lemma {:induction false} RemoveEachMatching<T>(xs: seq<T>, p: T -> bool)
    ensures RemoveEach(xs, Filter(xs, p, true)) == Some(Filter(xs, p, false))
    decreases |xs|
  {
    if xs != [] {
      var ys := xs[1..];
      assert xs == [xs[0]] + ys;
      RemoveEachMatching(ys, p);
      if p(xs[0]) {
        assert Filter(xs, p, true) == [xs[0]] + Filter(ys, p, true);
        assert Filter(xs, p, false) == Filter(ys, p, false);
        RemoveEachHead(xs[0], ys, Filter(ys, p, true));
      } else {
        assert Filter(xs, p, true) == Filter(ys, p, true);
        assert Filter(xs, p, false) == [xs[0]] + Filter(ys, p, false);
        RemoveEachPastHead(xs[0], ys, Filter(ys, p, true));
      }
    }
  }

  /** The elements of `ys` equal to `s`, in order. */
  function Copies<T(==, !new)>(ys: seq<T>, s: T): (r: seq<T>)
    ensures forall v :: multiset(r)[v] == if v == s then multiset(ys)[v] else 0
    decreases |ys|
  {
    if ys == [] then []
    else
      var last := ys[|ys| - 1];
      assert ys == ys[..|ys| - 1] + [last];
      Copies(ys[..|ys| - 1], s) + (if last == s then [last] else [])
  }

  /**
   * The `list_to_remove` of `remove_equal_sentences`: pop the last element,
   * then collect every remaining element equal to it; repeat until empty.
   */
  function EqualPairs<T(==, !new)>(xs: seq<T>): (r: seq<T>)
    ensures forall v :: v in r ==> multiset(xs)[v] >= 2
    decreases |xs|
  {
    if xs == [] then []
    else
      var s := xs[|xs| - 1];
      var ys := xs[..|xs| - 1];
      assert xs == ys + [s];
      assert forall v :: v in Copies(ys, s) ==> v == s && multiset(ys)[v] >= 1 by {
        forall v | v in Copies(ys, s)
          ensures v == s && multiset(ys)[v] >= 1
        {
          assert multiset(Copies(ys, s))[v] >= 1;
        }
      }
      Copies(ys, s) + EqualPairs(ys)
  }

  /** The number of pairs among `k` things. */
  function Pairs(k: int): int {
    k * (k - 1) / 2
  }

  lemma PairsStep(m: int)
    ensures Pairs(m + 1) == m + Pairs(m)
  {
    assert (m + 1) * m == m * (m - 1) + 2 * m;
  }

  /** `k - Pairs(k)` copies survive: the removals fit exactly when `k <= 3`. */
  lemma PairsAgainstCopies(k: nat)
    ensures Pairs(k) <= k <==> k <= 3
    ensures k <= 3 ==> k - Pairs(k) == if k == 1 || k == 2 then 1 else 0
  {
    if k >= 4 {
      assert k * (k - 1) >= 4 * (k - 1);
    } else {
      assert k == 0 || k == 1 || k == 2 || k == 3;
    }
  }

  /** A value occurring `k` times is collected once per pair of its copies: `k(k-1)/2` times. */
  lemma {:induction false} EqualPairsCount<T(!new)>(xs: seq<T>, v: T)
    ensures multiset(EqualPairs(xs))[v] == Pairs(multiset(xs)[v])
    decreases |xs|
  {
    if xs != [] {
      var s := xs[|xs| - 1];
      var ys := xs[..|xs| - 1];
      assert xs == ys + [s];
      EqualPairsCount(ys, v);
      var m := multiset(ys)[v];
      assert multiset(EqualPairs(xs)) == multiset(Copies(ys, s)) + multiset(EqualPairs(ys));
      if v == s {
        assert multiset(xs)[v] == m + 1;
        PairsStep(m);
      } else {
        assert multiset(xs)[v] == m;
      }
    }
  }

  /**
   * `remove_equal_sentences` as written: it raises `ValueError` exactly when
   * some value occurs four times or more. Otherwise a value that occurred
   * once or twice is left exactly once and a value that occurred three
   * times is gone altogether.
   */
  lemma RemoveEqualOutcome<T(!new)>(xs: seq<T>)
    ensures RemoveEach(xs, EqualPairs(xs)).Some? <==> forall v :: multiset(xs)[v] <= 3
    ensures RemoveEach(xs, EqualPairs(xs)).Some? ==>
      forall v :: multiset(RemoveEach(xs, EqualPairs(xs)).value)[v] == if multiset(xs)[v] == 1 || multiset(xs)[v] == 2 then 1 else 0
  {
    var pairs := EqualPairs(xs);
    RemoveEachCounts(xs, pairs);
    forall v
      ensures multiset(pairs)[v] <= multiset(xs)[v] <==> multiset(xs)[v] <= 3
      ensures multiset(pairs)[v] <= multiset(xs)[v] ==>
        multiset(xs)[v] - multiset(pairs)[v] == if multiset(xs)[v] == 1 || multiset(xs)[v] == 2 then 1 else 0
    {
      EqualPairsCount(xs, v);
      PairsAgainstCopies(multiset(xs)[v]);
    }
  }

  /**
   * `for r in rs: xs.remove(r)` on the list `xs`: `ok` is false where a
   * removal raises, and `ys` is the list as the removals leave it.
   */
  method RemoveAll<T(==)>(xs: seq<T>, rs: seq<T>) returns (ok: bool, ys: seq<T>)
    ensures ok <==> RemoveEach(xs, rs).Some?
    ensures ys == RemovedSoFar(xs, rs)
  {
    ys := xs;
    for k := 0 to |rs|
      invariant RemoveEach(ys, rs[k..]) == RemoveEach(xs, rs)
      invariant RemovedSoFar(ys, rs[k..]) == RemovedSoFar(xs, rs)
    {
      RemoveStep(ys, rs, k);
      var removed := RemoveFirst(ys, rs[k]);
      if removed.None? {
        return false, ys;
      }
      ys := removed.value;
    }
    assert rs[|rs|..] == [];
    return true, ys;
  }

  /** One removal of `RemoveAll`, as `RemoveEach` and `RemovedSoFar` see it. */
  lemma RemoveStep<T>(ys: seq<T>, rs: seq<T>, k: nat)
    requires k < |rs|
    ensures RemoveFirst(ys, rs[k]).None? ==> RemoveEach(ys, rs[k..]).None? && RemovedSoFar(ys, rs[k..]) == ys
    ensures RemoveFirst(ys, rs[k]).Some? ==>
      var zs := RemoveFirst(ys, rs[k]).value;
      RemoveEach(ys, rs[k..]) == RemoveEach(zs, rs[k + 1..]) && RemovedSoFar(ys, rs[k..]) == RemovedSoFar(zs, rs[k + 1..])
  {
    assert rs[k..][0] == rs[k] && rs[k..][1..] == rs[k + 1..];
  }

  /** The removals only take elements away. */
  lemma RemovedSoFarKeeps<T>(xs: seq<T>, rs: seq<T>)
    ensures forall x :: x in RemovedSoFar(xs, rs) ==> x in xs
  {
    var ys := RemovedSoFar(xs, rs);
    forall x | x in ys
      ensures x in xs
    {
      assert x in multiset(ys);
    }
  }

  /** The loop that appends each element satisfying `p` to a new list. */
  method Collect<T>(xs: seq<T>, p: T -> bool) returns (ys: seq<T>)
    ensures ys == Filter(xs, p, true)
  {
    ys := [];
    for k := 0 to |xs|
      invariant ys == Filter(xs[..k], p, true)
    {
      FilterSnoc(xs[..k], xs[k], p, true);
      assert xs[..k + 1] == xs[..k] + [xs[k]];
      if p(xs[k]) {
        ys := ys + [xs[k]];
      }
    }
    assert xs[..|xs|] == xs;
  }

  /**
   * The loops of `remove_equal_sentences` that build `list_to_remove`: pop
   * the last element of a copy, then append every remaining element equal
   * to it.
   */
  method EqualCopies<T(==, !new)>(xs: seq<T>) returns (toRemove: seq<T>)
    ensures toRemove == EqualPairs(xs)
  {
    var toVerify := xs;
    toRemove := [];
    while |toVerify| != 0
      invariant toRemove + EqualPairs(toVerify) == EqualPairs(xs)
      decreases |toVerify|
    {
      ghost var whole := toVerify;
      var s := toVerify[|toVerify| - 1];
      toVerify := toVerify[..|toVerify| - 1];
      ghost var before := toRemove;
      for j := 0 to |toVerify|
        invariant toRemove == before + Copies(toVerify[..j], s)
      {
        assert toVerify[..j + 1][..j] == toVerify[..j];
        if toVerify[j] == s {
          toRemove := toRemove + [toVerify[j]];
        }
      }
      assert toVerify[..|toVerify|] == toVerify;
      assert toRemove + EqualPairs(toVerify) == before + EqualPairs(whole);
    }
  }

  /** The loop that sets a flag when some element of `xs` equals `x` (`already_exists`). */
  method Occurs<T(==)>(xs: seq<T>, x: T) returns (found: bool)
    ensures found <==> x in xs
  {
    found := false;
    for k := 0 to |xs|
      invariant found <==> x in xs[..k]
    {
      assert xs[..k + 1] == xs[..k] + [xs[k]];
      if xs[k] == x {
        found := true;
      }
    }
    assert xs[..|xs|] == xs;
  }
}
