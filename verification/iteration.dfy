/**
 * Python's iteration over a set or a dict, and its `sorted(..., key=...)`,
 * as the crossword solver uses them. Iteration order over a set is not
 * specified, so `Enumerate` promises only some order, each element once.
 */
module Iteration {
  /** The elements of a sequence. */
  function Elems<T>(xs: seq<T>): set<T> {
    set x | x in xs
  }

  /** No element occurs twice. */
  predicate Distinct<T(==)>(xs: seq<T>) {
    forall i, j :: 0 <= i < j < |xs| ==> xs[i] != xs[j]
  }

  /** `for x in s`: some listing of `s` that names each element exactly once. */
  method Enumerate<T(==)>(s: set<T>) returns (xs: seq<T>)
    ensures Elems(xs) == s
    ensures forall x :: x in xs <==> x in s
    ensures Distinct(xs)
  {
    xs := [];
    var rest := s;
    while rest != {}
      invariant Elems(xs) !! rest && Elems(xs) + rest == s
      invariant Distinct(xs)
      decreases rest
    {
      var x :| x in rest;
      xs := xs + [x];
      rest := rest - {x};
    }
  }

  /** Appending one element adds it to the elements, and keeps a listing without repetitions so when it is new. */
  lemma Appended<T>(xs: seq<T>, x: T)
    ensures Elems(xs + [x]) == Elems(xs) + {x}
    ensures Distinct(xs) && x !in xs ==> Distinct(xs + [x])
  {
  }

  /** A listing without repetitions has the multiset of the set it lists. */
  lemma {:induction false} DistinctMultiset<T>(xs: seq<T>)
    requires Distinct(xs)
    ensures multiset(xs) == multiset(Elems(xs))
  {
    if xs != [] {
      var init := xs[..|xs| - 1];
      var last := xs[|xs| - 1];
      assert Distinct(init);
      DistinctMultiset(init);
      assert xs == init + [last];
      assert last !in Elems(init);
      assert Elems(xs) == Elems(init) + {last};
    }
  }

  /** Every element's key is no larger than the keys of the elements after it. */
  predicate SortedBy<T>(xs: seq<T>, key: map<T, int>)
    requires forall x :: x in xs ==> x in key
  {
    forall i, j :: 0 <= i < j < |xs| ==> key[xs[i]] <= key[xs[j]]
  }

  /**
   * One insertion step of the sort: `x` goes after every element whose key
   * is at most its own, so the result is still sorted.
   */
  method Insert<T>(ys: seq<T>, x: T, key: map<T, int>) returns (zs: seq<T>)
    requires x in key && forall y :: y in ys ==> y in key
    requires SortedBy(ys, key)
    ensures multiset(zs) == multiset(ys) + multiset{x}
    ensures forall z :: z in zs ==> z in key
    ensures SortedBy(zs, key)
  {
    var p := 0;
    while p < |ys| && key[ys[p]] <= key[x]
      invariant 0 <= p <= |ys|
      invariant forall i :: 0 <= i < p ==> key[ys[i]] <= key[x]
    {
      p := p + 1;
    }
    var low, high := ys[..p], ys[p..];
    assert ys == low + high;
    zs := low + [x] + high;
    assert high != [] ==> high[0] == ys[p];
    assert multiset(zs) == multiset(low) + multiset{x} + multiset(high);
    Splice(low, x, high, key);
  }

  /** Placing `x` between a sorted prefix of smaller-or-equal keys and a sorted suffix of larger keys keeps the whole sorted. */
  lemma Splice<T>(low: seq<T>, x: T, high: seq<T>, key: map<T, int>)
    requires x in key && forall y :: y in low + high ==> y in key
    requires SortedBy(low + high, key)
    requires forall i :: 0 <= i < |low| ==> key[low[i]] <= key[x]
    requires high != [] ==> key[x] < key[high[0]]
    ensures forall z :: z in low + [x] + high ==> z in key
    ensures SortedBy(low + [x] + high, key)
  {
    var ys, zs := low + high, low + [x] + high;
    assert forall i :: 0 <= i < |high| ==> high[i] == ys[|low| + i];
    assert forall z :: z in zs ==> z in ys || z == x;
    forall i, j | 0 <= i < j < |zs|
      ensures key[zs[i]] <= key[zs[j]]
    {
      if j == |low| {
        assert zs[i] == low[i];
      } else if i == |low| {
        assert zs[j] == high[j - |low| - 1];
        assert key[high[0]] <= key[high[j - |low| - 1]];
      } else if i < |low| && |low| < j {
        assert zs[i] == ys[i] && zs[j] == ys[j - 1];
      } else if j < |low| {
        assert zs[i] == ys[i] && zs[j] == ys[j];
      } else {
        assert zs[i] == ys[i - 1] && zs[j] == ys[j - 1];
      }
    }
  }

  /**
   * `sorted(xs, key=...)`: the same elements, each as often as in `xs`, in
   * non-decreasing order of their keys.
   */
  method SortByKey<T>(xs: seq<T>, key: map<T, int>) returns (ys: seq<T>)
    requires forall x :: x in xs ==> x in key
    ensures multiset(ys) == multiset(xs)
    ensures forall y :: y in ys ==> y in key
    ensures SortedBy(ys, key)
  {
    ys := [];
    for n := 0 to |xs|
      invariant multiset(ys) == multiset(xs[..n])
      invariant forall y :: y in ys ==> y in key
      invariant SortedBy(ys, key)
    {
      ys := Insert(ys, xs[n], key);
      assert xs[..n + 1] == xs[..n] + [xs[n]];
    }
    assert xs[..|xs|] == xs;
  }

  /** The elements of `xs` whose key is `k`, in their order in `xs`. */
  method KeepEqual<T>(xs: seq<T>, key: map<T, int>, k: int) returns (ys: seq<T>)
    requires forall x :: x in xs ==> x in key
    ensures forall y :: y in ys <==> y in xs && key[y] == k
  {
    ys := [];
    for n := 0 to |xs|
      invariant forall y :: y in ys <==> y in xs[..n] && key[y] == k
    {
      assert xs[..n + 1] == xs[..n] + [xs[n]];
      if key[xs[n]] == k {
        ys := ys + [xs[n]];
      }
    }
    assert xs[..|xs|] == xs;
  }
}
