/** Facts about the sizes of finite sets. */
module Cardinality {
  /** A subset is no larger than the set containing it. */
  lemma {:induction false} SubsetCard<T>(a: set<T>, b: set<T>)
    requires a <= b
    ensures |a| <= |b|
    decreases |a|
  {
    if a != {} {
      var x :| x in a;
      SubsetCard(a - {x}, b - {x});
    }
  }

  /** The union of two disjoint sets has the sum of their sizes. */
  lemma {:induction false} DisjointCard<T>(a: set<T>, b: set<T>)
    requires a !! b
    ensures |a + b| == |a| + |b|
    decreases |a|
  {
    if a != {} {
      var x :| x in a;
      DisjointCard(a - {x}, b);
      assert a + b == (a - {x}) + b + {x};
    }
  }

  /** A subset of a set is the whole set exactly when the two have the same size. */
  lemma SubsetSameSize<T>(a: set<T>, b: set<T>)
    ensures a <= b ==> (|a| == |b| <==> a == b)
  {
    if a < b {
      var x :| x in b && x !in a;
      SubsetCard(a, b - {x});
    }
  }
}
