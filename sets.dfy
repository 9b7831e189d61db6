/** Counting facts about finite sets, used to show that searches end. */
module Sets {

  /** Removing an element from a superset strictly lowers the count. */
  lemma CardinalityMonotone<T>(a: set<T>, b: set<T>, e: T)
    requires a <= b && e in b && e !in a
    ensures |a| < |b|
  {
    assert |b| == |b - {e}| + 1;
    assert a <= b - {e};
    SubsetCardinality(a, b - {e});
  }

  /** A subset is no larger. */
  lemma SubsetCardinality<T>(a: set<T>, b: set<T>)
    requires a <= b
    ensures |a| <= |b|
  {
    assert b == a + (b - a);
  }
}
