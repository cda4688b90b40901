/** Cardinality facts about finite sets that the graph counting proofs use. */
module SetFacts {

  /** A subset is no larger than its superset. */
  lemma SubsetSize<T>(a: set<T>, b: set<T>)
    requires a <= b
    ensures |a| <= |b|
  {
    assert b == a + (b - a);
    assert a * (b - a) == {};
  }

  /** A subset as large as its superset is the superset. */
  lemma SubsetSameSize<T>(a: set<T>, b: set<T>)
    requires a <= b && |a| == |b|
    ensures a == b
  {
    assert b == a + (b - a);
    assert a * (b - a) == {};
    assert |b - a| == 0;
    assert forall x :: x in b ==> x in a;
  }

  /** The intersection of two sets is no larger than their union, and as large exactly when the sets are equal. */
  lemma MeetAndJoin<T>(a: set<T>, b: set<T>)
    ensures |a * b| <= |a + b|
    ensures |a * b| == |a + b| <==> a == b
  {
    SubsetSize(a * b, a + b);
    assert a == b ==> a * b == a + b;
    if |a * b| == |a + b| {
      SubsetSameSize(a * b, a + b);
      assert a <= a + b && b <= a + b;
      assert a == b;
    }
  }
}
