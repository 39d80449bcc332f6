/**
 Sequences without repetition, and sizes of sets.
 */
module Lists {

  ghost predicate Distinct<T>(q: seq<T>) {
    forall i, j :: 0 <= i < j < |q| ==> q[i] != q[j]
  }

  /** The sequence without its entry k. */
  function Without<T>(q: seq<T>, k: nat): (r: seq<T>)
    requires k < |q|
  {
    q[..k] + q[k + 1..]
  }

  lemma SubsetSize<T>(a: set<T>, b: set<T>)
    requires a <= b
    ensures |a| <= |b|
  {
    assert b == a + (b - a);
  }
}
