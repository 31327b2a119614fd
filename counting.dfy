/** Small counting facts shared by the generator and the clustering coefficient. */
module Counting {

  /** The number of unordered pairs that can be drawn from k items, C(k, 2),
      defined by adding the k-th item to the pairs of the first k - 1. */
  function Choose2(k: nat): nat
  {
    if k == 0 then 0 else Choose2(k - 1) + (k - 1)
  }

  /** The closed form `k * (k - 1) // 2` that the source computes. */
  lemma {:induction false} Choose2ClosedForm(k: nat)
    ensures Choose2(k) == k * (k - 1) / 2
  {
    if k > 0 {
      Choose2ClosedForm(k - 1);
      assert k * (k - 1) == (k - 1) * (k - 2) + 2 * (k - 1);
    }
  }

  /** A set that is not empty has a member. */
  lemma Inhabited(s: set<int>)
    requires s != {}
    ensures exists x :: x in s
  {
    if forall x :: x !in s {
      assert false;
    }
  }
}
