/**
  Facts about multiset difference used when reasoning about which files a
  loop dropped.
 */
module Multisets {

  /** Splitting what was dropped in two stages. */
  lemma DroppedInStages<T>(e: multiset<T>, k1: multiset<T>, k2: multiset<T>)
    requires k2 <= k1 <= e
    ensures e - k2 == (e - k1) + (k1 - k2)
  {
    assert forall x :: (e - k2)[x] == ((e - k1) + (k1 - k2))[x];
  }

  /** Adding the same element to both sides does not change a difference. */
  lemma DiffAddBoth<T>(e: multiset<T>, h: multiset<T>, x: T)
    ensures (e + multiset{x}) - (h + multiset{x}) == e - h
  {
    assert forall y :: ((e + multiset{x}) - (h + multiset{x}))[y] == (e - h)[y];
  }
}
