/**
  Reconciliation after the scan: the free space is probed a second time and the
  candidate set is trimmed to the deficit that probe implies, without walking
  the tree again.
 */
module Reconciliation {
  import opened Files
  import opened CandidateHeap
  import opened Selection

  const I64Max: int := 0x7FFF_FFFF_FFFF_FFFF

  /** The signed deficit `target as i64 - available as i64`. With both values
      at most `i64::MAX` the casts keep their values and the difference fits
      in an `i64`. It is positive exactly when space is still short. */
  function RecomputedDeficit(target: nat, available: nat): (d: int)
    requires target <= I64Max && available <= I64Max
    ensures -I64Max <= d <= I64Max
    ensures d > 0 <==> available < target
    ensures d > 0 ==> available + d == target
  {
    target - available
  }

  /** The reconciliation loop. While the heap is not empty, the newest member
      is popped if the rest would still exceed the new deficit; otherwise the
      loop stops. A pop only happens when the rest stays above a positive
      deficit, so a non-empty heap never runs dry here. The loop is the
      scan's eviction loop run once more with the new deficit. */
  function Reconcile(s: ScanState, deficit: int): (r: ScanState)
    requires Consistent(s) && deficit > 0
    ensures Consistent(r)
    ensures multiset(r.heap) <= multiset(s.heap)
    ensures |r.heap| == 0 <==> |s.heap| == 0
    ensures |r.heap| > 0 ==> r.aggregate - Peek(r.heap).size <= deficit
    ensures r == s || r.aggregate > deficit
    ensures NoneNewerThan(multiset(r.heap), multiset(s.heap) - multiset(r.heap))
  {
    if |s.heap| == 0 then
      assert multiset(s.heap) - multiset(s.heap) == multiset{};
      s
    else Evict(s, deficit as nat)
  }

  /** If the deficit has not shrunk since the scan, the scanned set already
      is a near-minimal cover of it and reconciliation removes nothing. */
  lemma ReconcileKeepsSetWhenDeficitGrew(files: seq<FileInfo>, cutoff: int, deficit: nat, newDeficit: int)
    requires 0 < deficit <= newDeficit
    ensures Reconcile(Scan(files, cutoff, deficit), newDeficit) == Scan(files, cutoff, deficit)
  {
    var s := Scan(files, cutoff, deficit);
    ScanIsNearMinimalCover(files, cutoff, deficit);
    if |s.heap| > 0 {
      EvictStops(s, newDeficit as nat);
    }
  }

  /** After reconciliation the set covers the new deficit, or it is the
      scanned set unchanged, which in turn covers the old deficit or holds
      every eligible file. */
  lemma ReconciledSetCovers(files: seq<FileInfo>, cutoff: int, deficit: nat, newDeficit: int)
    requires deficit > 0 && newDeficit > 0
    ensures var s := Scan(files, cutoff, deficit);
      var r := Reconcile(s, newDeficit);
      || r.aggregate > newDeficit
      || (r == s && (s.aggregate >= deficit || multiset(s.heap) == multiset(OlderThan(files, cutoff))))
  {
    ScanIsNearMinimalCover(files, cutoff, deficit);
  }

  /** The reconciled set still consists of the oldest eligible files. */
  lemma ReconciledSetKeepsOldest(files: seq<FileInfo>, cutoff: int, deficit: nat, newDeficit: int)
    requires deficit > 0 && newDeficit > 0
    ensures var r := Reconcile(Scan(files, cutoff, deficit), newDeficit);
      && multiset(r.heap) <= multiset(OlderThan(files, cutoff))
      && NoneNewerThan(multiset(r.heap), multiset(OlderThan(files, cutoff)) - multiset(r.heap))
  {
    var s := Scan(files, cutoff, deficit);
    var r := Reconcile(s, newDeficit);
    ScanEstablishesInvariant(files, cutoff, deficit);
    NoneNewerThanStages(multiset(OlderThan(files, cutoff)), multiset(s.heap), multiset(r.heap));
  }
}
