/**
  The selection scan: one pass over the file stream that keeps, in a max-heap
  by recency, the oldest eligible files whose sizes cover the byte deficit,
  evicting the newest members once they are no longer needed.
 */
module Selection {
  import opened Files
  import opened CandidateHeap
  import opened Multisets

  /** `files_to_delete` together with `aggregate_heap_file_size`. */
  datatype ScanState = ScanState(heap: Heap, aggregate: nat)

  /** The running total is the byte count of the heap's contents. */
  predicate Consistent(s: ScanState) {
    s.aggregate == TotalSize(s.heap)
  }

  /** Bytes to free before the scan. It is computed only when the volume has
      less free space than the target, so the unsigned subtraction is exact
      and the deficit is positive. */
  function Deficit(available: nat, target: nat): (d: nat)
    requires available < target
    ensures d > 0
    ensures available + d == target
  {
    target - available
  }

  /** Whether the scan pushes `f`. The newest member is consulted only once
      the total has reached the deficit, and then the heap cannot be empty:
      the `peek().unwrap()` in the admission test never fails. */
  predicate Admits(s: ScanState, f: FileInfo, cutoff: int, deficit: nat)
    requires Consistent(s) && deficit > 0
  {
    f.accessed < cutoff
    && (s.aggregate < deficit
        || (TotalSizePositive(s.heap); f.accessed <= Peek(s.heap).accessed))
  }

  /** The eviction loop that follows each push: pop the newest member while the
      rest of the heap would still exceed the deficit. The subtraction in the
      guard never underflows, the loop never empties the heap, and every
      member it removes was accessed no earlier than every member it keeps. */
  function Evict(s: ScanState, deficit: nat): (r: ScanState)
    requires Consistent(s) && |s.heap| > 0
    ensures Consistent(r) && |r.heap| > 0
    ensures r.aggregate - Peek(r.heap).size <= deficit
    ensures multiset(r.heap) <= multiset(s.heap)
    ensures r == s || r.aggregate > deficit
    ensures NoneNewerThan(multiset(r.heap), multiset(s.heap) - multiset(r.heap))
    decreases |s.heap|
  {
    var newest := Peek(s.heap);
    var rest: nat := s.aggregate - newest.size;
    if rest > deficit then
      var popped := Pop(s.heap);
      TotalSizePositive(popped);
      var r := Evict(ScanState(popped, rest), deficit);
      PopNewestThenMore(multiset(s.heap), newest, multiset(popped), multiset(r.heap));
      r
    else
      assert multiset(s.heap) - multiset(s.heap) == multiset{};
      s
  }

  lemma {:induction false} EvictStops(s: ScanState, deficit: nat)
    requires Consistent(s) && |s.heap| > 0
    requires s.aggregate - Peek(s.heap).size <= deficit
    ensures Evict(s, deficit) == s
  {
  }

  /** One iteration of the scan loop over a regular file `f`. A file that is
      not admitted leaves the state as it was; an admitted one is pushed, and
      the eviction loop then trims the heap back to a near-minimal cover from
      which only the newest members have gone. */
  function Step(s: ScanState, f: FileInfo, cutoff: int, deficit: nat): (r: ScanState)
    requires Consistent(s) && deficit > 0
    ensures Consistent(r)
    ensures !Admits(s, f, cutoff, deficit) ==> r == s
    ensures Admits(s, f, cutoff, deficit) ==>
      var pushed := multiset(s.heap) + multiset{f};
      && |r.heap| > 0
      && r.aggregate - Peek(r.heap).size <= deficit
      && multiset(r.heap) <= pushed
      && (multiset(r.heap) == pushed || r.aggregate > deficit)
      && NoneNewerThan(multiset(r.heap), pushed - multiset(r.heap))
  {
    if Admits(s, f, cutoff, deficit) then
      Evict(ScanState(Push(s.heap, f), s.aggregate + f.size), deficit)
    else s
  }

  /** The whole scan, as a fold of `Step` over the stream in traversal order. */
  function Scan(files: seq<FileInfo>, cutoff: int, deficit: nat): (r: ScanState)
    requires deficit > 0
    ensures Consistent(r)
  {
    if |files| == 0 then ScanState([], 0)
    else Step(Scan(files[..|files| - 1], cutoff, deficit), files[|files| - 1], cutoff, deficit)
  }

  /** What holds of the scan state once the eligible files seen so far are
      `eligible`: the heap is drawn from them, it is a near-minimal cover of
      the deficit, it holds all of them while the deficit is not yet
      covered, and it holds the oldest of them. */
  ghost predicate HeapInvariant(s: ScanState, eligible: multiset<FileInfo>, deficit: nat) {
    && Consistent(s)
    && multiset(s.heap) <= eligible
    && (|s.heap| > 0 ==> s.aggregate - Peek(s.heap).size <= deficit)
    && (s.aggregate < deficit ==> multiset(s.heap) == eligible)
    && NoneNewerThan(multiset(s.heap), eligible - multiset(s.heap))
  }

  /** The invariant after the prefix `seen` of the stream. */
  ghost predicate ScanInvariant(s: ScanState, seen: seq<FileInfo>, cutoff: int, deficit: nat) {
    HeapInvariant(s, multiset(OlderThan(seen, cutoff)), deficit)
  }

  lemma OlderThanSnoc(seen: seq<FileInfo>, f: FileInfo, cutoff: int)
    ensures OlderThan(seen + [f], cutoff)
            == if f.accessed < cutoff then OlderThan(seen, cutoff) + [f] else OlderThan(seen, cutoff)
  {
    assert (seen + [f])[..|seen|] == seen;
  }

  /** A pushed file is no newer than any eligible file dropped before it. */
  lemma {:induction false} AdmittedIsNoNewerThanDropped(s: ScanState, e: multiset<FileInfo>, f: FileInfo, cutoff: int, deficit: nat)
    requires deficit > 0
    requires HeapInvariant(s, e, deficit)
    requires Admits(s, f, cutoff, deficit)
    ensures NoneNewerThan(multiset(s.heap) + multiset{f}, (e + multiset{f}) - (multiset(s.heap) + multiset{f}))
  {
    var h := multiset(s.heap);
    if s.aggregate < deficit {
      assert e - h == multiset{};
    } else {
      TotalSizePositive(s.heap);
      assert Peek(s.heap) in h;
    }
    DiffAddBoth(e, h, f);
  }

  /** Admitting `f` and running the eviction loop preserves the invariant. */
  lemma {:induction false} AdmitPreservesInvariant(s: ScanState, e: multiset<FileInfo>, f: FileInfo, cutoff: int, deficit: nat)
    requires deficit > 0
    requires HeapInvariant(s, e, deficit)
    requires Admits(s, f, cutoff, deficit)
    ensures HeapInvariant(Step(s, f, cutoff, deficit), e + multiset{f}, deficit)
  {
    var h1 := multiset(s.heap) + multiset{f};
    var r := Step(s, f, cutoff, deficit);
    AdmittedIsNoNewerThanDropped(s, e, f, cutoff, deficit);
    NoneNewerThanStages(e + multiset{f}, h1, multiset(r.heap));
    if r.aggregate < deficit {
      assert multiset(s.heap) == e;
    }
  }

  /** Skipping an eligible `f` preserves the invariant: the heap already
      covers the deficit and `f` is newer than all of it. */
  lemma {:induction false} SkipPreservesInvariant(s: ScanState, e: multiset<FileInfo>, f: FileInfo, cutoff: int, deficit: nat)
    requires deficit > 0
    requires HeapInvariant(s, e, deficit)
    requires f.accessed < cutoff && !Admits(s, f, cutoff, deficit)
    ensures HeapInvariant(Step(s, f, cutoff, deficit), e + multiset{f}, deficit)
  {
    var h := multiset(s.heap);
    TotalSizePositive(s.heap);
    assert (e + multiset{f}) - h == (e - h) + multiset{f};
    forall k, d | k in h && d in (e + multiset{f}) - h
      ensures k.accessed <= d.accessed
    {
      if d !in e - h {
        assert d == f;
      }
    }
  }

  /** `Step` preserves the scan invariant. */
  lemma {:induction false} StepPreservesInvariant(s: ScanState, seen: seq<FileInfo>, f: FileInfo, cutoff: int, deficit: nat)
    requires deficit > 0
    requires ScanInvariant(s, seen, cutoff, deficit)
    ensures ScanInvariant(Step(s, f, cutoff, deficit), seen + [f], cutoff, deficit)
    ensures f.accessed >= cutoff ==>
      Step(s, f, cutoff, deficit) == s && OlderThan(seen + [f], cutoff) == OlderThan(seen, cutoff)
  {
    OlderThanSnoc(seen, f, cutoff);
    var e := multiset(OlderThan(seen, cutoff));
    if f.accessed < cutoff {
      assert multiset(OlderThan(seen + [f], cutoff)) == e + multiset{f};
      if Admits(s, f, cutoff, deficit) {
        AdmitPreservesInvariant(s, e, f, cutoff, deficit);
      } else {
        SkipPreservesInvariant(s, e, f, cutoff, deficit);
      }
    }
  }

  /** The invariant holds after every prefix of the stream, hence after the
      whole scan. */
  lemma {:induction false} ScanEstablishesInvariant(files: seq<FileInfo>, cutoff: int, deficit: nat)
    requires deficit > 0
    ensures ScanInvariant(Scan(files, cutoff, deficit), files, cutoff, deficit)
    decreases |files|
  {
    if |files| > 0 {
      var init := files[..|files| - 1];
      var last := files[|files| - 1];
      assert init + [last] == files;
      ScanEstablishesInvariant(init, cutoff, deficit);
      StepPreservesInvariant(Scan(init, cutoff, deficit), init, last, cutoff, deficit);
    }
  }

  /** Only files accessed before the cutoff are ever kept, and each kept file
      comes from the stream. */
  lemma ScanRespectsCutoff(files: seq<FileInfo>, cutoff: int, deficit: nat)
    requires deficit > 0
    ensures multiset(Scan(files, cutoff, deficit).heap) <= multiset(files)
    ensures forall k :: k in multiset(Scan(files, cutoff, deficit).heap) ==> k.accessed < cutoff
  {
    ScanEstablishesInvariant(files, cutoff, deficit);
    var h := multiset(Scan(files, cutoff, deficit).heap);
    var e := OlderThan(files, cutoff);
    forall k | k in h
      ensures k.accessed < cutoff
    {
      assert k in multiset(e);
      assert k in e;
    }
  }

  /** The scan either covers the deficit or keeps every eligible file (the
      target is then out of reach), and once it covers the deficit it holds
      no member beyond the newest one that is needed. */
  lemma ScanIsNearMinimalCover(files: seq<FileInfo>, cutoff: int, deficit: nat)
    requires deficit > 0
    ensures var r := Scan(files, cutoff, deficit);
      && (r.aggregate >= deficit || multiset(r.heap) == multiset(OlderThan(files, cutoff)))
      && (|r.heap| > 0 ==> r.aggregate - Peek(r.heap).size <= deficit)
  {
    ScanEstablishesInvariant(files, cutoff, deficit);
  }

  /** The kept files are the oldest eligible ones: no eligible file left out
      was accessed before a kept one. */
  lemma ScanKeepsOldest(files: seq<FileInfo>, cutoff: int, deficit: nat)
    requires deficit > 0
    ensures var h := multiset(Scan(files, cutoff, deficit).heap);
      NoneNewerThan(h, multiset(OlderThan(files, cutoff)) - h)
  {
    ScanEstablishesInvariant(files, cutoff, deficit);
  }

  /** The candidate set is empty exactly when no file is old enough, however
      large the deficit. */
  lemma ScanEmptyIffNothingEligible(files: seq<FileInfo>, cutoff: int, deficit: nat)
    requires deficit > 0
    ensures |Scan(files, cutoff, deficit).heap| == 0 <==> |OlderThan(files, cutoff)| == 0
  {
    ScanEstablishesInvariant(files, cutoff, deficit);
    var r := Scan(files, cutoff, deficit);
    var e := OlderThan(files, cutoff);
    if |r.heap| == 0 {
      assert multiset(r.heap) == multiset{};
      assert multiset(e) == multiset{};
    }
  }

  /** A file the scan skips although it is old enough is newer than every
      member. When the total strictly exceeds the deficit, admitting it
      instead would make it the newest member, the eviction guard would hold
      at once, and the first pop would take it straight back out, leaving the
      heap as it was. */
  lemma SkippedFileWouldBeEvictedFirst(s: ScanState, seen: seq<FileInfo>, f: FileInfo, cutoff: int, deficit: nat)
    requires deficit > 0
    requires ScanInvariant(s, seen, cutoff, deficit)
    requires f.accessed < cutoff && !Admits(s, f, cutoff, deficit)
    requires s.aggregate > deficit
    ensures forall g :: g in multiset(s.heap) ==> g.accessed < f.accessed
    ensures Peek(Push(s.heap, f)) == f
    ensures (s.aggregate + f.size) - Peek(Push(s.heap, f)).size > deficit
    ensures Pop(Push(s.heap, f)) == s.heap
  {
    TotalSizePositive(s.heap);
    PopAfterPushingNewest(s.heap, f);
  }

  /** The eviction guard is strict: when the total equals the deficit exactly,
      a skipped newer file would not have been popped had it been admitted.
      Here one member of 10 bytes covers a 10-byte deficit, the newer 5-byte
      file is skipped, yet pushing it would have kept both. */
  lemma SkipAtExactCoverIsNotEviction()
    ensures var s := ScanState([FileInfo(1, 10, 1)], 10);
      var f := FileInfo(2, 5, 2);
      && ScanInvariant(s, [FileInfo(1, 10, 1)], 100, 10)
      && !Admits(s, f, 100, 10)
      && |Evict(ScanState(Push(s.heap, f), 15), 10).heap| == 2
  {
    var s := ScanState([FileInfo(1, 10, 1)], 10);
    var f := FileInfo(2, 5, 2);
    PopAfterPushingNewest(s.heap, f);
    assert OlderThan([FileInfo(1, 10, 1)], 100) == [FileInfo(1, 10, 1)];
    assert Peek(s.heap) == FileInfo(1, 10, 1);
    var p := ScanState(Push(s.heap, f), 15);
    EvictStops(p, 10);
  }

  /** The strict guard also leaves a spare member in the heap: when the rest
      equals the deficit exactly, the newest member is kept although it is
      not needed. Here a 10-byte file and an older 100-byte file are walked
      with a 100-byte deficit; the older file alone covers it, yet both stay
      and 110 bytes are selected. */
  lemma ExactRestKeepsSpareNewest()
    ensures var s := Scan([FileInfo(2, 10, 2), FileInfo(1, 100, 1)], 100, 100);
      && s.heap == [FileInfo(2, 10, 2), FileInfo(1, 100, 1)]
      && s.aggregate == 110
      && FileInfo(1, 100, 1).size >= 100
  {
    var a, b := FileInfo(2, 10, 2), FileInfo(1, 100, 1);
    var files := [a, b];
    assert files[..1] == [a];
    ScanOfFirst(a);
    StepOfSecond(a, b);
  }

  lemma StepOfSecond(a: FileInfo, b: FileInfo)
    requires a == FileInfo(2, 10, 2) && b == FileInfo(1, 100, 1)
    ensures Step(ScanState([a], 10), b, 100, 100) == ScanState([a, b], 110)
  {
    assert Admits(ScanState([a], 10), b, 100, 100);
    assert Push([a], b) == [a, b];
    assert Peek([a, b]) == a;
    EvictStops(ScanState([a, b], 110), 100);
  }

  lemma ScanOfFirst(a: FileInfo)
    requires a == FileInfo(2, 10, 2)
    ensures Scan([a], 100, 100) == ScanState([a], 10)
  {
    assert [a][..0] == [];
    assert Admits(ScanState([], 0), a, 100, 100);
    assert Push([], a) == [a];
    assert Peek([a]) == a;
    EvictStops(ScanState([a], 10), 100);
  }
}
