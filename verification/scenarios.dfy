/**
  Worked cases of the selection. Times are in seconds relative to the moment
  of the run.
 */
module Scenarios {
  import opened Files
  import opened CandidateHeap
  import opened Selection
  import opened Execution

  lemma {:induction false} OlderThanAll(files: seq<FileInfo>, cutoff: int)
    requires forall f :: f in files ==> f.accessed < cutoff
    ensures OlderThan(files, cutoff) == files
    decreases |files|
  {
    if |files| > 0 {
      var init, last := files[..|files| - 1], files[|files| - 1];
      assert files == init + [last];
      assert last in files;
      OlderThanAll(init, cutoff);
    }
  }

  /** A set of files closed under "older than a kept one" drawn from three
      files with distinct access times is one of the four oldest-first
      prefixes. */
  lemma OldestFirstPrefixes(h: multiset<FileInfo>, a: FileInfo, b: FileInfo, c: FileInfo)
    requires c.accessed < a.accessed < b.accessed
    requires h <= multiset{a, b, c}
    requires NoneNewerThan(h, multiset{a, b, c} - h)
    ensures h == multiset{} || h == multiset{c} || h == multiset{c, a} || h == multiset{c, a, b}
  {
    var e := multiset{a, b, c};
    assert e[a] == 1 && e[b] == 1 && e[c] == 1;
    if b in h {
      assert a in h && c in h;
      assert h == e;
    } else if a in h {
      assert c in h;
      assert h == multiset{c, a};
    } else if c in h {
      assert h == multiset{c};
    } else {
      assert h == multiset{};
    }
  }

  /** Three files, A (100 bytes, accessed 10 minutes ago), B (50 bytes,
      5 minutes ago) and C (200 bytes, 20 minutes ago), a one-minute age
      floor and a 250-byte deficit: whatever order the walk yields them in,
      the scan keeps C and A, never B. */
  lemma ThreeFilesKeepOldestTwo(files: seq<FileInfo>)
    requires multiset(files) == multiset{A, B, C}
    ensures multiset(Scan(files, -60, 250).heap) == multiset{C, A}
  {
    forall f | f in files
      ensures f.accessed < -60
    {
      assert f in multiset(files);
    }
    OlderThanAll(files, -60);
    ScanEstablishesInvariant(files, -60, 250);
    InvariantKeepsOldestTwo(Scan(files, -60, 250));
  }

  const A := FileInfo(-600, 100, 1)
  const B := FileInfo(-300, 50, 2)
  const C := FileInfo(-1200, 200, 3)

  /** Any state meeting the scan invariant over the three files keeps the
      oldest two. */
  lemma InvariantKeepsOldestTwo(s: ScanState)
    requires HeapInvariant(s, multiset{A, B, C}, 250)
    ensures multiset(s.heap) == multiset{C, A}
  {
    var h := multiset(s.heap);
    OldestFirstPrefixes(h, A, B, C);
    if h == multiset{C, A, B} {
      NotAllThree(s);
    } else if h == multiset{C} {
      NotOnlyOldest(s);
    }
  }

  /** All three files: without the newest (50 bytes) the other two still
      exceed 250 bytes, so the state is not near-minimal. */
  lemma NotAllThree(s: ScanState)
    requires Consistent(s) && multiset(s.heap) == multiset{C, A, B}
    ensures s.aggregate - Peek(s.heap).size > 250
  {
    TotalSizeOfPermutation(s.heap, [C, A, B]);
    TotalSizeOfThree(C, A, B);
    assert Peek(s.heap) in multiset{C, A, B};
  }

  /** The oldest file alone (200 bytes) does not cover 250 bytes, yet the
      other two files are eligible. */
  lemma NotOnlyOldest(s: ScanState)
    requires Consistent(s) && multiset(s.heap) == multiset{C}
    ensures s.aggregate < 250
  {
    TotalSizeOfPermutation(s.heap, [C]);
    TotalSizeOfOne(C);
  }

  /** No file older than the age floor: the scan keeps nothing, whatever the
      deficit. */
  lemma NothingOldEnoughKeepsNothing(files: seq<FileInfo>, cutoff: int, deficit: nat)
    requires deficit > 0
    requires forall f :: f in files ==> cutoff <= f.accessed
    ensures Scan(files, cutoff, deficit).heap == []
  {
    ScanEmptyIffNothingEligible(files, cutoff, deficit);
  }
}
