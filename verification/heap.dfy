/**
  The candidate set: a max-heap by recency. Only its observable behaviour is
  modelled. The contents are a sequence whose order means nothing (the
  contracts speak of its multiset), `Peek` yields a member with the latest
  `accessed`, and `Pop` removes exactly that member.
 */
module CandidateHeap {
  import opened Files
  import opened Multisets

  type Heap = seq<FileInfo>

  /** Position of a most recently accessed member. Among members accessed at
      the same instant the one pushed first is chosen. */
  function NewestIndex(h: Heap): (i: nat)
    requires |h| > 0
    ensures i < |h|
    ensures forall j :: 0 <= j < |h| ==> Cmp(h[j], h[i]) != Greater
  {
    if |h| == 1 then 0
    else
      var k := NewestIndex(h[..|h| - 1]);
      if Cmp(h[|h| - 1], h[k]) == Greater then |h| - 1 else k
  }

  /** `peek()`: a member no other member is newer than. */
  function Peek(h: Heap): (f: FileInfo)
    requires |h| > 0
    ensures f in multiset(h)
    ensures forall g :: g in multiset(h) ==> g.accessed <= f.accessed
    ensures f.size <= TotalSize(h)
  {
    var i := NewestIndex(h);
    TotalSizeRemove(h, i);
    h[i]
  }

  /** `pop()`: the heap without the member `Peek` yields. */
  function Pop(h: Heap): (r: Heap)
    requires |h| > 0
    ensures multiset(r) + multiset{Peek(h)} == multiset(h)
    ensures TotalSize(r) + Peek(h).size == TotalSize(h)
    ensures |r| == |h| - 1
  {
    var i := NewestIndex(h);
    TotalSizeRemove(h, i);
    assert h == h[..i] + [h[i]] + h[i + 1..];
    h[..i] + h[i + 1..]
  }

  /** `push()`. */
  function Push(h: Heap, f: FileInfo): (r: Heap)
    ensures multiset(r) == multiset(h) + multiset{f}
    ensures TotalSize(r) == TotalSize(h) + f.size
  {
    TotalSizeConcat(h, [f]);
    assert [f][..0] == [];
    h + [f]
  }

  /** A file strictly newer than every member is the one a push then a pop
      would take straight back out. */
  lemma PopAfterPushingNewest(h: Heap, f: FileInfo)
    requires forall g :: g in multiset(h) ==> g.accessed < f.accessed
    ensures Peek(Push(h, f)) == f
    ensures Pop(Push(h, f)) == h
  {
    var p := Push(h, f);
    assert p[..|p| - 1] == h;
    if |h| > 0 {
      var k := NewestIndex(h);
      assert h[k] in multiset(h);
    }
    assert NewestIndex(p) == |h|;
    assert p[..|h|] + p[|h| + 1..] == h;
  }

  /** Every member of `kept` was accessed no later than every member of
      `dropped`: the kept files are the oldest ones. */
  ghost predicate NoneNewerThan(kept: multiset<FileInfo>, dropped: multiset<FileInfo>) {
    forall k, d :: k in kept && d in dropped ==> k.accessed <= d.accessed
  }

  /** Dropping newest members in a second stage keeps the kept files the oldest. */
  lemma NoneNewerThanStages(e: multiset<FileInfo>, k1: multiset<FileInfo>, k2: multiset<FileInfo>)
    requires k2 <= k1 <= e
    requires NoneNewerThan(k1, e - k1)
    requires NoneNewerThan(k2, k1 - k2)
    ensures NoneNewerThan(k2, e - k2)
  {
    DroppedInStages(e, k1, k2);
    forall k, d | k in k2 && d in e - k2
      ensures k.accessed <= d.accessed
    {
      assert k in k1;
      if d !in e - k1 {
        assert d in k1 - k2;
      }
    }
  }

  /** Popping the newest member and then dropping more newest members of the
      rest keeps the oldest ones. */
  lemma PopNewestThenMore(e: multiset<FileInfo>, newest: FileInfo, k1: multiset<FileInfo>, k2: multiset<FileInfo>)
    requires k1 + multiset{newest} == e
    requires forall g :: g in e ==> g.accessed <= newest.accessed
    requires k2 <= k1
    requires NoneNewerThan(k2, k1 - k2)
    ensures NoneNewerThan(k2, e - k2)
  {
    assert e - k1 == multiset{newest};
    NoneNewerThanStages(e, k1, k2);
  }
}
