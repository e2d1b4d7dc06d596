/**
  The drain: every remaining candidate is popped, newest first. In a dry run
  each is reported and counted; otherwise its removal is attempted, and a
  successful removal is counted only when verbose output is on.
 */
module Execution {
  import opened Files
  import opened CandidateHeap

  /** `bytesDeleted` is `n_bytes_deleted`; `order` lists the candidates in the
      order the drain pops them (in a dry run, the report lines; otherwise,
      the removal attempts); `removed` lists the files actually removed from
      disk, in that order (with `--verbose`, the report lines of a live run). */
  datatype DrainResult = DrainResult(bytesDeleted: nat, order: seq<FileInfo>, removed: seq<FileInfo>)

  /** No file in `fs` was accessed after a file before it. */
  predicate NewestFirst(fs: seq<FileInfo>) {
    forall i, j :: 0 <= i < j < |fs| ==> fs[j].accessed <= fs[i].accessed
  }

  /** What draining `h` produces: every member once, newest first; in a dry
      run everything counted and nothing removed; otherwise the removed files
      are those whose removal succeeds, counted only when verbose. */
  ghost predicate Drained(h: Heap, dryRun: bool, verbose: bool, removable: set<nat>, r: DrainResult) {
    && multiset(r.order) == multiset(h)
    && NewestFirst(r.order)
    && (|h| > 0 ==> |r.order| > 0 && r.order[0] == Peek(h))
    && Accounted(r, dryRun, verbose, removable, TotalSize(h))
  }

  /** The removal list and the byte count of `r` agree with its order, for
      files of `total` bytes in all: a dry run removes nothing and counts
      every byte; otherwise exactly the files whose removal succeeds are
      removed, and their bytes are counted only when verbose. */
  predicate Accounted(r: DrainResult, dryRun: bool, verbose: bool, removable: set<nat>, total: nat) {
    && r.removed == (if dryRun then [] else Keep(r.order, removable))
    && (dryRun ==> r.bytesDeleted == total)
    && (!dryRun ==> r.bytesDeleted == if verbose then TotalSize(r.removed) else 0)
    && r.bytesDeleted <= total
  }

  /** The drain loop. `removable` holds the paths whose removal succeeds. */
  function Drain(h: Heap, dryRun: bool, verbose: bool, removable: set<nat>): (r: DrainResult)
    ensures multiset(r.order) == multiset(h)
    ensures NewestFirst(r.order)
    ensures |h| > 0 ==> r.order[0] == Peek(h)
    ensures r.removed == if dryRun then [] else Keep(r.order, removable)
    ensures dryRun ==> r.bytesDeleted == TotalSize(h)
    ensures !dryRun ==> r.bytesDeleted == if verbose then TotalSize(r.removed) else 0
    ensures r.bytesDeleted <= TotalSize(h)
    decreases |h|
  {
    if |h| == 0 then DrainResult(0, [], [])
    else
      var rest := Drain(Pop(h), dryRun, verbose, removable);
      assert Drained(Pop(h), dryRun, verbose, removable, rest);
      var r := DrainOne(Peek(h), rest, dryRun, verbose, removable);
      DrainOneExtends(h, rest, dryRun, verbose, removable);
      r
  }

  /** One iteration of the drain loop on the popped file `f`, given what the
      remaining iterations produce. It puts `f` first in the order and keeps
      the removals and the count accounted for: if the rest accounts for
      `total` bytes, the result accounts for `f.size + total`. */
  function DrainOne(f: FileInfo, rest: DrainResult, dryRun: bool, verbose: bool, removable: set<nat>): (r: DrainResult)
    ensures r.order == [f] + rest.order
    ensures forall total: nat :: Accounted(rest, dryRun, verbose, removable, total) ==>
      Accounted(r, dryRun, verbose, removable, f.size + total)
  {
    var order := [f] + rest.order;
    var r :=
      if dryRun then DrainResult(f.size + rest.bytesDeleted, order, [])
      else if f.path in removable then
        DrainResult((if verbose then f.size else 0) + rest.bytesDeleted, order, [f] + rest.removed)
      else DrainResult(rest.bytesDeleted, order, rest.removed);
    AccountedPrepend(f, rest, dryRun, verbose, removable, r);
    r
  }

  /** Putting `f` before what the rest drained, removing it when its removal
      succeeds and counting it when the run counts it, extends the
      accounting by `f.size` bytes. */
  lemma AccountedPrepend(f: FileInfo, rest: DrainResult, dryRun: bool, verbose: bool, removable: set<nat>, r: DrainResult)
    requires r.order == [f] + rest.order
    requires r.removed == if dryRun then [] else if f.path in removable then [f] + rest.removed else rest.removed
    requires r.bytesDeleted == rest.bytesDeleted + if dryRun || (verbose && f.path in removable) then f.size else 0
    ensures forall total: nat :: Accounted(rest, dryRun, verbose, removable, total) ==>
      Accounted(r, dryRun, verbose, removable, f.size + total)
  {
    KeepCons(f, rest.order, removable);
    TotalSizeCons(f, rest.removed);
  }

  /** Draining the newest member and then the rest drains the whole heap. */
  lemma {:induction false} DrainOneExtends(h: Heap, rest: DrainResult, dryRun: bool, verbose: bool, removable: set<nat>)
    requires |h| > 0
    requires Drained(Pop(h), dryRun, verbose, removable, rest)
    ensures Drained(h, dryRun, verbose, removable, DrainOne(Peek(h), rest, dryRun, verbose, removable))
  {
    DrainStep(h, Peek(h), rest.order);
    assert Accounted(rest, dryRun, verbose, removable, TotalSize(Pop(h)));
  }

  /** Prepending the popped newest member to the rest of the drain keeps the
      order newest first and its contents those of the heap. */
  lemma {:induction false} DrainStep(h: Heap, f: FileInfo, rest: seq<FileInfo>)
    requires |h| > 0 && f == Peek(h)
    requires multiset(rest) == multiset(Pop(h)) && NewestFirst(rest)
    ensures multiset([f] + rest) == multiset(h)
    ensures NewestFirst([f] + rest)
  {
    assert multiset([f] + rest) == multiset{f} + multiset(rest);
    forall j | 0 <= j < |rest|
      ensures rest[j].accessed <= f.accessed
    {
      assert rest[j] in multiset(rest);
    }
    PrependNewest(f, rest);
  }

  lemma {:induction false} PrependNewest(f: FileInfo, rest: seq<FileInfo>)
    requires NewestFirst(rest)
    requires forall j :: 0 <= j < |rest| ==> rest[j].accessed <= f.accessed
    ensures NewestFirst([f] + rest)
  {
    var order := [f] + rest;
    forall i, j | 0 <= i < j < |order|
      ensures order[j].accessed <= order[i].accessed
    {
      assert order[j] == rest[j - 1];
      if i > 0 {
        assert order[i] == rest[i - 1];
      }
    }
  }

  lemma KeepCons(f: FileInfo, rest: seq<FileInfo>, ok: set<nat>)
    ensures Keep([f] + rest, ok) == if f.path in ok then [f] + Keep(rest, ok) else Keep(rest, ok)
  {
    assert ([f] + rest)[1..] == rest;
  }

  /** The files whose removal succeeds are some of the files attempted, and
      each has a removable path. */
  lemma KeepIsSubset(fs: seq<FileInfo>, ok: set<nat>)
    ensures multiset(Keep(fs, ok)) <= multiset(fs)
    ensures forall f :: f in Keep(fs, ok) ==> f.path in ok
  {
    var r := Keep(fs, ok);
    forall f | f in r
      ensures f.path in ok
    {
      assert multiset(r)[f] > 0;
    }
  }
}
