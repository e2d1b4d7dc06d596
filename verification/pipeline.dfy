/**
  The whole eviction run of `main`: probe, scan, probe again, reconcile,
  drain. Argument parsing, the clock, the directory walk, the two free-space
  probes and `remove_file` are inputs here.
 */
module Pipeline {
  import opened Files
  import opened CandidateHeap
  import opened Selection
  import opened Reconciliation
  import opened Execution

  /** The settings that reach the core: `--target-available-space`, the
      access-time cutoff derived from `--older-than`, `--dry-run` and
      `--verbose`. */
  datatype Config = Config(target: nat, cutoff: int, dryRun: bool, verbose: bool)

  /** The run. `files` is the stream of regular files in traversal order,
      `available` and `availableAfterScan` are the two probes, and
      `removable` holds the paths whose removal succeeds. Nothing is deleted
      or counted unless both probes show less free space than the target. */
  function Run(cfg: Config, files: seq<FileInfo>, available: nat, availableAfterScan: nat,
               removable: set<nat>): (r: DrainResult)
    requires cfg.target <= I64Max && (available < cfg.target ==> availableAfterScan <= I64Max)
    ensures available >= cfg.target || availableAfterScan >= cfg.target ==> r == DrainResult(0, [], [])
    ensures cfg.dryRun ==> r.removed == [] && r.bytesDeleted == TotalSize(r.order)
    ensures !cfg.dryRun ==> r.bytesDeleted == if cfg.verbose then TotalSize(r.removed) else 0
    ensures r.bytesDeleted <= TotalSize(r.order)
    ensures multiset(r.removed) <= multiset(r.order)
    ensures forall f :: f in r.removed ==> f.path in removable
    ensures multiset(r.order) == multiset(Selected(cfg, files, available, availableAfterScan).heap)
    ensures !cfg.dryRun ==> r.removed == Keep(r.order, removable)
  {
    var sel := Selected(cfg, files, available, availableAfterScan);
    var r := Drain(sel.heap, cfg.dryRun, cfg.verbose, removable);
    TotalSizeOfPermutation(r.order, sel.heap);
    KeepIsSubset(r.order, removable);
    r
  }

  /** The candidate set the drain empties. When the first probe shows
      enough space nothing is scanned; when the second one does, the scanned
      set is dropped without draining; either way it is empty here. */
  function Selected(cfg: Config, files: seq<FileInfo>, available: nat, availableAfterScan: nat): (r: ScanState)
    requires cfg.target <= I64Max && (available < cfg.target ==> availableAfterScan <= I64Max)
    ensures Consistent(r)
    ensures multiset(r.heap) <= multiset(OlderThan(files, cfg.cutoff))
    ensures available >= cfg.target || availableAfterScan >= cfg.target ==> r.heap == []
  {
    if available < cfg.target && availableAfterScan < cfg.target then
      var deficit := Deficit(available, cfg.target);
      ReconciledSetKeepsOldest(files, cfg.cutoff, deficit, RecomputedDeficit(cfg.target, availableAfterScan));
      Reconcile(Scan(files, cfg.cutoff, deficit), RecomputedDeficit(cfg.target, availableAfterScan))
    else ScanState([], 0)
  }

  /** The run drains exactly the selected set, newest first; only eligible
      files from the stream are ever reported or removed. */
  lemma RunDrainsSelection(cfg: Config, files: seq<FileInfo>, available: nat, availableAfterScan: nat,
                           removable: set<nat>)
    requires cfg.target <= I64Max && (available < cfg.target ==> availableAfterScan <= I64Max)
    ensures var r := Run(cfg, files, available, availableAfterScan, removable);
      var sel := Selected(cfg, files, available, availableAfterScan);
      && multiset(r.order) == multiset(sel.heap)
      && NewestFirst(r.order)
      && TotalSize(r.order) == sel.aggregate
      && multiset(r.removed) <= multiset(OlderThan(files, cfg.cutoff))
      && forall f :: f in r.removed ==> f.accessed < cfg.cutoff
  {
    var r := Run(cfg, files, available, availableAfterScan, removable);
    var sel := Selected(cfg, files, available, availableAfterScan);
    var e := OlderThan(files, cfg.cutoff);
    TotalSizeOfPermutation(r.order, sel.heap);
    assert multiset(r.removed) <= multiset(e);
    forall f | f in r.removed
      ensures f.accessed < cfg.cutoff
    {
      assert f in multiset(r.removed);
      assert f in e;
    }
  }

  /** The end-to-end selection guarantee when space is short at both probes:
      the selected files are the oldest eligible ones; they cover the
      recomputed deficit, or else they are exactly what the scan collected,
      which covers the first deficit or holds every eligible file; and the
      newest selected file is the only one that could be spared. */
  lemma SelectionIsOldestNearMinimalCover(cfg: Config, files: seq<FileInfo>, available: nat,
                                          availableAfterScan: nat)
    requires cfg.target <= I64Max && (available < cfg.target ==> availableAfterScan <= I64Max)
    requires available < cfg.target && availableAfterScan < cfg.target
    ensures var sel := Selected(cfg, files, available, availableAfterScan);
      var e := multiset(OlderThan(files, cfg.cutoff));
      var first := cfg.target - available;
      var second := cfg.target - availableAfterScan;
      && NoneNewerThan(multiset(sel.heap), e - multiset(sel.heap))
      && (|sel.heap| > 0 ==> sel.aggregate - Peek(sel.heap).size <= second)
      && (sel.aggregate > second || sel.aggregate >= first || multiset(sel.heap) == e)
  {
    var first := Deficit(available, cfg.target);
    var second := RecomputedDeficit(cfg.target, availableAfterScan);
    ReconciledSetKeepsOldest(files, cfg.cutoff, first, second);
    ReconciledSetCovers(files, cfg.cutoff, first, second);
  }

  /** A dry run neither depends on which removals would succeed nor on the
      verbose switch: repeating it over the same inputs reports the same
      files and the same byte count. */
  lemma DryRunIgnoresRemovalOutcomes(cfg: Config, files: seq<FileInfo>, available: nat,
                                     availableAfterScan: nat, removable: set<nat>, removable': set<nat>,
                                     verbose': bool)
    requires cfg.target <= I64Max && (available < cfg.target ==> availableAfterScan <= I64Max)
    requires cfg.dryRun
    ensures Run(cfg, files, available, availableAfterScan, removable)
         == Run(cfg.(verbose := verbose'), files, available, availableAfterScan, removable')
  {
    var h := Selected(cfg, files, available, availableAfterScan).heap;
    assert Selected(cfg.(verbose := verbose'), files, available, availableAfterScan).heap == h;
    DrainDryRunIgnoresOutcomes(h, cfg.verbose, removable, verbose', removable');
  }

  lemma {:induction false} DrainDryRunIgnoresOutcomes(h: Heap, verbose: bool, removable: set<nat>,
                                                      verbose': bool, removable': set<nat>)
    ensures Drain(h, true, verbose, removable) == Drain(h, true, verbose', removable')
    decreases |h|
  {
    if |h| > 0 {
      DrainDryRunIgnoresOutcomes(Pop(h), verbose, removable, verbose', removable');
    }
  }
}
