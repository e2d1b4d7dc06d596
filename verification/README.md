# lru: a verified model of the eviction pass

`lru` turns a directory tree into a least-recently-used cache. When the volume
holding the tree has less free space than `--target-available-space`, one run
deletes the least recently accessed regular files (those last accessed before
the `--older-than` cutoff) until the shortfall is covered. The
core of `src/main.rs` modelled here:

- `FileInfo` and its ordering, by last-access time only (`files.dfy`);
- the candidate set, a `BinaryHeap` max-heap by recency, modelled by its
  observable behaviour: `peek`, `pop` and `push` (`heap.dfy`);
- the selection scan (`selection.dfy`). It is one pass over the walked files.
  It admits a file older than the cutoff when either the running total is
  still below the deficit or the file is no newer than the newest candidate.
  After each push it pops the newest candidates while the rest still exceeds
  the deficit;
- reconciliation (`reconcile.dfy`). The free space is probed again, the
  deficit is recomputed as a signed 64-bit difference, and when it is
  positive the same trimming loop runs once more;
- the drain (`execution.dfy`). Every candidate is popped, newest first. A dry
  run counts every size. A live run always attempts the removal, but counts
  the bytes of a successful removal only when `--verbose` is on;
- the whole run (`pipeline.dfy`), and worked cases (`scenarios.dfy`).

The heap's contents are a `seq<FileInfo>` whose order carries no meaning. Every
contract about them is stated on its multiset. `Peek` yields a member with the
latest access time. The standard library does not say which of several equally
recent members a `BinaryHeap` yields first, so the model fixes the one pushed
first. `Files.EqualOrderingIsNotEquality` shows that the ordering cannot tell
such members apart. The contracts only ever rely on "a newest member".

Times are integers on any monotone clock and `path` is an opaque number.
Removal outcomes are an input: `removable` is the set of paths whose
`remove_file` succeeds.

The scan's central invariant (`Selection.HeapInvariant`) holds after every
prefix of the walk. Over the eligible files seen so far:

- the running total equals the candidates' total size;
- the candidates are drawn from those files;
- dropping the newest candidate would leave at most the deficit;
- while the total is below the deficit, the candidates are all of those files;
- no eligible file left out is older than a kept one.

The eviction guard is strict (`>`) while the admission test is strict the
other way (`<`). When the total equals the deficit exactly, a newer eligible
file is skipped. Had it been pushed, the loop would have kept it.
`Selection.SkipAtExactCoverIsNotEviction` exhibits this. So the comment at
`src/main.rs:89-91` ("only to remove it immediately afterward") holds when the
total strictly exceeds the deficit, which `Selection.SkippedFileWouldBeEvictedFirst`
proves. At exact cover, skipping is still the right choice, because the
candidates already cover the deficit.

The same strict guard can also leave a spare file selected. When the rest of
the heap equals the deficit exactly, the eviction loop (`src/main.rs:83`) and
reconciliation (`src/main.rs:104`) both keep the newest member, although the
others already cover the deficit. `Selection.ExactRestKeepsSpareNewest` shows
a case: with a 100-byte deficit, a 10-byte file and an older 100-byte file are
both selected, 110 bytes in all, although the older file alone would do.

## Model

| member | source | states |
|---|---|---|
| `Files.Cmp` | src/main.rs:18-28 | `cmp` and `partial_cmp` compare two files by last access only, ignoring size and path. Its properties are stated by `Files.CmpIsRecencyOrder`. |
| `Files.CmpIsRecencyOrder` | src/main.rs:18-28 | The ordering reverses when its operands are swapped. `Greater` means accessed strictly later. "Not greater" is transitive. |
| `Files.EqualOrderingIsNotEquality` | src/main.rs:11-28 | Equality compares every field, but the ordering compares only `accessed`. Two distinct files can compare `Equal`. |
| `Files.OlderThan` | src/main.rs:72-75 | The eligible files are a sub-multiset of the walk. Every one is accessed strictly before the cutoff. Every walked file accessed before the cutoff is among them, as often as it occurs in the walk. |
| `Files.Keep` | src/main.rs:115 | The files whose removal succeeds keep each such file's multiplicity and drop every other file. |
| `CandidateHeap.Peek` | src/main.rs:83 | `peek` yields a member no member is newer than. Its size is at most the total, so `aggregate - peek.size` cannot underflow. |
| `CandidateHeap.Pop` | src/main.rs:86 | `pop` removes exactly the peeked member. The total drops by exactly its size. |
| `CandidateHeap.Push` | src/main.rs:79-80 | `push` adds exactly `f`. The total grows by its size. |
| `CandidateHeap.PopAfterPushingNewest` | src/main.rs:89-91 | A file strictly newer than every member is the one peeked after pushing it. Popping it gives back the original heap. |
| `Selection.Admits` | src/main.rs:75 | The admission test: the file is older than the cutoff, and either the total is still below the deficit or the file is no newer than the newest candidate. Its precondition proves that the `peek().unwrap()` is only reached on a non-empty heap. |
| `Selection.Deficit` | src/main.rs:64-67 | The deficit is computed only when space is short. It is positive, and the free space plus the deficit is the target. |
| `Selection.Evict` | src/main.rs:82-87 | The eviction loop never empties the heap and keeps the running total consistent. It stops with the rest at most the deficit, removing only members. It changes nothing, or leaves a total above the deficit. It never removes a member older than one it keeps. |
| `Selection.EvictStops` | src/main.rs:83 | When the guard fails on entry, the loop changes nothing. |
| `Selection.Step` | src/main.rs:73-92 | A file that is not admitted leaves the state unchanged. After an admission, the heap is non-empty and at most the newest member is spare. The heap is part of the pushed contents, keeps the oldest of them, and either is all of them or exceeds the deficit. |
| `Selection.Scan` | src/main.rs:65-95 | After the scan the running total equals the candidates' total size. |
| `Selection.AdmittedIsNoNewerThanDropped` | src/main.rs:75 | An admitted file is no newer than any eligible file dropped earlier. |
| `Selection.AdmitPreservesInvariant` | src/main.rs:75-87 | Admitting a file and running the eviction loop preserves the scan invariant over the eligible files plus that file. |
| `Selection.SkipPreservesInvariant` | src/main.rs:88-92 | Skipping an eligible file preserves the scan invariant over the eligible files plus that file. |
| `Selection.StepPreservesInvariant` | src/main.rs:72-93 | One iteration of the walk loop preserves the invariant. An ineligible file changes neither the state nor the eligible files. |
| `Selection.ScanEstablishesInvariant` | src/main.rs:65-95 | After any walk the scan state meets the invariant over the walk's eligible files. |
| `Selection.ScanRespectsCutoff` | src/main.rs:75 | Every candidate comes from the walk and was accessed strictly before the cutoff. |
| `Selection.ScanIsNearMinimalCover` | src/main.rs:75-87 | The candidates cover the deficit or are all eligible files. Without the newest candidate they would be at most the deficit. |
| `Selection.ScanKeepsOldest` | src/main.rs:83-87 | No eligible file left out was accessed before a kept candidate. |
| `Selection.ScanEmptyIffNothingEligible` | src/main.rs:75-87 | The candidate set is empty exactly when no walked file is older than the cutoff. |
| `Selection.SkippedFileWouldBeEvictedFirst` | src/main.rs:88-92 | An eligible file that is skipped is newer than every candidate. When the total exceeds the deficit, pushing it would make it the peeked member and satisfy the guard, and the pop would give back the heap as it was. |
| `Selection.SkipAtExactCoverIsNotEviction` | src/main.rs:83-91 | At a total exactly equal to the deficit, the scan skips a newer eligible file that the eviction loop would have kept. |
| `Selection.ExactRestKeepsSpareNewest` | src/main.rs:83 | When the rest equals the deficit exactly, the strict guard keeps the newest member although the older files already cover the deficit. A concrete walk selects 110 bytes for a 100-byte deficit. |
| `Reconciliation.RecomputedDeficit` | src/main.rs:98-99 | The signed recomputed deficit fits in 64 bits. It is positive exactly when space is still short, and then it is the exact shortfall. |
| `Reconciliation.Reconcile` | src/main.rs:99-110 | Reconciliation keeps a sub-multiset and the total consistent, and empties the heap only if it was empty. It stops when at most the newest member is spare, and either changes nothing or leaves a total above the new deficit. It keeps the oldest members. |
| `Reconciliation.ReconcileKeepsSetWhenDeficitGrew` | src/main.rs:97-110 | When the deficit has not shrunk since the scan, reconciliation changes nothing. |
| `Reconciliation.ReconciledSetCovers` | src/main.rs:98-110 | After reconciliation the set exceeds the new deficit. Failing that, it is the scanned set unchanged, which covers the first deficit or holds every eligible file. |
| `Reconciliation.ReconciledSetKeepsOldest` | src/main.rs:100-110 | The reconciled set is drawn from the eligible files, and no eligible file left out is older than a kept one. |
| `Execution.Drain` | src/main.rs:111-119 | The drain attempts every candidate once, newest first; a dry run reports each. A dry run removes nothing and counts every byte. A live run removes exactly the files whose removal succeeds, and counts their bytes only when verbose. The count never exceeds the candidates' total. |
| `Execution.DrainOneExtends` | src/main.rs:111-119 | Handling the popped newest file and then draining the rest drains the whole heap. |
| `Execution.DrainOne` | src/main.rs:112-118 | One loop iteration puts the popped file first. If the rest accounts for its removals and bytes, so does the result, with the file's size added to the total. A dry run removes nothing and counts the file. A live run removes it exactly when its removal succeeds, and counts it only when verbose. |
| `Execution.DrainStep` | src/main.rs:111 | Putting the popped newest member before the rest's order keeps the order newest first and its contents those of the heap. |
| `Pipeline.Run` | src/main.rs:63-121 | Nothing is removed or counted when either probe shows enough space. A dry run removes nothing and counts everything it reports. A live run removes exactly the selected files whose removal succeeds, and counts their bytes only when verbose. The files drained are exactly the selected set. |
| `Pipeline.Selected` | src/main.rs:64-110 | The set the drain empties is consistent and drawn from the eligible files. It is empty unless both probes show a shortfall. |
| `Pipeline.RunDrainsSelection` | src/main.rs:111-119 | The files drained are exactly the selected set, newest first, and its total is the running total. Every removed file was eligible. |
| `Pipeline.SelectionIsOldestNearMinimalCover` | src/main.rs:64-110 | When space is short at both probes, the selected files are the oldest eligible ones and at most the newest one is spare for the recomputed deficit. They cover one of the two deficits, or they are every eligible file. |
| `Pipeline.DryRunIgnoresRemovalOutcomes` | src/main.rs:112-114 | A dry run's outcome depends neither on which removals would succeed nor on the verbose switch. |
| `Scenarios.ThreeFilesKeepOldestTwo` | src/main.rs:69-95 | Three files of 100, 50 and 200 bytes, accessed 10, 5 and 20 minutes ago, with a 250-byte deficit: in any walk order the scan keeps the 200- and 100-byte files. |
| `Scenarios.NothingOldEnoughKeepsNothing` | src/main.rs:75 | With no file older than the cutoff, the scan keeps nothing. |

## Left out

- Argument parsing (`argh`) and the final "Deleted N bytes" line: `Config` carries the parsed settings, and output is not modelled.
- The clock (`chrono`): the cutoff `now - older_than` is given as an integer.
- The directory walk (`WalkDir`, `metadata`, `is_file`): the input is the sequence of regular files in walk order. Walk errors are filtered out (line 71). Entries whose metadata fails (line 72), and entries that are not regular files (line 73), change nothing, so they are absent from the sequence.
- The `metadata.accessed().unwrap()` panic at line 74: a failing `accessed()` aborts the run before any removal. This is not modelled.
- The free-space probes (`fs2::available_space`): they are the parameters `available` and `availableAfterScan`. The `unwrap` of a failed probe is not modelled.
- `remove_file` and its I/O errors: `removable` is the set of paths whose removal succeeds.
- Report lines (`println!` with the formatted date): their text is not modelled. A dry run prints one line per file of `order`. A live run prints one line per file of `removed`, and only with `--verbose`; without it, it prints none.
- The heap's internal layout and its order among equally recent files: the model always takes the member pushed first among the newest. The contracts only use "a newest member".
- Pipeline.Run: assumes the target is at most `i64::MAX`, and so is the second probe whenever it is taken. Larger values make the casts at `src/main.rs:98` wrap, and that wrap-around is not modelled.
- Pipeline.Selected: makes the same assumption as the run about `i64::MAX`.
- Reconciliation.RecomputedDeficit: assumes both operands are at most `i64::MAX`, so the casts keep their values.
- Selection.Scan: sizes and running totals are unbounded naturals. The `u64` overflow of `aggregate_heap_file_size += file.size` and `n_bytes_deleted += file.size` is not modelled.
