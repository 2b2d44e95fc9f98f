# Contreap in Dafny

This project models Contreap's persistent treap: a path-copying treap over
64-bit keys, where each key has a counter and each subtree caches the sum of
its counters. It also models the engines built on the treap. Every version of
the data set is a root; older roots are never changed. The model has these
parts.

- **Per-version treap** (`lib/treap/*`):
  - the node constructors;
  - `split` / `merge` / `build` over duplicate keys;
  - path-copying `search_insert`, which adds one to a key's counter or splices in a new node;
  - path-copying `search_delete`, which takes one from the counter, or removes the node and concatenates its children;
  - memoised `augment`, where 0 in `aug` means "not computed";
  - point `find` and the four-state `range_estimate`.
- **The pipelined step machine** (`lib/treap/scheduler.hpp`):
  - a task's context builds the new root one level per step;
  - a task can be finished at any point with the recursive operation;
  - the collector advances over the finished prefix of tasks;
  - `get_snapshot` and `worker_thread_` decide which worker's augmentation a reader waits for.
- **Per-key-history treap** (`lib/pam/*`): every node keeps its key's counter as a history of (value, version) pairs, sorted by version.
  - `build_versioned` turns a batch into a history tree;
  - `copy_merge` and `copy_subtract` apply it to a published tree without changing that tree;
  - `augment` caches sums and the newest version below each node (`vstat`);
  - `find_value` / `find` / `range_estimate` answer "as of version v".
- **The engines' sequential state**:
  - `db/sequential.hpp`: an array of roots, one per version;
  - `db/batch.hpp`: an insert/delete buffer, the chain of committed roots, and the reader's cursor walk.

Trees are the value type `Shape.Tree<P>`: `Nil`, or `Node(pry, key, data, left, right)`.
- A treap node's payload `TreapNode.Item` carries `ver`, `val` (a counter of at least 1) and `aug`.
- A history node's payload `PamNode.PItem` carries `vals`, `vstat` and `aug`.

The element hash `aes_hash::hash` becomes a parameter `h: Key -> Prio`. Each proof that needs distinct priorities assumes `Injective(h)`; the source calls `aes_hash` a perfect hash.

The main results:
- Every operation keeps BST order, heap order and `pry == h(key)`. Together these are `Shape.Treap`.
- Insert and delete change the multiset of keys by exactly one copy, or by exactly one batch. `Content` gives this multiset for a treap, and `Weighted.Weight(t, At(v))` gives it as of version `v` for a history tree.
- The range queries equal the sum of point counts.
- The step machine, stepped to the end or switched at any step to `execute_to_complete_`, yields exactly the tree that `search_insert` / `search_delete` give.
- The batch engine answers every query with the counters of the version the query was issued at. This holds over the corrected `copy_merge` / `copy_subtract` of "## Findings"; as written, they are right only from a batch's last version on.

The two families disagree on delete, and the model keeps both behaviours:
- the treap takes one copy away;
- the history treap, and so the batch engine, clears the key's counter (`BatchDb.Apply`).

## Model

| member | source | states |
|---|---|---|
| TreapNode.MakeNode | lib/treap/node.hpp:39-41 | a leaf with the given version, priority and key, counter 1 and `aug` not computed |
| TreapNode.MakeHashedNode | lib/treap/node.hpp:43-45 | the leaf keyed by `h(key)` is a one-key treap holding one copy of the key, at the given version |
| TreapNode.WeakCopy | lib/treap/node.hpp:47-50 | a childless copy with the same key, priority and counter, its own version kept and `aug` reset |
| TreapNode.WeakCopyAt | lib/treap/node.hpp:52-55 | the same copy, stamped with the new version |
| TreapNode.SumIsSize | lib/treap/node.hpp:22-37 | the sum of a tree's counters is its number of key copies, and is at least its node count, so 0 can mean "not computed" |
| TreapNode.ContentAtRoot | lib/treap/node.hpp:22-30 | in a BST, the root's key has exactly the root's counter |
| TreapAugment.Augment | lib/treap/augment.hpp:14-19 | only `aug` fields change; if every preset `aug` was a correct subtree sum, the result is fully augmented and the returned value is the tree's sum; a node already computed is returned unchanged |
| TreapAugment.FullyAugFixed | lib/treap/augment.hpp:16 | on a fully augmented tree, `augment` changes nothing and returns the sum |
| TreapAugment.AugmentIdempotent | lib/treap/augment.hpp:14-19 | a second `augment` returns the same tree and value as the first |
| TreapAugment.AugmentKeeps | lib/treap/augment.hpp:21-30 | the augmented tree (`augment_parallel` as well, its forks run in turn) is a treap iff the input is, with the same keys and counts |
| TreapAugment.ErasedTreap | lib/treap/augment.hpp:14-19 | the order and priority invariants do not depend on `aug` |
| TreapBuild.Split | lib/treap/build.hpp:14-24 | the two parts hold exactly the input's nodes and counts; on a BST/heap they are BST/heap, all keys of the first below the split key and all of the second above |
| Shape.SplitTreap | lib/treap/build.hpp:14-24 | splitting a treap gives two treaps that partition its keys at the split key |
| TreapBuild.MergeCounts | lib/treap/build.hpp:26-52 | merge's counts are the sums of both inputs' counts, over the union of the keys |
| TreapBuild.MergeContent | lib/treap/build.hpp:30-36 | on equal keys the counters add up: the merged multiset is the sum of the two |
| Shape.MergeNodes | lib/treap/build.hpp:26-52 | the merged tree's keys are the union of the inputs' keys, and its (key, priority) pairs come from the inputs |
| Shape.MergeTreap | lib/treap/build.hpp:40-51 | merging two treaps yields a treap |
| TreapBuild.Build | lib/treap/build.hpp:54-62 | the built tree counts each key as often as it occurs in `elems`, and no `aug` is computed yet |
| TreapBuild.BuildTreap | lib/treap/build.hpp:54-62 | the built tree is a treap |
| TreapBuild.BuildAugmented | lib/treap/build.hpp:64-70 | `build_parallel` followed by augmentation gives a fully augmented treap holding `elems` |
| TreapInsert.SplitCopyKeeps | lib/treap/search_insert.hpp:11-23 | `split_copy` parts hold exactly the input's nodes and counts |
| TreapInsert.SplitCopyShares | lib/treap/search_insert.hpp:11-23 | every node of the parts is either a new copy stamped `ver` or a subtree of the old tree |
| TreapInsert.DeployKeeps | lib/treap/search_insert.hpp:25-29 | deploying adds exactly one copy of the key and one (key, priority) pair |
| TreapInsert.InsertContent | lib/treap/search_insert.hpp:31-49 | the new version has exactly one more copy of the key, and every other count is unchanged |
| TreapInsert.InsertKeys | lib/treap/search_insert.hpp:31-49 | the keys grow by the inserted key, and the (key, priority) pairs by at most the new node |
| TreapInsert.InsertShares | lib/treap/search_insert.hpp:31-49 | every node of the new version is a new copy stamped `ver` or a shared subtree of the old version; cached sums stay valid |
| TreapInsert.InsertTreap | lib/treap/search_insert.hpp:31-49 | inserting into a treap gives a treap |
| TreapDelete.ConcatKeeps | lib/treap/search_delete.hpp:10-23 | `process_concat` holds exactly the counts, keys and pairs of both sides |
| TreapDelete.ConcatKeepsTreap | lib/treap/search_delete.hpp:10-23 | concatenating two treaps, all keys of the first below the second, gives a treap |
| TreapDelete.ConcatShares | lib/treap/search_delete.hpp:10-23 | only spine nodes are copied; the rest is shared |
| TreapDelete.DeleteContent | lib/treap/search_delete.hpp:25-45 | the new version has exactly one copy fewer of the key (none if absent), and every other count is unchanged |
| TreapDelete.DeleteKeys | lib/treap/search_delete.hpp:25-45 | no key or pair is added, and only the deleted key can disappear |
| TreapDelete.DeleteTreap | lib/treap/search_delete.hpp:25-45 | deleting from a treap gives a treap |
| TreapDelete.DeleteShares | lib/treap/search_delete.hpp:25-45 | every node of the new version is a new copy stamped `ver` or a shared subtree |
| TreapQuery.Find | lib/treap/query.hpp:13-18 | the node reached has the key and lies in the tree; in a BST it is found iff the key is present, with the key's count |
| TreapQuery.RangeEstimateCorrect | lib/treap/query.hpp:20-45 | in every cover state, on a fully augmented BST, the estimate equals the sum of the counts of keys in `[lo, hi]` |
| TreapQuery.RangeQuery | lib/treap/query.hpp:47-49 | on a fully augmented BST, the query is the range count, and an empty range (`hi < lo`) gives 0 |
| TreapQuery.EmptyRange | lib/treap/query.hpp:26-27 | `hi < lo` gives 0 from the open-open state |
| TreapQuery.PointRange | lib/treap/query.hpp:20-45 | the count over `[k, k]` is the key's count |
| TreapQuery.RangeCountAll | lib/treap/query.hpp:41 | a subtree whose keys all lie in the range contributes its whole sum, which is what the close-close state returns |
| Scheduler.Context.Done | lib/treap/scheduler.hpp:47-54 | `done` finishes the task and `is_done` then holds |
| Scheduler.Context.Concat | lib/treap/scheduler.hpp:88-101 | with one side empty it writes the other side and finishes; otherwise it writes a copy of the higher-priority root and points `dir` at the side still to concatenate, keeping the task on course for `process_concat` |
| Scheduler.Context.Update | lib/treap/scheduler.hpp:103-135 | one level of `search_insert` / `search_delete`, with its case split; the context stays valid, so what is finally written is the recursive result |
| Scheduler.Context.AtKey | lib/treap/scheduler.hpp:111-127 | at the key: counter ±1 then set-ref, or concatenation when the last copy goes |
| Scheduler.ApplyAtKey | lib/treap/search_delete.hpp:37-43 | the recursive operations at the key's level: insert adds 1, delete of a last copy concatenates, otherwise takes 1 |
| Scheduler.Context.ExecuteOneStep | lib/treap/scheduler.hpp:137-165 | a step keeps the context valid and on the same target, and strictly lowers the remaining-step measure |
| Scheduler.Context.SearchStep | lib/treap/scheduler.hpp:138-148 | the search case shares the off-path child and goes one level down |
| Scheduler.Context.ConcatStep | lib/treap/scheduler.hpp:153-163 | the concat case shares the outer child and concatenates the inner one |
| Scheduler.Context.ExecuteToComplete | lib/treap/scheduler.hpp:167-197 | finishing at once leaves the root equal to the target |
| Scheduler.Context.InitContext | lib/treap/scheduler.hpp:289-303 | task `ver` gets priority `h(elem)` and its target is the recursive operation on the previous root; an `OP_NONE` task is done at once with the previous root |
| Scheduler.RunSteps | lib/treap/scheduler.hpp:199-210 | stepping a task until it is done ends with the target tree, within the measured number of steps |
| Scheduler.RunSwitching | lib/treap/scheduler.hpp:231-237 | stepping and then switching to `execute_to_complete_` at any step ends with the target tree |
| Scheduler.ProcessTask | lib/treap/scheduler.hpp:289-300 | from `init_context_`, the final root is exactly `search_insert` / `search_delete` on the previous root, within twice the previous height in steps |
| Scheduler.CommitScan | lib/treap/scheduler.hpp:268-271 | the scan ends with every task after the committed prefix up to `next` done, and either `next` is the last task or task `next + 1` is not done |
| Scheduler.CollectorRound | lib/treap/scheduler.hpp:265-277 | the committed count never decreases and stays a done prefix |
| Blocks.OwnerBlock | lib/treap/scheduler.hpp:252-260 | each version from 1 on lies in exactly one worker's block, the one `worker_thread_` strides to |
| Blocks.SnapshotWait | lib/treap/scheduler.hpp:354-361 | the slot a reader should wait for: none for version 0, otherwise the block holding the version |
| Blocks.Estimated | lib/treap/scheduler.hpp:254-262 | a worker augments at most one block per task number it fetches |
| Blocks.EstimatedNext | lib/treap/scheduler.hpp:254-262 | a fetched number past the last task always augments its block and ends the loop; one below the block's end augments nothing |
| Blocks.EstimatedBlocks | lib/treap/scheduler.hpp:247-263 | the blocks a worker augments are the first blocks of its own stripe, in order, cut at the last task; their number is `Estimated`'s count |
| Blocks.EstimatedStops | lib/treap/scheduler.hpp:254-262 | a worker that fetches few task numbers stops before the last block of its stripe, and a reader of that block's version is not served correctly |
| Blocks.StripeCovers | lib/treap/scheduler.hpp:354-361 | once a worker has augmented every block of its stripe up to the last task, every reader waiting on it is let through |
| Blocks.EstimatedBlocksDrained | lib/treap/scheduler.hpp:247-263 | corrected: after the last fetch the worker augments the rest of its stripe, so every block up to the last task is augmented and every reader waiting on it is let through |
| Blocks.DrainStripe | lib/treap/scheduler.hpp:254-262 | corrected: augmenting the rest of a stripe keeps the stripe order and ends past the last task |
| Blocks.SnapshotSlotAgrees | lib/treap/scheduler.hpp:356-358 | away from block boundaries the slot as written is the owner's slot |
| Blocks.SnapshotSlotMissesAll | lib/treap/scheduler.hpp:356-358 | at every block boundary the slot as written is not the owner's: it is the next block, of the same or another worker, which does not hold the version |
| Blocks.SnapshotSlotMisses | lib/treap/scheduler.hpp:356-358 | with 2 workers and blocks of 2 versions, version 2's slot as written is worker 1's first block (versions 3-4), not worker 0's |
| SequentialDb.InsertVersion | db/sequential.hpp:66-67 | the new root is an augmented treap with one more copy of the key |
| SequentialDb.DeleteVersion | db/sequential.hpp:73-74 | the new root is an augmented treap with one copy fewer of the key |
| SequentialDb.Sequential.Init | db/sequential.hpp:47-51 | room for `m` operations after version 0, and version 0 holds `elems` |
| SequentialDb.Sequential.Insert | db/sequential.hpp:64-69 | the next version is the previous one plus the key; earlier roots are untouched; the status is 0 |
| SequentialDb.Sequential.Delete | db/sequential.hpp:71-76 | the next version is the previous one minus one copy of the key; earlier roots are untouched; the status is 0 |
| SequentialDb.Sequential.Query | db/sequential.hpp:58-62 | the query takes a version of its own with the previous root |
| SequentialDb.Sequential.AnswerAsWritten | db/sequential.hpp:32-37 | the resolver as written: an absent key in a point query hits the null dereference, and every other answer is the count in `[l, r]` at that version |
| SequentialDb.Sequential.Answer | db/sequential.hpp:32-37 | the resolver with an absent key answered 0: always the count in `[l, r]` at that version |
| PamNode.MakeNode | lib/pam/node.hpp:42-52 | a leaf with a single history entry `(val, ver)`, `vstat` unset and `aug` not computed |
| PamNode.MakeHashedNode | lib/pam/node.hpp:54-56 | the leaf keyed by `h(key)` is a one-key treap with history `[(1, ver)]` |
| PamNode.WeakData | lib/pam/node.hpp:58-62 | a weak copy keeps only the last history entry, with `vstat` and `aug` reset |
| PamNode.WeakCopy | lib/pam/node.hpp:58-62 | the weak copy is a fresh node with the key, priority and last entry of the original |
| PamNode.SubtreeVstat | lib/pam/node.hpp:64-68 | 0 for an empty tree, else the node's (already set) `vstat` |
| PamNode.ValueAtIndex | lib/pam/query.hpp:11-16 | in a sorted history, the value as of `v` is that of the last entry whose version is at most `v` |
| PamNode.ValueAtPositive | lib/pam/build_versioned.hpp:17-20 | in a sorted positive history, the value as of `v` is positive iff `v` is not before the first version |
| PamNode.WeakKeeps | lib/pam/node.hpp:58-62 | weak copies of entries settled by `v` keep every value as of `v` |
| PamAugment.AugmentMemo | lib/pam/augment.hpp:14-24 | if every set `vstat` had a correct `aug`, every node ends augmented with the sum of last values, and `vstat` is the newest last version below it |
| PamAugment.AugmentKeeps | lib/pam/augment.hpp:14-24 | augmenting keeps the treap invariants, the keys, every version's counters and the history of every node |
| PamAugment.AugmentIdempotent | lib/pam/augment.hpp:16 | a second augmentation gives the same result |
| PamAugment.FullyAugFixed | lib/pam/augment.hpp:16 | a fully augmented tree is returned unchanged with its sum |
| PamBuild.Split | lib/pam/build.hpp:13-23 | the parts hold exactly the input's nodes and payloads, and every version's counters |
| PamBuild.MergeFirst | lib/pam/build.hpp:25-51 | merge adds first values on equal keys: the counters are the sums of both inputs', over the union of keys |
| PamBuild.Build | lib/pam/build.hpp:53-61 | each key's first value is its multiplicity in `elems`, all nodes at version 0 and transient |
| PamBuild.BuildTreap | lib/pam/build.hpp:53-61 | the built tree is a treap |
| PamBuild.InitialAt | lib/pam/build.hpp:53-61 | the built tree holds the same counters as of every version, sorted and settled by version 0 |
| PamBuildVersioned.MergeValues | lib/pam/build_versioned.hpp:14-24 | the new history is the first one followed by the second raised by the first's last value |
| PamBuildVersioned.AppendedAt | lib/pam/build_versioned.hpp:14-24 | when the second history starts no earlier than the first ends, the value as of any `v` is the sum of both |
| PamBuildVersioned.MergeVersionedKeys | lib/pam/build_versioned.hpp:26-52 | the merged keys are those of either side |
| PamBuildVersioned.MergeVersionedFresh | lib/pam/build_versioned.hpp:26-52 | merging the earlier-index tree first keeps histories sorted with versions in the batch's range |
| PamBuildVersioned.MergeVersionedAt | lib/pam/build_versioned.hpp:26-52 | the merged counters as of every version are the sums of both sides' |
| PamBuildVersioned.BuildVersionedAt | lib/pam/build_versioned.hpp:54-62 | as of version `v`, the batch tree counts exactly the elements whose version `ver + i` is at most `v` |
| PamBuildVersioned.BuildVersionedKeys | lib/pam/build_versioned.hpp:54-62 | its keys are exactly the distinct elements |
| PamBuildVersioned.BuildVersionedTreap | lib/pam/build_versioned.hpp:54-62 | it is a treap |
| PamBuildVersioned.BuildVersionedFresh | lib/pam/build_versioned.hpp:54-62 | its histories are sorted, positive and within versions `ver` to `ver + n - 1`, and its nodes are transient |
| PamCopyMerge.UpdateValues | lib/pam/copy_merge.hpp:13-15 | every value is raised by the base and every version kept |
| PamCopyMerge.Expose | lib/pam/copy_merge.hpp:17-22 | the root comes back childless and the two children are returned; putting them back gives the input |
| PamCopyMerge.CopySplit | lib/pam/copy_merge.hpp:24-36 | the two parts together have the input's node count |
| PamCopyMerge.CopySplitTreap | lib/pam/copy_merge.hpp:24-36 | splitting a treap gives two treaps that partition its keys at the split key |
| PamCopyMerge.CopySplitAt | lib/pam/copy_merge.hpp:24-36 | the parts' counters as of any published version sum to the input's |
| PamCopyMerge.CopyMergeNodes | lib/pam/copy_merge.hpp:38-67 | the result's keys are the union of both inputs' |
| PamCopyMerge.CopyMergeTreap | lib/pam/copy_merge.hpp:38-67 | merging two treaps gives a treap |
| PamCopyMerge.CopyMergeMemo | lib/pam/copy_merge.hpp:38-67 | cached sums of the published tree stay valid in the result |
| PamCopyMerge.CopyMergePublished | lib/pam/copy_merge.hpp:38-67 | all histories of the result are sorted and end by the batch's last version |
| PamCopyMerge.CopyMergeAt | lib/pam/copy_merge.hpp:38-67 | with the counter carried on an equal key, the counters as of every version are the published ones plus the batch's |
| PamCopyMerge.CopyMergeAsWrittenLate | lib/pam/copy_merge.hpp:56-59 | the source's equal-key case is right as of every version from the batch's last on |
| PamCopyMerge.CopyMergeAsWrittenLoses | lib/pam/copy_merge.hpp:56-59 | as written, a key both published and in the batch can read 0 before its own version in the batch: key 5 published at version 0, batch `[7, 5]` at versions 1-2, read as of version 1 |
| PamCopyMerge.CopyMergeCarries | lib/pam/copy_merge.hpp:56-59 | with the counter carried, the same key reads its published count |
| PamCopySubtract.CopyIfNeed | lib/pam/copy_subtract.hpp:13-17 | a transient node comes back as itself, a published one as its weak copy; either way with the same last entry |
| PamCopySubtract.CopyConcat | lib/pam/copy_subtract.hpp:19-34 | the result has the nodes of both sides |
| PamCopySubtract.CopyConcatMemo | lib/pam/copy_subtract.hpp:19-34 | cached sums stay valid |
| PamCopySubtract.CopySubtractAsWrittenSub | lib/pam/copy_subtract.hpp:36-65 | as written, only keys of the published tree remain |
| PamCopySubtract.CopySubtractAsWrittenAt | lib/pam/copy_subtract.hpp:43-49 | as written, a key of the batch counts 0 as of every version, every other key keeps its published counter |
| PamCopySubtract.CopySubtractAsWrittenLoses | lib/pam/copy_subtract.hpp:43-49 | a key deleted late in the batch already counts 0 at an earlier version of the batch |
| PamCopySubtract.CopySubtractNodes | lib/pam/copy_subtract.hpp:36-65 | with the history ended instead, the keys and pairs are exactly the published tree's |
| PamCopySubtract.CopySubtractTreap | lib/pam/copy_subtract.hpp:36-65 | the result is a treap |
| PamCopySubtract.CopySubtractMemo | lib/pam/copy_subtract.hpp:36-65 | cached sums of both versions stay valid |
| PamCopySubtract.CopySubtractPublished | lib/pam/copy_subtract.hpp:36-65 | histories stay sorted and end by the batch's last version |
| PamCopySubtract.CopySubtractAt | lib/pam/copy_subtract.hpp:36-65 | as of every version, a key deleted by then in the batch counts 0, every other key keeps its published counter |
| PamCopySubtract.EndedAt | lib/pam/copy_subtract.hpp:43-49 | the ended history reads the published value before the deletion and 0 from it on |
| PamQuery.FindValue | lib/pam/query.hpp:11-16 | 0 before the first version, and on a sorted history the value as of `v` |
| PamQuery.Find | lib/pam/query.hpp:18-23 | on a BST of sorted histories, the key's counter as of `v`, and 0 for an absent key |
| PamQuery.RangeEstimateCorrect | lib/pam/query.hpp:27-56 | in every cover state, on a BST whose cached sums are valid, the estimate is the sum of the counters as of `v` of keys in `[lo, hi]` |
| PamQuery.RangeSumAll | lib/pam/query.hpp:48-52 | `aug` is used only when `vstat` is at most `v`, and then it equals the range sum |
| PamQuery.RangeQuery | lib/pam/query.hpp:58-60 | the wrapper gives the range sum, and 0 for an empty range |
| PamQuery.EmptyRange | lib/pam/query.hpp:28 | `hi < lo` gives 0 |
| PamQuery.PointRange | lib/pam/query.hpp:27-56 | the sum over `[k, k]` is the key's counter |
| PamQuery.RangeSumTally | lib/pam/query.hpp:27-56 | the range sum is the number of key copies in the range as of `v` |
| PamInterface.BuildCorrect | lib/pam/interface.hpp:18-24 | the built tree is a snapshot at version 0 holding `elems` as of every version |
| PamInterface.InsertedCorrect | lib/pam/interface.hpp:32-37 | inserting a batch gives a snapshot at its last version, keys grown by the batch's, and as of every version the published counters plus the batch's elements issued by then |
| PamInterface.InsertedOneCorrect | lib/pam/interface.hpp:26-30 | a single insert adds one copy of the key from its version on |
| PamInterface.DeletedCorrect | lib/pam/interface.hpp:45-50 | deleting a batch gives a snapshot at its last version, and as of every version clears the keys deleted by then |
| PamInterface.DeletedOneCorrect | lib/pam/interface.hpp:39-43 | a single delete clears the key from its version on |
| PamInterface.InsertedAsWrittenLate | lib/pam/interface.hpp:32-37 | from the batch's last version on, `inserted` as written counts the published counters plus the whole batch, as the corrected one does |
| PamInterface.InsertedAsWrittenLoses | lib/pam/interface.hpp:32-37 | before the batch's last version, `inserted` as written can lose the published counter of a key the batch inserts |
| PamInterface.DeletedAsWrittenAt | lib/pam/interface.hpp:45-50 | `deleted` as written clears every key of the batch at every version from the published one on; from the batch's last version on this agrees with the corrected tree |
| PamInterface.DeletedAsWrittenLoses | lib/pam/interface.hpp:45-50 | before the batch's last version, `deleted` as written can clear a key that the batch has not deleted yet |
| PamInterface.EmptyBatch | lib/pam/interface.hpp:32-37 | an empty batch returns the published tree itself |
| PamInterface.SnapshotReads | lib/pam/interface.hpp:52-58 | on a snapshot, `range_estimate` is the range sum and the point query the key's counter |
| BatchDb.InsertRun | db/batch.hpp:79-80 | after a run of buffered inserts, a version is the committed one plus the keys buffered by then |
| BatchDb.DeleteRun | db/batch.hpp:79-80 | after a run of buffered deletes, a key counts 0 if deleted by then, else as committed |
| BatchDb.FlushInsertTree | db/batch.hpp:55-57 | `inserted` at `version_committed_ + 1` gives a tree covering every version of the buffer |
| BatchDb.FlushDeleteTree | db/batch.hpp:58-60 | `deleted` at `version_committed_ + 1` gives a tree covering every version of the buffer |
| BatchDb.ChainAppend | db/batch.hpp:68-69 | appending an entry that covers from the tail's version on keeps the chain |
| BatchDb.EntryAnswers | db/batch.hpp:99-100 | an entry covering the version answers both query kinds with that version's counters |
| BatchDb.Batch.Init | db/batch.hpp:123-128 | the chain starts with the built tree at version 0 |
| BatchDb.Batch.DoUpdate | db/batch.hpp:52-71 | the buffer is flushed into one new chain entry at the submitted version; the chain grows by one and everything stays covered |
| BatchDb.Batch.Enbuffer | db/batch.hpp:73-82 | a type switch flushes first, even an empty buffer; the key takes the next version; a full buffer is flushed |
| BatchDb.Batch.Push | db/batch.hpp:79-80 | the key goes in the next free slot and takes the next version |
| BatchDb.Batch.Insert | db/batch.hpp:140-143 | the next version adds one copy of the key; returns 0 |
| BatchDb.Batch.Delete | db/batch.hpp:145-148 | the next version clears the key's counter; returns 0 |
| BatchDb.Batch.Close | db/batch.hpp:130-134 | only a non-empty buffer is flushed, after which every submitted version is committed |
| BatchDb.Batch.Query | db/batch.hpp:136-138 | a query is tagged with the current `version_submitted_` |
| BatchDb.Batch.Seek | db/batch.hpp:89-97 | the cursor stops on the first entry whose version is not below `ver` |
| BatchDb.Batch.Answer | db/batch.hpp:99-100 | the answer is the count of keys in `[l, r]` at version `ver` |
| BatchDb.Batch.ProcessRangeQuery | db/batch.hpp:84-101 | a committed version's query is answered with exactly that version's counters; the state is otherwise unchanged |

## Left out

- Sums, counters and versions are unbounded `nat`. The model does not capture `uint64` / `size_t` wrap-around.
- `aug_uninitialized` (0) and `vstat_uninitialized` (the all-ones value) are modelled as the constant `AugUninitialized` and the constructor `Unset`.
- `TreapAugment.Augment` is modelled on values: the in-place writes to `aug` become a returned tree. The same holds for:
  - `PamAugment.Augment`;
  - `split`, `merge` and `build` in both families;
  - `merge_versioned`;
  - `copy_merge` / `copy_subtract` writing children of transient nodes;
  - `expose`.
  The model does not capture aliasing between the nodes being relinked.
- `augment_parallel`, `build_parallel` and `parlay::par_do`: the forked calls are modelled as running one after the other.
- `release_node` / `release_tree` and all other memory release are left out.
- `aes_hash` is modelled as an injective parameter `h`, which the source calls a perfect hash.
- Thread machinery is left out:
  - the pipe, boarder, worker and collector threads;
  - tokens, atomics and `atomic_wait`;
  - the spin-waits in `update_` and `work_update_`;
  - `decide_num_pipes_` / `decide_num_workers_`, which use floating point.
  The step machine runs one context at a time and assumes every node it reads is final.
- The query processor queue and the `num_versions_` spin in `db/sequential.hpp` are left out. In the batch engine a query is answered only for a version that is already committed (`ver <= versionCommitted`). The thread-local cursor is a pair of fields.
- Log calls and the `abort` branch of `do_update_` are left out; the operation type has only two values.
- `BatchDb.Batch.DoUpdate`: it states that the new entry covers its versions and that the chain grows by one, not which tree the entry holds.
- `Scheduler.ProcessTask`: the step bound is twice the previous version's height. It is not height + 2, because a delete that concatenates walks both children's spines.
- `SequentialDb.Sequential.Close` is not modelled; it only stops the processor and logs.
- `SequentialDb.Sequential.Query` and `BatchDb.Batch.Query` return the version the query is tagged with. The source returns the status of the processor queue's `Push`, and that queue is not part of this model.
- `PamInterface.Inserted` and `PamInterface.Deleted` are defined over the corrected `copy_merge` / `copy_subtract`, and so is the batch engine. `PamInterface.InsertedAsWritten` and `PamInterface.DeletedAsWritten` model the source as written. They are proved to agree with the corrected trees only from a batch's last version on.

## Findings

| source | as written | input that shows it | evidently intended | confidence | as-written member | corrected member |
|---|---|---|---|---|---|---|
| lib/treap/scheduler.hpp:254-262 | a worker augments at most one block per task number it fetches and stops at its first number past `num_tasks`, leaving the rest of its stripe unaugmented | 2 workers, block size 1, 6 tasks; worker 1 fetches 1, worker 2 fetches 2-7, worker 1 fetches 8: version 5 is never augmented and `num_estimated_[0]` stays 2 | after the last fetch, augment the rest of the stripe up to `num_tasks` | not executed | Blocks.EstimatedStops | Blocks.EstimatedBlocksDrained |
| lib/treap/scheduler.hpp:356-358 | `get_snapshot` picks the block of `ver / block_size`, but workers stripe 1-based blocks that start at task 1 | 2 workers, block size 2, version 2: the slot as written is worker 1's first block (versions 3-4) | wait for the block of `(ver - 1) / block_size`, which holds `ver` | not executed | Blocks.SnapshotSlotMisses | Blocks.SnapshotWait |
| db/sequential.hpp:35 | a point query dereferences `find(...)` even when the key is absent | version 0 built from `[]`, query `(1, 1)` | answer 0 for an absent key | not executed | SequentialDb.Sequential.AnswerAsWritten | SequentialDb.Sequential.Answer |
| lib/pam/copy_merge.hpp:56-59 | on an equal key, the delta node replaces the published one with its history shifted, dropping the published entry | key 5 published at version 0; batch `[7, 5]` at versions 1-2; as of version 1 key 5 reads 0 | keep the published last entry in front of the shifted history | not executed | PamCopyMerge.CopyMergeAsWrittenLoses | PamCopyMerge.CopyMergeAt |
| lib/pam/copy_subtract.hpp:43-49 | a deleted key loses its node at every version the batch covers | key 5 published at version 0; batch `[7, 5]` deleted at versions 1-2; as of version 1 key 5 reads 0 | end the key's history with 0 at the version of its deletion | not executed | PamCopySubtract.CopySubtractAsWrittenLoses | PamCopySubtract.CopySubtractAt |

`PamCopyMerge.CopyMerge` and `PamCopySubtract.CopySubtract` are the corrected definitions that the rest of the model uses. A batch entry answers queries for every version it covers (`db/batch.hpp:89-100`), so these intermediate versions are reachable by queries.
