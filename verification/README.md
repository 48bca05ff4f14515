# A verified model of the UnifyFS client

UnifyFS's client is a log-structured file store: each write goes to a fresh place in a two-tier log (shared memory, then
a spill file), and a tree of non-overlapping extents maps file offsets to log offsets. This project models that
machinery in Dafny and proves that it behaves like one flat array of bytes, together with the components around it:
chunk allocation, the write index and its sync to the server, the read path and its completion protocol, buffered
streams, the expression evaluator used for configuration values, and the parallel file transfer.

`dafny verify dfyconfig.toml` checks everything.

## How the project is laid out

| files | subject |
|---|---|
| `Extents`, `IntervalTree`, `SegTree` | extents on values, the red-black tree descents, the extent tree object |
| `Bits`, `SlotRuns`, `SlotSpec`, `SlotFit`, `SlotMap`, `SlotHistory` | the slot bitmap: search, when it succeeds, object, whole runs |
| `LogSpec`, `LogIO`, `LogHistory`, `LogServed`, `LogSmall`, `LogOverlap`, `LogEscape`, `LogReserved`, `LogStore` | the two-tier log: allocation with rollback, whole runs, when allocations succeed, runs that cannot span, runs that overlap, the reserved sizes, bytes |
| `WriteSpec`, `WriteIndex` | write metadata, index buffer, sync and truncation |
| `LocalRead`, `Client`, `ClientIO`, `ClientMount`, `SpillFlush` | local reads, the client on values, its objects put together, mounting, and the flush before a sync |
| `ArrayList`, `MreadTable`, `MreadSpec`, `Mread`, `MreadClient` | the table of multi-reads, their message protocol, and both together |
| `FlatFile`, `StreamSpec`, `StreamLaws`, `StreamShift`, `Stream` | buffered stdio streams: the flat stream, what it returns, and the buffered one |
| `ExprParser`, `ExprRoundTrip`, `ExprForms`, `ExprCompiler`, `ExprEval`, `Combinatorics` | the expression evaluator |
| `Transfer` | parallel file transfer |
| `Arith`, `Wrappers` | shared helpers |

Where the source changes things in place, the model has a class or a method with loops, proved against a function on
values; results over whole runs are then proved about those functions. A run is a `Trace`: the operations so far, the
latest outermost.

## Main results

- Local reads return the last bytes written (`ClientIO.ClientIO.Session`), for any sequence of operations on any number of
  files on one log, performed on the allocator, log and file objects themselves; from mounting on, and with no assumption
  about the allocator, when each write fits one chunk (`ClientMount.MountAndRead`).
- Live log ranges never overlap (`LogHistory.RunDisjoint`), given a shmem slot total that is a multiple of 8 or at most 1,
  spanning requests whose shared-memory part is at the end, and shared memory of whole chunks when spanning ranges are
  freed. What happens without each: overlaps for every other total (`LogEscape.DisjointIff`, from
  `SlotHistory.EscapeIff`); overlaps after two allocations as soon as shmem has two chunks (`LogOverlap.OverlapRun`,
  `AllocOnlyIff`, `LogHistory.SpanInsideIff`); the wrong chunks freed (`LogHistory.FreeSpanIff`).
- When an allocation succeeds, told by the bits of the chunk maps (`LogServed.AllocIff`, from `SlotFit.ReserveIff`), and
  when one that is larger than the rest of shmem gets that rest (`LogServed.SpanAtEndIff`).
- A failed allocation leaves both tiers exactly as they were (`LogIO.LogContext.Alloc`). Allocations alone keep the
  reserved sizes right exactly if none takes the retry (`LogReserved.ReservedIff`); with frees `LogReserved.RunExcess` says
  by how much they are off.
- Server, pending extents and local extents agree with the history of every run (`WriteSpec.RunCoherent`); the index
  buffer overflows in some run exactly for the smallest configurations (`WriteSpec.OverflowIff`).
- Multi-reads under every interleaving of messages (`MreadSpec.RunInv`, `CountersOrdered`, `ReadOutcome`), with the exact
  cases in which bytes reported as read are whatever the buffer held before (`StaleIff`, `HoleLeaks`), and any number of
  them at once through the table that finds them by id (`MreadClient.Exchange`).
- A fully buffered stream is an unbuffered file with a position (`Stream.Stream.Perform`), and exactly what a write after
  ungetc on unflushed output does instead (`StreamShift.PutIff`, `Stream.Stream.WriteUngetcWrite`).
- The parser accepts exactly the derivations of its grammar and groups them as written (`ExprForms.ParseIff`, `Grouping`),
  and what compiles evaluates to what was written down (`ExprEval.WrittenValue`).
- All ranks together copy the whole file in any interleaving of their steps (`Transfer.AllRanksCopy`).

## Where the code differs from what it says

- `slotmap_reserve` is described as reserving consecutive slots of the map; it can hand out slots behind the last one
  (`SlotHistory.EscapeIff`), and refuses more than eight slots when the only free bytes are in front
  (`SlotFit.FrontMissed`, exactly when in `SlotFit.ReserveIff`).
- `max_log_offset` is the maximum of file offsets, not of log offsets (`WriteIndex.FileMeta.FillIndex`), so a sync can
  leave data in the spill file unflushed; for some run it does whenever there are both tiers (`SpillFlush.CanMissIff`).
- The number of chunks "at the end of the shmem log" is counted from the latest reservation, not from the highest one,
  and they are reserved wherever the search finds them; more than eight that begin inside a byte of the map are not found
  there at all (`LogServed.SpanAtEndIff`).
- `reserved_sz` is not the size of the chunks in use: the retry of a spanning allocation adds the byte count of the
  abandoned attempt (`LogHistory.RetryUndercounts`, reached in `LogOverlap.RetryReached`), and a free never lowers it
  (`LogReserved.FreeExcess`).
- Creating a multi-read needs up to capacity plus 2^32 mod capacity tries; with the capacity of 1024 the client uses, that
  is 1024 (`MreadTable.SearchBound`). It is refused when the last index is in use even if others are free.
- A read that times out also fails the requests that had completed (`MreadSpec.TimeoutIff`), because a completion
  without an error leaves the request marked as in progress.
- `ncr` reports infinity for some coefficients that would fit (`Combinatorics.InfiniteThoughItFits`).

## Model

| member | source | states |
|---|---|---|
| `Extents.AddNodesLaw` | common/src/seg_tree.c:148-328 | for every ordered set of disjoint extents and every new extent: the result is ordered and disjoint, its offset-to-log map is the old one overridden on exactly the new range, and there are at most two extents more |
| `Extents.AddNodesCanonical` | common/src/seg_tree.c:268-323 | extents that are fully coalesced stay fully coalesced: one merge to the left and one to the right are enough |
| `Extents.AddNodesBelow` | common/src/seg_tree.c:148-328 | no extent ends beyond the old ends and the new one |
| `Extents.JoinMap` | common/src/seg_tree.c:268-323 | coalescing at a seam changes the map of neither side and removes at most one extent |
| `Extents.CutMap` | common/src/seg_tree.c:336-402 | cutting a range out of any extents removes exactly the offsets of the range from their map |
| `Extents.CutOrdered` | common/src/seg_tree.c:336-402 | what a cut leaves is ordered, disjoint and clear of the range |
| `Extents.CutCanonical` | common/src/seg_tree.c:336-402 | a cut can create no new opportunity to coalesce |
| `Extents.CutLength` | common/src/seg_tree.c:336-402 | a cut adds at most one extent, and none unless an extent straddles the range |
| `Extents.CanonicalUnique` | common/src/seg_tree.c:148-328 | two fully coalesced ordered sequences with the same map are equal: the tree holds exactly the maximal runs of its map |
| `IntervalTree.CompareNotTransitive` | common/src/seg_tree.c:40-50 | the comparison of extents is no total order: equality under it is not transitive |
| `IntervalTree.Descend` | common/src/tree.h:592-616 | the descent stops at an overlapping node exactly when the tree has one, and everything off the path lies strictly before or after the new extent |
| `IntervalTree.RbInsert` | common/src/tree.h:590-620 | reports an overlapping node if and only if there is one, leaving the tree alone; otherwise the extent is at its place in the order |
| `IntervalTree.PlugInOrder` | common/src/tree.h:592-616 | the in-order sequence of a tree is what lies before the path, the subtree, and what lies after the path |
| `IntervalTree.RemoveRoot` | common/src/tree.h:522-588 | deleting a node, also one with two children, leaves the in-order sequence of its subtrees |
| `IntervalTree.RbRemove` | common/src/tree.h:522-588 | removes exactly one node from the in-order sequence |
| `IntervalTree.RbMin` | common/src/tree.h:703-717 | the first node in order, or none |
| `IntervalTree.RbMax` | common/src/tree.h:703-717 | the last node in order, or none |
| `IntervalTree.RbNext` | common/src/tree.h:660-680 | the in-order successor of any node, whether below it or above it |
| `IntervalTree.RbPrev` | common/src/tree.h:682-702 | the in-order predecessor of any node |
| `IntervalTree.RbNfind` | common/src/tree.h:639-658 | with a one-byte key, the lowest node that ends at or after it |
| `SegTree.NonOverlappingRange` | common/src/seg_tree.c:99-143 | none exactly if the first range is covered by the second; otherwise the maximal leading part outside it, or the maximal trailing part if there is no leading one |
| `SegTree.Evict` | common/src/seg_tree.c:181-257 | one turn of the overwrite loop: keeps order and what the cut would leave, strictly lowers the measure (overlapped bytes plus straddling starts) and reports the change in the node count |
| `SegTree.Overwrite` | common/src/seg_tree.c:181-266 | the loop ends, whatever overlapping node each insertion reports, with the new extent inserted into the old extents cut at its range |
| `SegTree.MergePrev` | common/src/seg_tree.c:268-298 | merges with the predecessor exactly if both are adjacent in file and log |
| `SegTree.MergeNext` | common/src/seg_tree.c:300-323 | merges with the successor exactly if both are adjacent in file and log |
| `SegTree.SegTree.Add` | common/src/seg_tree.c:148-328 | the extents are exactly those of the specification; map overridden, count equal to the number of nodes and grown by at most two, maximum kept, coalesced trees stay coalesced |
| `SegTree.TrimNode` | common/src/seg_tree.c:348-371 | the three branches that delete or trim a node keep the cut and lower the measure |
| `SegTree.SplitTree` | common/src/seg_tree.c:372-394 | the branch that re-enters seg_tree_add: the map is that of the cut, and in a coalesced tree nothing merges with the part added back |
| `SegTree.CutUnbounded` | common/src/seg_tree.c:336-402 | a range that reaches past every extent, as truncation uses it, never raises the node count |
| `SegTree.SegTree.Remove` | common/src/seg_tree.c:336-402 | terminates with the old map minus exactly the range; in coalesced trees, and for unbounded ranges in all trees, exactly the cut extents; count never grows for unbounded ranges |
| `SegTree.SegTree.Find` | common/src/seg_tree.c:411-440 | none exactly if nothing overlaps, otherwise the overlapping extent that starts lowest |
| `SegTree.SegTree.Iter` | common/src/seg_tree.c:481-506 | visits the extents in order |
| `SegTree.ClearTree` | common/src/seg_tree.c:554-583 | freeing one node behind the iteration empties the tree |
| `SegTree.SegTree.Clear` | common/src/seg_tree.c:554-583 | no extents are left; the maximum is reset unless the tree was already empty |
| `Bits.SetBit` | common/src/slotmap.c:33-39 | sets one bit of a byte and no other |
| `Bits.ClearBit` | common/src/slotmap.c:42-49 | clears one bit of a byte and no other |
| `SlotRuns.BestSkip` | common/src/slotmap.c:168-199 | jumping over a whole run misses no longer run |
| `SlotRuns.FindConsecutiveZeroBits` | common/src/slotmap.c:168-199 | the first longest run of zero bits of a byte, and its start exactly if it is long enough |
| `SlotRuns.LongestUnique` | common/src/slotmap.c:168-199 | the first longest run is determined by being longest and first |
| `SlotSpec.MapBytes` | common/src/slotmap.c:83-91 | the least number of bytes with a bit per slot |
| `SlotSpec.UseSlot` | common/src/slotmap.c:65-71 | marks one slot and no other |
| `SlotSpec.ReleaseSlot` | common/src/slotmap.c:74-80 | frees one slot and no other |
| `SlotMap.ScanZeroBytes` | common/src/slotmap.c:242-258 | finds a run of zero bytes exactly if there is one at this place, else stops at a used byte |
| `SlotMap.CheckBits` | common/src/slotmap.c:259-286 | the in-byte and the straddling path find a place exactly if the specification has one at this byte, at the same slot |
| `SlotMap.SearchLoop` | common/src/slotmap.c:229-291 | finds the first byte in scan order at which the request fits, and none only if there is none, although the byte path skips ahead |
| `SlotSpec.FitsFree` | common/src/slotmap.c:237-291 | whichever path was taken, every slot of the run found is free and inside the map bytes |
| `SlotSpec.ReserveSound` | common/src/slotmap.c:209-304 | a reservation is refused or is a run of free slots inside the map bytes, inside the slot total if that is a multiple of 8 |
| `SlotSpec.ReserveKeeps` | common/src/slotmap.c:209-304 | exactly the run returned is added to the set bits, and the used counter stays the number of set bits and at most the total |
| `SlotSpec.ReleaseKeeps` | common/src/slotmap.c:315-337 | exactly the run released is removed from the set bits, and the counter stays exact |
| `SlotSpec.ReserveRelease` | common/src/slotmap.c:209-337 | releasing what was just reserved restores map and counter byte for byte |
| `SlotSpec.ReserveMonotone` | common/src/slotmap.c:209-304 | if reserving n slots fails, reserving any m at least n from the same state fails |
| `SlotFit.ReserveIff` | common/src/slotmap.c:209-304 | told by the bits of the map alone: a reservation succeeds exactly if it asks for some of the slots not in use and some byte has room for it, which for more than eight slots must not lie in front of as many bytes as the used slots would fill; it is then at the first such byte, at the first of its longest free runs |
| `SlotFit.SmallServed` | common/src/slotmap.c:259-291 | up to eight free slots in a row inside a byte are always found, there or further ahead |
| `SlotFit.StraddleServed` | common/src/slotmap.c:268-286 | up to eight free slots across two bytes are found if the first byte has no free run as long as its tail and the second none longer than its head |
| `SlotFit.BytesServed` | common/src/slotmap.c:229-258 | more than eight slots are found at whole free bytes behind as many bytes as the used slots would fill, or further ahead |
| `SlotFit.FrontMissed` | common/src/slotmap.c:229-233 | in front of that they are missed: with the first half of any map of at least four bytes free and the second in use, the first half is refused |
| `SlotMap.SlotmapInit` | common/src/slotmap.c:123-142 | null exactly if the use map does not fit into the region, in the unsigned arithmetic of the source; otherwise a map with every slot free |
| `SlotMap.SlotMap.Find` | common/src/slotmap.c:209-291 | the checks and the search on the byte array give the slot of the specification |
| `SlotMap.SlotMap.Reserve` | common/src/slotmap.c:209-304 | the byte array and counter change as specified, also on refusal |
| `SlotMap.SlotMap.Release` | common/src/slotmap.c:315-337 | refused exactly if the first slot is not in use, otherwise the specified release |
| `SlotHistory.AfterGood` | common/src/slotmap.c:123-337 | in every run of reservations and matching releases the counter equals the number of set bits and never exceeds the total, and live reservations are disjoint runs of set bits |
| `SlotHistory.ReserveInside` | common/src/slotmap.c:209-304 | with a total that is a multiple of 8 or at most 1, every reservation from any valid map lies below the total |
| `SlotHistory.EscapeIff` | common/src/slotmap.c:237-291 | some run hands out a slot at or past the total exactly if the total is neither a multiple of 8 nor at most 1 |
| `SlotHistory.PastRun` | common/src/slotmap.c:209-337 | for every such total a run in which every reservation succeeds and only reservations below the total are released, and which ends with all slots counted as used and a reservation past the total |
| `LogSpec.ChunksCover` | common/src/unifyfs_logio.c:71-79 | the chunks counted hold the bytes, one fewer would not |
| `LogSpec.LogSizes` | common/src/unifyfs_logio.c:82-110 | the parts in shared memory and spill file add up, the first ends inside shared memory, the second starts where the first ends |
| `LogSpec.LogEndSmaller` | common/src/unifyfs_logio.c:546-567 | the reservation at the end of the shmem log is always smaller than the request, so the remaining byte count is positive |
| `LogIO.InitLogHeader` | common/src/unifyfs_logio.c:250-301 | the header takes the least number of pages that holds the chunk map of the rest of the region; null exactly if no number does |
| `LogIO.LogContext.Alloc` | common/src/unifyfs_logio.c:497-660 | on all paths, including release of both reservations and retry, the outcome and both tiers are those of a specification without rollback; when it reports no space, both bitmaps, used counts, reserved sizes and maximum slots are exactly as before |
| `LogIO.LogContext.AllocRest` | common/src/unifyfs_logio.c:569-649 | the spill part of a spanning request: spans, retries in the spill file alone, or gives everything back |
| `LogIO.LogContext.Free` | common/src/unifyfs_logio.c:663-719 | releases the chunks computed from the byte range, as specified |
| `LogHistory.AllocServed` | common/src/unifyfs_logio.c:497-660 | an allocation takes exactly the chunks of its plan, hands out the byte range that starts at them and remembers the last of them in each tier; without a plan nothing changes |
| `LogServed.AllocIff` | common/src/unifyfs_logio.c:497-660 | an allocation succeeds exactly if the bits of one tier's chunk map have room for all of it, or those of shmem for the chunks behind the latest reservation and the spill log its first chunks for the rest; if shmem has room the spill log is left alone |
| `LogServed.SpanAtEndIff` | common/src/unifyfs_logio.c:544-612 | after every run of allocations that filled shmem one behind the other up to chunk k > 0, a request for more than is left, whose rest fits the untouched spill log, gets exactly the shmem chunks from k on and the first spill chunks if and only if at most eight chunks are left or k is a multiple of eight |
| `LogServed.EndMissed` | common/src/unifyfs_logio.c:544-612 | from fresh tiers with ten or more shmem chunks: one chunk and then more than the rest, and that rest is not used |
| `LogHistory.LiveDisjoint` | common/src/unifyfs_logio.c:497-660 | two ranges that hold different chunks share no byte, across all combinations of tiers |
| `LogHistory.RunGood` | common/src/unifyfs_logio.c:497-719 | in every run of allocations and frees that keeps the allocator's silent assumptions, with a shmem total that is a multiple of 8 or at most 1 and any spill total, every live range lies in chunks reserved for it alone |
| `LogHistory.RunDisjoint` | common/src/unifyfs_logio.c:497-719 | in every such run live byte ranges are pairwise disjoint |
| `LogHistory.SpanInsideIff` | common/src/unifyfs_logio.c:546-567 | a spanning range stays inside the shmem chunks reserved for it exactly if those are the last ones |
| `LogHistory.OneChunkNeverSpans` | common/src/unifyfs_logio.c:533-567 | a request of at most one chunk never spans, from any state of the tiers |
| `LogSmall.SmallRunAllowed` | common/src/unifyfs_logio.c:497-719 | every run whose requests each fit one shmem chunk, or with a tier missing or at most one shmem chunk any run, keeps all that the allocator silently assumes |
| `LogSmall.SmallRunDisjoint` | common/src/unifyfs_logio.c:497-719 | in every such run live byte ranges are pairwise disjoint, with nothing assumed but the shmem total |
| `LogHistory.FreeExact` | common/src/unifyfs_logio.c:663-719 | the chunks computed from a live range are the chunks it holds, if shared memory is a whole number of chunks or the range does not span |
| `LogHistory.FreeSpanIff` | common/src/unifyfs_logio.c:663-719 | for a spanning range they are exactly if shared memory is a whole number of chunks |
| `LogHistory.RetryUndercounts` | common/src/unifyfs_logio.c:598-633 | after the retry the reserved size is short by exactly the shmem chunks given back |
| `LogReserved.FreeExcess` | common/src/unifyfs_logio.c:663-719 | a free leaves the reserved size as it is, so from then on it counts the chunks freed as well |
| `LogReserved.AllocRunExcess` | common/src/unifyfs_logio.c:497-660 | over every run of allocations, from any tiers with one chunk size, the shmem reserved size stays exact and that of the spill log falls short by exactly the bytes the retries gave back |
| `LogReserved.ReservedIff` | common/src/unifyfs_logio.c:497-660 | for every run of allocations from fresh tiers: both reserved sizes equal the bytes of the chunks in use exactly if no allocation took the retry |
| `LogReserved.RunExcess` | common/src/unifyfs_logio.c:497-719 | in every run of allocations and frees that keeps the allocator's assumptions the reserved sizes count the chunks in use and all that were ever freed, less what the retries gave back |
| `LogOverlap.RetryReached` | common/src/unifyfs_logio.c:598-633 | two allocations from fresh tiers reach the retry: four spill chunks are in use and three accounted for |
| `LogOverlap.OverlapRun` | common/src/unifyfs_logio.c:546-567 | two allocations from any fresh tiers with at least two shmem chunks, any chunk sizes, and spill room for one shmem chunk and a byte make two live ranges overlap |
| `LogOverlap.AllocOnlyIff` | common/src/unifyfs_logio.c:497-660 | for such tiers, runs of allocations alone keep all live ranges disjoint exactly if shmem has at most one chunk |
| `LogEscape.Lifted` | common/src/unifyfs_logio.c:497-719 | every run of reservations of any sizes on the slot map, all served, and releases below the total is a run of allocations and frees on the log, chunk for slot, with the spill log untouched |
| `LogEscape.UnsafeOverlaps` | common/src/unifyfs_logio.c:497-719 | for every other shmem total some run that keeps the remaining assumptions makes a shmem range and a spill range overlap |
| `LogEscape.DisjointIff` | common/src/unifyfs_logio.c:497-719 | under the remaining assumptions live ranges stay disjoint in every run exactly if the shmem total is a multiple of 8 or at most 1 |
| `LogStore.LogStore.Write` | common/src/unifyfs_logio.c:797-870 | replaces exactly the given range of the two-tier log seen as one array |
| `LogStore.LogStore.Read` | common/src/unifyfs_logio.c:722-794 | returns exactly the given range of the log seen as one array |
| `WriteSpec.IndexLossless` | client/src/unifyfs-fixed.c:113-150 | the rewritten index is sorted and free of overlaps, and applying it to the server's map overlays exactly the pending extents |
| `WriteIndex.FileMeta.FillIndex` | client/src/unifyfs-fixed.c:120-142 | one entry per pending extent in order; the maximum kept is that of the file offsets |
| `WriteIndex.FileMeta.RewriteIndex` | client/src/unifyfs-fixed.c:113-150 | the index holds the pending extents and the tree is empty |
| `WriteIndex.FileMeta.SyncExtents` | client/src/unifyfs-fixed.c:198-252 | if a sync is needed the server's map is overlaid with the pending extents, and the spill file is flushed exactly if there are some and the size of the shmem log is 0 or one of their file offsets reaches it |
| `WriteIndex.FileMeta.AddWriteMeta` | client/src/unifyfs-fixed.c:63-97 | the extent enters the local extents and the pending ones, after a sync if the index buffer could run full |
| `WriteIndex.FileMeta.Write` | client/src/unifyfs.c:1061-1092 | a laminated file is refused; otherwise metadata as specified, the history grows by the extent, and the invariant of the file is kept |
| `WriteIndex.FileMeta.TruncateMeta` | client/src/unifyfs-fixed.c:157-182 | both trees are cut at the new length, and the pending extents do not become more |
| `WriteIndex.FileMeta.Truncate` | client/src/unifyfs.c:1098-1143 | a laminated file is refused; otherwise history, extents and server all keep exactly the offsets below the length |
| `WriteIndex.FileMeta.Sync` | client/src/unifyfs.c:1146-1161 | afterwards the server's map is the history and nothing is pending; the spill file was flushed exactly in the case just given |
| `WriteSpec.RunCoherent` | client/src/unifyfs.c:1042-1161 | in every run of writes, syncs, truncations and lamination the server's map overlaid with the pending extents equals the map of the whole history, and so do the local extents; pending extents imply that a sync is needed |
| `WriteSpec.LaminatedIff` | client/src/unifyfs.c:1061-1143 | a file is laminated after a run exactly if it was before or the run laminated it |
| `WriteSpec.Frozen` | client/src/unifyfs.c:1061-1143 | whatever follows a lamination, history and extents of the file stay as they were |
| `WriteSpec.KeptBack` | client/src/unifyfs-fixed.c:63-97 | without a sync after every write, in every run of fewer writes than half the entries of the index buffer nothing has reached the server, and the pending extents are the whole history |
| `WriteSpec.OverflowIff` | client/src/unifyfs-fixed.c:63-150 | some run overflows the index buffer exactly if it has fewer than two entries, or none at all when every write is followed by a sync |
| `LocalRead.ExtentCoverage` | client/src/client_read.c:191-253 | none exactly if extent and request are disjoint; otherwise the offsets and length of exactly the common bytes |
| `LocalRead.CheckLocal` | client/src/client_read.c:322-360 | the walk over the extents finds the request covered exactly if every byte of it is mapped |
| `LocalRead.ReadReq.UpdateCoverage` | client/src/client_read.c:255-271 | if the window was the hull of some offsets, it becomes the hull of those and the new ones |
| `LocalRead.CopyExtent` | client/src/client_read.c:381-414 | copies exactly the part of the extent the request asks for to its place in the buffer |
| `LocalRead.ServeLocalReqs` | client/src/client_read.c:285-428 | the list is split, in order, into the requests whose file is known and whose bytes are all mapped, each answered from the log, and the others, each untouched; bytes-read counts and error codes are never changed |
| `LocalRead.ServeLocal` | client/src/client_read.c:318-421 | a non-empty request is served exactly if all its bytes are mapped; then the buffer holds the logged bytes and the window is the whole request; otherwise nothing changes |
| `Client.AllocFresh` | client/src/unifyfs-fixed.c:289-332 | the log range of an accepted write lies inside the log and apart from every range in use |
| `Client.ContentsAt` | client/src/unifyfs.c:1042-1143 | what one more operation of any run does to each byte of each file: an accepted write puts its data there, a truncation removes what is behind the length, nothing else changes |
| `Client.RunInv` | client/src/unifyfs-fixed.c:289-332 | in every run on any number of files sharing one log, the extents of each file cover exactly its contents and point at its bytes, inside live log ranges |
| `Client.LaminatedIff` | client/src/unifyfs.c:1061-1143 | a file of the client is laminated exactly in the runs that laminate it |
| `Client.Frozen` | client/src/unifyfs.c:1061-1143 | once a run has laminated a file, no write to it is accepted and its contents stay the same in every continuation of the run |
| `ClientIO.ClientIO.Write` | client/src/unifyfs.c:1042-1092 | allocation, log write and metadata together are the client's write step; nothing to write, a laminated file and a full log change nothing and give SUCCESS, EROFS and ENOSPC |
| `ClientIO.NoSpaceIff` | client/src/unifyfs.c:1061-1092 | a write that is not empty gives ENOSPC exactly if the file is not laminated and the bits of the chunk maps have room for it in neither tier nor across both |
| `ClientIO.ReadOnlyIff` | client/src/unifyfs.c:1061-1092 | after any run a write gives EROFS exactly if the file was laminated before or in the run |
| `ClientIO.ClientIO.WriteLog` | client/src/unifyfs-fixed.c:289-332 | the range handed out lies inside the log, the log's bytes change exactly there and all tiers as the allocator says; without space nothing changes |
| `ClientIO.ClientIO.Sync` | client/src/unifyfs.c:1146-1161 | syncing one file is the client's sync step, the other files and the log untouched |
| `ClientIO.ClientIO.Truncate` | client/src/unifyfs.c:1098-1143 | truncating one file is the client's truncate step; EINVAL exactly for a laminated file |
| `ClientIO.ClientIO.SyncAll` | client/src/unifyfs-fixed.c:253-272 | the loop over the descriptors syncs exactly the files that have one, however often they occur |
| `ClientIO.ClientIO.Perform` | client/src/unifyfs.c:1042-1161 | for every allowed sequence of writes, syncs, truncations and laminations on any number of files, the objects end with the value of the run |
| `ClientIO.ClientIO.Read` | client/src/client_read.c:285-428 | a request is answered locally exactly if all its bytes are in the file's contents, and then with those bytes |
| `ClientIO.ClientIO.Session` | client/src/client_read.c:285-428 | after every such sequence a request is served locally exactly if each of its bytes was written and not truncated since; then the buffer holds the bytes last written and the window is the whole request, otherwise nothing is touched |
| `Client.SmallAllowed` | client/src/unifyfs-fixed.c:289-332 | if every write fits one shmem chunk, or a tier is missing, a run of the client needs no assumption about the allocator |
| `ClientMount.NewLog` | common/src/unifyfs_logio.c:250-436 | from the sizes of the two regions: fails exactly if some region has no number of header pages that holds its chunk map; otherwise fresh tiers with the least such headers, and the log's bytes |
| `ClientMount.Mount` | common/src/unifyfs_logio.c:304-436 | for any region, chunk and page sizes: the client's new objects, which share nothing with anything else, with both tiers as the regions allow; a sequence of operations can start from them exactly if both chunk totals are safe |
| `ClientMount.MountAndRead` | client/src/client_read.c:285-428 | mount on regions with safe chunk totals, perform any operations whose writes each fit one chunk (any writes with one tier), and read: served locally exactly if each byte was written and not truncated since, with the bytes last written; nothing is assumed about the allocator |
| `SpillFlush.NeverMissed` | client/src/unifyfs-fixed.c:214-229 | without a shmem log or without spill chunks no sync leaves data in the spill file unflushed |
| `SpillFlush.MissRunMisses` | client/src/unifyfs-fixed.c:214-229 | with both tiers: fill shmem, sync, and rewrite the first byte, and the next sync hands the server a byte in the spill file without flushing it |
| `SpillFlush.CanMissIff` | client/src/unifyfs-fixed.c:214-229 | some run of a new client ends so that the next sync misses the flush exactly if it has a shmem log and a spill chunk |
| `ArrayList.ArrayList.constructor` | common/src/arraylist.c:35-55 | an empty list of the given or the default capacity |
| `ArrayList.ArrayList.Get` | common/src/arraylist.c:73-79 | the entry at any position, none beyond the array |
| `ArrayList.ArrayList.Remove` | common/src/arraylist.c:81-100 | clears one entry; the size stays the highest occupied index plus one through the trimming loop |
| `ArrayList.ArrayList.Insert` | common/src/arraylist.c:102-134 | stores the entry, growing the array to twice the position if needed; the size stays the highest occupied index plus one |
| `MreadTable.After` | client/src/client_read.c:37-112 | in every reachable table each active id sits at its value modulo the capacity |
| `MreadTable.DistinctIds` | client/src/client_read.c:37-88 | active ids are distinct |
| `MreadTable.Probe` | client/src/client_read.c:61-68 | the search ends at a free index after at most the number of ids up to the next one on the last index |
| `MreadTable.CreateKeeps` | client/src/client_read.c:46-88 | creation is refused exactly if the last index is occupied; otherwise it hands out an id that was not active and displaces none |
| `MreadTable.RemoveKeeps` | client/src/client_read.c:91-112 | removing an active id removes that one and no other |
| `MreadTable.LookupIff` | client/src/client_read.c:115-135 | a lookup returns the id asked for exactly if it is active, and nothing otherwise |
| `MreadTable.SearchBound` | client/src/client_read.c:61-68 | over all reachable tables a creation tries at most capacity plus 2^32 mod capacity ids, and some reachable table needs that many |
| `MreadTable.CapacityTriesIff` | client/src/client_read.c:61-68 | one try per index is always enough exactly if the capacity divides 2^32 |
| `MreadTable.ActiveMreads.Create` | client/src/client_read.c:46-88 | the table and generator change as specified, with the refusal decided by the list's size |
| `MreadTable.ActiveMreads.FreeId` | client/src/client_read.c:61-68 | the loop terminates with the id of the specification |
| `MreadTable.ActiveMreads.Lookup` | client/src/client_read.c:115-135 | the id if it is active, else none |
| `MreadTable.ActiveMreads.Remove` | client/src/client_read.c:91-112 | succeeds exactly for an active id; the entry at its index is cleared either way |
| `Mread.BulkTransfer` | client/src/margo_client.c:801-830 | the chunked transfer loop places exactly the message in the buffer |
| `Mread.ReceiveData` | client/src/margo_client.c:772-841 | data that does not fit is refused without effect; otherwise it is placed and the window updated |
| `Mread.MreadStatus.DataRpc` | client/src/margo_client.c:753-862 | a data message changes the multi-read as the protocol step says, other requests untouched |
| `Mread.MreadStatus.CompleteRpc` | client/src/client_read.c:140-184 | a completion message changes counters and request as the protocol step says; an unknown index is refused without effect |
| `Mread.MreadStatus.TimeOut` | client/src/client_read.c:612-619 | every request still marked in progress fails, and each is counted as an error |
| `Mread.FillReq` | client/src/client_read.c:626-701 | the branches of the final pass on one request give the specified result |
| `Mread.MreadStatus.FillPass` | client/src/client_read.c:626-702 | the pass over all requests patches up each of them as specified |
| `MreadSpec.RunInv` | client/src/margo_client.c:753-912 | for every interleaving of in-range data messages and one completion per request: the window is the hull of the data received, the buffer holds that data and is otherwise untouched, the bytes read never exceed length or window, and equal the window's end if no data came after the completion |
| `MreadSpec.CountersOrdered` | client/src/client_read.c:140-184 | for every interleaving n_error <= n_complete <= n_reads, and the waiting client's test holds exactly if every request has been completed |
| `MreadSpec.RunReported` | client/src/client_read.c:140-184 | for every interleaving a request has the error its completion came with, and counts as read exactly the bytes up to the last one received before a completion without an error |
| `MreadSpec.FillReaches` | client/src/client_read.c:626-702 | a request that ends with SUCCESS or ENODATA has all its bytes or reaches the end of the file |
| `MreadSpec.FillBytes` | client/src/client_read.c:642-699 | which bytes the pass zeroes: those in front of the data if the data reaches the end of the request, and those behind the bytes accounted for |
| `MreadSpec.FillExact` | client/src/client_read.c:626-702 | the exact code and count the pass leaves, and that a failed request keeps its buffer |
| `MreadSpec.ReadOutcome` | client/src/client_read.c:568-702 | messages in any order and then the pass: the error code is the one the completion came with, ENOENT for a short request whose file is gone, else SUCCESS; the count is exactly the length, or none in front of the end of the file, or up to the end of the file or of the data; each byte reported is the received one, zero, or stale as characterised, and the others are untouched |
| `MreadSpec.StaleIff` | client/src/client_read.c:642-699 | for every run in which a request is completed without error and after its data: some byte reported with SUCCESS depends on what the caller's buffer held before exactly if the offsets received are neither one piece from the start nor one piece up to the end of the request, and reach its end or the file is known to extend past its start |
| `MreadSpec.HoleLeaks` | client/src/client_read.c:642-699 | first byte, third byte and completion of a three-byte request: two initial buffers give two different successful results |
| `MreadSpec.TimeoutIff` | client/src/client_read.c:612-640 | after a timeout a request ends with SUCCESS exactly if the server had reported ENODATA for it and the size of its file is known; requests completed without an error end with ETIMEDOUT, otherwise untouched, and those completed with one as without the timeout |
| `MreadClient.Register` | client/src/client_read.c:46-88 | a new multi-read is refused exactly if the table is full, and otherwise gets an id no active one has, with nothing else changed |
| `MreadClient.Deliver` | client/src/margo_client.c:753-912 | a message reaches the multi-read whose id it names and no other; one for an id that is not active is refused with EINVAL and changes nothing |
| `MreadClient.Perform` | client/src/margo_client.c:753-912 | for every sequence of messages for any multi-reads in any order, each multi-read ends as after its own messages alone |
| `MreadClient.Exchange` | client/src/client_read.c:585-731 | messages for any multi-reads, then the wait, the timeout and the final pass for one of them: its requests end as specified, if all were completed with the outcome of `MreadSpec.ReadOutcome`, its id is free again, and the others have seen their messages and nothing else |
| `FlatFile.FileReadBack` | client/src/unifyfs-stdio.c:470-517 | what was written is what is read at the same place |
| `StreamLaws.SeekSetRead` | client/src/unifyfs-stdio.c:920-928 | a seek from the start and a read return the contents from that offset on |
| `StreamLaws.SeekEndRead` | client/src/unifyfs-stdio.c:943-957 | a seek back from the end by k and a read of k return the last k bytes |
| `StreamLaws.ReadAgain` | client/src/unifyfs-stdio.c:929-942 | reading n bytes, seeking back by n and reading again returns the same n bytes of the contents twice |
| `StreamLaws.WriteReadBack` | client/src/unifyfs-stdio.c:686-978 | what was just written is what is read after seeking back over it |
| `StreamLaws.SeekFails` | client/src/unifyfs-stdio.c:918-977 | a seek fails exactly in front of the file or, from the position or the end, past the range of an off_t; then the stream stands where it stood |
| `StreamLaws.EofSticks` | client/src/unifyfs-stdio.c:523-681 | a read that comes short sets the end-of-file flag: the next one returns none, and after a seek an empty read |
| `StreamLaws.UnreadRead` | client/src/unifyfs-stdio.c:1053-1132 | any characters pushed back last to first are read back in order, after which the stream is where it was |
| `StreamLaws.UngetcRead` | client/src/unifyfs-stdio.c:1053-1132 | one character pushed back is reported as an unsigned char and is the next byte read |
| `StreamLaws.SeekForgets` | client/src/unifyfs-stdio.c:964-977 | a seek to the current position forgets what was pushed back: the file's own bytes are read from there |
| `StreamLaws.WriteLeaves` | client/src/unifyfs-stdio.c:686-874 | a write over some of the bytes pushed back goes to the place moved back to and leaves the others to be read |
| `StreamLaws.WriteCovers` | client/src/unifyfs-stdio.c:686-874 | a write over all of them leaves none, and what follows it in the file is read next |
| `StreamLaws.Refusals` | client/src/unifyfs-stdio.c:523-1132 | which reads, writes and push-backs are refused, exactly, with contents and position unchanged |
| `Stream.Stream.Flush` | client/src/unifyfs-stdio.c:470-517 | the file becomes the contents overlaid with the dirty buffer; the clean buffer is a copy of the file |
| `Stream.Stream.Refill` | client/src/unifyfs-stdio.c:612-645 | the buffer holds the byte at the position unless the file ends there; contents unchanged |
| `Stream.Stream.ReadBuffered` | client/src/unifyfs-stdio.c:606-667 | the loop returns exactly the bytes of the contents from the position on, fewer only at the end |
| `Stream.Stream.Read` | client/src/unifyfs-stdio.c:523-681 | returns the bytes pushed back and then the contents, as the flat stream does, with the same position, flags and errors, also while output is still in the buffer |
| `Stream.Stream.WriteBuffered` | client/src/unifyfs-stdio.c:788-867 | through any number of flushes, what fits behind output already in the buffer goes there and the rest to its place; all of it to its place if the buffer was clean or ends at the position |
| `Stream.Stream.PutTurn` | client/src/unifyfs-stdio.c:791-866 | one turn: as much of the data as the buffer has room for lands at the end of a dirty buffer, or at the position if the buffer was clean; a buffer that is full is flushed |
| `Stream.Stream.Write` | client/src/unifyfs-stdio.c:686-874 | the exact effect from every state; where output is continued at its end, that of the flat file: pushed back bytes it covers are dropped, even if the write then fails for its size |
| `Stream.Stream.Seek` | client/src/unifyfs-stdio.c:879-978 | moves, and clears push-back and end-of-file flag, as on the flat file; failures leave the position |
| `Stream.Stream.FlushStream` | client/src/unifyfs-stdio.c:470-517 | nothing visible changes and the file holds the contents |
| `Stream.Stream.Ungetc` | client/src/unifyfs-stdio.c:1053-1132 | pushes back exactly while the position is positive and fewer than 1024 bytes are pushed back, as the flat stream does |
| `Stream.Stream.MakeRoom` | client/src/unifyfs-stdio.c:1079-1115 | doubling the push-back buffer fails exactly at 1024 bytes |
| `Stream.Stream.Perform` | client/src/unifyfs-stdio.c:470-1132 | for every sequence of reads, writes, seeks, flushes and ungetc in which unflushed output is continued only where it ended, all results and the final state are those of an unbuffered file with a position |
| `Stream.Stream.WriteAndReadBack` | client/src/unifyfs-stdio.c:470-978 | through buffer and flushes, data of any size written is returned by seeking back and reading |
| `Stream.Stream.ReadTail` | client/src/unifyfs-stdio.c:470-978 | from every state, also with output in the buffer, seeking back from the end and reading returns the last bytes of the contents |
| `StreamSpec.IsoConforms` | client/src/unifyfs-stdio.c:470-1132 | every sequence in which input does not directly follow output (section 7.19.5.3 of ISO C99) is one of these |
| `StreamShift.PutIff` | client/src/unifyfs-stdio.c:788-867 | for any file, data, position, end of unflushed output and room: a write that continues that output equals a write at the position exactly if the data repeats itself and the file at the distance between the two places |
| `StreamShift.WriteAtIff` | client/src/unifyfs-stdio.c:686-874 | from every state and for every data a write has the flat stream's effect exactly if it is refused or the data repeats so |
| `Stream.Stream.WriteUngetcWrite` | client/src/unifyfs-stdio.c:788-836 | output from a clean buffer, ungetc and a write of any data on the stream itself: it ends like the flat stream exactly if the output filled its last buffer, or what still fits there only repeats the last byte of the output and, if that is all of the data, the file has that byte there already |
| `ExprParser.Base` | common/src/tinyexpr.c:300-392 | an error stays an error, nothing is read twice, and a base parsed without error is a complete tree |
| `ExprParser.Args` | common/src/tinyexpr.c:353-370 | at least one token is consumed, and arguments parsed without error are complete |
| `ExprParser.Power` | common/src/tinyexpr.c:395-413 | the same for a signed base |
| `ExprParser.Factor` | common/src/tinyexpr.c:455-467 | the same for a chain of powers |
| `ExprParser.Term` | common/src/tinyexpr.c:472-484 | the same for a chain of products |
| `ExprParser.Expression` | common/src/tinyexpr.c:487-499 | the same for a chain of sums |
| `ExprParser.List` | common/src/tinyexpr.c:502-513 | the same for a comma list |
| `ExprParser.Parse` | common/src/tinyexpr.c:589-610 | what parses is a tree without placeholder in which every function has all its arguments |
| `ExprCompiler.Parser.Base` | common/src/tinyexpr.c:300-392 | the mutable parser returns the tree and leaves the tokens of the grammar, on errors too |
| `ExprCompiler.Parser.Args` | common/src/tinyexpr.c:356-363 | the argument loop stops where the grammar does |
| `ExprCompiler.Parser.Power` | common/src/tinyexpr.c:395-413 | the sign loop and base give what the grammar gives |
| `ExprCompiler.Parser.Factor` | common/src/tinyexpr.c:455-467 | the loop associates powers to the left as the grammar does |
| `ExprCompiler.Parser.Term` | common/src/tinyexpr.c:472-484 | the loop gives the tree of the grammar |
| `ExprCompiler.Parser.Expression` | common/src/tinyexpr.c:487-499 | the loop gives the tree of the grammar |
| `ExprCompiler.Parser.List` | common/src/tinyexpr.c:502-513 | the loop gives the tree of the grammar |
| `ExprRoundTrip.BinaryPrinted` | common/src/tinyexpr.c:455-513 | two operands joined by any operator parse to that operator applied to them, at every level of precedence |
| `ExprRoundTrip.ParsePrint` | common/src/tinyexpr.c:300-513 | the fully parenthesised form of a tree parses to that tree exactly if the tree is complete |
| `ExprForms.ParseIff` | common/src/tinyexpr.c:300-610 | the parser accepts exactly the token sequences that are a derivation of the grammar with left operands binding at least as tight as their operator and right ones tighter, and makes of each the tree it stands for, an odd number of minus signs negating |
| `ExprForms.ParseMin` | common/src/tinyexpr.c:300-513 | every complete tree is found from the form with parentheses only where precedence or a right operand of the same level needs them |
| `ExprForms.Grouping` | common/src/tinyexpr.c:395-513 | of two operators in a row the first goes first, unless the second binds tighter |
| `ExprEval.Optimize` | common/src/tinyexpr.c:563-586 | the recursion with its loop over the arguments folds as specified |
| `ExprEval.OptimizeSame` | common/src/tinyexpr.c:520-586 | folding preserves the value under every variable binding and every later meaning of the impure functions |
| `ExprEval.FoldIff` | common/src/tinyexpr.c:563-586 | a tree becomes one constant exactly if it has no variable and only pure functions |
| `ExprEval.OptimizeTwice` | common/src/tinyexpr.c:563-586 | folding keeps trees complete, and folding twice is folding once |
| `ExprEval.Compile` | common/src/tinyexpr.c:589-610 | succeeds exactly if the whole input parses, with the folded tree, which is complete |
| `ExprEval.CompiledValue` | common/src/tinyexpr.c:520-610 | for every input that parses, what compiles has the value of the parsed tree under every binding and every later meaning of the impure functions |
| `ExprEval.WrittenValue` | common/src/tinyexpr.c:300-610 | whatever is written down in a form of the grammar compiles, and evaluates to each operator applied to the values at its left and right, under every binding and every later meaning of the impure functions |
| `ExprEval.CompileMeaning` | common/src/tinyexpr.c:520-610 | every complete tree has a form that compiles, to a tree of the same value |
| `ExprEval.LeftToRight` | common/src/tinyexpr.c:455-610 | with the operators on whole numbers a - b - c compiles and evaluates to (a - b) - c, and a - b * c to a - (b * c) |
| `Combinatorics.Fac` | common/src/tinyexpr.c:122-135 | NAN below zero, INFINITY beyond UINT_MAX, otherwise the factorial, with INFINITY exactly if it does not fit an unsigned long |
| `Combinatorics.Absorb` | common/src/tinyexpr.c:142-147 | the division in every turn of the loop is exact |
| `Combinatorics.ChooseSymmetric` | common/src/tinyexpr.c:141 | switching from r to n - r is sound |
| `Combinatorics.Binomial` | common/src/tinyexpr.c:138-148 | for whole numbers the coefficient of Pascal's triangle, with INFINITY exactly if min(r, n - r) times the coefficient does not fit; no product wraps |
| `Combinatorics.Ncr` | common/src/tinyexpr.c:136-149 | NAN outside the triangle, otherwise that of the truncated arguments |
| `Combinatorics.InfiniteThoughItFits` | common/src/tinyexpr.c:142-147 | INFINITY is also returned for coefficients that fit: three out of four million |
| `Transfer.Covered` | client/src/client_transfer.c:143-242 | for every file size and rank count every byte of the file is in some range of some rank |
| `Transfer.OwnedOnce` | client/src/client_transfer.c:143-242 | no byte of the file is in two ranges |
| `Transfer.TransferData` | client/src/client_transfer.c:57-87 | exactly the bytes of the range, rounded up to whole buffers and as far as the file goes, are copied to the same place, by the foreseen steps |
| `Transfer.NoOverrun` | client/src/client_transfer.c:143-242 | for the ranges of a rank the rounding copies nothing beyond them |
| `Transfer.TransferRank` | client/src/client_transfer.c:143-242 | every byte of the rank's ranges is copied, and a byte of the destination that changes becomes that of the source; the steps taken are the rank's steps |
| `Transfer.RunAt` | client/src/client_transfer.c:57-87 | in whatever order steps are taken, a byte some step reaches is copied and no other byte of the destination changes |
| `Transfer.RangeReach` | client/src/client_transfer.c:143-242 | the steps for a list of ranges reach every byte of each of them that the file has |
| `Transfer.AllRanksCopy` | client/src/client_transfer.c:143-242 | for every file, rank count and order of turns in which all ranks finish, the ranks' own steps leave a destination that starts with the whole source and is otherwise unchanged |

## Left out

- Locks and mutexes: each locked section is one atomic step, and the bulk transfer between two of them touches only its own part of a buffer.
- Memory exhaustion: allocations of memory succeed.
- Failing or short I/O: log reads and writes, file reads and writes, transfers of data and calls to the server succeed in full, except that reads end at the end of the file. In particular the resend loop of `do_transfer_data` for partial writes is not modelled.
- Recolouring and rotations of the red-black tree: `IntervalTree.Rebalance` returns any tree with the same in-order sequence, and which overlapping node an insertion reports is left open.
- Node identity in the extent tree: nodes are values, so a node is found again by its extent rather than by a pointer; merging with the predecessor removes the node before extending the predecessor instead of after.
- File offsets and sizes are unbounded natural numbers up to the stated limits; sums of two off_t values are taken not to wrap where the source does not check them.
- SlotMap.SlotMap.Release: the run must lie inside the map bytes, because the source does not check it and would touch memory behind the map.
- LogIO.LogContext.Free: the chunks computed from the range must lie inside the chunk maps, for the same reason.
- SlotMap.SlotMap.constructor: the map itself; `SlotMap.SlotmapInit` decides whether it fits.
- LogIO.LogHeader.constructor: takes the chunk map as given; `LogIO.InitLogHeader` makes both from the region.
- WriteIndex.FileMeta.SyncExtents: one file; `ClientIO.ClientIO.SyncAll` is the loop over all of them. The flush succeeds, and only whether it happens is modelled; the bytes of the log are the same with or without it.
- SpillFlush.CanMissIff: the first file is not laminated and does not sync after every write; with a sync after every write the flush is decided inside the write.
- WriteIndex.FileMeta.Write: there is something to write; `ClientIO.ClientIO.Write` handles the empty write.
- WriteIndex.FileMeta.constructor: requires an index buffer that cannot overflow; `WriteSpec.OverflowIff` shows that this excludes exactly the configurations in which some run overflows it.
- LocalRead.ServeLocal: the request is not empty; `unifyfs-sysio.c` answers empty reads before they get here.
- LocalRead.ServeLocalReqs: requests are not empty and share neither records nor buffers; which file a request is for is a parameter, and the request records are referred to rather than copied.
- ClientIO.ClientIO.Session: allocations that span both tiers must find their shared-memory part at the end, and the slot totals of both tiers must be safe, as in `LogHistory.RunGood`; `Client.SmallAllowed` says when the former holds by itself, and `ClientMount.MountAndRead` needs only the latter. The log's own frees are not part of the sequences, because nothing in the client calls `unifyfs_logio_free`. One request is read; lists of requests are `LocalRead.ServeLocalReqs`.
- MreadClient.Exchange: the request objects of different multi-reads share neither records nor buffers; how long the client waits is left open, so the timeout may come after any of the messages.
- Mread.ReceiveData: the data starts inside its request; the source computes the remaining space without checking this.
- Mread.MreadStatus.DataRpc: the same.
- MreadSpec.RunInv: data messages start inside their request, request indices exist, requests are not empty and no request is completed twice; the handlers rely on the server for this and do not check it.
- Directories, unlink, rename, lamination as a protocol, superblock and file tables: only the laminated flag of a file is modelled.
- `unifyfs_logio_init_client` and `_server`, the shared memory region and the spill file mapping.
- Unbuffered, line-buffered and append streams, opening modes, `fgets`, `fgetc`, `fgetpos`, the scanf family and wide characters.
- `setvbuf`: a stream has its buffer from the start, of any positive size.
- The scanner of the expression evaluator: numbers, names and symbols arrive as tokens, and a symbol it refuses is the token `Bad`; the character position reported with an error is not modelled.
- ExprEval.Optimize: rewrites a tree on values rather than node by node in place; nodes are never shared in the source.
- Combinatorics.Ncr: arguments are reals, so NaN and infinite arguments and the rounding of the result to a double are not modelled; `npr` is the product of the two.
- Floating-point values in the evaluator: any domain of values, with pure functions as fixed functions.
- Transfer.AllRanksCopy: a read and the write of what was read are one step; no rank writes to the source.
- Transfer of metadata, opening of files, fsync and the choice of transfer mode.
- The server: an abstract map that index entries are overlaid on and truncation cuts, and a source of messages.
- Configuration, logging, path hashing, RPC set-up, interception of system calls and language bindings.
