# BusTub buffer pool: CLOCK replacer and buffer pool manager

This project models the buffer layer of the BusTub teaching database in Dafny:

- the CLOCK replacer of `src/buffer/clock_replacer.cpp`, as the code actually behaves.
  - Its state is process-wide globals: the page count, a clock hand that starts at 1, and a singly linked list of per-node statuses.
  - The statuses are -1 (not a candidate), 0 (evictable) and 1 (second chance).
  - Frame ids reach nodes through `getFrameIndex`.
- the buffer pool manager of `src/buffer/buffer_pool_manager.cpp`, which keeps:
  - a fixed array of frames (page id, pin count, dirty flag);
  - a page table from page ids to frames;
  - a free list of frames.

Each operation is a pure transition from one state value to the next.
- Replacer: `Replacer(totalPages, clockHand, nodes)`, where the list is a sequence of statuses.
- Pool: `Pool(frames, pageTable, freeList, disk, replacer)`, where `disk` and `replacer` are logs of the calls the pool makes to its two collaborators.

`Victim` is specified by a closed description of its 20-position scan:
- `HandAt(r, k)` is the hand at the k-th position looked at.
- `Aged(r, k)` is the statuses after k positions, where every second-chance node passed has been demoted.
- `StatusSeen(r, k)` is what the scan finds at position k.

The loop of the method is proved against that description.

The pool's invariant is `Consistent`:
- every page-table entry points at a frame that holds that page;
- free frames are empty, listed once and unmapped;
- pin counts are non-negative;
- every frame is either free or mapped.

Every pool operation is proved to preserve it. `NewPage` preserves it only when the page id handed out by the disk manager is not already resident.

Files:
- `wrappers.dfy`: `Option`.
- `clock_replacer.dfy`: module `ClockReplacer`.
- `buffer_pool_manager.dfy`: module `BufferPoolManager`.
- `buffer_pool_properties.dfy`: module `BufferPoolProperties`, with lemmas that relate several pool operations, the defects, and a two-frame run.

## Model

| member | source | states |
|---|---|---|
| ClockReplacer.GetFrameIndex | src/buffer/clock_replacer.cpp:44-53 | The walk from the head stops at node 0 for any value up to 1 and at node value-1 otherwise. It never leaves the list when that node exists. |
| ClockReplacer.Construct | src/buffer/clock_replacer.cpp:24-39 | The new page count is recorded. The old nodes are kept and numPages not-candidate nodes are appended at the tail. The global clock hand is not reset. |
| ClockReplacer.ConstructFresh | src/buffer/clock_replacer.cpp:55-58 | A replacer built once in a fresh process, for two or more pages, has exactly numPages nodes, no candidates and a hand in range. |
| ClockReplacer.Pin | src/buffer/clock_replacer.cpp:91-94 | The frame's node stops being a candidate and no other node changes. The candidate set loses exactly that node. Validity is preserved. |
| ClockReplacer.Unpin | src/buffer/clock_replacer.cpp:96-103 | The frame's node moves -1 to 1, 1 to 0, and 0 stays 0. No other node changes. The candidate set gains exactly that node. |
| ClockReplacer.Size | src/buffer/clock_replacer.cpp:105-116 | The count equals the number of nodes with status 0 or 1 in the whole list. |
| ClockReplacer.Aged | src/buffer/clock_replacer.cpp:73-75 | A scan that has not evicted only demotes second-chance nodes to evictable. It leaves the candidate set and the nodes past the wrap point untouched. |
| ClockReplacer.AgeStep | src/buffer/clock_replacer.cpp:73-75 | Looking at one more position demotes exactly the node under the hand, if it had a second chance. |
| ClockReplacer.Victim | src/buffer/clock_replacer.cpp:62-88 | The scan succeeds iff one of its 20 positions shows an evictable status. On success it evicts the first such node, hands out the hand value, and advances the hand past it; the candidate count drops by one. On failure it stops on the 20th position with every passed second chance demoted. |
| ClockReplacer.HandAtCycle | src/buffer/clock_replacer.cpp:82-83 | After totalPages-1 steps the hand, which wraps from totalPages back to 1, is where it started. |
| ClockReplacer.HandAtCovers | src/buffer/clock_replacer.cpp:82-83 | Within its first totalPages-1 steps the hand takes every value from 1 to totalPages-1. |
| ClockReplacer.SmallPoolScanFindsCandidate | src/buffer/clock_replacer.cpp:77-80 | With at most 11 pages, the 20-position limit never makes Victim give up while a scannable node is a candidate. |
| ClockReplacer.HeadAliases | src/buffer/clock_replacer.cpp:44-53 | Pin and Unpin of frame 0, frame 1 or any smaller id all act on the head node. |
| ClockReplacer.UnpinTwiceEvictable | src/buffer/clock_replacer.cpp:96-103 | Two unpins in a row make a node evictable, whatever status it had. |
| ClockReplacer.PinThenUnpin | src/buffer/clock_replacer.cpp:91-103 | Unpinning a node that was just pinned gives it its second chance. |
| ClockReplacer.UnpinZeroReleasesOne | src/buffer/clock_replacer.cpp:44-53 | As written, unpinning frame 0 makes a just-pinned frame 1 a candidate again. |
| ClockReplacer.PinnedFrameEvicted | src/buffer/clock_replacer.cpp:62-72 | As written, a two-page replacer with frame 1 pinned and then frame 0 unpinned hands out frame 1. |
| ClockReplacer.VictimAsWritten | src/buffer/clock_replacer.cpp:62-88 | With its unused list pointer kept, the scan dereferences NULL iff the list has fewer than 19 nodes and none of its first n+1 positions is evictable. Otherwise it ends exactly as Victim does. |
| ClockReplacer.EmptyScanCrashes | src/buffer/clock_replacer.cpp:84 | As written, a two-page replacer with no candidates crashes in Victim instead of answering false. |
| ClockReplacer.ConstructForPool | src/buffer/clock_replacer.cpp:55-58 | With ids shifted by one, a replacer for poolSize frames has one scannable node per frame and starts with no candidates. |
| ClockReplacer.PinFrame | src/buffer/clock_replacer.cpp:91-94 | With shifted ids, pinning frame f reaches node f and no other. |
| ClockReplacer.UnpinFrame | src/buffer/clock_replacer.cpp:96-103 | With shifted ids, unpinning frame f makes node f a candidate and touches no other. |
| ClockReplacer.VictimFrame | src/buffer/clock_replacer.cpp:62-88 | With shifted ids, the frame handed out is in range and was a candidate, so a pinned frame is never handed out. It succeeds under the same condition as Victim. |
| ClockReplacer.OtherUnpinKeepsPin | src/buffer/clock_replacer.cpp:91-103 | With shifted ids, unpinning another frame leaves a pinned frame pinned. |
| BufferPoolManager.Init | src/buffer/buffer_pool_manager.cpp:20-30 | A new pool is consistent. Every frame is empty, the page table is empty, and the free list is 0..poolSize-1 in order. |
| BufferPoolManager.FlushPage | src/buffer/buffer_pool_manager.cpp:119-135 | Answers true iff the page is resident. A resident dirty page is written once under its id and made clean. Nothing else changes, and consistency is kept. |
| BufferPoolManager.AcquireFrame | src/buffer/buffer_pool_manager.cpp:55-78 | Takes the front of the free list when there is one; only otherwise does it ask the replacer. A victim is written back if dirty, made clean and unmapped. Fails iff there is no free frame and no victim. |
| BufferPoolManager.FetchPage | src/buffer/buffer_pool_manager.cpp:37-92 | A hit pins the page's frame once more and changes nothing else. A miss loads the page into a free or victim frame with one pin, reading it and writing back a dirty victim. Returns nullptr iff it is a miss with no free frame and no victim. Consistency is kept. |
| BufferPoolManager.UnpinPage | src/buffer/buffer_pool_manager.cpp:94-117 | Succeeds iff the page is resident and pinned. Drops one pin and sets the dirty flag to the argument. Tells the replacer when the count reaches zero. Consistency is kept. |
| BufferPoolManager.ReleasePin | src/buffer/buffer_pool_manager.cpp:109-114 | Dropping one pin of a resident pinned frame keeps the pool consistent. |
| BufferPoolManager.RemoveFrame | src/buffer/buffer_pool_manager.cpp:205-210 | Unmapping a resident frame, appending it to the free list and resetting it keeps the pool consistent. |
| BufferPoolManager.DeletePage | src/buffer/buffer_pool_manager.cpp:180-212 | A non-resident page is deallocated and reported true. A pinned page is untouched and reported false. An unpinned page is unmapped, reset and freed at the back of the list, and also reported false. The replacer is never told. |
| BufferPoolManager.UnpinPageIntended | src/buffer/buffer_pool_manager.cpp:109-110 | Same transition as UnpinPage with the dirty flag OR-ed, so a dirty frame stays dirty. |
| BufferPoolManager.DeletePageIntended | src/buffer/buffer_pool_manager.cpp:204-211 | Same transition as DeletePage; the answer is true iff the page is no longer resident. |
| BufferPoolManager.NewPage | src/buffer/buffer_pool_manager.cpp:137-178 | Takes a frame like a fetch miss and only then allocates a page id. Maps it with one pin and a clean flag. Returns nullptr without allocating iff there is no free frame and no victim. Keeps consistency when the new id is not resident. |
| BufferPoolManager.FlushAllPages | src/buffer/buffer_pool_manager.cpp:214-218 | Every frame ends clean and nothing else changes. The disk receives exactly one write per page that was resident and dirty, and no other call. |
| BufferPoolManager.FlushedOneMore | src/buffer/buffer_pool_manager.cpp:130-133 | A flush that writes extends the record of distinct write-backs by that page, which was dirty and is now clean. |
| BufferPoolProperties.FlushTwiceWritesOnce | src/buffer/buffer_pool_manager.cpp:130-133 | A second flush of the same page changes nothing and gives the same answer. |
| BufferPoolProperties.FetchHitThenUnpin | src/buffer/buffer_pool_manager.cpp:46-114 | Fetching a resident page and unpinning it restores its pin count and leaves table, free list and disk as they were. The replacer hears Pin, then Unpin if the count returns to zero. |
| BufferPoolProperties.DeleteThenFetchReusesFrame | src/buffer/buffer_pool_manager.cpp:205-210 | With no free frames, deleting an unpinned page makes its frame the next miss's target, without asking the replacer or writing anything back. |
| BufferPoolProperties.UnpinForgetsEarlierModification | src/buffer/buffer_pool_manager.cpp:109-110 | As written, a dirty unpin followed by a clean unpin leaves the page clean with no write-back. |
| BufferPoolProperties.UnpinIntendedKeepsModification | src/buffer/buffer_pool_manager.cpp:109-110 | The same two unpins under the OR rule leave the page dirty. |
| BufferPoolProperties.DeleteReportsSuccessAsFailure | src/buffer/buffer_pool_manager.cpp:204-211 | As written, deleting an unpinned page removes it and answers false; the intended variant answers true. |
| BufferPoolProperties.NewTwoPages | src/buffer/buffer_pool_manager.cpp:149-173 | In an empty two-frame pool, two new pages take frames 0 and 1 in free-list order, each pinned once. |
| BufferPoolProperties.FetchWhenFull | src/buffer/buffer_pool_manager.cpp:57-87 | With both frames pinned and no victim a fetch returns nullptr. Once one page is unpinned clean and offered as victim, the fetch evicts it without a write-back. |

## Left out

- The latch: every operation is modelled as atomic. `FlushPageImpl` and `DeletePageImpl` do not take it in the code; that race is not modelled.
- Page contents (`ResetMemory`, `GetData`, the bytes read and written): only the disk calls are logged.
- The log manager, destructors, memory allocation and the `printf` of `initlizer`.
- `BufferPoolManager.NewPage`: `DiskManager::AllocatePage` is a parameter (`newId`), because the disk manager is not part of this model.
- `BufferPoolManager.FetchPage`: the replacer's answer to `Victim` is a parameter (any frame of the pool, or none). The pool and the concrete replacer are not composed. The replacer defect below shows the composed system can evict a pinned frame.
- `ClockReplacer.Victim` drops the unused list pointer and so never crashes. `ClockReplacer.VictimAsWritten` keeps it, and the third finding below records the crash.
- The commented-out replacer after line 116 of `clock_replacer.cpp` is dead code.
- `size_t` to `int` narrowing in the replacer constructor and `Size`: page counts are unbounded integers.
- `ClockReplacer.Victim`: states are restricted by `Valid` (at least two pages, hand in 1..totalPages-1). With fewer pages the hand never wraps and the code walks off the list.
- `BufferPoolManager.DeletePage`: `DeletePageImpl` never calls `replacer_->Pin`, so a deleted frame may stay a replacement candidate while on the free list. The model records that no replacer call is made; because the pool and replacer are not composed, the consequence is not explored.
- `BufferPoolManager.FetchPage`: the miss path does not reset the dirty flag. Under `Consistent` a free frame is always clean and a victim is cleaned first, so the loaded frame is clean.
- The default metadata of a `Page` comes from `page.h`, which is not part of this model; `EmptyFrame` assumes page id -1, pin count 0, clean.
- `BufferPoolManager.NewPage`: consistency is proved only when the allocated id is not already resident. `unordered_map::insert` would otherwise keep the old entry.

## Findings

| source | as written | input that shows it | evidently intended | confidence | as-written member | corrected member |
|---|---|---|---|---|---|---|
| src/buffer/buffer_pool_manager.cpp:110 | `UnpinPageImpl` overwrites the dirty flag with the argument | page pinned twice; unpin dirty, then unpin clean: the page is clean and an eviction skips the write-back | the flag is OR-ed, so a modification is not lost | high (not executed) | BufferPoolProperties.UnpinForgetsEarlierModification | BufferPoolManager.UnpinPageIntended |
| src/buffer/buffer_pool_manager.cpp:211 | `DeletePageImpl` answers false after removing an unpinned page | one frame holding unpinned page 7; delete 7: page gone, answer false | true once the page is deleted, as the step comments say | high (not executed) | BufferPoolProperties.DeleteReportsSuccessAsFailure | BufferPoolManager.DeletePageIntended |
| src/buffer/clock_replacer.cpp:44-53 | frame ids 0 and 1 both reach the head node, and `Victim` hands out hand values 1..n-1 | two frames; frame 1 pinned, frame 0 unpinned: `Victim` returns the pinned frame 1, and frame 0 is never returned | one node per frame, so only an unpinned frame is handed out | high (not executed) | ClockReplacer.PinnedFrameEvicted | ClockReplacer.VictimFrame |
| src/buffer/clock_replacer.cpp:84 | `Victim` follows one link of an unused pointer every time the scan moves on | two-page replacer with no candidates: the third move follows the tail's NULL link | the pointer is removed, so a scan without victim answers false | high (not executed) | ClockReplacer.EmptyScanCrashes | ClockReplacer.Victim |
