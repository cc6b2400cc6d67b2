# Verified model of the InnoDB storage engine core

A Dafny model of the parts of the storage engine whose correctness depends on whole runs rather
than on single calls. Every statement below is proved by the Dafny verifier; nothing was executed.
`dafny verify dfyconfig.toml` checks the project.

| file | subject |
|---|---|
| `Doublewrite.dfy` | the doublewrite protocol as a state machine with crashes between any two steps, also during recovery |
| `DoublewriteIo.dfy` | the writes and flushes that the steps of the protocol issue to the files, and what any part of them leaves |
| `DoublewriteBuffer.dfy` | the code of that protocol, which issues just these operations in their order |
| `PoolStore.dfy` | the buffer pool over the disk that the doublewrite buffer protects: reads, changes, evictions, batches and crashes together implement a flat store of pages |
| `BtreePage.dfy` | one B-tree page: free space, split point, `page_insert_fits` |
| `BtreeRows.dfy` | the levels of a tree: flat order, key ranges, the tree invariant, how splits and discards change a level |
| `Btree.dfy` | the tree as linked pages: descent, insert with splits and root raise, delete with page discards |
| `Pcur.dfy` | persistent cursors: store, restore by modify clock or by search, moves |
| `Scan.dfy` | forward scans over one tree that changes while the scan has given up its latches |
| `BufPool.dfy` | the buffer pool as a cache of a flat page store |
| `Lru.dfy` | the LRU list with its old sublist |
| `FlushList.dfy` | the flush list and the ordered set used during recovery |
| `BigRec.dfy` | moving long fields out of a tuple and back |
| `Blob.dfy` | page chains of externally stored fields |
| `RowId.dfy` | the row id counter across crashes |
| `DictIndex.dfy` | building clustered and secondary indexes |
| `Common.dfy` | `Option`, sequences without duplicates |

## How things are modelled

- **Disk.** A place on disk has a durable image and possibly a write that is not synced. A crash
  leaves the old image, the new image or a torn page, for every place independently; a torn page
  may show any page id. The checksum test tells exactly the torn images.
- **File operations** of the doublewrite code are what it appends to a sequence of writes and flushes;
  the files are what that sequence leaves. A process can be cut short after any of them.
- **Critical sections** of the pool mutex are single steps. Latches appear where a guarantee rests
  on them: a page that is being written is s-latched, a page that is being changed is x-latched.
- **Tree.** A page is a sequence of records between infimum (-1) and supremum. The ghost field
  `rows` gives the pages of each level from left to right; `Tower` is the invariant that the head
  of `btr/btr0btr.cc` states in prose: one node pointer for each page below, keys of a child at
  least its pointer's prefix and below the next one, equal first keys on non-leaf levels, the
  min-record mark on the first record of each non-leaf level only. `Shown` says that the stored
  pages, with their sibling links, are exactly those of `rows`.
- **Sizes.** Records and node pointers are below half of an empty page: `dtuple_convert_big_rec` sees
  to that for records, the size check at index creation for node pointers.
- **Choices the code makes by heuristics** (the last insert position, whether an insert that would
  fit is refused to leave space for updates, whether a latch is free) are arbitrary.
- **Constants** are those of the headers: 16247 bytes of free space on an empty page, 64 slots in
  each doublewrite block, `OLD_MIN_LEN` 512, `OLD_RATIO_MIN` 51, a row id margin of 256, and so on.
- **Modify clocks** are kept by page number and outlive the page. They move where the page layer moves
  them: at `page_create`, at deletes, when records move to another page, when a page is freed or
  reorganized, and when its block is evicted. That no record leaves a page while its clock stands
  still (`Btree.Kept`) is proved of every insert and delete.

## Findings

- A failed `dtuple_convert_big_rec` leaves all eligible fields shortened and the count of external
  fields raised. The tuple is as it was if and only if no field was eligible
  (`BigRec.ConvertBigRec`); `BigRec.FailedConversionShortens` has a row on which it is not. In the
  code the shortened fields then point to freed memory.
- A position stored *after* the last record of a page may come back behind records that are still
  to be visited. It passes over none if and only if the leaf page to which the node pointers lead
  for the stored key holds no larger key, and otherwise over the first of them or all of them
  (`Pcur.Pcursor.RestorePosition`); `Pcur.AfterMaySkip` has a tree in which a key that was there
  all along is passed over. The scan of an index build (`row/row0merge.cc:994-1030`) stores such
  positions. `Scan.MergeScan` states its whole course, leg by leg: which switches of pages pass
  keys over, and that a key that was there at the start and is never deleted is returned in its
  turn if and only if no switch passes it over. `Scan.ScanMayMiss` is a course that misses a key.
  Positions *on* a record, which the scans in `dict/dict0load.cc` store, are safe both ways
  (`Scan.ScanTree`).
- `Blob::blob_free`, which ends every round of `free_externally_stored_field`, asserts that the block
  of the freed page leaves the pool (`btr/btr0blob.cc:230-240`). The commit just before it has
  marked that block as modified, as it does with every x-latched block of a mini-transaction that
  wrote (`buf/buf0buf.cc:289-293`), and `free_block` refuses modified blocks
  (`buf/buf0lru.cc:638-640`). So the process stops unless the block was written out or given away
  in between (`BufPool.Pool.BlobFree`). The call returns with the whole chain freed if and only if
  that is so in every round (`Blob.Column.Free`); `Blob.FreeOnePage` is a chain of one page on which
  the process stops.
- The comment at `buf/buf0lru.cc:43-48` asks the old length to stay within the tolerance of its
  share of the list. The code keeps it within the tolerance of the smaller of that share and the
  list length less 25. The second implies the first if and only if the share is at most the length
  less 25 (`Lru.ShareKeptIff`); `Lru.LeaveShareBand` is a run that leaves the band of the comment.

## Model

| member | source | states |
|---|---|---|
| `Doublewrite.InsideIsSlot` | buf/buf0dblwr.cc:49-55 | `is_page_inside` holds of exactly the pages that hold the 128 slots |
| `Doublewrite.RunInv` | buf/buf0dblwr.cc:249-307 | every state of every run, with crashes anywhere, satisfies the invariant; the branch "the page in the doublewrite buffer is corrupt too" is never reached |
| `Doublewrite.CrashSafety` | buf/buf0dblwr.cc:207-312 | after any run, a crash, and a recovery cut short by any number of further crashes, every data page is whole, durable, and holds what was synced last or its copy in the batch in flight |
| `Doublewrite.SyncedStays` | buf/buf0flu.cc:450-474 | a page synced with its batch keeps that content through all later crashes and recoveries until it is posted again |
| `Doublewrite.NewestCopyFirst` | buf/buf0dblwr.cc:249-307 | in front of a torn page, the first slot of all that claims the page belongs to the batch in flight and is whole; slots of an earlier, longer batch come later |
| `Doublewrite.PostInv` | buf/buf0flu.cc:477-506 | posting keeps the invariant; in particular a page is at most once in a batch |
| `Doublewrite.WriteSlotsInv` | buf/buf0flu.cc:391-430 | writing the copies to block 1 or 2 touches no data page |
| `Doublewrite.FlushSlotsInv` | buf/buf0flu.cc:434-442 | only then are the copies of the batch durable, in the first slots |
| `Doublewrite.WriteInPlaceInv` | buf/buf0flu.cc:438-464 | what is written in place from a frame is the copy in the slots, since the frame is latched |
| `Doublewrite.SyncDataInv` | buf/buf0flu.cc:322-330 | after the sync every page of the batch is durable as posted |
| `Doublewrite.RecoverSlotInv` | buf/buf0dblwr.cc:251-307 | one slot of recovery keeps the invariant: a torn page is repaired only by its copy from the batch in flight |
| `Doublewrite.CrashInv` | buf/buf0dblwr.cc:207-312 | whatever a crash leaves, a torn page has its copy in a slot of the batch in flight |
| `Doublewrite.EndRecoveryInv` | buf/buf0dblwr.cc:309-311 | after the last slot no page is torn |
| `DoublewriteBuffer.Dblwr.BufferedWrites` | buf/buf0flu.cc:332-475 | issues the copies to block 1 and 2, the flush of the system tablespace, each page to its place, and the flush of all files, in this order and nothing else; cut short after any of them, the files are as in a state of the protocol; at the end every posted page is durable in its place, no other data page changed, and the buffer is empty |
| `DoublewriteBuffer.Dblwr.WriteBatch` | buf/buf0flu.cc:391-470 | the same for a batch that is not empty |
| `DoublewriteBuffer.Dblwr.WriteCopies` | buf/buf0flu.cc:391-438 | the copies are written to both blocks as far as needed, and then flushed |
| `DoublewriteBuffer.Dblwr.WriteBlocks` | buf/buf0flu.cc:391-430 | one write for up to 64 copies, two for more |
| `DoublewriteBuffer.Dblwr.WritePages` | buf/buf0flu.cc:444-465 | one write per page, of its copy, in the order of the batch |
| `DoublewriteBuffer.Dblwr.WritePage` | buf/buf0flu.cc:444-465 | page i of the batch is written from its frame, which still holds what was copied |
| `DoublewriteBuffer.Dblwr.FinishBatch` | buf/buf0flu.cc:467-470 | one flush of all files makes the batch durable, and the buffer is empty |
| `DoublewriteBuffer.Dblwr.SyncDatafiles` | buf/buf0flu.cc:322-330 | all writes are durable and the latches of the batch released |
| `DoublewriteBuffer.Dblwr.PostToDoublewriteBuf` | buf/buf0flu.cc:477-506 | the page is the last copy of the batch, or its batch was written out and it is durable; nothing is issued unless the buffer is full before or after; cut short anywhere, the files are as in a state of the protocol |
| `DoublewriteBuffer.Dblwr.MakeRoom` | buf/buf0flu.cc:481-490 | a full buffer is written out, any other is left alone |
| `DoublewriteBuffer.Dblwr.CopyToWriteBuf` | buf/buf0flu.cc:492-498 | one more copy in the buffer, and the page is latched |
| `DoublewriteBuffer.Dblwr.RecoverPages` | buf/buf0dblwr.cc:207-312 | all data pages become whole, with the content synced last or posted last; cut short after any write, the files are as in a state of the protocol, so that recovery can start again |
| `DoublewriteBuffer.Dblwr.RecoverPage` | buf/buf0dblwr.cc:251-307 | one slot, with what was synced and what is in flight unchanged |
| `DoublewriteIo.StepEffect` | buf/buf0flu.cc:391-470 | the operations of a step do to the files what the step does to the disk of the protocol |
| `DoublewriteIo.BlockRun` | buf/buf0flu.cc:397-424 | a write of consecutive pages from the start of a block writes just its slots |
| `DoublewriteIo.SystemFlush` | buf/buf0flu.cc:434-438 | flushing the system tablespace alone is enough, since nothing else is pending then |
| `DoublewriteIo.Cuts` | buf/buf0flu.cc:332-475 | after any part of what a process has issued the files are as in a state of the protocol that was reached since |
| `DoublewriteIo.CrashAtCut` | buf/buf0dblwr.cc:207-312 | what a crash may leave there it may leave in a run of the protocol, so crash safety covers it |
| `DoublewriteIo.PlaceStep` | buf/buf0flu.cc:440-461 | the frame that is written in place is the copy in the slot |
| `DoublewriteIo.CopyIsWhole` | buf/buf0dblwr.cc:282-296 | if the page a slot claims is torn, the slot's copy is whole |
| `DoublewriteIo.BatchSynced` | buf/buf0flu.cc:436-469 | from an empty in-place phase to the sync, exactly the pages of the batch change |
| `PoolStore.CacheCoherence` | buf/buf0buf.cc:746-899 | over all runs: a page in the pool shows the stored content, and a page that is not in the pool has it on disk, whole |
| `PoolStore.LastChangeShows` | buf/buf0buf.cc:746-899 | over all runs with reads, evictions and batches in between: after a change of a page its content is what the pool or a read gives, until the page is changed again or the process crashes |
| `PoolStore.UnchangedShows` | buf/buf0buf.cc:746-899 | a page that was never changed is seen as it was found |
| `PoolStore.SyncedChangeSurvives` | buf/buf0flu.cc:322-475 | a change that was posted and synced is seen after any crash and any number of recoveries, unless the page was changed again before the crash |
| `PoolStore.SeenWasWritten` | buf/buf0dblwr.cc:207-312 | what is seen at any time, also after crashes and recoveries, was found at the start or written by an earlier change |
| `PoolStore.CanBeRead` | buf/buf0buf.cc:1443-1455 | a page that is not in the pool can be read at any time, and the read gives what the page shows |
| `PoolStore.SyncedSurvives` | buf/buf0dblwr.cc:207-312 | a page that is not modified in the pool and not in the batch in flight has the same content after a crash and any number of recoveries; one whose write was reported but not synced has that content or the one synced before |
| `PoolStore.NothingInvented` | buf/buf0dblwr.cc:207-312 | what the store holds for a page after recovery it held at some time before the crash |
| `PoolStore.StoreAfterRecovery` | buf/buf0dblwr.cc:207-312 | each page is as it was synced last or as its copy in the batch in flight |
| `PoolStore.CacheRunInv` | buf/buf0flu.cc:332-475 | every state of every run satisfies the invariant of pool and protocol |
| `PoolStore.ChangeInv` | buf/buf0buf.cc:1443-1455 | a change or a read of a page keeps pool, disk and store in agreement |
| `PoolStore.EvictInv` | buf/buf0lru.cc:621-667 | a page that is not latched and not modified can leave the pool at any point of a batch |
| `PoolStore.PostedInv` | buf/buf0flu.cc:477-506 | a posted page stays as it was posted while it is latched |
| `PoolStore.WrittenInv` | buf/buf0flu.cc:438-464 | the page that is written in place is still on the flush list |
| `PoolStore.CompletedInv` | buf/buf0flu.cc:295-320 | a page whose write is complete may leave the flush list, although its batch is not synced |
| `PoolStore.SyncInv` | buf/buf0flu.cc:322-330 | the sync of a batch keeps pool, disk and store in agreement |
| `PoolStore.RecoveredInv` | buf/buf0dblwr.cc:309-311 | after recovery an empty pool over the disk is a store again |
| `PoolStore.PastStep` | buf/buf0flu.cc:332-475 | what is synced, posted or in flight was in the store |
| `BtreePage.PageGetSplitRec` | btr/btr0btr.cc:792-875 | for records below half a page, both halves fit around the chosen record, which is at the half point of the space; the split is never before the first item |
| `BtreePage.HalfSplitBalances` | btr/btr0btr.cc:807-850 | the lower half has half of the total space, give or take the item at the half point |
| `BtreePage.IncludeHalf` | btr/btr0btr.cc:819-845 | the scan stops at the first number of items that reserve half of the space, and on an item, never on supremum |
| `BtreePage.SplitArithmetic` | btr/btr0btr.cc:845-868 | at the half point, taking the item in if it fits and leaving it out otherwise makes both halves fit, with directory rounding |
| `BtreePage.PageInsertFits` | btr/btr0btr.cc:877-949 | true exactly when the tuple's half fits |
| `BtreePage.RemoveUntilFits` | btr/btr0btr.cc:919-946 | taking records off one at a time answers whether what is left at the end fits |
| `BtreePage.TwoRecordsFit` | btr/btr0cur.cc:744-846 | a page with at most one record has room for another |
| `BtreePage.DecideSplit` | btr/btr0btr.cc:1120-1190 | the split is where the insert pattern, the middle record or, in the second iteration, the half point puts it; both halves get an item; in the second iteration, or when the tuple starts the upper half, the tuple's half fits |
| `BtreePage.UnfitHalf` | btr/btr0btr.cc:1266-1298 | if the tuple does not fit on its half, that half has two records already, so a second split is possible |
| `BtreePage.FittingHalf` | btr/btr0btr.cc:1196-1213 | if the tuple fits on its half, both halves are proper pages |
| `BtreeRows.CutDescends` | btr/btr0cur.cc:302-345 | the cut of the node pointers and the cut on the page they lead to give the cut of the whole level below |
| `BtreeRows.SplitKeepsTower` | btr/btr0btr.cc:1081-1306 | a page cut in two, with its new pointer, gives a tree again, with the same records in order |
| `BtreeRows.DeleteKeepsRow` | btr/btr0cur.cc:1752-1800 | deleting a record within a page removes just that record from the level and moves the min-record mark if need be |
| `BtreeRows.DiscardKeepsRow` | btr/btr0btr.cc:1629-1698 | discarding a page with one record removes just that record from the level and moves the min-record mark if need be |
| `BtreeRows.DeleteFirstUnder` | btr/btr0cur.cc:1780-1792 | with the next record's prefix in the node pointer, a non-leaf page with a left neighbour can lose its first record |
| `BtreeRows.DiscardUnder` | btr/btr0btr.cc:1629-1698 | a page discarded together with its node pointer leaves all other pages under their pointers |
| `Btree.PageSearch` | page/page0cur.cc:254-438 | a binary search of one page finds the cut for modes L, LE, G and GE |
| `Btree.Tree.Descend` | btr/btr0cur.cc:222-345 | the descent follows the one path on which the key can be |
| `Btree.Tree.SearchToNthLevel` | btr/btr0cur.cc:140-352 | the descent, with L for GE and LE for G above the leaves, stops where a search of the level's flat sorted records stops |
| `Btree.Tree.PageGetFather` | btr/btr0btr.cc:357-417 | the lookup finds the node pointer to its own child; the corruption test never succeeds |
| `Btree.FatherFound` | btr/btr0btr.cc:366-412 | a search in mode LE for any record of page i ends on pointer i of the level above |
| `Btree.Tree.InsertOnPage` | btr/btr0cur.cc:614-742 | an insert that finds room puts the record in its place |
| `Btree.Tree.LinkHalfPages` | btr/btr0btr.cc:1030-1057 | the new page is in the level list next to the old one |
| `Btree.Tree.SetFatherChild` | btr/btr0btr.cc:982-1002 | the old node pointer leads to the lower half |
| `Btree.Tree.InsertUpperPointer` | btr/btr0btr.cc:1014-1028 | the pointer to the upper half comes right after the other one, through inserts on all levels above |
| `Btree.Tree.AttachHalfPages` | btr/btr0btr.cc:966-1057 | the new page is linked in below or above, the old pointer leads to the lower half, and the new pointer comes right after it |
| `Btree.LinkUpdates` | btr/btr0btr.cc:1030-1057 | the six link updates leave mutual sibling links and touch one level only |
| `Btree.Tree.SplitNode` | btr/btr0btr.cc:1161-1249 | the two half pages replace the page; the tree invariant holds, including all levels above |
| `Btree.Tree.SplitPages` | btr/btr0btr.cc:1161-1249 | the same, up to the modify clock of the old page |
| `Btree.Tree.AllocPage` | btr/btr0btr.cc:1161-1164 | an unused page disturbs no level |
| `Btree.Tree.AttachNewPage` | btr/btr0btr.cc:1161-1194 | the new page is allocated and attached |
| `Btree.Tree.SplitFitting` | btr/btr0btr.cc:1192-1264 | a split after which the tuple is inserted |
| `Btree.Tree.SplitWithout` | btr/btr0btr.cc:1192-1298 | a split after which the tuple still has its place on one of the halves |
| `Btree.Tree.PageSplitAndInsert` | btr/btr0btr.cc:1081-1306 | at most two splits; the record gets its place in the level's order, the invariant is kept |
| `Btree.Tree.RootRaise` | btr/btr0btr.cc:640-721 | the root keeps its page number and gets one level higher; its records are on one new page |
| `Btree.Tree.PessimisticInsert` | btr/btr0cur.cc:744-846 | terminates; the record gets its place in the level's order, levels below are untouched, the invariant is kept |
| `Btree.Tree.InsertOnLevel` | btr/btr0btr.cc:951-964 | search and insert on any level, through recursive splits of the levels above |
| `Btree.Tree.InsertRecord` | btr/btr0cur.cc:744-846 | the leaf records become the old sequence with the record in place; the tree stays valid; no record leaves a page whose modify clock stands still |
| `Btree.Tree.NodePtrDelete` | btr/btr0btr.cc:1372-1382 | exactly the pointer to the page leaves the level above |
| `Btree.Tree.UnlinkAndFree` | btr/btr0btr.cc:1308-1339 | the neighbours are linked to each other and the page is gone |
| `Btree.Tree.DiscardPage` | btr/btr0btr.cc:1629-1698 | the page and its only record leave the tree; the only page of a level is discarded this way only on the leaf level |
| `Btree.Tree.DiscardPointer` | btr/btr0btr.cc:1672-1683 | the right neighbour of a leftmost non-leaf page gets the min-record mark, and the pointer goes |
| `Btree.Tree.DiscardWithSibling` | btr/btr0btr.cc:1670-1698 | the page leaves its level and the tree above is right again |
| `Btree.OnlyPageIsLeaf` | btr/btr0btr.cc:1663-1668 | a page to be discarded that is alone on its level is a leaf |
| `Btree.Tree.DiscardOnlyPageOnLevel` | btr/btr0btr.cc:1581-1627 | every page up to the root is alone on its level with one record; the tree becomes an empty root leaf |
| `Btree.OnlyPageAbove` | btr/btr0btr.cc:1587-1609 | above a page alone on its level is a page alone on its level with one record |
| `Btree.Tree.ReplaceNodePtr` | btr/btr0cur.cc:1780-1792 | the pointer to the page is replaced by one with the next record's prefix, in the same place |
| `Btree.Tree.AdjustNodePtr` | btr/btr0cur.cc:1766-1793 | the level above is ready for the page without the record |
| `Btree.Tree.DeleteOnPage` | btr/btr0cur.cc:1762-1800 | the record leaves its page, which stays |
| `Btree.Tree.PessimisticDelete` | btr/btr0cur.cc:1710-1809 | terminates through the mutual recursion; exactly one record leaves its level, levels below are untouched, invariant and min-record marks are kept |
| `Btree.Tree.DeleteRecord` | btr/btr0cur.cc:1710-1809 | the record with the key, and no other, leaves the leaf sequence; if there is none, nothing changes; no record leaves a page whose modify clock stands still |
| `Btree.Tree.DeleteLeafRecord` | btr/btr0cur.cc:1710-1809 | the record at the cursor, and no other, leaves the leaf sequence |
| `Btree.KeyAtCursor` | btr/btr0cur.cc:314-352 | a key not under the cursor of a search in mode LE is not in the tree |
| `Btree.PathUnique` | btr/btr0cur.cc:302-345 | the page to which the node pointers lead for a key is unique |
| `Btree.Tree.Evict` | buf/buf0lru.cc:722-728 | an eviction only moves the clock |
| `Btree.KeptTransitive` | buf/buf0buf.cc:966-985 | the clock rule carries over from single changes to any number of them |
| `Btree.InsertClocked` | btr/btr0btr.cc:536-612 | an insert, with or without reorganizing the page, keeps the clock rule |
| `Btree.SplitClocked` | page/page0page.cc:519-541 | a split moves the clock of the old page just if records leave it, and keeps the clock rule |
| `Btree.RaiseClocked` | btr/btr0btr.cc:624-638 | emptying the root moves its clock |
| `Btree.DeleteClocked` | page/page0cur.cc:1186-1197 | a delete moves the clock of its page and keeps the clock rule |
| `Btree.DiscardClocked` | btr/btr0btr.cc:309-327 | freeing a page moves its clock and keeps the clock rule |
| `Btree.Tree.constructor` | btr/btr0btr.cc:441-485 | a new tree is valid and empty |
| `Pcur.Pcursor.OpenAtIndexSide` | btr/btr0cur.cc:354-468 | the cursor is before the first or after the last record of the tree |
| `Pcur.Pcursor.MoveToNextUserRec` | include/btr0pcur.h:702-721 | moves to the next record in the flat order, across pages; false just if there is none |
| `Pcur.Pcursor.MoveToNextPage` | btr/btr0pcur.cc:280-307 | the page link leads to the next page of the level, nothing is passed over |
| `Pcur.Pcursor.MoveToNextOnPage` | include/btr0pcur.h:676-683 | one step on the page |
| `Pcur.TracedKept` | btr/btr0pcur.cc:160-176 | a stored position is still usable after any change that respects the clock rule |
| `Pcur.Pcursor.StorePosition` | btr/btr0pcur.cc:49-106 | the stored record, relative position, page and clock describe the position as it is now, and the cursor follows the tree from here on |
| `Pcur.Pcursor.RestorePosition` | btr/btr0pcur.cc:127-265 | whatever inserts, deletes and evictions came since the store, by clock or by search: a position on a record comes back right behind all keys up to it, true just if the record is there; a position before a record comes back right behind the smaller keys, or at the start of its page; one after a record comes back in front of larger keys only, has passed none over if and only if the page for its key holds none, and otherwise the first or all of that page; by clock what is stored stays, by search the position found is stored |
| `Pcur.Pcursor.Optimistic` | btr/btr0pcur.cc:158-205 | if the clock stands still the record is still on the page, and the cursor is back in place on that page although records were added |
| `Pcur.Pcursor.Search` | btr/btr0pcur.cc:207-264 | the search ends at the right place, and what is stored afterwards is the position found, with its page and clock; if the record is there, it stays the stored one |
| `Pcur.Pcursor.SearchOnly` | btr/btr0pcur.cc:212-225 | LE, G and L for on, after and before |
| `Pcur.FoundAfter` | btr/btr0pcur.cc:218-225 | a search in mode G passes no larger key over if and only if the page for the key holds none; otherwise just one record |
| `Pcur.AfterMaySkip` | btr/btr0pcur.cc:218-225 | two trees, the second the first with key 1 deleted and its page discarded: wherever the search of the restore ends, key 2, which is in both, is passed over |
| `Pcur.PathPageIs` | btr/btr0pcur.cc:218-225 | the condition can be read off any page to which the node pointers lead |
| `Scan.ApplyChange` | btr/btr0cur.cc:744-846 | the keys of the tree change by just the one change, and the clock rule holds |
| `Scan.ApplyChanges` | btr/btr0cur.cc:744-846 | the same for any sequence of changes |
| `Scan.ScanTree` | dict/dict0load.cc:134-189 | with any inserts, deletes and evictions between its steps: each key is the first above the one before in the tree of its step, the trees follow each other by the given changes, and every key that was there at the start and is never deleted is returned or still ahead |
| `Scan.ScanLoop` | dict/dict0load.cc:134-189 | each step returns the first key above the one before, in the tree as it is at that step |
| `Scan.NextAndStore` | dict/dict0load.cc:135-167 | a round stores the first key above the last one |
| `Scan.ChangeAndRestore` | dict/dict0load.cc:184-187 | after the changes the cursor is where restore_position promises |
| `Scan.ClimbsAscends` | dict/dict0load.cc:134-189 | the keys of a scan strictly increase |
| `Scan.ScanComplete` | dict/dict0load.cc:134-189 | a key in the tree at all steps is returned or still ahead |
| `Scan.MergeScan` | row/row0merge.cc:994-1030 | every leg returns the rest of a leaf page, each tree follows from the one before by the changes of its round; a switch passes no key over if and only if the page for the key left behind holds no larger one; what is passed over is on that page and never returned; a key that was there at the start and is never deleted is returned in its turn if and only if no switch passes it over |
| `Scan.MergeLoop` | row/row0merge.cc:994-1030 | the loop behind it: the course from the tree at the start to the tree at the end |
| `Scan.NextPage` | row/row0merge.cc:1009-1024 | one more leg of the course |
| `Scan.FirstPage` | row/row0merge.cc:994-1008 | the first leg returns all keys of the first leaf page |
| `Scan.SwitchAndRest` | row/row0merge.cc:1009-1024 | a leg follows from the one before by a switch |
| `Scan.RestOfPage` | row/row0merge.cc:1001-1008 | the keys up to the end of the page, in order |
| `Scan.SmoothIff` | btr/btr0pcur.cc:218-225 | a switch passes over no key if and only if the page for the key left behind holds no larger one |
| `Scan.PassedOnPage` | btr/btr0pcur.cc:158-225 | what a switch passes over is on the page for the key left behind |
| `Scan.PassedBehind` | row/row0merge.cc:994-1030 | the scan does not come back to what it has passed over |
| `Scan.RisingAscends` | row/row0merge.cc:994-1030 | the keys of all legs together strictly increase |
| `Scan.NotPassed` | row/row0merge.cc:994-1030 | a key that stays and is not passed over is returned or still ahead |
| `Scan.ScanMayMiss` | row/row0merge.cc:1009-1024 | a course of two legs that misses a key that was there all along |
| `Scan.StepOnPage` | row/row0merge.cc:1001-1008 | a step on the page goes to the next key, or to the end of the page |
| `Scan.SwitchPage` | row/row0merge.cc:1009-1024 | after the end of a page comes the first larger key just if the page for the last key holds no larger key, and otherwise the first or all of these are passed over |
| `Scan.StoreAtEnd` | row/row0merge.cc:1016-1016 | the position is stored after the last record of the page |
| `Scan.NextRecord` | row/row0merge.cc:1023-1023 | the scan goes on with the next record of the tree |
| `BufPool.ToDisk` | buf/buf0flu.cc:526-563 | writing a frame changes no page of the store and keeps every other block right |
| `BufPool.Bind` | buf/buf0buf.cc:1172-1221 | binding a block keeps the page hash one to one |
| `BufPool.Unbind` | buf/buf0lru.cc:708-794 | a clean page can leave the pool, since the disk has its content |
| `BufPool.Pool.GetFreeOnly` | buf/buf0lru.cc:221-245 | takes the first free block; lists, counters and store stay right |
| `BufPool.Pool.BlockAlloc` | buf/buf0buf.cc:262-268 | a free block becomes a memory block |
| `BufPool.Pool.BlockFreeNonFilePage` | buf/buf0lru.cc:669-706 | the block is first on the free list |
| `BufPool.Pool.InitForRead` | buf/buf0buf.cc:1223-1280 | binds the block for a read, or frees it if the page is there or its tablespace gone |
| `BufPool.Pool.BindForRead` | buf/buf0buf.cc:1256-1274 | the page is in hash and LRU list, x-latched, and counted as a pending read |
| `BufPool.Pool.Create` | buf/buf0buf.cc:1282-1358 | a page in the pool gets one more fix and the free block goes back; otherwise the frame becomes the page |
| `BufPool.Pool.CreateNew` | buf/buf0buf.cc:1316-1352 | the frame is the new content of the page |
| `BufPool.Pool.Get` | buf/buf0buf.cc:746-836 | a page in the pool gets one more fix, and nothing else changes |
| `BufPool.Pool.Fix` | buf/buf0buf.cc:841-847 | the block has one more fix, and its content stays |
| `BufPool.Pool.LatchPage` | buf/buf0buf.cc:855-899 | whoever gets a latch sees the last modification of the page |
| `BufPool.Pool.Release` | buf/buf0buf.cc:285-310 | an x-latched block of a mini-transaction that wrote is on the flush list before the latch is gone, whether it changed or not, and keeps an older oldest modification |
| `BufPool.Pool.FlushPage` | buf/buf0flu.cc:591-669 | the page is io-fixed and counted; it is s-latched at once if no one has it fixed |
| `BufPool.Pool.LatchForWrite` | buf/buf0flu.cc:635-641 | the waited-for s-latch keeps the frame from changing |
| `BufPool.Pool.WriteBlockLow` | buf/buf0flu.cc:526-563 | only this page changes on disk, and the store does not |
| `BufPool.Pool.IoComplete` | buf/buf0buf.cc:1360-1475 | after a read the frame holds the page; after a write the page is clean and equal to the disk |
| `BufPool.Pool.ReadComplete` | buf/buf0buf.cc:1443-1455 | one pending read less, and the frame holds the page |
| `BufPool.Pool.WriteComplete` | buf/buf0flu.cc:295-320 | the page is off the flush list and its counter decreased |
| `BufPool.Pool.FreeBlock` | buf/buf0lru.cc:621-667 | freed just if not fixed, not under io and not modified; the store keeps the page |
| `BufPool.Pool.BlobFree` | btr/btr0blob.cc:224-245 | after the commit of a mini-transaction that wrote, the block can be freed if and only if it was written out in between |
| `BufPool.Pool.WriteOut` | buf/buf0flu.cc:591-669 | a flush from beginning to end cleans the page and changes nothing else of its block |
| `BufPool.Pool.FreeIfAllocated` | btr/btr0blob.cc:230-244 | aborts just if the block still holds the page and is fixed, under io or modified |
| `BufPool.Pool.BlockFreeHashedPage` | buf/buf0lru.cc:796-803 | the block returns to the free list |
| `BufPool.Pool.constructor` | buf/buf0buf.cc:540-600 | the empty pool shows the data files |
| `Lru.TargetBounds` | buf/buf0lru.cc:405-415 | within the tolerance, every allowed ratio leaves at least five young and five old blocks |
| `Lru.TargetNumbers` | buf/buf0lru.cc:411-414 | the target is the share of the ratio, rounded down, or the length less 25, whichever is smaller |
| `Lru.Buf_LRU.OldAdjustLen` | buf/buf0lru.cc:399-447 | terminates inside the list and brings the old length to the nearer end of the tolerance band, stated in blocks times 1024 against length times ratio |
| `Lru.ShareKeptIff` | buf/buf0lru.cc:43-49 | staying within the tolerance of the target means staying within the tolerance of the share if and only if the share is at most the length less 25 |
| `Lru.LeaveShareBand` | buf/buf0lru.cc:43-49 | a run of the operations after which the old length is out of the tolerance of its share |
| `Lru.Buf_LRU.StepBack` | buf/buf0lru.cc:425-431 | one more block is old |
| `Lru.Buf_LRU.StepForward` | buf/buf0lru.cc:433-441 | one block less is old |
| `Lru.Buf_LRU.OldInit` | buf/buf0lru.cc:449-470 | a list that has just become long enough gets its old sublist, as long as the tolerance allows |
| `Lru.Buf_LRU.RemoveBlock` | buf/buf0lru.cc:472-527 | the predecessor it relies on exists; old blocks are again the suffix from `LRU_old`, or none on a short list |
| `Lru.Buf_LRU.AddBlockToEndLow` | buf/buf0lru.cc:529-559 | the block is last, the invariant holds |
| `Lru.Buf_LRU.AddBlockLow` | buf/buf0lru.cc:561-599 | a young block is first and not old, an old one right behind `LRU_old`; the invariant holds |
| `Lru.Buf_LRU.MakeBlockYoung` | buf/buf0lru.cc:605-614 | the block is first and not old |
| `Lru.Buf_LRU.MakeBlock` | buf/buf0lru.cc:616-619 | the block is last, and old just on a long list |
| `Lru.Buf_LRU.OldRatioUpdate` | buf/buf0lru.cc:805-840 | an allowed ratio is set, the invariant is kept, and the percentage returned is the given one brought into 5 to 100 |
| `Lru.RatioRoundTrip` | buf/buf0lru.cc:805-840 | percentage to ratio and back is the identity from 5 to 100 |
| `FlushList.CmpTotal` | buf/buf0flu.cc:68-90 | `block_cmp` is a strict total order on blocks of different pages, by decreasing oldest modification |
| `FlushList.Flusher.InsertInFlushRbt` | buf/buf0flu.cc:40-59 | the block before it in the set is the block before its place in the list |
| `FlushList.Flusher.InsertIntoFlushList` | buf/buf0flu.cc:112-136 | list and set stay in order and agree |
| `FlushList.Flusher.InsertSortedIntoFlushList` | buf/buf0flu.cc:138-178 | the same for a block with any oldest modification, with the set or by linear search |
| `FlushList.Flusher.LinearSearch` | buf/buf0flu.cc:158-167 | stops behind the blocks that were modified later |
| `FlushList.Flusher.LinkAfter` | buf/buf0flu.cc:169-173 | the block is right behind its predecessor |
| `FlushList.Flusher.NoteModification` | include/buf0flu.h:192-217 | a block that was clean is put in its place, first if there is no set, and no other moves; an oldest modification is never overwritten |
| `FlushList.Flusher.RecvNoteModification` | include/buf0flu.h:226-250 | the same during recovery, in any order of log positions |
| `FlushList.Flusher.Remove` | buf/buf0flu.cc:222-254 | the block leaves list and set and is clean |
| `FlushList.Flusher.RelocateOnFlushList` | buf/buf0flu.cc:256-293 | the new control block has the old one's place; the predecessors in list and set are the same block |
| `FlushList.Flusher.FreeFlushList` | buf/buf0flu.cc:99-110 | the list stays in order without the set |
| `FlushList.Flusher.GetOldestModification` | include/buf0buf.h:132-152 | the tail gives the minimum over all modified pages, 0 just if there are none |
| `FlushList.OrderUnique` | buf/buf0flu.cc:1008-1048 | there is one list of given blocks in set order, so walking the set visits the list |
| `FlushList.RelocatedOk` | buf/buf0flu.cc:256-293 | list and set are right after a relocation, also among equal modifications |
| `BigRec.FindLongest` | data/data0data.cc:495-541 | finds the first eligible field with the biggest savings, none just if no field is eligible |
| `BigRec.ConvertBigRec` | data/data0data.cc:458-584 | terminates; fails if and only if the record is too big with all eligible fields moved out, and then leaves the tuple unchanged if and only if no field was eligible, with the count raised by their number; otherwise the record fits a page, each field moved out was the first with the biggest savings of those left, and no smaller number of fields would do |
| `BigRec.SavingsDescend` | data/data0data.cc:494-541 | no field that was left at the time saves more than the one that was moved |
| `BigRec.UnchangedIff` | data/data0data.cc:543-548 | shortening all eligible fields changes the tuple just if there is one |
| `BigRec.FailedConversionShortens` | data/data0data.cc:543-548 | a row on which the conversion fails and does not give the tuple back |
| `BigRec.ConvertBackBigRec` | data/data0data.cc:586-608 | restores every field |
| `BigRec.OneMoreNeeded` | data/data0data.cc:489-547 | with the longest fields moved out and still too big, no other choice of as many fields is enough |
| `BigRec.EnoughMoved` | data/data0data.cc:494-584 | moving out more fields never makes the record bigger |
| `Blob.CopyBlobPrefix` | btr/btr0blob.cc:574-620 | the first bytes of the chain, as many as asked for or as there are |
| `Blob.CopyFieldPrefix` | btr/btr0blob.cc:632-661 | a prefix of the value; nothing if external bytes are needed of a value whose recorded length is zero |
| `Blob.CopyField` | btr/btr0blob.cc:663-684 | the local part followed by as many bytes as are recorded; just the local part if the recorded length is zero |
| `Blob.Column.Store` | btr/btr0blob.cc:247-394 | after every mini-transaction the reference is owned and records the number of readable bytes, a prefix of the value, and page n of the chain holds just part n; at the end the value is readable; no other page changes; it fails just if there are fewer pages left than the value needs |
| `Blob.PartSizes` | btr/btr0blob.cc:337-356 | every page but the last holds 16330 bytes, and the last between 1 and 16330 |
| `Blob.Column.StorePart` | btr/btr0blob.cc:291-385 | one round of the store fills one page |
| `Blob.MoreParts` | btr/btr0blob.cc:291-385 | the states of the earlier mini-transactions stay what they were |
| `Blob.Column.PageAlloc` | btr/btr0blob.cc:303-310 | an unused page, or none just if none is left |
| `Blob.Column.AddPage` | btr/btr0blob.cc:291-385 | one mini-transaction extends the chain by one part |
| `Blob.ChainExtended` | btr/btr0blob.cc:315-355 | linking a new page behind the last one appends its part |
| `Blob.Column.Free` | btr/btr0blob.cc:419-530 | after every step the reference leads to exactly the pages of an owned chain that are left and records length zero; the call returns, with the whole chain freed, if and only if the block of each page could be freed when `blob_free` looked, and otherwise stops after the first that could not; other fields are left alone |
| `Blob.Column.FreeRound` | btr/btr0blob.cc:464-525 | the mini-transaction of one round takes the first page off the chain |
| `Blob.FreeOnePage` | btr/btr0blob.cc:224-245 | a chain of one page in the pool, on which the process stops |
| `Blob.FieldComesBack` | data/data0data.cc:549-576 | local prefix and stored part together are the original value |
| `RowId.RestartAbove` | dict/dict0load.cc:1147-1155 | for every surviving prefix of the log, the counter restarts above every id in it |
| `RowId.Store.SysGetNewRowId` | dict/dict0store.cc:169-184 | the id is the counter, and above every id in the log and every id given out since the start |
| `RowId.Store.HdrFlushRowId` | dict/dict0store.cc:83-97 | the counter is logged |
| `RowId.Store.InsertRow` | row/row0ins.cc:1694-1696 | an id that was given out is logged with its row |
| `RowId.Store.CrashAndRestart` | dict/dict0load.cc:1147-1155 | keeps the invariant for any prefix of the log |
| `DictIndex.BuildClusterIndex` | dict/dict0dict.cc:1169-1268 | stays within the allocated fields, holds every column as a whole, adds none twice and in ascending order, and ends its unique part with the row id just if the definition is not unique |
| `DictIndex.BuildSecondaryIndex` | dict/dict0dict.cc:1270-1335 | adds exactly the unique fields of the clustered index that are missing, in their order, stays within the allocated fields, and holds a usable field for each of them |
| `DictIndex.MissingHolds` | dict/dict0dict.cc:1311-1320 | with the missing fields added, each unique field of the clustered index is usable |
| `DictIndex.MarkIndexed` | dict/dict0dict.cc:1292-1309 | a column is marked just if it is a field as a whole |
| `DictIndex.UsableDetermines` | dict/dict0dict.cc:236-241 | the field that the lookup accepts determines the wanted one |
| `DictIndex.GetNthFieldPos` | dict/dict0dict.cc:228-246 | the first usable position; defined for every unique clustered field of a built index |
| `DictIndex.SecondaryDeterminesKey` | api/api0api.cc:3662-3668 | rows with the same secondary entry have the same clustered key, prefixes included |
| `DictIndex.ClusteredDeterminesRow` | dict/dict0dict.cc:1252-1261 | rows with the same clustered entry agree in every column that the index holds as a whole |

## Left out

- Btree.Tree.PessimisticInsert: extent reservation, record locks, undo logging and the return for a full tablespace, which happen before the tree is changed.
- Btree.PageSearch: the search goes over the records; the page directory and the linear search within a slot are left out.
- Btree.Tree.AllocPage: running out of page numbers; there is always an unused one.
- BufPool.Pool.BlockAlloc: the wait for a free block; the model reports that there is none.
- BufPool.Pool.CreateNew: a page that is created is taken as x-latched and changed from the start; the code fixes it and leaves the latch to its caller.
- BufPool.Pool.Create: see `CreateNew`.
- BufPool.Pool.WriteBlockLow: the write is one step here; its way through the doublewrite buffer, with crashes, is the subject of `Doublewrite` and `PoolStore`.
- BufPool.Pool.WriteComplete: the move of the block to the end of the LRU list, which is `Lru.Buf_LRU.MakeBlock`.
- BufPool.Pool.Get: the retry loop around a read is the sequence `InitForRead`, `IoComplete`, `Get`; access times and read-ahead do not matter to the content.
- DoublewriteBuffer.Dblwr.PostToDoublewriteBuf: io-fix, s-latch and post of a page are one step; pages of the doublewrite buffer itself are never posted.
- Pcur.Pcursor.Optimistic: the record pointer that the cursor has kept is modelled by the record's key.
- BigRec.ConvertBigRec: that the memory of the shortened fields is freed on failure.
- Scan.ScanTree: records with the delete mark are not told apart; the code passes over them in the same mini-transaction.
- Scan.MergeScan: the same, and the interruption of the transaction, which ends the scan at a switch.
- `Btree::compress` and `lift_page_up`: the first reads an unpositioned cursor, and the second does not copy the records into the father.
- `mark_extern_inherited_fields` and `mark_dtuple_inherited_extern`; ownership and inheritance flags are inputs of `Blob.Column.Free`.
- Blob.Column.Free: what other threads do to the block between the commit and the look of `blob_free` is an input per round.
- The redo log: after a crash `PoolStore` shows what the data files hold, before the log is applied.
- `free_page_if_truncated` and all paths for dropped tablespaces, except that recovery skips their slots and a read is refused.
- Running without the doublewrite buffer, and a torn transaction system page, from which recovery reads the place of the slots.
- Updates in place, page reorganisation, backward moves of cursors, and the record locks of all operations.
- The order of blocks within the LRU list and the flush list inside `BufPool`; `Lru` and `FlushList` have it.
- The 4 GB limit of an external value, 64-bit wrap-around of row ids and log positions, and the 31-bit freed page clock.
- The full-length copy of a column into a prefix key in `api/api0api.cc:3670-3680`; only the position lookup is modelled.
- `m_trx_id_offset` of a clustered index, foreign keys, statistics, estimates, printing and the debug walks.
