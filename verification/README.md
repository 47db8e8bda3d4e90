# YAFFS2 and the lwIP mailbox: a verified model

The YAFFS2 flash file system keeps all data and all metadata in a log of flash pages. This project
models its storage engine, and the mailbox of the lwIP port next to it, and proves what they are
for. Geometry is symbolic throughout: any chunk size, chunks per block, number of blocks, cache
entries, handles, mailbox slots and threads.

| files | what they model |
|---|---|
| ScanLog, FileLog, RunLog, BlockLog | the log, the mount scan as a reading of the log, and the invariant that every append and every erasure keeps |
| Contents | what the data areas of the pages hold, and what files read as through their chunk maps |
| GcRule, FileSystem | write, truncate, hole, create, unlink, delete and collection as calls on a log in blocks, with the flags and candidates the collector works by, against files as byte arrays |
| MountScan, MountTable, Recovery, OutOfStep | the scan over physical blocks and the table it builds; recovery at every moment of every run; the runs on which a file falls out of step |
| Nand, DevState, DevSteps, Device, Bitmap | block states, allocation, retries, retirement, selection and collection of blocks, summaries and checkpoint blocks with their redundant counters, over a flash that remembers every program and erasure |
| DeviceLog | the block table against the log: what the counters decide is what the log needs |
| TnodeHeap, Tnode, PackedLeaf | the chunk map: a radix tree in memory, its packed leaves, its image in a checkpoint |
| ChunkView, ShortOpCache | the write-back cache and the read, write and resize loops against a plain byte array |
| CheckptImage, CheckptStream | the checkpoint byte stream, written and found again |
| Mailbox | posters and fetchers as interleaved atomic steps |
| Quicksort, Ecc, Ecc256, PackedTags, NameVal, Handles | the sort, the two error-correcting codes, the packed tags, the name-value buffer, the handle tables |

Code that updates state in place is a class or works on arrays; its methods are proved against a
value-level specification, and lemmas say what that specification is worth. Failures of the flash,
of memory and of space are nondeterministic; ghost counters of them (`faults`, `refused`) make it
possible to say that nothing fails without one. The file system keeps a ghost list of moments, one
for each page programmed and each block erased, and every call says what holds at all of its own.

Where the code and a natural reading of its purpose differ, the code is kept, a lemma or a run
exhibits the difference, and the exact condition is proved: `StaleHeaderLosesChunk` with `InStep`,
in `WrFile` one way and in `FallOutOfStep` the other; `UnsafeEraseRevives` with the test of
`Consider`; `UntimelyExists` with the two clauses of `GcBlock` and `Tame`; a stalled collection with
the pages left behind, in `GcBlock` and `CheckGc`; `DropLoses`; `YbicmpWraps` with `YbicmpExact`;
`BlocksCountedExact`, `RoomMisreckoned` with `Set`, `SetThenGetExact`, `FlipErasesExact`, `PlainRoundTripExact`.

## Model

| member | source | states |
|---|---|---|
| ScanLog.ScanMeansLook | YAFFS2/yaffs_yaffs2.c:1037-1084 | The backward scan, which threads a growing object state through the whole log, picks for every chunk exactly the newest record not cut off by a header nearer the end; the header it keeps is the newest one. |
| ScanLog.ScanMeansSize | YAFFS2/yaffs_yaffs2.c:1302-1316 | The size the scan arrives at is the newest header's, or further if data written after that header reaches further. |
| FileLog.AppendHeader | YAFFS2/yaffs_guts.c:3274-3418 | A header with the size RAM holds puts file and log in step, whatever the log looked like before, provided the data left standing ends at that size. |
| FileLog.AppendHole | YAFFS2/yaffs_yaffs2.c:902-910 | A shrink header at the old size keeps everything that was ever written above it invisible, up to any new size. |
| FileLog.EraseKeepsFile | YAFFS2/yaffs_guts.c:2310-2387 | Erasing pages none of which is live, and no shrink header unless everything older of the same object that stays behind is data it does not cut off, changes neither what a mount would find for a file nor what keeps later truncations safe. |
| FileLog.EraseLook | YAFFS2/yaffs_yaffs2.c:1037-1084 | After such an erasure every chunk reads back from the same page as before. |
| FileLog.EraseForgotten | YAFFS2/yaffs_guts.c:2980-2985 | Nor does it bring back an object that was deleted. |
| FileLog.HarmlessAppend | YAFFS2/yaffs_guts.c:2989-3043 | A set of pages whose erasure removes no shrink header still needed stays such a set when anything is written elsewhere. |
| FileLog.HarmlessKeep | YAFFS2/yaffs_guts.c:2310-2387 | And when other pages are erased. |
| RunLog.StepWrite | YAFFS2/yaffs_guts.c:2989-3043 | Appending one data chunk of a write keeps the invariant of the whole log, for the written file and for all others. |
| RunLog.StepCopyData | YAFFS2/yaffs_guts.c:2506-2526 | A collector's copy of a live data chunk keeps the invariant at every moment, also in the middle of a write or a truncation. |
| RunLog.StepCopyHeader | YAFFS2/yaffs_guts.c:2478-2521 | A collector's copy of a header, which clears the shrink flag and carries the size in RAM, keeps the invariant; only a file in the middle of a growing write or of a truncation can drop out of step. |
| RunLog.StepErase | YAFFS2/yaffs_guts.c:2310-2387 | Erasing a safe set of pages keeps the invariant at every moment. |
| RunLog.LiveUncut | YAFFS2/yaffs_yaffs2.c:1037-1084 | At every moment of a call: a live page older than a shrink header of the same object holds data that header does not cut off. |
| RunLog.HeaderNearly | YAFFS2/yaffs_guts.c:2495-2501 | A copied header with a stale size hides nothing while all that is mapped starts below that size. |
| RunLog.MountRebuilds | YAFFS2/yaffs_yaffs2.c:1347-1539 | At every moment, between calls or inside one: every file in step comes back with the header and chunk map RAM had and the size written so far, every unlinked file comes back marked for removal, nothing else comes back. |
| MountTable.MountedInv | YAFFS2/yaffs_yaffs2.c:1347-1539 | If every file was in step when power failed, wherever that was, the table the mount builds satisfies the invariant again, so that runs go on across power failures. |
| MountTable.MountedGone | YAFFS2/yaffs_yaffs2.c:1347-1539 | A file whose newest header names a dead directory, with size zero if it is a shrink header, satisfies the invariant as the scan finds it, whatever else the log holds. |
| BlockLog.EraseBlockLog | YAFFS2/yaffs_guts.c:2310-2387 | In the log laid out over erase blocks, erasing a block takes out exactly that block's pages. |
| BlockLog.AddPage | YAFFS2/yaffs_guts.c:407-457 | Programming the next page of the newest block appends one record to the log at an address not in use. |
| FileSystem.Fs.constructor | YAFFS2/yaffs_guts.c:4743-4762 | A formatted device satisfies the invariant and holds no files. |
| FileSystem.Fs.Mount | YAFFS2/yaffs_yaffs2.c:1347-1539 | A mounted device: blocks and data areas from flash, flags from the shrink headers met, and the scanned table; it is valid if that table satisfies the invariant. |
| FileSystem.Fs.Program | YAFFS2/yaffs_guts.c:489-587 | However many attempts fail first, one record is appended at a fresh address, in a new block after a failure; its data area holds what was given, failed pages leave no record, and no file reads otherwise than before. |
| FileSystem.Fs.CopyData | YAFFS2/yaffs_guts.c:2389-2531 | A live page is copied to a fresh one with its contents and only its place changes, also when attempts taken for failures leave readable pages. |
| FileSystem.Fs.CopyHeader | YAFFS2/yaffs_guts.c:2478-2521 | Which files are still in step after the collector rewrote a header, exactly. |
| FileSystem.Fs.EraseBlock | YAFFS2/yaffs_guts.c:2310-2387 | A block with no live page and no shrink flag, other than the one being written, is erased at any moment, data areas and all; the invariant holds and no file reads otherwise; no semantic condition is asked for. |
| FileSystem.Fs.Consider | YAFFS2/yaffs_yaffs2.c:119-134 | A block becomes the candidate exactly if it is not flagged or no older block holds a discarded page; the candidate stays good however long it waits. |
| FileSystem.Fs.StartGc | YAFFS2/yaffs_guts.c:2545-2556 | Starting a collection clears the flag of the candidate, tested now or in an earlier call. |
| FileSystem.Fs.CopyPage | YAFFS2/yaffs_guts.c:2389-2531 | The page looked at is not live afterwards, and every chunk of every file holds what it held. |
| FileSystem.Fs.CheckGc | YAFFS2/yaffs_guts.c:2804-2894 | Any number of steps of the collector, page by page and over any number of calls, keeps the invariant at every moment, every file's size and every byte of every chunk, and takes no file out of step except the one under a call, and that only by copying its header while data lies beyond the size in RAM. |
| FileSystem.Fs.WrDataObj | YAFFS2/yaffs_guts.c:2989-3043 | One chunk of the file gets the given contents; every other chunk of every file holds what it held; it fails only when no page can be given. |
| FileSystem.Fs.ReadDataObj | YAFFS2/yaffs_guts.c:2913-2929 | A chunk reads as its page holds it, or as zeros if the file does not have it. |
| FileSystem.Fs.PieceData | YAFFS2/yaffs_guts.c:3640-3653 | Writing the buffer prepared for a piece changes just the bytes of that piece, and leaves zeros behind what has been written of the file. |
| FileSystem.Fs.DoFileWr | YAFFS2/yaffs_guts.c:3509-3680 | The bytes done are in place and no other byte of any file has changed; the map gains exactly the chunks these bytes fall into, the size grows to the end of what was written, the write is short only if a chunk was refused. The file stays in step at every moment if no stale header was copied, which cannot happen inside the file or inside one chunk; and it ends up in step, whatever the collector does, if the write is `InStep`. |
| FileSystem.Fs.WrFile | YAFFS2/yaffs_guts.c:3682-3687 | The file becomes the byte array after a zero-extending write of the bytes done, no other file changes, and the chunks mapped are the old ones, those the bytes fall into, and some of a gap filled with zeros. In step at every moment: any write inside the file, and a write inside one chunk from its end or before. In step afterwards, without a refusal: every `InStep` write, in one chunk or with its last chunk starting less than a chunk beyond the end. |
| FileSystem.Fs.HandleHole | YAFFS2/yaffs_yaffs2.c:832-914 | Before a write past the end the gap is covered by zeros or by a shrink header, so that nothing once truncated away can come back inside it; below the old size nothing changes, no chunk is lost, and new ones lie in the gap. |
| FileSystem.Fs.FillHole | YAFFS2/yaffs_yaffs2.c:868-899 | Zeros are written from the end of the file on, as far as space allows, and nothing else changes. |
| FileSystem.Fs.PruneChunks | YAFFS2/yaffs_guts.c:3691-3739 | The chunks taken out of the map are exactly those at or above the cut, and the file reads as zeros from the first of them on. |
| FileSystem.Fs.TrimLastChunk | YAFFS2/yaffs_guts.c:3752-3764 | The chunk a cut falls into keeps its bytes below the cut and is zero behind it. |
| FileSystem.Fs.ResizeFileDown | YAFFS2/yaffs_guts.c:3741-3769 | Afterwards the map holds just the chunks below the new size, the last one rewritten if the cut falls inside it; the file is zero from the cut on and unchanged before it. |
| FileSystem.Fs.ResizeFile | YAFFS2/yaffs_guts.c:3771-3807 | The file becomes the byte array cut or extended with zeros, and no other file changes; one that grows keeps all its chunks, one of the same size is untouched. Without a refusal the file is in step: a mount finds the new size and exactly the chunks left. |
| FileSystem.Fs.UpdateOh | YAFFS2/yaffs_guts.c:3274-3418 | Writing a header puts the file in step, other files stay in step and all read as before; without a page for it nothing changes. |
| FileSystem.Fs.FlushFile | YAFFS2/yaffs_guts.c:3809-3824 | With no dirty cache a flush makes the file recoverable and changes nothing else, no byte of any file; it fails only when no page can be given. |
| FileSystem.Fs.CreateFile | YAFFS2/yaffs_guts.c:2116-2191 | Creating a file, also under a number used before, gives an empty recoverable file, or no file if no page can be given; no other file changes. |
| FileSystem.Fs.UnlinkOpen | YAFFS2/yaffs_guts.c:4024-4097 | An unlinked open file keeps size and contents, byte for byte, and a mount will find it marked for removal. |
| FileSystem.Fs.DelFile | YAFFS2/yaffs_guts.c:3860-3893 | After a deletion the object is gone for RAM and for every later mount; all other files read as before. |
| Contents.PageFilled | YAFFS2/yaffs_guts.c:407-457 | Programming a page that no file maps changes what no file reads. |
| Contents.PagesErased | YAFFS2/yaffs_guts.c:2310-2387 | Neither does erasing pages none of which is mapped. |
| Contents.ChunkMoved | YAFFS2/yaffs_guts.c:2506-2526 | Nor a chunk moving to a page with the same contents. |
| Contents.CleanPut | YAFFS2/yaffs_guts.c:3543-3576 | While a chunk is written the file stays zero behind what has been written of it. |
| Contents.TextGrew | YAFFS2/yaffs_guts.c:3682-3687 | A file that is zero past its size is, after a gap filled in any part with zeros and a write, the byte array after a zero-extending write. |
| Contents.ChunksCut | YAFFS2/yaffs_guts.c:3691-3739 | Taking the chunks from a cut on out of the map makes the file read as zeros from the first whole chunk past it. |
| OutOfStep.CollectHeader | YAFFS2/yaffs_guts.c:2804-2894 | Collecting block after block from the oldest on, each of which passes the test, the collector comes to copy the header of any file. |
| OutOfStep.FallOutOfStep | YAFFS2/yaffs_guts.c:2495-2501 | The converse of `InStep`: on every device with no collection half done, for every other offset and length, a run of the same steps, with the collector copying the header between the last two chunks, ends with the bytes written and a mount that would find the file otherwise. |
| Recovery.Remount | YAFFS2/yaffs_yaffs2.c:1347-1539 | The main result on recovery: whatever calls were made, whatever was collected, and at whatever moment power fails, the mount scan over the physical blocks rebuilds what RAM had of every file in step, and the file reads back byte for byte; if all were in step, the mounted device goes on from a valid state. |
| Recovery.MomentsQualify | YAFFS2/yaffs_yaffs2.c:1347-1539 | Every moment a run has passed through, one for each page and each erasure, is one at which power may fail. |
| Recovery.StaleHeaderLosesChunk | YAFFS2/yaffs_guts.c:2495-2501 | The case where it does not: a header copied between two chunk writes of one growing write hides the first chunk until the next header is written. |
| Recovery.UnsafeEraseRevives | YAFFS2/yaffs_yaffs2.c:119-134 | Why shrink headers are protected: erasing one while an older block holds a discarded page brings truncated data back. |
| Recovery.LostChunkRevives | YAFFS2/yaffs_yaffs2.c:1151-1194 | What a mount of a file out of step is worth: its table does not satisfy the invariant, and a later header brings the lost chunk back. |
| Recovery.RefusedWriteShows | YAFFS2/yaffs_guts.c:489-587 | A write that was refused although its page is readable: a mount always maps that page, RAM never does. |
| GcRule.CleanOlderHarmless | YAFFS2/yaffs_yaffs2.c:119-134 | The test at the selection of a block, no older block holds a discarded page, at any moment of a call: no shrink header of the block cuts off anything that stays, which later writes and erasures cannot change. |
| GcRule.EmptiedBlockIsSafe | YAFFS2/yaffs_guts.c:2980-2985 | So when its last live page is gone, whoever took it, the block may be erased. |
| GcRule.RamProgram | YAFFS2/yaffs_guts.c:3409-3415 | Programming a page keeps the block flags true: erasing a block that is not flagged, or is the candidate, removes no shrink header still needed. |
| GcRule.RamErase | YAFFS2/yaffs_guts.c:2310-2387 | Erasing a block keeps the flags of all others true. |
| DeviceLog.AcceptedIsClean | YAFFS2/yaffs_yaffs2.c:119-134 | What the counters of the device decide is what the log needs: if no full block with discarded pages is older than a flagged block, every page of every older block is live. |
| DeviceLog.Accepts | YAFFS2/yaffs_yaffs2.c:119-134 | The test run on the device: a block it accepts may be erased once empty, whatever is written or discarded until then. |
| DeviceLog.EmptyMayGo | YAFFS2/yaffs_guts.c:2980-2985 | A block whose bitmap has become empty may then be erased. |
| MountScan.YbicmpExact | YAFFS2/yaffs_yaffs2.c:921-932 | With 32-bit wrap-around the comparison puts two sequence numbers in their true order exactly when their difference lies within a signed 32-bit word. |
| MountScan.YbicmpWraps | YAFFS2/yaffs_yaffs2.c:921-932 | Two sequence numbers it puts in the wrong order. |
| MountScan.FindBlocks | YAFFS2/yaffs_yaffs2.c:1396-1446 | The table lists every block in use once, and no other. |
| MountScan.BlockTable | YAFFS2/yaffs_yaffs2.c:1396-1456 | Sorted by that comparison the table is the order in which the blocks were taken into use, for sequence numbers within one half of the range. |
| MountScan.ScanBlock | YAFFS2/yaffs_yaffs2.c:1481-1501 | Reading a block's pages last to first advances every object's scan by exactly that block's part of the log. |
| MountScan.ScanBackwards | YAFFS2/yaffs_yaffs2.c:1347-1539 | The scan over physical blocks in table order equals the backward reading of the whole log, for every object. |
| MountScan.CourseDone | YAFFS2/yaffs_yaffs2.c:1347-1539 | At its end each object's state is that of a scan of the log alone. |
| Nand.ProgramOrder | YAFFS2/yaffs_guts.c:407-457 | If every program hit a page above all those programmed since the block was erased, then between erasures pages are programmed in increasing order and none twice. |
| Nand.OrderIsProper | YAFFS2/yaffs_guts.c:407-457 | Conversely, increasing order at every earlier moment is proper use. |
| Nand.ErasedAbove | YAFFS2/yaffs_guts.c:296-320 | Pages at or above the last one programmed since the erasure read as erased. |
| Device.Device.Format | YAFFS2/yaffs_guts.c:4743-4762 | A freshly formatted device with any set of bad blocks satisfies the invariant. |
| Device.Device.FindAllocBlock | YAFFS2/yaffs_guts.c:361-405 | The round-robin search finds an erased block whenever the counter says there is one, and takes it into use with the next sequence number. |
| Device.Device.AllocChunk | YAFFS2/yaffs_guts.c:407-457 | The page given out is in no use, lies above all pages programmed in its block, and none is given exactly when no erased block is left or only the reserve is. |
| Device.Device.SkipRest | YAFFS2/yaffs_guts.c:476-487 | The block allocated from becomes full and no other block changes. |
| Device.Device.SummaryWrite | YAFFS2/yaffs_summary.c:118-176 | Summary pages take part in program order and free-space accounting, also when one of them fails; the block is marked as having a summary exactly if none fails. |
| Device.Device.SummaryAfter | YAFFS2/yaffs_summary.c:250-277 | The last data page of a block sets off the summary and closes the block; the page just written keeps its contents. |
| Device.Device.SummaryGc | YAFFS2/yaffs_summary.c:296-313 | A block to be collected has no summary page in use afterwards; nothing else in it changes. |
| Device.Device.WrChunkTags | YAFFS2/yaffs_nand.c:50-77 | What is on the page afterwards, by what the flash did: the data if the program was good or left it readable all the same. |
| Device.Device.HandleChunkError | YAFFS2/yaffs_guts.c:213-229 | A block not yet marked for early collection is marked and gets a strike; with the fourth it is due for retirement. |
| Device.Device.HandleWrError | YAFFS2/yaffs_guts.c:231-249 | After a failed write the page is given back and the rest of its block skipped; the block is marked for early collection with a strike more unless it was already, and is due for retirement exactly if it was, or the page had been found erased, or this is the fourth strike; emptied, it is erased, or retired if due or not erasable. |
| Device.Device.TryChunk | YAFFS2/yaffs_guts.c:512-575 | One attempt, by what the flash does: it succeeds exactly if a checked page was erased and reads back, or an unchecked one was programmed; then the page is written and in use, else it is given back, and a page found erased and then not written leaves its block due for retirement or dead. |
| Device.Device.WriteNewChunk | YAFFS2/yaffs_guts.c:489-587 | With retries on ever new pages: success means the page holds the data; failure means a flash fault or no space; nothing in the chunk map moves. |
| Device.Device.Retire | YAFFS2/yaffs_guts.c:593-633 | A retired block is dead with its marks cleared and never handed out again; everything mapped elsewhere is untouched. |
| Device.Device.BecameDirty | YAFFS2/yaffs_guts.c:2310-2387 | A block with nothing in use is erased and its table entry reset, keeping its strikes, or retired if it is due for that or the erasure failed. |
| Device.Device.ChunkDel | YAFFS2/yaffs_guts.c:2931-2987 | Giving back a page clears just its bit, erases its block if that was the last one and no shrink header protects it, and keeps counters and the oldest dirty number right. |
| Device.Device.GcProcessChunk | YAFFS2/yaffs_guts.c:2389-2531 | The live chunk is on a new page before the old one is given back: data reads the same; a header has the same other fields, no shrink and shadow marks, and the size its file has now. |
| Device.Device.CopyChunks | YAFFS2/yaffs_guts.c:2573-2588 | A pass copies the chunks it meets in order and stops early only at a failure or, in pieces, after the fifth. |
| Device.Device.GcBlock | YAFFS2/yaffs_guts.c:2533-2632 | Whole or in pieces, with any failures: every mapped chunk stays where and what it was, or reads as `GcProcessChunk` leaves it, and the block is erased only when nothing refers into it. The oldest dirty number stays right if it was not above the block's own, and is wrong afterwards if it was above, a summary is lost and no page is left. A whole pass without failures reclaims the block exactly if no page was left behind by an earlier one; else the collection stalls. |
| Device.Device.FindRefreshBlock | YAFFS2/yaffs_yaffs2.c:141-193 | The oldest full block, or none if none is full. |
| Device.Device.FindPrioritised | YAFFS2/yaffs_guts.c:2651-2665 | The first full block marked for early collection that passes the test: all before it, or all if there is none, fail. |
| Device.Device.FindDirtiest | YAFFS2/yaffs_guts.c:2718-2741 | The candidate kept from earlier calls, or one with fewer pages in use that passes the test. |
| Device.Device.SelectUrgent | YAFFS2/yaffs_guts.c:2651-2681 | A block marked for early collection that passes is taken; if all fail, the oldest dirty block; the mark that some are waiting is dropped exactly when none is. |
| Device.Device.SelectDirty | YAFFS2/yaffs_guts.c:2689-2765 | Otherwise the dirtiest block found, if it is dirty enough, or after a while the oldest dirty block. |
| Device.Device.SelectGcBlock | YAFFS2/yaffs_guts.c:2639-2792 | A full block is chosen that has a discarded page or is marked for early collection, the latter before all others; no full block with discarded pages is older than one chosen with a shrink header, unless it is the candidate kept from an earlier call. |
| Device.Device.ChooseBlock | YAFFS2/yaffs_guts.c:2856-2869 | The block under collection goes on; a new one, also one taken to refresh it, passes the test on shrink headers in the same sense. |
| Device.Device.CheckGc | YAFFS2/yaffs_guts.c:2804-2894 | Up to two rounds on one block keep the invariant and every chunk as `GcBlock` does, and the oldest dirty number on a device that is `Tame` for it, as every device without summaries is. Once a collection has stalled no call ever moves it on or starts another. |
| Device.Device.WrChunk | YAFFS2/yaffs_guts.c:2989-3043 | A chunk write collects, writes, links and gives back the old page: afterwards exactly that chunk has new contents and all others read as a collection may leave them; a shrink header protects its block and no other block becomes protected; on a `Tame` device the oldest dirty number is right. |
| Device.Device.DelChunk | YAFFS2/yaffs_guts.c:3691-3739 | Taking a chunk out of the map gives back its page and changes no other chunk. |
| Device.Device.ClearOldest | YAFFS2/yaffs_yaffs2.c:87-98 | The number tracked is dropped exactly if it is that of the block. |
| Device.Device.CalcOldest | YAFFS2/yaffs_yaffs2.c:42-70 | The number found is the least among full blocks with discarded pages. |
| Device.Device.BlockOkForGc | YAFFS2/yaffs_yaffs2.c:119-134 | With no number tracked a block with a shrink header passes exactly if some full block has discarded pages and none such is older; otherwise by comparison with the number tracked. Any other block passes. |
| Device.Device.CheckptErase | YAFFS2/yaffs_checkptrw.c:73-110 | No checkpoint block is left; each is erased, or given up if its erasure failed, with counters following. |
| Device.Device.CheckptInvalidate | YAFFS2/yaffs_yaffs2.c:777-785 | Afterwards no block counts as holding a checkpoint; nothing else is touched. |
| Device.Device.CheckptOpen | YAFFS2/yaffs_checkptrw.c:196-250 | Opens exactly if more blocks are erased than reserved; an old checkpoint is erased first. |
| Device.Device.FindErasedBlock | YAFFS2/yaffs_checkptrw.c:112-144 | The first erased block from the hint on, or none if there is none to spare. |
| Device.Device.CheckptFlush | YAFFS2/yaffs_checkptrw.c:261-316 | The page goes to the current block or opens the first erased one; the two counters run ahead by the blocks taken until the close. |
| Device.Device.CheckptClose | YAFFS2/yaffs_checkptrw.c:423-463 | Closing settles the counters: they equal their recounts again. |
| Device.Device.CheckpointSave | YAFFS2/yaffs_yaffs2.c:787-807 | A checkpoint of any length leaves every chunk and the oldest dirty number alone, and counters equal their recounts; one that is there already is kept. |
| Device.InvMeans | YAFFS2/yaffs_verify.c:111-162 | What the invariant kept by every operation comes to: pages programmed once and in order, counters equal recounts, used counts equal bitmap sizes, at most one block allocating, every mapped chunk on a page in use under its own tags, no page shared. |
| Device.Recount | YAFFS2/yaffs_guts.c:5042-5065 | The free-page counter equals the recount over all blocks whenever no checkpoint is being written. |
| Device.FlushInv | YAFFS2/yaffs_checkptrw.c:281-305 | While a checkpoint is being written the invariant holds with the counters ahead by exactly the checkpoint blocks. |
| Device.UntimelyExists | YAFFS2/yaffs_summary.c:296-313 | A device satisfying the whole invariant on which the next pass makes the oldest dirty number wrong. |
| Device.TameWithoutSummaries | YAFFS2/yaffs_summary.c:296-313 | Without summaries every device keeps its oldest dirty number right. |
| Bitmap.SetChunkBit | YAFFS2/yaffs_bitmap.c:58-64 | Adds exactly one page to the set the bytes stand for. |
| Bitmap.ClearChunkBit | YAFFS2/yaffs_bitmap.c:50-56 | Takes exactly one page out. |
| Bitmap.CheckChunkBit | YAFFS2/yaffs_bitmap.c:66-72 | Tells membership. |
| Bitmap.StillSomeChunks | YAFFS2/yaffs_bitmap.c:74-85 | Tells whether the set is empty. |
| Bitmap.CountChunkBits | YAFFS2/yaffs_bitmap.c:87-97 | Counts the set. |
| Tnode.FileMap.GetTnode | YAFFS2/yaffs_guts.c:702-714 | A fresh zeroed node, or null with nothing changed; no lookup changes. |
| Tnode.FileMap.FindTnode0 | YAFFS2/yaffs_guts.c:799-840 | The leaf reached is the one whose entry the tree has for the chunk; null means there is no entry. |
| Tnode.FileMap.AddFindTnode0 | YAFFS2/yaffs_guts.c:854-947 | Growing and filling in nodes changes no lookup; a leaf passed in replaces exactly the sixteen entries of its chunk ids; null only for want of memory or a chunk id out of range. |
| Tnode.FileMap.GrowTo | YAFFS2/yaffs_guts.c:882-898 | Each new top hangs the old tree under its first pointer and changes no lookup. |
| Tnode.FileMap.PutChunk | YAFFS2/yaffs_guts.c:854-947 | After storing one entry every other chunk id has what it had. |
| Tnode.FileMap.PruneWorker | YAFFS2/yaffs_guts.c:1711-1752 | Frees exactly the nodes without data, sparing the leftmost way if told to; every lookup is unchanged and the node count follows. |
| Tnode.FileMap.PruneTree | YAFFS2/yaffs_guts.c:1754-1794 | Pruning and shortening change no lookup, the leftmost way is never null, and afterwards the top has more than its first pointer. |
| Tnode.FileMap.SaveTnodes | YAFFS2/yaffs_yaffs2.c:445-479 | The records written are the leaves of the tree, each with the chunk id it starts at. |
| Tnode.FileMap.LoadTnodes | YAFFS2/yaffs_yaffs2.c:500-539 | A tree built from any list of leaves holds for every chunk id the last leaf given for it. |
| Tnode.SaveAndLoad | YAFFS2/yaffs_yaffs2.c:445-539 | Saved and rebuilt, the tree has the same entry for every chunk id whatever its height was; only want of memory stops it. |
| Tnode.RecordsRight | YAFFS2/yaffs_yaffs2.c:445-479 | A list of saved leaves covers only the chunk ids below the node it was taken from and holds what the tree holds. |
| Tnode.Shortened | YAFFS2/yaffs_guts.c:1775-1791 | Dropping a top that uses only its first pointer leaves a tree with the same entries and one node fewer. |
| TnodeHeap.PathUpdate | YAFFS2/yaffs_guts.c:854-947 | Changing the subtree at the node on the way to a chunk changes lookups only below that node, and the node set only by that subtree. |
| PackedLeaf.Load | YAFFS2/yaffs_guts.c:731-760 | Stores the given bits at the entry's place, over a word boundary if need be, and changes no other bit. |
| PackedLeaf.Get | YAFFS2/yaffs_guts.c:762-789 | Fetches the entry's bits, also when they straddle two words. |
| PackedLeaf.LoadThenGet | YAFFS2/yaffs_guts.c:731-789 | Stored then fetched gives the value back, cut to the width; the other entries are unchanged, for every width below 32. |
| ShortOpCache.Files.Create | YAFFS2/yaffs_guts.c:2116-2191 | A new file is empty and no other file changes. |
| ShortOpCache.Files.FlushFileCache | YAFFS2/yaffs_guts.c:1383-1425 | Writing out a file's dirty entries changes nothing any file holds, and leaves it no dirty entry. |
| ShortOpCache.Files.UseCache | YAFFS2/yaffs_guts.c:1544-1567 | The entry used has the latest time stamp; when the clock starts anew all stamps but the first entry's are reset. |
| ShortOpCache.Files.GrabChunkCache | YAFFS2/yaffs_guts.c:1471-1520 | The entry handed out is free or clean, so nothing cached is lost; one in use is taken only if none is free, and it is the one used longest ago. |
| ShortOpCache.Files.FindChunkCache | YAFFS2/yaffs_guts.c:1523-1541 | Finds the entry of a chunk exactly if there is one. |
| ShortOpCache.Files.InvalidateChunk | YAFFS2/yaffs_guts.c:1571-1581 | Afterwards the chunk is read from flash; nothing else changes. |
| ShortOpCache.Files.InvalidateWhole | YAFFS2/yaffs_guts.c:1586-1598 | A flushed file leaves the cache without a change in what it holds. |
| ShortOpCache.Files.FileRd | YAFFS2/yaffs_guts.c:3430-3507 | Reads what a byte array would, zeros past its end, through any mixture of cached, partial and whole chunks; nothing any file holds changes. |
| ShortOpCache.Files.WrPiece | YAFFS2/yaffs_guts.c:3578-3663 | Bytes written into one chunk, cached, written through or direct, change just those bytes of that file; a piece that finds no space, on any of these ways, changes none. |
| ChunkView.DropLoses | YAFFS2/yaffs_guts.c:3655-3663 | A whole chunk that finds no space still drops its cached copy: that loses nothing exactly if flash holds the same, as it does for every clean copy. |
| ShortOpCache.Files.DoFileWr | YAFFS2/yaffs_guts.c:3509-3680 | The bytes done are in place, nothing else changed, the size is at least their end; short only if space was refused. |
| ShortOpCache.Files.WrFile | YAFFS2/yaffs_guts.c:3682-3687 | The file is the byte array after a zero-extending write; other files are untouched; without a refusal everything is written. |
| ShortOpCache.Files.HandleHole | YAFFS2/yaffs_yaffs2.c:832-914 | Filling or not filling the gap changes no byte of any file. |
| ShortOpCache.Files.PruneChunks | YAFFS2/yaffs_guts.c:3691-3739 | What is deleted is exactly the file's bytes from the first whole chunk past the cut on. |
| ShortOpCache.Files.ResizeFileDown | YAFFS2/yaffs_guts.c:3741-3769 | The file is zero from the cut on, also inside the chunk it falls into. |
| ShortOpCache.Files.ResizeFile | YAFFS2/yaffs_guts.c:3771-3807 | The file is the byte array cut or extended with zeros; other files are untouched. |
| ShortOpCache.Files.FlushWholeCache | YAFFS2/yaffs_guts.c:1432-1451 | Afterwards flash alone holds what every file holds. |
| ChunkView.StoreEntry | YAFFS2/yaffs_guts.c:3613-3631 | New data in a cache entry, written through or left dirty, changes what that one chunk holds, and cache and flash stay consistent. |
| ChunkView.FlushEntry | YAFFS2/yaffs_guts.c:1409-1418 | Writing an entry to flash and freeing it changes nothing any file holds. |
| ChunkView.PatchEdits | YAFFS2/yaffs_guts.c:3509-3680 | Patching part of a chunk is editing those bytes of the file. |
| ShortOpCache.TextWrite | YAFFS2/yaffs_guts.c:3682-3687 | Edited bytes and the new size make up the byte array after a plain write. |
| ShortOpCache.TextCut | YAFFS2/yaffs_guts.c:3771-3807 | Clearing from the cut on makes up the byte array cut to the new size. |
| CheckptStream.Stream.OpenWrite | YAFFS2/yaffs_checkptrw.c:196-250 | Opens exactly if there is space; then nothing on flash starts like a checkpoint and the stream is empty. |
| CheckptStream.Stream.CheckptErase | YAFFS2/yaffs_checkptrw.c:73-110 | No checkpoint block is left; each is erased or given up, the counter follows those erased, and only their pages are gone. |
| CheckptStream.Stream.Wr | YAFFS2/yaffs_checkptrw.c:318-346 | The stream on flash and in the buffer is extended by just these bytes, with checksums to match; it fails only when every erased block is taken. |
| CheckptStream.Stream.FlushBuffer | YAFFS2/yaffs_checkptrw.c:261-316 | One more page with the buffer's bytes, headed by page number and checksums of all bytes before it, lies where a reader will look next. |
| CheckptStream.Stream.CloseWrite | YAFFS2/yaffs_checkptrw.c:423-463 | All bytes written are on flash, in just enough pages for them and one byte more; the counter of erased blocks goes down by those taken. |
| CheckptStream.Stream.FindErasedBlock | YAFFS2/yaffs_checkptrw.c:112-144 | The first erased block from the hint on; without one the search is over for good. |
| CheckptStream.Stream.OpenRead | YAFFS2/yaffs_checkptrw.c:196-250 | The reader stands before the first byte. |
| CheckptStream.Stream.FindBlock | YAFFS2/yaffs_checkptrw.c:146-194 | The first block from the hint on whose first page is a checkpoint page, as long as the limit is not used up. |
| CheckptStream.Stream.ReadPage | YAFFS2/yaffs_checkptrw.c:385-407 | A page is taken into the buffer exactly if its number and header match, checksums included, and the place moves on by one page. |
| CheckptStream.Stream.Rd | YAFFS2/yaffs_checkptrw.c:348-421 | Within the stream the bytes returned are the next ones written. |
| CheckptStream.Stream.CloseRead | YAFFS2/yaffs_checkptrw.c:423-463 | The blocks found count as checkpoint blocks again. |
| CheckptStream.Save | YAFFS2/yaffs_checkptrw.c:196-346 | A checkpoint written in any pieces and closed is wholly on flash; it fails only when no erased block is left to take. |
| CheckptStream.Restore | YAFFS2/yaffs_checkptrw.c:348-421 | A saved stream comes back in pieces of any lengths, byte for byte, if it lies in no more blocks than the reader looks for. |
| CheckptStream.SaveAndRestore | YAFFS2/yaffs_checkptrw.c:196-463 | The round trip: any pieces in, any other pieces out, the same bytes. |
| CheckptStream.AlteredStops | YAFFS2/yaffs_checkptrw.c:49-61 | With one byte of what was read so far altered, the header of the next page does not match, and reading stops. |
| CheckptStream.BlocksCountedExact | YAFFS2/yaffs_checkptrw.c:423-430 | The reader counts the writer's blocks if and only if the stream did not end exactly at the end of a block, where the writer's close spends one more block. |
| CheckptImage.ImageMore | YAFFS2/yaffs_checkptrw.c:261-316 | A page programmed at the next place keeps all earlier pages readable and extends the image by one. |
| CheckptImage.OneByteTold | YAFFS2/yaffs_checkptrw.c:332-333 | Each of the two running checksums tells any one altered byte. |
| Mailbox.Mbox.constructor | lwip/sys_arch.c:180-207 | An empty ring with every slot free. |
| Mailbox.Mbox.AcquireFree | lwip/sys_arch.c:209-213 | A poster passes the semaphore only while a slot is free. |
| Mailbox.Mbox.TryAcquireFree | lwip/sys_arch.c:226-232 | A try-post fails exactly when no slot is free, without effect. |
| Mailbox.Mbox.Insert | lwip/sys_arch.c:214-221 | The message enters the ring last, and no waiting message is overwritten. |
| Mailbox.Mbox.Announce | lwip/sys_arch.c:223 | The message is announced to one fetcher. |
| Mailbox.Mbox.AcquireQueued | lwip/sys_arch.c:260-267 | A fetcher passes only while a message is announced; a time-out has no effect. |
| Mailbox.Mbox.Take | lwip/sys_arch.c:269-281 | The message taken is the one longest in the ring, and the ring is never found empty. |
| Mailbox.Mbox.Free | lwip/sys_arch.c:283 | The slot is given back to one poster. |
| Mailbox.Mbox.FirstInFirstOut | lwip/sys_arch.c:209-285 | At every moment of every interleaving messages have come out in the order they went in, none lost, doubled or overwritten; a fetcher past its semaphore finds a message and a poster past its own a free slot. |
| Mailbox.Mbox.InsideIsEnabled | lwip/sys_arch.c:209-285 | A thread past its semaphore never waits: it has a slot to fill or a message to take, and the semaphore it signals is below the number of slots. |
| Mailbox.Mbox.NeverStuck | lwip/sys_arch.c:209-285 | When both semaphores are used up some thread is inside a call and its next step can be taken at once. |
| Mailbox.Mbox.CountsAtRest | lwip/sys_arch.c:209-285 | With no call under way the semaphores count messages and free slots exactly. |
| Quicksort.Sort | YAFFS2/yaffs_qsort.c:83-163 | Every array is left sorted and rearranged in place, for every comparison that is a total preorder on its values; recursion on one side and the loop on the other end. |
| Quicksort.SortRound | YAFFS2/yaffs_qsort.c:90-160 | One round either sorts the run or settles everything before the part still to do. |
| Quicksort.Gather | YAFFS2/yaffs_qsort.c:147-151 | The two block exchanges turn equal-at-the-ends into less, equal, greater. |
| Quicksort.Med3IsMedian | YAFFS2/yaffs_qsort.c:71-76 | The middle one really is a median of the three. |
| Ecc.EccCalcOther | YAFFS2/yaffs_ecc.c:205-229 | The loop computes the column and line parities of the block. |
| Ecc.EccCorrectOther | YAFFS2/yaffs_ecc.c:231-281 | The correction in place agrees with the verdict on the two codes, in result, data and stored code. |
| Ecc.FlipTraced | YAFFS2/yaffs_ecc.c:205-229 | Each flipped bit, in data or code, adds its own fixed trace to the difference of the codes. |
| Ecc.OneFlipRepaired | YAFFS2/yaffs_ecc.c:231-281 | Any one flipped bit of data or code is repaired, for every block length up to 2^32. |
| Ecc.TwoFlipsReported | YAFFS2/yaffs_ecc.c:231-281 | Any two flipped bits are reported and nothing is touched. |
| Ecc256.EccCalc | YAFFS2/yaffs_ecc.c:72-131 | The loop computes the three code bytes of a 256-byte block. |
| Ecc256.ErasedCode | YAFFS2/yaffs_ecc.c:72-131 | The code of an erased block is what an erased page holds. |
| Ecc256.EccCorrect | YAFFS2/yaffs_ecc.c:135-200 | The correction in place agrees with the verdict on the three deltas, in result, data and stored code. |
| Ecc256.FlipTraced | YAFFS2/yaffs_ecc.c:72-131 | Each flipped bit, in data or code, adds its own fixed trace to the difference of the codes. |
| Ecc256.OneFlipRepaired | YAFFS2/yaffs_ecc.c:135-200 | Any one flipped bit of a 256-byte block or its 22 meaningful code bits is repaired. |
| Ecc256.TwoFlipsReported | YAFFS2/yaffs_ecc.c:135-200 | Any two of them are reported and nothing is touched. |
| PackedTags.HeaderRoundTrip | YAFFS2/yaffs_packedtags2.c:75-158 | Header tags with extra information come back whole. |
| PackedTags.PlainRoundTripExact | YAFFS2/yaffs_packedtags2.c:75-158 | Plain tags come back as written exactly if the sequence number is not the erased pattern and the chunk id leaves its top bit clear. |
| PackedTags.UnpackTags2 | YAFFS2/yaffs_packedtags2.c:160-197 | The packed bytes are repaired in place and then unpacked, with the verdict. |
| PackedTags.TagsSurviveFlip | YAFFS2/yaffs_packedtags2.c:160-197 | Tags survive any one flipped bit of the spare area that does not make the page look erased. |
| PackedTags.TagsReportTwoFlips | YAFFS2/yaffs_packedtags2.c:160-197 | Two flipped bits are reported. |
| PackedTags.FlipErasesExact | YAFFS2/yaffs_packedtags2.c:165-190 | One flip can make a page look erased exactly if its sequence number has fewer than two zero bits, never below 0x7fffffff. |
| NameVal.Find | YAFFS2/yaffs_nameval.c:32-55 | Finds the record of a name among those the scan sees, or tells that there is none. |
| NameVal.Used | YAFFS2/yaffs_nameval.c:57-71 | The length of the records the scan sees. |
| NameVal.Del | YAFFS2/yaffs_nameval.c:73-87 | Deletes the one record of the name and nothing else. |
| NameVal.Set | YAFFS2/yaffs_nameval.c:89-127 | On any buffer, also with a record hidden at its end: a name that can be read and is to be created is refused, one that cannot be read and is to be replaced is missing, and otherwise space decides, counting the room of the record replaced; on success the record is the last one, and it ends inside the buffer if and only if the room was reckoned right; bytes past the buffer are touched only without an int's room to spare. |
| NameVal.Get | YAFFS2/yaffs_nameval.c:129-165 | The value and its length, or the length alone, or the right error. |
| NameVal.List | YAFFS2/yaffs_nameval.c:167-203 | The names in order, each with its terminator, up to the first that does not fit. |
| NameVal.SetThenGetExact | YAFFS2/yaffs_nameval.c:89-165 | Other names keep their values, but a hidden record comes back if the name was there and is lost if not; the name set can be read back if and only if its record stops short of the buffer's end. |
| NameVal.RoomMisreckoned | YAFFS2/yaffs_nameval.c:104-116 | A buffer on which the room is not reckoned right: setting the first of two records that fill the buffer to one byte more is accepted and goes past the end. |
| NameVal.DelRemovesOne | YAFFS2/yaffs_nameval.c:73-87 | Deleting removes one name; all others read as before. |
| NameVal.IntRoundTrip | YAFFS2/yaffs_nameval.c:38-50 | Record sizes survive being stored as four bytes. |
| Handles.OpenFiles.constructor | YAFFS2/yaffsfs.c:129-147 | Empty tables, all counts right. |
| Handles.OpenFiles.NewHandle | YAFFS2/yaffsfs.c:273-290 | A free handle if there is one. |
| Handles.OpenFiles.NewHandleAndFileDes | YAFFS2/yaffsfs.c:292-316 | A free handle always finds a free descriptor. |
| Handles.OpenFiles.GetHandle | YAFFS2/yaffsfs.c:324-333 | One use more of a handle in use. |
| Handles.OpenFiles.PutInode | YAFFS2/yaffsfs.c:261-271 | One reference fewer; with the last one the object is unhooked, and deleted if it was unlinked. |
| Handles.OpenFiles.PutFileDes | YAFFS2/yaffsfs.c:341-358 | One reference fewer; with the last one the inode is put. |
| Handles.OpenFiles.PutHandle | YAFFS2/yaffsfs.c:360-373 | One use fewer; with the last one the descriptor is put. |
| Handles.OpenFiles.GetInodeIdForObject | YAFFS2/yaffsfs.c:212-237 | Always succeeds: inodes cannot run out before handles do. |
| Handles.OpenFiles.Open | YAFFS2/yaffsfs.c:793-1035 | Opening yields a new handle leading to the object, or fails only for want of the object, permission or a handle; handles in use are untouched. |
| Handles.OpenFiles.Dup | YAFFS2/yaffsfs.c:755-781 | A second handle on the same descriptor. |
| Handles.OpenFiles.Close | YAFFS2/yaffsfs.c:1104-1130 | One use fewer of one handle; an unlinked object is gone exactly when no handle leads to it any more. |
| Handles.OpenFiles.Unlink | YAFFS2/yaffsfs.c:1497-1552 | An open object lives on until its last close, any other is deleted at once. |
| Handles.OpenedByHandle | YAFFS2/yaffsfs.c:156-185 | An object is open exactly if some handle in use leads to it. |
| Handles.CountsFit | YAFFS2/yaffsfs.c:69-103 | No count exceeds the number of handles, so none outgrows its bit field. |
| Handles.FdFree | YAFFS2/yaffsfs.c:292-316 | With a free handle there is a free descriptor. |
| Handles.InodeFree | YAFFS2/yaffsfs.c:212-237 | With a descriptor that names no inode there is a free inode. |

## Left out

- FileSystem.Fs.WrFile: data goes straight to the log; a header written while cached data is still dirty is outside the log model, and the cache is a model of its own.
- FileSystem.Fs.DoFileWr: a write that was refused although its last attempt has left a readable page is not a step of the model, because a mount then maps a page RAM does not (`Recovery.RefusedWriteShows`); attempts of that kind before one that succeeds are.
- FileSystem.Fs.UpdateOh: plain headers may be refused; the shrink header of a hole, the headers of an unlink and a deletion, and the rewritten last chunk of a truncation are taken to find a page in the reserve, and a shrink header is written without a readable failed attempt.
- FileSystem.Fs.HandleHole: sizes are limited to what a tnode tree can address; whether a small hole is filled or not is nondeterministic, because it depends on free space.
- FileSystem.Fs.CheckGc: which blocks are looked at and how many pages a call copies is nondeterministic; the test at the selection reads the pages' liveness, which `DeviceLog.AcceptedIsClean` ties to the counters the code compares.
- FileSystem.Fs.Mount: the erasure of blocks found with nothing in use during the scan is left to the next collection; a block whose erasure was cut short by a power failure is not modelled; deleting what was found unlinked is `DelFile`.
- FileSystem.Fs.ResizeFile: a file that a mount found unlinked may hold bytes past its size, and its text is promised only while it does not (`Blank`).
- FileSystem.Fs.Program: what the data area of a header holds is not modelled.
- FileSystem.Fs.UnlinkOpen: names, directories, parents other than the unlinked and deleted ones, links, shadowing, attributes and times are not modelled.
- Device.Device.CheckGc: how far the search goes, what is dirty enough and when a refresh is due are nondeterministic; the block number tracked as oldest dirty, and the candidate kept in gc_dirtiest, are used only while they name a full block with a discarded page, which the code takes for granted.
- Device.Device.GcBlock: files to be deleted for good once their block is collected belong to soft deletion and are not modelled.
- Device.Device.HandleWrError: strikes come from failed writes only, not from corrected or failed reads.
- Device.Device.Format: a mount of a device with blocks in use is modelled over the log, not over the block table; a page is a pair of block and page number, the block table a sequence in a field.
- Device.Device.WriteNewChunk: the number of attempts is finite but arbitrary; contents are whole pages, their tags the key.
- Device.Device.CheckpointSave: bytes and checksums are in the stream model, here a checkpoint is a number of pages.
- Tnode.FileMap.GetTnode: addresses of freed nodes are not handed out again; a node is a value at an address.
- Tnode.FileMap.PutChunk: entries are numbers; their packing into words is `PackedLeaf`. Chunk groups larger than one are not modelled.
- ShortOpCache.Files.WrPiece: a direct write of a whole chunk that finds no space is left out where its cached copy holds what flash does not (`ChunkView.DropLoses`); how many bytes of a chunk its tags claim is part of the log model only; a flush that fails would lose data and is not modelled.
- ShortOpCache.Files.GrabChunkCache: entries are locked only while bytes are copied, so the lock is not kept.
- CheckptStream.Stream.Wr: the header of a page is kept beside the buffer, not in its first bytes, and offsets count the bytes after it; page programs of a checkpoint are taken to succeed, as the code does not look at their result.
- CheckptStream.Stream.CloseWrite: closing after a failed open is not modelled.
- CheckptStream.Stream.CloseRead: restored block counts are those of the blocks read; `CheckptStream.BlocksCountedExact` says when these are all.
- Mailbox.Mbox.Insert: freeing a mailbox and the limit on their number are not modelled; critical sections are atomic steps.
- Quicksort.Sort: elements are array elements with a comparison function; swapping by longs or bytes is not modelled.
- Ecc.EccCalcOther: the column parity table is given by its eight single-bit entries and linearity.
- PackedTags.UnpackTags2: inband tags and tags without ECC are not modelled.
- NameVal.Set: whatever it writes has to be in memory, up to four bytes past the record, because copying the name pads that far; integers are little-endian.
- Handles.OpenFiles.Open: paths, sharing and mode checks are one nondeterministic answer; directory handles, flags and positions are not modelled.
- Handles.OpenFiles.GetHandle: the use count of a handle is unbounded.
- Handles.OpenFiles.Close: a forced unmount, which breaks the handles of a device, is not modelled.
- YAFFS1 mode, soft deletion, inband tags, lazy loading, background collection, read-error handling and the chip driver are not part of this model, nor is anything outside YAFFS2 and the lwIP mailbox.
