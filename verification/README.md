# Verified models of the storage, debug-probe and interrupt code

This project models the hardest parts of the firmware in Dafny and proves what they are for: the littlefs core
(`library/lfs`), the CMSIS-DAP engine (`library/cmsis-dap`), the shared interrupt handlers of the SDK
(`SDK/hardware/irq.c`) and the stream search of the Arduino layer. `dafny verify dfyconfig.toml` checks everything. Code
that changes state is modelled as classes and methods with the source's loops; each is proved against a specification on
values, about which the promised properties are proved as lemmas.

**littlefs, file data.** `Bits`, `CtzIndex`: the closed form that finds a byte in a skip list gives the only place that
the block capacities allow. `SkipList`: searching, traversing and extending a list on a device of blocks. `FileData`,
`File`: a file object over such a list, the copying of `lfs_file_flush` included, behaves as a byte array with a cursor
over every run of seek, read, write and flush, and never alters a block that is in use. `Allocator`: the lookahead
window. `BlockCache`: the read and program caches against plain blocks of bytes.

**littlefs, metadata.** `MetaLog`: a log of tags, its forward meaning (insert an id, delete an id, set an attribute) and
the backward search. `TagWord`, `MetaBlock`: the same log as 32-bit tags and bytes, XOR-chained, and the backward walk
over the bytes. `Compaction`: the filter of `lfs_dir_traverse` and the splitting recursion. `Crc`: the nibble-table
checksum as division by the generator polynomial of IEEE 802.3-2018 (section 3.2.9). `Fetch`: the scan finds the longest
prefix of checked commits. `CommitLog`: the writer of commits with its checksum framing. `Atomicity`: any run of
commits, torn ones, and the choice between the two blocks of a pair. `CompactedBlock`: all of it together, from the log
in one block through compaction into another block, a fetch and lookups there. `SplitBlocks`: from the bytes of one
block, read forward, through splitting into as many blocks as it takes. `GState`: the global state that all directories
carry a part of; `StateEntry`: that part as an entry of a directory's log.

**CMSIS-DAP.** `Jtag`: a chain of TAP controllers (section 6.1 of IEEE 1149.1-2001) driven by the probe's clock
sequences. `Dap`: the pipelined executor of transfer requests against one access at a time (chapter B4 of Arm ADIv5.2,
IHI 0031). `Swo`: the trace ring that interrupts fill while commands empty it.

**Others.** `IrqChains`: handler chains in a pool of slots that are data and code at once (encoding T2 of B, section
A6.7.10 of the ARMv6-M Architecture Reference Manual); `IrqRuns`: the same over whole runs. `StreamFind`: the table-free
walk back of `findMulti` against naive search. `Words`: byte orders and small facts about slices.

## What does not hold

Four promises of the code hold only under a condition; each comes with the exact condition and a concrete failure.

- Global state: a commit that drops its directory block while the pending move is in that block records the move as
  finished on the device and keeps it in memory, since `lfs_dir_commit` then returns by way of `lfs_dir_drop`, whose
  commit looks for the move in another pair. The XOR of all stored parts equals the state in memory if and only if an
  even number of dropped directories held the move (`GState.Diverges`). It takes no loss of power to get there: a rename
  to another directory leaves the two unequal if and only if the file was the only one of a block that continues a
  directory (`GState.Filesystem.Rename`, `RenameDiverges`). After a loss of power between the two commits of such a
  rename the commit of `lfs_fs_demove` does the same (`DemoveDiverges`).
- Removing the tail of a handler chain: `irq_add_tail_to_free_list` looks for the slot that links to the tail in the
  whole pool, where the link of a removed tail is half of an instruction. It unlinks the right slot if and only if no
  slot before it has that number in this place (`IrqChains.Reaches`). Up to seven slots it never goes wrong
  (`SmallPoolReaches`); with 15 slots it can (`SelfDecoy`), and additions, one removal and the return from the interrupt
  lead there from the initial pool (`IrqRuns.Misled`).
- Adding a handler while a removed tail still executes: the walk of `irq_add_shared_handler` ends where the new handler
  belongs if and only if some slot of the chain, the tail included, has a priority that is not above the new one
  (`IrqChains.Stops`, `WalkIsRight`). Otherwise it takes half of the instruction in the tail for a link (`PassesTail`),
  and which number that is depends only on how far the tail is from the end of the pool (`TailLinkIs`). If it is
  negative, the walk ends behind the tail (`EndsBehindTail`); the call that would unlink the tail is then overwritten by
  a branch to the new slot, and the removed handler is called again (`TailRevived`). If it is not, the walk leaves the
  pool, as it always does in a pool of up to seven slots (`LeavesPool`), or comes to some slot of the pool, and then it
  may never end (`GoesRound`). The half word that stands in the place of the tail's priority is 0xf8 or more, so that a
  tail that is alone stops the walk for no smaller priority (`AloneStops`).
- Room in a compaction: the size of the entries that `lfs_dir_compact` takes to fit is at most 36 bytes less than the
  block, or half a block. The first of these leaves 28 bytes for what is written besides (`Compaction.RoomLeaves`), but
  a tail and a global state need 32 with the revision count. If a program unit is a whole block, files that are taken to
  fit together can so be refused, although each of them has room in a block of its own (`RoomTooSmall`).

One more condition is a limit of the format: the id that the backward walk of a lookup goes on with has to fit into ten
bits (`MetaLog.Stays`). It does for every file of a well-formed log that never holds more files than there are ids, if
names that make a file without a creation come before all deletions, as in logs that a compaction began (`FilesStay`).

## Model

| member | source | states |
|---|---|---|
| Bits.CtzDivides | library/lfs/lfs_util.h:131-137 | 2 to the power of the trailing-zero count divides the number, with an odd quotient |
| Bits.CtzAfterStep | library/lfs/lfs_util.h:131-137 | going back by 2^k from an index that has a pointer k leaves an index with k trailing zeros, or with more if k was the last pointer |
| Bits.PopcBound | library/lfs/lfs_util.h:140-148 | a number below 2^k has at most k one bits |
| Bits.Log2Bounds | library/lfs/lfs_util.h:114-127 | the exponent that lfs_npw2 rests on is that of the highest one bit |
| Bits.AlignBounds | library/lfs/lfs_util.h:105-112 | aligning gives multiples, less than one unit away on the right side |
| CtzIndex.StartClosed | library/lfs/lfs.c:2133-2144 | the summed capacities of the blocks before n have the closed form with the popcount of n - 1 |
| CtzIndex.SecondQuotient | library/lfs/lfs.c:2135-2141 | the second quotient is the first one or one less, and brackets the position |
| CtzIndex.IndexCorrect | library/lfs/lfs.c:2133-2144 | for blocks of 128 bytes or more and every 32-bit position, the closed form gives a block and offset that hold the byte |
| CtzIndex.HoldsUnique | library/lfs/lfs.c:2133-2144 | no two places hold the same byte |
| CtzIndex.IndexIsTheOnlyPlace | library/lfs/lfs.c:2133-2144 | a place is the one that the closed form returns if and only if the summed capacities put the byte there |
| SkipList.SearchStep | library/lfs/lfs.c:2159-2170 | a step of the search never overshoots the target and always spends some of a logarithmic budget of reads |
| SkipList.Storage.Find | library/lfs/lfs.c:2146-2179 | on a well-formed list the search returns the block and offset of the byte, over a way of at most 2(floor(log2(head index)) + 1) pointers from the last block |
| SkipList.Storage.Traverse | library/lfs/lfs.c:2282-2323 | every block of the list is reported exactly once, from the last to the first |
| SkipList.Storage.WriteHeader | library/lfs/lfs.c:2240-2267 | the pointers that a fresh block n gets, each read through the one before, lead to blocks n - 2^k |
| SkipList.Storage.Extend | library/lfs/lfs.c:2181-2272 | a well-formed list with the same first bytes and room for the next one, as a copy of the partial last block or a fresh block; all other blocks are untouched; out of space exactly if every block is live |
| SkipList.FrameList | library/lfs/lfs.c:2181-2272 | writing a block outside a list leaves the list as it was |
| FileData.FrameFile | library/lfs/lfs.c:2598-2676 | writing a block outside a file's list changes neither the list nor its bytes |
| FileData.TakeFile | library/lfs/lfs.c:2885-2895 | the blocks up to the one found for byte pos - 1 are the list of the first pos bytes |
| FileData.ExtendStores | library/lfs/lfs.c:2181-2272 | extending a list keeps the bytes that it stored |
| FileData.AppendStores | library/lfs/lfs.c:2918-2945 | programming behind the last byte appends to what the list stores |
| File.FileObject.Read | library/lfs/lfs.c:2744-2822 | the bytes of the in-memory contents from the cursor on, clipped at the end, with the cursor moved behind them; out of space only if every block is in use, and then nothing is lost |
| File.FileObject.Flush | library/lfs/lfs.c:2598-2676 | the branch that writes went to becomes the saved list, with what followed it copied; contents and cursor are kept, also when it runs out of space, which it does only if every block is in use |
| File.FileObject.CopyRest | library/lfs/lfs.c:2611-2641 | the copy behind the branch reads the saved list and changes neither the contents nor the saved list; out of space only if every block is in use |
| File.FileObject.Write | library/lfs/lfs.c:2824-2953 | the contents are patched at the cursor, zeros filling a gap; too big if and only if the end passes the limit; out of space only if every block is in use, and then a first part has been written; blocks of the saved list are untouched |
| File.FileObject.FillGap | library/lfs/lfs.c:2853-2865 | a cursor behind the end leaves zeros between the end and it, or a part of them if every block is in use |
| File.FileObject.Seek | library/lfs/lfs.c:2955-2988 | the cursor goes to the target if that lies between zero and the limit, and stays where it is otherwise; contents stay, and out of space happens only if every block is in use |
| File.SeekWrap | library/lfs/lfs.c:2968-2985 | the 32-bit sum passes the limit check exactly when the true sum lies in range, and then they are equal |
| File.SeekMeans | library/lfs/lfs.c:2955-2988 | seeking to the start, back from the end, to the end, and back from the cursor: all is read, the last bytes are read, writes append, and the same bytes are read again |
| File.Run | library/lfs/lfs.c:2598-2988 | any run of seek, read, write and flush gives the replies, contents and cursor of the same run on a byte array, and succeeds if the device has more blocks than those in use elsewhere and twice those of the greatest length; it alters no block in use elsewhere |
| File.FullMeans | library/lfs/lfs.c:2181-2199 | if every block is in use, there are no more than those in use elsewhere and those of two lists, the saved one and the branch |
| File.BlocksOfFile | library/lfs/lfs.c:2146-2179 | the number of blocks that success is stated with is that of the list of a file of this size |
| Allocator.MappingsInverse | library/lfs/lfs.c:436-455 | the bit that a traversal sets for a block is the bit that the scan tests for it |
| Allocator.ScanComplete | library/lfs/lfs.c:448-490 | a scan of as many blocks as there are comes to every block |
| Allocator.ScanDistinct | library/lfs/lfs.c:448-490 | and to none of them twice |
| Allocator.Lookahead.Fill | library/lfs/lfs.c:479-486 | the window moves on by its size, is never longer than what the ack budget allows, and marks exactly the blocks in use |
| Allocator.Lookahead.Alloc | library/lfs/lfs.c:448-491 | a found block was not in use when its window was filled, has not been found since, acks or not, and is not in use now if what is in use was so at the fill or was found since; out of space only if every block was found in use or returned since the ack; the budget always covers the rest of the window |
| Allocator.Lookahead.Ack | library/lfs/lfs.c:493-495 | a new budget of all blocks, after which the earlier ones may be returned again |
| MetaLog.SlotsOfFiles | library/lfs/lfs.c:633-643 | all names are one slot of a file and all structs another one, and each user attribute is one of its own |
| MetaLog.ReplayLooks | library/lfs/lfs.c:523-555 | what an entry does to the files is what a backward step makes of it |
| MetaLog.LookupIsReplay | library/lfs/lfs.c:499-558 | the backward search gives, for every slot of every id, the type, size and data that the forward replay with inserted and deleted ids computes |
| MetaLog.CountIsFiles | library/lfs/lfs.c:890-908 | the count of the scan is the number of files after every entry |
| MetaLog.FilesStay | library/lfs/lfs.c:525-536 | in a well-formed log with ids for all its files, the search for a file never leaves the ten bits of an id |
| MetaLog.SuperblockFirst | library/lfs/lfs.c:1019-1020 | in the log of the root directory, searches for the names of files do not come to the superblock, which their mask leaves out |
| TagWord.XorBack | library/lfs/lfs.c:513-523 | from a stored word and either tag of a pair, the other tag comes back |
| TagWord.RoundIsStep | library/lfs/lfs.c:523-555 | one round of the loop on 32-bit words, with its masks and the difference gtag - gdiff, is one step of the search on entries |
| TagWord.MatchesKey | library/lfs/lfs.c:538-538 | comparing masked words is comparing slot and id, with each of the masks 0x7ff, 0x700 and 0x780 |
| TagWord.RoundDifference | library/lfs/lfs.c:525-536 | a round on gdiff is a round on the difference gtag - gdiff |
| TagWord.RoundKeepsOthers | library/lfs/lfs.c:538-546 | a round of a lookup never carries from the id into the type, or borrows from it |
| TagWord.FoundTag | library/lfs/lfs.c:538-553 | the tag that a lookup returns has the id that was asked for, and the type and size of the entry |
| MetaBlock.LastEntry | library/lfs/lfs.c:1200-1243 | where the last entry of a log lies in a block, and what bytes it has |
| MetaBlock.DecodesPrevious | library/lfs/lfs.c:513-523 | the backward walk decodes the tags of the forward chain in reverse order |
| MetaBlock.Get | library/lfs/lfs.c:499-558 | the walk over the bytes returns the entry that the search on entries finds: its type and size, its data cut or padded to the size asked for, and the id that was asked for; or nothing |
| MetaBlock.AnswersReplay | library/lfs/lfs.c:499-558 | on a well-formed log that is the type, size and data that the forward replay computes |
| Compaction.FilterScan | library/lfs/lfs.c:704-716 | the nested traversal applies the filter to all later tags |
| Compaction.Traverse | library/lfs/lfs.c:656-755 | the entries passed on are those that survive all later ones, with the ids they have in the end, counted from begin |
| Compaction.FilterInvertsWalk | library/lfs/lfs.c:628-654 | a tag survives with a final id exactly if a search for its slot at that id comes back to its original id |
| Compaction.FilterStaysBelowCount | library/lfs/lfs.c:648-651 | an adjusted id stays below the number of files, so it never outgrows its field |
| Compaction.EmitKeepsLookups | library/lfs/lfs.c:628-755 | the compacted log answers every lookup in its range with the type, size and data of the original |
| Compaction.EmittedCount | library/lfs/lfs.c:1627-1632 | a later scan counts exactly end - begin files |
| Compaction.HoldConcat | library/lfs/lfs.c:1385-1416 | head and tail of a split, at whatever id, hold together what the whole range held |
| Compaction.RoomLeaves | library/lfs/lfs.c:1458-1466 | the room that the loop compares with leaves 28 bytes for revision count, tail and global state, or what half a block leaves |
| Compaction.RoomTooSmall | library/lfs/lfs.c:1458-1466 | two files that are taken to fit into a block of 512 bytes, program units being whole blocks, and do not, although each of them does |
| Compaction.Target.Compact | library/lfs/lfs.c:1436-1485 | however it splits, the chain of written pairs answers every lookup as the log did, each part fits into a block, and the recursion ends; what fits stays together; it succeeds if there is a pair for every id but the first, and a block has room for the entries of any single id |
| Compaction.Target.Split | library/lfs/lfs.c:1385-1416 | the upper ids go to a new pair, or to several of them, at most one for each id; it succeeds under the same condition |
| Compaction.Target.WriteOut | library/lfs/lfs.c:1541-1586 | out of space if and only if header and entries pass the end of the block |
| Crc.Update | library/lfs/lfs_util.c:17-33 | the loop over the bytes computes the checksum function |
| Crc.NibbleIsFourBits | library/lfs/lfs_util.c:28-29 | a step with the table of 16 words is four reflected division steps |
| Crc.CrcIsDivision | library/lfs/lfs_util.c:17-33 | on bit-reversed registers it is bit-at-a-time division by 0x04c11db7 |
| Crc.CrcConcat | library/lfs/lfs_util.c:17-33 | checksums compose over concatenation |
| Crc.OwnChecksum | library/lfs/lfs.c:1297-1319 | a register that meets its own little-endian value becomes zero |
| Crc.ChecksumPasses | library/lfs/lfs.c:1297-1319 | data followed by its checksum has checksum zero, so a faithful write passes the check |
| Fetch.Agree | library/lfs/lfs.c:802-946 | two logs read from one block agree as far as both go |
| Fetch.NothingLonger | library/lfs/lfs.c:822-849 | no log that ends with a commit goes past the place where the scan stops |
| Fetch.Fetch | library/lfs/lfs.c:788-946 | offset, last tag, count, tail and split are those of the fold over the longest prefix of commits with valid checksums; erased if and only if that ends with a program unit and no valid tag follows; tail and split as TailOfLog says |
| Fetch.TailOfLog | library/lfs/lfs.c:902-918 | the tail is the first eight data bytes of the last entry that names one, and it continues the directory if and only if that is a hard tail; without such an entry there is none |
| Fetch.RoomAfter | library/lfs/lfs.c:826-835 | behind an entry of a committed log there is room for the checksum to come |
| CommitLog.FrameScanned | library/lfs/lfs.c:802-946 | what follows a log in its block does not matter to it |
| CommitLog.NextIsInvalid | library/lfs/lfs.c:1261-1288 | the word behind a commit is no valid tag after it, whatever erased flash read as when the commit was made |
| CommitLog.SegmentBounds | library/lfs/lfs.c:1254-1259 | every checksum tag covers 4 to 0x3fe bytes, and leaves room for another one or ends the commit |
| CommitLog.Writer.Append | library/lfs/lfs.c:1743-1751 | the set-up behind a fetched log |
| CommitLog.Writer.Compact | library/lfs/lfs.c:1541-1571 | the set-up at the start of an erased block, the revision count included |
| CommitLog.Writer.Attr | library/lfs/lfs.c:1200-1219 | the entry is added to the log if and only if it fits before the end; otherwise nothing changes |
| CommitLog.Writer.AttrFromDisk | library/lfs/lfs.c:1221-1242 | the same with data copied from a block |
| CommitLog.Writer.WriteChecksums | library/lfs/lfs.c:1245-1289 | the first loop ends at the end of a program unit, every segment up to it sums to zero, and the last tag makes the next word invalid |
| CommitLog.Writer.CheckChecksums | library/lfs/lfs.c:1297-1326 | the second loop cuts the block at the same places, and accepts if and only if every segment sums to zero |
| CommitLog.Writer.Crc | library/lfs/lfs.c:1245-1329 | the commit ends less than a program unit behind its last checksum, passes its own check, and is the longest log that a scan of the block finds |
| Atomicity.OneResult | library/lfs/lfs.c:788-946 | a scan has one result only |
| Atomicity.TornCommit | library/lfs/lfs.c:788-946 | a commit that stops before a valid checksum leaves exactly the state before it |
| Atomicity.OldOrLonger | library/lfs/lfs.c:788-946 | whatever gets written behind a fetched log, or into a block without one, a scan finds exactly the state before or a log that goes on behind it and ends with a valid checksum |
| Atomicity.Append | library/lfs/lfs.c:1741-1810 | an appended commit is found by a scan, with the offset and tag that the directory keeps, and the next commit can follow; it fits or fails as a whole; what was there before is never altered |
| Atomicity.Compact | library/lfs/lfs.c:1541-1632 | the same for a commit into the other block of the pair |
| Atomicity.Run | library/lfs/lfs.c:1741-1810 | after any run of commits the scan finds all their attributes in order; it succeeds if and only if each commit, from the program unit where the last one ended, leaves room for a checksum |
| Atomicity.PlainMeansTheSame | library/lfs/lfs.c:1245-1290 | checksums in a log do not change what it means |
| Atomicity.CommitMeans | library/lfs/lfs.c:1741-1810 | behind a commit the log means what it meant before, and then the attributes |
| Atomicity.ReadsBack | library/lfs/lfs.c:499-558 | every lookup in a committed block is that of a replay of all attributes ever committed to it |
| Atomicity.CountIsReplay | library/lfs/lfs.c:890-908 | the 16-bit count that a scan reports is the number of files of the replay |
| Atomicity.NextIsNewer | library/lfs/lfs_util.h:152-154 | the next revision count is newer, wrap-around included |
| Atomicity.FetchPair | library/lfs/lfs.c:765-800 | the state of a pair comes from the newer block that has a commit; corrupt only if neither has one |
| Atomicity.OldUntilCommitted | library/lfs/lfs.c:765-800 | until the rewritten block has a complete commit, the pair stands for the old log, whatever the revision counts read as |
| Atomicity.NewOnceCommitted | library/lfs/lfs.c:1487-1488 | from then on it stands for the new one |
| CompactedBlock.EmitIsEntries | library/lfs/lfs.c:656-755 | the words that a traversal passes on are the entries of the compacted log, and can be committed |
| CompactedBlock.WrittenKeeps | library/lfs/lfs.c:1573-1617 | the log that was written answers every lookup with the type, size and data of the old one, tail and global state notwithstanding |
| CompactedBlock.Rewrite | library/lfs/lfs.c:1531-1639 | from the log in one block to another block: a fetch of it finds a log that can be searched, in which every lookup gives the same type, size and data; it fails if and only if the entries do not fit |
| SplitBlocks.ReadForward | library/lfs/lfs.c:656-683 | the forward walk over the bytes of a block decodes exactly the entries of its log, data included |
| SplitBlocks.CompactInto | library/lfs/lfs.c:1436-1632 | however it splits, each part is in a block where a fetch finds it, all parts together answer every lookup as the log did, and blocks that were not taken are untouched; what fits stays together; it succeeds if there is a block for every id but the first, and a block has room for the entries of any single id |
| SplitBlocks.SplitOff | library/lfs/lfs.c:1442-1485 | the loop leaves a range for the pair itself and has written the rest into other blocks, and the range fits if there is a block for every id |
| SplitBlocks.SplitInto | library/lfs/lfs.c:1385-1416 | the upper ids go to the next block, or to several of them, under the same condition |
| SplitBlocks.CompactDirectory | library/lfs/lfs.c:1436-1632 | from bytes to bytes: the log in one block and the attributes of a commit become blocks in which every lookup is answered as behind these attributes |
| GState.MeetsIs | library/lfs/lfs.c:240-246 | two pairs compare as equal if and only if they have a block in common |
| GState.SetsMove | library/lfs/lfs.c:361-367 | XOR-ing a state with itself and a move leaves that move and the orphans |
| GState.MoveMeans | library/lfs/lfs.c:361-367 | the tag of a pending move has the type of a deletion and the id of the file, and the pair is the file's; without an id nothing of a move is left |
| GState.CountsOrphans | library/lfs/lfs.c:3958-3964 | the pending state counts the orphans, and its flag says whether there are any |
| GState.Filesystem.PrepMove | library/lfs/lfs.c:3966-3971 | the pending move is set, and the stored parts still add up to the state minus the change noted |
| GState.Filesystem.PrepOrphans | library/lfs/lfs.c:3958-3964 | the same for orphans |
| GState.Filesystem.WriteBehind | library/lfs/lfs.c:1768-1786 | one directory takes over the noted change |
| GState.Filesystem.WriteCompacted | library/lfs/lfs.c:1533-1677 | directory and new tails together take over the noted change, tails compacted first; each continues with the next one, and the last one as the directory did |
| GState.Filesystem.Commit | library/lfs/lfs.c:1679-1820 | the stored parts add up to the state in memory afterwards, if and only if no divergence happened on the way; the directory has as many files as creations, deletions and the pending move come to, or as a compaction says, and all others what they had; a directory takes over the continuation of those dropped behind it |
| GState.Filesystem.Drop | library/lfs/lfs.c:1366-1383 | the dropped directory's part, its tail and its continuation move to the one before it, with the same exact condition |
| GState.Filesystem.MarkDeorphaned | library/lfs/lfs.c:4066-4068 | no orphans are left, and the sum and the pending move are kept |
| GState.Filesystem.Mount | library/lfs/lfs.c:3690-3706 | what a mount collects is the sum of the stored parts, and one orphan if their flag says that there are any |
| GState.StoredIsState | library/lfs/lfs.c:3690-3706 | while the sum is kept, the next mount finds the state in memory, except for the number of orphans |
| GState.DivergenceShows | library/lfs/lfs.c:1718-1739 | a divergence is a real difference, and only a divergence is one |
| GState.Filesystem.Rename | library/lfs/lfs.c:3252-3276 | after the two commits of a rename to another directory the stored parts add up to the state in memory, if and only if the second one does not drop the block that it empties; either may be written behind the log, or by a compaction and a split; one directory has a file more and the other one less |
| GState.RenameDiverges | library/lfs/lfs.c:3252-3276 | a file system of two blocks in which a rename leaves them unequal |
| GState.DemoveDiverges | library/lfs/lfs.c:3973-3998 | the state between the two commits of that rename, from which the commit of lfs_fs_demove leaves them unequal |
| StateEntry.MatchesState | library/lfs/lfs.c:538-538 | under a mask without an id the comparison is that of types |
| StateEntry.GetState | library/lfs/lfs.c:510-556 | the walk over the bytes returns what the last entry of the global state says, whatever was created or deleted since |
| StateEntry.AddState | library/lfs/lfs.c:992-1008 | the directory's contribution is added to the state |
| StateEntry.CommitState | library/lfs/lfs.c:1768-1786 | a commit with a new entry makes that the contribution, and any other commit keeps the old one, checksums notwithstanding |
| StateEntry.Append | library/lfs/lfs.c:1743-1800 | after the commit a scan finds a log whose contribution is the former one and the noted change; it fails if and only if attributes, entry and checksum do not fit |
| BlockCache.LoadCovers | library/lfs/lfs.c:76-94 | with a hint of at least one, what is loaded covers the position asked for |
| BlockCache.Store.Read | library/lfs/lfs.c:30-102 | bytes of the program cache where it covers, device bytes elsewhere; the read cache stays coherent; an error exactly past the end of the block |
| BlockCache.Store.ReadSome | library/lfs/lfs.c:40-99 | a round yields correct bytes, or a load after which the next round does |
| BlockCache.Store.Compare | library/lfs/lfs.c:104-125 | the result is the order of the two byte strings |
| BlockCache.Store.Flush | library/lfs/lfs.c:127-158 | the pending bytes are on the device, padded with ones to a program unit, and nothing else changed |
| BlockCache.Store.Sync | library/lfs/lfs.c:160-172 | the same, and the read cache is coherent again |
| BlockCache.Store.Prog | library/lfs/lfs.c:174-218 | seen through the cache, the block has the data in its place and is otherwise as it was |
| BlockCache.Store.ProgramAndSync | library/lfs/lfs.c:160-218 | after any run of contiguous programs from an aligned offset and a sync, the device holds their concatenation, padded, and nothing else changed |
| Jtag.Wire.Clock | library/cmsis-dap/JTAG_DP.c:36-76 | one clock for a chain of TAP controllers: the shift path is always what was captured and shifted in |
| Jtag.BitsOfValue | library/cmsis-dap/JTAG_DP.c:190-230 | bits put together are the bits taken apart again |
| Jtag.Probe.Configure | library/cmsis-dap/DAP.c:560-590 | the stored counts are the sums of the lengths before and after each device |
| Jtag.Probe.ConfigureDescribes | library/cmsis-dap/DAP.c:560-590 | with the true lengths, these counts describe the chain |
| Jtag.Probe.IR | library/cmsis-dap/JTAG_DP.c:115-152 | the selected device has the low bits of the instruction, every other one all ones, from and to Run-Test/Idle, in as many clocks as the registers have bits and six more |
| Jtag.OneSelected | library/cmsis-dap/JTAG_DP.c:115-152 | so a data scan reaches the register of the selected device only, unless the instruction is itself all ones |
| Jtag.Probe.Transfer | library/cmsis-dap/JTAG_DP.c:159-251 | the acknowledge of the selected device is returned; an acknowledged write leaves direction, address and data in exactly its 35-bit register, as a number of 35 bits, an acknowledged read returns its 32 data bits; the number of clocks is exact, idle cycles included |
| Jtag.RequestValue | library/cmsis-dap/JTAG_DP.c:159-251 | the bits that a request shifts in are RnW, the address and the data, lowest bits first |
| Jtag.AckMeans | library/cmsis-dap/JTAG_DP.c:176-181 | OK and WAIT of a JTAG-DP are returned as the numbers that they have on an SW-DP |
| Jtag.Probe.ReadIDCode | library/cmsis-dap/JTAG_DP.c:267-297 | the 32 bits that the selected device captured, in 37 clocks and one for each device before it |
| Jtag.Probe.WriteAbort | library/cmsis-dap/JTAG_DP.c:303-342 | the data with a zero header is in exactly the selected device's register, after 39 clocks and one for each device |
| Dap.RequestByte | library/cmsis-dap/DAP.h:141-146 | the fields of a request byte are bits 0 to 5 of it, and nothing else is |
| Dap.DummyTransfer | library/cmsis-dap/DAP.c:1200-1231 | the bytes consumed are those of all requests |
| Dap.Probe.Retry | library/cmsis-dap/DAP.c:700-707 | the last acknowledge within the number of tries; one access if it is OK, none otherwise |
| Dap.Probe.Transfer | library/cmsis-dap/DAP.c:657-916 | OK if and only if every access of the pipeline is acknowledged in the end; then words, order and target state are those of one request at a time, and as many bytes are consumed as by the dummy |
| Dap.Probe.TransferBlock | library/cmsis-dap/DAP.c:1267-1357 | the accesses, words and target state of that many equal transfer requests, whatever the match bits of the request are; the count has its low byte first |
| Dap.ReplyBytes | library/cmsis-dap/DAP.c:1302-1357 | the words of a reply follow each other, the lowest byte of each first |
| Dap.ReplyRoundTrip | library/cmsis-dap/DAP.c:1302-1357 | a host that reads little-endian words out of the reply gets the words read from the target |
| Dap.PipelineGrows | library/cmsis-dap/DAP.c:657-916 | an access that fails on the way is one that the whole command needs |
| StreamFind.WalkedBack | arduino/arduino/Stream.cpp:282-314 | the largest place that works on the way back is the longest prefix that ends the stream |
| StreamFind.MultiTarget.WalkBack | arduino/arduino/Stream.cpp:282-314 | the loop finds that place, and the byte completes no occurrence |
| StreamFind.MultiTarget.Advance | arduino/arduino/Stream.cpp:269-315 | after each byte the index is the length of the longest proper prefix that ends the bytes read, or the target is complete |
| StreamFind.FindMulti | arduino/arduino/Stream.cpp:256-319 | the lowest-numbered target that completes at the earliest position, or -1 exactly if the input ends without any of them |
| StreamFind.FindUntil | arduino/arduino/Stream.cpp:92-123 | found if and only if the target occurs and the terminator does not occur before its end; the input is read to the end of the target, or else to the first end of the terminator, or else completely |
| StreamFind.AtOnce | arduino/arduino/Stream.cpp:106-123 | an empty terminator ends every search for a nonempty target at once |
| Swo.PlaceOf | library/cmsis-dap/SWO.c:724-728 | the place of a byte in the ring can be computed from its 32-bit index |
| Swo.BlockFits | library/cmsis-dap/SWO.c:125-130 | a block up to the next multiple of the block size never wraps around in the ring |
| Swo.Distance | library/cmsis-dap/SWO.c:372-399 | differences of wrapped indices are the true distances |
| Swo.Trace.Complete | library/cmsis-dap/SWO.c:108-134 | the next block starts, contiguous and up to the next block boundary, if and only if all of it has room; otherwise the capture pauses |
| Swo.Trace.Arrive | library/cmsis-dap/SWO.c:108-134 | a byte from the wire is captured exactly if a receive is under way, keeps every unread byte in place, and ends the receive only if the ring is full |
| Swo.Trace.GetTraceCount | library/cmsis-dap/SWO.c:372-399 | at least the bytes received at the call and no more than those received by now, under any interrupts |
| Swo.Trace.Resume | library/cmsis-dap/SWO.c:341-368 | a paused capture with room goes on |
| Swo.Trace.Data | library/cmsis-dap/SWO.c:697-734 | the next received bytes, in order and once, and all of them if the reply has room; afterwards the capture is paused only if the ring is full |
| Swo.Trace.Control | library/cmsis-dap/SWO.c:569-601 | starting begins an empty trace and a receive that only a full ring ends; stopping loses nothing of the trace |
| Swo.Trace.StopUart | library/cmsis-dap/SWO.c:229-255 | the bytes of the unfinished block are counted |
| Swo.Trace.Session | library/cmsis-dap/SWO.c:569-734 | over any run of commands and interrupts, what was handed out since the start is a prefix of what was captured; after a last read that leaves room, an active capture receives, if no burst is as long as the ring |
| IrqChains.ResolveMade | SDK/hardware/irq.c:149-171 | resolve_branch undoes make_branch for every target in range |
| IrqChains.BranchesReach | SDK/hardware/irq.c:149-164 | within the largest pool all branches are in range |
| IrqChains.TailCalls | SDK/hardware/irq.c:157-164 | the instruction at the end of a removed tail, read half from link and priority, calls the code that unlinks it |
| IrqChains.InsertChain | SDK/hardware/irq.c:225-264 | data links, instructions and priorities of the chain are right after an insertion at any place |
| IrqChains.Irq.constructor | SDK/hardware/irq_handler_chain.S:33-54 | the initial pool is all free |
| IrqChains.Irq.FindPlace | SDK/hardware/irq.c:225-232 | where the walk along links and priorities ends, if it ends in the pool |
| IrqChains.Irq.Add | SDK/hardware/irq.c:196-268 | pool, links and instructions stay consistent if and only if the walk is stopped in the chain; then the calls of the interrupt are the old ones with the new handler behind all of a higher priority, and nothing changes for other interrupts |
| IrqChains.Irq.Remove | SDK/hardware/irq.c:270-365 | exactly the first call of the handler is gone, and the rest is in order; the slot stays in its chain if and only if it is the last one and its interrupt is executing |
| IrqChains.Irq.DropTail | SDK/hardware/irq.c:386-414 | the pool is consistent afterwards if and only if the search for the slot before the tail is not misled; then no call changes |
| IrqChains.DecoyIsTail | SDK/hardware/irq.c:398-404 | only a removed tail, by its instruction, can look like a link to another tail |
| IrqChains.SmallPoolReaches | SDK/hardware/irq.c:398-404 | in a pool of up to seven slots the search always finds the right slot |
| IrqChains.SelfDecoy | SDK/hardware/irq.c:398-404 | in a pool of 15 slots the removed tail 13 behind slot 14 links to itself, and is found first |
| IrqChains.WalkIsRight | SDK/hardware/irq.c:225-232 | the walk ends where the new handler belongs, if and only if some slot of the chain stops it |
| IrqChains.PassesTail | SDK/hardware/irq.c:225-232 | otherwise it goes on with the number that stands in the place of the removed tail's link |
| IrqChains.TailLinkIs | SDK/hardware/irq.c:157-164 | that number, and when it is negative, by the distance of the tail from the end of the pool |
| IrqChains.EndsBehindTail | SDK/hardware/irq.c:230-230 | with a negative one the walk ends behind the tail |
| IrqChains.TailRevived | SDK/hardware/irq.c:241-258 | then the tail calls its handler and goes on to the new slot, and nothing unlinks it |
| IrqChains.LeavesPool | SDK/hardware/irq.c:225-232 | in a pool of up to seven slots the walk leaves the pool |
| IrqChains.GoesRound | SDK/hardware/irq.c:225-232 | in a pool of 15 slots with the tail in slot 13 it never ends |
| IrqChains.AloneStops | SDK/hardware/irq.c:225-232 | the half word in the place of the priority of a removed tail is 0xf8 or more, and the walk to a tail that is alone ends in front of it exactly if that is not above the new priority |
| IrqRuns.AllSlots | SDK/hardware/irq.c:196-365 | every slot is free or in one chain, and none is lost |
| IrqRuns.EntersRight | SDK/hardware/irq_handler_chain.S:33-61 | the first two instructions of a slot load the address of its own handler, and make it return to the third one |
| IrqRuns.Execute | SDK/hardware/irq_handler_chain.S:33-70 | the instructions of a chain, from the first slot on, call the handlers of all of its slots in order, save the return address of the interrupt once, and end with its return or the call that unlinks a removed tail |
| IrqRuns.Run | SDK/hardware/irq.c:196-414 | in a pool of any size, any run of additions, removals and returns from interrupts, up to the first one whose condition for the pool (a slot and a walk that is stopped, no removed tail, a search that is right) does not hold, keeps the pool in order and calls what the same run on lists of calls comes to; up to seven slots no return fails that condition |
| IrqRuns.Misled | SDK/hardware/irq.c:386-414 | a run from the initial pool of 15 slots after which the pool is out of order |

## Left out

littlefs:
- Bad blocks: erasing and programming never fail, so the retry and relocation loops of lfs_ctz_extend, lfs_file_write and lfs_dir_compact are not modelled, nor is wear levelling and superblock expansion.
- Commit fallback: an append that does not fit reports so; starting a compaction after it, and the second XOR of the directory's part of the global state that this brings, are not modelled.
- Moves: FROM_MOVE, FROM_USERATTRS and FROM_NOOP attributes, and the pending move that lookups, scans and traversals hide from the log, are not modelled.
- MetaBlock.Get: models lookups from the start of the data only, not the slices at an offset that inline files read; a search for names (mask 0x780) must not come to the name of a superblock.
- Fetch.Fetch: does not model the search for a name during the scan, nor the seed for random numbers that it updates.
- StateEntry.Append: the fallback to a compaction is not modelled, as for all commits.
- Compaction.Target.Compact: takes the room that header, tail and global state need as a parameter, and allocates pairs from a counter. SplitBlocks.CompactInto takes these entries themselves and blocks in place of the allocator.
- SplitBlocks.CompactInto: the tail, the global state and the revision count of each part are parameters, by the first id of the part; only the block written of each pair is modelled.
- CommitLog.Writer.Crc: needs room for the first checksum, which lfs_dir_commitattr guarantees if it wrote anything.
- Atomicity.Append: models directories with erased space; the source also appends when the count is 0xff or more.
- Atomicity.Compact: says nothing about what is in the block behind the revision count when the attributes do not fit.
- GState.Filesystem.Rename: replacing a directory, which is orphaned first and dropped behind the two commits, is not modelled.
- GState.Filesystem.Commit: relocation is not modelled, and the list of directories is in the order in which their tails lead to each other.
- File.FileObject: the device is flat (caches are in BlockCache), files are neither inline nor opened for appending, and truncate, sync, the size query and the error flag are not modelled.
- File.FileObject.Write: writes of less than 2^31 bytes, whose sizes fit the signed result.
- SkipList.Storage.Alloc: finds a block outside the live set whenever there is one. Allocator.Lookahead.Alloc gives such a block under its stated condition, that all live blocks were live at the last fill of the window or found since; but a block that was freed since it was looked at counts as used until the scan comes back to it, so that lfs_alloc may report no space although one block is free.
- Allocator.Lookahead: the bitmap is an array of truth values instead of 32-bit words.
- BlockCache.Store: the block number that stands for inline data is not modelled.
- CtzIndex: blocks of less than 128 bytes, for which one correction of the quotient need not be enough.
- Path names, directories, mounting beyond the global state, formatting, attributes and the migration from version 1.

CMSIS-DAP:
- Jtag.Probe: timestamps, raw sequences, delays and the registers that a failed transfer leaves behind.
- Dap.Probe.Transfer: reads that wait for a match.
- Dap.Probe: abort requests, timestamps, what is answered after a failed access, and the JTAG variant of the executor.
- Swo.Trace: streaming transport, Manchester mode, error flags, timestamps, changes of mode or baud rate, and failures of the driver; a pause in the time between the start of the receiver and the setting of the status is overwritten, so nothing is promised about when such a capture goes on.

Others:
- IrqChains.Irq.Add: needs, as IrqChains.Irq.FindPlace does, that the walk ends in the pool; IrqChains.LeavesPool and IrqChains.GoesRound show walks that do not.
- IrqChains.Irq.Remove: needs that no removed tail of the same interrupt still executes; the source expects the handler removed during an interrupt to be the one that executes.
- IrqChains: locks, interrupt enables, the slot index by multiplication with an inverse, and the thumb bit; entries of the vector table are a datatype.
- StreamFind: characters are unsigned bytes, and a timeout is the end of the input.
- Drivers of the SDK, USB, the SD card, clocks, printing, memory allocation, and `String`.
