# Verified models of the esp32-compat storage and transport code

Dafny models of the stateful core of `libraries/esp32-compat`, with proofs of what that core is
relied on for. `dafny verify dfyconfig.toml` checks all of it within its default limits.

- **littlefs, metadata.** `MetaLog` says what a log of tags means: an ordered list of entries with
  their attributes. `Traverse` is the walk with filter and explicit stack that commits and
  compactions share, `Compaction` and `CompactionExact` what it does to that meaning, `CompactionOutput`
  what it writes out, `WellFormedLogs` and `EntryOrder` that logs stay well-formed. Below that are the
  bytes: `Crc32`, `TagWord`, `MetaBlock` (what a block's bytes hold), `MetaFetch`, `MetaLookup`,
  `CommitWriter`, `MetaCommit`, and `MetaPair`, the two-block protocol with power failing anywhere.
  `CoreLog` and `LogReaders` say what of a log its readers see, `PairCommit` what a commit means from one
  block of bytes to the next.
- **littlefs, global state.** `GlobalState` keeps the exclusive-or of all pairs' differences through
  commits, compactions and drops, and makes renames across pairs atomic.
- **littlefs, blocks and files.** `Allocator` (lookahead window and countdown), `Bits`, `CtzIndex` and
  `CtzList` (the skip list), `FileBlocks` and `FileWriter` (copy-on-write files), `BlockCache` (read and
  program cache), `TailWalk` (cycle detection on arbitrary disk contents), `Alignment`.
- **The rest of the library.** `PartitionTable` (A/B slots and the boot library), `UsbCdc` (OUT
  back-pressure), `HciTransport` (queues and H4 parser), `EasyFlash` and `Preferences` (keys as files,
  typed namespaced values), with `Ring` shared by the two transports, `Bytes` and `Octets` by all that
  store bytes, and `Wrappers`.

Code that updates state is modelled by classes and methods with loops; each is proved against a function
of the state before, and the promises are proved about those functions and as invariants over runs.

Some results are about where the code does not keep a promise. A removal queued after a list of user
attributes is dropped by the compaction filter while the list is not (`RemovalAfterQueueIsLost`; exactly
when that happens is `KeptUnlessItComesBack`; no queue that littlefs builds itself has that order,
`QueuesAreOrdered`). A second partition update without a restart erases the slot in use
(`SecondUpdateIsNotAtomic`), and an age that wraps around leaves the old table selected
(`RewriteIsAtomic`). A push that fills an HCI queue to the brim empties it (`Queue.Push`), and an ACL
payload over 255 bytes stops the parser for good (`ParsePacket`). Programming without validation leaves
stale bytes in a read cache that holds what is written (`BlockCache.Cached.Prog` says exactly when;
`ReadStale`); commits announce erased space that lies ahead, which is not in the way (`NotInTheWay`).
After a write that found no free block, a sync reports success and commits nothing until a later write
succeeds (`FileWriter.File.RawSync`). Clearing a namespace with a slash takes names of others along, and
the other way round (`ApartIsExact`). Deleting the empty key or the key `.` of an empty store removes its
directory, and nothing can be stored until the next initialisation (`EasyFlash.Store.DelEnv`).

Assumptions. Checksums of torn data are taken not to match: in `MetaPair`, every commit that is read from a
block whose writing was cut was written through its checksum (`Genuine`; `AppendTorn` and `CompactTorn`
derive it from where the writing stopped); in `PartitionTable`, a slot that was erased or partly written is
`Torn`. Flash programs what it is told. The sizes are those `lfs_init` asserts: read and program size divide
the cache size, that divides the block size, and blocks have at least 128 bytes; the read size divides the
program size, as in `port_file_littlefs.c`. In `GlobalState`, a commit changes the entries and the stored
difference of a pair in one step of the history; that they cannot come apart when power fails is
`MetaPair.RunKeepsDirectory`, and that they are what the commit was to write is `PairCommit.Commit`.

## Model

| member | source | states |
|---|---|---|
| MetaLog.SearchIsReplay | libraries/esp32-compat/src/lfs/lfs.c:686-746 | For every log, id and class mask, following the id backward through creates and deletes finds exactly the latest attribute that replaying the whole log forward leaves on the entry with that id, or finds that there is none. |
| MetaLog.CountIsEntries | libraries/esp32-compat/src/lfs/lfs.c:1212-1219 | In a well-formed log, the count that names and splices add up to is the number of entries, and it fits the id field. |
| MetaLog.StaysWellFormed | libraries/esp32-compat/src/lfs/lfs.c:2231-2237 | Changes that a directory can take, one after the other, keep its log well-formed. |
| MetaLog.EntriesFit | libraries/esp32-compat/src/lfs/lfs.c:363-365 | An entry of a well-formed log, followed back to its creation, never has an id beyond the ten bits of a tag. |
| Traverse.FilterByUserAttrs | libraries/esp32-compat/src/lfs/lfs.c:817-847 | The loop over a list of user attributes applies the filter of each in order, stopping where the code stops. |
| Traverse.FilterOne | libraries/esp32-compat/src/lfs/lfs.c:1021-1043 | One item seen by a suspended filter level changes what is still to be output exactly as the recursive filter says. |
| Traverse.Fetch | libraries/esp32-compat/src/lfs/lfs.c:894-957 | Reading the next item of a level, and pushing a filter level for it if the level goes by id, loses and adds no output, keeps the stack within two frames, and brings the walk closer to its end. |
| Traverse.Perform | libraries/esp32-compat/src/lfs/lfs.c:960-1043 | An item through the filter contributes what the recursive walk emits for it; a queued move pushes one level more, never a third. |
| Traverse.Resume | libraries/esp32-compat/src/lfs/lfs.c:1046-1065 | Popping a level goes on with the item the level below was suspended on. |
| Traverse.Run | libraries/esp32-compat/src/lfs/lfs.c:877-1069 | The loop with its explicit stack of two frames terminates and outputs exactly what the recursive walk does: filtered, shifted, with moves and user attributes expanded in place. |
| Compaction.FilterIsSearch | libraries/esp32-compat/src/lfs/lfs.c:817-847 | The forward filter and the backward search are inverse: a tag survives the rest of the input with id k exactly if a search from k through that rest arrives at the tag. |
| Compaction.WalkSearch | libraries/esp32-compat/src/lfs/lfs.c:877-1069 | A search in the output of a filtering walk finds what a search in its input finds, for every class and id in range, but for removals dropped together with what they removed. |
| Compaction.CompactionKeepsMeaning | libraries/esp32-compat/src/lfs/lfs.c:1940-1975 | Whatever was looked up in the log with its queue is found in the compacted log: same attribute or none, for every class and entry of [begin, end), ids counted from 0. |
| CompactionExact.WalkSearchExactly | libraries/esp32-compat/src/lfs/lfs.c:877-1069 | What a reader of the output finds, for every input and with no condition on its order: what the input says; but of a dropped removal, what the queued requests alone say. |
| CompactionExact.KeptUnlessItComesBack | libraries/esp32-compat/src/lfs/lfs.c:1964-1971 | For every log and queue, an attribute reads the same before and after a compaction if and only if it is not so that the last word on it is a removal, something follows that, and the last word of the queued requests alone is a value. |
| Compaction.QueuesAreOrdered | libraries/esp32-compat/src/lfs/lfs.c:3404-3410 | The queues of a sync, a rename and an attribute change hold no removal behind a request, so compacting them keeps their meaning. |
| Compaction.RemovalAfterQueueIsLost | libraries/esp32-compat/src/lfs/lfs.c:817-847 | A concrete queue (set an attribute through a list, remove it, write other data) whose compaction brings the removed attribute back. |
| Compaction.CompactionKeepsCount | libraries/esp32-compat/src/lfs/lfs.c:1964-1971 | If the last entry of the range has a name, a fetch of the compacted log counts end - begin entries. |
| Compaction.OutputShape | libraries/esp32-compat/src/lfs/lfs.c:1964-1971 | A compacted log holds no splices, only attributes on ids of the renumbered range. |
| Compaction.AppendWritesMeaning | libraries/esp32-compat/src/lfs/lfs.c:2231-2237 | The walk of an append writes out exactly what the queue means. |
| Compaction.MoveKeepsAttributes | libraries/esp32-compat/src/lfs/lfs.c:990-1020 | The attributes a queued move copies are, class by class, those its source entry has. |
| Compaction.MeaningIsUpdated | libraries/esp32-compat/src/lfs/lfs.c:1940-1975 | Log and queue read as one are the log's directory changed by the queue. |
| Compaction.Append | libraries/esp32-compat/src/lfs/lfs.c:2231-2237 | The log with the walked queue behind it replays to the directory changed by the queue. |
| CompactionOutput.DuplicatesExactly | libraries/esp32-compat/src/lfs/lfs.c:817-1069 | For every input: two tags of the output set the same class of the same entry if and only if an item that gets through says it twice, or says what a later item that is heard in the output says again. |
| CompactionOutput.OutputHasNoDuplicates | libraries/esp32-compat/src/lfs/lfs.c:817-847 | Without queued requests, no two tags of the output set the same class of the same entry: superseded tags are gone. |
| CompactionOutput.LogIsNotRepeated | libraries/esp32-compat/src/lfs/lfs.c:817-847 | In front of a queue whose moves only bring what the filter knows of, the tags of the log are never doubled: only the queue itself can be at fault. |
| CompactionOutput.SyncIsNotDoubled | libraries/esp32-compat/src/lfs/lfs.c:3404-3410 | Compacting any log with the queue of a sync, whose list names each type once, doubles nothing. |
| CompactionOutput.RenameIsNotDoubled | libraries/esp32-compat/src/lfs/lfs.c:3985-3992 | Compacting any log with the queue of a rename, in place of an entry or not, within a pair or across, doubles nothing. |
| CompactionOutput.RemovalsAreLast | libraries/esp32-compat/src/lfs/lfs.c:817-847 | A removal is written out only if it is the very last thing that log and queue say. |
| CompactionOutput.Compact | libraries/esp32-compat/src/lfs/lfs.c:1940-1975 | The output of the compacting walk has the same entries as the updated directory, the right count, only attributes in range, a class of an entry twice exactly if log and queue are doubled there, and no removal but the last thing said. |
| WellFormedLogs.SyncFits | libraries/esp32-compat/src/lfs/lfs.c:3404-3410 | The queue of a sync of an existing entry is one that the directory can take. |
| WellFormedLogs.RenameFits | libraries/esp32-compat/src/lfs/lfs.c:3985-3992 | So is that of a rename, as long as there are ids left. |
| WellFormedLogs.AppendKeepsWellFormed | libraries/esp32-compat/src/lfs/lfs.c:2231-2237 | Appending a queue that the directory can take keeps the log well-formed. |
| WellFormedLogs.CompactionIsWellFormed | libraries/esp32-compat/src/lfs/lfs.c:1964-1971 | If each entry's name comes before its other attributes, what a compaction writes is a well-formed log, so that the fetched count and every lookup in it are right. |
| EntryOrder.NameStays | libraries/esp32-compat/src/lfs/lfs.c:817-847 | In a log where each entry is named once, before anything else is said of it, its name is dropped only with the entry. |
| EntryOrder.OrderlyLeads | libraries/esp32-compat/src/lfs/lfs.c:1964-1971 | So in whatever a compaction of such a log puts out of an entry, its name comes first. |
| EntryOrder.OutputInOrder | libraries/esp32-compat/src/lfs/lfs.c:877-1069 | What a compaction puts out is in that order again, and says something of exactly those entries in its range that the input has. |
| EntryOrder.AppendKeeps | libraries/esp32-compat/src/lfs/lfs.c:2231-2237 | Appending a queue that keeps the order keeps the log well-formed, in order, and with a name for every entry. |
| EntryOrder.CompactionKeeps | libraries/esp32-compat/src/lfs/lfs.c:1964-1971 | So does compacting log and queue, or any range of their entries. |
| EntryOrder.CreateIsTaken | libraries/esp32-compat/src/lfs/lfs.c:3062-3065 | The queue of a creation is one that keeps the order. |
| EntryOrder.SyncIsTaken | libraries/esp32-compat/src/lfs/lfs.c:3404-3410 | So is that of a sync. |
| EntryOrder.RenameIsTaken | libraries/esp32-compat/src/lfs/lfs.c:3985-3992 | So is that of a rename, in place of an entry or not. |
| EntryOrder.DeleteIsTaken | libraries/esp32-compat/src/lfs/lfs.c:3869-3870 | So is that of a removal. |
| EntryOrder.SetAttrIsTaken | libraries/esp32-compat/src/lfs/lfs.c:4087-4088 | So is that of setting an attribute. |
| EntryOrder.RunIsProper | libraries/esp32-compat/src/lfs/lfs.c:2181-2300 | Over any run of such commits from an empty block, appended or compacted, every log is well-formed, in order, and has a name for every entry. |
| Crc32.TableAddsByte | libraries/esp32-compat/src/lfs/lfs_util.c:15-31 | Two lookups in the table of sixteen words add a byte as eight one-bit shifts by the reflected generator do. |
| Crc32.Compute | libraries/esp32-compat/src/lfs/lfs_util.c:15-31 | The table-driven loop computes the bitwise reflected CRC-32 register update (IEEE 802.3 clause 3.2.9, no final inversion). |
| Crc32.CrcConcat | libraries/esp32-compat/src/lfs/lfs_util.c:15-31 | The checksum of a concatenation is that of the second part, started from that of the first. |
| Crc32.CrcInjective | libraries/esp32-compat/src/lfs/lfs_util.c:15-31 | Over the same data, different starting registers end differently. |
| Crc32.Residue | libraries/esp32-compat/src/lfs/lfs.c:1746-1757 | A message followed by its own checksum, low byte first, leaves 0, as the check at the end of a commit expects. |
| Crc32.BurstDetected | libraries/esp32-compat/src/lfs/lfs_util.c:15-31 | Two messages that differ only within four consecutive bytes, in particular in one byte, have different checksums. |
| TagWord.DSizeIs | libraries/esp32-compat/src/lfs/lfs.c:371-373 | A tag takes four bytes and its size, or four alone if it marks a removal, although the code adds the removal bit into the size field. |
| TagWord.MkTagFields | libraries/esp32-compat/src/lfs/lfs.c:322-369 | Type, id and size of a made tag are read back, and it is valid. |
| MetaBlock.CommitsBackward | libraries/esp32-compat/src/lfs/lfs.c:697-704 | From the end of the last valid commit, the exclusive-or chain leads back over exactly the tags a forward pass found, also across the bit that a commit inverts. |
| MetaFetch.CountTagIsApply | libraries/esp32-compat/src/lfs/lfs.c:1212-1219 | The sixteen-bit count kept tag by tag is the number of entries replay gives. |
| MetaFetch.Note | libraries/esp32-compat/src/lfs/lfs.c:1212-1253 | Count, tail and announced forward checksum follow the tags seen so far. |
| MetaFetch.CheckErased | libraries/esp32-compat/src/lfs/lfs.c:1291-1331 | A block is taken as erased behind its last commit exactly if the pass ended there on an invalid tag, at a program unit, and the announced checksum still matches. |
| MetaFetch.FetchBlock | libraries/esp32-compat/src/lfs/lfs.c:1110-1331 | One pass returns nothing exactly if the block has no valid commit, and otherwise the end, last tag, tail, entry count and erased state of precisely its valid commits. |
| MetaLookup.WantedIsRemaining | libraries/esp32-compat/src/lfs/lfs.c:693-697 | Starting the backward walk one id further for a pending move finds what a log with the moved entry deleted says. |
| MetaLookup.WalkStep | libraries/esp32-compat/src/lfs/lfs.c:706-741 | One step of the walk over stored tags keeps the answer, shifting the id by the splice or ending at the match or at the creation. |
| MetaLookup.GetSlice | libraries/esp32-compat/src/lfs/lfs.c:686-746 | The walk over the bytes of a block returns the latest attribute that replay of its log, without the entry hidden by a pending move, leaves on the id, cut and zero-padded to the buffer, and no entry otherwise. |
| MetaLookup.Get | libraries/esp32-compat/src/lfs/lfs.c:748-753 | After a fetch of a well-formed block, every lookup of an existing entry's attribute returns the whole attribute, or no entry exactly if there is none. |
| Alignment.AlignDown | libraries/esp32-compat/src/lfs/lfs_util.h:117-119 | The largest multiple not above the argument. |
| Alignment.AlignUp | libraries/esp32-compat/src/lfs/lfs_util.h:121-123 | The smallest multiple not below the argument. |
| CommitWriter.Writer.Prog | libraries/esp32-compat/src/lfs/lfs.c:1553-1566 | Bytes go to the cursor, nothing else changes, and the running checksum covers them. |
| CommitWriter.Writer.CommitAttr | libraries/esp32-compat/src/lfs/lfs.c:1570-1613 | A tag is written, chained to the one before, with its data, if and only if a CRC still fits behind it; otherwise nothing is touched. |
| CommitWriter.ProgressTag | libraries/esp32-compat/src/lfs/lfs.c:1570-1613 | One more tag extends the chain that a reader will follow. |
| CommitWriter.Writer.AnnounceErased | libraries/esp32-compat/src/lfs/lfs.c:1650-1690 | The forward-CRC tag describes one program unit at the end of the commit as it is now, and always fits in front of the CRC. |
| CommitWriter.ClosedReads | libraries/esp32-compat/src/lfs/lfs.c:1692-1726 | A chain closed by tag and checksum is read back as one valid commit with the perturbed last tag. |
| CommitWriter.Writer.Close | libraries/esp32-compat/src/lfs/lfs.c:1692-1726 | The CRC tag reaches exactly the requested end, its size is at most 0x3fe, and the commit joins the valid ones. |
| CommitWriter.NextEndFits | libraries/esp32-compat/src/lfs/lfs.c:1634-1648 | Every CRC tag has room for its checksum and a size up to 0x3fe, leaves room for the last two tags, and the last one ends at the aligned end. |
| CommitWriter.Writer.CloseRound | libraries/esp32-compat/src/lfs/lfs.c:1634-1726 | One round adds one commit of bookkeeping tags only, behind everything written before. |
| CommitWriter.ErasedIsInvalid | libraries/esp32-compat/src/lfs/lfs.c:1147-1151 | While the space behind a commit is as it was announced, the perturbed valid bit makes it read as an invalid tag. |
| CommitWriter.NextIsValid | libraries/esp32-compat/src/lfs/lfs.c:1177-1178 | A tag that the next commit programs there reads as itself and as valid. |
| CommitWriter.WrittenIsAll | libraries/esp32-compat/src/lfs/lfs.c:1121-1186 | Where no valid tag follows, a block holds the commits written and no others. |
| CommitWriter.Writer.CommitCrc | libraries/esp32-compat/src/lfs/lfs.c:1618-1760 | Closing ends at exactly the aligned end, the block then holds the old commits, the new one and padding ones that say nothing, the space behind is recognised as appendable, and reading back finds the checksum good. |
| CommitWriter.Writer.Append | libraries/esp32-compat/src/lfs/lfs.c:2220-2229 | A writer behind the last valid commit continues its chain. |
| CommitWriter.Writer.Compact | libraries/esp32-compat/src/lfs/lfs.c:1940-1962 | A fresh block is erased and starts with the revision count. |
| MetaCommit.WriteTags | libraries/esp32-compat/src/lfs/lfs.c:1881-1886 | A list of attributes is written in order, or fails exactly if their sizes leave no room for a CRC. |
| CoreLog.CoreReplays | libraries/esp32-compat/src/lfs/lfs.c:1650-1726 | Without its CRC and forward-CRC tags a log replays to the same directory. |
| MetaCommit.AppendCommit | libraries/esp32-compat/src/lfs/lfs.c:2218-2288 | Appending succeeds exactly if the tags fit; but for tags that only serve the log, the block's log is then the old one with them behind it, stays well-formed if the directory can take them, and nothing before the old end is touched. |
| MetaCommit.CompactInto | libraries/esp32-compat/src/lfs/lfs.c:1940-2035 | Compacting succeeds exactly if the tags fit an empty block, which then has the given revision and says just those tags, and is well-formed if they are. |
| MetaPair.NextIsNewer | libraries/esp32-compat/src/lfs/lfs_util.h:164-166 | The next revision compares as newer, never as older, also when the count wraps around. |
| MetaPair.FetchPair | libraries/esp32-compat/src/lfs/lfs.c:1087-1289 | The pair is read from the block with the newer revision, or from the other if that one has no valid commit, or is corrupt if neither has. |
| MetaPair.CutCommits | libraries/esp32-compat/src/lfs/lfs.c:1121-1186 | Of a block whose writing was cut short, what is read are the first of the commits that were being written. |
| MetaPair.CutWritten | libraries/esp32-compat/src/lfs/lfs.c:1121-1186 | Those commits are as they were written, checksums and sizes included. |
| MetaPair.AppendTorn | libraries/esp32-compat/src/lfs/lfs.c:1553-1566 | An append that stops at any byte, whatever the bytes behind hold, leaves one of the states the crash theorem is about, if no checksum validates that was not written whole. |
| MetaPair.AbandonTorn | libraries/esp32-compat/src/lfs/lfs.c:2231-2244 | An append that gave up, or was cut before it wrote a checksum, leaves one of those states, too. |
| MetaPair.CompactTorn | libraries/esp32-compat/src/lfs/lfs.c:1940-2035 | So does a compaction that stops at any byte it writes, or while it erases. |
| MetaPair.CutCore | libraries/esp32-compat/src/lfs/lfs.c:1618-1760 | As soon as the first commit of an attempt is read, so is all that it was to say, padding commits or not. |
| MetaPair.AppendedCore | libraries/esp32-compat/src/lfs/lfs.c:2218-2288 | An interrupted append leaves all that was said before or all that was to be: entries, tail and stored difference. |
| MetaPair.AbandonedCore | libraries/esp32-compat/src/lfs/lfs.c:2218-2288 | What an append that gave up, its tags not fitting, leaves behind the last commit is not read. |
| MetaPair.AppendStep | libraries/esp32-compat/src/lfs/lfs.c:2218-2288 | After an interrupted append the pair reads all as before or all as appended, and the other block is not preferred. |
| MetaPair.AbandonStep | libraries/esp32-compat/src/lfs/lfs.c:2231-2244 | Between an append that gave up and the compaction that replaces it, the pair reads as before. |
| MetaPair.DiscardStep | libraries/esp32-compat/src/lfs/lfs.c:1901-2042 | As long as nothing of a compaction has been closed, the pair reads as before. |
| MetaPair.CompactStep | libraries/esp32-compat/src/lfs/lfs.c:1901-2042 | An interrupted compaction, cut while erasing or at any byte written, leaves the pair reading all as before or all as compacted, across revision wrap-around. |
| MetaPair.RunKeepsDirectory | libraries/esp32-compat/src/lfs/lfs.c:1072-1349 | Over any run of appends and compactions, given up or with power failing in any of them, there is always a directory to read, and each attempt leaves all of the one before it or all of the one it was writing: entries, tail and stored difference of global state together. |
| MetaPair.Update | libraries/esp32-compat/src/lfs/lfs.c:2181-2300 | An uninterrupted commit appends if the block is erased behind and the tags fit, and compacts into the other block otherwise; the pair then says what it said before and the appended tags, or just the compacted ones, from a well-formed log. |
| PairCommit.EitherWayUpdated | libraries/esp32-compat/src/lfs/lfs.c:1940-2035 | With the tags that the walks produce, both ways leave a directory that no lookup can tell from the old one changed by the queue. |
| PairCommit.SaysTailAndDelta | libraries/esp32-compat/src/lfs/lfs.c:1979-2023 | A compacted log names the tail and stores the difference that are written behind the walked tags, and none if none is written. |
| PairCommit.Commit | libraries/esp32-compat/src/lfs/lfs.c:2181-2300 | From one block of bytes to the next: after the commit of a queue, appended or compacted, no lookup can tell the entries from those of the old log changed by the queue, the tail is the one the queue leaves, the stored difference is the old one and the change to it, and the log is again well-formed with names in front if the directory can take the queue. |
| LogReaders.SaysTheSame | libraries/esp32-compat/src/lfs/lfs.c:686-746 | Two logs that differ in nothing but CRC and forward-CRC tags are the same to every reader: lookups, entries, tail and stored difference. |
| LogReaders.FetchedTail | libraries/esp32-compat/src/lfs/lfs.c:1228-1240 | The tail that a fetch finds is the one that the log names last. |
| LogReaders.DeltaIsStored | libraries/esp32-compat/src/lfs/lfs.c:1359-1375 | A stored difference is read back, whatever was stored before. |
| GlobalState.TotalUpdate | libraries/esp32-compat/src/lfs/lfs.c:4332-4350 | Changing one pair's difference changes the sum over all pairs by exactly the two differences. |
| GlobalState.DeltaMoves | libraries/esp32-compat/src/lfs/lfs.c:2246-2285 | Whatever was held back in memory, the difference a commit stores makes the sum over all pairs the new global state without its low ten bits. |
| GlobalState.MoveIsPending | libraries/esp32-compat/src/lfs/lfs.c:4767-4773 | A prepared move is pending with its id and pair, also in what the disk keeps. |
| GlobalState.HiddenRow | libraries/esp32-compat/src/lfs/lfs.c:424-427 | A pending move takes exactly its source out of what is listed. |
| GlobalState.Filesystem.Mount | libraries/esp32-compat/src/lfs/lfs.c:4464-4482 | A mount finds in memory what all pairs add up to, and lists the same; an orphan flag starts the count at one. |
| GlobalState.Filesystem.TakeDelta | libraries/esp32-compat/src/lfs/lfs.c:2246-2285 | What a commit stores is the change of global state since the last one, with what was stolen; memory then owes nothing. |
| GlobalState.Filesystem.Commit | libraries/esp32-compat/src/lfs/lfs.c:2218-2288 | After a commit, appended or compacted with swapped blocks, all pairs add up to the global state in memory. |
| GlobalState.Filesystem.Drop | libraries/esp32-compat/src/lfs/lfs.c:1808-1826 | Dropping a pair moves its difference into the commit that skips it: the sum stays right although the pair is gone. |
| GlobalState.Filesystem.Delete | libraries/esp32-compat/src/lfs/lfs.c:2391-2410 | Deleting an entry takes exactly it out of the listing, whether the pair stays or is dropped. |
| GlobalState.Filesystem.DeMove | libraries/esp32-compat/src/lfs/lfs.c:4816-4845 | Finishing a pending move changes nothing that is listed, at any of its commits, and leaves none pending. |
| GlobalState.Filesystem.Rename | libraries/esp32-compat/src/lfs/lfs.c:3900-4009 | Every state on disk that a rename goes through lists either nothing of it or all of it: the file left its old name, has the new one, and what was there is gone. |
| GlobalState.RenameMovesName | libraries/esp32-compat/src/lfs/lfs.c:3980-4009 | A file listed under one name is, after a rename, listed once under the new name and nowhere else. |
| GlobalState.Recover | libraries/esp32-compat/src/lfs/lfs.c:4464-4482 | Mounting any disk that a rename left behind and finishing the move lists the same as before. |
| Allocator.Allocator.constructor | libraries/esp32-compat/src/lfs/lfs.c:4481-4484 | A mounted allocator starts anywhere on the device, with an empty window and the countdown at the number of blocks, whatever blocks are in use. |
| Allocator.Allocator.Format | libraries/esp32-compat/src/lfs/lfs.c:4268-4275 | A format starts with a first window in which every block is free. |
| Allocator.Allocator.Step | libraries/esp32-compat/src/lfs/lfs.c:648-672 | Looking at a bit counts the block as seen; a free one is no live block and none handed out since the last acknowledgement. |
| Allocator.Allocator.Ack | libraries/esp32-compat/src/lfs/lfs.c:613-615 | With all earlier blocks visible to walks, the countdown restarts over the whole device and the window stays usable. |
| Allocator.Allocator.Drop | libraries/esp32-compat/src/lfs/lfs.c:619-623 | Forgetting the window re-establishes the invariant. |
| Allocator.Allocator.FillBitmap | libraries/esp32-compat/src/lfs/lfs.c:597-608 | The callback sets exactly the bits of blocks the walk came across, wrapping around the device. |
| Allocator.Allocator.Refill | libraries/esp32-compat/src/lfs/lfs.c:626-643 | The window moves to the cursor, no larger than the countdown, with nothing forgotten of what was seen. |
| Allocator.Allocator.Alloc | libraries/esp32-compat/src/lfs/lfs.c:646-682 | A block handed out is neither live nor handed out before; no space is reported only when every block of the device was looked at since the acknowledgement and is reached or handed out; a walk can only fail the search after all windows that good walks fill were used up; the search ends. |
| Bits.NextPow2Exact | libraries/esp32-compat/src/lfs/lfs_util.h:126-140 | The exponent of the smallest power of two not below the argument. |
| Bits.PopCountStep | libraries/esp32-compat/src/lfs/lfs_util.h:143-160 | Counting up by one changes the number of one bits by one less the trailing zeros. |
| CtzIndex.StartClosedForm | libraries/esp32-compat/src/lfs/lfs.c:2817-2828 | The layout, added up block by block with ctz(n)+1 pointers each, is 2n less a popcount. |
| CtzIndex.IndexExact | libraries/esp32-compat/src/lfs/lfs.c:2817-2828 | The two-step estimate is exact: it gives the block that holds the position and the offset behind its pointers. |
| CtzIndex.IndexIsTheBlock | libraries/esp32-compat/src/lfs/lfs.c:2817-2828 | For every block size from 128 and every 32-bit position, that block exists, is unique, and the offset lies between its pointers and its end. |
| CtzIndex.NoUnderflow | libraries/esp32-compat/src/lfs/lfs.c:2817-2828 | No unsigned subtraction of the closed form goes below zero. |
| CtzIndex.CapacityPositive | libraries/esp32-compat/src/lfs/lfs.c:4143-4148 | With at least 128 bytes, every block of a 32-bit file has room for data behind its pointers. |
| CtzList.HopShrinksBound | libraries/esp32-compat/src/lfs/lfs.c:2845-2858 | A hop never passes the target and uses up one of the hops that are left. |
| CtzList.Find | libraries/esp32-compat/src/lfs/lfs.c:2830-2862 | Following pointers, each stored in the block before, arrives at the block and offset of the position along a path of at most 2*floor(log2(last index))+1 hops. |
| CtzList.Traverse | libraries/esp32-compat/src/lfs/lfs.c:2964-3005 | Every block of the list is visited exactly once, from the last to the first, two per read at even indices. |
| FileBlocks.ProgramOpen | libraries/esp32-compat/src/lfs/lfs.c:3556-3581 | Programming on in the last block keeps the list and appends the bytes. |
| FileBlocks.CopyOpen | libraries/esp32-compat/src/lfs/lfs.c:2896-2921 | A partly filled last block, copied into a new one, gives a list with the same bytes and room behind them. |
| FileBlocks.AppendOpen | libraries/esp32-compat/src/lfs/lfs.c:2923-2952 | A new block with its pointers behind a full one gives a list with the same bytes. |
| FileBlocks.PrefixFile | libraries/esp32-compat/src/lfs/lfs.c:3525-3533 | The blocks up to a position are a complete file of the bytes before it. |
| FileWriter.File.Alloc | libraries/esp32-compat/src/lfs/lfs.c:646-682 | A block handed out is in no list of the directory, of the handle or of the branch being written; there is none exactly if every block is in one of them or in use elsewhere. |
| FileWriter.File.CopyBlock | libraries/esp32-compat/src/lfs/lfs.c:2898-2916 | The copy holds exactly the used part of the block; no other block changes on the way. |
| FileWriter.File.ProgramPointers | libraries/esp32-compat/src/lfs/lfs.c:2923-2948 | Pointer k of the new block names the block 2^k before it, each looked up in the block the last one named; no other block changes on the way. |
| FileWriter.File.Extend | libraries/esp32-compat/src/lfs/lfs.c:2865-2961 | The list grows by a block or by the copy of its last one and holds the same bytes; in every state that the device goes through, that block alone, a free one, is not as before; it fails only if every block is in use. |
| FileWriter.File.Continued | libraries/esp32-compat/src/lfs/lfs.c:3520-3533 | A write continues the branch, or the part of the old list before the position. |
| FileWriter.File.PrepareBlock | libraries/esp32-compat/src/lfs/lfs.c:3520-3554 | A block with room is at hand, or every block is in use and nothing has changed. |
| FileWriter.File.ProgramChunk | libraries/esp32-compat/src/lfs/lfs.c:3556-3581 | As much as fits is laid over the contents at the position. |
| FileWriter.File.FlushedWrite | libraries/esp32-compat/src/lfs/lfs.c:3501-3586 | The data is laid over the contents, the rest of the old file staying behind it; or every block is in use, a proper prefix of the data is, and the handle is marked as failed. |
| FileWriter.File.CopyTail | libraries/esp32-compat/src/lfs/lfs.c:3301-3330 | Copying what the old list has beyond the branch changes no contents, and stops early only if every block is in use. |
| FileWriter.File.Flush | libraries/esp32-compat/src/lfs/lfs.c:3288-3366 | The branch becomes the list with the same contents and the same position, unless every block is in use. |
| FileWriter.File.FillZeros | libraries/esp32-compat/src/lfs/lfs.c:3610-3621 | A gap behind the end is filled with zeros, unless every block is in use. |
| FileWriter.File.RawWrite | libraries/esp32-compat/src/lfs/lfs.c:3589-3630 | A write does to file and position what it does to a byte array, or every block is in use and the handle is marked as failed; it refuses exactly what would exceed the largest file; in no state that the device goes through is a block of the committed list, or of others, erased or programmed. |
| FileWriter.File.RawSeek | libraries/esp32-compat/src/lfs/lfs.c:3633-3690 | A seek keeps the bytes, moves the position, and refuses exactly positions beyond the largest file; completing a branch for it fails only if every block is in use. |
| FileWriter.File.RawSync | libraries/esp32-compat/src/lfs/lfs.c:3368-3418 | What a reader of the directory finds changes all at once to the contents, or, only if every block is in use, not at all. After a failed write, until one succeeds, sync reports success and changes nothing: of what it reports as success, the contents are committed if and only if the handle had not failed, or they were committed already. |
| FileWriter.File.Run | libraries/esp32-compat/src/lfs/lfs.c:3501-3630 | Any run of writes, flushes and seeks refines a byte array, or ends where every block of the device is in use; from every state that the device goes through, the file that the directory names can be read as it was, and no block of others has changed. |
| BlockCache.Cached.constructor | libraries/esp32-compat/src/lfs/lfs.c:4131-4141 | Empty caches over any device are coherent. |
| BlockCache.Cached.Load | libraries/esp32-compat/src/lfs/lfs.c:106-121 | Loading the read cache covers the wanted byte, makes the cache a copy of the device, and changes nothing a reader sees. |
| BlockCache.Cached.NextBytes | libraries/esp32-compat/src/lfs/lfs.c:54-121 | With a read cache that is a copy of the device, what a round of the read loop takes are the right bytes; a round that takes none makes the next one hit; and a hit takes what the cache holds, be it out of date. |
| BlockCache.Cached.Read | libraries/esp32-compat/src/lfs/lfs.c:44-125 | Reads fail exactly out of range, end, and return what a flat array would hold; without the program cache, what the device holds. |
| BlockCache.Cached.ReadStale | libraries/esp32-compat/src/lfs/lfs.c:74-85 | A byte that the read cache holds and the device does not is returned as it was. |
| BlockCache.Cached.StaleByte | libraries/esp32-compat/src/lfs/lfs.c:74-85 | A read cache that is no copy of the device has such a byte. |
| BlockCache.Cached.Cmp | libraries/esp32-compat/src/lfs/lfs.c:127-152 | A comparison in pieces of eight bytes is equality with the device. |
| BlockCache.Cached.Program | libraries/esp32-compat/src/lfs/lfs.c:176-199 | Padding the program cache to whole units changes nothing beyond what was programmed; the read cache stays a copy exactly if no programmed byte that is not erased lies in it. |
| BlockCache.Cached.Flush | libraries/esp32-compat/src/lfs/lfs.c:176-208 | A flush empties the program cache, leaves the flat contents and succeeds; the read cache is a copy of the device afterwards if and only if it was validated or no byte it holds was changed. |
| BlockCache.Cached.ReadBack | libraries/esp32-compat/src/lfs/lfs.c:192-203 | What was programmed is compared with the device itself, the read cache having been dropped. |
| BlockCache.Cached.Erase | libraries/esp32-compat/src/lfs/lfs.c:275-280 | Erasing leaves the caches alone: the read cache stays a copy exactly if it holds another block, or erased bytes only. |
| BlockCache.Cached.Sync | libraries/esp32-compat/src/lfs/lfs.c:211-224 | After a sync, validated or not, the device holds all that was programmed, and no cache is out of date. |
| BlockCache.Cached.Prepare | libraries/esp32-compat/src/lfs/lfs.c:259-268 | An empty program cache is placed at the unit of the next byte, which then fits it. |
| BlockCache.Cached.Fill | libraries/esp32-compat/src/lfs/lfs.c:227-271 | Bytes put into the program cache are seen at once. |
| BlockCache.Cached.ProgSome | libraries/esp32-compat/src/lfs/lfs.c:236-256 | A full program cache is written out and the next bytes find erased space; otherwise the device is untouched. |
| BlockCache.Cached.ProgNext | libraries/esp32-compat/src/lfs/lfs.c:235-268 | Each round of the loop takes bytes or places the cache, and the device holds full caches up to where it has got. |
| BlockCache.Cached.UpToDate | libraries/esp32-compat/src/lfs/lfs.c:227-271 | A read cache that has not moved is a copy of the device exactly if none of the bytes written, from the first unit to the last full cache, lies in it. |
| BlockCache.Cached.Prog | libraries/esp32-compat/src/lfs/lfs.c:227-271 | Programming behind everything programmed before, across any number of units, does what it does to a flat array, whatever the read cache holds; without validation the read cache is out of date afterwards if and only if it holds a byte that was written to the device, which can be told from offset, size and data beforehand. |
| BlockCache.BypassMovesOn | libraries/esp32-compat/src/lfs/lfs.c:70-104 | A bypassing read in whole units moves on exactly if the cached bytes ahead are a unit away, which units dividing one another ensure. |
| TailWalk.MetAgain | libraries/esp32-compat/src/lfs/lfs.c:4558-4616 | A pair met after as many others as there are is met again within that many steps. |
| TailWalk.EndsWithoutRepeat | libraries/esp32-compat/src/lfs/lfs.c:4558-4616 | A list that ends has no pair twice. |
| TailWalk.StillBounded | libraries/esp32-compat/src/lfs/lfs.c:4558-4573 | As long as Brent's tortoise is not met, the number of fetches is at most three times the number of pairs. |
| TailWalk.Walk | libraries/esp32-compat/src/lfs/lfs.c:4558-4616 | On arbitrary disk contents the walk ends within 3n fetches, follows the list in order, and reports a cycle only at a pair that was visited on this walk. |
| TailWalk.AcyclicListIsVisitedOnce | libraries/esp32-compat/src/lfs/lfs.c:4332-4350 | An acyclic list is never called corrupt and each of its pairs is visited once, in order. |
| PartitionTable.Device.GetActive | libraries/esp32-compat/src/lfs/partition.c:162-192 | The valid slot is selected, of two the younger, of two of one age the first. |
| PartitionTable.TypeAt | libraries/esp32-compat/src/lfs/partition.c:313-318 | The first entry of a type, or none. |
| PartitionTable.Updated | libraries/esp32-compat/src/lfs/partition.c:313-328 | Only the entry of that type changes, or one is added behind the others. |
| PartitionTable.Device.UpdateEntry | libraries/esp32-compat/src/lfs/partition.c:284-359 | The slot is erased, then holds the sealed table with just that entry changed and age+1; a full table fails untouched. |
| PartitionTable.Device.RewriteIsAtomic | libraries/esp32-compat/src/lfs/partition.c:162-192 | While the slot not in use is rewritten the old table stays selected; once complete, the new one is, if and only if the age did not wrap around. |
| PartitionTable.Device.EraseKeepsSelected | libraries/esp32-compat/src/lfs/partition.c:162-192 | Erasing a slot keeps the selection if and only if the slot is not selected or the other holds the same table. |
| PartitionTable.Device.GetIapPara | libraries/esp32-compat/src/lfs/partition.c:491-533 | The firmware slot and the table slot found are those not in use, or no table is valid; a table without entries yields what lies in the place of the first one. |
| PartitionTable.Device.SetIapPara | libraries/esp32-compat/src/lfs/partition.c:535-591 | The switched table of age+1, or the same one without entries, is written to the slot not in use. |
| PartitionTable.Device.IapRound | libraries/esp32-compat/src/lfs/partition.c:491-591 | At every crash point of a round the table before or after it is selected, and in the end table slot and firmware slot, if there is an entry, are both switched. |
| PartitionTable.Device.IapRounds | libraries/esp32-compat/src/lfs/partition.c:491-591 | Any number of rounds alternates the slots of firmware and table and changes no other entry, as long as the age does not wrap. |
| PartitionTable.Boot.Init | libraries/esp32-compat/src/lfs/bflb_boot2.c:241-268 | Memory takes over the selected table, or stays as it was exactly if no slot is valid. |
| PartitionTable.Boot.UpdatePtable | libraries/esp32-compat/src/lfs/bflb_boot2.c:25-39 | The first update after a start is crash-atomic: the table before or after is selected at every point, the new one in the end exactly if the age did not wrap. |
| PartitionTable.Boot.SecondUpdateIsNotAtomic | libraries/esp32-compat/src/lfs/bflb_boot2.c:25-39 | A second update without a restart erases the slot in use; cut there, the table before both updates is selected. |
| UsbCdc.Cdc.Configured | libraries/esp32-compat/src/esp32_usb.cpp:234-241 | Being configured starts a sound session exactly if no bytes and no read are left over from another one. |
| UsbCdc.Cdc.Reset | libraries/esp32-compat/src/esp32_usb.cpp:216-221 | A reset leaves nothing over. |
| UsbCdc.Cdc.End | libraries/esp32-compat/src/esp32_usb.cpp:358-365 | The ring is emptied and the session ended. |
| UsbCdc.Cdc.OnOutData | libraries/esp32-compat/src/esp32_usb.cpp:436-451 | The ring takes, in order, as many bytes as it has room for. |
| UsbCdc.Cdc.Transfer | libraries/esp32-compat/src/esp32_usb.cpp:161-183 | In a session a completed transfer is taken whole, and afterwards a read is outstanding exactly if the ring is empty, or re-arming is pending and there are bytes to read. |
| UsbCdc.Cdc.Read | libraries/esp32-compat/src/esp32_usb.cpp:372-389 | The consumer gets the oldest byte, and taking the last one re-arms. |
| UsbCdc.Cdc.Drain | libraries/esp32-compat/src/esp32_usb.cpp:372-389 | Reading what is there always ends with the endpoint armed: the host is not stalled for good. |
| UsbCdc.Cdc.Run | libraries/esp32-compat/src/esp32_usb.cpp:161-183 | Running a session through any course of host transfers and reads does exactly what the course says: transfers are taken whole when everything was read and refused otherwise, reads take the oldest byte. |
| UsbCdc.NothingIsLost | libraries/esp32-compat/src/esp32_usb.cpp:161-183 | Over any course, the consumer gets exactly the concatenation of the transfers taken, but for what is in the ring. |
| UsbCdc.HostIsServed | libraries/esp32-compat/src/esp32_usb.cpp:372-389 | After any course, once the consumer has read what there is, all of it has been delivered and the next transfer is taken whole. |
| HciTransport.Queue.Push | libraries/esp32-compat/src/utility/HCIVirtualTransport.cpp:210-239 | A push is taken whole or not at all, and what is queued grows by it exactly if one place stays free; filling the queue to the brim loses everything. |
| HciTransport.Queue.Pop | libraries/esp32-compat/src/utility/HCIVirtualTransport.cpp:191-207 | The oldest byte comes out first. |
| HciTransport.Queue.Read | libraries/esp32-compat/src/utility/HCIVirtualTransport.cpp:249-259 | A read returns the oldest byte, or that there is none. |
| HciTransport.Queue.Run | libraries/esp32-compat/src/utility/HCIVirtualTransport.cpp:225-259 | Running a queue through any course of pushes and reads does exactly what the course says, also at the brim. |
| HciTransport.LostAtTheBrim | libraries/esp32-compat/src/utility/HCIVirtualTransport.cpp:225-259 | Over any course, the bytes lost are those of the times a push filled the queue to the brim; what was taken comes out in order, but for what is queued, if and only if there was no such time. |
| HciTransport.AllComeOut | libraries/esp32-compat/src/utility/HCIVirtualTransport.cpp:225-259 | Pushes that keep the queue below its size are all taken, and come out whole and in order. |
| HciTransport.ParseConcat | libraries/esp32-compat/src/utility/HCIVirtualTransport.cpp:120-189 | Parsing does not depend on how the bytes are cut. |
| HciTransport.ParsePacket | libraries/esp32-compat/src/utility/HCIVirtualTransport.cpp:120-189 | A command or ACL packet is delivered as itself exactly if its payload has at most 255 bytes. |
| HciTransport.TooLongStays | libraries/esp32-compat/src/utility/HCIVirtualTransport.cpp:171-184 | After a longer ACL payload nothing is delivered any more. |
| HciTransport.ParsePackets | libraries/esp32-compat/src/utility/HCIVirtualTransport.cpp:120-189 | The encoding of any sequence of packets parses to that sequence. |
| HciTransport.Transport.FeedType | libraries/esp32-compat/src/utility/HCIVirtualTransport.cpp:123-131 | The first byte of a packet selects the header to wait for; any other byte keeps hunting. |
| HciTransport.Transport.FeedCommandHeader | libraries/esp32-compat/src/utility/HCIVirtualTransport.cpp:132-146 | The command header state collects three bytes and delivers a command without payload at once. |
| HciTransport.Transport.FeedCommandPayload | libraries/esp32-compat/src/utility/HCIVirtualTransport.cpp:147-155 | The command payload state delivers the command with its last byte. |
| HciTransport.Transport.FeedAclHeader | libraries/esp32-compat/src/utility/HCIVirtualTransport.cpp:156-170 | The ACL header state with its eight-bit index does the parser's step. |
| HciTransport.Transport.FeedAclPayload | libraries/esp32-compat/src/utility/HCIVirtualTransport.cpp:171-184 | The ACL payload state does the parser's step, also for lengths that the index cannot reach. |
| HciTransport.Transport.Feed | libraries/esp32-compat/src/utility/HCIVirtualTransport.cpp:120-189 | Every state of the machine does the parser's step and delivers what that completes. |
| HciTransport.Transport.Pump | libraries/esp32-compat/src/utility/HCIVirtualTransport.cpp:191-207 | The whole queue is parsed, in order, and is empty then. |
| HciTransport.Transport.Write | libraries/esp32-compat/src/utility/HCIVirtualTransport.cpp:369-380 | A write shorter than the queue is parsed completely; one of its size is accepted and lost, a longer one refused. |
| HciTransport.Transport.WriteAll | libraries/esp32-compat/src/utility/HCIVirtualTransport.cpp:369-380 | However the bytes of a sequence of packets are cut into writes, exactly those packets arrive, in order. |
| EasyFlash.RoundTrip | libraries/esp32-compat/src/lfs/lfs_easyflash.c:109-191 | Unescaping undoes escaping, for every key. |
| EasyFlash.Injective | libraries/esp32-compat/src/lfs/lfs_easyflash.c:109-153 | Different keys have different names. |
| EasyFlash.NoSlash | libraries/esp32-compat/src/lfs/lfs_easyflash.c:109-153 | An escaped key is one path component. |
| EasyFlash.Key2Path | libraries/esp32-compat/src/lfs/lfs_easyflash.c:109-153 | Both passes agree on the length; the path is written exactly if it fits, and an oversize one leaves the buffer alone. |
| EasyFlash.Path2Key | libraries/esp32-compat/src/lfs/lfs_easyflash.c:155-191 | The same for the way back. |
| EasyFlash.Store.PathOf | libraries/esp32-compat/src/lfs/lfs_easyflash.c:109-153 | A key whose path fits the shared buffer leads to the file named by its escaped form, any other to none. |
| EasyFlash.Store.SetEnvBlob | libraries/esp32-compat/src/lfs/lfs_easyflash.c:264-312 | A key that fits and names a file gets the value, as long as the namespace directory is there, and every other key keeps its own; anything else fails and changes nothing. |
| EasyFlash.Store.GetEnvBlob | libraries/esp32-compat/src/lfs/lfs_easyflash.c:194-256 | The saved length and as much of the value, from the offset on, as the buffer takes; nothing for a missing key or a negative offset. |
| EasyFlash.Store.DelEnv | libraries/esp32-compat/src/lfs/lfs_easyflash.c:314-336 | The key is gone and every other stays; a key that leads to the namespace directory removes that, exactly if it is empty. |
| EasyFlash.Store.Init | libraries/esp32-compat/src/lfs/lfs_easyflash.c:39-79 | Initialisation brings the namespace directory back. |
| EasyFlash.Store.Keys | libraries/esp32-compat/src/lfs/lfs_easyflash.c:506-556 | Each stored key is reported once, unescaped. |
| Preferences.BlobRoundTrip | libraries/esp32-compat/src/Preferences.cpp:123-126 | A blob decodes to the type and bytes it was made of. |
| Preferences.MatchesInGeneral | libraries/esp32-compat/src/Preferences.cpp:315-318 | A namespace matches a key of another one exactly if they are the same, the other goes on from it behind a slash, or it goes on from the other with what the name repeats. |
| Preferences.ApartIsExact | libraries/esp32-compat/src/Preferences.cpp:315-318 | A namespace leaves every key of another one alone if and only if they differ and neither goes on from the other behind a slash. |
| Preferences.SlashlessAreApart | libraries/esp32-compat/src/Preferences.cpp:315-318 | Namespaces without a slash are apart exactly if they differ. |
| Preferences.SlashedNamespaces | libraries/esp32-compat/src/Preferences.cpp:315-318 | The keys of a/b match a, and the names b/... of a match a/b. |
| Preferences.FullKeyInjective | libraries/esp32-compat/src/Preferences.cpp:102-108 | Different names of a namespace have different keys. |
| Preferences.Prefs.Begin | libraries/esp32-compat/src/Preferences.cpp:83-95 | A namespace of 1 to 15 characters is opened; any other changes nothing. |
| Preferences.Prefs.PutValue | libraries/esp32-compat/src/Preferences.cpp:110-131 | The name then has that type and those bytes, exactly under the conditions given, and no other key or name is touched. |
| Preferences.Prefs.ReadBlob | libraries/esp32-compat/src/Preferences.cpp:47-65 | The two-step read returns the whole blob, or nothing if it is shorter than a header. |
| Preferences.Prefs.GetValue | libraries/esp32-compat/src/Preferences.cpp:133-161 | A get of the stored type and size returns the bytes put; a wrong type, size or missing name returns the default. |
| Preferences.Prefs.GetType | libraries/esp32-compat/src/Preferences.cpp:193-210 | The type put is the type reported, and any blob with a header and a known type yields that type. |
| Preferences.Prefs.Remove | libraries/esp32-compat/src/Preferences.cpp:368-378 | The name is gone and everything else stays. |
| Preferences.Prefs.Clear | libraries/esp32-compat/src/Preferences.cpp:352-366 | Clearing removes exactly the keys that match the namespace: all names of it, and no name of any namespace apart from it. |

## Left out

- Compaction.CompactionKeepsMeaning: asks that no removal is queued after a move or a list of user attributes (`RemovalsFirst`), which a caller can see in the queue; the exact condition, without it, is `CompactionExact.KeptUnlessItComesBack`.
- Compaction.CompactionKeepsCount: needs the same order, and a name on the last entry, without which a compacted log counts fewer.
- CompactionOutput.OutputHasNoDuplicates: is about logs without queued requests; the exact condition for any queue is `CompactionOutput.DuplicatesExactly`.
- CompactionExact.KeptUnlessItComesBack: is about each attribute of each entry; the count is `Compaction.CompactionKeepsCount`.
- MetaFetch.FetchBlock: does not model the callback that matches names while fetching (`besttag`), nor the revision check of a superblock; the sixteen-bit count is tied to entries for well-formed logs.
- MetaLookup.GetSlice: says nothing of the bytes read when a nonzero offset leads past the attribute; the id difference is a number, not a shifted word, which is the same as long as ids fit ten bits (`EntriesFit`).
- MetaPair.RunKeepsDirectory: leaves out relocation to other blocks on bad blocks or wear, and splitting a directory that no longer fits; both change which blocks are a pair.
- PairCommit.Commit: takes the tags of the two walks as lists that are given, where the code writes each as it walks; a queue holds no global state of its own.
- LogReaders.FetchedTail: is about logs whose tail tags have room for two addresses, as all written ones do (`PairCommit.WrittenTails`).
- MetaPair.Update: fails where the code would split or relocate; the limit of a compaction is the block less the CRC, not a configured `metadata_max`.
- GlobalState.Filesystem.Rename: is about files in directories that exist; directories being moved, their tails and orphans are not modelled, nor is renaming an entry onto itself, which the code returns from at once.
- GlobalState.Filesystem.DeMove: takes the predecessor of a pair that becomes empty as a parameter, where the code searches for it.
- FileWriter.File.Alloc: takes any block that no list reaches; the order of the window and the acknowledgement are `Allocator`.
- FileWriter.File.RawSync: takes the commit of the directory as one step that succeeds; what an interrupted one leaves is `MetaPair`.
- FileWriter.File.RawSeek: leaves out the shortcut for seeks within the cached block while reading, and relative seeks.
- FileWriter.File.Run: is about files that are not inline, on a device without bad blocks; where every block is in use it says what was kept, not how much of the failing write was done, which is `FileWriter.File.FlushedWrite`.
- CtzList.Find: reads pointers from the disk as programmed, without a cache in between.
- BlockCache.Cached.Prog: asks that programs go into erased space in order, as littlefs does.
- BlockCache.Cached.Flush: always finds what it programmed, so the corrupt result of a device that does not is not modelled.
- Allocator.Allocator.Alloc: takes the walk as a list of blocks, the same for all refills of a call, and says whether a walk fails by a count.
- Bits.NextPow2Exact: is about the value; the compiler intrinsics and the portable bit tricks that compute it are not modelled.
- TailWalk.Walk: models the loop the four walks share, not what each does with a pair.
- PartitionTable.Device.SetIapPara: is called with what `GetIapPara` found; the checksum library is a parameter.
- UsbCdc.Cdc.Run: takes the callback as atomic with respect to a read, and no bus event inside a session.
- HciTransport.Transport.WriteAll: takes a push and the pump behind it as one step, and acceptance of ACL buffers by the controller.
- HciTransport.Queue.Push: reports what was taken, as for the host; the controller side reports the size of a packet it dropped as well.
- WellFormedLogs.CompactionIsWellFormed: asks that names come first (`NamesLead`), which `EntryOrder.OrderlyLeads` gives for every log built from the queues of creations, syncs, renames, removals and attribute changes; other queues are not modelled.
- Preferences.Prefs.GetValue: is the fixed-size read; `getString` and `getBytes` with their own truncation are not modelled.
- Bad blocks, wear levelling, half-orphan repair (`lfs_fs_deorphan`) and relocating commits.
- Migration from littlefs v1, support for older disk versions, superblock expansion, the locking wrappers, tracing, and failure of memory allocation.
- Truncating files, reading through the file cache, inline files, directories and paths.
- `pt_table_set_fw_boot_success`, which rewrites the slot in use, table creation and dumps.
- USB descriptors, HID, IN transfers, suspend and resume; HCI reset in the middle of a packet.
- Flash drivers, FreeRTOS, the POSIX layer, WiFi, sockets, BLE registers, `HardwareSerial`, `WString` and the Python tooling.
