# icedb: a Dafny model of its storage and query core

icedb is a small SQL database.  This project models the parts of it whose correctness is hard to see from
the code, and proves what they promise:

- **The paged B+ tree** that holds every index: 8192-byte pages, splits carried up a recorded path, leaf
  siblings linked both ways, deletion without merging.  Runs of the tree refine a finite map; every page
  image decodes to the node that was written; the exact key lengths for which no run ever overflows a page,
  and for which every page keeps its 300 spare bytes, are determined.
- **Sessions, savepoints and the undo log**: many sessions interleaving statements over shared tuple headers
  and write locks.  What each statement, COMMIT and ROLLBACK show to the transaction and to everyone else is
  determined, and `ROLLBACK TO` brings a transaction's work back to what it was when the innermost savepoint
  of that name was set, in every run.
- **The buffer pool** with clock-sweep replacement: runs refine a plain page store; the sweep's success, its
  ageing of the usage counts and the effect of the 64-bit wrap-around of the clock hand are characterised.
- **Query shortcuts**: the hash join against the nested loop, set operations with exact multiplicities,
  ranking windows, frontier evaluation of recursive queries up to the nodes of a graph that they find, and the
  rewriting of an equality filter into an index scan under whole queries.
- **Encodings**: sort keys, the row codec with its 32-bit NULL bitmap, civil-calendar arithmetic, timestamp
  text and `date_trunc`.

Where the code updates things in place the model is a class or a method with loops, proved against functions;
where it computes, the model is functions and lemmas.  Most files state a small machine on values first
(`SavepointRuns`, `PoolStates`, `BTreeFiles`) and an object that follows it step by step afterwards
(`QueryEngine`, `BufferPool`, `BTree`).

Some promises are not kept by the code on all inputs.  For these the model keeps the code as it is, shows a
concrete input, and states exactly when the promise holds:

| promise | exactly when | an input that breaks it |
|---|---|---|
| a node fits its page | `SafeKeyLimitExact` | `OverflowAt253` |
| a page keeps 300 spare bytes | `SpareKeyLimitExact` | `NoSpareAt233` |
| `ROLLBACK TO` brings a deleted row back | `SilentDeleteInRun` | `SilentDeleteLost` |
| the sweep evicts | `EvictionRuleExact` | `UnevenExists` |
| a hash join is the nested loop | `EqualityJoinExact`, `WidthJoinExact`, `FloatJoinExact` | `SelfJoinLost`, `IntWidthsLost`, `SignedZerosLost` |
| an index scan is the filtered table scan | `RewriteExact`, `OwnDeletesDecide`, `SelectStarExact` | `OwnDeleteReturns`, `LaterCommitReturns`, `NarrowLiteralLost`, `AliasDropped` |
| a recursive query finds everything | `PlainResultExact` | `ChainCutOff` |
| a window's sort is a total order | `SortTotalExact` | `NaNsRankApart` |
| NTILE makes the first buckets the larger ones | `StandardExact` | `SixInFour` |
| a row is read back | `RowRoundTrip` | `LateNullFails` |
| timestamp text is read back | `TimestampRoundTrip` | `InstantBefore1970Lost` |
| a truncated time is within 64 bits | `TruncFitsExact` | `LeastMonthLost` |
| `date_trunc` rounds down | `TruncFloorExact` | `BeforeEpochRoundsUp` |
| day numbers stay within 32 bits | `DaysFitExact`, `DateFitsExact`, `DatesFit` | `FormulasLeave32Bits` |

## Model

| member | source | states |
|---|---|---|
| `BTreeIndex.BTree.constructor` | crates/btree/src/tree.rs:22-54 | a new index file holds one empty leaf, is well formed and stands for the empty map |
| `BTreeIndex.BTree.ReadMeta` | crates/btree/src/tree.rs:60-63 | page 0 describes the tree in the other pages: its root, its height, its next free page, and an entry count that is the size of the map |
| `BTreeIndex.BTree.WriteMeta` | crates/btree/src/tree.rs:65-71 | writing the meta record changes no node and the record reads back |
| `BTreeIndex.BTree.ReadNode` | crates/btree/src/tree.rs:73-76 | a page read back is the node the tree has at that page |
| `BTreeIndex.BTree.WriteNode` | crates/btree/src/tree.rs:78-96 | a written page stands for the node written; no other page and not the meta record changes |
| `BTreeIndex.BTree.FindLeafPath` | crates/btree/src/tree.rs:99-136 | the descent ends, is as long as the tree is high, and each page on it is the slot of its level that holds the key |
| `BTreeIndex.BTree.Search` | crates/btree/src/tree.rs:312-333 | the map's answer: its TID for the key, or KeyNotFound |
| `BTreeIndex.BTree.Insert` | crates/btree/src/tree.rs:141-306 | DuplicateKey exactly when the key is present, changing nothing; otherwise the map gains exactly that entry and the tree is well formed again through every cascade of splits; the new file is the one `BTreeFiles.Inserted` gives |
| `BTreeIndex.BTree.SplitLeafPage` | crates/btree/src/tree.rs:170-217 | after a leaf split the entries are those before plus the new one, the leaf chain is relinked, and one slot waits for its parent |
| `BTreeIndex.BTree.StepUp` | crates/btree/src/tree.rs:226-268 | handing the waiting slot to its parent either makes the tree whole or leaves one waiting slot a level higher; entries and leaves stay |
| `BTreeIndex.BTree.Propagate` | crates/btree/src/tree.rs:219-268 | the loop up the path ends with a whole tree or with a slot waiting beside the root, using at most one new page a level |
| `BTreeIndex.BTree.GrowRoot` | crates/btree/src/tree.rs:270-302 | a new root over the old one and the waiting slot makes the tree whole and one level higher |
| `BTreeIndex.BTree.Delete` | crates/btree/src/tree.rs:419-440 | KeyNotFound exactly when the key is absent, changing nothing; otherwise the map loses exactly that key and no page is freed or merged; the new file is the one `BTreeFiles.Removed` gives |
| `BTreeIndex.BTree.NumEntries` | crates/btree/src/tree.rs:442-446 | the stored count is the size of the map |
| `BTreeIndex.BTree.ScanLeaf` | crates/btree/src/tree.rs:378-416 | one leaf contributes exactly its entries within the bounds, and the scan may stop once a key is above the upper bound |
| `BTreeIndex.BTree.RangeScan` | crates/btree/src/tree.rs:339-416 | the entries with start <= key <= end of the whole tree, found by following the right siblings |
| `BTreePaths.RangeMeaning` | crates/btree/src/tree.rs:339-416 | the entries of a range come in ascending key order and are exactly those within the bounds |
| `BTreePaths.RangeMap` | crates/btree/src/tree.rs:339-416 | as a map, a range is the map restricted to the keys within the bounds |
| `BTreePaths.DescendRows` | crates/btree/src/tree.rs:99-136 | following the separators from a slot that holds the key reaches the slot one level down that holds it |
| `BTreePaths.PageBound` | crates/btree/src/tree.rs:177-302 | at most twice as many pages as leaves are ever in use, and the height is bounded likewise |
| `BTreeSteps.SplitLeafStep` | crates/btree/src/tree.rs:170-217 | splitting a full leaf keeps every invariant but the one waiting slot |
| `BTreeSteps.AbsorbTree` | crates/btree/src/tree.rs:226-241 | a parent that takes the waiting slot without filling up makes the tree whole |
| `BTreeSteps.SplitParentTree` | crates/btree/src/tree.rs:242-266 | a parent that fills up is split and its promoted separator becomes the waiting slot |
| `BTreeSteps.RootTreeStep` | crates/btree/src/tree.rs:270-302 | a new root keeps every invariant |
| `BTreeSteps.TakeStep` | crates/btree/src/tree.rs:419-440 | taking an entry out of its leaf keeps every invariant and removes exactly that entry |
| `BTreeTheory.WholeMeaning` | crates/btree/src/tree.rs:99-136 | a whole tree is a B+ tree in the textbook sense: separators ascending with only the leftmost empty, keys of each subtree inside its interval, all leaves at one depth; the pages reached from the root are 1 to next-1, each reached once; its leaf chain, both ways, is the in-order list of leaves |
| `BTreeRuns.Step` | crates/btree/src/tree.rs:141-446 | one operation on a tree that tracks a map and a file answers as the map does and tracks both after the operation |
| `BTreeRuns.Run` | crates/btree/src/tree.rs:141-446 | every run of inserts, deletes, searches, counts and range scans from a fresh file answers as a finite map does |
| `BTreeRuns.RangeUnique` | crates/btree/src/tree.rs:339-416 | the answer to a range scan is determined by the map: sorted, exactly its entries in the range |
| `BTreeFiles.PathOfWhole` | crates/btree/src/tree.rs:99-136 | in a whole tree the descent by the stored children passes, on every level, the slot that holds the key |
| `BTreeFiles.RaisedWhole` | crates/btree/src/tree.rs:219-302 | handing a split up the path overflows no page and makes the tree whole, with the same entries and leaves |
| `BTreeFiles.InsertedWhole` | crates/btree/src/tree.rs:141-306 | on the pages alone: inserting overflows no page of a whole tree, leaves one, and adds the entry to its map |
| `BTreeFiles.RemovedWhole` | crates/btree/src/tree.rs:419-440 | on the pages alone: deleting leaves a whole tree and takes the key out of its map |
| `BTreeFiles.RunHolds` | crates/btree/src/tree.rs:141-446 | with keys of at most 252 bytes no run from a new file overflows a page, and the file it leaves is a whole tree that holds the map |
| `BTreeFilling.FillingSplits` | crates/btree/src/tree.rs:162-217 | ascending keys fill an empty leaf one by one; the one that makes it full splits it and sends the middle key up |
| `BTreeFilling.Emptying` | crates/btree/src/tree.rs:419-440 | deleting its keys in order empties a leaf and changes nothing else |
| `BTreeCapacity.SpareBytes` | crates/btree/src/node.rs:60-95 | in every whole tree with keys of at most 232 bytes each page has 300 bytes to spare |
| `BTreeCapacity.SafeKeyLimitExact` | crates/btree/src/node.rs:87-97 | no run of operations from a new file ever makes a node larger than its page if and only if keys have at most 252 bytes |
| `BTreeCapacity.SpareKeyLimitExact` | crates/btree/src/node.rs:87-90 | every page of every file that a run leaves has 300 spare bytes if and only if keys have at most 232 bytes |
| `BTreeCapacity.OverflowAt253` | crates/btree/src/node.rs:303-333 | a run with keys of at most 253 bytes, from a new file, that overflows a page |
| `BTreeCapacity.NoSpareAt233` | crates/btree/src/node.rs:303-333 | a run with keys of at most 233 bytes, from a new file, that leaves a page with exactly 299 bytes free |
| `BTreeCapacity.DeepAdds` | crates/btree/src/node.rs:259-333 | in the first run the right half of the split root has 7934 bytes, and the next promoted separator makes 8193 |
| `BTreeCapacity.Stages` | crates/btree/src/tree.rs:141-306 | for every i up to the capacity of the root, a run of insertions and deletions gives the root the first i planned separators |
| `BTreeNodeObject.BTreeNode.Size` | crates/btree/src/node.rs:69-84 | the size the loop adds up is the length of the image |
| `BTreeNodeObject.BTreeNode.Full` | crates/btree/src/node.rs:87-90 | full exactly when fewer than 300 bytes are left |
| `BTreeNodeObject.BTreeNode.Encode` | crates/btree/src/node.rs:92-150 | the buffer filled through a moving position is the page image, or an error exactly when the node is too large |
| `BTreeNodeObject.BTreeNode.Decode` | crates/btree/src/node.rs:153-231 | the node decoded from a page image, or an error for a short or malformed one |
| `BTreeNodeObject.BTreeNode.FindKey` | crates/btree/src/node.rs:234-247 | binary search: the index holds the key, and none is returned only if no entry has it |
| `BTreeNodeObject.BTreeNode.InsertLeaf` | crates/btree/src/node.rs:250-256 | the entry goes in front of the first key that is not below it |
| `BTreeNodeObject.BTreeNode.InsertInternal` | crates/btree/src/node.rs:259-281 | the separator goes after the leftmost one, in key order |
| `BTreeNodeObject.BTreeNode.SplitLeaf` | crates/btree/src/node.rs:284-300 | the halves by count, the median being the first key of the right one |
| `BTreeNodeObject.BTreeNode.SplitInternal` | crates/btree/src/node.rs:303-333 | the halves by count; the promoted separator's child becomes the leftmost child of the right half |
| `BTreeNodes.LeafInsertFits` | crates/btree/src/node.rs:60-95 | an entry added to a leaf with room fits the page, and so do both halves if it becomes full |
| `BTreeNodes.InternalInsertFits` | crates/btree/src/node.rs:60-95 | the same for a separator added to an internal node |
| `BTreeCodec.NodeRoundTrip` | crates/btree/src/node.rs:92-231 | every node that fits is decoded from its own image |
| `BTreeCodec.NodeDecodesExact` | crates/btree/src/node.rs:153-231 | of every string of bytes: decoding gives a node exactly if the string begins with its image, and is otherwise InvalidPage |
| `BTreeCodec.MetaRoundTrip` | crates/btree/src/meta.rs:19-50 | every meta record is decoded from its own 32 bytes, whatever fills the page after them |
| `BTreeCodec.MetaDecodesExact` | crates/btree/src/meta.rs:31-50 | a page is a meta record exactly if it has 32 bytes and begins with the magic number and the fields; otherwise CorruptMeta |
| `Bytes.LEDigit` | crates/btree/src/meta.rs:19-28 | byte i of a stored number counts 256 to the power of i |
| `Savepoints.UndoStatus` | crates/sql/src/engine.rs:748-766 | undoing a piece of log backwards leaves each tuple in the status its first mention gives |
| `Savepoints.RestoresMeans` | crates/sql/src/subtxn.rs:8-26 | if a piece of log restores a view, replaying it backwards gives exactly that view |
| `Savepoints.RestoresWrite` | crates/sql/src/executor.rs:1554-1557 | a logged write keeps what every savepoint's part of the log restores, even when a statement deletes a tuple twice |
| `Savepoints.RestoresSplit` | crates/sql/src/engine.rs:647-668 | undoing the end of the log leaves the earlier savepoints restorable from the rest |
| `Savepoints.WriteIsOwnStep` | crates/txn/src/manager.rs:287-375 | an insert or a locked delete changes only what its transaction may |
| `Savepoints.UndoIsOwnStep` | crates/txn/src/manager.rs:377-435 | undoing an own insert or an own delete changes only what its transaction may |
| `Savepoints.OthersSame` | crates/txn/src/lock.rs:28-62 | no other running transaction sees its own inserts and deletes change |
| `Savepoints.LiveByView` | crates/txn/src/manager.rs:452-541 | a transaction sees the committed tuples it has not deleted, and those it has inserted |
| `Savepoints.PublicKept` | crates/txn/src/manager.rs:452-541 | uncommitted work leaves what everyone else can see, and its data, alone |
| `SavepointRuns.WriteTracked` | crates/sql/src/executor.rs:1764-1768 | each write of a statement keeps every savepoint of its session restorable |
| `SavepointRuns.RunTracked` | crates/sql/src/executor.rs:1923-1926 | a whole statement does, whether it ends well or fails halfway |
| `SavepointRuns.RunOthers` | crates/txn/src/lock.rs:28-62 | and leaves the savepoints of all other sessions restorable |
| `SavepointRuns.CutTracked` | crates/sql/src/engine.rs:647-672 | after ROLLBACK TO the named frame and the older ones still restore their snapshots, so it can be repeated |
| `SavepointRuns.DropTracked` | crates/sql/src/engine.rs:678-696 | RELEASE removes only the named frame; the others still restore their snapshots |
| `SavepointRuns.FinishTracked` | crates/txn/src/manager.rs:128-255 | a commit or abort and the release of its locks leaves the other sessions' savepoints restorable |
| `SavepointRuns.StepTracks` | crates/sql/src/engine.rs:564-737 | every statement of every session keeps frames, log and snapshots together |
| `SavepointRuns.RunTracks` | crates/sql/src/engine.rs:564-737 | so does every run of statements of any number of sessions |
| `SavepointRuns.RollbackRestores` | crates/sql/src/engine.rs:630-676 | after any run, ROLLBACK TO succeeds exactly when a savepoint of that name survives, and then the live tuples are those of the moment the innermost one was set, but for what others committed since; otherwise nothing changes |
| `SavepointReturns.RollbackReturns` | crates/sql/src/engine.rs:630-676 | then some statement of the run is the SAVEPOINT, in the same transaction and the last of that name among those whose savepoints the session still has; after ROLLBACK TO every tuple that is public now just if it was public then is live just if it was live then; no tuple is gone and none has other data |
| `SavepointReturns.StandingSet` | crates/sql/src/engine.rs:630-676 | in every run each savepoint of a session was set by the statement that stands for it, and its snapshot is the transaction's work after that statement |
| `SavepointReturns.SilentDeleteInRun` | crates/sql/src/executor.rs:1721-1739 | a cascaded update whose insertion fails leaves its row deleted and nothing logged: in every run ROLLBACK TO then restores the work of the savepoint if and only if the log since then mentions that row |
| `SavepointReturns.SilentDeleteLost` | crates/sql/src/executor.rs:1721-1739 | one committed row, a savepoint, and then such a delete: the row is live at the savepoint and not after ROLLBACK TO |
| `SavepointReturns.RunData` | crates/txn/src/manager.rs:287-435 | no run removes a tuple or changes its data |
| `SavepointRuns.FramesInLog` | crates/sql/src/subtxn.rs:18-26 | in every run frame starts are nondecreasing and within the log |
| `SavepointRuns.LiveInRun` | crates/txn/src/manager.rs:452-541 | at every point of a run a session sees the committed tuples, less its deletes, plus its inserts |
| `SessionOutcomes.EndOutcome` | crates/sql/src/engine.rs:605-628 | after COMMIT everyone sees exactly what the transaction saw, after ROLLBACK what everyone saw before; both end the session and release its locks, no tuple is touched |
| `SessionOutcomes.NothingToEnd` | crates/sql/src/engine.rs:605-628 | without a transaction they do nothing |
| `SessionOutcomes.BeginOutcome` | crates/sql/src/engine.rs:588-603 | a transaction begins with what everyone sees, under a number that no other has |
| `SessionOutcomes.StatementInRun` | crates/sql/src/engine.rs:717-737 | in every run a statement of a session ends well exactly if each of its writes is accepted; then its transaction sees each tuple with the data of its last write, or not if that was a delete, and all others as before; otherwise the transaction is over as after ROLLBACK; nobody else sees anything of it |
| `SessionOutcomes.AutocommitInRun` | crates/sql/src/engine.rs:717-737 | in every run everyone sees a statement without a session at once: each tuple as its last write left it and the others as before, or nothing of it if a write is refused |
| `SessionOutcomes.SucceedsExact` | crates/txn/src/manager.rs:287-435 | the writes of a statement are all made exactly if none is an error, and each deleted tuple is there, or made before, and locked by nobody else |
| `SessionOutcomes.WritesShow` | crates/txn/src/manager.rs:287-435 | each tuple is as the last write at it left it, the others are as they were |
| `SessionEngine.QueryEngine.constructor` | crates/sql/src/engine.rs:22-50 | an engine over a heap left by earlier transactions has no session and no savepoint |
| `SessionEngine.QueryEngine.Begin` | crates/sql/src/engine.rs:568-603 | opens a transaction unless the session has one |
| `SessionEngine.QueryEngine.EndSession` | crates/sql/src/engine.rs:605-628 | commits, and everyone sees what the transaction saw, or aborts, and everyone sees what they saw; releases the locks and forgets the savepoints |
| `SessionEngine.QueryEngine.Savepoint` | crates/sql/src/engine.rs:630-645 | opens a transaction if need be and takes a snapshot of its work under the name |
| `SessionEngine.QueryEngine.FindFrame` | crates/sql/src/engine.rs:659-660 | the innermost frame of the name, searched from the end |
| `SessionEngine.QueryEngine.ApplyUndo` | crates/sql/src/engine.rs:748-766 | the reverse loop over the entries undoes them from the last to the first |
| `SessionEngine.QueryEngine.UndoInsert` | crates/txn/src/manager.rs:385-406 | marks only an own insert deleted |
| `SessionEngine.QueryEngine.UndoDelete` | crates/txn/src/manager.rs:411-432 | clears only an own delete |
| `SessionEngine.QueryEngine.RollbackTo` | crates/sql/src/engine.rs:647-676 | an error and no change unless the name survives; otherwise the transaction's work is the innermost snapshot of that name, which is kept with the older ones |
| `SessionEngine.QueryEngine.Release` | crates/sql/src/engine.rs:678-696 | an error unless the name survives; otherwise forgets that one snapshot |
| `SessionEngine.QueryEngine.WaitsFor` | crates/txn/src/lock.rs:38-48 | walking the chain of waiters says whether it comes back to the transaction that asks |
| `SessionEngine.QueryEngine.AcquireWriteLock` | crates/txn/src/lock.rs:28-62 | granted exactly if the transaction holds the lock afterwards; a refusal names another that holds it; no lock ever changes hands; as waiting is recorded only during the call, a deadlock is never reported |
| `SessionEngine.QueryEngine.PerformWrites` | crates/sql/src/executor.rs:66-70 | the writes of a statement in order up to the first refused one, with one log entry each |
| `SessionEngine.QueryEngine.Execute` | crates/sql/src/engine.rs:717-737 | a statement runs in the session's transaction, which it ends on error, or in one of its own, of which everyone then sees all or nothing |
| `ClockSweep.SweepTakes` | crates/storage/src/buffer.rs:172-203 | a sweep finds a victim exactly when some unpinned frame is passed more often than it was used |
| `ClockSweep.SweepStops` | crates/storage/src/buffer.rs:172-203 | it stops at the first tick that comes past an unpinned frame once more than that was used, with that frame, the hand one further, and every unpinned frame aged once for each time it was passed |
| `ClockSweep.SweepFrame` | crates/storage/src/buffer.rs:172-203 | a sweep changes only usage counts, never of a pinned frame; its victim is unpinned |
| `ClockSweep.EvictsIff` | crates/storage/src/buffer.rs:172-203 | without an uneven wrap, c calls in a row find a victim exactly when some unpinned frame has usage count below 2c |
| `ClockSweep.EvictionRuleExact` | crates/storage/src/buffer.rs:176-177 | for every number of calls that rule holds for all states with 8-bit counts if and only if the 64-bit hand does not wrap unevenly during them, or they are more than 128 |
| `ClockSweep.UnevenExists` | crates/storage/src/buffer.rs:176-177 | three frames and a hand two short of 2^64: a state for which the rule fails |
| `ClockSweep.FailureAges` | crates/storage/src/buffer.rs:172-203 | a failed call lowers every unpinned frame's count by exactly 2 and changes nothing else |
| `ClockSweep.CallsAreOneSweep` | crates/storage/src/buffer.rs:172-203 | calls in a row find a victim exactly when one sweep of as many ticks does |
| `ClockSweep.VisitsAtLeast` | crates/storage/src/buffer.rs:176-177 | a wrap costs no frame more than one visit |
| `ClockSweep.EvictsWithin129` | crates/storage/src/buffer.rs:172-203 | wherever the hand is, with one frame kept unpinned 129 calls in a row are enough |
| `ClockSweep.EvictsWithin128Exact` | crates/storage/src/buffer.rs:172-203 | 128 calls are enough in every state if and only if the hand does not wrap unevenly during them |
| `PoolStates.EvictRefines` | crates/storage/src/buffer.rs:172-203 | evicting changes no page's content, frees a frame nobody holds, and keeps table and descriptors inverse |
| `PoolStates.PinRefines` | crates/storage/src/buffer.rs:87-137 | pinning changes no page's content and never takes a frame held for another page |
| `PoolStates.PinAnsweredExact` | crates/storage/src/buffer.rs:87-137 | a pin is answered exactly if the page is cached, by its frame, or two rounds of the clock pass some unpinned frame more often than it was used |
| `PoolStates.PinAnsweredEven` | crates/storage/src/buffer.rs:87-137 | while the hand does not wrap unevenly: exactly if the page is cached or some frame nobody holds was used at most once |
| `PoolStates.VictimExact` | crates/storage/src/buffer.rs:172-203 | the victim is the frame at the first tick where one can be taken |
| `PoolStates.NewPoolAnswers` | crates/storage/src/buffer.rs:87-137 | a new pool answers every pin |
| `PoolStates.PinCounts` | crates/storage/src/buffer.rs:87-137 | a loaded page has been used once, a cached one once more, up to 255; neither becomes dirty |
| `PoolStates.UnpinRefines` | crates/storage/src/buffer.rs:140-148 | giving a hold back keeps the content, provided the last hold reports its writes |
| `PoolStates.WriteRefines` | crates/storage/src/buffer.rs:228-234 | writing a held frame writes the page it was pinned for and no other |
| `PoolStates.ReadRefines` | crates/storage/src/buffer.rs:219-225 | reading a held frame reads that page of the plain store |
| `PoolStates.FlushRefines` | crates/storage/src/buffer.rs:151-166 | flushing a frame changes no page's content |
| `PoolStates.FlushAllOnDisk` | crates/storage/src/buffer.rs:206-211 | with no write unreported, flushing everything makes the disk equal to the plain store |
| `PoolStates.RunRefines` | crates/storage/src/buffer.rs:87-211 | after every run the pool still stands for the plain store: contents, holds, inverse table and descriptors |
| `PoolStates.RunReads` | crates/storage/src/buffer.rs:87-234 | every run reads what the plain store would give |
| `PoolStates.HeldFramesStay` | crates/storage/src/buffer.rs:87-203 | at the end of every run each held frame has the page it was pinned for and as many pins as holds |
| `Buffer.BufferPool.constructor` | crates/storage/src/buffer.rs:65-81 | an empty pool, capped at 131072 frames, stands for the heap file |
| `Buffer.BufferPool.EvictFrame` | crates/storage/src/buffer.rs:172-203 | the loop of two rounds is the sweep, with the victim written back and taken out of the table; there is a victim exactly if some unpinned frame is passed more often than it was used |
| `Buffer.BufferPool.Allocate` | crates/storage/src/buffer.rs:109-117 | grows the heap file with blank pages until it has the page |
| `Buffer.BufferPool.PinPage` | crates/storage/src/buffer.rs:87-137 | one more hold on the page, exactly if it is cached or a frame can be taken; every other hold is untouched |
| `Buffer.BufferPool.UnpinPage` | crates/storage/src/buffer.rs:140-148 | one hold less |
| `Buffer.BufferPool.FlushFrame` | crates/storage/src/buffer.rs:151-166 | writes the frame back if it is dirty |
| `Buffer.BufferPool.FlushAllDirty` | crates/storage/src/buffer.rs:206-211 | afterwards the disk is the plain store, unless a write is unreported |
| `Buffer.BufferPool.ReadFrame` | crates/storage/src/buffer.rs:219-225 | returns the page of the plain store |
| `Buffer.BufferPool.WriteFrame` | crates/storage/src/buffer.rs:228-234 | changes the page of the plain store |
| `SetOps.Multiplicities` | crates/sql/src/executor.rs:965-1046 | UNION ALL l + r, INTERSECT ALL min(l, r), EXCEPT ALL max(0, l - r), distinct forms 0 or 1, for every row value |
| `SetOps.OrderExact` | crates/sql/src/executor.rs:965-1046 | which of the copies are given, and in which order: the first of each kind, the first copies that the right can match, or the others, in the order of the left |
| `SetOps.RenamedNames` | crates/sql/src/executor.rs:965-1046 | in a UNION the rows of the right take the names of the left |
| `SetOps.Deduplicate` | crates/sql/src/executor.rs:6244-6254 | each row that is the first of its kind, in order |
| `SetOps.TakeCopies` | crates/sql/src/executor.rs:1009-1042 | taking copies out of the pool of the right side leaves the first min(l, r) left copies on one side and the others on the other |
| `SetOps.Filter` | crates/sql/src/executor.rs:1001-1034 | the left rows the right side has, or has not |
| `SetOps.Execute` | crates/sql/src/executor.rs:965-1046 | the operation as a whole, with its multiplicities |
| `HashJoin.FindPartners` | crates/sql/src/executor.rs:2355-2363 | the partners of a left row in order, or the first error of the condition |
| `HashJoin.ExecNestedLoop` | crates/sql/src/executor.rs:2346-2392 | the nested loop for inner and left joins |
| `JoinMeaning.LoopExact` | crates/sql/src/executor.rs:2346-2392 | it succeeds exactly if the condition has a value on every pair, and gives in the order of left and right rows the pairs that satisfy it and, in a left join, for each left row without a partner that row with a NULL under each name of the right |
| `JoinMeaning.LeftKept` | crates/sql/src/executor.rs:6264-6276 | every left row begins some row of a left join |
| `JoinMeaning.PaddedColumn` | crates/sql/src/executor.rs:6264-6276 | a column of a left row without a partner keeps its value |
| `HashJoin.BuildTable` | crates/sql/src/executor.rs:2274-2292 | the table files every right row with a key under its text, in order; all fail exactly when the fallback is taken |
| `HashJoin.ExecHashJoin` | crates/sql/src/executor.rs:2241-2343 | the hash join with its choice of key sides, fallback and padding |
| `HashJoin.LookupPartners` | crates/sql/src/executor.rs:2295-2341 | looking partners up never finds one too many, and finds all exactly when no matching pair is filed elsewhere |
| `HashJoin.ContributionExact` | crates/sql/src/executor.rs:2295-2341 | what a left row contributes is never longer than in the nested loop, and the same only if no partner is lost |
| `HashJoin.EqualityJoinExact` | crates/sql/src/executor.rs:2241-2343 | for inner and left joins on an equality of keys: the hash join returns the nested loop's rows if and only if equal left and right keys always have the same text; where the equality is written right key first and each key can be evaluated on the other side too, if and only if it falls back or the texts of the keys on those wrong sides meet |
| `HashJoin.FloatJoinExact` | crates/sql/src/executor.rs:2274-2292 | for float keys, sides not mistaken: if and only if no left zero meets a right zero of the other sign |
| `HashJoin.WidthJoinExact` | crates/sql/src/executor.rs:2274-2292 | for INT keys against BIGINT keys, sides not mistaken: if and only if no two of them are equal |
| `HashJoin.ColumnShows` | crates/sql/src/executor.rs:2320-2341 | a right row with a non-NULL key column is not all NULLs, so a lost partner is never mistaken for padding |
| `HashJoin.JoinsAgree` | crates/sql/src/executor.rs:2241-2392 | for inner and left joins on a leftmost equality of keys of one plain type, written either way round, the hash join returns the nested loop's row sequence, NULL keys, fallback and padding included; with mistaken sides, if it falls back or the texts on the wrong sides meet |
| `HashJoin.SignedZerosLost` | crates/sql/src/executor.rs:2274-2292 | one row with 0.0 and one with -0.0: inner and left hash joins both differ from the nested loop |
| `HashJoin.IntWidthsLost` | crates/sql/src/executor.rs:2274-2292 | one row with an INT and one with the equal BIGINT: both joins differ |
| `HashJoin.SelfJoinLost` | crates/sql/src/executor.rs:2255-2268 | `employees e JOIN employees m ON m.id = e.mgr` over one row each: the sides are mistaken, the nested loop finds the pair and the hash join does not |
| `HashJoin.EmployeeColumns` | crates/sql/src/executor.rs:2765-2790 | a column qualified by one alias of a self-join is found, by its bare name, on the rows of the other |
| `HashJoin.LeftColumn` | crates/sql/src/executor.rs:2765-2803 | a qualified column of the left has its value on every merged row |
| `HashJoin.RightColumn` | crates/sql/src/executor.rs:2765-2803 | so has one of the right, if the left has none of that name |
| `Queries.EqualIsSame` | crates/sql/src/executor.rs:3903-3974 | on two values of one plain type, = is true exactly of equal ones |
| `Queries.AndTrue` | crates/sql/src/executor.rs:3903-3917 | a true AND has two true operands, for all NULLs and types |
| `Comparisons.CompareMeans` | crates/sql/src/value.rs:460-512 | comparison follows one order: NULL before every value, integers of either width and floats by their numbers, other values as those of their type in an index |
| `Comparisons.OperatorsMean` | crates/sql/src/executor.rs:3968-3986 | the six comparison operators on two values of that order |
| `Comparisons.OperatorsUnordered` | crates/sql/src/executor.rs:3929-3986 | with a NULL they give NULL; with a NaN only `<>` is true |
| `Comparisons.NoOtherTies` | crates/sql/src/value.rs:460-512 | among values of one plain type only equal ones tie |
| `Comparisons.TextsRead` | crates/sql/src/executor.rs:3933-3967 | a text beside a date, timestamp or UUID is compared as what it reads as |
| `Comparisons.LogicMeans` | crates/sql/src/executor.rs:3903-3999 | with false below unknown below true, AND is the lesser of its operands, OR the greater, NOT the opposite |
| `RowOperators.BareFound` | crates/sql/src/executor.rs:2765-2803 | a bare name is the first column of that name |
| `RowOperators.OneEnding` | crates/sql/src/executor.rs:2765-2803 | or else the only column whose name ends in it after a dot |
| `RowOperators.NoEnding` | crates/sql/src/executor.rs:2765-2803 | no such column is an error |
| `RowOperators.TwoEndings` | crates/sql/src/executor.rs:2765-2803 | and so are several |
| `RowOperators.QualifiedFound` | crates/sql/src/executor.rs:2765-2803 | a qualified name is found as it is, or else in lower case, or else as the bare name |
| `RowOperators.FilterExact` | crates/sql/src/executor.rs:2034-2045 | a filter fails exactly if its condition fails on a row, and keeps in order the rows of which it is true |
| `RowOperators.ProjectExact` | crates/sql/src/executor.rs:2013-2032 | a select list fails exactly if an expression fails on a row, and otherwise has for each row the values of its expressions under their names |
| `Windows.Rank` | crates/sql/src/executor.rs:4188-4210 | the loop gives each row of the sorted partition its rank and touches no other row |
| `Windows.DenseRank` | crates/sql/src/executor.rs:4211-4227 | the same for dense ranks |
| `Windows.Ntile` | crates/sql/src/executor.rs:4475-4486 | the same for buckets; fewer than one bucket counts as one |
| `Windows.RankMeaning` | crates/sql/src/executor.rs:4188-4210 | over a partition sorted on any total order of its keys, RANK is 1 plus the number of rows with a strictly earlier key |
| `Windows.DenseMeaning` | crates/sql/src/executor.rs:4211-4227 | DENSE_RANK is 1 plus the number of different earlier keys |
| `WindowOrder.SortIsTotal` | crates/sql/src/executor.rs:4148-4173 | the comparison of the sort (NULLs first, column by column, descending ones reversed) is a total order of keys with one type or NULL per column, and its ties are exactly the equal keys |
| `Comparisons.SortsExactly` | crates/sql/src/executor.rs:4148-4173 | one key sorts before another exactly if some column decides so: the columns before it are the same, and there it comes before in the order of its values, or after if descending |
| `WindowOrder.SortTotalExact` | crates/sql/src/executor.rs:4148-4173 | with floats among the types: if and only if no key has a NaN |
| `WindowOrder.RanksOfSorted` | crates/sql/src/executor.rs:4148-4227 | so, over a partition in that order, RANK and DENSE_RANK count the rows and the different keys that sort before |
| `WindowOrder.NaNsRankApart` | crates/sql/src/executor.rs:4188-4210 | two rows with a NaN sort as equals and get ranks 1 and 2 |
| `Windows.NtileFair` | crates/sql/src/executor.rs:4475-4486 | NTILE(k) is nondecreasing in 1..k with bucket sizes that differ by at most one |
| `Tiles.StandardExact` | crates/sql/src/executor.rs:4475-4486 | NTILE puts every row into the bucket where the SQL standard has it, the larger buckets first, if and only if the rows divide evenly or the square of the remainder exceeds the number of buckets times one less than the remainder |
| `Tiles.SixInFour` | crates/sql/src/executor.rs:4475-4486 | six rows in four buckets make sizes 2, 1, 2, 1 |
| `RecursiveCte.FilterFresh` | crates/sql/src/executor.rs:4570-4586 | keeps the rows with new keys, each key once, and remembers the keys |
| `RecursiveCte.Execute` | crates/sql/src/executor.rs:4503-4591 | the rounds up to the cap of 1000, over the renamed base rows |
| `RecursiveCte.AddedKeysDistinct` | crates/sql/src/executor.rs:4533-4591 | with CYCLE the rows added to the base have pairwise distinct keys, none a base key |
| `RecursiveCte.CycleColumn` | crates/sql/src/executor.rs:4537-4547 | the key of a row is the text of the first column with the name of the CYCLE clause, or of the first column |
| `RecursiveCte.AliasedNames` | crates/sql/src/executor.rs:4522-4532 | a base row with as many columns as the signature takes its names |
| `RecursiveCte.ResultIsClosure` | crates/sql/src/executor.rs:4533-4591 | for base rows that are good, and a term that takes good rows to good rows and makes of several what it makes of each: every result row is reached from the base, and if the loop stops before the cap every row made from a result row has its key among the result's; a term that succeeds on good rows never fails |
| `RecursiveCte.ResultKeysAreReachable` | crates/sql/src/executor.rs:4533-4591 | if moreover the keys a good row leads to depend on its key alone and the loop stops before the cap, the keys of the result are exactly those of all rows reachable from the base |
| `RecursiveCte.FewKeysStop` | crates/sql/src/executor.rs:4533-4591 | the loop stops before the cap when fewer keys are reachable than the base has keys and the cap has rounds together |
| `RecursiveCte.PlainResultExact` | crates/sql/src/executor.rs:4533-4591 | without CYCLE, after so many rounds: exactly the rows reachable in so many steps; all reachable rows if and only if one step more reaches no other, as when the loop stops before the cap |
| `RecursiveTerms.LinearDistributes` | crates/sql/src/executor.rs:1130-1248 | a term that names the CTE once, under filters, select lists, inner joins and left joins that keep it, distributes over its rows, if its hash joins on them are nested loops |
| `RecursiveTerms.HashlessDistributes` | crates/sql/src/executor.rs:1130-1248 | without hash joins it does over all rows, whatever columns it looks up |
| `RecursiveTerms.LinearTotal` | crates/sql/src/executor.rs:1130-1248 | it succeeds on good rows if it does on each, and on none |
| `RecursiveTerms.TermSpreads` | crates/sql/src/executor.rs:1130-1248 | such a term fails on several rows exactly when it fails on one of them |
| `JoinMeaning.InnerPairs` | crates/sql/src/executor.rs:2346-2392 | the inner nested loop succeeds exactly when its condition has a value on every pair, and gives the pairs that satisfy it |
| `GraphQueries.ReachableIsPath` | crates/sql/src/executor.rs:4533-4591 | for `SELECT e.dst FROM edges AS e JOIN t ON e.src = t.n` over any edges the rows reachable in so many steps are the nodes at the end of a path of at most so many edges |
| `GraphQueries.GraphReachable` | crates/sql/src/executor.rs:4533-4591 | with CYCLE, over any graph with no more nodes than the cap: the loop stops before the cap, and the result is the nodes connected with the start, each once |
| `GraphQueries.PlainGraphReachable` | crates/sql/src/executor.rs:4533-4591 | without CYCLE, over any such graph, the result is the same nodes |
| `GraphQueries.PlainGraph` | crates/sql/src/executor.rs:4533-4591 | without CYCLE, over any graph: the nodes within as many edges as the cap |
| `GraphQueries.ChainCutOff` | crates/sql/src/executor.rs:4549-4550 | a chain of 1001 edges: its last node is missing, without an error |
| `GraphQueries.GraphExecuted` | crates/sql/src/executor.rs:4503-4591 | the same of the whole evaluation, with the cap of 1000 and the column named in the CTE's signature |
| `Optimizer.RangeSelectivity` | crates/sql/src/optimizer.rs:195-239 | the estimate for a range predicate is 0.3 or 0.5 |
| `Optimizer.OnlyEqualities` | crates/sql/src/optimizer.rs:142-191 | so the range rewriting never fires: every rewriting is an equality with a literal |
| `Optimizer.RewrittenExact` | crates/sql/src/optimizer.rs:142-191 | a filtered scan is rewritten exactly if the filter equates an indexed column with a literal |
| `Optimizer.AgreesByType` | crates/sql/src/executor.rs:3903-3974 | for a literal of the column's plain type, or NULL, the equality says what the index key says |
| `Optimizer.SeesDiffer` | crates/sql/src/executor.rs:4939-4965 | exactly the tuple headers on which the visibility tests of the table scan and of the index scan differ: own deletes of others' tuples, and commits the snapshot does not see |
| `Optimizer.SnapshotShows` | crates/txn/src/manager.rs:274-284 | the work of others shows in a snapshot exactly if they had begun and were no longer running when it was taken |
| `Optimizer.CurrentSees` | crates/txn/src/manager.rs:500-541 | with a snapshot of now a scan sees what was made by the transaction or committed, and not so deleted |
| `Optimizer.BareRewriteExact` | crates/sql/src/optimizer.rs:142-191 | over a faithful index a filtered scan without alias that succeeds and the index scan it is rewritten to give the same rows if and only if every tuple is safe, as below |
| `Optimizer.SafeByDeletes` | crates/sql/src/executor.rs:4939-4965 | with a literal of the column's type and a read-committed snapshot every tuple is safe if and only if no tuple under the literal's key is one the transaction has deleted itself and the scan's filter passes |
| `OptimizedPlans.LookupQualified` | crates/sql/src/executor.rs:2765-2790 | a column of the table, bare or qualified, is found in the row with its alias as in the row without |
| `OptimizedPlans.EvalQualified` | crates/sql/src/executor.rs:2764-2830 | so an expression that only refers to columns has the same value, or the same error, on both |
| `OptimizedPlans.RewriteExact` | crates/sql/src/executor.rs:4888-4974 | over a faithful index a filtered scan with any alias that succeeds gives the rows of the index scan it is rewritten to, each qualified by the alias, if and only if every tuple is safe: one both scans see has the literal in its column just when the equality holds, one only the table scan sees fails the equality, one only the index scan sees is not under the literal's key, or the scan's own filter rejects it |
| `OptimizedPlans.OwnDeletesDecide` | crates/sql/src/executor.rs:4888-4974 | with a literal of the column's type and a read-committed snapshot: if and only if no tuple under the literal's key is one the transaction has deleted itself and the scan's filter passes |
| `OptimizedPlans.SelectStarExact` | crates/sql/src/planner.rs:1661-1705 | `SELECT * FROM table AS alias WHERE column = literal` answers the same before and after the rewriting, which the planner does as the optimizer does, if and only if every tuple is safe |
| `OptimizedPlans.OwnDeleteReturns` | crates/sql/src/executor.rs:4939-4965 | `SELECT *` by key from a one-tuple table from which the transaction has deleted the row: no row as planned, the row when rewritten |
| `OptimizedPlans.LaterCommitReturns` | crates/sql/src/executor.rs:4939-4965 | a REPEATABLE READ snapshot and a row committed after it: no row as planned, the row when rewritten |
| `OptimizedPlans.NarrowLiteralLost` | crates/sql/src/planner.rs:3521-3527 | an Int8 column and the Int4 literal 7 that SQL text gives: the row as planned, no row when rewritten |
| `OptimizedPlans.AliasDropped` | crates/sql/src/executor.rs:6048-6068 | the scan gives the columns t.id and id, the index scan only id |
| `OptimizedPlans.ProjectCloses` | crates/sql/src/executor.rs:2013-2032 | a select list of expressions over the columns does not notice the lost alias |
| `OptimizedPlans.LimitPasses` | crates/sql/src/executor.rs:2115-2123 | LIMIT and OFFSET pass the rows on, with or without it |
| `OptimizedPlans.LimitedAre` | crates/sql/src/executor.rs:2115-2123 | row k is row offset + k, as long as k is below the limit and there is one |
| `OptimizedPlans.OptimizePreserves` | crates/sql/src/optimizer.rs:20-137 | optimizing keeps the row sequence of every plan that succeeds, by structural induction, if every rewriting has a faithful index and safe tuples and what is above it only looks columns up or passes rows through; where nothing above looks columns up the rows are the same but for the lost alias |
| `OptimizedPlans.SelectPreserves` | crates/sql/src/planner.rs:1258-1345 | in particular a query with a select list over one filtered table answers as before |
| `PlannedQueries.SortPasses` | crates/sql/src/executor.rs:2047-2101 | ORDER BY expressions over the columns puts the rows in the same order without the alias |
| `PlannedQueries.AggregateCloses` | crates/sql/src/executor.rs:2394-2470 | aggregation, as any function of its keys and arguments on the rows, does not notice the lost alias |
| `PlannedQueries.NothingLost` | crates/sql/src/optimizer.rs:20-137 | joins, set operations and whatever else is above a select list or an aggregation need no hypothesis |
| `PlannedQueries.OrderedPreserves` | crates/sql/src/planner.rs:600-760 | a query over one filtered table with select list, ORDER BY, LIMIT and OFFSET answers as before if every tuple is safe |
| `PlannedQueries.AggregatePreserves` | crates/sql/src/planner.rs:1274-1318 | so does an aggregate query, whatever is done with its result |
| `SortKeys.KeyOrder` | crates/sql/src/codec.rs:176-252 | within a type byte order is value order (Float8: the total order of IEEE 754-2019) and equal keys are equal values |
| `SortKeys.KeyInjective` | crates/sql/src/codec.rs:176-252 | keys are equal only for equal values of equal types; types follow each other with NULL first |
| `SortKeys.FloatKeyOrder` | crates/sql/src/codec.rs:193-204 | the turned-over bit pattern follows totalOrder |
| `Floats.TotalOrderIs` | crates/sql/src/codec.rs:193-204 | totalOrder of section 5.10 of IEEE 754-2019, stated on numbers, zeros and NaNs, is the sign-and-magnitude order of the patterns |
| `SortKeys.ScanFindsBetween` | crates/btree/src/tree.rs:339-416 | scanning an index between the keys of two bounds finds exactly the values in between |
| `SortKeys.ScanInOrder` | crates/sql/src/value.rs:460-519 | and finds them in their order |
| `SortKeys.ScanFindsEqual` | crates/sql/src/executor.rs:4914-4922 | an equality scan finds exactly the value asked for |
| `RowCodec.EncodeRow` | crates/sql/src/codec.rs:8-24 | the loop yields the bytes of the non-NULL values in order and a bitmap of the NULLs |
| `RowCodec.Decode` | crates/sql/src/codec.rs:27-173 | the loop with its offset decodes column by column, with its errors and its NULLs for missing bytes |
| `RowCodec.BitmapMarks` | crates/sql/src/codec.rs:12-18 | bit i is set exactly for a NULL in column i, for the first 32 columns |
| `RowCodec.BitmapFits` | crates/sql/src/codec.rs:12-18 | it has 32 bits for any number of columns |
| `RowCodec.ValueRoundTrip` | crates/sql/src/value.rs:53-223 | every value of every type is read back from its own bytes, whatever follows |
| `RowCodec.ReadExact` | crates/sql/src/codec.rs:26-170 | of every string of bytes: too few read as NULL, otherwise what is read has exactly the bytes taken, any byte but 0 being a true Bool |
| `RowCodec.ReadFailsExact` | crates/sql/src/codec.rs:26-170 | reading fails exactly on a length that goes past the end or text that is not UTF-8 |
| `Utf8.Utf8Exact` | crates/sql/src/value.rs:53-223 | which are the strings that encode no sequence of Unicode scalar values |
| `RowCodec.RowRoundTrip` | crates/sql/src/codec.rs:8-173 | a row comes back, with columns added since as NULL, if and only if every NULL from the 33rd column on is followed by fewer bytes than its column needs |
| `RowCodec.EarlyNullsRoundTrip` | crates/sql/src/codec.rs:8-173 | in particular whenever the NULLs are in the first 32 columns |
| `RowCodec.LateNullFails` | crates/sql/src/codec.rs:13-16 | a row of 34 integers with a NULL in the 33rd column that does not come back |
| `Calendar.DateRoundTrip` | crates/sql/src/value.rs:600-623 | every valid date of the proleptic Gregorian calendar comes back from its day number |
| `Calendar.DayRoundTrip` | crates/sql/src/value.rs:600-623 | every day number comes back from its date, which is a valid one |
| `Calendar.TomorrowCounts` | crates/sql/src/value.rs:600-610 | consecutive dates have consecutive day numbers, counted from 1970-01-01 |
| `Calendar.DaysCount` | crates/sql/src/value.rs:611-623 | consecutive day numbers have consecutive dates |
| `Calendar.SameOrder` | crates/sql/src/value.rs:600-610 | day numbers are ordered as dates are |
| `Calendar.DaysFitExact` | crates/sql/src/value.rs:611-623 | the day-to-date formula stays within 32 bits if and only if the day number is at most i32::MAX - 719468 |
| `Calendar.DateFitsExact` | crates/sql/src/value.rs:524-608 | for every year, month and day the parser accepts, the date-to-day formula stays within 32 bits if and only if the day number is from i32::MIN to i32::MAX - 719468 |
| `Calendar.DatesFit` | crates/sql/src/value.rs:600-608 | for valid dates: if and only if the date is from -5877641-06-23 to 5879610-09-09 |
| `Calendar.FormulasLeave32Bits` | crates/sql/src/value.rs:600-623 | day number i32::MAX and date 5879610-09-10 take the formulas out of 32 bits |
| `Timestamps.TimestampRoundTrip` | crates/sql/src/value.rs:541-597 | a timestamp is parsed back from its own text if and only if it is not before 1970 or is midnight of a day of year 0 or later |
| `Timestamps.InstantBefore1970Lost` | crates/sql/src/value.rs:581-597 | the last microsecond of 1969 is written with a time of 1970 and read back as 999999 |
| `Timestamps.DateTextParses` | crates/sql/src/value.rs:524-538 | the text of a date of a non-negative year parses to its day number |
| `Timestamps.TimeTextParses` | crates/sql/src/value.rs:555-575 | the text of a time of day, with or without a fraction, parses to its microseconds |
| `TimestampTexts.TimestampIs` | crates/sql/src/value.rs:540-575 | any numbers for date and time of day, a space or `T` between them, white space around, with any fraction or none: day, hours, minutes, seconds and millionths together, exactly if month, day and year are in range |
| `TimestampTexts.DateAloneIs` | crates/sql/src/value.rs:540-553 | a date alone is its midnight |
| `TimestampTexts.DateIs` | crates/sql/src/value.rs:524-538 | three numbers are a date exactly if month and day are in their ranges and the year has 32 bits |
| `TimestampTexts.FractionIs` | crates/sql/src/value.rs:555-563 | a fraction of at most six digits counts tenths, hundredths and so on; of a longer one the first six digits count |
| `Text.SignsMean` | crates/sql/src/value.rs:530-574 | a number with a sign is read exactly if it is in range |
| `TimestampTexts.DayAndAHalfSecond` | crates/sql/src/value.rs:540-575 | 1970-01-02 00:00:01.5 is 86401500000 |
| `Timestamps.NegativeYearFails` | crates/sql/src/value.rs:524-538 | a year before 0 is written with a sign the parser takes for a separator |
| `DateTruncation.TruncFloorExact` | crates/sql/src/value.rs:642-690 | for every time the truncation is the last boundary of the unit not after it if and only if the time is not before 1970; or, for clock units and days, is a boundary; or, for the others, is a midnight or not on the last day of a unit, in a year whose decade or century the code finds |
| `DateTruncation.BeforeEpochRoundsUp` | crates/sql/src/value.rs:642-660 | the last microsecond of 1969 is truncated to the first day of 1970 |
| `DateTruncation.TruncFitsExact` | crates/sql/src/value.rs:642-690 | of a 64-bit time the code's last product is within 64 bits if and only if, for months, quarters and years, the day it takes the time to be on is not before the year -290307 |
| `DateTruncation.LeastMonthLost` | crates/sql/src/value.rs:665-668 | the month of the least 64-bit time is not |
| `DateTruncation.TruncIsFloor` | crates/sql/src/value.rs:642-690 | from 1970 on the truncation is a boundary of the unit, not after the time, with no boundary in between |
| `DateTruncation.TruncMonotone` | crates/sql/src/value.rs:642-690 | truncation is monotone, for all times |
| `DateTruncation.TruncThrough` | crates/sql/src/value.rs:642-690 | for all times, truncating to a unit first changes nothing for the units it divides; truncating twice is truncating once |
| `DateTruncation.TruncFrom1970` | crates/sql/src/value.rs:642-690 | except for weeks and centuries the truncation of a time from 1970 on is not before 1970 |
| `DateTruncation.NamesMean` | crates/sql/src/value.rs:642-690 | the plural of a unit means the same; microseconds and unknown names leave the time as it is |

## Left out

- Files, the write-ahead log, crash recovery, TLS, the wire protocol, the command line, the admin interface and the drivers: input and output.  The index file, the heap file and the buffer pool's disk are sequences of pages; I/O errors are not modelled.
- Locks inside the process: each tree operation, each pool call and each SQL statement is one atomic step.
- Opening an existing index file: the constructor models a new one.
- `BTreeIndex.BTree.Insert`: keys longer than the tree's limit (at most 252 bytes), TIDs outside 32 and 16 bits and page numbers beyond 32 bits are excluded.  The limit is the largest for which the code works: with one byte more there is a run that overflows a page (`OverflowAt253`), where the fullness test subtracts below zero or encoding fails with pages already written.  `Room` is met by every run of fewer than 2^30 - 1 operations.
- `BTreeRuns.Step`: as for `Insert`, keys have at most 252 bytes and page numbers 32 bits.
- `BTreeRuns.Run`: as for `Insert`, keys have at most 252 bytes; what longer keys do to the file is `BTreeFiles.FileAfter`, up to the first overflow.
- `BTreeCapacity.SafeKeyLimitExact`: speaks of runs of fewer than 2^30 - 1 operations, so that page numbers stay within 32 bits; so does `SpareKeyLimitExact`.
- In sessions and savepoints read-committed visibility stands for all isolation levels (the optimizer's model has snapshots); serialization checks and VACUUM are not modelled.
- `SavepointRuns.RollbackRestores`: covers logged statements; prepared EXECUTE and schema changes inside a savepoint write no undo log and are not modelled.  A tuple is deleted only after some scan of the statement saw it, as the executor does.  A cascaded ON UPDATE whose insertion fails, because the child row no longer fits a page, deletes the child without an undo entry and goes on; such a delete as the last step before ROLLBACK TO is `SavepointReturns.SilentDeleteInRun`, statements after one are not modelled.
- A refused delete leaves the lock as it was; the code may take the lock before it finds the tuple missing, but the transaction ends there and releases it.
- The page checksum, stamped on writing and checked on reading, is not part of a page's content here; pin counts are not bounded by 32 bits.
- Multiplication overflow of absurd hours in a time of day.
- Values: arrays; the text of Numeric and Json is stored, but comparisons of Numerics, and of integers with floats, are a parameter.  Strings are their UTF-8 bytes; byte slices of a fraction are taken character by character.
- Expressions other than literals, columns, comparisons, AND, OR, NOT and IS NULL are arbitrary functions of the row; lower case and the debug text of a value are parameters.
- `HashJoin.EqualityJoinExact`: for a left join the right key has to show, as every column does: a right row with a key is not all NULLs.
- Right, full and cross joins, USING, lateral joins, aggregation, sorting and DISTINCT: in plans they are arbitrary functions of their input rows.
- `WindowOrder.RanksOfSorted`: takes the partition in the order of its sort as given, with keys of one type per column and no NaN (where it fails, by `NaNsRankApart`), Numeric or Json; partitioning, window frames and the other window functions are not modelled.
- In recursive terms: set operations, DISTINCT, aggregation and the CTE named twice; SEARCH and the CYCLE output columns are not modelled.  The planner never sets the CYCLE column, so SQL text only reaches the results without it.  The copies of the set operations on the recursive path are left out.
- `OptimizedPlans.OptimizePreserves`: that a window function right above a rewritten scan only looks columns up is a hypothesis; for select lists, ORDER BY, aggregation, LIMIT and everything above them it is proved (`PlannedQueries`).  A join or set operation right above a rewritten scan has the hypothesis too, but the planner builds none: it puts the filter above the join.  Column names have no dot.
- `HashJoin.JoinsAgree`: for a conjunction of which the equality is only the leftmost part, that the texts on the mistaken sides meet is sufficient; `HashJoin.EqualityJoinExact` has both directions for the equality alone.
- Index maintenance: that an index maps each distinct non-NULL key to its one tuple is a hypothesis of the rewriting, as duplicate-key errors are discarded.
- The SQL parser and planner, access control, the catalog, built-in functions, COPY and authentication.
