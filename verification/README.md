# Verified model of the transaction buffer, the union read path and online schema change

This project models three parts of the database server and proves what callers rely on.

**The transaction buffer.** `MemDb` is a red-black tree whose nodes live in an arena and are named by address, and a
value log whose records point back to their nodes and to the previous record of the same node. Stages are undone by
walking the log backwards. The source's objects that change in place are classes (`Arena`, `Vlog`, `MemDb`,
`MemdbIterator`, `MemdbSnapIter`), and its loops are loops. The tree itself appears in the proofs as a ghost value
(`RedBlack.Tree`), focused by a context (`RedBlack.Ctx`): `NodeTable.At` says that the table of nodes contains that tree
with exactly these links, colours and parents. What callers see is `MemDb.View()`, a stack of value layers and one map
of flags; every operation is proved to do to the view what `Write`, `MergeTop` or `Discard` say, `Runs` proves what
whole runs of operations do to it, and `SnapshotRuns` what a snapshot of the buffer reads after them.

**The union read path.** `UnionIter` merges the buffer's iterator with a snapshot's. Both are seen as listings of maps
(`Listings`, `BufferListings`), and the merge as a listing of the overlay. A batch of keys and an iteration read that
overlay; reading one key does too, except that a snapshot value of no bytes is not found (`UnionStores.OneOrMany`).
`IndexDrops` deletes from the buffer while the union iterator stands on it.

**Online schema change.** `Builders` applies schema diffs to copies of what the published replicant is made of;
`DiffLoads` proves that the result is a full load although every table is read as it is at the latest version.
`SchemaValidators` proves that the shortened change history answers as the whole one would, and `Petris` joins the two:
a transaction that passes the check finds its tables unchanged.

The snapshot below the union store and the stored schema are not part of the modelled code. They appear as
`UnionStores.KvSnapshot`, which holds fixed entries and whose calls may fail at any point, and as a function from
versions to catalogs (`DiffLoads.Recorded`).

## What the code does that its documentation does not say

* Restarting the validator after a stop does not make it judge by the changes again: the update of the reload in between
  is ignored and the latest version stays 0. `SchemaValidators.SchemaValidator.PassesByHistory` gives the exact
  condition, `StopReloadRestart` a run in which a transaction passes on a changed table.
* Dropping an index removes every key with its prefix exactly if the prefix is not all 255 (`IndexDrops.RemovesAll`);
  otherwise it removes only the key that equals the prefix.
* A snapshot value of no bytes is shown by the union iterator and by a batch but not found by the union store
  (`UnionStores.OneOrMany`).
* A batch read through an empty buffer does not ask the cache in the middle (`UnionStores.BatchGet`).
* Without an open stage a write in place can reach below a snapshot. `SnapshotRuns.WriteUnder` says exactly when,
  `SnapshotRuns.FreshOverwrites` says it in terms of values, and `SnapshotRuns.SnapshotShowsOverwrite` is such a run.
* A change in place reports a table with the partitions that it has at the latest version, so a partition that is
  dropped is reported by no change of its table; `DiffLoads.InPlaceParts` gives the exact condition and
  `DiffLoads.DroppedPartUnreported` an input.

## Model

| member | source | states |
|---|---|---|
| Keys.NextIsNext | solomonkey/key.go:32-37 | no key lies strictly between a key and its Next |
| Keys.ComputePrefixNext | solomonkey/key.go:50-65 | the carrying loop over the bytes computes the next prefix |
| Keys.PrefixRange | solomonkey/key.go:50-65 | the range from a key to its PrefixNext holds exactly the keys with that prefix and the strays, which are proper prefixes of PrefixNext |
| Keys.AllMaxRange | solomonkey/key.go:50-65 | for a prefix of all 255 that range holds the prefix itself only |
| Keys.IsPoint | solomonkey/key.go:97-128 | a range is a point exactly if its end is the Next or the PrefixNext of its start |
| Keys.LessTransitive | solomonkey/key.go:69-71 | byte-wise comparison is transitive |
| Keys.LessTotal | solomonkey/key.go:69-71 | byte-wise comparison is total |
| RedBlack.ShortPaths | schemareplicant/memdb.go:344-361 | every search path of n nodes has at most 2 log2(n + 1) of them |
| RedBlack.PlugInOrder | schemareplicant/memdb.go:472-538 | the order of the keys around and below a focused subtree is the order of the whole tree |
| NodeTable.RotateAt | schemareplicant/memdb.go:472-538 | the writes of a rotation turn a table that holds the tree into one that holds the rotated tree, on either side |
| NodeTable.RotateInOrder | schemareplicant/memdb.go:459-470 | a rotation does not change the order of the keys |
| NodeTable.Find | schemareplicant/memdb.go:758-777 | every node of the tree is reached by the links with a context whose parent is its parent pointer |
| Rebalancing.RedUncle | schemareplicant/memdb.go:403-413 | recolouring below a red uncle moves the only possible fault two levels up and keeps black heights |
| Rebalancing.InnerGrandchild | schemareplicant/memdb.go:415-422 | rotating an inner grandchild outwards keeps the fault where it is |
| Rebalancing.OuterGrandchild | schemareplicant/memdb.go:424-426 | the last rotation of insertion repairs the fault |
| Rebalancing.RedSibling | schemareplicant/memdb.go:619-624 | turning a red sibling up makes the sibling black and keeps the missing black height where it is |
| Rebalancing.BlackNephews | schemareplicant/memdb.go:626-628 | painting the sibling red moves the missing black height to the parent |
| Rebalancing.RedNearNephew | schemareplicant/memdb.go:630-635 | a red near nephew is turned into a red far one |
| Rebalancing.RedFarNephew | schemareplicant/memdb.go:637-647 | the last rotation of deletion restores the missing black height |
| Removal.SpliceAt | schemareplicant/memdb.go:552-565 | taking out a node with at most one child keeps all other links, and leaves the child's parent right even for the dummy node |
| Removal.ReplaceAt | schemareplicant/memdb.go:586-612 | giving a node's place to another node keeps all other links |
| Removal.WithoutNode | schemareplicant/memdb.go:540-584 | the order without the deleted node, and nothing else, is the order of the relinked tree |
| Search.Descend | schemareplicant/memdb.go:350-361 | at each node of the search everything on the other side is smaller or greater than the key |
| Search.NotFound | schemareplicant/memdb.go:350-366 | a search that ends at an empty place has proved that no node has the key |
| Arenas.Arena.constructor | causetstore/memdb_arena.go:55-60 | an empty arena |
| Arenas.Arena.Alloc | causetstore/memdb_arena.go:61-77 | allocation succeeds, in bounds, aligned if asked, disjoint from everything handed out; a block is added exactly if the bytes do not fit into the last one, and is then at least twice as large or of the greatest size |
| Arenas.Arena.Enlarge | causetstore/memdb_arena.go:79-91 | appends one block that is large enough, or of the greatest size |
| Arenas.Arena.ChooseBlockSize | causetstore/memdb_arena.go:79-83 | the doubling loop ends at the first size that is large enough |
| Arenas.Arena.AllocInLastBlock | causetstore/memdb_arena.go:93-128 | bytes are handed out of the last block exactly if they fit, else nothing changes |
| Arenas.Arena.TakeCheckpoint | causetstore/memdb_arena.go:145-154 | a checkpoint is the present end of the arena |
| Arenas.Arena.Truncate | causetstore/memdb_arena.go:156-165 | truncation takes back exactly what was handed out after the checkpoint, and the block size stays positive |
| Arenas.Arena.Reset | causetstore/memdb_arena.go:102-108 | everything is taken back |
| ValueLog.HdrRoundTrip | causetstore/memdb_arena.go:237-253 | loading a stored record header gives it back, for all words and addresses |
| ValueLog.WordRoundTrip | causetstore/memdb_arena.go:46-54 | a little-endian word is read as it was written |
| ValueLog.RecordsInOrder | causetstore/memdb_arena.go:255-265 | records lie in the log in the order they were appended, without overlap |
| ValueLog.NoEmptyBlock | causetstore/memdb_arena.go:339-347 | every block of the log holds a record |
| ValueLog.MarksUnique | causetstore/memdb_arena.go:141-143 | two positions are the same exactly if they come after the same number of records |
| ValueLog.TruncatePartitioned | causetstore/memdb_arena.go:156-165 | truncating to a checkpoint leaves the log exactly partitioned into the earlier records |
| ValueLog.OverwritePartitioned | schemareplicant/memdb.go:328-332 | overwriting a value by one of the same length leaves all other records alone |
| ValueLog.Vlog.AppendValue | causetstore/memdb_arena.go:255-265 | appends one record with value, node and previous record |
| ValueLog.Vlog.ReadHdr | causetstore/memdb_arena.go:292-296 | reads back the header of any record |
| ValueLog.Vlog.GetValue | causetstore/memdb_arena.go:267-276 | reads back the value of any record |
| ValueLog.Vlog.CanModify | causetstore/memdb_arena.go:349-360 | exactly the records after the checkpoint may be changed in place |
| ValueLog.Vlog.GetSnapshotValue | causetstore/memdb_arena.go:278-288 | following the chain of old values finds the newest record of a node before the checkpoint, or none |
| ValueLog.Vlog.MoveBackCursor | causetstore/memdb_arena.go:339-347 | moves to the position before exactly one record, across blocks too |
| ValueLog.Vlog.Truncate | causetstore/memdb_arena.go:156-165 | forgets exactly the records after the checkpoint |
| ValueLog.Vlog.Reset | causetstore/memdb_arena.go:102-108 | forgets all records |
| LogRecords.FoldOverwrite | schemareplicant/memdb.go:328-332 | overwriting the newest record of a node changes that node's value only |
| LogRecords.LastIdxPrefix | causetstore/memdb_arena.go:278-288 | the newest record in a prefix of the log is the newest of all or is found from the one before it |
| Flags.ApplyFlagsOps | schemareplicant/memdb.go:89-112 | applies the flag operations in their order; `LastOpDecides` and `OtherBitsStay` say what that makes of each bit |
| Flags.LastOpDecides | schemareplicant/memdb.go:89-112 | bits that some operation sets or clears end as the last such operation leaves them, whatever they were before |
| Flags.OtherBitsStay | schemareplicant/memdb.go:89-112 | bits that no operation sets or clears stay |
| Flags.FlagsDiffer | schemareplicant/memdb.go:25-30 | the five flags are different single bits, which operations set them, and that the operations that clear undo those that set |
| Flags.PackedFields | schemareplicant/memdb.go:795-810 | colour and flags packed in one byte are read back separately |
| Flags.OpsKeepColour | schemareplicant/memdb.go:89-112 | no flag operation touches the colour bit |
| Layering.LookupIsNewest | schemareplicant/memdb.go:220-235 | reading through the layers is reading the newest record of the key |
| Layering.StagePushes | schemareplicant/memdb.go:151-157 | a mark at the end of the log opens an empty layer |
| Layering.ReleaseMerges | schemareplicant/memdb.go:159-175 | dropping the last mark folds the top layer into the one below |
| Layering.CleanupPops | schemareplicant/memdb.go:177-195 | cutting the log at the last mark removes the top layer |
| Layering.AppendPuts | schemareplicant/memdb.go:337-339 | appending a record puts its value in the top layer |
| Layering.OverwritePuts | schemareplicant/memdb.go:326-334 | overwriting above the last mark puts the value in the top layer |
| Layering.BottomLayer | spacetime/memdb_snapshot.go:38-43 | the bottom layer is what the log held when the first stage was opened |
| MemDb.MemDb.constructor | schemareplicant/memdb.go:141-149 | an empty buffer without stages, records and blocks, so that there is room for writes |
| MemDb.MemDb.Staging | schemareplicant/memdb.go:151-157 | pushes an empty layer on top of the earlier stages, which stay |
| MemDb.MemDb.Release | schemareplicant/memdb.go:159-175 | merges the top layer into the one below; releasing the first stage makes the buffer dirty if anything was written |
| MemDb.MemDb.Cleanup | schemareplicant/memdb.go:177-195 | discards the top layer; flags stay, except that a key losing its only value keeps its persistent flags or goes; it never makes the buffer dirty. `Runs.LocksOutliveStage` says which flags those are |
| MemDb.MemDb.Reset | schemareplicant/memdb.go:197-206 | an empty buffer without stages, records and blocks again |
| MemDb.MemDb.Get | schemareplicant/memdb.go:220-235 | the value of the newest layer that has the key |
| MemDb.MemDb.GetFlags | schemareplicant/memdb.go:237-243 | the flags of a key that has a node |
| MemDb.MemDb.Set | schemareplicant/memdb.go:250-255 | writes to the top layer, or fails on an empty value and on the size limits; when that makes the buffer dirty |
| MemDb.MemDb.SetWithFlags | schemareplicant/memdb.go:257-262 | the same with flag operations |
| MemDb.MemDb.Delete | schemareplicant/memdb.go:264-266 | writes a tombstone |
| MemDb.MemDb.UpdateFlags | schemareplicant/memdb.go:245-248 | updates flags only |
| MemDb.MemDb.SetEntry | schemareplicant/memdb.go:280-317 | the whole of a write, with both limits and their errors; keys keep their nodes. Without a stage it makes the buffer dirty, and inside a stage without flag operations it does not |
| MemDb.MemDb.SetFlags | schemareplicant/memdb.go:297-303 | updates the flags of one key, and marks the buffer dirty for persistent ones |
| MemDb.MemDb.SetValue | schemareplicant/memdb.go:319-340 | overwrites the newest record in place exactly if it lies above the active stage and has the length of the new value, else appends one record and leaves the others alone: either way one value of the top layer changes |
| MemDb.MemDb.OldValue | schemareplicant/memdb.go:319-335 | the present value, and exactly when it may be overwritten |
| MemDb.MemDb.VptrIsNewest | causetstore/memdb_arena.go:290-317 | a node's value pointer is its newest record, and null exactly if it has none |
| Runs.PutIsRead | schemareplicant/memdb.go:280-340 | a write within the limit is read back and changes no other key, no lower layer and no other flags; one beyond the limit changes nothing |
| MemDb.MemDb.RevertToCheckpoint | causetstore/memdb_arena.go:290-317 | the backward walk undoes exactly the records after the checkpoint |
| MemDb.MemDb.UndoRecord | causetstore/memdb_arena.go:293-315 | one turn puts the previous value back, or keeps persistent flags, or deletes the node; size stays exact |
| MemDb.MemDb.KeepOrDrop | causetstore/memdb_arena.go:302-310 | a node without records keeps exactly its persistent flags, or leaves the tree if it has none |
| MemDb.MemDb.Locate | schemareplicant/memdb.go:344-366 | finds the node of a key, or the place where it belongs |
| MemDb.MemDb.AllocNode | schemareplicant/memdb.go:742-752 | a new node at a fresh address, counted in length and size |
| MemDb.MemDb.Traverse | schemareplicant/memdb.go:344-456 | returns the existing node, or adds exactly the missing key and moves no node |
| MemDb.MemDb.InsertNode | schemareplicant/memdb.go:368-456 | linking and rebalancing keep a red-black search tree with right links |
| MemDb.MemDb.RebalanceAfterInsert | schemareplicant/memdb.go:390-453 | the loop ends with a red-black tree of the same order and unchanged node data |
| MemDb.MemDb.InsertStepLeft | schemareplicant/memdb.go:400-427 | one turn below a left parent |
| MemDb.MemDb.InsertStepRight | schemareplicant/memdb.go:428-449 | one turn below a right parent |
| MemDb.MemDb.LeftRotate | schemareplicant/memdb.go:472-504 | performs the rotation |
| MemDb.MemDb.RightRotate | schemareplicant/memdb.go:506-538 | performs the rotation |
| MemDb.MemDb.DeleteNode | schemareplicant/memdb.go:540-584 | removes exactly the node, keeps a red-black tree and the address, key, value pointer and flags of all others |
| MemDb.MemDb.ReplaceNode | schemareplicant/memdb.go:586-612 | the other node takes over links and colour |
| MemDb.MemDb.DeleteNodeFix | schemareplicant/memdb.go:614-682 | the loop ends with a red-black tree of the same order and unchanged node data |
| MemDb.MemDb.DeleteStepLeft | schemareplicant/memdb.go:617-648 | one turn for a left child |
| MemDb.MemDb.DeleteStepRight | schemareplicant/memdb.go:649-679 | one turn for a right child |
| MemDb.MemDb.Successor | schemareplicant/memdb.go:684-707 | the next node in key order, or none |
| MemDb.MemDb.Predecessor | schemareplicant/memdb.go:709-732 | the node before in key order, or none |
| Runs.LowerLayersStay | schemareplicant/memdb.go:151-195 | whatever happens above a layer does not touch it |
| Runs.StageIsUndone | schemareplicant/memdb.go:177-195 | opening a stage, any run above it and discarding it restores all values |
| Runs.FlagsOutliveStage | schemareplicant/memdb.go:118-125 | flags of keys that had a value are not rolled back |
| Runs.StageIsTransparent | schemareplicant/memdb.go:159-175 | a released stage comes to the same as its run without the stage |
| Runs.ReleaseReadsSame | schemareplicant/memdb.go:159-175 | reading does not notice a release |
| Runs.SnapshotStays | spacetime/memdb_snapshot.go:38-43 | the layer that snapshots read does not change while the first stage is open |
| Runs.Perform | schemareplicant/memdb.go:151-340 | one call does to layers and flags what it means, and leaves the first stage alone unless it closes it; it makes the buffer dirty exactly if a key is locked afterwards, if it writes without a stage, or if it releases a first stage with values |
| Runs.Execute | schemareplicant/memdb.go:151-340 | over every run of calls the buffer is what the calls make of layers and flags; a first stage that stays open stays the same one, and until it is closed the run makes the buffer dirty exactly if it ever locks a key |
| Runs.ExecuteAndDiscard | schemareplicant/memdb.go:177-195 | opening a stage, any run above it and discarding it: values are as before, and the buffer is dirty exactly if it was or if the run ever locked a key |
| Runs.WrittenAbove | schemareplicant/memdb.go:159-175 | the first stage has moved the end of the log exactly if its layer has values |
| Runs.LocksOutliveStage | causetstore/memdb_arena.go:302-310 | a key whose only value is discarded keeps exactly the bits that locking it and finding its value set, and stays exactly if it has one of them |
| Runs.OtherFlagsStay | causetstore/memdb_arena.go:302-312 | the flags of all other keys stay |
| Runs.WrittenThenDiscarded | causetstore/memdb_arena.go:302-310 | the same for a key that is written in the stage with any flag operations |
| Runs.SingleFlags | causetstore/memdb_arena.go:302-310 | what is left of a new key for each single operation |
| Runs.WriteAndDiscard | causetstore/memdb_arena.go:302-310 | on a new buffer, for all flag operations: the flags of the key and whether the buffer is dirty after its stage is discarded |
| Runs.CleanHoldsNothing | schemareplicant/memdb.go:276-278 | a buffer that is not dirty has an empty bottom layer and no persistent flags |
| Runs.LenCountsKeys | schemareplicant/memdb.go:268-270 | Len is the number of keys with a node |
| Runs.SizeCountsBytes | schemareplicant/memdb.go:272-274 | Size is the bytes of all keys with a node and of their current values, of which a layer below counts only if no layer above has the key |
| Inspections.InspectStage | schemareplicant/memdb.go:213-218 | calls back once for each key written in the stage or above, with its present value and flags |
| Inspections.InspectRecord | schemareplicant/memdb.go:213-218 | one turn: calls back exactly for a record that is the newest of its node, and moves back over it |
| Inspections.AtNewest | causetstore/memdb_arena.go:328-332 | the comparison with the cursor picks exactly the newest record of a node |
| Inspections.UpperLayers | schemareplicant/memdb.go:213-218 | the layers of the inspected stages are the back of the log |
| Iterators.MemdbIterator.constructor | causetstore/memdb_iterator.go:27-67 | a new iterator has everything in its bounds before it |
| Iterators.MemdbIterator.Init | causetstore/memdb_iterator.go:69-88 | positions before the first shown node, forward and reverse |
| Iterators.MemdbIterator.Seek | causetstore/memdb_iterator.go:155-188 | stands on the first key at or after the bound, or in reverse on the last one before it |
| Iterators.MemdbIterator.SeekToFirst | causetstore/memdb_iterator.go:131-141 | stands on the first node |
| Iterators.MemdbIterator.SeekToLast | causetstore/memdb_iterator.go:143-153 | stands on the last node |
| Iterators.MemdbIterator.Next | causetstore/memdb_iterator.go:113-127 | drops exactly the current entry and skips nodes with flags only, and ends |
| Iterators.MemdbIterator.StepOn | causetstore/memdb_iterator.go:113-127 | moves to the next node in the direction of the iterator, shown or not |
| Iterators.MemdbIterator.ValidMeansPending | causetstore/memdb_iterator.go:90-95 | valid exactly while something is left, and then on the first of it |
| Iterators.MemdbIterator.GetValue | causetstore/memdb_iterator.go:109-111 | the newest value of the current node |
| BufferListings.AllLists | causetstore/memdb_iterator.go:27-45 | an iteration shows exactly the keys with a value in its bounds, in order and once each |
| BufferListings.AllWithFlags | causetstore/memdb_iterator.go:47-67 | with flags it shows exactly the keys that have a node |
| BufferListings.RemainingLists | causetstore/memdb_iterator.go:113-127 | an iterator on its way has exactly what lies ahead of it |
| BufferListings.ContentsIsFlat | schemareplicant/memdb.go:220-235 | what the newest records say is what the layers say |
| Snapshots.GetSnapshot | spacetime/memdb_snapshot.go:38-43 | the start of the first stage, or the end of the log |
| Snapshots.MemdbSnapGetter.Get | spacetime/memdb_snapshot.go:50-65 | reads what the key had when the first stage was opened, if that stage is still the first |
| Snapshots.MemdbSnapGetter.GetAt | spacetime/memdb_snapshot.go:50-65 | the newest value among the records before the snapshot |
| Snapshots.OverwriteBelowSnapshot | causetstore/memdb_arena.go:278-288 | an overwrite leaves a snapshot alone exactly if the record is behind it or keeps its value |
| Snapshots.LoggedBelowSnapshot | schemareplicant/memdb.go:319-340 | what setting a value does to the first k records: nothing, unless it overwrites one of them in place by another value |
| SnapshotRuns.ReadAfterRun | spacetime/memdb_snapshot.go:38-65 | while the first stage stays open a getter reads what the key had when that stage was opened, after any run of writes, nested stages, releases and rollbacks |
| SnapshotRuns.OpenRunRead | spacetime/memdb_snapshot.go:38-65 | opening the first stage and running anything above it: getters made before and after the run read the same, the value before the stage |
| SnapshotRuns.WriteUnder | schemareplicant/memdb.go:319-340 | a write keeps a getter usable; the getter shows the same afterwards exactly if the write does not reach below the snapshot, and otherwise the new value of that key |
| SnapshotRuns.FreshOverwrites | causetstore/memdb_arena.go:349-360 | right after a getter is made without a stage, the writes that reach below it are those that replace a value by another one of the same length |
| SnapshotRuns.StageProtects | causetstore/memdb_arena.go:349-360 | no write reaches below the first stage |
| SnapshotRuns.SnapshotShowsOverwrite | schemareplicant/memdb.go:326-334 | a run without a stage in which a getter shows a value that was written after it was made |
| Snapshots.SnapshotIter | spacetime/memdb_snapshot.go:25-36 | has the nodes of the range with a snapshot value before it |
| Snapshots.MemdbSnapIter.Init | spacetime/memdb_snapshot.go:100-111 | positions on the first of them |
| Snapshots.MemdbSnapIter.SetValue | spacetime/memdb_snapshot.go:89-98 | picks up the snapshot value of the current node if it has one |
| Snapshots.MemdbSnapIter.Next | spacetime/memdb_snapshot.go:76-87 | moves to the next node with a snapshot value, or to the end |
| SnapshotListings.SnapshotLists | spacetime/memdb_snapshot.go:25-36 | the iterator lists the bottom layer: what each key of the range had when the first stage was opened |
| Listings.MergeIsOverlay | solomonkey/union_iter.go:64-137 | the merge of two listings shows exactly the overlay, in order and once each, forward and reverse |
| Listings.ListsUnique | solomonkey/union_iter.go:64-137 | a listing is determined by what it lists |
| UnionIters.MergeCases | solomonkey/union_iter.go:92-134 | each case of the comparison takes the entry that the merge takes |
| UnionIters.UnionIter.UpdateCur | solomonkey/union_iter.go:64-137 | skips tombstones and what they hide, keeps what is left to show, and ends |
| UnionIters.UnionIter.UpdateFromBoth | solomonkey/union_iter.go:92-134 | the part for two valid iterators |
| UnionIters.UnionIter.DirtyNext | solomonkey/union_iter.go:51-55 | moves the buffer's iterator on |
| UnionIters.UnionIter.SnapshotNext | solomonkey/union_iter.go:58-62 | moves the snapshot's iterator on, or reports its failure |
| UnionIters.UnionIter.Next | solomonkey/union_iter.go:140-152 | leaves exactly what follows the current entry, also if that was deleted meanwhile |
| UnionIters.UnionIter.GetKey | solomonkey/union_iter.go:164-169 | the key of the first entry left |
| UnionIters.UnionIter.GetValue | solomonkey/union_iter.go:156-161 | its value |
| UnionStores.NewUnionIter | solomonkey/union_iter.go:35-48 | the merge of what both iterators have left |
| UnionStores.MergeListsOverlay | solomonkey/union_iter.go:64-137 | merging the listings of buffer and snapshot lists the overlay of the two maps |
| UnionStores.UnionStore.Get | solomonkey/union_store.go:95-107 | succeeds on exactly the keys of the overlay with a value of some bytes; a key that the buffer has is read even if the snapshot fails |
| UnionStores.UnionStore.Iter | solomonkey/union_store.go:110-120 | lists exactly the overlay in the range, ascending |
| UnionStores.UnionStore.IterReverse | solomonkey/union_store.go:123-133 | lists exactly the overlay below the key, descending |
| UnionStores.BatchGet | solomonkey/utils.go:100-135 | reads the overlay for each key |
| UnionStores.OverlayReadsFirst | solomonkey/utils.go:100-135 | for each key that is the buffer's value, or else the cache's, or else the snapshot's, where values of no bytes of the first two hide the others and are left out |
| UnionStores.OneOrMany | solomonkey/union_store.go:95-107 | without a cache reading one key gives what a batch gives for it, exactly unless the snapshot has a value of no bytes that the buffer does not hide |
| UnionStores.ReadEarly | solomonkey/utils.go:104-124 | what the buffer or the cache has, and exactly the keys that neither has |
| UnionStores.ReadBefore | solomonkey/utils.go:104-124 | one turn: what the buffer, or else the cache, has for a key |
| UnionStores.AddEarly | solomonkey/utils.go:129-134 | adds what was found early to the snapshot's values |
| IndexDrops.Index.Drop | spacetime/index.go:340-362 | on success exactly the keys that `Removes` names read as nothing and all others as before; the loop ends, and a run that fails has removed only keys with the prefix, and fails only if the snapshot does, if a key to remove is too long, or if the buffer is over its limit |
| IndexDrops.RemovesAll | spacetime/index.go:340-362 | those are all keys with the prefix exactly if the prefix is not all 255 |
| IndexDrops.Index.DropOne | spacetime/index.go:348-360 | one turn: the current key is deleted and the iterator moves on |
| IndexDrops.DeleteCurrent | spacetime/index.go:352 | deleting under the iterator leaves it on its entry and changes nothing that comes after it |
| IndexDrops.DeleteUnder | spacetime/index.go:352 | deleting the entry on which an iterator of the buffer stands, or a key that it has not got, leaves what comes after it |
| IndexDrops.NoneBehind | spacetime/index.go:349-351 | stopping at the first key without the prefix misses nothing |
| IndexDrops.RemovedRange | spacetime/index.go:341 | the walked range covers exactly the keys to remove |
| SchemaValidators.SchemaValidator.constructor | petri/schema_validator.go:79-86 | a started validator that knows nothing |
| SchemaValidators.SchemaValidator.Stop | petri/schema_validator.go:102-110 | forgets everything and stops listening |
| SchemaValidators.SchemaValidator.Restart | petri/schema_validator.go:112-118 | starts, and nothing else |
| SchemaValidators.SchemaValidator.Reset | petri/schema_validator.go:120-127 | forgets everything and starts |
| SchemaValidators.SchemaValidator.Update | petri/schema_validator.go:129-160 | an accepted report extends the history by one change and renews the lease; a stopped validator ignores it; what the queue covers stays covered unless it is full and the change does not contain the last one |
| SchemaValidators.SchemaValidator.Enqueue | petri/schema_validator.go:256-286 | merging and trimming keep the queue increasing, within its limit, and saying what the history says; a change replaces the last one exactly if it contains it, and the first one goes exactly if the queue is full otherwise |
| SchemaValidators.SchemaValidator.FindNewerDeltas | petri/schema_validator.go:207-214 | the back of the queue with exactly the newer versions |
| SchemaValidators.SchemaValidator.IsRelatedBlocksChanged | petri/schema_validator.go:164-205 | whether the history after the version touches a related table, which ones, and the OR of how |
| SchemaValidators.SchemaValidator.Check | petri/schema_validator.go:217-254 | answers as the whole history would: an older schema passes exactly if the queue reaches back to it and no later change touches a related table, and it always passes if none does among the changes that the limit keeps |
| SchemaValidators.SchemaValidator.SuccessIsSafe | petri/schema_validator.go:217-254 | success of an older schema means that no later report touches a related table, of the latest one that its lease lasts |
| SchemaValidators.SchemaValidator.SuccessMeansUnchanged | petri/schema_validator.go:217-254 | the same against a log of what each version changed |
| SchemaValidators.SchemaValidator.TooOldFails | petri/schema_validator.go:173-178 | versions older than the queue always fail |
| SchemaValidators.SchemaValidator.PassesByHistory | petri/schema_validator.go:112-118 | older schemas pass only on account of the history exactly if the latest version has caught up with the last report or the lease is over |
| SchemaValidators.SchemaValidator.CoversRecent | petri/schema_validator.go:273-285 | the queue reaches back at least as far as the last maxCnt changes |
| SchemaValidators.StopReloadRestart | petri/petri.go:537-560 | a run after which a transaction passes although its table has changed |
| SchemaValidators.ContainIn | petri/schema_validator.go:289-309 | whether every touch of a change is in a newer one that is not shorter |
| SchemaValidators.MergeSaysSame | petri/schema_validator.go:273-277 | replacing a contained last change loses nothing for any version that the queue covers |
| SchemaValidators.TrimSaysSame | petri/schema_validator.go:281-285 | neither does dropping the first one |
| SchemaValidators.MarkDelta | petri/schema_validator.go:181-189 | collects exactly the touched related tables with the OR of their actions |
| Bits.SameMasks | petri/schema_validator.go:185 | a word of bits is determined by the masks that do not meet it, so the stated OR is the only one |
| Replicants.FullIsUnique | schemareplicant/builder.go:399-422 | all full loads of a catalog are the same but for the order of table lists |
| Replicants.ByIdIsByName | schemareplicant/infoschema.go:224-231 | the tables found by id are exactly those reached by name |
| SchemaSteps.DropTableHolds | schemareplicant/builder.go:338-365 | dropping a table takes it out of its bucket, its database's list and the names, and nothing else |
| SchemaSteps.CreateTableHolds | schemareplicant/builder.go:248-305 | creating a table adds it to all three |
| SchemaSteps.DropDbHolds | schemareplicant/builder.go:215-239 | dropping a database takes exactly its tables with it |
| SchemaSteps.CreateDbHolds | schemareplicant/builder.go:182-196 | a new database is empty and hides none |
| SchemaSteps.ModifyDbHolds | schemareplicant/builder.go:198-213 | changing a database's charset changes nothing else |
| DiffLoads.StepHolds | schemareplicant/builder.go:41-134 | after each diff the replicant holds, by id, a mix of tables as of that version and as of the latest |
| DiffLoads.StepNamed | schemareplicant/builder.go:41-134 | a table that will not change any more can be reached by name after a diff if it could before |
| DiffLoads.LoadStep | petri/petri.go:265-277 | one diff brings the loaded state one version further |
| DiffLoads.LoadEnds | petri/petri.go:243-283 | at the latest version the diff load is a full load |
| DiffLoads.AppliesIfReadable | schemareplicant/builder.go:182-196 | a diff can be applied exactly if the database or table that it reads is still there |
| DiffLoads.ReadableByAction | schemareplicant/builder.go:57-72 | what has to be there for a diff, by its action |
| DiffLoads.ChangedIsReported | schemareplicant/builder.go:215-239 | every table that a diff changes is among the reported ones |
| DiffLoads.ReportedExactly | schemareplicant/builder.go:162-170 | exactly the ids of tables and partitions that a diff reports |
| DiffLoads.ReportedConcerns | schemareplicant/builder.go:162-170 | whatever is reported belongs to a table that the diff concerns, as it is stored before the diff or at the latest version |
| DiffLoads.PartsReported | schemareplicant/builder.go:162-170 | a partition that its table has before the change and at the latest version is reported with the table |
| DiffLoads.InPlaceParts | schemareplicant/builder.go:81-113 | of the partitions before a change in place exactly those are reported that the table still has at the latest version |
| DiffLoads.DroppedPartUnreported | schemareplicant/builder.go:81-113 | an input: the partition that a change drops is not reported |
| DiffLoads.ChangedByDiff | schemareplicant/builder.go:57-72 | a diff changes only the tables it takes away or brings, or those of the database it drops |
| Catalogs.TablesByAction | schemareplicant/builder.go:57-72 | which tables come, go and stay, by the action of the diff |
| Builders.SearchBlock | schemareplicant/infoschema.go:72-80 | binary search finds a table exactly if it is there |
| Builders.SchemaReplicant.BlockByID | schemareplicant/infoschema.go:224-231 | finds exactly the tables held |
| Builders.SchemaReplicant.SchemaByID | schemareplicant/infoschema.go:201-208 | finds exactly the databases held |
| Builders.Builder.constructor | schemareplicant/builder.go:464-472 | an empty replicant with buckets of its own |
| Builders.Builder.InitWithOldSchemaReplicant | schemareplicant/builder.go:368-380 | starts with what the published one holds |
| Builders.Builder.CopySchemaBlocks | schemareplicant/builder.go:385-396 | a fresh database object with the same content |
| Builders.Builder.CopySortedBlocksBucket | schemareplicant/builder.go:241-246 | a fresh bucket with the same content |
| Builders.Builder.CopySortedBlocks | schemareplicant/builder.go:173-180 | the buckets that will change are the builder's own |
| Builders.Builder.DropBlock | schemareplicant/builder.go:338-365 | drops the table in place, writing only the builder's own objects |
| Builders.Builder.CreateBlock | schemareplicant/builder.go:248-305 | adds the table as it is at the latest version, or fails if it is gone |
| Builders.Builder.AddSorted | schemareplicant/builder.go:294-305 | appends a table to its bucket, where sorting puts it in the place that the order by id wants, and finds it again |
| Builders.Builder.DropSchema | schemareplicant/builder.go:215-239 | drops the database and reports all its tables |
| Builders.Builder.ApplyDiff | schemareplicant/builder.go:41-134 | does what the diff means, reports exactly the tables concerned with their partitions, and writes only the builder's own objects |
| Builders.Builder.ApplyBlockDiff | schemareplicant/builder.go:51-113 | the part for diffs that concern a table |
| FullLoads.InitWithDBInfos | schemareplicant/builder.go:399-422 | builds the full load of what was read |
| FullLoads.CreateSchemaBlocksForDB | schemareplicant/builder.go:426-445 | a database with its tables by name, and its tables behind the others in the buckets |
| Petris.FetchAllSchemasWithBlocks | petri/petri.go:155-177 | reads every database and table once |
| Petris.Petri.CollectDiffs | petri/petri.go:249-261 | all diffs between two versions, or none if one is missing |
| Petris.Petri.TryLoadSchemaDiffs | petri/petri.go:243-283 | a diff load succeeds exactly if the used version is not too old, no diff is missing and what the diffs read is still there; it then publishes a full load and reports every change of a table and of the partitions that last, with the bit of its diff, and nothing else; the replicant published before is not touched |
| Petris.Petri.ApplyAll | petri/petri.go:262-279 | the loop over the diffs, which collects the touches with their bits |
| Petris.Petri.LoadSchemaReplicant | petri/petri.go:86-153 | by diffs exactly if a schema is published, at most 100 versions are missing, all their diffs are there and can be applied; either way the published replicant is the full load of the latest version |
| Petris.Petri.Reload | petri/petri.go:341-395 | keeps the published schema full and the validator's history faithful, over every sequence of reloads; a reload by diffs adds one change with the loaded touches to what a started validator knew, and only a full one makes it start anew |
| Petris.Petri.ReloadAndCheck | petri/petri.go:341-395 | after a reload by diffs a transaction passes if neither what the validator knew nor the diffs concern its tables and the queue still reaches back, which it does if it did and was not full; if a diff changes a table of it, it fails, and the answer has the bit of that diff |
| Petris.Petri.Report | petri/petri.go:379-383 | telling a started validator adds exactly the change to its history, which stays faithful; a stopped one keeps what it knew |
| Petris.Petri.RestartSyncer | petri/petri.go:537-560 | after stop, reload and restart the validator knows something exactly if the reload was a full one |
| Petris.Petri.SuccessMeansSameTables | petri/schema_validator.go:217-254 | a transaction that passes finds its tables as they were, except for changes by the two TiFlash actions |
| Petris.Petri.SuccessMeansSameParts | petri/schema_validator.go:217-254 | the same for partition ids: no later version changed a table to which the partition belongs from then on |

## Left out

- `DiscardValues`, test mode and the reuse of freed nodes: they only disable operations.
- Mutexes, logging, metrics, failpoints, tickers, remote calls and the etcd watch: the steps of the schema loop are single calls.
- The byte layout of a node: a node is a record at its address with a fixed key. Colour and flags are separate fields; `Flags.PackedFields` covers their packing. Values and headers of log records are bytes in the arena.
- Aliasing of returned slices: `Get` returns the value, not a view of the arena, and block buffers are sequences in the `blocks` field. That a later write in place shows through a slice handed out before is not captured.
- Panics: releasing or discarding a stage that is not the newest one is excluded by a precondition, as is reading after `DiscardValues`.
- Limits that the source leaves to its callers: keys of at most 65535 bytes, records that fit in a block, and fewer than 2^32 - 1 blocks are preconditions (`EntryFits`, `HasRoom`).
- `traverse` is one function in the source and appears as `Locate` and `InsertNode`; the repeated lines that relink a parent are `ReplaceChild`; the mirrored halves of the fix-up loops are methods of their own.
- The snapshot and its iterator: only what `KvSnapshot` and `KvIter` say about them is known.
- Option and index-name maps of the union store, and its wrappers around flags: easy.
- Key handles, index values and their codecs; the rest of `spacetime/index.go`.
- Time: grant and transaction times are numbers of nanoseconds; how they are read from a timestamp is not part of this model. The latest schema object that a failed check hands out is left out.
- A changing limit of the validator's history: `maxCnt` is fixed. Touched tables and their actions are one list of pairs.
- Diffs of repair mode and exchange of partitions, affected options of a diff, non-public databases and tables, virtual databases, charset conversion and auto-ID allocators. A table is its id, name, partitions and one number for the rest.
- Errors of storage while the schema is read, other than missing tables, databases and diffs.
- Builders.Builder.ApplyDiff: omits the affected options of a diff; nothing in the repository fills them.
- FullLoads.InitWithDBInfos: omits the virtual databases, which are added from a list of drivers and not from storage.
- Petris.Petri.SuccessMeansSameParts: speaks only of partitions that their table keeps. For one that it loses nothing is promised, since the code does not report it (`DiffLoads.InPlaceParts`).
- SchemaSteps.DropDbHolds: assumes that no partition id is the id of a table.
- Petris.Petri.Reload: assumes that versions do not go back, and that the stored diffs describe the stored catalogs (`DiffLoads.Recorded`).
