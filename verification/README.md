# Verification of pingkv

pingkv is a key-value server.  Each data file is a slotted-page heap file; an
index puts a multiway search tree and its values into the rows of one such file
and keeps an LRU cache in front of it.  A poller thread, one worker for each
file and one sender pass requests and responses through queues.

The project models these layers and proves what they are for:

- `Page`, `HeapFile`, `HeapWrite`, `HeapRows`, `HeapProofs`, `HeapRuns`: blocks,
  chained rows, migration and deletes as functions from file to file, and the
  proof that any run of row operations behaves as a map from row ids to rows.
- `DataFiles`: the data file as a class over byte arrays changed in place; each
  method computes the function of the same step.
- `NodeCodec`, `NodeBuffer`, `KeyOrder`: index nodes as bytes, and the loops
  that read and change them through pointers.
- `IndexTree`, `IndexOrder`, `IndexRecords`, `IndexStore`, `IndexState`,
  `IndexDelete`: the search tree, its invariants, and how it lies in the file.
- `KvIndexes`: the index as a class.  Its ghost map `last` is what has been set
  and not deleted, and `shown` the bytes a get yields for each of these keys,
  which may have zeros behind the last value; the invariant `Valid` holds after
  the constructor and after every `Set`, `Del` and `Get`, so what `Get` promises
  is promised after every run.  The one guard is `CanSet`: a set must not come
  upon a deleted record of the root, and `IndexDeviations` says exactly what
  such a set loses.
- `Links`, `LLists`, `LinkLists`, `Masking`, `HashTables`: the two linked lists
  and the hash table with its iterator, against sequences and a map.
- `LruSpec`, `LruBuckets`, `Lru`, `CachedIndexes`: the cache against a list of
  pairs from hot to cold, and the index behind it.
- `IoBufs`: the block queue against one byte stream.
- `Pipeline`: the threads as an interleaved step system with mutexes and
  condition variables.
- `RowIdCodec`, `FileTiling`: textual row ids and the share of files of a server.
- `IndexDeviations`, `CacheDeviations`, `ServerDeviations`: places where the
  code does something else than it is meant to, with the literal code, an input
  that shows the difference, and exactly when both agree.

Block 1 is the file head, so a file has slots 0 and 1 without rows.  Sizes are
those of the C++ layout with 4-byte packing: 8192-byte blocks with a 16-byte
head and an 8-byte tail leave 8168 data bytes, a record index has 16 bytes, a
node 8152 bytes, a node head 16 and a `k_info` 12.

The model follows the intention, not the text, in these places:

- `_find_pos` (pingkv/src/index/kv_index.cc:211, 233, 241-242) takes the free
  space as `_node_free_space` counts it.
  `IndexDeviations.LiteralRoomAgrees` says when the literal test is the same.
- The bucket search (pingkv/src/cache/kv_lru.cc:173) compares the length and
  the bytes; `CacheDeviations.LiteralSearchAgrees` says when the literal
  condition finds the same node.
- A new cache node holds copies of the key and the value
  (pingkv/src/cache/kv_lru.cc:91-92), and replacing a value adjusts `_size`
  (pingkv/src/cache/kv_lru.cc:135-141); see `CacheDeviations.UnadjustedSize`.
- `_make_result` (pingkv/src/server/kv_worker.cc:97-113) returns its result, and
  successful lock, wait and signal calls return 0.
- The sender waits without a loop around it (pingkv/src/server/kv_sender.cc:43);
  the model has no spurious wakeups.

A client's `del` sends the flag of a get (pingkv/src/client/kv_client.cc:112),
so no client request reaches the index's `del`; the pipeline model does not look
at flags, and `KvIndexes.KvIndex.Del` is about the index alone.

## Model

| member | source | states |
|---|---|---|
| Page.OffsetsDescend | pingkv/src/dbf/data_file_row.cc:23-41 | In every well-formed block a later record starts, and ends, at or below the start of each earlier one. |
| Page.RegionsDisjoint | pingkv/src/dbf/data_file_row.cc:198-213 | A byte lies in the region of at most one record, and never in the index array. |
| Page.AddRecordOk | pingkv/src/dbf/data_file_row.cc:23-41 | Adding a record sized by the free bytes keeps the block well-formed and every fragment in place; the length recomputed for it is what will be written; a chained record leaves no free bytes. |
| Page.FreeBytesExact | pingkv/src/dbf/data_file_block.cc:116-125 | For every well-formed block and positive length: the length is at most the free bytes if and only if a further record of that length, whole in the block, keeps it well-formed; a chained record does so if and only if there are free bytes and fewer than the length. |
| Page.CopyToOk | pingkv/src/dbf/data_file_row.cc:151 | Copying as many bytes as a record has in the block makes exactly its fragment those bytes and leaves every other fragment. |
| Page.SetRecordOk | pingkv/src/dbf/data_file_row.cc:168-175 | Changing flags or the link of a record moves no bytes. |
| HeapFile.ReserveOk | pingkv/src/dbf/data_file_row.cc:130-139 | A record reserved in the block in use has room for as many bytes as fit; when the row does not fit it is flagged as chained and the block is full. |
| HeapFile.FindBlockKeeps | pingkv/src/dbf/data_file_block.cc:135-149 | Looking for a writable block changes no record and no fragment, and extends the file, by 128 blocks, only when all are in use. |
| HeapWrite.WriteKeeps | pingkv/src/dbf/data_file_row.cc:130-154 | A write, chained over any number of blocks, leaves every old record and its bytes as they were. |
| HeapWrite.WriteSpells | pingkv/src/dbf/data_file_row.cc:130-154 | After a write the fragments along the links from the new record spell the row byte for byte, and each fragment is followed by the rest. |
| HeapWrite.WriteAdds | pingkv/src/dbf/data_file_row.cc:142-150 | Every record a write adds has no delete or migrate flag, and its chain link leads to an added record in a later block whose length is what is left. |
| HeapRows.ReadChain | pingkv/src/dbf/data_file_row.cc:95-119 | The fragments along an unmigrated chain sum to the length in its head record. |
| HeapRows.ReadChainSpells | pingkv/src/dbf/data_file_row.cc:95-118 | Reading along a chain that spells a row yields that row. |
| HeapRows.ReadRowFrame | pingkv/src/dbf/data_file_row.cc:73-120 | A row reads the same as long as the records that serve it are the same. |
| HeapProofs.WriteOk | pingkv/src/dbf/data_file.cc:145-159 | A written row gets an id no row had, reads back exactly, and no other row id reads differently; the ownership invariant is kept. |
| HeapProofs.WriteRowPlace | pingkv/src/dbf/data_file.cc:145-159 | A row starts as the next record of the block in use if that can take a record of at least one byte, else as row 1 of the next block; it is split if and only if it cannot be taken whole, and then its first part is the longest the block can take. |
| HeapProofs.WriteRowNewBlockWrote | pingkv/src/dbf/data_file.cc:161-179 | A write to a new block is a write in the same sense: it adds records that spell the row and changes none. |
| HeapProofs.MigrateOk | pingkv/src/dbf/data_file_row.cc:166-176 | Migrating makes the old record forward to a later one through which the row reads as the new bytes; rows and owners stay. |
| HeapProofs.OverwriteOk | pingkv/src/dbf/data_file_row.cc:177-181 | Overwriting an unchained record in place changes only its bytes. |
| HeapProofs.RowLength | pingkv/src/dbf/data_file_row.cc:73-120 | A row read through any links has the length in the record it ends at. |
| HeapProofs.ModifiedIs | pingkv/src/dbf/data_file_row.cc:166-181 | A modify gives the new bytes exactly, filled with zeros to the length read before only if they are fewer than that and the target is not chained. |
| HeapProofs.ModifyOk | pingkv/src/dbf/data_file_row.cc:157-183 | Through any number of forwarding links, a modify of a row that is not deleted succeeds, the row then reads as the new bytes, zero-filled to the old length where the target was overwritten in place, and only the target record changed. |
| HeapProofs.ModifyFrame | pingkv/src/dbf/data_file_row.cc:157-183 | A change of one record is noticed by no row with another owner. |
| HeapProofs.DeleteOk | pingkv/src/dbf/data_file_row.cc:186-195 | A deleted row reads as deleted; the records stay and nothing else changes. |
| HeapRuns.StepRefines | pingkv/src/dbf/data_file.cc:145-217 | Each of write, write to a new block, modify and delete steps the file as it steps the map from row ids to rows; a modify of a deleted row is refused and leaves the file as it is. |
| HeapRuns.Run | pingkv/src/dbf/data_file.cc:145-217 | After any run of operations from a new file every row id handed out reads as the map says, and no other id is a row. |
| HeapRuns.RowSurvives | pingkv/src/dbf/data_file_row.cc:73-195 | A row reads the same after any further operations that do not name it. |
| HeapRuns.ModifiedShape | pingkv/src/dbf/data_file_row.cc:157-183 | After a modify the row is the new bytes and then zeros; it is exactly the new bytes if and only if the target is chained or not longer than the new row. |
| DataFiles.DataBlock.Overwrite | pingkv/src/dbf/data_file_row.cc:179-180 | Clearing and then copying leaves the row padded with zeros to the record's length, and the other bytes alone. |
| DataFiles.DataFile.constructor | pingkv/src/dbf/data_file.cc:48-85 | A created file has 130 slots, the head and 128 empty blocks among them, and block 2 is in use. |
| DataFiles.DataFile.ExtendFile | pingkv/src/dbf/data_file.cc:227-252 | Extending appends that many empty blocks and moves none. |
| DataFiles.DataFile.RowLenInBlock | pingkv/src/dbf/data_file_row.cc:198-213 | The recomputed length is the length of the record's fragment. |
| DataFiles.DataFile.RowAddRecord | pingkv/src/dbf/data_file_row.cc:23-41 | Adds the next record of the block in use and changes nothing else in the file. |
| DataFiles.DataFile.FindBlockCanWrite | pingkv/src/dbf/data_file_block.cc:135-149 | Ends with a block inside the file that has free bytes, having moved to the next block at most once; `FreeBytesExact` says what these bytes are. |
| DataFiles.DataFile.WriteRowHere | pingkv/src/dbf/data_file_row.cc:130-154 | The recursive in-place write turns the file into the one the write function describes, whose chain `WriteSpells` proves to spell the row. |
| DataFiles.DataFile.Write | pingkv/src/dbf/data_file.cc:145-159 | The in-place write ends in the file, and returns the id, for which `WriteOk` and `WriteRowPlace` are proved. |
| DataFiles.DataFile.WriteNewBlock | pingkv/src/dbf/data_file.cc:161-179 | The row becomes row 1 of a block not used before. |
| DataFiles.DataFile.Modify | pingkv/src/dbf/data_file_row.cc:157-183 | The in-place modify ends in the file, and succeeds or refuses, as `ModifyOk` describes; it terminates because links lead forward. |
| DataFiles.DataFile.Delete | pingkv/src/dbf/data_file_row.cc:186-195 | Sets the delete flag of the record and nothing else. |
| DataFiles.DataFile.ReadChained | pingkv/src/dbf/data_file_row.cc:95-117 | The loop fills the buffer with exactly the bytes along the chain, and ends. |
| DataFiles.DataFile.Read | pingkv/src/dbf/data_file_row.cc:73-120 | Returns -1 for a missing record, 0 and no bytes for a deleted one, and otherwise the row and its length, following migrations. |
| NodeCodec.EntryFields | pingkv/src/index/kv_index.cc:144-148 | A pointer to where record i starts reads that record's child, value id, key length and key. |
| NodeCodec.AppendRepresents | pingkv/src/index/kv_index.cc:424-441 | Writing a record at the tail and counting it gives the bytes of the old record list plus the new one. |
| NodeCodec.SetLeftRepresents | pingkv/src/index/kv_index.cc:445-453 | Rewriting a child id in place changes that child and no key, value or other record. |
| NodeCodec.ClearValRepresents | pingkv/src/index/kv_index.cc:336-343 | Clearing a value id in place changes that value and no key, child or other record. |
| NodeCodec.TailIsFree | pingkv/src/index/kv_index.cc:246-253 | Bytes from the tail on belong to no record. |
| NodeCodec.DecodeRepresented | pingkv/src/index/kv_index.cc:172-198 | Walking a node's bytes from the head yields exactly the head fields and the record list the bytes represent. |
| NodeCodec.LayoutExample | pingkv/src/index/kv_index.h:31-45 | The bytes of a node with one record, written out, represent that node: field order, widths and byte order. |
| KeyOrder.CmpKeyMeans | pingkv/src/index/kv_index.cc:150-160 | The comparison finds the first byte in which two keys differ, a proper prefix being smaller, and is zero only for equal keys. |
| KeyOrder.LessTransitive | pingkv/src/index/kv_index.cc:150-160 | The key order is transitive. |
| KeyOrder.LessTotal | pingkv/src/index/kv_index.cc:150-160 | Of two keys exactly one is less, or they are equal. |
| NodeBuffer.NodeFreeSpace | pingkv/src/index/kv_index.cc:172-198 | The loop's result is the free space of the node, for which `FreeSpaceExact` is proved. |
| NodeBuffer.FindPos | pingkv/src/index/kv_index.cc:201-258 | Returns the record with the key, else the one with the least greater key, else the tail or no place according to room; it writes only cleared bytes at the tail. |
| NodeBuffer.AppendRecord | pingkv/src/index/kv_index.cc:427-437 | The buffer then holds the old records and the new one. |
| NodeBuffer.SetSlot | pingkv/src/index/kv_index.cc:405-453 | The buffer then has the child in that slot and is otherwise the same node. |
| IndexTree.PlaceUnique | pingkv/src/index/kv_index.cc:201-258 | In a node with ascending keys a key has exactly one place, the one found by counting smaller keys. |
| IndexTree.FreeSpaceExact | pingkv/src/index/kv_index.cc:172-198 | A further record ends inside the node if and only if its key has at most as many bytes as the free space. |
| IndexTree.TailExact | pingkv/src/index/kv_index.cc:244-255 | A key greater than all others goes to the tail if and only if its record ends inside the node, and has no place otherwise. |
| IndexTree.AddChildLookup | pingkv/src/index/kv_index.cc:408-414 | A new empty child, left or right, changes the lookup of no key from any node. |
| IndexTree.AddEntryLookup | pingkv/src/index/kv_index.cc:424-438 | Appending a record changes the lookup of no other key of the same length from any node. |
| IndexTree.AddEntryFinds | pingkv/src/index/kv_index.cc:424-438 | The appended key is found at its new value. |
| IndexTree.AddEntryTreeOk | pingkv/src/index/kv_index.cc:424-438 | Appending keeps every node ascending and full before it has a right child, children later than their parents, one slot for each child and the recorded parent right. |
| IndexTree.AddChildTreeOk | pingkv/src/index/kv_index.cc:405-417 | Linking a new node keeps the same tree invariant. |
| IndexTree.LookupFinds | pingkv/src/index/kv_index.cc:347-386 | What a lookup returns is the value of a record somewhere in the tree that has the key. |
| IndexOrder.SubtreeWithin | pingkv/src/index/kv_index.cc:347-386 | Every key in the subtree of a node lies strictly within the node's bounds, which for a slot are the keys on either side of it. |
| IndexOrder.DescendWithin | pingkv/src/index/kv_index.cc:442-459 | Following a key's place into a child keeps the key within the child's bounds. |
| IndexOrder.AddChildOrdered | pingkv/src/index/kv_index.cc:408-414 | A new child keeps the order across nodes. |
| IndexOrder.AddEntryOrdered | pingkv/src/index/kv_index.cc:424-438 | A record within the bounds of its node keeps the order across nodes. |
| IndexRecords.LookupWithin | pingkv/src/index/kv_index.cc:347-386 | What is found from a node lies within the node's bounds. |
| IndexRecords.FoundRecord | pingkv/src/index/kv_index.cc:347-386 | Whatever a search from a node finds is a record with that key in the node or below it, for keys of any lengths. |
| IndexRecords.RecordFound | pingkv/src/index/kv_index.cc:347-386 | From any node above it, a search for the key of a record finds that record, for keys of any lengths as long as those below a right child did not fit its parent. |
| IndexRecords.EveryRecordFound | pingkv/src/index/kv_index.cc:347-386 | With one key length every node lies below the root and a search from the root finds every record of the tree. |
| IndexStore.NodeAlone | pingkv/src/dbf/data_file.cc:161-171 | A node shares its block with no other row. |
| IndexStore.SaveInPlace | pingkv/src/index/kv_index.cc:293-296 | Saving a node overwrites its row where it is: the record is unchanged, so it never migrates. |
| IndexStore.SaveStored | pingkv/src/index/kv_index.cc:293-296 | After a save that node is stored with its new content, every other node and every value as before. |
| IndexStore.WriteNodeStored | pingkv/src/index/kv_index.cc:261-284 | A new node is row 1 of a new block, later than every node's, and disturbs no node and no value. |
| IndexStore.WriteValueStored | pingkv/src/index/kv_index.cc:427-428 | A new value has an id no key uses, reads back, and disturbs no node and no value. |
| IndexStore.ModifyValueStored | pingkv/src/index/kv_index.cc:439-440 | Modifying a value, with any migration, disturbs no node and no other value. |
| IndexStore.CreateStored | pingkv/src/index/kv_index.cc:120-136 | In a new file the root becomes row 1 of block 2, as the code checks. |
| IndexStore.WriteGrowth | pingkv/src/dbf/data_file_block.cc:135-149 | A write takes at most one block for each 8152 bytes and two more; its first record is in the block in use or the next, with an index below 511. |
| IndexStore.ModifyGrowth | pingkv/src/dbf/data_file_row.cc:157-183 | A modify through any links takes no more blocks than a write. |
| IndexState.NewIndexOk | pingkv/src/index/kv_index.cc:120-136 | A fresh index satisfies the invariant and is the empty map. |
| IndexState.YieldIs | pingkv/src/index/kv_index.cc:347-386 | What a search from the root leads to for a key is what the map of yields says, or nothing. |
| IndexState.SetHolds | pingkv/src/index/kv_index.cc:389-396 | A set after which the key yields certain bytes, and which disturbs no other key, updates the map of yields at that key to exactly those bytes. |
| IndexState.GrowOk | pingkv/src/index/kv_index.cc:405-417 | Adding a node keeps the index invariant and disturbs no key. |
| IndexState.AppendOk | pingkv/src/index/kv_index.cc:424-438 | Adding a record keeps the index invariant, disturbs no other key, and the key is found. |
| IndexState.SetFills | pingkv/src/index/kv_index.cc:398-464 | The node a set begins at has a record afterwards, so no node but the root is ever empty. |
| IndexState.NewChildAbsent | pingkv/src/index/kv_index.cc:405-417 | A key that belongs to a slot without child is absent, before and after an empty child is linked there. |
| IndexState.ModifyDone | pingkv/src/index/kv_index.cc:439-440 | Replacing a value keeps the index invariant, disturbs no other key, and the key yields exactly the new value, or, if that is shorter than what it yielded before, possibly the value filled with zeros to that length. |
| IndexState.SearchStep | pingkv/src/index/kv_index.cc:347-386 | At each node the place of a key says what the whole lookup is: found, absent, or that of one later node. |
| KvIndexes.KvIndex.constructor | pingkv/src/index/kv_index.cc:102-136 | A new index satisfies the invariant and holds nothing. |
| KvIndexes.KvIndex.SaveNode | pingkv/src/index/kv_index.cc:293-296 | Saving takes no block, changes that node only, and is the modify of the node's row. |
| KvIndexes.KvIndex.AddNode | pingkv/src/index/kv_index.cc:261-284 | The new node is stored empty, with its own block id and its parent, in the next block. |
| KvIndexes.KvIndex.FindKey | pingkv/src/index/kv_index.cc:347-386 | The recursive search returns the row id of the key, or block 0, and ends because children are later blocks. |
| KvIndexes.KvIndex.Get | pingkv/src/index/kv_index.cc:304-315 | After any run of set, get and del: exactly the bytes and the length that the map `shown` has for the key, which are the last value set and then zeros; 0 and nothing for a key that was never set or was deleted. |
| KvIndexes.KvIndex.SetKey | pingkv/src/index/kv_index.cc:398-464 | Begun at any node whose bounds hold the key: a key that was absent then yields exactly the value, one that was there exactly the value unless it yielded more bytes before; no other key's lookup or row changes, and no earlier node changes. |
| KvIndexes.KvIndex.Set | pingkv/src/index/kv_index.cc:389-396 | A set that does not come upon a deleted record of the root changes `shown` at its key only: to exactly the value for a new key or a value at least as long as what was shown, else to the value, or the value filled with zeros to that length.  It keeps the invariant through node allocations, chained values and migrations, and takes at most three blocks and one for each 8152 bytes of the value. |
| KvIndexes.KvIndex.Del | pingkv/src/index/kv_index.cc:317-344 | A key the root has a value for leaves the map and its value row reads as deleted; every other key stays, and the invariant is kept; for any other key the file does not change.  No block is taken. |
| IndexDelete.EraseLookup | pingkv/src/index/kv_index.cc:336-343 | Clearing a value id changes only the lookup of its own key. |
| IndexDelete.DeleteValueStored | pingkv/src/index/kv_index.cc:338 | Deleting a value row disturbs no node and no other value. |
| IndexDelete.SaveLeavesRow | pingkv/src/index/kv_index.cc:338-343 | Saving a node leaves every other row as it reads, deleted ones too. |
| IndexDelete.EraseOk | pingkv/src/index/kv_index.cc:336-343 | After a delete that key has no value and every other key the value it had. |
| IndexDelete.DelStep | pingkv/src/index/kv_index.cc:326-344 | The place of a key in the root tells whether the root has a value for it. |
| IndexDeviations.LiteralRoomAgrees | pingkv/src/index/kv_index.cc:211-255 | The literal room test never looks at the node: it agrees with the real room if and only if there is room or the key exceeds 8124 bytes. |
| IndexDeviations.LiteralRoomOverruns | pingkv/src/index/kv_index.cc:241-255 | Two keys of 5000 bytes: the second is placed beyond the end of the node. |
| IndexDeviations.LongKeyNeverPlaced | pingkv/src/index/kv_index.cc:244-255 | No node, whatever its records, has room for a key of more than 8124 bytes; an empty one takes a key if and only if it has at most that many. |
| IndexDeviations.StoredCanDescend | pingkv/src/index/kv_index.cc:398-464 | Every node of a stored index is a state the next row is about. |
| IndexDeviations.LongSetNeverEnds | pingkv/src/index/kv_index.cc:398-464 | A set of a key of more than 8124 bytes never ends: after any number of nested calls the next neither finds the key nor has room for it, node ids have grown by at least that number, and the key is found from no node. |
| IndexDeviations.ShortKeyHidesLonger | pingkv/src/index/kv_index.cc:244-255 | With keys of different lengths, appending a key to a node leaves the lookup of every other key from the root as it was if and only if every key below the node's right child is greater. |
| IndexDeviations.TwoNodesMade | pingkv/src/index/kv_index.cc:424-438 | Sets of a key of 8000 bytes and of a greater one of 200 bytes make a root that is full for the latter and a right child that has it. |
| IndexDeviations.ShortKeyHides200 | pingkv/src/index/kv_index.cc:244-255 | A greater key of one byte still goes to that root, and then the key of 200 bytes is found no more. |
| IndexDeviations.OvercountReads | pingkv/src/index/kv_index.cc:435-436 | Counting one record more makes cleared bytes behind the last one read as a record without key and value. |
| IndexDeviations.GuardIsExact | pingkv/src/index/kv_index.cc:424-426 | The guard of `KvIndexes.KvIndex.Set` shuts out exactly the sets that come upon a deleted record of the root. |
| IndexDeviations.ResetKeepsOthers | pingkv/src/index/kv_index.cc:424-438 | Such a set, of the deleted key or of another one whose place is the deleted record, gives the key its value; no other key is read differently if and only if the record has no left child or that child holds the key that is set and nothing else. |
| IndexDeviations.ResetSameKey | pingkv/src/index/kv_index.cc:424-438 | Setting the deleted key itself again leaves all other keys as they were if and only if its record has no left child. |
| IndexDeviations.AfterDeleteMade | pingkv/src/index/kv_index.cc:326-344 | What set [9], set [5] and del [9] make of a new tree. |
| IndexDeviations.ResetLosesFive | pingkv/src/index/kv_index.cc:424-438 | After that, set [3] and set [9] both lose the key [5], which nobody deleted. |
| Links.Unlink | pingkv/src/tool/linklist.h:163-171 | Unlinking a node leaves the others linked both ways in their order. |
| LinkLists.LinkList.Append | pingkv/src/tool/linklist.h:209-228 | The list is the old one with the element at its end, doubly linked. |
| LinkLists.LinkList.Contains | pingkv/src/tool/linklist.h:95-104 | Returns the first node that matches, or null only if none does. |
| LinkLists.LinkList.Del | pingkv/src/tool/linklist.h:244-252 | Takes out that node and keeps the others in order. |
| LinkLists.LinkList.DestroyNodes | pingkv/src/tool/linklist.h:186-199 | Frees every node once, in order, and leaves the list empty. |
| LLists.LList.PushBack | pingkv/src/tool/llist.cc:34-54 | The list is the old one with the element at its end, doubly linked. |
| LLists.LList.Del | pingkv/src/tool/llist.cc:57-66 | Takes out that node and keeps the others in order. |
| Masking.MaskIsRemainder | pingkv/src/tool/hashtable.h:265 | With a power of two, masking a hash by one less is its Euclidean remainder, for negative hashes too. |
| Masking.MakeBucketCount | pingkv/src/tool/hashtable.h:318-323 | The least power of two that is at least 128 and at least the request. |
| HashTables.AddHolds | pingkv/src/tool/hashtable.h:396-400 | Appending an element for a new key adds it to the map the buckets hold. |
| HashTables.ReplaceHolds | pingkv/src/tool/hashtable.h:389-395 | Replacing the element of a key changes the map at that key only. |
| HashTables.DelHolds | pingkv/src/tool/hashtable.h:300-307 | Taking out the element of a key removes it from the map. |
| HashTables.HashTable.Find | pingkv/src/tool/hashtable.h:257-274 | The map's value, or the default value for a key it does not have. |
| HashTables.HashTable.AddOrReplace | pingkv/src/tool/hashtable.h:276-289 | The map with the key at its new value; true if the key is new; the size stays the number of keys. |
| HashTables.HashTable.Del | pingkv/src/tool/hashtable.h:291-309 | The map without the key; true if it had it; the size stays the number of keys. |
| HashTables.FlatIsMap | pingkv/src/tool/hashtable.h:200-205 | The elements of all buckets, bucket by bucket, are the map's pairs, each key once. |
| HashTables.HashIterator.Next | pingkv/src/tool/hashtable.h:116-132 | Advancing passes over exactly the current element. |
| HashTables.VisitAll | pingkv/src/tool/hashtable.h:116-132 | Going from begin by ++ until the end visits each pair of the map exactly once. |
| LruSpec.AgeOutLongest | pingkv/src/cache/kv_lru.cc:206-210 | Ageing evicts a cold suffix and no entry more than needed. |
| LruSpec.SetBound | pingkv/src/cache/kv_lru.cc:51-56 | A cache within its maximum plus one element stays so after any set. |
| LruSpec.SetKeys | pingkv/src/cache/kv_lru.cc:130-150 | After a set that fits, the key has the new value; every other entry was there before; keys stay distinct; a set that does not fit changes nothing. |
| LruSpec.SetKeepsAll | pingkv/src/cache/kv_lru.cc:51-56 | A set of a pair that fits, in a cache within its maximum, keeps every entry of another key, in the old order, behind the pair. |
| LruSpec.SetKeepsHot | pingkv/src/cache/kv_lru.cc:51-56 | In a cache over its maximum exactly the others of the longest hot prefix with at most half the maximum stay, in order, behind the pair. |
| LruSpec.GetKeys | pingkv/src/cache/kv_lru.cc:164-182 | A get reorders the entries and changes nothing else. |
| LruSpec.GetRecency | pingkv/src/cache/kv_lru.cc:164-182 | A get of a cached key moves its entry to the front and keeps the others in their order; any other get changes nothing. |
| Lru.LruHead.Insert | pingkv/src/cache/kv_lru.cc:98-107 | The node becomes the hottest of one doubly linked list. |
| Lru.LruHead.Remove | pingkv/src/cache/kv_lru.cc:110-121 | The others stay doubly linked in their order, from hot to cold. |
| Lru.KvLru.FindNode | pingkv/src/cache/kv_lru.cc:166-173 | The bucket search finds the node of the key if and only if the cache has the key. |
| Lru.KvLru.Get | pingkv/src/cache/kv_lru.cc:152-182 | A copy of the cached value, which becomes the hottest; null for a key that is not cached. |
| Lru.KvLru.SetNode | pingkv/src/cache/kv_lru.cc:130-150 | The pair becomes the hottest and replaces an older one of the same key; buckets, links and size agree. |
| Lru.KvLru.EvictCold | pingkv/src/cache/kv_lru.cc:185-203 | Takes the coldest entry out of the list, its bucket and the size. |
| Lru.KvLru.AgeOut | pingkv/src/cache/kv_lru.cc:206-210 | Ends, with the longest hot part that has at most half the maximum. |
| Lru.KvLru.Set | pingkv/src/cache/kv_lru.cc:51-56 | The set of the list of pairs, for which `SetKeys`, `SetKeepsAll` and `SetKeepsHot` are proved; the size stays within the maximum plus one element. |
| CachedIndexes.SetCoherence | pingkv/src/index/kv_index.cc:73-79 | After a set the cache agrees with the last values if and only if the pair fits it or the key was not cached with another value. |
| CachedIndexes.OversizedSetGoesStale | pingkv/src/index/kv_index.cc:73-79 | A value too large for the cache, set after a small one, leaves the small one cached. |
| CachedIndexes.CachedIndex.Get | pingkv/src/index/kv_index.cc:53-66 | A cached value that is not empty is answered as it is, byte for byte; otherwise exactly what the file shows.  A cached key is first in the cache afterwards with the others in their order, a miss leaves the cache as it was; the file is not changed.  With a cache that agrees, the answer is the last value set and then zeros. |
| CachedIndexes.CachedIndex.Set | pingkv/src/index/kv_index.cc:73-79 | Sets the key in the index as `KvIndexes.KvIndex.Set` does; a pair of at most 1024 bytes is first in the cache afterwards, with all others behind it while the cache is within its maximum, and a larger one leaves the cache as it was; an agreeing cache stays so if and only if the pair fits or no other value is cached. |
| CacheDeviations.LiteralSearchAgrees | pingkv/src/cache/kv_lru.cc:173 | The literal condition finds the right node if and only if the bucket has fewer than two nodes or one of its first two is the right one. |
| CacheDeviations.LiteralSearchMistakes | pingkv/src/cache/kv_lru.cc:173 | Three keys in a bucket: the second node is taken for the third. |
| CacheDeviations.UnadjustedSize | pingkv/src/cache/kv_lru.cc:135-141 | Left unadjusted, the size is right after a replacement if and only if both values are equally long. |
| CacheDeviations.UnadjustedSizeShort | pingkv/src/cache/kv_lru.cc:135-141 | A value of one byte replaced by one of three leaves the size two bytes short. |
| IoBufs.ConcatLength | pingkv/src/server/kv_io_buf.cc:45-52 | With all blocks but the last of full length, the length of the stream is what `size` computes. |
| IoBufs.IoBuf.Size | pingkv/src/server/kv_io_buf.cc:45-52 | The number of bytes written and not yet read. |
| IoBufs.IoBuf.RLen | pingkv/src/server/kv_io_buf.cc:65-75 | The unread bytes of the first block; positive whenever any byte is unread. |
| IoBufs.IoBuf.RPtr | pingkv/src/server/kv_io_buf.cc:58-63 | The read pointer has the unread bytes of the first block before it. |
| IoBufs.IoBuf.WLen | pingkv/src/server/kv_io_buf.cc:86-93 | There is always room for at least one byte, in a new block if need be; the stream does not change. |
| IoBufs.IoBuf.WPtr | pingkv/src/server/kv_io_buf.cc:78-84 | The write pointer has the room `w_len` promises before it; the stream does not change. |
| IoBufs.IoBuf.AddROffset | pingkv/src/server/kv_io_buf.cc:96-103 | The bytes read grow by the next bytes of the stream; a block read to its end is dropped. |
| IoBufs.IoBuf.AddWOffset | pingkv/src/server/kv_io_buf.cc:105-111 | The stream grows by the bytes put at the write pointer. |
| IoBufs.IoBuf.PutAtWPtr | pingkv/src/server/kv_io_buf.cc:78-84 | Bytes put at the write pointer, in a new block if the last one is full, disturb nothing that is unread. |
| IoBufs.IoBuf.Receive | pingkv/src/server/kv_io_buf.cc:78-111 | Writing any bytes block by block appends exactly them to the stream. |
| IoBufs.IoBuf.SendAll | pingkv/src/server/kv_io_buf.cc:58-103 | Reading while the length is positive yields the rest of the stream in order. |
| Pipeline.QueueLocksNext | pingkv/src/server/kv_work_queue.cc:49-52 | Every step keeps mutual exclusion at each request queue: its mutex is held by exactly the thread in its critical section. |
| Pipeline.ResultLockNext | pingkv/src/server/kv_worker.cc:86-95 | The same for the result queue, among all workers and the sender. |
| Pipeline.WorkerWakesNext | pingkv/src/server/kv_worker.cc:73-84 | No wakeup is lost: a worker asleep without a signal faces an empty queue unless the server is about to signal, and a signalled one finds work. |
| Pipeline.SenderWakesNext | pingkv/src/server/kv_sender.cc:40-56 | The same for the sender, which takes without looking again, and it only sleeps with nothing left to send. |
| Pipeline.FifoNext | pingkv/src/server/kv_work_queue.cc:54-77 | Each queue hands out what was put, in the order it was put. |
| Pipeline.InOrderNext | pingkv/src/server/kv_worker.cc:43-95 | Every step keeps: the results of a file and the request its worker has in hand are the requests taken from its queue, in that order, whatever other workers put in between. |
| Pipeline.ResultsInOrder | pingkv/src/server/kv_worker.cc:86-95 | The results of a file come in the order in which its requests were put. |
| Pipeline.ExactlyOnePlace | pingkv/src/server/kv_server.cc:233-243 | A request that is not answered is found in exactly one place: at the server, in a request queue, at a worker, in the result queue or in the sender's buffer. |
| Pipeline.BufferFree | pingkv/src/server/kv_sender.cc:50-55 | With clients that wait for their answer, the sender's buffer of a connection is free when its next response is stored. |
| Pipeline.DeliverToOrigin | pingkv/src/server/kv_sender.cc:27-31 | A response goes to the connection its request came from, whose client waits for that request. |
| Pipeline.TracedNext | pingkv/src/server/kv_worker.cc:43-95 | Every step keeps: nothing is in two places, nothing is lost, and each client waits for its one unanswered request. |
| Pipeline.RoutedNext | pingkv/src/server/kv_server.cc:235-241 | Every step keeps: a request lies in the queue or with the worker of its own file, and once served its response is in the results with the number, connection and file it was accepted with. |
| Pipeline.StationByStation | pingkv/src/server/kv_worker.cc:43-71 | A request goes from server to queue, worker, results, buffer and client in this order, and is answered at most once. |
| Pipeline.InitInv | pingkv/src/server/kv_server.cc:33-47 | The invariant holds when the server starts, with any number of queues. |
| Pipeline.InvNext | pingkv/src/server/kv_worker.cc:43-95 | Every step of every thread keeps the whole invariant. |
| Pipeline.After | pingkv/src/server/kv_worker.cc:43-95 | The invariant holds after every interleaving of any length. |
| Pipeline.NoDeadlock | pingkv/src/server/kv_worker.cc:73-95 | While a request is not answered, some thread can take a step other than accepting a request or polling. |
| Pipeline.PotentialFalls | pingkv/src/server/kv_sender.cc:25-56 | Every such step lowers a bound computed from the state. |
| Pipeline.WorkersIndependent | pingkv/src/server/kv_worker.cc:73-95 | What a worker can do next depends on no other worker, only on its own state, its queue and the mutex of the results. |
| Pipeline.EverythingAnswered | pingkv/src/server/kv_sender.cc:25-56 | From every reachable state a run without new requests, no longer than the bound, answers all requests: no client waits, and there is a response for each with its number, connection and file. |
| Pipeline.ServerComesBack | pingkv/src/server/kv_server.cc:233-243 | From every reachable state a run without new requests that answers no client leads to a state that accepts a request from every connection that does not wait, for every queue. |
| Pipeline.RunAppend | pingkv/src/server/kv_worker.cc:43-95 | Runs can be put one after the other. |
| Pipeline.AllAccepted | pingkv/src/server/kv_server.cc:235-241 | For any list of requests of different clients that do not wait, for files of any queues, there is a run from every reachable state after which exactly these were accepted besides those before, in order, and all their clients wait at once. |
| Pipeline.AllServed | pingkv/src/server/kv_server.cc:235-241 | Such a run can go on, without new requests, until every client has its answer, with a response in the results for each request of the list, with its number, connection and file. |
| Pipeline.RunsEnd | pingkv/src/server/kv_sender.cc:45-49 | No run without new requests is longer than the bound and twice the number of the sender's polls. |
| ServerDeviations.RequestHasQueue | pingkv/src/server/kv_server.cc:235-237 | The queue index of a hash exists if and only if the hash is not negative, or divisible, and its remainder is below the number of local files. |
| ServerDeviations.NegativeHashHasNoQueue | pingkv/src/server/kv_server.cc:235-237 | A hash of -1 gives queue -1. |
| ServerDeviations.EveryRequestHasQueue | pingkv/src/server/kv_server.cc:235-237 | All non-negative hashes have a queue if and only if the server keeps all files. |
| ServerDeviations.RoutedRequestsHaveQueues | pingkv/src/client/kv_route.cc:22-26 | All requests that clients route to a server have a queue there if and only if the last file number agreeing with its own modulo the greatest common divisor of servers and files is below the number of its files. |
| RowIdCodec.PrintRoundTrip | pingkv/src/dbf/data_file_tool.h:35-95 | Printing a number in base 62 and parsing it gives it back. |
| RowIdCodec.PrintTwoDigits | pingkv/src/dbf/data_file_tool.h:35-58 | The higher digit is written first; the digits are 0 to 9, a to z and A to Z in this order. |
| RowIdCodec.IntToRowIdStr | pingkv/src/dbf/data_file_tool.h:35-58 | For every non-negative int the loop prints its base-62 digits and stays in its 20-byte buffer. |
| RowIdCodec.RowIdStrToInt | pingkv/src/dbf/data_file_tool.h:61-95 | The loop computes the value of the digits, and no intermediate result exceeds an int if the value does not. |
| RowIdCodec.GetSubStr | pingkv/src/dbf/data_file_tool.h:105-117 | Returns the field with that number of the string split at underscores. |
| RowIdCodec.CountChar | pingkv/src/dbf/data_file_tool.h:97-103 | The number of occurrences, one less than the number of fields for the separator. |
| RowIdCodec.BlockIdOf | pingkv/src/dbf/data_file_tool.h:141-146 | The second of three fields or the first of two as a number, and -1 for any other number of fields. |
| RowIdCodec.RowIdxOf | pingkv/src/dbf/data_file_tool.h:148-153 | The last of three or two fields as a number, and -1 for any other number of fields. |
| RowIdCodec.RowIdRoundTrip | pingkv/src/dbf/data_file_tool.h:120-153 | Block and row parse back from row ids of two and of three parts. |
| FileTiling.LocalFileCount | pingkv/src/server/kv_server.cc:28-29 | The loop ends at the quotient of files and servers rounded up. |
| FileTiling.TilesExactly | pingkv/src/server/kv_server.cc:28-31 | Every file is kept by exactly one server, and nothing else is kept, if and only if the servers before the last do not take more files than there are. |

## Left out

- Memory mapping, flushing, file descriptors, the process lock and the disabled checksum: blocks are arrays in memory, and `_cache` of mapped blocks is not there.
- KvIndexes.KvIndex.constructor: starts from a new file; opening one that exists already is not modelled.
- The record index array is a sequence of records beside the data bytes, with its place in the block kept free by the invariant; record bytes are not decoded.
- New blocks are filled with zeros; the original writes whatever the formatting buffer holds in the data area, which no record ever covers unwritten.
- Block ids and the number of blocks are unbounded in the heap file.  `KvIndexes.KvIndex.Set` requires two more block ids below the largest int, as many as a set may store in nodes, and says how many it takes.
- KvIndexes.KvIndex.Get: takes keys of the index's one length only, of at most 8124 bytes, because the index loses keys of different lengths; `IndexDeviations` says which.
- KvIndexes.KvIndex.SetKey: the same, and the key's place is not a deleted record.
- KvIndexes.KvIndex.Set: the same; sets that come upon a deleted record are in `IndexDeviations.ResetKeepsOthers`, on the tree and not on the file's bytes.
- KvIndexes.KvIndex.Del: the same key length; only the root is searched, as in the code.
- CachedIndexes.CachedIndex.Set: the same key length.
- IndexDeviations.ResetKeepsOthers: the bytes behind the root's last record are taken to be the zeros the root was created with, and the record counted too many to lie inside the node.
- NodeBuffer.FindPos: has the room of `_node_free_space`, not of the literal test; `IndexDeviations.LiteralRoomAgrees` is about that.
- Lru.KvLru.FindNode: compares as line 173 means it, not as it is written; `CacheDeviations.LiteralSearchAgrees` is about that.
- Lru.KvLru.Get: rests on the same comparison and on copied bytes.
- Lru.KvLru.SetNode: adjusts the size and copies the bytes, which the code does not do.
- `del` in front of the cache: it does not touch the cache, so a deleted key may still be cached.
- Cache reads through the index: a cached empty value counts as a miss, as in the code, and is then read from the file.
- IoBufs.IoBuf.RLen: the branch for a first block read to its end (pingkv/src/server/kv_io_buf.cc:69-73) is not there, because `add_r_offset` drops such a block and the invariant says none is left.
- IoBufs: block sizes are positive and fit the short offsets.
- HashTables.HashTable.Find: the comparison function is equality of keys, and table and bucket mutexes are not modelled.
- Masking.MakeBucketCount: doubling past the largest int is not modelled.
- RowIdCodec.IntToRowIdStr: negative ids are not modelled; file ids of row ids, `rowid_to_file_id`, are not either.
- RowIdCodec.GetSubStr: a field number past the last field, for which the search starts again from the front, is not modelled.
- RowIdCodec.RowIdStrToInt: characters outside the digits and letters index past what the table sets; only digits and letters are modelled.
- Pipeline: partial sends and receives, errors on a connection, and the contents of requests; a response is sent in one step, and then its buffer is erased in another.
- Pipeline: a connection with descriptor 0 is never accepted, since the worker drops requests from it (pingkv/src/server/kv_worker.cc:51).
- Pipeline: clients that send a second request before the first is answered; the theorems on buffers need synchronous clients.
- Allocation failures and I/O errors.
- Sockets, the poller, the command-line client, the logger, configuration files and time helpers.
