# A model of the LSM storage engine

The engine keeps several versions of every key, each under the id of the transaction that
wrote it. Writes go to a skip list in memory ordered by key and then by id, newest first.
Full tables are frozen, written by a table builder to files of binary-searchable blocks, and
read back newest table first through a Bloom filter, a block index and an LRU-K block cache.
A read at id `t` sees ids up to `t`; a read at id 0 sees everything; an empty value is a removal.

All these structures are measured against one simple thing, the history of writes. A table
holding the history `h` is the sorted sequence `Fold(h)`; a read owes its caller
`Newest(h, k, t)`, the write to `k` with the largest visible id. One result closes the layers:
in every run of writes, removals, freezes, flushes and reads on the engine
(`EngineRuns.RunEngine`, `EngineRuns.RunAndGet`), a read answers with the last visible write
before it, provided that the ids of a key never decrease in write order, that the writes fit
the 16-bit fields of their files, and that no flush meets a full level 0. The condition on
the ids is exact (`Layering.ReadsNewestExactlyWhenIdsNeverDecrease`), and the commit check of
transactions establishes it (`TranRuns.CommittedIdsIncrease`).

| file | module | content |
|---|---|---|
| Keys, Versions | Keys, Versions | key order, versions, sorted tables, histories, stacks of tables |
| Towers, SkipList | Towers, SkipLists | neighbours on the levels of a skip list; the linked structure itself |
| Codec, Block, BlockSearch, BlockMeta | Codec, Blocks, BlockSearch, BlockMetas | byte layout, in-block searches, metadata |
| Bloom, BlockCache, CacheRuns | Bloom, BlockCaches, CacheRuns | filter with its packing; LRU-K cache against a reference, and that over runs |
| Builder, Sst, SstRange | Splitting, Ssts, SstRanges | splitting tables into blocks; files, lookup, range query |
| HeapIterator, Merging | HeapIterators, Merging | merge with shadowing and removals |
| Layering, Memtable, Engine, EngineRuns | Layering, Memtables, Engines, EngineRuns | tables in memory, flush, reads, runs of the engine |
| TranRuns, TranMeaning, Transactions | TranRuns, TranMeaning, Transactions | interleavings of transactions; what they commit; the transaction classes |
| Locks | Locks | threads, locks and the data they guard as a step system |
| AsWritten | AsWritten | the file read path with its defects |

Heights of new towers come from arbitrary draws, hashes are an arbitrary function, and the
number of filter bits and hash rounds are arbitrary positive parameters.

## Where the code and its intent differ

Each of these is kept as it stands in a member of its own, with the exact effect proved, or,
where marked so, is repaired in the model.

- `get_idx_binary` (src/block/block.cpp:286-291) tests the adjusted index the wrong way round.
  `BlockSearch.GetIdxBinary` is that code; `BlockSearch.FindVisible` is the lookup that callers
  and test/test_block.cpp:94-100 expect. The read path of `Ssts` and `Engines` uses the latter.
- No iterator over a file ever equals `end()` (src/sst/sst_iterator.cpp:164-181,
  src/sst/sst.cpp:170-177), so a miss in one file never leads to the next one. `AsWritten`
  carries the code through to `get` and says when it is right; `Engines` takes a miss to mean
  "try the next file".
- A read answered by a file reports the reader's id, not the version's
  (src/engine/engine.cpp:163-176, src/block/block_iterator.cpp:94-97). `Engines.Answer` keeps this:
  the version's own id from memory, the reader's from a file.
- The length fields of an entry are read as 16-bit numbers; `get_tranc_id_at` copies two bytes
  into a wider variable that was never set (src/block/block.cpp:10-11). Repaired.
- An entry that fits no block of its own is dropped silently (src/sst/sst.cpp:41-45):
  `Splitting.HoldsAllExactlyWhenKept`.
- `first_key.empty()` stands for "no first key yet" (src/sst/sst.cpp:18-21), so a table that
  begins with the empty key and holds another key records a wrong first key for its first
  block (`Splitting.FirstKeysRecordedExactlyWhen`). Lookups still find every key that is there
  (`Ssts.PresentKeyOwned`), but `find_block_idx` can name the wrong block for one that is not:
  `Ssts.LeastBlockExactlyWhen` says exactly when, `Ssts.MisrecordedTable` is an example.
- Building a file from an empty frozen table throws after the table was dropped. No write is
  lost; `Engines.LSMEngine.Flush` reports it as `thrown`. The destructor throws exactly when
  an empty table lies behind one that is not (`Engines.LSMEngine.Close`).
- The example before `iters_monotony_predicate` gives a predicate the opposite signs
  (src/skiplist/skiplist.cpp:327-336) to the rule above it and to the code; the model follows
  the code, where a positive value means "go right".
- The heap's comparator (src/iterator/iterator.cpp:7-31) is an order only for items whose table
  index and id agree: `HeapIterators.ComparatorIsOrder`, `ComparatorBreaks`.
- The loop that drops removed keys (src/iterator/iterator.cpp:51-56, 89-94) does not look at
  ids again, so a reader at an id can miss live keys: `Merging.QueryLosesALiveKey` is a table
  and a query, `HeapIterators.DrainRightExactlyWhen` the exact condition. Nothing wrong is
  ever yielded, and at id 0 nothing is missed.
- The id filter of the memtable's range query (src/memtable/memtable.cpp:78, 95) is written
  `id == t > t`, which compares the id with a truth value that is always false. It passes over
  nothing but versions with id 0, and those only for a reader at an id:
  `Merging.ZeroPassedOver`, and the second half of the condition in `Merging.RangeQueryMeaning`.
- A transaction's isolation level is never stored (src/engine/transaction.cpp:9-14): it is an
  arbitrary value in `Transactions`. A staged removal reads back as an empty value there, not
  as nothing.
- `commit` applies nothing it staged (src/engine/transaction.cpp:170-180).
  `Transactions.TranContext.Commit` is that code; the interleavings of `TranRuns` apply staged
  writes, as include/engine/transaction.h:47-49 says.
- The file half of the conflict check never fails a commit: it is skipped from the flushed id
  on, which nothing advances, and compares with the reader's id 0. `TranRuns` proves the full
  check right, and says exactly which runs the check as written keeps right.
- The build writes the largest id over the place of the filter's offset in the footer
  (src/sst/sst.cpp:118-128), so reopening a file reads the halves of that id as its offsets:
  `Ssts.ReopenReadsIds`. The offsets the built object keeps are right (`Ssts.FileDecodes`).
- A flush puts its file into the index under no lock (src/engine/engine.cpp:217-238), and a read
  looks at the node it found after giving up the memtable's locks (src/engine/engine.cpp:141-147).
  `Locks.Isolation` holds of everything else; `Locks.InstallMeetsSearch` and
  `Locks.UseMeetsPut` are runs in which these two meet what they should not.
- A file read locks `ssts_mtx` for reading twice (src/engine/engine.cpp:155-162), which is
  harmless only as long as nothing locks it for writing: `Locks.WriterBetweenSharedLocks`.

## Model

| member | source | states |
|---|---|---|
| Keys.LessIsLexicographic | include/skiplist/skiplist.h:32-50 | the key order is that of `std::string`: where two keys part, the smaller has ended or has the smaller byte |
| Versions.BeforeTotal | include/skiplist/skiplist.h:32-50 | the node order, key ascending then id descending, is total and asymmetric on different slots |
| Versions.SortedIsNodeOrder | include/skiplist/skiplist.h:32-50 | sorted tables are exactly those in dictionary order of keys, and under one key from the largest id down |
| Versions.InsertSorted | src/skiplist/skiplist.cpp:33-108 | a write keeps a table strictly sorted |
| Versions.InsertContents | src/skiplist/skiplist.cpp:62-81 | a write changes the stored versions at its own (key, id) and nowhere else |
| Versions.LookupIsNewestVisible | src/skiplist/skiplist.cpp:162-213 | the linear scan of a sorted table finds the version with the largest visible id, or nothing when none is visible |
| Versions.FoldAnswersNewest | src/skiplist/skiplist.cpp:33-213 | one table answers every read as its history demands, whatever order the ids came in |
| Versions.NewestIsLastWrite | src/engine/engine.cpp:116-190 | with never-decreasing ids the newest visible version is the last visible write |
| Versions.LastWriteMeaning | src/engine/engine.cpp:116-190 | the last visible write is the visible write of the key that no later one follows |
| Versions.TablesLayered | src/memtable/memtable.cpp:192-204 | tables filled one after another from never-decreasing ids are layered: no older table holds a newer version of a key |
| Versions.LayeredReads | src/engine/engine.cpp:138-179 | with never-decreasing ids, asking tables newest first gives the newest visible version of the whole history |
| Towers.NextRaised | src/skiplist/skiplist.cpp:89-105 | adding a tower to one more level changes the right neighbour of exactly those it now stands before, on that level |
| Towers.PrevRaised | src/skiplist/skiplist.cpp:89-105 | the same for left neighbours |
| SkipLists.RaisedShape | src/skiplist/skiplist.cpp:95-101 | the four pointer updates of one level take a well-linked list to a well-linked list with the new tower one level higher |
| SkipLists.Relink | src/skiplist/skiplist.cpp:95-101 | the pointer updates change exactly the two forward and the two backward links around the new node |
| SkipLists.LinkTower | src/skiplist/skiplist.cpp:83-105 | the new node ends up linked on the levels the draws give it, both ways, and the list stays well linked |
| SkipLists.SkipList.ForwardThenBack | src/skiplist/skiplist.cpp:95-101 | on every level of every node and of the head, the node a forward link leads to links back to it |
| SkipLists.SkipList.BackThenForward | src/skiplist/skiplist.cpp:95-101 | and the node or head a backward link leads to links forward to it |
| SkipLists.SkipList.Descend | src/skiplist/skiplist.cpp:46-61 | the descent records the predecessor on every level and stops at the slot |
| SkipLists.SkipList.Put | src/skiplist/skiplist.cpp:33-108 | for all draws: the list stays well linked and accounted for, holds the old table with the version inserted or its value replaced, and gains one tower of the drawn height or none |
| SkipLists.SkipList.Get | src/skiplist/skiplist.cpp:162-213 | the multi-level search agrees with the linear scan of level 0 |
| SkipLists.SkipList.GetSize | src/skiplist/skiplist.cpp:231-234 | the byte count is the sum of key, value and 8 over the stored versions |
| SkipLists.SkipList.Clear | src/skiplist/skiplist.cpp:215-219 | clearing leaves a well-linked empty list |
| SkipLists.SkipList.Flush | src/skiplist/skiplist.cpp:236-247 | a flush hands out every version, in dictionary order of keys and ids descending |
| SkipLists.SkipList.FindSatisfying | src/skiplist/skiplist.cpp:337-376 | the descent by a monotone predicate finds a satisfying node or proves there is none |
| SkipLists.SkipList.WalkToFirst | src/skiplist/skiplist.cpp:378-418 | the walk left over backward links ends at the first satisfying node |
| SkipLists.SkipList.WalkToLast | src/skiplist/skiplist.cpp:420-447 | the walk right ends at the last satisfying node |
| SkipLists.SkipList.ItersMonotonyPredicate | src/skiplist/skiplist.cpp:337-450 | for a monotone predicate exactly the run of satisfying nodes, none exactly when there is none, and neither throw is reached |
| SkipLists.SkipList.CollectRange | src/memtable/memtable.cpp:61-107 | walking level 0 between the two ends yields that slice of the table |
| Codec.LeRoundTrip | src/block/block.cpp:124-153 | a little-endian field of k bytes reads back every number below 256^k |
| Codec.LeDigits | src/block/block.cpp:124-153 | byte i of a field is the i-th base-256 digit from the least: fields are little-endian |
| Blocks.EntryRoundTrip | src/block/block.cpp:124-186 | an entry whose key and value are under 2^16 bytes is read back unchanged from its offset |
| Blocks.BlockRoundTrip | src/block/block.cpp:27-104 | decoding an encoded block, with or without its hash, gives back data and offsets |
| Blocks.EncodedParts | src/block/block.cpp:27-47 | in an encoded block the data comes first, then the offsets two bytes each, then their number |
| Blocks.WrongHashRefused | src/block/block.cpp:66-83 | an encoded block with any other hash behind it is refused |
| Blocks.EncodedBlockRepresents | src/block/block.cpp:27-186 | after encode, hash and decode every offset leads to its entry |
| Blocks.Block.AddEntry | src/block/block.cpp:106-153 | which entries are taken, what the block then holds, and the size bound capacity + 8 for unforced adds |
| BlockSearch.WalkBack | src/block/block.cpp:208-263 | from a visible member of a run, back to the newest visible version of the key |
| BlockSearch.WalkForward | src/block/block.cpp:208-263 | from an invisible member of a run, on to the newest visible version, or none |
| BlockSearch.AdjustIdxByTrancId | src/block/block.cpp:208-263 | whichever member of a run it starts at, the newest version visible at the id, or -1 exactly when there is none |
| BlockSearch.SearchKey | src/block/block.cpp:265-304 | the binary search ends on some version of the key, the one `Probe` names, or -1 exactly when the block has none |
| BlockSearch.FindVisible | src/block/block.cpp:265-304 | the intended lookup is the linear scan: the index of the newest visible version, nothing exactly when none is visible |
| BlockSearch.GetIdxBinary | src/block/block.cpp:265-304 | the lookup as written answers exactly for keys that are present with no visible version, and then with the invisible one the search met |
| BlockSearch.FindFirst | src/block/block.cpp:343-392 | the first search finds the first satisfying entry, or -1 exactly when there is none |
| BlockSearch.FindLast | src/block/block.cpp:394-422 | the second search finds the last one and throws on no monotone predicate |
| BlockSearch.GetMonotonyPredicate | src/block/block.cpp:343-427 | for a monotone predicate exactly [first satisfying, last satisfying + 1), and never a throw |
| BlockMetas.EncodeMetaToSlice | src/block/blockmeta.cpp:10-68 | the moving-pointer encoder writes count, entries, unused space and hash as specified |
| BlockMetas.DecodeMetaFromSlice | src/block/blockmeta.cpp:70-135 | the moving-pointer decoder computes the specified parse, errors included |
| BlockMetas.EncodedMetasDecode | src/block/blockmeta.cpp:10-135 | every metadata list that fits its fields decodes to itself |
| BlockMetas.WrongHashRefused | src/block/blockmeta.cpp:117-132 | a metadata list with any other hash is refused |
| Bloom.BloomFilter.Add | src/utils/bloom_filter.cpp:26-34 | an add sets exactly the positions of its key, so every key added so far stays marked |
| Bloom.PossiblyContains | src/utils/bloom_filter.cpp:37-49 | reports exactly whether all positions of the key are set |
| Bloom.HashAtSteps | src/utils/bloom_filter.cpp:52-73 | the positions of a key are one second hash apart each, in 64 bits |
| Bloom.PackedBit | src/utils/bloom_filter.cpp:76-119 | bit j of a packed byte is bit j of its group of eight |
| Bloom.Encode | src/utils/bloom_filter.cpp:76-119 | the loop over bits writes the header and the packed bits |
| Bloom.Decode | src/utils/bloom_filter.cpp:122-172 | the loop over bytes reads header and bits back |
| Bloom.FilterRoundTrip | src/utils/bloom_filter.cpp:76-172 | decoding an encoded filter gives the filter |
| Bloom.NoFalseNegatives | src/utils/bloom_filter.cpp:26-172 | a key marked before encoding tests positive after decoding |
| BlockCaches.VictimUnique | src/block/block_cache.cpp:25-40 | the LRU-K rule names one victim: least recent below k, else least recent of all |
| BlockCaches.BackIsVictim | src/block/block_cache.cpp:25-40 | the back of the first list, or of the second when that is empty, is this victim |
| BlockCaches.RefinesTouched | src/block/block_cache.cpp:65-85 | moving a node on an access keeps lists and map in step with the reference cache |
| BlockCaches.BlockCache.UpdateAccessCount | src/block/block_cache.cpp:65-85 | an access is an access of the reference cache |
| BlockCaches.BlockCache.Get | src/block/block_cache.cpp:48-62 | a hit returns the cached block and counts as a use; a miss changes no content |
| BlockCaches.BlockCache.Evict | src/block/block_cache.cpp:25-40 | exactly the victim leaves |
| BlockCaches.BlockCache.Put | src/block/block_cache.cpp:9-46 | a put is a put of the reference cache, evicting the victim exactly when full |
| CacheRuns.EntryMeaning | src/block/block_cache.cpp:9-85 | over every run, a cached block is the one last put under its key, its time that of its last access, its count that of its accesses since it came in |
| Splitting.HoldsAllExactlyWhenKept | src/sst/sst.cpp:16-46 | the builder holds its whole input exactly when every entry fits a block of its own or continues the key before it |
| Splitting.BuildsSound | src/sst/sst.cpp:16-75 | for sorted input: blocks are sorted, no key straddles two of them, and key ranges ascend, the first recorded key being as `FirstKeysRecordedExactlyWhen` says |
| Splitting.FirstKeyRecorded | src/sst/sst.cpp:16-46 | the first key recorded for the first block is the first non-empty key of the table |
| Splitting.FirstKeysRecordedExactlyWhen | src/sst/sst.cpp:16-46 | every block records its own first key if and only if the table does not begin with the empty key or holds no other |
| Splitting.OffsetsFit | src/block/block.cpp:124-153 | when block capacity and the bytes of any one key's versions together stay within 2^16, no 16-bit offset is truncated |
| Splitting.FinishedTable | src/sst/sst.cpp:16-75 | the blocks of a storable table are sound, fit their offsets and concatenate to the table |
| Splitting.LookupInChunk | src/sst/sst.cpp:150-158 | a lookup in the table is a lookup in the one block that has the key |
| Splitting.HistoryTablesStorable | src/sst/sst.cpp:16-75 | however a history that fits is spread over tables, each table is storable |
| Ssts.ChunkStands | src/sst/sst.cpp:53-75 | every block stands in the data section at the offset its metadata records |
| Ssts.SSTBuilder.FinishBlock | src/sst/sst.cpp:53-75 | appends the encoded block with its hash and the matching metadata, and empties the block |
| Ssts.SSTBuilder.Add | src/sst/sst.cpp:16-46 | keeps data, metadata, filter, id range and open block those of all versions added so far |
| Ssts.SSTBuilder.Build | src/sst/sst.cpp:78-148 | the whole file, data, metadata, filter and footer, with offsets, first and last key and the least and greatest id; a filter marking every key; it throws exactly when there is no block |
| Ssts.FileDecodes | src/sst/sst.cpp:78-148 | for a table that fits, the bytes between the two offsets decode to the recorded metadata, those behind to the filter, and first and last key are the table's |
| Ssts.ReopenReadsIds | src/sst/sst.cpp:118-128 | the offsets that reopening reads are the halves of the largest id |
| Ssts.FindBlockIdx | src/sst/sst.cpp:281-315 | of any metadata: a block whose recorded range has the key, or the place between a block before the key and one starting after it, -1 being behind the last |
| Ssts.FindsOwned | src/sst/sst.cpp:281-315 | so the block owning the key when there is one, and -1 when the key is beyond all blocks |
| Ssts.PresentKeyOwned | src/sst/sst.cpp:281-315 | the block that has a key owns it, so the index search cannot miss it |
| Ssts.OneChunkPerKey | src/sst/sst.cpp:32-45 | no key is in two blocks |
| Ssts.LeastBlockExactlyWhen | src/sst/sst.cpp:281-315 | for every table and key the result is the least block whose last key is at or after the key, or -1 for none, if and only if the key is not strictly between the first block's last and recorded first key |
| Ssts.MisrecordedTable | src/sst/sst.cpp:16-46 | a table of two blocks, the first holding the empty key alone, in which the search for a key between them ends at the wrong block |
| Ssts.ReadBlock | src/sst/sst.cpp:230-279 | cache transparency: hit, miss or eviction, the answer is the decoding of the file slice, for every file sharing the cache; the cache moves as one use or one admission |
| Ssts.StoredBlock | src/sst/sst.cpp:230-279 | every block of a file reads back as the block that was built |
| Ssts.LookupByIndex | src/sst/sst_iterator.cpp:82-120 | searching the block the index names answers for the whole table |
| Ssts.Get | src/sst/sst.cpp:150-158 | flushing preserves meaning: filter, block search and in-block search give what the table gave, for every key and id |
| SstRanges.ItersMonotonyPredicate | src/sst/sst_iterator.cpp:6-62 | for a monotone predicate the blocks together select exactly the table's run, and nothing throws |
| SstRanges.CoversMore | src/sst/sst_iterator.cpp:28-54 | one more block's range joins the range so far without a gap |
| HeapIterators.ComparatorIsOrder | src/iterator/iterator.cpp:7-31 | where table index and id agree the comparator is the intended order |
| HeapIterators.ComparatorBreaks | src/iterator/iterator.cpp:7-31 | where they do not, each of two items is greater than the other |
| HeapIterators.DrainAccount | src/iterator/iterator.cpp:38-59 | a full drain yields the expected pairs less exactly the lost keys |
| HeapIterators.DrainRightExactlyWhen | src/iterator/iterator.cpp:70-99 | a drain is right if and only if no live key comes after a removed one with nothing from there on, itself included, whose newest item is not a removal |
| HeapIterators.LostExactlyWhen | src/iterator/iterator.cpp:51-56 | a key is lost, inside the tombstone loop or not, exactly under that condition on the items |
| HeapIterators.DrainSound | src/iterator/iterator.cpp:70-99 | every pair a drain yields is expected, whatever else is missed |
| HeapIterators.DrainAscends | src/iterator/iterator.cpp:70-99 | a drain always yields keys ascending, each at most once |
| HeapIterators.DrainMissesNothingExactlyWhen | src/iterator/iterator.cpp:70-99 | it misses nothing if and only if the condition holds |
| HeapIterators.NothingLost | src/iterator/iterator.cpp:51-56 | nothing is lost when no removal is too new for the reader, so never at id 0 |
| HeapIterators.ExpectedMeaning | src/iterator/iterator.cpp:120-148 | the expected pairs are the keys whose newest visible version is no removal |
| HeapIterators.ExpectedAscends | src/iterator/iterator.cpp:70-99 | the expected keys are ascending, each at most once |
| HeapIterators.HeapIterator.constructor | src/iterator/iterator.cpp:38-59 | the queue holds exactly the given items and stands on the first legal one |
| HeapIterators.HeapIterator.Next | src/iterator/iterator.cpp:70-99 | one step drops the whole current key and settles on the next legal one |
| HeapIterators.HeapIterator.SkipByTrancId | src/iterator/iterator.cpp:140-148 | drops exactly the invisible items in front |
| HeapIterators.HeapIterator.Collect | src/iterator/iterator.cpp:70-99 | iterating to the end yields the drain and ends |
| Merging.TablesOrderable | src/memtable/memtable.cpp:61-107 | items of layered tables can be ordered by the heap's comparator |
| Merging.ScanIsRead | src/memtable/memtable.cpp:61-107 | scanning the merged items for a key is reading the stack of tables |
| Merging.OfferedRead | src/memtable/memtable.cpp:70-100 | reading the tables behind the id filter is reading the tables, except that an answer with id 0 is withheld from a reader at an id |
| Merging.RangeQueryMeaning | src/memtable/memtable.cpp:61-107 | the merged query yields ascending keys and only pairs owed, and all of them if and only if no value is hidden behind a removal or was written with id 0 |
| Merging.QueryLosesALiveKey | src/iterator/iterator.cpp:51-56 | a table and a query at id 2 that misses a live key |
| Merging.ZeroPassedOver | src/memtable/memtable.cpp:76-81 | a reader at an id is not shown a value written with id 0 |
| Merging.RangeQueryOfHistory | src/memtable/memtable.cpp:61-107 | at id 0 it lists exactly the selected keys whose last write is no removal, ascending |
| Layering.RunReadsNewest | src/engine/engine.cpp:116-190 | over every run of writes and table changes with never-decreasing ids, every read gives the newest visible version |
| Layering.InversionMisread | src/engine/engine.cpp:138-179 | from any history with a decreasing id, a run in which a read goes wrong |
| Layering.ReadsNewestExactlyWhenIdsNeverDecrease | src/engine/engine.cpp:138-179 | reading newest table first is right on every run over a history if and only if its ids never decrease |
| Layering.FlushKeepsHistory | src/engine/engine.cpp:210-239 | moving the oldest table to disk, or dropping it when empty, loses no write |
| Layering.TiersHistory | src/engine/engine.cpp:116-125 | a write joins the history at its end; flushes and freezes keep it |
| Layering.NothingLeft | src/engine/engine.cpp:108-115 | the accounted total is 0 exactly when no table holds a write |
| Layering.FoldSize | src/skiplist/skiplist.cpp:62-81 | a table accounts for no more versions and bytes than were written to it |
| Memtables.Memtable.Put | src/memtable/memtable.cpp:9-40 | a write goes to the current table and no other |
| Memtables.Memtable.Get | src/memtable/memtable.cpp:118-175 | the first table with a visible version answers |
| Memtables.Memtable.GetTotalSize | src/memtable/memtable.cpp:177-190 | the byte counters sum to key + value + 8 over all versions held |
| Memtables.Memtable.FrozenCurTable | src/memtable/memtable.cpp:192-204 | freezing puts an empty table in front and keeps the rest, bytes included |
| Memtables.Memtable.FlushLast | src/memtable/memtable.cpp:205-236 | the oldest table leaves memory and its file is that of exactly its versions; when it throws and when there is nothing to flush |
| Memtables.Memtable.PassItems | src/memtable/memtable.cpp:76-82 | the loop over one range passes on exactly what the id filter lets through |
| Memtables.Memtable.IterMonotonyPredicate | src/memtable/memtable.cpp:61-107 | the iterator merges exactly the selected versions of all tables that pass the filter, tagged by table |
| Memtables.Memtable.RangeQuery | src/memtable/memtable.cpp:61-107 | query and iteration together: keys in dictionary order, only pairs owed, all of them exactly under the stated condition, and at id 0 the last writes that are no removals |
| Engines.LSMEngine.SstGet | src/engine/engine.cpp:158-180 | the newest file with a visible version answers, as meant |
| Engines.LSMEngine.Get | src/engine/engine.cpp:138-180 | the reply is exactly that of the newest visible version over memory and files, and of the last visible write when ids never decrease, with its own id from memory and the reader's from a file |
| Engines.InMemoryMeaning | src/engine/engine.cpp:141-152 | memory answers exactly when it holds a write of the key the reader may see |
| Engines.LSMEngine.Flush | src/engine/engine.cpp:210-239 | exactly the oldest table moves to a new file with the next id in front of level 0; the history stays; files stay readable if the moved table is; when it throws |
| Engines.LSMEngine.Put | src/engine/engine.cpp:116-125 | the current table grows by exactly this write, then flushes exactly when it reaches the limit; files stay readable if the moved table is |
| Engines.LSMEngine.Remove | src/engine/engine.cpp:182-190 | a removal is a write of the empty value |
| Engines.LSMEngine.Close | src/engine/engine.cpp:108-115 | the destructor's loop ends with memory empty and the history on disk, and throws if and only if an empty table lies behind one that is not |
| Engines.HistoryDiskSound | src/engine/engine.cpp:210-239 | writes that fit, in a history below 4 GB, make every file readable |
| EngineRuns.RunHoldsWritten | src/engine/engine.cpp:108-239 | the tables of every run hold exactly its writes, in order |
| EngineRuns.FittingRunSurvives | src/engine/engine.cpp:210-239 | whatever fits is readable on disk wherever a run flushes |
| EngineRuns.RunEngine | src/engine/engine.cpp:108-239 | every read of every run on the engine answers with value and id of the last visible write before it, when ids of a key never decrease |
| EngineRuns.RunAndGet | src/engine/engine.cpp:108-239 | the same for a fresh engine and a final read, from conditions on what is written |
| AsWritten.NothingEqualsEnd | src/sst/sst_iterator.cpp:164-181 | no iterator on a file or on no entry equals the end |
| AsWritten.SstGet | src/sst/sst.cpp:150-158 | the file read as written stands on an entry exactly for present keys without a visible version |
| AsWritten.SstGetAll | src/engine/engine.cpp:158-180 | the newest file always decides: undefined, or the reply of the invisible version its search meets, and which of the two |
| AsWritten.Get | src/engine/engine.cpp:138-180 | for every reader the read as written is right if and only if memory answers, there is no file, or the version the newest file's search meets gives the right reply by chance; at id 0 only the first two |
| AsWritten.PutFlushGet | src/engine/engine.cpp:138-180 | put a key, flush, get it: the result is undefined |
| TranRuns.StepHistory | src/engine/transaction.cpp:108-181 | a commit appends its staged writes or nothing; every other step, freezes and flushes included, keeps the history |
| TranRuns.CommitKeepsOrderExactlyWhen | src/engine/transaction.cpp:127-168 | a commit keeps ids increasing if and only if no staged key was committed under a higher id |
| TranRuns.CommittedIdsIncrease | src/engine/transaction.cpp:108-181 | over every interleaving, committed ids of each key increase in commit order |
| TranRuns.CommittedReads | src/engine/transaction.cpp:61-106 | so every read answers with the last visible write, which has the largest visible id |
| TranMeaning.RunMeaning | src/engine/transaction.cpp:16-181 | from the operations alone: at every point an open transaction holds exactly the last value it staged for each key, and the history is what the accepted commits staged, in order |
| TranMeaning.LastStagedMeaning | src/engine/transaction.cpp:35-58 | the last value staged is that of the operation staging the key that no later one follows |
| TranMeaning.ReadsOfCommits | src/engine/transaction.cpp:61-106 | reads answer with the last visible write of the accepted commits |
| TranRuns.VerdictsDifferExactlyWhenUnseen | src/engine/transaction.cpp:137-167 | the check as written differs from the full one exactly on a newer version that is only on disk |
| TranRuns.MemoryStep | src/engine/transaction.cpp:137-167 | one step of it keeps ids increasing if and only if it is no such commit |
| TranRuns.MemoryRunsIncreaseExactlyWhenNothingUnseen | src/engine/transaction.cpp:137-167 | a whole run of it keeps ids increasing if and only if no commit in it was one; then it is the run of the full check |
| TranRuns.LostUpdate | src/engine/transaction.cpp:137-167 | a concrete run of seven steps in which an older transaction commits over a flushed newer one |
| Transactions.TranManager.NewTranc | src/engine/transaction.cpp:256-272 | ids are handed out once, ascending |
| Transactions.TranContext.Put | src/engine/transaction.cpp:16-36 | a ReadUncommitted write reaches the engine at once, any other is only staged |
| Transactions.TranContext.Remove | src/engine/transaction.cpp:38-59 | the same for removals, and the reply a read gave before, id included, is recorded once |
| Transactions.TranContext.Get | src/engine/transaction.cpp:61-106 | own staged writes first, then the store at the level's id; from RepeatableRead up reads repeat |
| Transactions.TranContext.Commit | src/engine/transaction.cpp:108-181 | as written: fails exactly when memory answers a staged key with a higher id, records exactly the greatest finished id, and changes nothing in the engine |
| Locks.ProgramOrdered | src/memtable/memtable.cpp:109-236 | every sequence of operations takes its locks in one ascending order, runs every guarded section under the locks of what it touches, and gives them back |
| Locks.ActsDoWork | src/memtable/memtable.cpp:109-236 | every operation passes through exactly its sections |
| Locks.RunSafe | src/memtable/memtable.cpp:109-236 | in every interleaving no two threads hold a mutex in modes that exclude each other |
| Locks.Isolation | src/memtable/memtable.cpp:109-236 | in every state any threads reach, no two are inside conflicting sections, but for the two kinds that run under no lock |
| Locks.KeptApart | src/memtable/memtable.cpp:109-236 | that covers put with put, read, freeze and commit check, flush with read and commit check, and the log, the ids and the cache with themselves |
| Locks.InstallMeetsSearch | src/engine/engine.cpp:234-238 | a run in which a flushed file goes into the index while another thread searches it |
| Locks.UseMeetsPut | src/engine/engine.cpp:141-147 | a run in which a reader looks at a node's value while a put writes it |
| Locks.NoDeadlock | src/memtable/memtable.cpp:129-136 | in every reachable state someone can go on and all can still finish, even when readers yield to waiting writers |
| Locks.WriterBetweenSharedLocks | src/engine/engine.cpp:155-162 | were `ssts_mtx` ever locked for writing, a file read's second shared lock could block for ever |

## Left out

- Engines.LSMEngine.Flush: requires at most 16 files on level 0 when there is something to flush, because beyond that the source compacts first (see below); `Put`, `Remove`, the runs of `EngineRuns` and the transaction methods ask the same only of writes that flush.
- Engines.LSMEngine.Get: requires files that survive their encoding, which `Flush` and `Put` keep table by table.
- Engines.LSMEngine.Close: requires room on level 0 for every table in memory, because the source would compact.
- Memtables.Memtable.IterMonotonyPredicate: requires predicates monotone along each table and never-decreasing ids, without which the heap's comparator is no order and the source's result is unspecified.
- BlockCaches.BlockCache.constructor: requires capacity at least 1 and k at least 2, as the engine's 1024 and 8 are; with capacity 0 the source pops an empty list.
- Ssts.Get: requires a storable table (entries that fit a block, offsets under 2^16) and a file under 4 GB; outside that the 16-bit and 32-bit fields wrap.
- Bloom.Decode: requires a buffer as long as it announces, because the source reads past a shorter one.
- HeapIterators.HeapIterator.constructor: requires items the comparator can order, without which a priority queue has no defined order.
- SstRanges.ItersMonotonyPredicate: gives the positions of the two iterators; `is_end` and iteration over files are not modelled.
- Locks.NoDeadlock: the operations are their locks and the sections in between; compaction, `LSMEngine::clear` and the engine's constructor, which alone locks `ssts_mtx` for writing before any thread can share it (src/engine/engine.cpp:96), are not among them.
- Locks.Isolation: `get_max_flushed_tranc_id` also reads under no lock, a number that nothing writes, and is not among the sections.
- Compaction (`full_compact`, `TwoMergeIterator`, `ConcatIterator`, `gen_ssts_from_iter`): as written both inputs come from one level, removals and ids are lost, and reads consult level 0 only.
- `LSMEngine::iter_monotony_predicate` and iteration over files: their guards are inverted.
- Reopening a file or an engine beyond `Ssts.ReopenReadsIds`: the reader expects another layout than the writer's.
- The write-ahead log and recovery: writing to the log is a step that may fail, nothing more.
- `TranContext::abort`: the state it would restore is not recorded by `put`, and restoring at the old id cannot hide the newer version.
- `SkipList::remove`: the memtable never calls it.
- `LSMEngine::clear` and `del_sst`: ids restart while blocks stay cached; that file ids are not reused is part of `LSMEngine.Valid`.
- `put_batch`, `remove_batch`, `get_batch`, `Memtable::begin`: loops over the operations above.
- The Redis layer and the server; files and memory maps, which are immutable byte sequences here.
- Concrete hash functions, random generators and the floating-point sizing of filters: arbitrary functions, draws and sizes.
- Threads inside one operation: apart from `Locks`, every operation is one step.
- `std::priority_queue`: the items in the order the queue pops them, with `Push` inserting in place.
- Iterators stored in the cache's map: the list they point into and the key; `Find` looks the node up.
- Finished tables, decoded blocks and finished filters are immutable values, shared by value instead of by pointer.
- The builder always has a filter, as the engine asks for one.
- 64-bit wrap-around of byte counters, ids and file ids.
