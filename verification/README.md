# tiny-db storage structures

tiny-db keeps its data in an LSM shape: a skip-list memtable, a write-ahead log, sorted-string tables with
prefix-compressed blocks, separator keys and a Bloom filter, an LRU cache in front, and a small RESP server. This
project models those structures as the code has them and proves what they are for.

| file | models |
|---|---|
| `Bytes.dfy`, `Sequences.dfy` | byte strings in `std::string` order (unsigned, lexicographic); sequences without repetition |
| `Codec.dfy` | little-endian fixed-width integers, the `OffsetInfo` struct read and written as eight bytes |
| `SkipList.dfy` | the 12-level linked list in the heap, its searches, insertion, deletion and iterator |
| `MemTable.dfy` | the memtable over C strings, and the two ways the database writes to it |
| `DataBlock.dfy` | the data block builder, and decoders of the layout it emits |
| `Separator.dfy` | the separator key of an index entry |
| `SsTable.dfy` | how entries are cut into blocks, what the index says, and how a key is routed |
| `SsTableFile.dfy` | the bytes of index, footer and whole file, and the reader's header and index parsing |
| `SsTableLookup.dfy` | looking a key up in the finished bytes, from the footer to the value |
| `SsTableBuilder.dfy` | the table builder object that drives the other builders and the file writer |
| `Words.dfy`, `Murmur.dfy`, `MurmurExample.dfy` | 32-bit machine operations, the filter's hash, and one key hashed by hand |
| `Bloom.dfy` | the Bloom filter and the filter block |
| `FileWriter.dfy` | the 64 KB buffered writer over a disk that is a byte sequence |
| `Wal.dfy` | the log writer, the log reader, and replay of a torn file |
| `Lru.dfy`, `LruTheory.dfy`, `LruValues.dfy` | the LRU cache object, what holds over whole runs of it, and which values it hands out |
| `AvlIterator.dfy` | in-order iteration and search over any binary search tree |
| `Resp.dfy`, `RespTorn.dfy` | the request parser, and what it makes of requests that are cut or malformed |

What the source updates in place is a class here (skip list nodes and list, builders, writer, reader, cache, iterator,
filter), with its own loops, and every method is proved against a function of the abstract state; the theorems are
about those functions. Memtable, log writer and table builder compose: each is proved from the contracts of the objects
below it.

## What is proved

- Skip list: after any insertions and deletions and for every height the coin gives, every pointer of every level leads
  to the next taller node; each level's chain ends and is the level-0 order restricted to taller nodes; the list is a
  sorted map with exact size and memory counts. The unbounded descending loops end.
- Memtable: last write wins on NUL-free data, and exactly what a NUL does to a read or to another key.
- Table: every field of records, directory, index and footer stands where it should; a block decodes from its own last four bytes, sequentially and from any restart point; the footer delimits
  filter and index; the index loop consumes its bytes exactly; a lookup in the finished file finds exactly the entries
  that did not close a block, and what the builder object writes is that file.
- Log: one read's outcome from the file's bytes, whatever they are; replay of any byte-prefix gives exactly the logs that lie wholly inside it and start within reach of the reader's
  32-bit offset, in order.
- Writer: nothing appended is lost, repeated or reordered, for every length.
- LRU: refinement to move-to-front lists, the inclusion theorem for two capacities, the exact contents after inserts, the
  reference counts, right throughout a run exactly if its clients are disciplined, and the value a cached key has.
- Bloom filter: every position in numbers and exactly which keys the filter lets through, no false negatives, irrelevance
  of order and repetition, identical answers after saving and restoring; keys that differ in one word or one tail byte
  have different hashes.
- Iterator: the stack always denotes the rest of the in-order sequence, after `Seek` exactly the keys not below the target.
- RESP: round trip with the decimal print and parse inverse, and exactly which arguments survive, at any place;
  what a request cut at any byte gives.

## Where the code departs from its comments

The model follows the code.

- The shared length of a record is taken against the previous key (`src/table/data_block_builder.cpp:32`), not the
  restart key (`src/table/data_block_builder.h:42`) that the record reader takes it from (`src/sstparser/sst_parser.cpp:178`);
  `RestartKeyExactly` says for which blocks that makes no difference, `NotFromRestart` shows one where it does.
- `Restart_Offset` is never written (`src/table/data_block_builder.cpp:79-81`); `CountLocatesDirectory` shows the count
  is enough for every block that holds a record. An empty block stores the count 1.
- The last group's stored count is 0 when the number of records is a multiple of 16 (`src/table/data_block_builder.cpp:74`);
  `CountsAddUp` gives the condition.
- The index entry of a block flushed by `add` holds the block's end (`src/table/sstable_builder.cpp:46` runs before line
  53), so it names the next block; `OffsetsPointAtBlocks` gives the condition, `SeekRange` what the reader's range then
  holds. The last block's entry holds its start.
- The index key of a block flushed by `add` is at or below the block's last key (`src/table/sstable_builder.cpp:50`),
  although `src/table/index_block_builder.h:16` and the reader's comment promise one above it. `RoutesToBlock` says
  where that one key goes, `IndexKeyAboveBlock` when the promise holds, `LookupFinds` that it is the only kind of entry a lookup misses, `ClosingKeyLost` shows one.
- The separator counts matches behind the first difference too, and lies neither always above the first key
  (`src/table/sstable_builder.cpp:49`) nor always strictly below the second (`src/table/sstable_builder.h:93`).
  `SeparatorAbove`, `SeparatorAtMost` and `SeparatorBelow` give the exact conditions of the lower bound, of the upper bound
  and of the strict upper bound; `NotAlwaysAbove`, `NotAlwaysAtMost` and `NotAlwaysBelow` give keys that fail.
- `MemTable::Insert` with `kAdd` keeps the old value of a key that is present, where the header promises an update in place
  (`src/memtable/memtable.h:28-30`); `AddUpdates` gives the condition, which `DBImpl` meets by asking first.
- `LRU::insert` of a cached key keeps the old value (`src/cache/lru.h:139-144`); `FreshExactly` says for which runs the
  cache still holds the last inserted values.
- The log reader's offset is 64 bits wide but is passed on as 32 (`src/wal/wal_reader.cpp:25`, `src/file/file_reader.cpp:38`),
  so logs behind 2^31 bytes are written and never read; `LogRoundTrip` gives the condition, `OutOfReach` a file.
- `finish_sst` builds the filter twice (`src/table/sstable_builder.cpp:107-113`); `AddingAgain` shows it does no harm.
- `parseRESP` looks for the end of an argument's line from the start of its data, so a line feed inside an argument
  derails it (`src/server/server.cpp:127`); `LineFeedBreaks` gives the condition. A failed search puts the parser back at
  the start of the request, so one cut in a header line is read around in circles; `TornHeader` says with what result.

## Model

| member | source | states |
|---|---|---|
| Codec.EncodeFixed32 | src/utils/codec.cpp:8-13 | writes the four little-endian bytes and leaves the rest of the buffer alone |
| Codec.EncodeFixed64 | src/utils/codec.cpp:15-24 | writes the eight little-endian bytes and leaves the rest of the buffer alone |
| Codec.Fixed32RoundTrip | src/utils/codec.cpp:8-36 | decoding an encoded 32-bit value gives it back, whatever follows |
| Codec.Fixed32Unique | src/utils/codec.cpp:8-36 | encoding a decoded 32-bit value gives its bytes back |
| Codec.Fixed64Halves | src/utils/codec.cpp:15-24 | a 64-bit value is written as its low half, then its high half |
| Codec.Fixed64RoundTrip | src/utils/codec.cpp:15-48 | decoding an encoded 64-bit value gives it back, whatever follows |
| Codec.LittleEndian4 | src/utils/codec.cpp:30-36 | a decoded word is the number with those base-256 digits, lowest first |
| Codec.Fixed32LittleEndian | src/utils/codec.cpp:8-13 | so is the number a 32-bit value was encoded from |
| Codec.Fixed64LittleEndian | src/utils/codec.cpp:15-24 | and a 64-bit value |
| Codec.OffsetInfoRoundTrip | src/table/index_block_builder.cpp:11-13 | an `OffsetInfo` written as a 64-bit integer and read back as a struct is the same pair, negative fields included |
| Codec.OffsetInfoFields | src/db/offset_info.h:13-17 | the struct's bytes are its size and then its offset, each lowest byte first |
| Codec.OffsetInfoUnique | src/db/offset_info.h:13-17 | eight bytes read as the struct and written again are the same bytes |
| SkipLists.SkipList.constructor | src/memtable/skiplist.h:442-450 | a new list is well formed and stands for the empty map |
| SkipLists.SkipList.RandomLevel | src/memtable/skiplist.h:431-440 | some height from 1 to 12; nothing more is used of it |
| SkipLists.SkipList.Contains | src/memtable/skiplist.h:292-334 | answers exactly whether the key is in the list's map; the search ends |
| SkipLists.SkipList.Get | src/memtable/skiplist.h:156-200 | returns exactly what the list's map has for the key; the search ends |
| SkipLists.SkipList.FindPrevNode | src/memtable/skiplist.h:403-429 | at every level in use the array gets the last node before the key's place, above that it is untouched |
| SkipLists.SkipList.FindTarget | src/memtable/skiplist.h:214-260 | Delete's array holds the true predecessor at every level of the node to delete, whose height is found |
| SkipLists.SkipList.LinkIn | src/memtable/skiplist.h:377-386 | one turn moves the predecessor's pointer to the new node, which takes over the old one; no other pointer changes |
| SkipLists.SkipList.LinkAll | src/memtable/skiplist.h:375-387 | after the loop every pointer of every level is right for the list with the new node, whatever its height |
| SkipLists.SkipList.AddNode | src/memtable/skiplist.h:367-387 | the new node stands at its key's place and the structure invariant holds |
| SkipLists.SkipList.Insert | src/memtable/skiplist.h:336-388 | the map gains the pair unless the key was there; order, levels, size and memory count are kept |
| SkipLists.SkipList.Unlink | src/memtable/skiplist.h:282-289 | after the loop every pointer of every level is right for the list without the node |
| SkipLists.SkipList.RemoveNode | src/memtable/skiplist.h:214-289 | exactly the key's node leaves, and the memory count drops by its key and value |
| SkipLists.SkipList.Delete | src/memtable/skiplist.h:202-290 | the map loses the key and nothing else; order, levels, size and memory count are kept |
| SkipLists.PlusTarget | src/memtable/skiplist.h:375-387 | adding a node changes where a level's pointer must lead only for its predecessor, and only below the node's height |
| SkipLists.MinusTarget | src/memtable/skiplist.h:282-289 | removing a node changes only the pointers that led to it |
| SkipLists.SplicedLevels | src/memtable/skiplist.h:375-387 | one turn of the linking loop completes its level and disturbs no other |
| SkipLists.UnsplicedLevels | src/memtable/skiplist.h:282-289 | one turn of the unlinking loop completes its level and disturbs no other |
| SkipLists.MapAt | src/memtable/skiplist.h:156-200 | a key is in the map exactly if the node at its place holds it, and nowhere else |
| SkipLists.PlusMap | src/memtable/skiplist.h:336-388 | the list with one more node stands for the map with one more pair |
| SkipLists.MinusMapUsage | src/memtable/skiplist.h:202-290 | the list without a node stands for the map without its key, and holds that much less |
| SkipLists.ChainsAreSublists | src/memtable/skiplist.h:375-387 | following a level's pointers ends and meets exactly the nodes taller than the level, in order; levels at or above `max_level` are empty, and no node is that tall |
| SkipLists.ListEnumeratesMap | src/memtable/skiplist.h:111-148 | the level-0 walk lists every pair once with keys strictly ascending; size and memory usage are its length and bytes |
| SkipLists.SkipListIterator.MoveToFirst | src/memtable/skiplist.h:111-115 | all the pairs are still to come |
| SkipLists.SkipListIterator.Next | src/memtable/skiplist.h:117-122 | exactly the current pair is dropped from what is to come |
| SkipLists.SkipListIterator.Valid | src/memtable/skiplist.h:144-148 | true exactly while a pair is to come |
| SkipLists.SkipListIterator.Key | src/memtable/skiplist.h:124-130 | the key of the first pair to come |
| SkipLists.SkipListIterator.Value | src/memtable/skiplist.h:137-142 | the value of the first pair to come |
| MemTables.CStr | src/memtable/memtable.cpp:15-34 | what `std::string(view.data())` keeps: the longest NUL-free prefix |
| MemTables.AddUpdates | src/memtable/memtable.cpp:17-19 | an Add leaves the key at the new value exactly if it was absent or had it, against the header's update in place |
| MemTables.MemTable.Insert | src/memtable/memtable.cpp:15-35 | delete-then-insert amounts to one update of the table's map, for each operation type |
| MemTables.MemTable.Contains | src/memtable/memtable.cpp:36-38 | whether the C string of the key is in the map |
| MemTables.MemTable.Get | src/memtable/memtable.cpp:40-42 | what the map has for the C string of the key |
| MemTables.MemTable.GetMemUsage | src/memtable/memtable.cpp:47-49 | the bytes of all keys and values, listed once each |
| MemTables.MemTable.GetSize | src/memtable/memtable.cpp:51-53 | the number of keys |
| MemTables.DBImpl.Put | src/db/db_impl.cpp:37-41 | the memtable is that of the history with the put added, empty keys and values included |
| MemTables.DBImpl.Delete | src/db/db_impl.cpp:59-78 | the memtable is that of the history with the deletion added; an empty key changes nothing |
| MemTables.LastWriteWins | src/db/db_impl.cpp:37-78 | on NUL-free histories any key looked up reads as the last write under its C string, empty if that was a deletion, and nothing else is present |
| MemTables.ReadYourWrite | src/db/db_impl.cpp:37-41 | a value just written reads back exactly if it has no NUL |
| MemTables.Interference | src/memtable/memtable.cpp:15-35 | a write disturbs another key exactly if the two agree up to their first NUL and the value changes |
| DataBlocks.DataBlockBuilder.SharedKeyLen | src/table/data_block_builder.cpp:32-40 | the loop counts the longest common prefix with the previous key |
| DataBlocks.DataBlockBuilder.AddRecord | src/table/data_block_builder.cpp:15-52 | the bytes become those of one more record, and what the builder remembers still matches them |
| DataBlocks.DataBlockBuilder.Add | src/table/data_block_builder.cpp:11-53 | adds the entry, unless its key is empty |
| DataBlocks.DataBlockBuilder.FinishDataBlock | src/table/data_block_builder.cpp:55-82 | the bytes become the whole block of the entries: records, directory, count |
| DataBlocks.DataBlockBuilder.Clear | src/table/data_block_builder.cpp:84-89 | the builder is as new |
| DataBlocks.DecodeFrom | src/table/data_block_builder.cpp:15-49 | decoding from any position gives the entries, if the key before it is known or it is a restart |
| DataBlocks.RecordsRoundTrip | src/table/data_block_builder.cpp:11-53 | sequential decoding recovers exactly the added entries, across all restarts |
| DataBlocks.RestartNumIsGroups | src/table/data_block_builder.cpp:56 | the floating-point count is the number of groups exactly if there is a record, else 1 |
| DataBlocks.CountLocatesDirectory | src/table/data_block_builder.cpp:55-82 | the last four bytes lead to the directory exactly for non-empty blocks |
| DataBlocks.DirectorySays | src/table/data_block_builder.cpp:58-78 | read back, each directory entry gives its group's true offset, size and stored count |
| DataBlocks.DirectoryTiles | src/table/data_block_builder.cpp:58-78 | the (offset, size) pairs tile the record bytes without gap or overlap |
| DataBlocks.BlockRoundTrip | src/table/data_block_builder.cpp:11-82 | a finished block decodes from its own bytes to its entries exactly if it has any |
| DataBlocks.GroupRoundTrip | src/table/data_block_builder.cpp:15-78 | the directory alone gives any group's entries, with no earlier bytes |
| DataBlocks.RestartRoundTrip | src/table/data_block_builder.cpp:15-78 | decoding from any restart to the directory gives all the later entries |
| DataBlocks.RestartHoldsFullKey | src/table/data_block_builder.cpp:16-28 | at a restart stands a record that shares nothing and holds its whole key |
| DataBlocks.RecordFields | src/table/data_block_builder.cpp:15-49 | the five fields of every record, read off the block's bytes; the shared length is the longest beginning shared with the key before it, and 0 at a restart |
| DataBlocks.DirectoryFields | src/table/data_block_builder.cpp:58-78 | count, size and offset of every directory entry, read off the block's bytes |
| DataBlocks.CountField | src/table/data_block_builder.cpp:79-80 | the last four bytes are the number of groups, and 1 without records |
| DataBlocks.RestartKeyExactly | src/table/data_block_builder.cpp:29-41 | for ascending keys, every key can be rebuilt from the first key of its group, as the header has it, exactly if the shared lengths never grow inside a group |
| DataBlocks.NotFromRestart | src/table/data_block_builder.cpp:29-41 | three keys of one group, the third rebuilt wrongly from the first |
| DataBlocks.CountsAddUp | src/table/data_block_builder.cpp:67-74 | the stored group counts sum to the number of records exactly if it is 0 or no multiple of 16, else 16 are missing |
| Separators.FindShortestKey | src/table/sstable_builder.cpp:65-84 | the counting loop computes the separator whose bounds the next rows give |
| Separators.MatchesCount | src/table/sstable_builder.cpp:70-75 | the loop counts the positions where the keys agree, wherever they are |
| Separators.SeparatorShape | src/table/sstable_builder.cpp:76-83 | the separator is that many bytes of the first key and one more: its next byte one higher, or a space |
| Separators.MatchesAndPrefix | src/table/sstable_builder.cpp:70-75 | counting all matching positions never undercounts the common prefix, and reaches the first key's length only for a prefix |
| Separators.SeparatorAbove | src/table/sstable_builder.cpp:76-83 | above the first key exactly unless the bumped byte is 0xFF |
| Separators.SeparatorAtMost | src/table/sstable_builder.cpp:76-83 | at or below the second key exactly unless the first is a prefix of it followed by a byte below 0x20 |
| Separators.SeparatorEqual | src/table/sstable_builder.cpp:76-83 | the second key itself exactly if that is the first with a space behind it, or a beginning of the first with its last byte one higher |
| Separators.SeparatorBelow | src/table/sstable_builder.h:92-98 | strictly below the second key, as the header promises, exactly if at or below it and none of these two |
| Separators.NotAlwaysAbove | src/table/sstable_builder.cpp:70-83 | two keys whose separator is below the first |
| Separators.NotAlwaysAtMost | src/table/sstable_builder.cpp:76-79 | two keys whose separator is above the second |
| Separators.NotAlwaysBelow | src/table/sstable_builder.h:92-98 | two keys whose separator is the second key, which fails the condition of SeparatorBelow |
| Separators.BumpedAbove | src/table/sstable_builder.cpp:97 | bumping the last byte moves a key up exactly unless the byte is 0xFF |
| SsTables.BuildTracks | src/table/sstable_builder.cpp:25-63 | after any additions each index entry holds its block's separator, size and end offset, and no block being filled overflows |
| SsTables.BlocksJustFull | src/table/sstable_builder.cpp:36-60 | a block is flushed by the addition that takes its records past 4096 bytes and by no other |
| SsTables.FinishedIndex | src/table/sstable_builder.cpp:86-106 | finishing adds at most one index entry, for the last block, with its bumped key, size and start offset |
| SsTables.FindKeyDBIndex | src/sstparser/sst_parser.cpp:109-118 | the first entry whose key is above, or -1 if there is none |
| SsTables.IndexKeySplits | src/table/sstable_builder.cpp:42-54 | exactly the entries before a block's closing one, or all for the last block, are below its index key |
| SsTables.IndexKeysIncrease | src/table/sstable_builder.cpp:42-100 | the index keys strictly increase |
| SsTables.IndexKeyAboveBlock | src/sstparser/sst_parser.cpp:66-67 | an index key is above every key of its block, as the comment promises, exactly if a flushed block's last key continues the one before it with a byte below 0x20, or the last key of a block written at the end can be bumped |
| SsTables.RoutesExactly | src/sstparser/sst_parser.cpp:109-118 | for ascending keys whose first record leaves room, every key of every block is routed as the next row says exactly if the last two keys of each flushed block have a separator that fits and the last key of a block written at the end can be bumped |
| SsTables.RoutesToBlock | src/sstparser/sst_parser.cpp:109-118 | every key is routed to its block, except the closing key of a block flushed by an addition: to the next entry, or nowhere |
| SsTables.PlainRoutable | src/table/sstable_builder.cpp:65-84 | ascending keys with bytes in 0x20..0xFE meet the condition of RoutesExactly once the first record fits a block |
| SsTableFiles.ParseIndexBlocks | src/sstparser/sst_parser.cpp:57-73 | the loop reads the entries between the two positions, and none if it would leave the file or miss the end |
| SsTableFiles.IndexRoundTrip | src/sstparser/sst_parser.cpp:57-73 | over an index written anywhere in a file the loop consumes exactly the index and returns the added entries |
| SsTableFiles.IndexEntryFields | src/table/index_block_builder.cpp:7-15 | the bytes of an index entry: length of the key, key, size, offset |
| SsTableFiles.ParsesExactly | src/sstparser/sst_parser.cpp:57-73 | on any bytes the loop returns a list exactly if the bytes between its two positions are that list's |
| SsTableFiles.FooterRoundTrip | src/sstparser/sst_parser.cpp:31-35 | the last sixteen bytes read back as the two `OffsetInfo`s of the footer |
| SsTableFiles.FooterDelimits | src/table/sstable_builder.cpp:107-126 | the file is blocks, filter, index and footer, and the footer delimits filter and index exactly |
| SsTableFiles.FooterFields | src/table/footer_builder.cpp:6-13 | the last sixteen bytes: size and offset of the filter, size and offset of the index |
| SsTableFiles.SstParses | src/sstparser/sst_parser.cpp:25-73 | parsing the file of any table gives back the index that was built |
| SsTableLookups.OffsetsPointAtBlocks | src/table/sstable_builder.cpp:46-53 | an index offset is its block's start exactly for the block written at the end; else it is the next block's start |
| SsTableLookups.SeekRange | src/sstparser/sst_parser.cpp:101-106 | the range searched from the offset in an index entry holds that entry's block exactly if it is the block written at the end |
| SsTableLookups.BlockReadsBack | src/table/sstable_builder.cpp:36-54 | every block is found from the sizes in the index alone and decodes to its entries |
| SsTableLookups.LookupFinds | src/table/sstable_builder.cpp:25-126 | in the finished bytes, filter, index routing and the block found by the sizes give a key a value exactly if that is an added entry that did not close a block |
| SsTableLookups.ClosingKeyLost | src/table/sstable_builder.cpp:36-54 | a two-entry table that meets every condition and does not give back its second key, and whose index points past its block |
| SsTableBuilders.IndexBlockBuilder.Add | src/table/index_block_builder.cpp:7-15 | appends the entry bytes that the parser's loop reads |
| SsTableBuilders.FooterBuilder.Add | src/table/footer_builder.cpp:6-13 | appends the footer bytes that the parser reads |
| SsTableBuilders.Grows | src/table/sstable_builder.cpp:31-61 | what one more entry does to the block, the index, the offset and the bytes, rolled over or not |
| SsTableBuilders.Closes | src/table/sstable_builder.cpp:87-106 | what finishing does to them |
| SsTableBuilders.SsTableBuilder.constructor | src/table/sstable_builder.cpp:14-23 | the builder represents the empty table at the end of the file |
| SsTableBuilders.SsTableBuilder.Add | src/table/sstable_builder.cpp:25-63 | builders, fields and file represent the table with the entry added; an empty key changes nothing |
| SsTableBuilders.SsTableBuilder.FlushBlock | src/table/sstable_builder.cpp:37-59 | the block goes to the file, its separator, size and end offset to the index, and the block builder is emptied |
| SsTableBuilders.SsTableBuilder.FlushLast | src/table/sstable_builder.cpp:89-105 | the last block goes to the file, its bumped key, size and start offset to the index |
| SsTableBuilders.SsTableBuilder.WriteFilter | src/table/sstable_builder.cpp:107-115 | building the filter twice writes the filter of all the keys once |
| SsTableBuilders.SsTableBuilder.FinishSst | src/table/sstable_builder.cpp:86-149 | the disk holds what was there and then the whole table file, nothing is left in the buffer, the writer is closed, and the fields are as for an empty table |
| Words.Rotated | src/filter/bloom_filter.cpp:82 | the shifts and the or exchange the upper fifteen and the lower seventeen bits |
| Words.XorShiftInjective | src/filter/bloom_filter.cpp:28-55 | a word xored with itself shifted can be got back |
| Murmur.HashWords | src/filter/bloom_filter.cpp:24-36 | the word loop takes in all whole words, wrapping, and stops before the tail |
| Murmur.MurmurHash2 | src/filter/bloom_filter.cpp:8-58 | loop, falling-through switch and final mixes compute one function of the key |
| Murmur.OneWordDiffers | src/filter/bloom_filter.cpp:24-55 | keys that differ in one whole word have different hashes |
| Murmur.OneTailByteDiffers | src/filter/bloom_filter.cpp:40-55 | keys that differ in one byte behind the whole words have different hashes |
| MurmurExample.HashOfKey | src/filter/bloom_filter.cpp:8-58 | the hash of one key of a word and three bytes, through every step of the function |
| BloomFilters.PositionIs | src/filter/bloom_filter.cpp:81-89 | the j-th position is (h + j * delta) in 32 bits modulo the number of bits, delta being h with its upper and lower bits exchanged |
| BloomFilters.FilterAnswers | src/filter/bloom_filter.cpp:78-108 | a new filter given some keys says yes exactly to the non-empty keys all of whose positions, in those numbers, are positions of them |
| BloomFilters.BitPlace | src/filter/bloom_filter.cpp:86 | bit p is bit p % 8 of byte p / 8, lowest first |
| BloomFilters.SetBitSets | src/filter/bloom_filter.cpp:86 | OR-ing the mask in sets that bit and no other |
| BloomFilters.BloomFilter.CreateFilter | src/filter/bloom_filter.cpp:78-91 | the bits become the fold of all the keys; every key inserted earlier or now has all its bits set |
| BloomFilters.BloomFilter.Add | src/filter/bloom_filter.cpp:127-140 | the bits become those of one more key, unless it is empty |
| BloomFilters.BloomFilter.Exists | src/filter/bloom_filter.cpp:93-108 | true exactly if the key is not empty and all its bits are set; so always for an inserted non-empty key |
| BloomFilters.BloomFilter.CreateFilter2 | src/filter/bloom_filter.cpp:122-125 | the filter has exactly the given bits and hash number |
| BloomFilters.AddedAllBits | src/filter/bloom_filter.cpp:78-91 | a bit is set after adding keys exactly if it was or is a position of one of them |
| BloomFilters.OrderIrrelevant | src/filter/bloom_filter.cpp:78-140 | the bits depend only on which keys were added, not on order or repetition |
| BloomFilters.AddingAgain | src/table/sstable_builder.cpp:107-113 | creating the filter a second time changes nothing |
| BloomFilters.AddedIsFound | src/filter/bloom_filter.cpp:78-108 | no false negative for any key added before or now |
| BloomFilters.FilterRoundTrip | src/table/filter_block_builder.cpp:27-33 | a filter read back from its block is the one written and answers every key identically |
| BloomFilters.FilterBlockBytes | src/table/filter_block_builder.cpp:30-32 | the block is the bytes of the bit array and the hash number, lowest byte first |
| BloomFilters.FilterBlockBuilder.Add | src/table/filter_block_builder.cpp:10-20 | remembers the key, unless it is empty |
| BloomFilters.FilterBlockBuilder.FinishFilterBlock | src/table/filter_block_builder.cpp:27-42 | the block is the filter of all the keys, and calling again would not change it |
| FileWriters.WholeBuffers | src/file/file_writer.cpp:52-87 | without a flush the disk grows by whole buffers only, and the buffer ends up empty only if there was nothing or the data filled it exactly |
| FileWriters.FileWriter.CopyIn | src/file/file_writer.cpp:77-81 | the bytes go behind what is in the buffer |
| FileWriters.FileWriter.BufPersist | src/file/file_writer.cpp:121-129 | the buffer's bytes move to the disk |
| FileWriters.FileWriter.BufferRest | src/file/file_writer.cpp:70-86 | the copy loop ends and appends the rest of the data, each byte once and in order |
| FileWriters.FileWriter.Append | src/file/file_writer.cpp:44-93 | disk and buffer together grow by exactly the data, for every length; how much stays in the buffer; on a closed writer only what stays in the buffer can be appended |
| FileWriters.FileWriter.Flush | src/file/file_writer.cpp:95-103 | everything appended is on disk |
| FileWriters.FileWriter.Sync | src/file/file_writer.cpp:108-112 | everything appended is on disk |
| FileWriters.FileWriter.Close | src/file/file_writer.cpp:114-119 | everything appended is on disk, and the writer is closed |
| Wals.WALWriter.AddLog | src/wal/wal_writer.cpp:8-35 | the disk grows by exactly the log's frame, and nothing waits in the buffer |
| Wals.WALWriter.Header | src/wal/wal_writer.cpp:9-26 | the eight header bytes are checksum and length, little-endian |
| Wals.WALReader.ReadLog | src/wal/wal_reader.cpp:20-58 | status and new offset of one read, for any file and offset, read where the offset's low 32 bits point; the caller's string is untouched without a header, of the header's length with one, and the payload if that could be read |
| Wals.SuccessIsFrame | src/wal/wal_reader.cpp:20-58 | a read succeeds with a log exactly if that log's whole frame stands where the low 32 bits of the offset point and its payload starts below 2^31; after any success the reader is right behind it |
| Wals.ChecksumDecides | src/wal/wal_reader.cpp:45-57 | a checksum, a length and that many bytes standing there are read whole and the reader moves behind them; success or corruption by the checksum alone |
| Wals.NoHeaderFails | src/wal/wal_reader.cpp:25-28 | without eight bytes to read the reader fails and stays where it is |
| Wals.NoPayloadIsCorruption | src/wal/wal_reader.cpp:46-49 | a payload that is out of reach, too long or not all there is corruption, and the reader is behind the header |
| Wals.FrameFields | src/wal/wal_writer.cpp:9-29 | the bytes of a frame: checksum, length, log |
| Wals.TornTail | src/wal/wal_reader.cpp:20-58 | from any byte-prefix of the file, in order exactly the logs wholly inside whose payloads start below 2^31, and then which failure |
| Wals.LogRoundTrip | src/wal/wal_writer.cpp:8-35 | the whole file gives back all the logs, empty ones included, and then end of file, exactly if the last payload starts below 2^31 |
| Wals.OutOfReach | src/file/file_reader.cpp:38-56 | a log behind one of 2^31 - 1 bytes does not come back |
| Lrus.LRU.PhantomEraseNode | src/cache/lru.h:60-70 | the node leaves list and index for the recycle map and gives up one reference; destroyed if that was the last |
| Lrus.LRU.Ref | src/cache/lru.h:72-79 | one more reference |
| Lrus.LRU.Unref | src/cache/lru.h:81-95 | one reference fewer; at zero or below the node is destroyed and leaves the recycle map |
| Lrus.LRU.Insert | src/cache/lru.h:111-145 | list, index, counters and destroyed nodes become those of the abstract insertion; list and index agree, at most `cap` |
| Lrus.LRU.Erase | src/cache/lru.h:147-157 | likewise for the abstract erasure |
| Lrus.LRU.Get | src/cache/lru.h:159-173 | likewise for the abstract get; the returned node is the first of the list, or null exactly for an uncached key |
| Lrus.LRU.Release | src/cache/lru.h:182-188 | likewise for the abstract release |
| Lrus.LRU.Contains | src/cache/lru.h:175-180 | answers exactly whether the key is in the list |
| LruTheory.KeysOfStep | src/cache/lru.h:111-188 | the four operations, a release only of a cached key, act on the keys as move-to-front with the last one dropped when full |
| LruTheory.RunKeys | src/cache/lru.h:111-188 | in every disciplined run the keys are distinct, at most `cap`, and move by those steps |
| LruTheory.Inclusion | src/cache/lru.h:111-188 | after the same operations a smaller cache's recency list is a subsequence of a larger one's, and clients disciplined on the smaller are disciplined on the larger |
| LruTheory.InsertsKeepMostRecent | src/cache/lru.h:111-145 | after inserts alone the cache holds exactly the `cap` most recently inserted keys, in order |
| LruTheory.ReferenceCounts | src/cache/lru.h:60-95 | in every disciplined run a cached node's count is one plus its outstanding gets, no held node is destroyed, and each node is in one place once |
| LruTheory.RecycledExactly | src/cache/lru.h:60-95 | in every disciplined run the recycle map has a key exactly if the last of its nodes to leave the cache was held then, and has that node |
| LruTheory.DisciplineExactly | src/cache/lru.h:60-95 | where every released key is cached, that accounting holds at every point of the run exactly if no release is of a node nobody holds |
| LruTheory.DestroyedWhenUnheld | src/cache/lru.h:60-95 | a cached node is destroyed by an operation exactly if it leaves the cache with nobody holding it |
| LruTheory.DoubleDestroy | src/cache/lru.h:81-95 | without the discipline the code destroys a node twice, the second time as freed memory: the operations that show it |
| LruValues.InsertedShows | src/cache/lru.h:111-145 | the inserted pair is in front afterwards exactly if the key was absent and the capacity is positive, or was cached with that value |
| LruValues.CachedValue | src/cache/lru.h:111-173 | in any run a cached entry's value is that of the insertion made while its key was absent, and the key has been cached ever since |
| LruValues.CurrentSince | src/cache/lru.h:111-173 | a cached entry has had the last inserted value at every point since then exactly if every insertion of its key since then carried it |
| LruValues.FreshExactly | src/cache/lru.h:111-173 | the cache holds the last inserted values throughout a run exactly if no insertion meets its key cached under another value |
| LruValues.ValuesMayDiffer | src/cache/lru.h:139-144 | two capacities can disagree about a shared key's value, and one of them holds a stale one: the inserts that show it |
| AvlTrees.SearchTreeAscends | src/memtable/avl_tree.h:156-162 | a tree is a search tree exactly if its in-order sequence ascends |
| AvlTrees.SearchIsMembership | src/memtable/avl_tree.h:156-162 | the search finds a node exactly if its pair is in the in-order sequence |
| AvlTrees.AVLIterator.constructor | src/memtable/avl_tree.h:185-189 | all the pairs are to come, in order |
| AvlTrees.AVLIterator.PushLeftPath | src/memtable/avl_tree.h:210-216 | the stack denotes the subtree's whole sequence, then what it denoted before |
| AvlTrees.AVLIterator.FindFirst | src/memtable/avl_tree.h:218-226 | all the pairs are to come, in order |
| AvlTrees.AVLIterator.FindNext | src/memtable/avl_tree.h:233-255 | exactly the current pair is dropped; past the end nothing changes |
| AvlTrees.AVLIterator.Seek | src/memtable/avl_tree.h:266-289 | on a search tree exactly the pairs with keys not below the target are to come |
| AvlTrees.AVLIterator.Valid | src/memtable/avl_tree.h:191-194 | true exactly while a pair is to come |
| AvlTrees.AVLIterator.Key | src/memtable/avl_tree.h:196-201 | the key of the first pair to come |
| AvlTrees.AVLIterator.Value | src/memtable/avl_tree.h:203-208 | the value of the first pair to come |
| AvlTrees.AtLeastIsSuffix | src/memtable/avl_tree.h:266-289 | what Seek leaves is a suffix of the ascending sequence, and what it drops is all smaller |
| Resp.ParseResp | src/server/server.cpp:107-134 | the loop computes the parse that the next rows are about, for every byte string |
| Resp.StoiOfDecimal | src/server/server.cpp:116-124 | reading a printed length gives it back, whatever follows the digits |
| Resp.StoiText | src/server/server.cpp:116-124 | `stoi` on every text of spaces, sign, digits and anything: the number, or a throw without digits or outside of 32 bits |
| Resp.RespRoundTrip | src/server/server.cpp:107-134 | every argument list whose arguments, but perhaps the last, have no line feed is read back, whatever follows |
| Resp.LineFeedBreaks | src/server/server.cpp:119-128 | behind any line-feed-free arguments and with any trailing bytes, an argument is read back with all the arguments that can follow it exactly if it has no line feed |
| Resp.LineFeedExample | src/server/server.cpp:124-127 | a request of two arguments of which one comes back |
| RespTorn.NotAnArray | src/server/server.cpp:111-113 | a request without a star in front has no arguments |
| RespTorn.StopsAtOther | src/server/server.cpp:120-122 | where something else stands than a bulk string, or nothing, the arguments before it are returned |
| RespTorn.StopsAtBadLength | src/server/server.cpp:124-131 | so are they where a length cannot be read |
| RespTorn.NullTakesAll | src/server/server.cpp:124-126 | a negative length makes the argument all that follows its line |
| RespTorn.TornOpening | src/server/server.cpp:111-122 | a request cut in its first line has no arguments |
| RespTorn.TornData | src/server/server.cpp:124-127 | a request cut in the data of an argument gives the arguments before it and what is there of it |
| RespTorn.TornHeader | src/server/server.cpp:119-128 | a request cut in the header of an argument gives the arguments before it, or, behind a digit, goes around: those and a piece of the request itself, over and over, as often as was announced |
| RespTorn.CycleAt | src/server/server.cpp:119-128 | result i of such a request is result i modulo the length of a round |

## Left out

- ReadLog: says only the length of what is left in the caller's string when the payload cannot be read; the code leaves it partly filled.
- CStr: takes the bytes of a view to be followed by a NUL, which a `std::string_view` does not promise; without one the code reads on past the view.
- SeekRange: leaves open a last block that was flushed by an addition, behind which the filter's bytes stand.
- RunKeys: nothing is said of a run after a release of a key that is not cached, where the code dereferences a default iterator, or of a node nobody holds, where it keeps a deleted node in its list.
- RandomLevel: any height the coin can give, without its probability; no complexity bound is stated.
- LookupFinds: takes each block's start from the sizes before it, because the offset `Seek` uses is not the block's start for most entries.
- `DBImpl::Get`, the fixed table path it reads, and replay of the log: the code does not decide whole-database reads.
- `DBImpl` around the memtable calls: the record passed to the log as a C string, the cache calls, the switch to a new memtable when it is over its limit. `MemTable::ConvertToL1SST` has no body in the repository.
- `SSTParser::FindKeyInDB` and the filter part of `Parse`: they read other bytes than the writer emits. The decoders of blocks and filter here, and the lookup with block starts taken from the sizes, are specifications of the emitted layout.
- `SSTParser::ReadAll`: the model starts from the file's bytes.
- The CRC32C computation: any function of the bytes.
- The sizing arithmetic of the Bloom filter constructor: its byte count and hash number are parameters, and a negative hash number is not modelled.
- System calls, partial writes, `fsync`, descriptors: the disk is a byte sequence with total writes and exact-count reads, and a writer is open or closed. A read with length field 0xFFFFFFFF, where the failing call returns the requested count -1, is not modelled.
- Appending a table to a file that is not empty: offsets count from the start of the table, as in the code, and the lookup theorem is about the table's own bytes.
- Overflow of the skip list's, blocks' and caches' counters and of 64-bit offsets, and keys of 2 GiB or more: preconditions keep the lengths written to disk below 2^31. The builder's running offset wraps as a 32-bit integer, and the log reader's is cut to 32 bits, as in the code.
- `SkipList` for other types than strings: the `sizeof` branches.
- Memory of deleted skip list nodes and of the cache's unused new node, `hash_val`, `last_access_time`: they decide nothing. A node's key and value are constants because the code never reassigns them.
- The destructor callback and `delete` of the cache: the sequence of destroyed entries. A list iterator is the node it points to.
- AVL insertion, deletion and rotations: declared in the repository without bodies. Trees are values because no implemented operation changes one.
- Malformed files shorter than a footer, and reads past the end of the buffer: the parser's result is none.
- Locks, threads, logging, allocators, networking, the cache's sharding wrapper, `redis_wrapper.cpp`, `config.cpp`, `main` programs and benchmarks.
