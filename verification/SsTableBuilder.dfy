/** The table builder: it drives the block, index, filter and footer builders and the file writer. */
module SsTableBuilders {
  import opened Bytes
  import opened Codec
  import opened DataBlocks
  import opened Separators
  import opened BloomFilters
  import opened FileWriters
  import opened SsTables
  import opened SsTableFiles

  class IndexBlockBuilder {
    var data: bytes

    constructor ()
      ensures data == []
    {
      data := [];
    }

    method Add(shortestKey: bytes, info: OffsetInfo)
      modifies this
      ensures data == old(data) + IndexEntryBytes(IndexEntry(shortestKey, info))
    {
      hide Fixed32, Fixed64, AsInt64;
      data := data + Fixed32(ToU32(|shortestKey|));
      data := data + shortestKey;
      data := data + Fixed64(AsInt64(info));
    }

    method Clear()
      modifies this
      ensures data == []
    {
      data := [];
    }
  }

  class FooterBuilder {
    var data: bytes

    constructor ()
      ensures data == []
    {
      data := [];
    }

    method Add(metaBlock: OffsetInfo, indexBlock: OffsetInfo)
      modifies this
      ensures data == old(data) + Footer(metaBlock, indexBlock)
    {
      hide Fixed64, AsInt64;
      data := data + Fixed64(AsInt64(metaBlock));
      data := data + Fixed64(AsInt64(indexBlock));
    }

    method Clear()
      modifies this
      ensures data == []
    {
      data := [];
    }
  }

  // ---------------------------------------------------------------- how a table grows

  ghost function Data(s: Sst): bytes
    requires Cuts(s.ends, |s.es|)
  {
    DataBytes(s.es, s.ends, |s.ends|)
  }

  /** What one more entry does to the table under construction. */
  lemma Grows(es: seq<Entry>, e: Entry)
    ensures var s, t := Build(es), Build(es + [e]);
            var more := Current(s) + [e];
            && t.preKey == e.key
            && (!Overflows(more) ==>
                  Current(t) == more && t.index == s.index && t.offset == s.offset && Data(t) == Data(s))
            && (Overflows(more) ==>
                  && Current(t) == [] && t.offset == s.offset + |Block(more)| && Data(t) == Data(s) + Block(more)
                  && t.index == s.index + [IndexEntry(Separator(s.preKey, e.key),
                                                      OffsetInfo(ToI32(|Block(more)|), ToI32(t.offset)))])
  {
    hide Block, Overflows, Separator, DataBytes, AddStep, Current;
    assert (es + [e])[..|es|] == es && (es + [e])[|es|] == e;
    assert Build(es + [e]) == AddStep(Build(es), e);
    GrowsStep(Build(es), e);
  }

  lemma GrowsStep(s: Sst, e: Entry)
    requires Cuts(s.ends, |s.es|) && Start(s.ends, |s.ends|) <= |s.es|
    requires Cuts(AddStep(s, e).ends, |AddStep(s, e).es|)
    requires Start(AddStep(s, e).ends, |AddStep(s, e).ends|) <= |AddStep(s, e).es|
    ensures var t := AddStep(s, e);
            var more := Current(s) + [e];
            && t.preKey == e.key
            && (!Overflows(more) ==>
                  Current(t) == more && t.index == s.index && t.offset == s.offset && Data(t) == Data(s))
            && (Overflows(more) ==>
                  && Current(t) == [] && t.offset == s.offset + |Block(more)| && Data(t) == Data(s) + Block(more)
                  && t.index == s.index + [IndexEntry(Separator(s.preKey, e.key),
                                                      OffsetInfo(ToI32(|Block(more)|), ToI32(t.offset)))])
  {
    hide Block, Overflows, Separator, DataBytes, ToI32;
    var t := AddStep(s, e);
    assert Current(s.(es := s.es + [e])) == Current(s) + [e];
    DataExtend(s.es, s.ends, t.es, t.ends, |s.ends|);
    if Overflows(Current(s) + [e]) { LastData(t, Current(s) + [e]); }
  }

  lemma LastData(t: Sst, block: seq<Entry>)
    requires Cuts(t.ends, |t.es|) && t.ends != [] && Start(t.ends, |t.ends| - 1) <= t.ends[|t.ends| - 1] <= |t.es|
    requires block == t.es[Start(t.ends, |t.ends| - 1)..t.ends[|t.ends| - 1]]
    ensures Data(t) == DataBytes(t.es, t.ends, |t.ends| - 1) + Block(block)
  {
    hide Block;
  }

  /** What finishing does to it. */
  lemma Closes(es: seq<Entry>)
    requires NoEmptyKey(es)
    ensures var s, f := Build(es), Finished(es);
            var last := Current(s);
            && (last == [] ==> f == s)
            && (last != [] ==>
                  && s.preKey != [] && f.offset == s.offset + |Block(last)| && Data(f) == Data(s) + Block(last)
                  && f.index == s.index + [IndexEntry(Bumped(s.preKey), OffsetInfo(ToI32(|Block(last)|), ToI32(s.offset)))])
  {
    hide Block, Build, DataBytes, Overflows, FlushEntry;
    BuildTracks(es);
    var s, f := Build(es), Finished(es);
    if Current(s) != [] {
      assert es[|es| - 1] in es;
      DataExtend(s.es, s.ends, f.es, f.ends, |s.ends|);
      LastData(f, Current(s));
    }
  }

  lemma WrapAdd(a: int, b: int)
    ensures ToI32(ToI32(a) as int + ToI32(b)) == ToI32(a + b)
  {
    hide ToI32;
    var i := WholeWords(a);
    var j := WholeWords(b);
    SameWord(a + b, i + j);
  }

  lemma WholeWords(a: int) returns (k: int)
    ensures ToI32(a) == a + k * 0x1_0000_0000
  {
    k := (ToI32(a) - a) / 0x1_0000_0000;
  }

  lemma SameWord(a: int, k: int)
    ensures ToI32(a + k * 0x1_0000_0000) == ToI32(a)
  {
  }

  lemma KeysPush(es: seq<Entry>, e: Entry)
    ensures KeysOf(es + [e]) == KeysOf(es) + [e.key]
  {
  }

  // ---------------------------------------------------------------- the builder

  /** What the source asks of an entry that overflows its block: a previous key, and a larger one. */
  ghost predicate Accepts(es: seq<Entry>, e: Entry) {
    var block := Current(Build(es)) + [e];
    Overflows(block) ==> |Block(block)| <= INT32_MAX && Build(es).preKey != [] && Less(Build(es).preKey, e.key)
  }

  /** The table, spread over the builder's parts. */
  ghost predicate Holds(s: Sst, block: seq<Entry>, keys: seq<bytes>, start: bytes, contents: bytes, indexData: bytes,
                        preKey: bytes, filterOffset: OffsetInfo) {
    && Cuts(s.ends, |s.es|) && Start(s.ends, |s.ends|) <= |s.es|
    && block == Current(s)
    && keys == KeysOf(s.es)
    && contents == start + Data(s)
    && indexData == IndexBytes(s.index)
    && preKey == s.preKey
    && filterOffset == OffsetInfo(0, ToI32(s.offset))
  }

  lemma HoldsMore(es: seq<Entry>, e: Entry, block: seq<Entry>, keys: seq<bytes>, start: bytes, contents: bytes,
                  indexData: bytes, preKey: bytes, filterOffset: OffsetInfo)
    requires Holds(Build(es), block, keys, start, contents, indexData, preKey, filterOffset)
    ensures block == Current(Build(es)) && preKey == Build(es).preKey
    ensures !Overflows(block + [e]) ==>
              Holds(Build(es + [e]), block + [e], keys + [e.key], start, contents, indexData, e.key, filterOffset)
    ensures Overflows(block + [e]) ==>
              var n, offset := ToI32(|Block(block + [e])|), ToI32(filterOffset.offset as int + ToI32(|Block(block + [e])|));
              Holds(Build(es + [e]), [], keys + [e.key], start, contents + Block(block + [e]),
                    indexData + IndexEntryBytes(IndexEntry(Separator(preKey, e.key), OffsetInfo(n, offset))), e.key,
                    filterOffset.(offset := offset))
  {
    hide Build, Block, Overflows, Separator, DataBytes, IndexBytes, IndexEntryBytes, KeysOf, ToI32;
    var s, more := Build(es), block + [e];
    Grows(es, e);
    KeysPush(es, e);
    WrapAdd(s.offset, |Block(more)|);
    IndexBytesPush(s.index, IndexEntry(Separator(s.preKey, e.key),
                                       OffsetInfo(ToI32(|Block(more)|), ToI32(s.offset + |Block(more)|))));
    assert start + Data(s) + Block(more) == start + (Data(s) + Block(more));
  }

  class SsTableBuilder {
    const dataBlockBuilder: DataBlockBuilder
    const indexBlockBuilder: IndexBlockBuilder
    var filterBlockBuilder: FilterBlockBuilder
    const fileWriter: FileWriter
    const footerBuilder: FooterBuilder
    var filterOffset: OffsetInfo
    var indexOffset: OffsetInfo
    /** The filter's dimensions, in place of the expected key number and false positive rate. */
    const hashFuncNum: nat
    const filterSize: nat
    var indexData: bytes
    var keyCount: nat
    var preKey: bytes
    /** The entries added since the table was started, and what the file held then. */
    ghost var entries: seq<Entry>
    ghost var start: bytes

    /** The component builders are in order, and the filter has not been built. */
    ghost predicate Ready()
      reads this, dataBlockBuilder, indexBlockBuilder, footerBuilder, filterBlockBuilder, filterBlockBuilder.filterPolicy
    {
      && dataBlockBuilder.Valid() && !dataBlockBuilder.finished
      && indexBlockBuilder.data == [] && footerBuilder.data == [] && indexOffset == OffsetInfo(0, 0)
      && filterBlockBuilder.Valid() && ToU32(filterSize * 8) > 0
      && filterBlockBuilder.filterPolicy.bits == NoBits(filterSize)
      && filterBlockBuilder.filterPolicy.hashFuncNum == hashFuncNum
    }

    /** The builders, the fields and the file hold this table. */
    ghost predicate Represents(s: Sst)
      reads this, dataBlockBuilder, filterBlockBuilder, fileWriter, fileWriter.buffer
    {
      && fileWriter.Valid()
      && Holds(s, dataBlockBuilder.entries, filterBlockBuilder.keyData, start, fileWriter.Contents(), indexData, preKey,
               filterOffset)
    }

    ghost predicate Valid()
      reads this, dataBlockBuilder, indexBlockBuilder, footerBuilder, filterBlockBuilder, filterBlockBuilder.filterPolicy,
            fileWriter, fileWriter.buffer
    {
      fileWriter.open && Ready() && NoEmptyKey(entries) && Represents(Build(entries))
    }

    constructor (hashFuncNum: nat, filterSize: nat, fileWriter: FileWriter)
      requires fileWriter.Valid() && fileWriter.open && ToU32(filterSize * 8) > 0
      ensures Valid() && entries == [] && start == fileWriter.Contents() && this.fileWriter == fileWriter
      ensures this.hashFuncNum == hashFuncNum && this.filterSize == filterSize
      ensures fresh(dataBlockBuilder) && fresh(indexBlockBuilder) && fresh(footerBuilder)
      ensures fresh(filterBlockBuilder) && fresh(filterBlockBuilder.filterPolicy)
    {
      hide Build, Holds, NoEmptyKey, ToI32, DataBlockBuilder.Valid, FilterBlockBuilder.Valid, FileWriter.Valid,
           FileWriter.Contents, NoBits;
      this.hashFuncNum, this.filterSize, this.fileWriter := hashFuncNum, filterSize, fileWriter;
      dataBlockBuilder := new DataBlockBuilder();
      indexBlockBuilder := new IndexBlockBuilder();
      filterBlockBuilder := new FilterBlockBuilder(hashFuncNum, filterSize);
      footerBuilder := new FooterBuilder();
      filterOffset, indexOffset := OffsetInfo(0, 0), OffsetInfo(0, 0);
      indexData, keyCount, preKey := [], 0, [];
      entries, start := [], fileWriter.Contents();
      new;
      Nothing(start);
      NoneEmpty();
    }

    method Add(key: bytes, value: bytes)
      requires Valid() && (key != [] ==> Accepts(entries, Entry(key, value)))
      modifies this, dataBlockBuilder, indexBlockBuilder, filterBlockBuilder`keyData,
               fileWriter`disk, fileWriter`bufferOffset, fileWriter.buffer
      ensures Valid() && start == old(start)
      ensures entries == old(entries) + if key == [] then [] else [Entry(key, value)]
      ensures keyCount == old(keyCount) + if key == [] then 0 else 1
      ensures filterBlockBuilder == old(filterBlockBuilder)
    {
      if key == [] {
        return;
      }
      AddEntry(key, value);
    }

    /** Add, past its guard. */
    method AddEntry(key: bytes, value: bytes)
      requires Valid() && key != [] && Accepts(entries, Entry(key, value))
      modifies this, dataBlockBuilder, indexBlockBuilder, filterBlockBuilder`keyData,
               fileWriter`disk, fileWriter`bufferOffset, fileWriter.buffer
      ensures Valid() && start == old(start) && entries == old(entries) + [Entry(key, value)]
      ensures keyCount == old(keyCount) + 1 && filterBlockBuilder == old(filterBlockBuilder)
    {
      hide Build, Block, Overflows, Separator, Less, IndexEntryBytes, Holds, ToI32, NoEmptyKey, DataBlockBuilder.Valid,
           FilterBlockBuilder.Valid, FileWriter.Valid, FileWriter.Contents, NoBits;
      ghost var es, e := entries, Entry(key, value);
      HoldsMore(es, e, dataBlockBuilder.entries, filterBlockBuilder.keyData, start, fileWriter.Contents(), indexData,
                preKey, filterOffset);
      filterBlockBuilder.Add(key);
      dataBlockBuilder.Add(key, value);
      keyCount := keyCount + 1;
      Filled(dataBlockBuilder);
      if |dataBlockBuilder.data| > MAX_DATA_BLOCK_SIZE {
        FlushBlock(key);
      }
      preKey := key;
      entries := es + [e];
      Appended(es, e);
    }

    /** A full block goes to the file, under a separator and with the offset of its end. */
    method FlushBlock(key: bytes)
      requires dataBlockBuilder.Valid() && !dataBlockBuilder.finished && fileWriter.Valid() && fileWriter.open
      requires |Block(dataBlockBuilder.entries)| <= INT32_MAX && indexBlockBuilder.data == []
      requires preKey != [] && Less(preKey, key)
      modifies dataBlockBuilder, indexBlockBuilder, fileWriter`disk, fileWriter`bufferOffset, fileWriter.buffer,
               this`filterOffset, this`indexData
      ensures dataBlockBuilder.Valid() && !dataBlockBuilder.finished && dataBlockBuilder.entries == []
      ensures fileWriter.Valid() && indexBlockBuilder.data == []
      ensures var block := Block(old(dataBlockBuilder.entries));
              && fileWriter.Contents() == old(fileWriter.Contents()) + block
              && filterOffset == old(filterOffset).(offset := ToI32(old(filterOffset.offset) as int + ToI32(|block|)))
              && indexData == old(indexData)
                 + IndexEntryBytes(IndexEntry(Separator(preKey, key), OffsetInfo(ToI32(|block|), filterOffset.offset)))
    {
      hide Block, Separator, ToI32, IndexEntryBytes, Records, Less;
      RecordsInBlock(dataBlockBuilder.entries);
      LessNonempty(preKey, key);
      dataBlockBuilder.FinishDataBlock();
      fileWriter.Append(dataBlockBuilder.data, false);
      filterOffset := filterOffset.(offset := ToI32(filterOffset.offset as int + ToI32(|dataBlockBuilder.data|)));
      var shortestKey := FindShortestKey(preKey, key);
      var info := OffsetInfo(ToI32(|dataBlockBuilder.data|), filterOffset.offset);
      indexBlockBuilder.Add(shortestKey, info);
      indexData := indexData + indexBlockBuilder.data;
      indexBlockBuilder.Clear();
      dataBlockBuilder.Clear();
    }

    /** Closing the table: everything reaches the disk, the writer is closed, and the fields are as
        for an empty table. Only with another writer could there be a next one. */
    method FinishSst()
      requires Valid() && entries != []
      requires |SstFile(entries, TableFilter(entries, filterSize, hashFuncNum))| <= INT32_MAX
      modifies this, dataBlockBuilder, indexBlockBuilder, filterBlockBuilder, filterBlockBuilder.filterPolicy,
               footerBuilder, fileWriter, fileWriter.buffer
      ensures fileWriter.Valid() && fileWriter.bufferOffset == 0 && !fileWriter.open
      ensures fileWriter.disk
           == old(start) + SstFile(old(entries), TableFilter(old(entries), filterSize, hashFuncNum))
      ensures Ready() && entries == [] && Represents(Build([])) && start == fileWriter.disk && keyCount == old(keyCount)
      ensures fresh(filterBlockBuilder) && fresh(filterBlockBuilder.filterPolicy)
    {
      hide Build, Finished, IndexBytes, AllData, TableFilter, Footer, KeysOf, NoEmptyKey, Represents, ToI32, SstFile,
           DataBlockBuilder.Valid, FilterBlockBuilder.Valid, FileWriter.Valid, FileWriter.Contents, NoBits;
      ghost var es := entries;
      ghost var filter := TableFilter(es, filterSize, hashFuncNum);
      IndexNonempty(es);
      PartsFit(es, filter);
      WriteLastBlock();
      ghost var blocks := fileWriter.Contents();
      WriteFilter(es);
      ghost var filtered := fileWriter.Contents();
      WriteIndex();
      Assembled(es, filter, start, blocks, filtered, fileWriter.disk, filterOffset);
      Reset();
    }

    /** The block being filled goes to the file, under its last key bumped and with its start offset. */
    method FlushLast()
      requires dataBlockBuilder.Valid() && !dataBlockBuilder.finished && fileWriter.Valid() && fileWriter.open
      requires |Block(dataBlockBuilder.entries)| <= INT32_MAX && indexBlockBuilder.data == [] && preKey != []
      modifies dataBlockBuilder, indexBlockBuilder, fileWriter`disk, fileWriter`bufferOffset, fileWriter.buffer,
               this`filterOffset, this`indexData, this`preKey
      ensures dataBlockBuilder.Valid() && !dataBlockBuilder.finished && dataBlockBuilder.entries == []
      ensures fileWriter.Valid() && indexBlockBuilder.data == [] && preKey == Bumped(old(preKey))
      ensures var block := Block(old(dataBlockBuilder.entries));
              && fileWriter.Contents() == old(fileWriter.Contents()) + block
              && filterOffset == old(filterOffset).(offset := ToI32(old(filterOffset.offset) as int + ToI32(|block|)))
              && indexData == old(indexData)
                 + IndexEntryBytes(IndexEntry(Bumped(old(preKey)), OffsetInfo(ToI32(|block|), old(filterOffset.offset))))
    {
      hide Block, Bumped, ToI32, IndexEntryBytes, Records;
      RecordsInBlock(dataBlockBuilder.entries);
      dataBlockBuilder.FinishDataBlock();
      fileWriter.Append(dataBlockBuilder.data, false);
      var info := OffsetInfo(ToI32(|dataBlockBuilder.data|), filterOffset.offset);
      preKey := Bumped(preKey);
      indexBlockBuilder.Add(preKey, info);
      indexData := indexData + indexBlockBuilder.data;
      indexBlockBuilder.Clear();
      filterOffset := filterOffset.(offset := ToI32(filterOffset.offset as int + ToI32(|dataBlockBuilder.data|)));
      dataBlockBuilder.Clear();
    }

    method WriteLastBlock()
      requires dataBlockBuilder.Valid() && !dataBlockBuilder.finished && indexBlockBuilder.data == []
      requires fileWriter.open && NoEmptyKey(entries) && Represents(Build(entries)) && |AllData(entries)| <= INT32_MAX
      modifies dataBlockBuilder, indexBlockBuilder, fileWriter`disk, fileWriter`bufferOffset, fileWriter.buffer,
               this`filterOffset, this`indexData, this`preKey
      ensures dataBlockBuilder.Valid() && !dataBlockBuilder.finished && indexBlockBuilder.data == []
      ensures fileWriter.Valid() && fileWriter.Contents() == start + AllData(entries)
      ensures indexData == IndexBytes(Finished(entries).index) && filterBlockBuilder.keyData == KeysOf(entries)
      ensures filterOffset == OffsetInfo(0, ToI32(|AllData(entries)|))
    {
      hide Build, Finished, Block, AllData, NoEmptyKey, IndexBytes, IndexEntryBytes, Bumped, ToI32, Holds, Overflows,
           KeysOf, DataBlockBuilder.Valid, FileWriter.Valid, FileWriter.Contents, NoBits;
      HoldsAtEnd(entries, dataBlockBuilder.entries, filterBlockBuilder.keyData, start, fileWriter.Contents(), indexData,
                 preKey, filterOffset);
      Started(dataBlockBuilder);
      if |dataBlockBuilder.data| > 0 {
        FlushLast();
      }
    }

    /** The filter is built twice, which gives what building it once would have. */
    method WriteFilter(ghost es: seq<Entry>)
      requires filterBlockBuilder.Valid() && ToU32(filterSize * 8) > 0 && filterBlockBuilder.keyData == KeysOf(es)
      requires filterBlockBuilder.filterPolicy.bits == NoBits(filterSize)
      requires filterBlockBuilder.filterPolicy.hashFuncNum == hashFuncNum
      requires fileWriter.Valid() && fileWriter.open && |TableFilter(es, filterSize, hashFuncNum)| <= INT32_MAX
      modifies filterBlockBuilder`data, filterBlockBuilder.filterPolicy, fileWriter`disk, fileWriter`bufferOffset, fileWriter.buffer,
               this`filterOffset
      ensures var filter := TableFilter(es, filterSize, hashFuncNum);
              && fileWriter.Valid() && fileWriter.Contents() == old(fileWriter.Contents()) + filter
              && filterOffset == old(filterOffset).(size := ToI32(|filter|))
    {
      hide ToI32, KeysOf, AddedAll, FilterBlock;
      filterBlockBuilder.FinishFilterBlock();
      filterOffset := filterOffset.(size := ToI32(|filterBlockBuilder.data|));
      filterBlockBuilder.FinishFilterBlock();
      fileWriter.Append(filterBlockBuilder.data, false);
    }

    /** The index and the footer, everything pushed out of the buffer, and the writer closed. */
    method WriteIndex()
      requires fileWriter.Valid() && fileWriter.open && footerBuilder.data == [] && 0 < |indexData| <= INT32_MAX
      modifies footerBuilder, fileWriter, fileWriter.buffer, this`indexOffset
      ensures fileWriter.Valid() && fileWriter.bufferOffset == 0 && !fileWriter.open
      ensures fileWriter.disk
           == old(fileWriter.Contents()) + indexData
              + Footer(filterOffset, OffsetInfo(ToI32(|indexData|), ToI32(filterOffset.offset as int + filterOffset.size)))
    {
      hide Footer, ToI32;
      fileWriter.Append(indexData, false);
      indexOffset := OffsetInfo(ToI32(|indexData|), ToI32(filterOffset.offset as int + filterOffset.size));
      footerBuilder.Add(filterOffset, indexOffset);
      fileWriter.Append(footerBuilder.data, false);
      fileWriter.Flush();
      fileWriter.Close();
    }

    /** Clearing the fields. */
    method Reset()
      requires ToU32(filterSize * 8) > 0 && fileWriter.Valid() && fileWriter.bufferOffset == 0
      modifies this`filterBlockBuilder, this`filterOffset, this`indexOffset, this`indexData, this`preKey, this`entries,
               this`start, dataBlockBuilder, indexBlockBuilder, footerBuilder
      ensures Ready() && entries == [] && Represents(Build([])) && start == fileWriter.disk
      ensures fresh(filterBlockBuilder) && fresh(filterBlockBuilder.filterPolicy)
    {
      hide Build, Holds, NoEmptyKey, ToI32, DataBlockBuilder.Valid, FilterBlockBuilder.Valid, NoBits, FileWriter.Valid,
           FileWriter.Contents;
      Settled(fileWriter);
      dataBlockBuilder.Clear();
      indexBlockBuilder.Clear();
      filterBlockBuilder := new FilterBlockBuilder(hashFuncNum, filterSize);
      footerBuilder.Clear();
      filterOffset, indexOffset := OffsetInfo(0, 0), OffsetInfo(0, 0);
      indexData, preKey := [], [];
      entries, start := [], fileWriter.disk;
      Nothing(start);
      assert filterBlockBuilder.Valid() && dataBlockBuilder.Valid();
      assert Represents(Build([]));
    }
  }

  lemma HoldsAtEnd(es: seq<Entry>, block: seq<Entry>, keys: seq<bytes>, start: bytes, contents: bytes,
                   indexData: bytes, preKey: bytes, filterOffset: OffsetInfo)
    requires Holds(Build(es), block, keys, start, contents, indexData, preKey, filterOffset) && NoEmptyKey(es)
    ensures keys == KeysOf(es)
    ensures block == [] ==>
              contents == start + AllData(es) && indexData == IndexBytes(Finished(es).index)
              && filterOffset == OffsetInfo(0, ToI32(|AllData(es)|))
    ensures block != [] ==>
              var n := ToI32(|Block(block)|);
              && preKey != [] && |Block(block)| <= |AllData(es)|
              && contents + Block(block) == start + AllData(es)
              && indexData + IndexEntryBytes(IndexEntry(Bumped(preKey), OffsetInfo(n, filterOffset.offset)))
                 == IndexBytes(Finished(es).index)
              && OffsetInfo(filterOffset.size, ToI32(filterOffset.offset as int + n)) == OffsetInfo(0, ToI32(|AllData(es)|))
  {
    hide Build, Finished, Block, DataBytes, IndexBytes, IndexEntryBytes, KeysOf, ToI32, NoEmptyKey, Bumped;
    var s := Build(es);
    Closes(es);
    FinishedIndex(es);
    if block != [] {
      WrapAdd(s.offset, |Block(block)|);
      IndexBytesPush(s.index, IndexEntry(Bumped(s.preKey), OffsetInfo(ToI32(|Block(block)|), ToI32(s.offset))));
      assert start + Data(s) + Block(block) == start + (Data(s) + Block(block));
    }
  }

  /** A table with entries has an index. */
  lemma IndexNonempty(es: seq<Entry>)
    requires es != [] && NoEmptyKey(es)
    ensures IndexBytes(Finished(es).index) != []
  {
    hide Finished, IndexEntryBytes;
    FinishedIndex(es);
  }

  /** Before it is finished, the block builder has bytes exactly if it has entries. */
  lemma Started(b: DataBlockBuilder)
    requires b.Valid() && !b.finished
    ensures |b.data| > 0 <==> b.entries != []
  {
    if b.entries != [] { assert |RecordOf(b.entries, |b.entries| - 1)| > 0; }
  }

  lemma Nothing(start: bytes)
    ensures Holds(Build([]), [], [], start, start, [], [], OffsetInfo(0, 0))
  {
    assert start + [] == start;
  }

  lemma Settled(writer: FileWriter)
    requires writer.Valid() && writer.bufferOffset == 0
    ensures writer.Contents() == writer.disk
  {
  }

  lemma NoneEmpty()
    ensures NoEmptyKey([])
  {
  }

  lemma PartsFit(es: seq<Entry>, filter: bytes)
    ensures |AllData(es)| <= |SstFile(es, filter)| && |filter| <= |SstFile(es, filter)|
    ensures |IndexBytes(Finished(es).index)| <= |SstFile(es, filter)|
  {
    hide AllData, Finished, IndexBytes, SstFooter;
  }

  /** The pieces written one after the other are the table. */
  lemma Assembled(es: seq<Entry>, filter: bytes, start: bytes, blocks: bytes, filtered: bytes, disk: bytes,
                  filterOffset: OffsetInfo)
    requires blocks == start + AllData(es) && filtered == blocks + filter
    requires filterOffset == OffsetInfo(ToI32(|filter|), ToI32(|AllData(es)|))
    requires var index := IndexBytes(Finished(es).index);
             disk == filtered + index
                     + Footer(filterOffset, OffsetInfo(ToI32(|index|), ToI32(filterOffset.offset as int + filterOffset.size)))
    ensures disk == start + SstFile(es, filter)
  {
    hide AllData, Finished, IndexBytes, Footer, ToI32;
    WrapAdd(|AllData(es)|, |filter|);
    Chain5(start, AllData(es), filter, IndexBytes(Finished(es).index), SstFooter(es, filter));
  }

  lemma Chain5(a: bytes, b: bytes, c: bytes, d: bytes, e: bytes)
    ensures a + b + c + d + e == a + (b + c + d + e)
  {
  }

  lemma LessNonempty(a: bytes, b: bytes)
    requires Less(a, b)
    ensures b != []
  {
  }

  lemma RecordsInBlock(es: seq<Entry>)
    ensures |Records(es, 0, |es|)| <= |Block(es)|
  {
    hide Records, Directory, RestartNum;
  }

  /** Before it is finished, the block builder is over the limit exactly if its entries overflow. */
  lemma Filled(b: DataBlockBuilder)
    requires b.Valid() && !b.finished
    ensures |b.data| > MAX_DATA_BLOCK_SIZE <==> Overflows(b.entries)
  {
    hide Records;
  }

  lemma Appended(es: seq<Entry>, e: Entry)
    requires NoEmptyKey(es) && e.key != []
    ensures NoEmptyKey(es + [e])
  {
  }
}
