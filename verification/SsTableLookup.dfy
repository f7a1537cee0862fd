/**
 Looking a key up in the bytes of a table: the filter, the route through the index, and the block,
 whose place is the sum of the sizes of the blocks before it. A specification of the emitted layout.
 */
module SsTableLookups {
  import opened Bytes
  import opened Codec
  import opened DataBlocks
  import opened Separators
  import opened BloomFilters
  import opened SsTables
  import opened SsTableFiles

  /** Where block j starts, going by the sizes in the index. */
  function BlockStart(index: seq<IndexEntry>, j: nat): int
    requires j <= |index|
  {
    if j == 0 then 0 else BlockStart(index, j - 1) + index[j - 1].info.size
  }

  function Slice(data: bytes, at: int, size: int): Option<bytes> {
    if at < 0 || size < 0 || at + size > |data| then None else Some(data[at..at + size])
  }

  /** The entries of block j of the file. */
  function ReadBlock(sst: bytes, index: seq<IndexEntry>, j: nat): Option<seq<Entry>>
    requires j < |index|
  {
    match Slice(sst, BlockStart(index, j), index[j].info.size)
    case None => None
    case Some(block) => DecodeBlock(block)
  }

  /** Whether the stored filter says the key may be there. */
  predicate PassesFilter(sst: bytes, key: bytes)
    requires |sst| >= FOOTER_SIZE
  {
    var info := ParseHeader(sst).metaBlock;
    match Slice(sst, info.offset, info.size)
    case None => false
    case Some(data) =>
      |data| >= 4 &&
      var r := ReadFilterBlock(data);
      BitsSize(r.bits) > 0 && MayContain(r.bits, key, r.hashFuncNum)
  }

  function FindEntry(es: seq<Entry>, key: bytes): Option<bytes> {
    if es == [] then None else if es[0].key == key then Some(es[0].value) else FindEntry(es[1..], key)
  }

  function FindInBlock(sst: bytes, index: seq<IndexEntry>, key: bytes): Option<bytes> {
    var j := RouteFrom(index, key, 0);
    if j < 0 || j >= |index| then None
    else
      match ReadBlock(sst, index, j)
      case None => None
      case Some(es) => FindEntry(es, key)
  }

  function Lookup(sst: bytes, key: bytes): Option<bytes> {
    if |sst| < FOOTER_SIZE || !PassesFilter(sst, key) then None
    else
      match ParseSst(sst)
      case None => None
      case Some(index) => FindInBlock(sst, index, key)
  }

  // ---------------------------------------------------------------- the blocks are where the sizes say

  lemma {:induction false} DataSplits(es: seq<Entry>, ends: seq<nat>, j: nat, k: nat)
    requires Cuts(ends, |es|) && j <= k <= |ends|
    ensures DataBytes(es, ends, j) <= DataBytes(es, ends, k)
    decreases k
  {
    hide Block;
    if j < k { DataSplits(es, ends, j, k - 1); }
  }

  ghost predicate SizesRight(f: Sst) {
    && |f.index| == |f.ends| && Cuts(f.ends, |f.es|)
    && forall j :: 0 <= j < |f.ends| ==> SizeRight(f, j)
  }

  ghost predicate SizeRight(f: Sst, j: nat) {
    && j < |f.ends| && j < |f.index| && CutAt(f.ends, |f.es|, j)
    && f.index[j].info.size == ToI32(|Block(BlockOf(f, j))|)
  }

  lemma FinishedSizes(es: seq<Entry>)
    requires NoEmptyKey(es)
    ensures SizesRight(Finished(es))
  {
    hide Finished, Build, Block, DataBytes;
    FinishedIndex(es);
    var f, n := Finished(es), |Build(es).ends|;
    forall j | 0 <= j < |f.ends| ensures SizeRight(f, j) {
      if j < n { assert FlushEntry(f, j); } else { assert FinalEntry(f, j); }
    }
  }

  lemma DataStep(f: Sst, j: nat)
    requires Cuts(f.ends, |f.es|) && j < |f.ends|
    ensures CutAt(f.ends, |f.es|, j)
    ensures DataBytes(f.es, f.ends, j + 1) == DataBytes(f.es, f.ends, j) + Block(BlockOf(f, j))
  {
    hide Block;
  }

  /** The sizes before block j add up to the bytes before it. */
  lemma {:induction false} BlockStarts(f: Sst, j: nat)
    requires SizesRight(f) && |DataBytes(f.es, f.ends, |f.ends|)| <= INT32_MAX && j <= |f.ends|
    ensures BlockStart(f.index, j) == |DataBytes(f.es, f.ends, j)|
  {
    hide Block, DataBytes;
    if j == 0 {
      NoBlocks(f);
    } else {
      BlockStarts(f, j - 1);
      DataStep(f, j - 1);
      DataSplits(f.es, f.ends, j, |f.ends|);
      assert SizeRight(f, j - 1);
    }
  }

  lemma NoBlocks(f: Sst)
    requires Cuts(f.ends, |f.es|)
    ensures DataBytes(f.es, f.ends, 0) == []
  {
  }

  /** The offset in an index entry is its block's start only for the block written at the end: for
      every block flushed by an addition it is the start of the block after. */
  lemma OffsetsPointAtBlocks(es: seq<Entry>, j: nat)
    requires NoEmptyKey(es) && |AllData(es)| <= INT32_MAX && j < |Finished(es).ends|
    ensures |Finished(es).index| == |Finished(es).ends|
    ensures var index := Finished(es).index;
            && (index[j].info.offset == BlockStart(index, j) <==> j == |Build(es).ends|)
            && (j < |Build(es).ends| ==> index[j].info.offset == BlockStart(index, j + 1))
  {
    hide Finished, Build, Block, DataBytes, BlockStart, SizesRight, FlushEntry, FinalEntry, BlockOf;
    var f, n := Finished(es), |Build(es).ends|;
    FinishedIndex(es);
    FinishedSizes(es);
    BlockStarts(f, j);
    BlockStarts(f, j + 1);
    DataStep(f, j);
    DataSplits(es, f.ends, j + 1, |f.ends|);
    BlockNonempty(BlockOf(f, j));
    if j < n { FlushOffset(f, j); } else { FinalOffset(f, j); }
  }

  lemma FlushOffset(f: Sst, j: nat)
    requires FlushEntry(f, j)
    ensures f.index[j].info.offset == ToI32(|DataBytes(f.es, f.ends, j + 1)|)
  {
    hide Block, DataBytes;
  }

  lemma FinalOffset(f: Sst, j: nat)
    requires FinalEntry(f, j)
    ensures f.index[j].info.offset == ToI32(|DataBytes(f.es, f.ends, j)|)
  {
    hide Block, DataBytes;
  }

  lemma BlockNonempty(es: seq<Entry>)
    ensures |Block(es)| >= 4
  {
    hide Records, Directory, RestartNum;
  }

  lemma SliceMiddle(sst: bytes, all: bytes, before: bytes, block: bytes)
    requires all <= sst && before + block <= all
    ensures Slice(sst, |before|, |block|) == Some(block)
  {
    assert sst[|before|..|before| + |block|] == (before + block)[|before|..] == block;
  }

  lemma BlockSlice(es: seq<Entry>, filter: bytes, j: nat)
    requires NoEmptyKey(es) && |SstFile(es, filter)| <= INT32_MAX && j < |Finished(es).ends|
    ensures var f := Finished(es);
            && SizesRight(f) && CutAt(f.ends, |es|, j) && |Block(BlockOf(f, j))| <= INT32_MAX
            && Slice(SstFile(es, filter), BlockStart(f.index, j), f.index[j].info.size) == Some(Block(BlockOf(f, j)))
  {
    hide Finished, Block, DataBytes, SstFile, Slice, ParseHeader, SizesRight, IndexBytes, BlockStart;
    var f, sst := Finished(es), SstFile(es, filter);
    FooterDelimits(es, filter);
    FinishedSizes(es);
    SizesSay(f, j);
    BlockStarts(f, j);
    DataStep(f, j);
    DataSplits(es, f.ends, j + 1, |f.ends|);
    SliceMiddle(sst, AllData(es), DataBytes(es, f.ends, j), Block(BlockOf(f, j)));
  }

  lemma SizesSay(f: Sst, j: nat)
    requires SizesRight(f) && j < |f.ends|
    ensures |f.index| == |f.ends| && SizeRight(f, j)
  {
    hide SizeRight;
  }

  /** Every block of a table file is found from the sizes alone and decodes to its entries. */
  lemma BlockReadsBack(es: seq<Entry>, filter: bytes, j: nat)
    requires NoEmptyKey(es) && (forall e :: e in es ==> Fits(e))
    requires |SstFile(es, filter)| <= INT32_MAX && j < |Finished(es).ends|
    ensures |Finished(es).index| == |Finished(es).ends|
    ensures var f := Finished(es);
            CutAt(f.ends, |es|, j) && ReadBlock(SstFile(es, filter), f.index, j) == Some(BlockOf(f, j))
  {
    hide Finished, Block, DecodeBlock, SstFile, Slice, BlockStart;
    BlockSlice(es, filter, j);
    SizesSay(Finished(es), j);
    assert forall e :: e in BlockOf(Finished(es), j) ==> e in es;
    BlockRoundTrip(BlockOf(Finished(es), j));
  }

  // ---------------------------------------------------------------- what Seek's range holds

  lemma WindowDecodes(data: bytes, block: bytes, at: nat, n: nat)
    requires at + |block| <= |data| && data[at..at + |block|] == block && 12 + n <= |block|
    ensures DecodeFixed32(data[at + 4..]) == DecodeFixed32(block[4..])
    ensures data[at + 12..at + 12 + n] == block[12..12 + n]
  {
    hide DecodeFixed32;
    var a, b := data[at + 4..], block[4..];
    assert a[..|b|] == b;
    FourBytes(a, b);
    var there, here := data[at + 12..at + 12 + n], block[12..12 + n];
    forall i | 0 <= i < n ensures there[i] == here[i] {
      assert data[at..at + |block|][12 + i] == data[at + 12 + i];
    }
  }

  lemma FourBytes(a: bytes, b: bytes)
    requires |b| >= 4 && |a| >= |b| && a[..|b|] == b
    ensures DecodeFixed32(a) == DecodeFixed32(b)
  {
    assert b[0] == a[..|b|][0] && b[1] == a[..|b|][1] && b[2] == a[..|b|][2] && b[3] == a[..|b|][3];
  }

  /** Wherever a block stands, its first key can be read off the bytes. */
  lemma FirstKeyAt(data: bytes, at: nat, es: seq<Entry>)
    requires Writable(es) && es != [] && Slice(data, at, |Block(es)|) == Some(Block(es))
    ensures at + 12 + |es[0].key| <= |data|
    ensures DecodeFixed32(data[at + 4..]) == |es[0].key| && data[at + 12..at + 12 + |es[0].key|] == es[0].key
  {
    hide Block, DecodeFixed32, GroupOffset, Writable;
    RestartHoldsFullKey(es, 0);
    FirstGroup(es);
    WindowDecodes(data, Block(es), at, |es[0].key|);
  }

  lemma BlockWritable(es: seq<Entry>, filter: bytes, j: nat)
    requires NoEmptyKey(es) && (forall e :: e in es ==> Fits(e))
    requires |SstFile(es, filter)| <= INT32_MAX && j < |Finished(es).ends|
    ensures CutAt(Finished(es).ends, |es|, j)
    ensures BlockOf(Finished(es), j) != [] && BlockOf(Finished(es), j)[0] == es[Start(Finished(es).ends, j)]
    ensures Writable(BlockOf(Finished(es), j))
  {
    hide Finished, Block, SstFile, Slice, BlockStart, SizesRight;
    BlockSlice(es, filter, j);
    assert forall e :: e in BlockOf(Finished(es), j) ==> e in es;
  }

  /** The range `Seek` searches, from the offset in the index entry, holds the entry's block exactly if
      that is the block written at the end. A last block that was flushed by an addition is left open:
      behind it stands the filter, whose bits can be any bytes. */
  lemma SeekRange(es: seq<Entry>, filter: bytes, j: nat)
    requires NoEmptyKey(es) && KeysAscend(es) && (forall e :: e in es ==> Fits(e))
    requires |SstFile(es, filter)| <= INT32_MAX && j < |Finished(es).ends|
    requires j + 1 < |Finished(es).ends| || j == |Build(es).ends|
    ensures |Finished(es).index| == |Finished(es).ends| && CutAt(Finished(es).ends, |es|, j)
    ensures var f := Finished(es);
            Slice(SstFile(es, filter), f.index[j].info.offset, f.index[j].info.size) == Some(Block(BlockOf(f, j)))
            <==> j == |Build(es).ends|
  {
    hide Finished, Build, Block, SstFile, Slice, BlockStart, KeysAscend, Less, BlockOf, SizesRight, AllData, ParseHeader,
         IndexBytes, Writable, Fits;
    var f, sst := Finished(es), SstFile(es, filter);
    FooterDelimits(es, filter);
    OffsetsPointAtBlocks(es, j);
    BlockSlice(es, filter, j);
    if j < |Build(es).ends| {
      NextBlockDiffers(es, filter, j);
    } else {
      EndsNonempty(es, j);
    }
  }

  /** What stands where the next block starts is not this block: its first key differs. */
  lemma NextBlockDiffers(es: seq<Entry>, filter: bytes, j: nat)
    requires NoEmptyKey(es) && KeysAscend(es) && (forall e :: e in es ==> Fits(e))
    requires |SstFile(es, filter)| <= INT32_MAX && j + 1 < |Finished(es).ends|
    requires |Finished(es).index| == |Finished(es).ends| && CutAt(Finished(es).ends, |es|, j)
    ensures var f := Finished(es);
            Slice(SstFile(es, filter), BlockStart(f.index, j + 1), f.index[j].info.size) != Some(Block(BlockOf(f, j)))
  {
    hide Finished, Build, Block, SstFile, BlockStart, KeysAscend, Less, BlockOf, SizesRight, Writable, Fits, DecodeFixed32;
    var f, sst := Finished(es), SstFile(es, filter);
    BlockSlice(es, filter, j + 1);
    BlockWritable(es, filter, j);
    BlockWritable(es, filter, j + 1);
    var at := BlockStart(f.index, j + 1);
    FirstKeyAt(sst, at, BlockOf(f, j + 1));
    FirstKeysDiffer(es, j);
    if Slice(sst, at, f.index[j].info.size) == Some(Block(BlockOf(f, j))) {
      FirstKeyAt(sst, at, BlockOf(f, j));
    }
  }

  lemma FirstKeysDiffer(es: seq<Entry>, j: nat)
    requires KeysAscend(es) && j + 1 < |Finished(es).ends|
    ensures Start(Finished(es).ends, j) < |es| && Start(Finished(es).ends, j + 1) < |es|
    ensures es[Start(Finished(es).ends, j)].key != es[Start(Finished(es).ends, j + 1)].key
  {
    hide Finished, Build;
    StartBefore(es, j);
    StartBefore(es, j + 1);
    assert LessAt(es, Start(Finished(es).ends, j), Start(Finished(es).ends, j + 1));
    Irreflexive(es[Start(Finished(es).ends, j)].key);
  }

  // ---------------------------------------------------------------- the filter lets every entry through

  lemma FilterPasses(es: seq<Entry>, size: nat, n: nat, t: nat)
    requires NoEmptyKey(es) && t < |es| && ToU32(size * 8) > 0 && n <= INT32_MAX
    requires |SstFile(es, TableFilter(es, size, n))| <= INT32_MAX
    ensures var sst := SstFile(es, TableFilter(es, size, n)); |sst| >= FOOTER_SIZE && PassesFilter(sst, es[t].key)
  {
    hide Finished, SstFile, AddedAll, FilterBlock, ReadFilterBlock, ParseHeader, IndexBytes, AllSet, AllData;
    var bits: seq<bv8>, keys, key := NoBits(size), KeysOf(es), es[t].key;
    FooterDelimits(es, TableFilter(es, size, n));
    assert keys[t] == key && es[t] in es;
    AddedIsFound(bits, keys, n, key);
    FilterRoundTrip(AddedAll(bits, keys, n), n, key);
  }

  // ---------------------------------------------------------------- inside a block

  lemma {:induction false} FoundIsThere(es: seq<Entry>, key: bytes)
    ensures FindEntry(es, key).Some? ==> Entry(key, FindEntry(es, key).value) in es
  {
    if es != [] { FoundIsThere(es[1..], key); }
  }

  lemma {:induction false} ThereIsFound(es: seq<Entry>, i: nat)
    requires i < |es| && forall k :: 0 <= k < i ==> es[k].key != es[i].key
    ensures FindEntry(es, es[i].key) == Some(es[i].value)
  {
    if i > 0 { ThereIsFound(es[1..], i - 1); }
  }

  /** The block an entry is in. */
  lemma {:induction false} HoldingBlock(ends: seq<nat>, n: nat, t: nat, m: nat) returns (j: nat)
    requires Cuts(ends, n) && m <= |ends| && t < Start(ends, m)
    ensures j < m && Start(ends, j) <= t < ends[j]
  {
    assert CutAt(ends, n, m - 1);
    if Start(ends, m - 1) <= t { j := m - 1; } else { j := HoldingBlock(ends, n, t, m - 1); }
  }

  // ---------------------------------------------------------------- the theorem

  /** The entry whose addition overflowed its block: its key is at or above its block's index key. */
  ghost predicate ClosesBlock(es: seq<Entry>, t: nat) {
    exists j :: 0 <= j < |Build(es).ends| && Build(es).ends[j] == t + 1
  }

  ghost predicate Stored(es: seq<Entry>, size: nat, n: nat) {
    && Routable(es) && (forall e :: e in es ==> Fits(e)) && ToU32(size * 8) > 0 && n <= INT32_MAX
    && |SstFile(es, TableFilter(es, size, n))| <= INT32_MAX
  }

  /** Looking a key up in the finished bytes finds exactly the entries that did not close a block,
      with their values; a key that was not added, or that closed a block, is not found. */
  lemma LookupFinds(es: seq<Entry>, size: nat, n: nat, key: bytes, value: bytes)
    requires Stored(es, size, n)
    ensures Lookup(SstFile(es, TableFilter(es, size, n)), key) == Some(value)
       <==> exists t :: 0 <= t < |es| && es[t] == Entry(key, value) && !ClosesBlock(es, t)
  {
    hide Lookup, SstFile, Routable, ClosesBlock;
    var sst := SstFile(es, TableFilter(es, size, n));
    if Lookup(sst, key) == Some(value) {
      var t := LookupSound(es, size, n, key, value);
    }
    if t :| 0 <= t < |es| && es[t] == Entry(key, value) && !ClosesBlock(es, t) {
      LookupComplete(es, size, n, t);
    }
  }

  /** A key that is found was found in the block it routes to. */
  lemma LookupRoutes(sst: bytes, index: seq<IndexEntry>, key: bytes)
    requires ParseSst(sst) == Some(index) && Lookup(sst, key).Some?
    ensures var j := RouteFrom(index, key, 0);
            && 0 <= j < |index| && ReadBlock(sst, index, j).Some?
            && FindEntry(ReadBlock(sst, index, j).value, key) == Lookup(sst, key)
  {
    hide PassesFilter, ParseSst, RouteFrom, ReadBlock, FindEntry;
  }

  lemma LookupSound(es: seq<Entry>, size: nat, n: nat, key: bytes, value: bytes) returns (t: nat)
    requires Stored(es, size, n)
    requires Lookup(SstFile(es, TableFilter(es, size, n)), key) == Some(value)
    ensures t < |es| && es[t] == Entry(key, value) && !ClosesBlock(es, t)
  {
    hide SstFile, Finished, Build, Lookup, ParseSst, RouteFrom, ReadBlock, FindEntry, KeysAscend, ClosesBlock,
         SizesRight, BlockOf;
    var filter, f := TableFilter(es, size, n), Finished(es);
    SstParses(es, filter);
    LookupRoutes(SstFile(es, filter), f.index, key);
    var j := RouteFrom(f.index, key, 0);
    SizesAgree(es);
    BlockReadsBack(es, filter, j);
    FoundIsThere(BlockOf(f, j), key);
    t := InBlockAt(es, j, Entry(key, value));
    RoutesToBlock(es, j, t);
    ClosingUnique(es, j, t);
  }

  lemma SizesAgree(es: seq<Entry>)
    requires NoEmptyKey(es)
    ensures |Finished(es).index| == |Finished(es).ends|
  {
    hide Finished, Block;
    FinishedSizes(es);
  }

  lemma InBlockAt(es: seq<Entry>, j: nat, e: Entry) returns (t: nat)
    requires j < |Finished(es).ends| && CutAt(Finished(es).ends, |es|, j) && e in BlockOf(Finished(es), j)
    ensures InBlock(es, j, t) && es[t] == e
  {
    hide Finished;
    var f := Finished(es);
    var i :| 0 <= i < |BlockOf(f, j)| && BlockOf(f, j)[i] == e;
    t := Start(f.ends, j) + i;
  }

  lemma LookupComplete(es: seq<Entry>, size: nat, n: nat, t: nat)
    requires Stored(es, size, n) && t < |es| && !ClosesBlock(es, t)
    ensures Lookup(SstFile(es, TableFilter(es, size, n)), es[t].key) == Some(es[t].value)
  {
    hide SstFile, Finished, Build, PassesFilter, ParseSst, RouteFrom, ReadBlock, FindEntry, KeysAscend, ClosesBlock;
    var filter, f := TableFilter(es, size, n), Finished(es);
    FilterPasses(es, size, n, t);
    SstParses(es, filter);
    FinishedSizes(es);
    var j := HoldingBlock(f.ends, |es|, t, |f.ends|);
    assert InBlock(es, j, t);
    ClosingUnique(es, j, t);
    RoutesToBlock(es, j, t);
    BlockReadsBack(es, filter, j);
    BlockFinds(es, f, j, t);
  }

  lemma BlockFinds(es: seq<Entry>, f: Sst, j: nat, t: nat)
    requires KeysAscend(es) && f.es == es && j < |f.ends| && Start(f.ends, j) <= t < f.ends[j] <= |es|
    ensures FindEntry(BlockOf(f, j), es[t].key) == Some(es[t].value)
  {
    var block, i := BlockOf(f, j), t - Start(f.ends, j);
    forall k | 0 <= k < i ensures block[k].key != block[i].key {
      assert LessAt(es, Start(f.ends, j) + k, t);
      Irreflexive(es[t].key);
    }
    ThereIsFound(block, i);
  }

  /** An entry closes a block exactly if it closes the one it is in. */
  lemma ClosingUnique(es: seq<Entry>, j: nat, t: nat)
    requires InBlock(es, j, t)
    ensures ClosesBlock(es, t) <==> Closing(es, j, t)
  {
    hide Finished, Build;
    EndsNonempty(es, j);
    if i :| 0 <= i < |Build(es).ends| && Build(es).ends[i] == t + 1 {
      EndsNonempty(es, i);
      if i < j { EndsMonotone(es, i, j); } else { EndsMonotone(es, j, i); }
    }
  }

  // ---------------------------------------------------------------- a table that loses a key

  /** Two short keys, the second with a value that overflows the block. */
  function TwoEntries(value: bytes): seq<Entry> {
    [Entry([0x61], []), Entry([0x62], value)]
  }

  lemma TwoRecords(value: bytes)
    ensures var es := TwoEntries(value);
            |Records(es, 0, 1)| == 13 && |Records(es, 0, 2)| == 26 + |value|
  {
    hide Record;
    var es := TwoEntries(value);
    assert es[1].key[0] != es[0].key[0];
  }

  /** The second addition flushes the one block of the table. */
  lemma TwoBuild(value: bytes)
    requires |value| >= MAX_DATA_BLOCK_SIZE
    ensures var es := TwoEntries(value);
            !Overflows([es[0]]) && Build(es).ends == [2] && Finished(es) == Build(es)
  {
    hide Block, Separator, Records;
    var es := TwoEntries(value);
    assert es[..1] == [es[0]] && es[..1][..0] == [];
    TwoRecords(value);
    RecordsExtend([es[0]], es[1], 0, 1);
    assert [es[0]] + [es[1]] == es;
    assert Overflows(es) && !Overflows([es[0]]);
    Grown(EMPTY, es[0]);
    assert Build(es[..1]) == AddStep(EMPTY, es[0]);
    Grown(Build(es[..1]), es[1]);
  }

  lemma Grown(s: Sst, e: Entry)
    requires s.ends == []
    ensures var t := AddStep(s, e);
            && t.es == s.es + [e]
            && t.ends == if Overflows(s.es + [e]) then [|s.es| + 1] else []
  {
    hide Block, Separator, Overflows;
    assert Current(s.(es := s.es + [e])) == s.es + [e];
  }

  lemma TwoFits(value: bytes)
    requires MAX_DATA_BLOCK_SIZE <= |value| <= 0x1000_0000
    ensures var es := TwoEntries(value); Routable(es) && ClosesBlock(es, 1)
  {
    hide Build, Finished, Overflows;
    var es := TwoEntries(value);
    TwoBuild(value);
    assert SmallerAt(es[0].key, es[1].key, 0);
    assert forall i, j :: 0 <= i < j < |es| ==> LessAt(es, i, j);
    assert Matches([0x61], [0x62], 1) == Matches([0x61], [0x62], 0);
    assert SeparatorFits(es[0].key, es[1].key);
    assert Build(es).ends[0] == 2;
  }

  lemma TwoSize(value: bytes)
    requires MAX_DATA_BLOCK_SIZE <= |value| <= 0x1000_0000
    ensures |SstFile(TwoEntries(value), TableFilter(TwoEntries(value), 1, 1))| <= INT32_MAX
  {
    hide Build, Finished, FlushEntry, TableFilter, KeysOf, SstFooter, Records, Directory, RestartNum;
    var es := TwoEntries(value);
    var f := Finished(es);
    TwoBuild(value);
    TwoRecords(value);
    FinishedIndex(es);
    FlushSays(f, 0);
    assert f.index[1..] == [];
    assert |IndexBytes(f.index)| == |IndexEntryBytes(f.index[0])|;
    DataStep(f, 0);
    NoBlocks(f);
    assert BlockOf(f, 0) == es;
  }

  lemma FlushSays(f: Sst, j: nat)
    requires FlushEntry(f, j)
    ensures j < |f.index| && |f.index[j].key| <= |PrevKey(f.es, f.ends[j] - 1)| + 1
  {
    hide Block, DataBytes;
  }

  /** The key whose addition closed the block is in the file, its table meets every condition of the
      lookup, and yet it is not found; the key before it is. */
  lemma ClosingKeyLost(value: bytes)
    requires MAX_DATA_BLOCK_SIZE <= |value| <= 0x1000_0000
    ensures var es := TwoEntries(value);
            var sst := SstFile(es, TableFilter(es, 1, 1));
            && Stored(es, 1, 1) && ClosesBlock(es, 1)
            && Lookup(sst, [0x62]) == None && Lookup(sst, [0x61]) == Some([])
            && |Finished(es).index| == 1 && Finished(es).index[0].info.offset != BlockStart(Finished(es).index, 0)
  {
    hide Lookup, SstFile, Routable, ClosesBlock, TableFilter, Build, Finished, AllData, ParseHeader, IndexBytes;
    TwoOffset(value);
    var es := TwoEntries(value);
    var sst := SstFile(es, TableFilter(es, 1, 1));
    TwoFits(value);
    TwoSize(value);
    match Lookup(sst, [0x62]) {
      case None =>
      case Some(v) => LookupFinds(es, 1, 1, [0x62], v);
    }
    LookupFinds(es, 1, 1, [0x61], []);
    FirstStays(value);
    assert es[0] == Entry([0x61], []);
  }

  lemma FirstStays(value: bytes)
    requires MAX_DATA_BLOCK_SIZE <= |value|
    ensures !ClosesBlock(TwoEntries(value), 0)
  {
    hide Build, Finished;
    TwoBuild(value);
  }

  /** Nor does the index point at its block. */
  lemma TwoOffset(value: bytes)
    requires MAX_DATA_BLOCK_SIZE <= |value| <= 0x1000_0000
    ensures var index := Finished(TwoEntries(value)).index;
            |index| == 1 && index[0].info.offset != BlockStart(index, 0)
  {
    hide Build, Finished, SstFile, TableFilter, AllData, IndexBytes, ParseHeader, BlockStart;
    var es := TwoEntries(value);
    TwoBuild(value);
    TwoSize(value);
    FooterDelimits(es, TableFilter(es, 1, 1));
    OffsetsPointAtBlocks(es, 0);
  }
}
