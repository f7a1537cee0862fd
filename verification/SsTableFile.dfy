/**
 The bytes of a sorted-string table: data blocks, filter, index and footer, and how a reader gets
 from the last sixteen bytes to any entry.
 */
module SsTableFiles {
  import opened Bytes
  import opened Codec
  import opened DataBlocks
  import opened BloomFilters
  import opened SsTables

  // ---------------------------------------------------------------- the index bytes

  function IndexEntryBytes(e: IndexEntry): (r: bytes)
    ensures |r| == 12 + |e.key|
  {
    Fixed32(ToU32(|e.key|)) + e.key + OffsetInfoBytes(e.info)
  }

  function IndexBytes(index: seq<IndexEntry>): bytes {
    if index == [] then [] else IndexEntryBytes(index[0]) + IndexBytes(index[1..])
  }

  lemma {:induction false} IndexBytesPush(index: seq<IndexEntry>, e: IndexEntry)
    ensures IndexBytes(index + [e]) == IndexBytes(index) + IndexEntryBytes(e)
  {
    hide IndexEntryBytes;
    if index == [] {
      assert IndexBytes([e][1..]) == [];
    } else {
      IndexBytesPush(index[1..], e);
      assert (index + [e])[1..] == index[1..] + [e];
    }
  }

  /** The index entry at this position, if the bytes hold one: the source reads them unchecked. */
  function ReadIndexEntry(sst: bytes, start: int): (r: Option<IndexEntry>)
    ensures r.Some? ==> 0 <= start && start + 12 + |r.value.key| <= |sst|
  {
    if start < 0 || start + 4 > |sst| then None
    else
      var size := ToI32(DecodeFixed32(sst[start..]));
      if size < 0 || start + 12 + size > |sst| then None
      else Some(IndexEntry(sst[start + 4..start + 4 + size as int], ReadOffsetInfo(sst[start + 4 + size as int..])))
  }

  function Prepend(e: IndexEntry, rest: Option<seq<IndexEntry>>): Option<seq<IndexEntry>> {
    match rest
    case None => None
    case Some(index) => Some([e] + index)
  }

  /** The entries between the two positions; none unless the last one ends exactly at the second. */
  function ParseIndex(sst: bytes, start: int, end: int): Option<seq<IndexEntry>>
    decreases end - start
  {
    if start >= end then if start == end then Some([]) else None
    else
      match ReadIndexEntry(sst, start)
      case None => None
      case Some(e) => Prepend(e, ParseIndex(sst, start + 12 + |e.key|, end))
  }

  /** The entries read so far, then what the rest parses to. */
  ghost function Onto(done: seq<IndexEntry>, rest: Option<seq<IndexEntry>>): Option<seq<IndexEntry>> {
    match rest
    case None => None
    case Some(index) => Some(done + index)
  }

  lemma OntoPush(done: seq<IndexEntry>, e: IndexEntry, rest: Option<seq<IndexEntry>>)
    ensures Onto(done, Prepend(e, rest)) == Onto(done + [e], rest)
  {
    if rest.Some? { assert done + ([e] + rest.value) == done + [e] + rest.value; }
  }

  /** The index loop of `Parse`. */
  method ParseIndexBlocks(sst: bytes, index: OffsetInfo) returns (r: Option<seq<IndexEntry>>)
    ensures r == ParseIndex(sst, index.offset, index.offset as int + index.size)
  {
    hide ReadIndexEntry, Prepend, Onto;
    var start: int, end: int := index.offset, index.offset as int + index.size;
    var indexBlocks: seq<IndexEntry> := [];
    OntoNothing(ParseIndex(sst, start, end));
    while start < end
      invariant ParseIndex(sst, index.offset, end) == Onto(indexBlocks, ParseIndex(sst, start, end))
    {
      var entry := ReadIndexEntry(sst, start);
      if entry == None {
        NothingOnto(indexBlocks);
        return None;
      }
      OntoPush(indexBlocks, entry.value, ParseIndex(sst, start + 12 + |entry.value.key|, end));
      start := start + 4 + |entry.value.key| + 8;
      indexBlocks := indexBlocks + [entry.value];
    }
    ParsedAll(indexBlocks, sst, start, end);
    return if start == end then Some(indexBlocks) else None;
  }

  lemma OntoNothing(rest: Option<seq<IndexEntry>>)
    ensures Onto([], rest) == rest
  {
    if rest.Some? { assert [] + rest.value == rest.value; }
  }

  lemma NothingOnto(done: seq<IndexEntry>)
    ensures Onto(done, None) == None
  {
  }

  lemma ParsedAll(done: seq<IndexEntry>, sst: bytes, start: int, end: int)
    requires start >= end
    ensures Onto(done, ParseIndex(sst, start, end)) == if start == end then Some(done) else None
  {
    assert done + [] == done;
  }

  lemma ReadWritten(before: bytes, e: IndexEntry, after: bytes)
    requires |e.key| <= INT32_MAX
    ensures ReadIndexEntry(before + IndexEntryBytes(e) + after, |before|) == Some(e)
  {
    hide Fixed32, DecodeFixed32, OffsetInfoBytes, ReadOffsetInfo;
    var sst, n, k := before + IndexEntryBytes(e) + after, |before|, |e.key|;
    var size, info := Fixed32(ToU32(k)), OffsetInfoBytes(e.info);
    assert sst[n..] == size + (e.key + info + after);
    Fixed32RoundTrip(ToU32(k), e.key + info + after);
    assert sst[n + 4..n + 4 + k] == e.key;
    assert sst[n + 4 + k..] == info + after;
    OffsetInfoRoundTrip(e.info, after);
  }

  lemma ParseNext(sst: bytes, start: int, end: int, e: IndexEntry, rest: seq<IndexEntry>)
    requires start < end && ReadIndexEntry(sst, start) == Some(e)
    requires ParseIndex(sst, start + 12 + |e.key|, end) == Some(rest)
    ensures ParseIndex(sst, start, end) == Some([e] + rest)
  {
    hide ReadIndexEntry;
  }

  /** The first entry's bytes seen as the front of the index, and as the end of what precedes it. */
  lemma IndexFront(before: bytes, index: seq<IndexEntry>, after: bytes)
    requires index != []
    ensures var sst, head, tail := before + IndexBytes(index) + after, IndexEntryBytes(index[0]), IndexBytes(index[1..]);
            && sst == (before + head) + tail + after
            && sst == before + head + (tail + after)
            && |IndexBytes(index)| == |head| + |tail|
  {
    hide IndexEntryBytes;
    var head, tail := IndexEntryBytes(index[0]), IndexBytes(index[1..]);
    assert IndexBytes(index) == head + tail;
    Regroup(before, head, tail, after);
  }

  /** The reader's loop over an index written anywhere in a file consumes exactly the index and
      returns the entries that were added. */
  lemma {:induction false} IndexRoundTrip(before: bytes, index: seq<IndexEntry>, after: bytes)
    requires forall e :: e in index ==> |e.key| <= INT32_MAX
    ensures ParseIndex(before + IndexBytes(index) + after, |before|, |before| + |IndexBytes(index)|) == Some(index)
    decreases |index|
  {
    hide IndexEntryBytes, ReadIndexEntry, IndexBytes, ParseIndex;
    if index == [] {
      NoIndex(before + IndexBytes(index) + after, |before|);
    } else {
      var e, rest, sst := index[0], index[1..], before + IndexBytes(index) + after;
      IndexFront(before, index, after);
      IndexRoundTrip(before + IndexEntryBytes(e), rest, after);
      ReadWritten(before, e, IndexBytes(rest) + after);
      ParseNext(sst, |before|, |before| + |IndexBytes(index)|, e, rest);
      assert [e] + rest == index;
    }
  }

  lemma NoIndex(sst: bytes, at: int)
    ensures IndexBytes([]) == [] && ParseIndex(sst, at, at) == Some([])
  {
  }

  /** The bytes of an index entry: the length of the key, the key, the block's size and offset. */
  lemma IndexEntryFields(e: IndexEntry)
    requires |e.key| <= INT32_MAX
    ensures var b, k := IndexEntryBytes(e), |e.key|;
            && LittleEndian(b[..4]) == k && b[4..4 + k] == e.key
            && LittleEndian(b[4 + k..8 + k]) == ToU32(e.info.size) && LittleEndian(b[8 + k..]) == ToU32(e.info.offset)
  {
    hide Fixed32, OffsetInfoBytes, LittleEndian;
    var b, k, info := IndexEntryBytes(e), |e.key|, OffsetInfoBytes(e.info);
    Fixed32LittleEndian(k);
    OffsetInfoFields(e.info);
    assert b[..4] == Fixed32(ToU32(k));
    assert b[4 + k..] == info;
    assert b[4 + k..8 + k] == info[..4] && b[8 + k..] == info[4..];
  }

  /** An entry is read exactly where its bytes are. */
  lemma ReadExactly(sst: bytes, start: int, e: IndexEntry)
    requires |e.key| <= INT32_MAX
    ensures ReadIndexEntry(sst, start) == Some(e)
       <==> 0 <= start && start + 12 + |e.key| <= |sst| && sst[start..start + 12 + |e.key|] == IndexEntryBytes(e)
  {
    hide IndexEntryBytes, ReadIndexEntry;
    if ReadIndexEntry(sst, start) == Some(e) { ReadThere(sst, start, e); }
    if 0 <= start && start + 12 + |e.key| <= |sst| && sst[start..start + 12 + |e.key|] == IndexEntryBytes(e) {
      ReadWritten(sst[..start], e, sst[start + 12 + |e.key|..]);
      assert sst == sst[..start] + sst[start..start + 12 + |e.key|] + sst[start + 12 + |e.key|..];
    }
  }

  lemma ReadThere(sst: bytes, start: int, e: IndexEntry)
    requires ReadIndexEntry(sst, start) == Some(e)
    ensures sst[start..start + 12 + |e.key|] == IndexEntryBytes(e)
  {
    hide Fixed32, DecodeFixed32, OffsetInfoBytes, ReadOffsetInfo, ToI32, ToU32;
    var k := |e.key|;
    var size, info := sst[start..start + 4], sst[start + 4 + k..start + 12 + k];
    assert sst[start..][..4] == size;
    FourOf(sst[start..]);
    WordUnique(DecodeFixed32(size));
    Fixed32Unique(size);
    assert sst[start + 4 + k..][..8] == info;
    EightOf(sst[start + 4 + k..]);
    OffsetInfoUnique(info);
    assert sst[start..start + 12 + k] == size + e.key + info;
  }

  lemma EightOf(data: bytes)
    requires |data| >= 8
    ensures ReadOffsetInfo(data) == ReadOffsetInfo(data[..8])
  {
    hide DecodeFixed32, ToI32;
    FourOf(data);
    FourOf(data[..8]);
    FourOf(data[4..]);
    FourOf(data[..8][4..]);
    assert data[..8][..4] == data[..4] && data[..8][4..][..4] == data[4..][..4];
  }

  /** The bytes of the index stand between the two positions; an empty one stands anywhere. */
  ghost predicate Stands(sst: bytes, start: int, end: int, index: seq<IndexEntry>) {
    && start + |IndexBytes(index)| == end
    && (index != [] ==> 0 <= start && end <= |sst| && sst[start..end] == IndexBytes(index))
  }

  /** The index loop returns a list exactly if the bytes between its two positions are that list's bytes. */
  lemma {:induction false} ParsesExactly(sst: bytes, start: int, end: int, index: seq<IndexEntry>)
    requires forall e :: e in index ==> |e.key| <= INT32_MAX
    ensures ParseIndex(sst, start, end) == Some(index) <==> Stands(sst, start, end, index)
    decreases |index|
  {
    hide IndexEntryBytes, ReadIndexEntry, Stands, ParseIndex, IndexBytes;
    if index == [] {
      NothingStands(sst, start, end);
    } else {
      var e, rest := index[0], index[1..];
      var next := start + 12 + |e.key|;
      ReadExactly(sst, start, e);
      ParsesExactly(sst, next, end, rest);
      StandsFirst(sst, start, end, index);
      if ParseIndex(sst, start, end) == Some(index) { ParsedFirst(sst, start, end, index); }
      if Stands(sst, start, end, index) {
        ParseNext(sst, start, end, e, rest);
        assert [e] + rest == index;
      }
    }
  }

  lemma NothingStands(sst: bytes, start: int, end: int)
    ensures ParseIndex(sst, start, end) == Some([]) <==> Stands(sst, start, end, [])
  {
    hide ReadIndexEntry;
  }

  /** An index stands where its first entry does with the others behind it. */
  lemma StandsFirst(sst: bytes, start: int, end: int, index: seq<IndexEntry>)
    requires index != []
    ensures var e := index[0];
            var next := start + 12 + |e.key|;
            Stands(sst, start, end, index)
            <==> 0 <= start < end && next <= |sst| && sst[start..next] == IndexEntryBytes(e)
                 && Stands(sst, next, end, index[1..])
  {
    hide IndexEntryBytes;
    var head, tail, next := IndexEntryBytes(index[0]), IndexBytes(index[1..]), start + 12 + |index[0].key|;
    assert IndexBytes(index) == head + tail;
    NoBytes(index[1..]);
    hide IndexBytes;
    if 0 <= start && next <= end <= |sst| { Cut(sst, start, next, end, head, tail); }
  }

  lemma NoBytes(index: seq<IndexEntry>)
    ensures index == [] <==> IndexBytes(index) == []
  {
  }

  lemma Cut(sst: bytes, start: nat, next: nat, end: nat, head: bytes, tail: bytes)
    requires start <= next <= end <= |sst| && |head| == next - start
    ensures sst[start..end] == head + tail <==> sst[start..next] == head && sst[next..end] == tail
  {
    var s := sst[start..end];
    assert s[..next - start] == sst[start..next] && s[next - start..] == sst[next..end];
    assert s == s[..next - start] + s[next - start..];
    if s == head + tail { assert s[..|head|] == head && s[|head|..] == tail; }
  }

  lemma ParsedFirst(sst: bytes, start: int, end: int, index: seq<IndexEntry>)
    requires index != [] && ParseIndex(sst, start, end) == Some(index)
    ensures start < end && ReadIndexEntry(sst, start) == Some(index[0])
    ensures ParseIndex(sst, start + 12 + |index[0].key|, end) == Some(index[1..])
  {
    hide ReadIndexEntry;
  }

  // ---------------------------------------------------------------- the footer

  datatype Header = Header(metaBlock: OffsetInfo, indexBlock: OffsetInfo)

  function Footer(metaBlock: OffsetInfo, indexBlock: OffsetInfo): (r: bytes)
    ensures |r| == FOOTER_SIZE
  {
    OffsetInfoBytes(metaBlock) + OffsetInfoBytes(indexBlock)
  }

  /** The first part of `Parse`; the source reads before the file if it is shorter than a footer. */
  function ParseHeader(sst: bytes): Header
    requires |sst| >= FOOTER_SIZE
  {
    Header(ReadOffsetInfo(sst[|sst| - 16..]), ReadOffsetInfo(sst[|sst| - 8..]))
  }

  lemma FooterRoundTrip(before: bytes, metaBlock: OffsetInfo, indexBlock: OffsetInfo)
    ensures ParseHeader(before + Footer(metaBlock, indexBlock)) == Header(metaBlock, indexBlock)
  {
    hide OffsetInfoBytes, ReadOffsetInfo;
    var sst := before + Footer(metaBlock, indexBlock);
    var first, second := OffsetInfoBytes(metaBlock), OffsetInfoBytes(indexBlock);
    assert sst[|sst| - 16..] == first + second;
    assert sst[|sst| - 8..] == second + [];
    OffsetInfoRoundTrip(metaBlock, second);
    OffsetInfoRoundTrip(indexBlock, []);
  }

  // ---------------------------------------------------------------- the file

  function KeysOf(es: seq<Entry>): (keys: seq<bytes>)
    ensures |keys| == |es|
  {
    seq(|es|, i requires 0 <= i < |es| => es[i].key)
  }

  /** The filter of a table over these entries: this many bytes, this many hash functions. */
  function TableFilter(es: seq<Entry>, size: nat, n: nat): (r: bytes)
    requires ToU32(size * 8) > 0
    ensures |r| == size + 4
  {
    FilterBlock(AddedAll(NoBits(size), KeysOf(es), n), n)
  }

  ghost function AllData(es: seq<Entry>): bytes {
    DataBytes(es, Finished(es).ends, |Finished(es).ends|)
  }

  ghost function SstFooter(es: seq<Entry>, filter: bytes): (r: bytes)
    ensures |r| == FOOTER_SIZE
  {
    Footer(OffsetInfo(ToI32(|filter|), ToI32(|AllData(es)|)),
           OffsetInfo(ToI32(|IndexBytes(Finished(es).index)|), ToI32(|AllData(es)| + |filter|)))
  }

  /** The table file for these entries. */
  ghost function SstFile(es: seq<Entry>, filter: bytes): (r: bytes) {
    AllData(es) + filter + IndexBytes(Finished(es).index) + SstFooter(es, filter)
  }

  /** The footer delimits the filter and the index exactly. */
  lemma FooterDelimits(es: seq<Entry>, filter: bytes)
    requires |SstFile(es, filter)| <= INT32_MAX
    ensures var sst, index := SstFile(es, filter), IndexBytes(Finished(es).index);
            && |sst| >= FOOTER_SIZE
            && ParseHeader(sst) == Header(OffsetInfo(|filter|, |AllData(es)|), OffsetInfo(|index|, |AllData(es)| + |filter|))
            && sst[..|AllData(es)|] == AllData(es)
            && sst[|AllData(es)|..|AllData(es)| + |filter|] == filter
            && |AllData(es)| + |filter| + |index| + FOOTER_SIZE == |sst|
            && sst[|AllData(es)| + |filter|..|sst| - FOOTER_SIZE] == index
  {
    hide Footer, ParseHeader, IndexBytes, AllData, Finished;
    var index := IndexBytes(Finished(es).index);
    FooterRoundTrip(AllData(es) + filter + index, OffsetInfo(ToI32(|filter|), ToI32(|AllData(es)|)),
                    OffsetInfo(ToI32(|index|), ToI32(|AllData(es)| + |filter|)));
  }

  /** The last sixteen bytes: size and offset of the filter, then size and offset of the index. */
  lemma FooterFields(es: seq<Entry>, filter: bytes)
    requires |SstFile(es, filter)| <= INT32_MAX
    ensures var sst := SstFile(es, filter);
            var n := |sst|;
            && n >= 16
            && LittleEndian(sst[n - 16..n - 12]) == |filter| && LittleEndian(sst[n - 12..n - 8]) == |AllData(es)|
            && LittleEndian(sst[n - 8..n - 4]) == |IndexBytes(Finished(es).index)|
            && LittleEndian(sst[n - 4..]) == |AllData(es)| + |filter|
  {
    hide IndexBytes, AllData, Finished, OffsetInfoBytes, LittleEndian;
    var sst, index := SstFile(es, filter), IndexBytes(Finished(es).index);
    var n := |sst|;
    var first, second := OffsetInfo(|filter|, |AllData(es)|), OffsetInfo(|index|, |AllData(es)| + |filter|);
    OffsetInfoFields(first);
    OffsetInfoFields(second);
    assert sst[n - 16..] == OffsetInfoBytes(first) + OffsetInfoBytes(second);
    assert sst[n - 16..n - 12] == OffsetInfoBytes(first)[..4] && sst[n - 12..n - 8] == OffsetInfoBytes(first)[4..];
    assert sst[n - 8..n - 4] == OffsetInfoBytes(second)[..4] && sst[n - 4..] == OffsetInfoBytes(second)[4..];
  }

  lemma {:induction false} IndexKeysFit(index: seq<IndexEntry>)
    ensures forall e :: e in index ==> |e.key| <= |IndexBytes(index)|
  {
    hide IndexEntryBytes;
    if index != [] {
      IndexKeysFit(index[1..]);
      assert index == [index[0]] + index[1..];
    }
  }

  /** Header and index of a file. */
  function ParseSst(sst: bytes): Option<seq<IndexEntry>> {
    if |sst| < FOOTER_SIZE then None
    else
      var info := ParseHeader(sst).indexBlock;
      ParseIndex(sst, info.offset, info.offset as int + info.size)
  }

  /** Parsing the file of a table gives back the index that was built. */
  lemma SstParses(es: seq<Entry>, filter: bytes)
    requires |SstFile(es, filter)| <= INT32_MAX
    ensures ParseSst(SstFile(es, filter)) == Some(Finished(es).index)
  {
    hide IndexBytes, AllData, SstFooter, Finished, ParseIndex, ParseHeader;
    var index := Finished(es).index;
    FooterDelimits(es, filter);
    IndexKeysFit(index);
    IndexRoundTrip(AllData(es) + filter, index, SstFooter(es, filter));
  }
}
