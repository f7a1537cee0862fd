/**
 Data blocks: prefix-compressed records with a full key every sixteenth record, followed by a
 directory of the record groups and their number.

 The builder is the source's; the decoders are specifications of the layout it emits.
 */
module DataBlocks {
  import opened Bytes
  import opened Codec

  const RESTART_INTERVAL := 16

  datatype Entry = Entry(key: bytes, value: bytes)

  // ---------------------------------------------------------------- records

  /** How many leading bytes record i borrows from the key before it. */
  function Shared(es: seq<Entry>, i: nat): (k: nat)
    requires i < |es|
    ensures k <= |es[i].key|
    ensures k > 0 ==> i > 0 && k <= |es[i - 1].key| && es[i].key[..k] == es[i - 1].key[..k]
  {
    if i % RESTART_INTERVAL == 0 then 0 else Common(es[i].key, es[i - 1].key)
  }

  function Record(shared: nat, key: bytes, value: bytes): (r: bytes)
    requires shared <= |key|
    ensures |r| == 12 + |key| - shared + |value|
  {
    Fixed32(ToU32(shared)) + Fixed32(ToU32(|key| - shared)) + Fixed32(ToU32(|value|)) + key[shared..] + value
  }

  function RecordOf(es: seq<Entry>, i: nat): bytes
    requires i < |es|
  {
    Record(Shared(es, i), es[i].key, es[i].value)
  }

  /** Records lo..hi, as they are appended. */
  function Records(es: seq<Entry>, lo: nat, hi: nat): bytes
    requires lo <= hi <= |es|
    decreases hi
  {
    if lo == hi then [] else Records(es, lo, hi - 1) + RecordOf(es, hi - 1)
  }

  lemma {:induction false} RecordsSplit(es: seq<Entry>, lo: nat, mid: nat, hi: nat)
    requires lo <= mid <= hi <= |es|
    ensures Records(es, lo, hi) == Records(es, lo, mid) + Records(es, mid, hi)
    decreases hi
  {
    hide RecordOf;
    if mid < hi { RecordsSplit(es, lo, mid, hi - 1); }
  }

  lemma RecordsFront(es: seq<Entry>, lo: nat, hi: nat)
    requires lo < hi <= |es|
    ensures Records(es, lo, hi) == RecordOf(es, lo) + Records(es, lo + 1, hi)
  {
    hide RecordOf;
    RecordsSplit(es, lo, lo + 1, hi);
    assert Records(es, lo, lo + 1) == [] + RecordOf(es, lo);
  }

  lemma {:induction false} RecordsExtend(es: seq<Entry>, e: Entry, lo: nat, hi: nat)
    requires lo <= hi <= |es|
    ensures Records(es + [e], lo, hi) == Records(es, lo, hi)
    decreases hi
  {
    hide RecordOf;
    if lo < hi {
      RecordsExtend(es, e, lo, hi - 1);
      RecordExtend(es, e, hi - 1);
    }
  }

  lemma RecordExtend(es: seq<Entry>, e: Entry, i: nat)
    requires i < |es|
    ensures RecordOf(es + [e], i) == RecordOf(es, i)
  {
    hide Record, Common;
  }

  // ---------------------------------------------------------------- sequential decoding

  datatype Decoded = Decoded(entry: Entry, size: nat)

  /** The record at the start of the data, given the key before it. */
  function DecodeRecord(data: bytes, pre: bytes): (r: Option<Decoded>)
    ensures r.Some? ==> 12 <= r.value.size <= |data|
  {
    if |data| < 12 then None
    else
      var shared, unshared, len := DecodeFixed32(data), DecodeFixed32(data[4..]), DecodeFixed32(data[8..]);
      var size := 12 + unshared as int + len as int;
      if shared > |pre| || size > |data| then None
      else Some(Decoded(Entry(pre[..shared] + data[12..12 + unshared as int], data[12 + unshared as int..size]), size))
  }

  /** All the records in the data, carrying the previous key along. */
  function DecodeRecords(data: bytes, pre: bytes): Option<seq<Entry>>
    decreases |data|
  {
    if data == [] then Some([])
    else
      match DecodeRecord(data, pre)
      case None => None
      case Some(d) =>
        match DecodeRecords(data[d.size..], d.entry.key)
        case None => None
        case Some(es) => Some([d.entry] + es)
  }

  /** Lengths the format can express. */
  predicate Fits(e: Entry) {
    |e.key| <= INT32_MAX && |e.value| <= INT32_MAX
  }

  lemma DecodeRecorded(shared: nat, e: Entry, pre: bytes, rest: bytes)
    requires Fits(e) && shared <= |e.key| && shared <= |pre| && pre[..shared] == e.key[..shared]
    ensures DecodeRecord(Record(shared, e.key, e.value) + rest, pre)
         == Some(Decoded(e, |Record(shared, e.key, e.value)|))
  {
    hide Record, Fixed32, DecodeFixed32, ToU32;
    RecordHeader(shared, e, rest);
    RecordBody(shared, e, rest);
    assert e.key == e.key[..shared] + e.key[shared..];
  }

  lemma RecordHeader(shared: nat, e: Entry, rest: bytes)
    requires Fits(e) && shared <= |e.key|
    ensures var data := Record(shared, e.key, e.value) + rest;
            DecodeFixed32(data) == shared && DecodeFixed32(data[4..]) == |e.key| - shared
            && DecodeFixed32(data[8..]) == |e.value|
  {
    hide Fixed32, DecodeFixed32;
    var a, b, c := Fixed32(ToU32(shared)), Fixed32(ToU32(|e.key| - shared)), Fixed32(ToU32(|e.value|));
    var tail := e.key[shared..] + e.value + rest;
    var data := Record(shared, e.key, e.value) + rest;
    assert data == a + (b + (c + tail));
    assert data[4..] == b + (c + tail);
    assert data[8..] == c + tail;
    Fixed32RoundTrip(ToU32(shared), b + (c + tail));
    Fixed32RoundTrip(ToU32(|e.key| - shared), c + tail);
    Fixed32RoundTrip(ToU32(|e.value|), tail);
  }

  lemma RecordBody(shared: nat, e: Entry, rest: bytes)
    requires shared <= |e.key|
    ensures var data, n := Record(shared, e.key, e.value) + rest, |e.key| - shared;
            data[12..12 + n] == e.key[shared..] && data[12 + n..12 + n + |e.value|] == e.value
  {
    hide Fixed32, ToU32;
  }

  /** Decoding from any position recovers the entries, provided the key before it is known or the
      position is a restart. */
  lemma {:induction false} DecodeFrom(es: seq<Entry>, lo: nat, hi: nat, pre: bytes)
    requires lo <= hi <= |es| && (forall i :: lo <= i < hi ==> Fits(es[i]))
    requires lo % RESTART_INTERVAL == 0 || pre == es[lo - 1].key
    ensures DecodeRecords(Records(es, lo, hi), pre) == Some(es[lo..hi])
    decreases hi - lo
  {
    hide Record, DecodeRecords;
    if lo < hi {
      RecordsFront(es, lo, hi);
      DecodeFrom(es, lo + 1, hi, es[lo].key);
      DecodeFirst(Shared(es, lo), es[lo], pre, Records(es, lo + 1, hi));
      assert es[lo..hi] == [es[lo]] + es[lo + 1..hi];
    } else {
      DecodeNothing(pre);
    }
  }

  lemma DecodeNothing(pre: bytes)
    ensures DecodeRecords([], pre) == Some([])
  {
  }

  lemma DecodeFirst(shared: nat, e: Entry, pre: bytes, rest: bytes)
    requires Fits(e) && shared <= |e.key| && shared <= |pre| && pre[..shared] == e.key[..shared]
    requires DecodeRecords(rest, e.key).Some?
    ensures DecodeRecords(Record(shared, e.key, e.value) + rest, pre)
         == Some([e] + DecodeRecords(rest, e.key).value)
  {
    hide Record, DecodeRecord;
    var data, n := Record(shared, e.key, e.value) + rest, |Record(shared, e.key, e.value)|;
    DecodeRecorded(shared, e, pre, rest);
    assert data[n..] == rest;
  }

  /** Sequential decoding of what `add` appended recovers the entries, across all restarts. */
  lemma RecordsRoundTrip(es: seq<Entry>)
    requires forall e :: e in es ==> Fits(e)
    ensures DecodeRecords(Records(es, 0, |es|), []) == Some(es)
  {
    hide Records, DecodeRecords;
    DecodeFrom(es, 0, |es|, []);
    assert es[0..|es|] == es;
  }

  // ---------------------------------------------------------------- the directory

  function Groups(n: nat): nat {
    (n + 15) / 16
  }

  /** `static_cast<int>` of a double. */
  function Truncate(x: real): int {
    if x >= 0.0 then x.Floor else -(-x).Floor
  }

  function RestartNum(n: nat): int {
    Truncate((n as real - 0.5) / 16.0) + 1
  }

  /** The stored number of groups is right except for the empty block, which claims one. */
  lemma RestartNumIsGroups(n: nat)
    ensures RestartNum(n) == Groups(n) <==> n >= 1
    ensures RestartNum(0) == 1
  {
    if n >= 1 {
      var g := (n - 1) / 16;
      var x := (n as real - 0.5) / 16.0;
      assert g as real <= x < (g + 1) as real;
      assert x.Floor == g;
    }
  }

  /** Where group g starts. */
  function GroupOffset(es: seq<Entry>, g: nat): nat
    requires RESTART_INTERVAL * g <= |es|
  {
    |Records(es, 0, RESTART_INTERVAL * g)|
  }

  ghost predicate OffsetsOf(es: seq<Entry>, offsets: seq<int32>) {
    |offsets| == Groups(|es|) && forall g :: 0 <= g < |offsets| ==> offsets[g] == ToI32(GroupOffset(es, g))
  }

  /** What the builder remembers of the entries besides their bytes. */
  ghost predicate Tracks(es: seq<Entry>, recordNum: nat, preKey: bytes, offsets: seq<int32>) {
    && recordNum == |es|
    && preKey == (if es == [] then [] else es[|es| - 1].key)
    && OffsetsOf(es, offsets)
  }

  function GroupEnd(es: seq<Entry>, g: nat): nat
    requires g < Groups(|es|)
  {
    if g + 1 < Groups(|es|) then GroupOffset(es, g + 1) else |Records(es, 0, |es|)|
  }

  function GroupInfo(es: seq<Entry>, g: nat): OffsetInfo
    requires g < Groups(|es|)
  {
    OffsetInfo(ToI32(GroupEnd(es, g) - GroupOffset(es, g)), ToI32(GroupOffset(es, g)))
  }

  /** The record count stored for group g. */
  function GroupCount(n: nat, g: nat): (r: nat)
    requires g < Groups(n)
    ensures r <= RESTART_INTERVAL
  {
    if g + 1 < Groups(n) then RESTART_INTERVAL else n % RESTART_INTERVAL
  }

  /** The first g entries of the directory. */
  function Directory(es: seq<Entry>, g: nat): (r: bytes)
    requires g <= Groups(|es|)
    ensures |r| == 12 * g
  {
    if g == 0 then []
    else Directory(es, g - 1) + Fixed32(ToU32(GroupCount(|es|, g - 1))) + OffsetInfoBytes(GroupInfo(es, g - 1))
  }

  function Point(es: seq<Entry>, g: nat): (r: bytes)
    requires g < Groups(|es|)
    ensures |r| == 12
  {
    Fixed32(ToU32(GroupCount(|es|, g))) + OffsetInfoBytes(GroupInfo(es, g))
  }

  function Block(es: seq<Entry>): bytes {
    Records(es, 0, |es|) + Directory(es, Groups(|es|)) + Fixed32(ToU32(RestartNum(|es|)))
  }

  // ---------------------------------------------------------------- the builder

  class DataBlockBuilder {
    var recordGroupOffset: seq<int32>
    var preKey: bytes
    var data: bytes
    var recordNum: nat
    ghost var entries: seq<Entry>
    ghost var finished: bool

    ghost predicate Valid()
      reads this
    {
      && Tracks(entries, recordNum, preKey, recordGroupOffset)
      && data == if finished then Block(entries) else Records(entries, 0, |entries|)
    }

    constructor ()
      ensures Valid() && entries == [] && !finished
    {
      recordGroupOffset, preKey, data, recordNum := [], [], [], 0;
      entries, finished := [], false;
    }

    /** Length of the common prefix of a key and the key before it. */
    method SharedKeyLen(key: bytes) returns (shared: nat)
      ensures shared == Common(key, preKey)
    {
      var minLen := if |key| < |preKey| then |key| else |preKey|;
      shared := 0;
      for i := 0 to minLen
        invariant shared == i && key[..i] == preKey[..i]
      {
        if key[i] == preKey[i] {
          shared := shared + 1;
        } else {
          break;
        }
      }
      CommonUnique(key, preKey, shared);
    }

    /** The five appends both branches of Add make. */
    method Append(shared: nat, unshared: nat, key: bytes, value: bytes)
      requires shared + unshared == |key|
      modifies this`data
      ensures data == old(data) + Record(shared, key, value)
    {
      hide Fixed32, ToU32;
      data := data + Fixed32(ToU32(shared));
      data := data + Fixed32(ToU32(unshared));
      data := data + Fixed32(ToU32(|value|));
      data := data + key[shared..];
      data := data + value;
    }

    method Add(key: bytes, value: bytes)
      requires Valid() && !finished
      modifies this
      ensures Valid() && !finished
      ensures entries == old(entries) + (if key == [] then [] else [Entry(key, value)])
    {
      if key == [] {
        return;
      }
      AddRecord(key, value);
    }

    /** Add, past its guard. */
    method AddRecord(key: bytes, value: bytes)
      requires Valid() && !finished
      modifies this
      ensures Valid() && !finished && entries == old(entries) + [Entry(key, value)]
    {
      hide Fixed32, ToU32, ToI32, Record, Records, OffsetsOf, Common, Block;
      ghost var es := entries;
      ghost var more := es + [Entry(key, value)];
      MoreRecords(es, Entry(key, value));
      MoreOffsets(es, Entry(key, value), recordGroupOffset);

      var needFullKey := false;
      if recordNum % RESTART_INTERVAL == 0 {
        needFullKey := true;
        recordGroupOffset := recordGroupOffset + [ToI32(|data|)];
      }
      recordNum := recordNum + 1;

      if needFullKey {
        Append(0, |key|, key, value);
      } else {
        var sharedKeyLen := SharedKeyLen(key);
        var unsharedKeyLen := |key| - sharedKeyLen;
        Append(sharedKeyLen, unsharedKeyLen, key, value);
      }
      preKey := key;
      entries := more;
    }

    method FinishDataBlock()
      requires Valid() && !finished && |data| <= INT32_MAX
      modifies this
      ensures Valid() && finished && entries == old(entries)
    {
      hide Fixed32, Fixed64, AsInt64, ToU32, ToI32, Records, RestartNum, Directory;
      NoDirectory(entries);
      var restartPointNum := RestartNum(recordNum);
      var lastOffset := |data|;
      for i := 0 to |recordGroupOffset|
        invariant unchanged(this`recordGroupOffset) && unchanged(this`entries) && unchanged(this`recordNum)
        invariant unchanged(this`preKey) && unchanged(this`finished)
        invariant data == Records(entries, 0, |entries|) + Directory(entries, i)
      {
        var num, size;
        OffsetsFit(entries, i);
        NextPoint(entries, i);
        if i != |recordGroupOffset| - 1 {
          OffsetsFit(entries, i + 1);
          size := recordGroupOffset[i + 1] as int - recordGroupOffset[i] as int;
          num := RESTART_INTERVAL;
        } else {
          size := lastOffset - recordGroupOffset[i] as int;
          num := recordNum % RESTART_INTERVAL;
        }
        data := data + Fixed32(ToU32(num));
        data := data + Fixed64(AsInt64(OffsetInfo(size, recordGroupOffset[i])));
      }
      data := data + Fixed32(ToU32(restartPointNum));
      finished := true;
    }

    method Clear()
      modifies this
      ensures Valid() && !finished && entries == []
    {
      recordGroupOffset, preKey, data, recordNum := [], [], [], 0;
      entries, finished := [], false;
    }
  }

  lemma NoDirectory(es: seq<Entry>)
    ensures Directory(es, 0) == []
  {
  }

  lemma NextPoint(es: seq<Entry>, g: nat)
    requires g < Groups(|es|)
    ensures Directory(es, g + 1) == Directory(es, g) + Point(es, g)
  {
    hide Fixed32, OffsetInfoBytes, GroupInfo, GroupCount;
  }

  lemma MoreRecords(es: seq<Entry>, e: Entry)
    ensures Records(es + [e], 0, |es| + 1)
         == Records(es, 0, |es|) + Record(Shared(es + [e], |es|), e.key, e.value)
  {
    hide Record;
    RecordsExtend(es, e, 0, |es|);
  }

  /** One more entry opens a group where the records ended, or leaves the groups alone. */
  lemma MoreOffsets(es: seq<Entry>, e: Entry, offsets: seq<int32>)
    requires OffsetsOf(es, offsets)
    ensures Tracks(es + [e], |es| + 1, e.key,
                   if |es| % RESTART_INTERVAL == 0 then offsets + [ToI32(|Records(es, 0, |es|)|)] else offsets)
  {
    hide Records, ToI32;
    OffsetsExtend(es, e);
  }

  /** Appending an entry moves no group. */
  lemma OffsetsExtend(es: seq<Entry>, e: Entry)
    ensures forall g :: 0 <= g < Groups(|es|) ==> GroupOffset(es + [e], g) == GroupOffset(es, g)
    ensures Records(es + [e], 0, |es|) == Records(es, 0, |es|)
  {
    hide Records;
    forall g | 0 <= g < Groups(|es|) ensures GroupOffset(es + [e], g) == GroupOffset(es, g) {
      RecordsExtend(es, e, 0, RESTART_INTERVAL * g);
    }
    RecordsExtend(es, e, 0, |es|);
  }

  lemma OffsetsFit(es: seq<Entry>, g: nat)
    requires g < Groups(|es|) && |Records(es, 0, |es|)| <= INT32_MAX
    ensures GroupOffset(es, g) <= GroupEnd(es, g) <= |Records(es, 0, |es|)|
    ensures ToI32(GroupOffset(es, g)) == GroupOffset(es, g)
    ensures GroupInfo(es, g).offset == GroupOffset(es, g)
    ensures GroupInfo(es, g).size == GroupEnd(es, g) - GroupOffset(es, g)
  {
    hide Records;
    RecordsSplit(es, 0, RESTART_INTERVAL * g, |es|);
    if g + 1 < Groups(|es|) {
      RecordsSplit(es, 0, RESTART_INTERVAL * (g + 1), |es|);
      RecordsSplit(es, 0, RESTART_INTERVAL * g, RESTART_INTERVAL * (g + 1));
    }
  }

  lemma CommonUnique(a: bytes, b: bytes, k: nat)
    requires k <= |a| && k <= |b| && a[..k] == b[..k]
    requires k < |a| && k < |b| ==> a[k] != b[k]
    ensures Common(a, b) == k
  {
    hide Common;
    var c := Common(a, b);
    forall m | 0 <= m < c ensures a[m] == b[m] { assert a[..c][m] == b[..c][m]; }
    forall m | 0 <= m < k ensures a[m] == b[m] { assert a[..k][m] == b[..k][m]; }
  }

  // ---------------------------------------------------------------- reading a finished block

  datatype Restart = Restart(count: uint32, info: OffsetInfo)

  /** The number in the block's last four bytes. */
  function StoredCount(block: bytes): uint32
    requires |block| >= 4
  {
    DecodeFixed32(block[|block| - 4..])
  }

  /** Where the directory starts, going by the stored count. */
  function DirectoryStart(block: bytes): int
    requires |block| >= 4
  {
    |block| - 4 - 12 * StoredCount(block)
  }

  function RestartAt(block: bytes, g: nat): Option<Restart>
    requires |block| >= 4
  {
    var at := DirectoryStart(block) + 12 * g;
    if at < 0 || at + 12 > |block| then None
    else Some(Restart(DecodeFixed32(block[at..]), ReadOffsetInfo(block[at + 4..])))
  }

  /** All the entries of a block, located from its end. */
  function DecodeBlock(block: bytes): Option<seq<Entry>> {
    if |block| < 4 || DirectoryStart(block) < 0 then None
    else DecodeRecords(block[..DirectoryStart(block)], [])
  }

  /** The entries of one group, located through the directory alone. */
  function DecodeGroup(block: bytes, g: nat): Option<seq<Entry>>
    requires |block| >= 4
  {
    match RestartAt(block, g)
    case None => None
    case Some(r) =>
      if 0 <= r.info.offset && 0 <= r.info.size && r.info.offset + r.info.size as int <= |block|
      then DecodeRecords(block[r.info.offset..r.info.offset + r.info.size as int], [])
      else None
  }

  ghost predicate Writable(es: seq<Entry>) {
    (forall e :: e in es ==> Fits(e)) && |Block(es)| <= INT32_MAX
  }

  lemma {:induction false} DirectoryAt(es: seq<Entry>, g: nat, m: nat)
    requires g < m <= Groups(|es|)
    ensures Directory(es, m)[12 * g..12 * g + 12] == Point(es, g)
    decreases m
  {
    hide Fixed32, OffsetInfoBytes, GroupInfo, GroupCount;
    if g + 1 < m { DirectoryAt(es, g, m - 1); }
    assert Directory(es, m) == Directory(es, m - 1) + Point(es, m - 1);
  }

  lemma NoRecords(es: seq<Entry>)
    ensures es == [] ==> Records(es, 0, |es|) == []
  {
  }

  /** The stored count leads to the directory exactly for the blocks that hold something. */
  lemma CountLocatesDirectory(es: seq<Entry>)
    requires |Block(es)| <= INT32_MAX
    ensures |Block(es)| >= 4
    ensures DirectoryStart(Block(es)) == |Records(es, 0, |es|)| <==> es != []
    ensures es == [] ==> DirectoryStart(Block(es)) < 0
    ensures es != [] ==> StoredCount(Block(es)) == Groups(|es|)
  {
    hide Fixed32, DecodeFixed32, Directory, RestartNum, Records;
    var block, n := Block(es), RestartNum(|es|);
    RestartNumIsGroups(|es|);
    NoRecords(es);
    assert 0 <= n <= INT32_MAX;
    assert block[|block| - 4..] == Fixed32(ToU32(n)) + [];
    Fixed32RoundTrip(ToU32(n), []);
  }

  /** What the directory says about group g: the true start and size, and the stored count. */
  lemma DirectorySays(es: seq<Entry>, g: nat)
    requires |Block(es)| <= INT32_MAX && g < Groups(|es|)
    ensures |Block(es)| >= 4
    ensures RestartAt(Block(es), g)
         == Some(Restart(GroupCount(|es|, g), GroupInfo(es, g)))
    ensures GroupInfo(es, g).offset == GroupOffset(es, g)
    ensures GroupInfo(es, g).size == GroupEnd(es, g) - GroupOffset(es, g)
  {
    hide Fixed32, DecodeFixed32, Records, OffsetInfoBytes, ReadOffsetInfo, RestartNum, GroupOffset, GroupEnd, ToU32,
         Directory, GroupCount;
    var block, at := Block(es), |Records(es, 0, |es|)| + 12 * g;
    CountLocatesDirectory(es);
    DirectoryAt(es, g, Groups(|es|));
    OffsetsFit(es, g);
    assert block[at..at + 12] == Directory(es, Groups(|es|))[12 * g..12 * g + 12];
    assert block[at..] == block[at..at + 12] + block[at + 12..];
    PointRoundTrip(GroupCount(|es|, g), GroupInfo(es, g), block[at + 12..]);
    assert block[at..][4..] == block[at + 4..];
  }

  lemma PointRoundTrip(count: uint32, info: OffsetInfo, rest: bytes)
    ensures var data := Fixed32(ToU32(count)) + OffsetInfoBytes(info) + rest;
            DecodeFixed32(data) == count && ReadOffsetInfo(data[4..]) == info
  {
    hide Fixed32, DecodeFixed32, OffsetInfoBytes, ReadOffsetInfo;
    var data := Fixed32(ToU32(count)) + OffsetInfoBytes(info) + rest;
    assert data == Fixed32(ToU32(count)) + (OffsetInfoBytes(info) + rest);
    assert data[4..] == OffsetInfoBytes(info) + rest;
    Fixed32RoundTrip(ToU32(count), OffsetInfoBytes(info) + rest);
    OffsetInfoRoundTrip(info, rest);
  }

  /** The groups of the directory tile the record bytes, without gap or overlap. */
  lemma DirectoryTiles(es: seq<Entry>, g: nat)
    requires |Block(es)| <= INT32_MAX && g < Groups(|es|)
    ensures |Block(es)| >= 4 && RestartAt(Block(es), g).Some? && RestartAt(Block(es), 0).Some?
    ensures RestartAt(Block(es), 0).value.info.offset == 0
    ensures var info := RestartAt(Block(es), g).value.info;
            && info.offset >= 0 && info.size > 0
            && (g + 1 < Groups(|es|) ==>
                  && RestartAt(Block(es), g + 1).Some?
                  && RestartAt(Block(es), g + 1).value.info.offset == info.offset as int + info.size)
            && (g + 1 == Groups(|es|) ==> info.offset as int + info.size == DirectoryStart(Block(es)))
  {
    hide Block, Records, RestartAt, GroupOffset, GroupInfo, GroupCount, DirectoryStart;
    DirectorySays(es, g);
    DirectorySays(es, 0);
    FirstGroup(es);
    NextGroup(es, g);
    CountLocatesDirectory(es);
    GroupNonempty(es, g);
    if g + 1 < Groups(|es|) { DirectorySays(es, g + 1); }
  }

  lemma FirstGroup(es: seq<Entry>)
    ensures GroupOffset(es, 0) == 0
  {
  }

  lemma NextGroup(es: seq<Entry>, g: nat)
    requires g < Groups(|es|)
    ensures GroupEnd(es, g) == if g + 1 < Groups(|es|) then GroupOffset(es, g + 1) else |Records(es, 0, |es|)|
  {
    hide Records;
  }

  function GroupLast(n: nat, g: nat): nat {
    if RESTART_INTERVAL * (g + 1) <= n then RESTART_INTERVAL * (g + 1) else n
  }

  /** The bytes of group g are the records of its entries. */
  lemma GroupBytes(es: seq<Entry>, g: nat)
    requires g < Groups(|es|)
    ensures var lo, hi := RESTART_INTERVAL * g, GroupLast(|es|, g);
            && lo < hi <= |es|
            && GroupEnd(es, g) == |Records(es, 0, hi)|
            && Records(es, 0, hi) == Records(es, 0, lo) + Records(es, lo, hi)
            && Records(es, 0, |es|) == Records(es, 0, hi) + Records(es, hi, |es|)
  {
    hide Records;
    RecordsSplit(es, 0, RESTART_INTERVAL * g, GroupLast(|es|, g));
    RecordsSplit(es, 0, GroupLast(|es|, g), |es|);
  }

  lemma GroupNonempty(es: seq<Entry>, g: nat)
    requires g < Groups(|es|)
    ensures GroupOffset(es, g) < GroupEnd(es, g)
  {
    GroupBytes(es, g);
    RecordsFront(es, RESTART_INTERVAL * g, GroupLast(|es|, g));
  }

  /** A finished block decodes to its entries exactly if it has any. */
  lemma BlockRoundTrip(es: seq<Entry>)
    requires Writable(es)
    ensures DecodeBlock(Block(es)) == Some(es) <==> es != []
  {
    hide Records, Directory, Fixed32, RestartNum, DecodeRecords;
    CountLocatesDirectory(es);
    if es != [] {
      assert Block(es)[..|Records(es, 0, |es|)|] == Records(es, 0, |es|);
      RecordsRoundTrip(es);
    }
  }

  /** Random access: the directory alone, with no earlier bytes, gives any group's entries. */
  lemma GroupRoundTrip(es: seq<Entry>, g: nat)
    requires Writable(es) && g < Groups(|es|)
    ensures |Block(es)| >= 4
    ensures RESTART_INTERVAL * g < GroupLast(|es|, g) <= |es|
    ensures DecodeGroup(Block(es), g) == Some(es[RESTART_INTERVAL * g..GroupLast(|es|, g)])
  {
    hide Records, Directory, Fixed32, RestartNum, DecodeRecords, RestartAt, GroupCount;
    var lo, hi := RESTART_INTERVAL * g, GroupLast(|es|, g);
    DirectorySays(es, g);
    GroupBytes(es, g);
    OffsetsFit(es, g);
    assert Block(es)[GroupOffset(es, g)..GroupEnd(es, g)] == Records(es, lo, hi);
    DecodeFrom(es, lo, hi, []);
  }

  /** Decoding from any restart offset to the directory gives all the later entries. */
  lemma RestartRoundTrip(es: seq<Entry>, g: nat)
    requires Writable(es) && g < Groups(|es|)
    ensures |Block(es)| >= 4 && GroupOffset(es, g) <= DirectoryStart(Block(es)) <= |Block(es)|
    ensures DecodeRecords(Block(es)[GroupOffset(es, g)..DirectoryStart(Block(es))], [])
         == Some(es[RESTART_INTERVAL * g..])
  {
    hide Directory, Fixed32, RestartNum, DecodeRecords, Records;
    var lo, all := RESTART_INTERVAL * g, Records(es, 0, |es|);
    CountLocatesDirectory(es);
    RecordsSplit(es, 0, lo, |es|);
    assert Block(es)[|Records(es, 0, lo)|..|all|] == Records(es, lo, |es|);
    DecodeFrom(es, lo, |es|, []);
    assert es[lo..|es|] == es[lo..];
  }

  /** A restart offset is the start of a record that shares nothing and holds its whole key. */
  lemma RestartHoldsFullKey(es: seq<Entry>, g: nat)
    requires Writable(es) && g < Groups(|es|)
    ensures var at, key := GroupOffset(es, g), es[RESTART_INTERVAL * g].key;
            && at + 12 + |key| <= |Block(es)|
            && DecodeFixed32(Block(es)[at..]) == 0
            && DecodeFixed32(Block(es)[at + 4..]) == |key|
            && Block(es)[at + 12..at + 12 + |key|] == key
  {
    hide Directory, RestartNum, Records, Fixed32, DecodeFixed32, Record;
    var lo := RESTART_INTERVAL * g;
    var at, e, block := GroupOffset(es, g), es[lo], Block(es);
    RecordsSplit(es, 0, lo, |es|);
    RecordsFront(es, lo, |es|);
    var rest := Records(es, lo + 1, |es|) + Directory(es, Groups(|es|)) + Fixed32(ToU32(RestartNum(|es|)));
    assert block[at..] == Record(0, e.key, e.value) + rest;
    FullRecordBytes(e, rest);
    assert block[at + 4..] == block[at..][4..];
    assert block[at + 12..at + 12 + |e.key|] == block[at..][12..12 + |e.key|];
  }

  lemma FullRecordBytes(e: Entry, rest: bytes)
    requires Fits(e)
    ensures var data := Record(0, e.key, e.value) + rest;
            DecodeFixed32(data) == 0 && DecodeFixed32(data[4..]) == |e.key| && data[12..12 + |e.key|] == e.key
  {
    hide Fixed32, DecodeFixed32;
    var a, b, tail := Fixed32(ToU32(0)), Fixed32(ToU32(|e.key|)), Fixed32(ToU32(|e.value|)) + e.key + e.value + rest;
    var data := Record(0, e.key, e.value) + rest;
    assert e.key[0..] == e.key;
    assert data == a + (b + tail);
    assert data[4..] == b + tail;
    Fixed32RoundTrip(ToU32(0), b + tail);
    Fixed32RoundTrip(ToU32(|e.key|), tail);
  }

  function CountSum(n: nat, g: nat): nat
    requires g <= Groups(n)
  {
    if g == 0 then 0 else CountSum(n, g - 1) + GroupCount(n, g - 1)
  }

  lemma {:induction false} CountSumFull(n: nat, g: nat)
    requires g < Groups(n)
    ensures CountSum(n, g) == RESTART_INTERVAL * g
  {
    if g > 0 { CountSumFull(n, g - 1); }
  }

  /** The stored group counts add up to the number of records unless it is a positive multiple of
      sixteen: then the last group says 0 and sixteen records go uncounted. */
  lemma CountsAddUp(n: nat)
    ensures CountSum(n, Groups(n)) == n <==> n == 0 || n % RESTART_INTERVAL != 0
    ensures n > 0 && n % RESTART_INTERVAL == 0 ==> CountSum(n, Groups(n)) == n - RESTART_INTERVAL
  {
    if n > 0 { CountSumFull(n, Groups(n) - 1); }
  }

  // ---------------------------------------------------------------- the bytes

  /** The longest beginning the key shares with the one before it; nothing at a restart. */
  ghost predicate SharesMost(es: seq<Entry>, i: nat, k: nat) {
    && i < |es| && k <= |es[i].key|
    && if i % RESTART_INTERVAL == 0 then k == 0
       else
         var key, pre := es[i].key, es[i - 1].key;
         && k <= |pre| && key[..k] == pre[..k]
         && (k == |key| || k == |pre| || key[k] != pre[k])
  }

  lemma SharedMost(es: seq<Entry>, i: nat)
    requires i < |es|
    ensures SharesMost(es, i, Shared(es, i))
  {
  }

  lemma RecordWords(shared: nat, e: Entry)
    requires Fits(e) && shared <= |e.key|
    ensures var r := Record(shared, e.key, e.value);
            && LittleEndian(r[..4]) == shared && LittleEndian(r[4..8]) == |e.key| - shared
            && LittleEndian(r[8..12]) == |e.value| && r[12..] == e.key[shared..] + e.value
  {
    hide Fixed32, LittleEndian;
    var r := Record(shared, e.key, e.value);
    Fixed32LittleEndian(shared);
    Fixed32LittleEndian(|e.key| - shared);
    Fixed32LittleEndian(|e.value|);
    assert r[..4] == Fixed32(ToU32(shared)) && r[4..8] == Fixed32(ToU32(|e.key| - shared));
    assert r[8..12] == Fixed32(ToU32(|e.value|));
  }

  lemma RecordAt(es: seq<Entry>, i: nat)
    requires i < |es|
    ensures var at, size := |Records(es, 0, i)|, |RecordOf(es, i)|;
            && |Records(es, 0, i + 1)| == at + size <= |Block(es)|
            && Block(es)[at..at + size] == RecordOf(es, i)
  {
    hide Records, RecordOf, Directory, Fixed32, RestartNum;
    RecordsSplit(es, 0, i, |es|);
    RecordsFront(es, i, |es|);
    RecordsSplit(es, 0, i + 1, |es|);
  }

  /** Record i of a block, byte by byte: how much it shares with the key before it, which is the most it
      can, how much it does not, the length of the value, the rest of the key, and the value. */
  lemma RecordFields(es: seq<Entry>, i: nat)
    requires i < |es| && Fits(es[i])
    ensures var at, block, key, value := |Records(es, 0, i)|, Block(es), es[i].key, es[i].value;
            && at + 12 <= |block|
            && var k := LittleEndian(block[at..at + 4]);
               && SharesMost(es, i, k)
               && LittleEndian(block[at + 4..at + 8]) == |key| - k
               && LittleEndian(block[at + 8..at + 12]) == |value|
               && |Records(es, 0, i + 1)| == at + 12 + |key| - k + |value| <= |block|
               && block[at + 12..at + 12 + |key| - k + |value|] == key[k..] + value
  {
    hide Records, Block, Record, LittleEndian, Shared, SharesMost;
    var shared := Shared(es, i);
    SharedMost(es, i);
    RecordAt(es, i);
    RecordWords(shared, es[i]);
    Pieces(Block(es), |Records(es, 0, i)|, RecordOf(es, i));
  }

  lemma Pieces(data: bytes, at: nat, r: bytes)
    requires at + |r| <= |data| && data[at..at + |r|] == r && |r| >= 12
    ensures data[at..at + 4] == r[..4] && data[at + 4..at + 8] == r[4..8] && data[at + 8..at + 12] == r[8..12]
    ensures data[at + 12..at + |r|] == r[12..]
  {
    SliceOfSlice(data, at, |r|, 0, 4);
    SliceOfSlice(data, at, |r|, 4, 8);
    SliceOfSlice(data, at, |r|, 8, 12);
    SliceOfSlice(data, at, |r|, 12, |r|);
  }

  lemma PointWords(count: nat, info: OffsetInfo)
    requires count <= INT32_MAX
    ensures var p := Fixed32(ToU32(count)) + OffsetInfoBytes(info);
            && LittleEndian(p[..4]) == count && LittleEndian(p[4..8]) == ToU32(info.size)
            && LittleEndian(p[8..12]) == ToU32(info.offset)
  {
    hide Fixed32, OffsetInfoBytes, LittleEndian;
    var p := Fixed32(ToU32(count)) + OffsetInfoBytes(info);
    Fixed32LittleEndian(count);
    OffsetInfoFields(info);
    assert p[..4] == Fixed32(ToU32(count));
    assert p[4..8] == OffsetInfoBytes(info)[..4] && p[8..12] == OffsetInfoBytes(info)[4..];
  }

  /** Directory entry g of a block, byte by byte: a full group counts 16 and the last one what is left
      over from multiples of 16; then the size and the offset of the group's records. */
  lemma DirectoryFields(es: seq<Entry>, g: nat)
    requires |Block(es)| <= INT32_MAX && g < Groups(|es|)
    ensures var block, at := Block(es), |Records(es, 0, |es|)| + 12 * g;
            && at + 12 <= |block|
            && LittleEndian(block[at..at + 4]) == (if 16 * (g + 1) < |es| then 16 else |es| % 16)
            && LittleEndian(block[at + 8..at + 12]) == |Records(es, 0, 16 * g)|
            && LittleEndian(block[at + 4..at + 8])
               == |Records(es, 0, if 16 * (g + 1) < |es| then 16 * (g + 1) else |es|)| - |Records(es, 0, 16 * g)|
  {
    hide Records, Directory, Fixed32, RestartNum, LittleEndian, OffsetInfoBytes;
    var block, at := Block(es), |Records(es, 0, |es|)| + 12 * g;
    DirectoryAt(es, g, Groups(|es|));
    OffsetsFit(es, g);
    assert block[at..at + 12] == Directory(es, Groups(|es|))[12 * g..12 * g + 12];
    PointWords(GroupCount(|es|, g), GroupInfo(es, g));
    Pieces(block, at, Point(es, g));
  }

  /** The last four bytes are the number of groups, and 1 for a block without records. */
  lemma CountField(es: seq<Entry>)
    requires |Block(es)| <= INT32_MAX
    ensures |Block(es)| >= 4
    ensures LittleEndian(Block(es)[|Block(es)| - 4..]) == if es == [] then 1 else (|es| + 15) / 16
  {
    hide Records, Directory, Fixed32, RestartNum, LittleEndian;
    var n := RestartNum(|es|);
    RestartNumIsGroups(|es|);
    assert 0 <= n <= INT32_MAX;
    Fixed32LittleEndian(ToU32(n));
    assert Block(es)[|Block(es)| - 4..] == Fixed32(ToU32(n));
  }

  // ---------------------------------------------------------------- rebuilding from the restart key

  ghost predicate LessAt(es: seq<Entry>, i: nat, j: nat) {
    i < |es| && j < |es| && Less(es[i].key, es[j].key)
  }

  ghost predicate KeysAscend(es: seq<Entry>) {
    forall i, j :: 0 <= i < j < |es| ==> LessAt(es, i, j)
  }

  /** The key of the record, if its shared bytes are taken from the first key of its group. */
  ghost predicate FromRestart(es: seq<Entry>, i: nat) {
    && i < |es|
    && var restart, shared := es[i - i % RESTART_INTERVAL].key, Shared(es, i);
       shared <= |restart| && restart[..shared] + es[i].key[shared..] == es[i].key
  }

  /** The record shares no more than the one before it in its group. */
  ghost predicate NoGrowth(es: seq<Entry>, i: nat) {
    i < |es| && (i % RESTART_INTERVAL >= 2 ==> Shared(es, i) <= Shared(es, i - 1))
  }

  /** A key between two that begin alike begins like them. */
  lemma Between(a: bytes, b: bytes, c: bytes, k: nat)
    requires AtMost(a, b) && AtMost(b, c) && k <= |a| && k <= |c| && a[..k] == c[..k]
    ensures k <= |b| && b[..k] == a[..k]
  {
    if a != b && b != c {
      var m :| 0 <= m < |b| && SmallerAt(a, b, m);
      var n :| 0 <= n < |c| && SmallerAt(b, c, n);
      assert forall i :: 0 <= i < m ==> a[..m][i] == b[..m][i];
      assert forall i :: 0 <= i < n ==> b[..n][i] == c[..n][i];
      assert forall i :: 0 <= i < k ==> a[..k][i] == c[..k][i];
    }
  }

  lemma CommonAtLeast(a: bytes, b: bytes, k: nat)
    requires k <= |a| && k <= |b| && a[..k] == b[..k]
    ensures Common(a, b) >= k
  {
    hide Common;
    assert forall i :: 0 <= i < k ==> a[..k][i] == b[..k][i];
  }

  lemma RestartShares(es: seq<Entry>, i: nat)
    requires i < |es|
    ensures var restart, shared := es[i - i % RESTART_INTERVAL].key, Shared(es, i);
            FromRestart(es, i) <==> shared <= |restart| && restart[..shared] == es[i].key[..shared]
  {
    hide Common, Shared;
    var restart, shared, key := es[i - i % RESTART_INTERVAL].key, Shared(es, i), es[i].key;
    assert key == key[..shared] + key[shared..];
    if FromRestart(es, i) {
      assert (restart[..shared] + key[shared..])[..shared] == restart[..shared];
    }
  }

  lemma AtMostAt(es: seq<Entry>, i: nat, j: nat)
    requires KeysAscend(es) && i <= j < |es|
    ensures AtMost(es[i].key, es[j].key)
  {
    assert i < j ==> LessAt(es, i, j);
  }

  lemma {:induction false} RebuiltIfNoGrowth(es: seq<Entry>, i: nat)
    requires i < |es| && forall j :: 0 <= j < |es| ==> NoGrowth(es, j)
    ensures FromRestart(es, i)
  {
    hide Common, FromRestart;
    RestartShares(es, i);
    if i % RESTART_INTERVAL >= 2 {
      assert NoGrowth(es, i);
      var restart, shared := es[i - i % RESTART_INTERVAL].key, Shared(es, i);
      RebuiltIfNoGrowth(es, i - 1);
      RestartShares(es, i - 1);
      var more := Shared(es, i - 1);
      assert restart[..shared] == restart[..more][..shared] == es[i - 1].key[..more][..shared] == es[i - 1].key[..shared];
    }
  }

  lemma NoGrowthIfRebuilt(es: seq<Entry>, i: nat)
    requires i < |es| && KeysAscend(es) && FromRestart(es, i)
    ensures NoGrowth(es, i)
  {
    hide Common, FromRestart, Less, KeysAscend;
    if i % RESTART_INTERVAL >= 2 {
      var lo, shared := i - i % RESTART_INTERVAL, Shared(es, i);
      RestartShares(es, i);
      AtMostAt(es, lo, i - 2);
      AtMostAt(es, lo, i - 1);
      AtMostAt(es, i - 2, i);
      AtMostAt(es, i - 1, i);
      Between(es[lo].key, es[i - 2].key, es[i].key, shared);
      Between(es[lo].key, es[i - 1].key, es[i].key, shared);
      CommonAtLeast(es[i - 1].key, es[i - 2].key, shared);
      assert (i - 1) % RESTART_INTERVAL != 0;
    }
  }

  /** The header has records share with their restart key. For ascending keys, every key of a block can
      be rebuilt from the first key of its group exactly if inside the groups the shared lengths never
      grow. */
  lemma RestartKeyExactly(es: seq<Entry>)
    requires KeysAscend(es)
    ensures (forall i :: 0 <= i < |es| ==> FromRestart(es, i)) <==> (forall i :: 0 <= i < |es| ==> NoGrowth(es, i))
  {
    hide FromRestart, NoGrowth, KeysAscend;
    if forall i :: 0 <= i < |es| ==> FromRestart(es, i) {
      forall i | 0 <= i < |es| ensures NoGrowth(es, i) { NoGrowthIfRebuilt(es, i); }
    }
    if forall i :: 0 <= i < |es| ==> NoGrowth(es, i) {
      forall i | 0 <= i < |es| ensures FromRestart(es, i) { RebuiltIfNoGrowth(es, i); }
    }
  }

  /** Three ascending keys of one group: the third shares a byte with the second and none with the
      first, so taking that byte from the first gives another key. */
  lemma NotFromRestart()
    ensures var es := [Entry([0x61], []), Entry([0x62], []), Entry([0x62, 0x61], [])];
            && KeysAscend(es) && Shared(es, 2) == 1 && !FromRestart(es, 2)
            && es[0].key[..1] + es[2].key[1..] == [0x61, 0x61] != es[2].key
  {
    var es := [Entry([0x61], []), Entry([0x62], []), Entry([0x62, 0x61], [])];
    assert SmallerAt(es[0].key, es[1].key, 0) && SmallerAt(es[0].key, es[2].key, 0);
    assert es[2].key[..1] == es[1].key[..1] == es[1].key;
    assert SmallerAt(es[1].key, es[2].key, 1);
    assert LessAt(es, 0, 1) && LessAt(es, 0, 2) && LessAt(es, 1, 2);
    CommonUnique(es[2].key, es[1].key, 1);
    assert (es[0].key[..1] + es[2].key[1..])[0] == 0x61;
  }
}
