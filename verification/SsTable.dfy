/**
 The sorted-string table as a value: how entries are cut into blocks, which index entry each block
 gets, what bytes the file holds, and how a reader finds the index and routes a key.
 */
module SsTables {
  import opened Bytes
  import opened Codec
  import opened DataBlocks
  import opened Separators

  const MAX_DATA_BLOCK_SIZE := 4096
  const FOOTER_SIZE := 16

  datatype IndexEntry = IndexEntry(key: bytes, info: OffsetInfo)

  /** A table being built: the entries so far, where each finished block ends among them, the index,
      the bytes of the finished blocks, and the builder's previous key. */
  datatype Sst = Sst(es: seq<Entry>, ends: seq<nat>, index: seq<IndexEntry>, offset: nat, preKey: bytes)

  /** The position of the first entry of block j. */
  function Start(ends: seq<nat>, j: nat): nat
    requires j <= |ends|
  {
    if j == 0 then 0 else ends[j - 1]
  }

  ghost predicate CutAt(ends: seq<nat>, n: nat, j: nat) {
    j < |ends| && Start(ends, j) < ends[j] <= n
  }

  /** Every block ends after it starts, among the first n entries. */
  ghost predicate Cuts(ends: seq<nat>, n: nat) {
    forall j :: 0 <= j < |ends| ==> CutAt(ends, n, j)
  }

  lemma LastCut(ends: seq<nat>, n: nat)
    requires Cuts(ends, n)
    ensures Start(ends, |ends|) <= n
  {
    assert |ends| > 0 ==> CutAt(ends, n, |ends| - 1);
  }

  lemma CutsMore(ends: seq<nat>, n: nat, m: nat)
    requires Cuts(ends, n) && n <= m
    ensures Cuts(ends, m)
  {
    forall j | 0 <= j < |ends| ensures CutAt(ends, m, j) { assert CutAt(ends, n, j); }
  }

  lemma CutsPush(ends: seq<nat>, n: nat, end: nat)
    requires Cuts(ends, n) && Start(ends, |ends|) < end <= n
    ensures Cuts(ends + [end], n)
  {
    forall j | 0 <= j <= |ends| ensures CutAt(ends + [end], n, j) { assert j < |ends| ==> CutAt(ends, n, j); }
  }

  function BlockOf(s: Sst, j: nat): seq<Entry>
    requires j < |s.ends| && Start(s.ends, j) <= s.ends[j] <= |s.es|
  {
    s.es[Start(s.ends, j)..s.ends[j]]
  }

  /** The entries of the block being filled. */
  function Current(s: Sst): seq<Entry>
    requires Start(s.ends, |s.ends|) <= |s.es|
  {
    s.es[Start(s.ends, |s.ends|)..]
  }

  const EMPTY := Sst([], [], [], 0, [])

  predicate Overflows(block: seq<Entry>) {
    |Records(block, 0, |block|)| > MAX_DATA_BLOCK_SIZE
  }

  function Flushed(s: Sst, key: bytes, offset: nat): Sst
    requires Start(s.ends, |s.ends|) <= |s.es|
  {
    var block := Block(Current(s));
    s.(ends := s.ends + [|s.es|],
       index := s.index + [IndexEntry(key, OffsetInfo(ToI32(|block|), ToI32(offset)))],
       offset := s.offset + |block|)
  }

  /** Adding an entry; a block grown past the limit is flushed, its index entry pointing past its end. */
  function AddStep(s: Sst, e: Entry): Sst
    requires Start(s.ends, |s.ends|) <= |s.es|
  {
    var more := s.(es := s.es + [e]);
    if Overflows(Current(more)) then
      Flushed(more, Separator(s.preKey, e.key), s.offset + |Block(Current(more))|).(preKey := e.key)
    else more.(preKey := e.key)
  }

  /** The last block is flushed under its last key bumped, its index entry pointing at its start. */
  function FinishStep(s: Sst): Sst
    requires Start(s.ends, |s.ends|) <= |s.es|
  {
    if Current(s) == [] then s
    else
      var key := if s.preKey == [] then [] else Bumped(s.preKey);
      Flushed(s, key, s.offset).(preKey := key)
  }

  // ---------------------------------------------------------------- runs

  ghost predicate NoEmptyKey(es: seq<Entry>) {
    forall e :: e in es ==> e.key != []
  }

  lemma AddCuts(s: Sst, e: Entry)
    requires Cuts(s.ends, |s.es|)
    ensures Start(s.ends, |s.ends|) <= |s.es|
    ensures var t := AddStep(s, e);
            Cuts(t.ends, |t.es|) && t.es == s.es + [e] && Start(t.ends, |t.ends|) <= |t.es|
  {
    hide Overflows, Separator, Block, Cuts;
    LastCut(s.ends, |s.es|);
    CutsMore(s.ends, |s.es|, |s.es| + 1);
    CutsPush(s.ends, |s.es| + 1, |s.es| + 1);
  }

  lemma NextBuild(s: Sst, es: seq<Entry>)
    requires es != [] && Cuts(s.ends, |s.es|) && s.es == es[..|es| - 1]
    ensures Start(s.ends, |s.ends|) <= |s.es|
    ensures var t := AddStep(s, es[|es| - 1]);
            Cuts(t.ends, |t.es|) && t.es == es && Start(t.ends, |t.ends|) <= |t.es|
  {
    hide AddStep;
    AddCuts(s, es[|es| - 1]);
    assert es[..|es| - 1] + [es[|es| - 1]] == es;
  }

  /** The table after adding these entries one by one. */
  ghost function Build(es: seq<Entry>): (s: Sst)
    ensures Cuts(s.ends, |s.es|) && s.es == es
    ensures Start(s.ends, |s.ends|) <= |s.es|
  {
    hide AddStep;
    if es == [] then EMPTY
    else
      NextBuild(Build(es[..|es| - 1]), es);
      AddStep(Build(es[..|es| - 1]), es[|es| - 1])
  }

  lemma FinishCuts(s: Sst)
    requires Cuts(s.ends, |s.es|) && Start(s.ends, |s.ends|) <= |s.es|
    ensures var f := FinishStep(s);
            Cuts(f.ends, |f.es|) && f.es == s.es && Start(f.ends, |f.ends|) == |f.es|
  {
    hide Block, Cuts;
    if Current(s) != [] { CutsPush(s.ends, |s.es|, |s.es|); }
  }

  ghost function Finished(es: seq<Entry>): (f: Sst)
    ensures Cuts(f.ends, |f.es|) && f.es == es && Start(f.ends, |f.ends|) == |es|
  {
    FinishCuts(Build(es));
    FinishStep(Build(es))
  }

  // ---------------------------------------------------------------- what the index says

  /** The bytes of the first j blocks. */
  ghost function DataBytes(es: seq<Entry>, ends: seq<nat>, j: nat): bytes
    requires j <= |ends| && Cuts(ends, |es|)
  {
    if j == 0 then []
    else
      assert CutAt(ends, |es|, j - 1);
      DataBytes(es, ends, j - 1) + Block(es[Start(ends, j - 1)..ends[j - 1]])
  }

  function PrevKey(es: seq<Entry>, t: nat): bytes
    requires t <= |es|
  {
    if t == 0 then [] else es[t - 1].key
  }

  /** The index entry of a block flushed by an addition: a separator below the block's last key, the
      block's size, and the offset of its end. */
  ghost predicate FlushEntry(s: Sst, j: nat) {
    && j < |s.ends| && j < |s.index| && Cuts(s.ends, |s.es|) && CutAt(s.ends, |s.es|, j)
    && s.index[j] == IndexEntry(Separator(PrevKey(s.es, s.ends[j] - 1), s.es[s.ends[j] - 1].key),
                                OffsetInfo(ToI32(|Block(BlockOf(s, j))|), ToI32(|DataBytes(s.es, s.ends, j + 1)|)))
  }

  /** The index entry of the block flushed at the end: its last key bumped, its size, and the offset
      of its start. */
  ghost predicate FinalEntry(s: Sst, j: nat) {
    && j < |s.ends| && j < |s.index| && Cuts(s.ends, |s.es|) && CutAt(s.ends, |s.es|, j) && s.ends[j] == |s.es|
    && s.es[|s.es| - 1].key != []
    && s.index[j] == IndexEntry(Bumped(s.es[|s.es| - 1].key),
                                OffsetInfo(ToI32(|Block(BlockOf(s, j))|), ToI32(|DataBytes(s.es, s.ends, j)|)))
  }

  ghost predicate Tracks(s: Sst) {
    && Cuts(s.ends, |s.es|) && Start(s.ends, |s.ends|) <= |s.es|
    && |s.index| == |s.ends|
    && s.preKey == PrevKey(s.es, |s.es|)
    && s.offset == |DataBytes(s.es, s.ends, |s.ends|)|
    && !Overflows(Current(s))
    && forall j :: 0 <= j < |s.ends| ==> FlushEntry(s, j)
  }

  /** More entries and more cuts leave the bytes of the first blocks alone. */
  lemma {:induction false} DataExtend(es: seq<Entry>, ends: seq<nat>, es': seq<Entry>, ends': seq<nat>, j: nat)
    requires j <= |ends| && es <= es' && ends <= ends' && Cuts(ends, |es|) && Cuts(ends', |es'|)
    ensures DataBytes(es', ends', j) == DataBytes(es, ends, j)
  {
    hide Block;
    if j > 0 {
      DataExtend(es, ends, es', ends', j - 1);
      assert CutAt(ends, |es|, j - 1);
      assert es'[Start(ends', j - 1)..ends'[j - 1]] == es[Start(ends, j - 1)..ends[j - 1]];
    }
  }

  lemma FlushEntryExtend(s: Sst, t: Sst, j: nat)
    requires FlushEntry(s, j) && s.es <= t.es && s.ends <= t.ends && s.index <= t.index && Cuts(t.ends, |t.es|)
    ensures FlushEntry(t, j)
  {
    hide Block, Separator, DataBytes;
    DataExtend(s.es, s.ends, t.es, t.ends, j + 1);
    assert BlockOf(t, j) == BlockOf(s, j);
    assert t.es[t.ends[j] - 1] == s.es[s.ends[j] - 1];
    assert PrevKey(t.es, t.ends[j] - 1) == PrevKey(s.es, s.ends[j] - 1);
  }

  /** A flush under any key and offset keeps the older index entries and adds the bytes of one block. */
  lemma FlushExtends(s: Sst, key: bytes, offset: nat)
    requires Cuts(s.ends, |s.es|) && Start(s.ends, |s.ends|) < |s.es| && |s.index| == |s.ends|
    requires s.offset == |DataBytes(s.es, s.ends, |s.ends|)|
    requires forall j :: 0 <= j < |s.ends| ==> FlushEntry(s, j)
    ensures var t := Flushed(s, key, offset);
            && Cuts(t.ends, |t.es|)
            && BlockOf(t, |s.ends|) == Current(s)
            && t.offset == |DataBytes(t.es, t.ends, |t.ends|)|
            && |DataBytes(t.es, t.ends, |s.ends|)| == s.offset
            && (forall j :: 0 <= j < |s.ends| ==> FlushEntry(t, j))
            && Current(t) == []
  {
    hide Block, FlushEntry;
    var t := Flushed(s, key, offset);
    CutsPush(s.ends, |s.es|, |s.es|);
    DataExtend(s.es, s.ends, t.es, t.ends, |s.ends|);
    forall j | 0 <= j < |s.ends| ensures FlushEntry(t, j) {
      FlushEntryExtend(s, t, j);
    }
  }

  /** The state between appending an entry and the check for overflow. */
  lemma AppendExtends(s: Sst, e: Entry)
    requires Tracks(s)
    ensures var more := s.(es := s.es + [e]);
            && Cuts(more.ends, |more.es|) && Start(more.ends, |more.ends|) < |more.es|
            && more.offset == |DataBytes(more.es, more.ends, |more.ends|)|
            && (forall j :: 0 <= j < |s.ends| ==> FlushEntry(more, j))
  {
    hide Block, FlushEntry, Overflows;
    var more := s.(es := s.es + [e]);
    CutsMore(s.ends, |s.es|, |s.es| + 1);
    DataExtend(s.es, s.ends, more.es, more.ends, |s.ends|);
    forall j | 0 <= j < |s.ends| ensures FlushEntry(more, j) {
      FlushEntryExtend(s, more, j);
    }
  }

  lemma TracksStep(s: Sst, e: Entry)
    requires Tracks(s)
    ensures Tracks(AddStep(s, e))
  {
    hide Block, Separator, Overflows, FlushEntry, DataBytes;
    AppendExtends(s, e);
    var more := s.(es := s.es + [e]);
    if Overflows(Current(more)) {
      var key, offset := Separator(s.preKey, e.key), s.offset + |Block(Current(more))|;
      var t := Flushed(more, key, offset);
      FlushExtends(more, key, offset);
      NoOverflow(Current(t));
      NewFlushEntry(more, s.preKey, e.key);
      SameTracked(t, e.key);
    } else {
      SameTracked(more, e.key);
    }
  }

  lemma NewFlushEntry(s: Sst, preKey: bytes, key: bytes)
    requires Cuts(s.ends, |s.es|) && Start(s.ends, |s.ends|) < |s.es| && |s.index| == |s.ends|
    requires s.offset == |DataBytes(s.es, s.ends, |s.ends|)|
    requires forall j :: 0 <= j < |s.ends| ==> FlushEntry(s, j)
    requires preKey == PrevKey(s.es, |s.es| - 1) && key == s.es[|s.es| - 1].key
    ensures FlushEntry(Flushed(s, Separator(preKey, key), s.offset + |Block(Current(s))|), |s.ends|)
  {
    hide Block, Separator;
    FlushExtends(s, Separator(preKey, key), s.offset + |Block(Current(s))|);
  }

  /** The builder's previous key is no part of what an index entry says. */
  lemma SameTracked(s: Sst, key: bytes)
    ensures forall j :: 0 <= j < |s.ends| && FlushEntry(s, j) ==> FlushEntry(s.(preKey := key), j)
  {
    hide Block, Separator, DataBytes;
  }

  lemma NoOverflow(block: seq<Entry>)
    requires block == []
    ensures !Overflows(block)
  {
  }

  lemma {:induction false} BuildTracks(es: seq<Entry>)
    ensures Tracks(Build(es))
  {
    hide AddStep, Overflows;
    if es == [] {
      NoOverflow(Current(EMPTY));
    } else {
      BuildTracks(es[..|es| - 1]);
      TracksStep(Build(es[..|es| - 1]), es[|es| - 1]);
    }
  }

  /** Block j grew past 4096 bytes of records with its last entry and not before. */
  ghost predicate JustFull(es: seq<Entry>, ends: seq<nat>, j: nat) {
    && j < |ends| && Start(ends, j) < ends[j] <= |es|
    && var block := es[Start(ends, j)..ends[j]];
       |Records(block, 0, |block|)| > 4096 && |Records(block[..|block| - 1], 0, |block| - 1)| <= 4096
  }

  lemma JustFullExtend(es: seq<Entry>, ends: seq<nat>, es': seq<Entry>, ends': seq<nat>, j: nat)
    requires JustFull(es, ends, j) && es <= es' && ends <= ends'
    ensures JustFull(es', ends', j)
  {
    hide Records;
    assert es'[Start(ends', j)..ends'[j]] == es[Start(ends, j)..ends[j]];
  }

  ghost predicate AllJustFull(s: Sst) {
    && Start(s.ends, |s.ends|) <= |s.es|
    && |Records(Current(s), 0, |Current(s)|)| <= 4096
    && forall j :: 0 <= j < |s.ends| ==> JustFull(s.es, s.ends, j)
  }

  lemma JustFullStep(s: Sst, e: Entry)
    requires AllJustFull(s) && Cuts(s.ends, |s.es|)
    ensures AllJustFull(AddStep(s, e))
  {
    hide Block, Separator, Records, JustFull, Cuts;
    AddCuts(s, e);
    var t := AddStep(s, e);
    assert Current(s.(es := s.es + [e])) == Current(s) + [e];
    forall j | 0 <= j < |t.ends| ensures JustFull(t.es, t.ends, j) {
      if j < |s.ends| { JustFullExtend(s.es, s.ends, t.es, t.ends, j); } else { NewJustFull(s, e); }
    }
    if t.ends != s.ends { NothingCurrent(t); }
  }

  lemma NothingCurrent(s: Sst)
    requires Start(s.ends, |s.ends|) == |s.es|
    ensures Current(s) == [] && Records(Current(s), 0, |Current(s)|) == []
  {
  }

  lemma {:induction false} BuildJustFull(es: seq<Entry>)
    ensures AllJustFull(Build(es))
  {
    hide AddStep, AllJustFull;
    if es == [] {
      EmptyJustFull();
    } else {
      BuildJustFull(es[..|es| - 1]);
      JustFullStep(Build(es[..|es| - 1]), es[|es| - 1]);
    }
  }

  lemma EmptyJustFull()
    ensures AllJustFull(EMPTY)
  {
    NothingCurrent(EMPTY);
  }

  /** A block is flushed by the addition that takes its records past 4096 bytes, and by no other; what is
      left for the end is not past it. */
  lemma BlocksJustFull(es: seq<Entry>)
    ensures forall j :: 0 <= j < |Build(es).ends| ==> JustFull(es, Build(es).ends, j)
    ensures |Records(Current(Build(es)), 0, |Current(Build(es))|)| <= 4096
  {
    hide Build, Records, JustFull;
    BuildJustFull(es);
  }

  lemma NewJustFull(s: Sst, e: Entry)
    requires Start(s.ends, |s.ends|) <= |s.es| && |AddStep(s, e).ends| > |s.ends|
    requires |Records(Current(s), 0, |Current(s)|)| <= 4096
    ensures JustFull(s.es + [e], AddStep(s, e).ends, |s.ends|)
  {
    hide Block, Separator, Records;
    var block := Current(s) + [e];
    assert Current(s.(es := s.es + [e])) == block;
    assert (s.es + [e])[Start(s.ends, |s.ends|)..|s.es| + 1] == block;
    assert block[..|block| - 1] == Current(s);
  }

  /** In a finished table every block but perhaps the last has a flush entry; the last has a flush
      entry if the final addition flushed, and a final entry otherwise. */
  lemma FinishedIndex(es: seq<Entry>)
    requires NoEmptyKey(es)
    ensures var f, n := Finished(es), |Build(es).ends|;
            && |f.index| == |f.ends| <= n + 1
            && (forall j :: 0 <= j < n ==> FlushEntry(f, j))
            && (|f.ends| == n + 1 ==> FinalEntry(f, n))
            && f.offset == |DataBytes(es, f.ends, |f.ends|)|
            && n <= |f.ends|
  {
    hide Block, Overflows, FlushEntry, FinalEntry, DataBytes, Build;
    BuildTracks(es);
    var s := Build(es);
    if Current(s) != [] {
      assert es[|es| - 1] in es;
      FlushExtends(s, Bumped(s.preKey), s.offset);
      SameTracked(Flushed(s, Bumped(s.preKey), s.offset), Bumped(s.preKey));
      NewFinalEntry(s);
    }
  }

  lemma NewFinalEntry(s: Sst)
    requires Tracks(s) && Current(s) != [] && s.preKey != []
    ensures FinalEntry(FinishStep(s), |s.ends|)
  {
    hide Block, FlushEntry;
    FlushExtends(s, Bumped(s.preKey), s.offset);
  }

  // ---------------------------------------------------------------- routing

  /** `FindKeyDBIndex`: the first index entry above the key. */
  function RouteFrom(index: seq<IndexEntry>, key: bytes, i: nat): int
    requires i <= |index|
    decreases |index| - i
  {
    if i == |index| then -1 else if Less(key, index[i].key) then i else RouteFrom(index, key, i + 1)
  }

  method FindKeyDBIndex(indexBlocks: seq<IndexEntry>, key: bytes) returns (index: int)
    ensures index == RouteFrom(indexBlocks, key, 0)
    ensures index == -1 ==> forall i :: 0 <= i < |indexBlocks| ==> !Less(key, indexBlocks[i].key)
    ensures index != -1 ==> 0 <= index < |indexBlocks| && Less(key, indexBlocks[index].key)
                            && forall i :: 0 <= i < index ==> !Less(key, indexBlocks[i].key)
  {
    index := -1;
    for i := 0 to |indexBlocks|
      invariant index == -1
      invariant forall j :: 0 <= j < i ==> !Less(key, indexBlocks[j].key)
      invariant RouteFrom(indexBlocks, key, 0) == RouteFrom(indexBlocks, key, i)
    {
      if Less(key, indexBlocks[i].key) {
        index := i;
        break;
      }
    }
  }

  lemma {:induction false} RouteTo(index: seq<IndexEntry>, key: bytes, i: nat, j: nat)
    requires i <= j <= |index| && forall m :: i <= m < j ==> !Less(key, index[m].key)
    requires j < |index| ==> Less(key, index[j].key)
    ensures RouteFrom(index, key, i) == if j < |index| then j else -1
    decreases j - i
  {
    if i < j { RouteTo(index, key, i + 1, j); }
  }

  /** The guard under which a separator falls strictly above the key before the closing one and at or
      below the closing key. */
  predicate SeparatorFits(key1: bytes, key2: bytes) {
    var cnt := Matches(key1, key2, Min(|key1|, |key2|));
    (cnt == |key1| || key1[cnt] != 0xFF) && !(key1 < key2 && key2[|key1|] < 0x20)
  }

  /** Ascending keys, and a first record that leaves room in its block. */
  ghost predicate Ordered(es: seq<Entry>) {
    NoEmptyKey(es) && KeysAscend(es) && (es != [] ==> !Overflows([es[0]]))
  }

  /** The last byte can be bumped without wrapping. */
  predicate Bumpable(key: bytes) {
    key != [] && key[|key| - 1] != 0xFF
  }

  /** The keys at the end of block j allow an index key: a separator that fits between the last two if
      an addition closed the block, a last byte that can be bumped if it is the block written at the end. */
  ghost predicate IndexKeyFits(es: seq<Entry>, j: nat) {
    && j < |Finished(es).ends|
    && var end := Finished(es).ends[j];
       if j < |Build(es).ends| then
         2 <= end <= |es| && SeparatorFits(es[end - 2].key, es[end - 1].key)
       else
         es != [] && Bumpable(es[|es| - 1].key)
  }

  /** What routing needs of the entries (`RoutesExactly`). */
  ghost predicate Routable(es: seq<Entry>) {
    Ordered(es) && forall j :: 0 <= j < |Finished(es).ends| ==> IndexKeyFits(es, j)
  }

  /** The number of entries below the index key of block j. */
  ghost function Bound(es: seq<Entry>, j: nat): nat
    requires j < |Finished(es).ends|
  {
    if j < |Build(es).ends| then EndsPositive(es, j); Finished(es).ends[j] - 1 else |es|
  }

  lemma EndsPositive(es: seq<Entry>, j: nat)
    requires j < |Finished(es).ends|
    ensures 0 < Finished(es).ends[j] <= |es|
  {
    hide Build, FinishStep;
    assert CutAt(Finished(es).ends, |es|, j);
  }

  /** No block ends with the first entry, so every separator has a key to be above. */
  lemma {:induction false} EndsPastFirst(es: seq<Entry>)
    requires es != [] ==> !Overflows([es[0]])
    ensures forall j :: 0 <= j < |Build(es).ends| ==> Build(es).ends[j] >= 2
  {
    hide Overflows, Block, Separator;
    if es != [] {
      var before := es[..|es| - 1];
      EndsPastFirst(before);
      if |es| == 1 { assert Current(Build(before).(es := Build(before).es + [es[0]])) == [es[0]]; }
    }
  }

  lemma AscendTrans(es: seq<Entry>, t: nat, u: nat, key: bytes)
    requires KeysAscend(es) && t <= u < |es|
    ensures Less(es[u].key, key) ==> Less(es[t].key, key)
    ensures AtMost(key, es[t].key) ==> AtMost(key, es[u].key)
  {
    assert t < u ==> LessAt(es, t, u);
    if Less(es[u].key, key) { Mixed(es[t].key, es[u].key, key); }
    if AtMost(key, es[t].key) { Mixed(key, es[t].key, es[u].key); }
  }

  /** Each index key splits the entries: exactly the first Bound(j) of them are below it. */
  lemma IndexKeySplits(es: seq<Entry>, j: nat, t: nat)
    requires Routable(es) && j < |Finished(es).ends| && t < |es|
    ensures |Finished(es).index| == |Finished(es).ends|
    ensures Less(es[t].key, Finished(es).index[j].key) <==> t < Bound(es, j)
  {
    hide Overflows, Less, FlushEntry, FinalEntry, SeparatorFits, KeysAscend, DataBytes, Finished, Build;
    FinishedIndex(es);
    EndsPositive(es, j);
    EndsNonempty(es, j);
    assert IndexKeyFits(es, j);
    if j < |Build(es).ends| {
      FlushKeySplits(es, Finished(es), j, t);
    } else {
      FinalKeySplits(es, Finished(es), j, t);
    }
  }

  lemma FlushKeySplits(es: seq<Entry>, f: Sst, j: nat, t: nat)
    requires KeysAscend(es) && f.es == es && FlushEntry(f, j) && 2 <= f.ends[j] <= |es| && t < |es|
    requires SeparatorFits(es[f.ends[j] - 2].key, es[f.ends[j] - 1].key)
    ensures Less(es[t].key, f.index[j].key) <==> t < f.ends[j] - 1
  {
    hide Block, Separator, DataBytes, SeparatorFits, Less;
    var c, key := f.ends[j] - 1, f.index[j].key;
    assert LessAt(es, c - 1, c);
    SeparatorBetween(es[c - 1].key, es[c].key);
    if t < c {
      AscendTrans(es, t, c - 1, key);
    } else {
      AscendTrans(es, c, t, key);
      NotBelow(es[t].key, key);
    }
  }

  lemma FinalKeySplits(es: seq<Entry>, f: Sst, j: nat, t: nat)
    requires t < |es| && Bumpable(es[|es| - 1].key) && KeysAscend(es) && f.es == es && FinalEntry(f, j)
    ensures Less(es[t].key, f.index[j].key)
  {
    hide Block, DataBytes, Less, Bumped;
    BumpedAbove(es[|es| - 1].key);
    AscendTrans(es, t, |es| - 1, f.index[j].key);
  }

  lemma SeparatorBetween(key1: bytes, key2: bytes)
    requires Less(key1, key2) && SeparatorFits(key1, key2)
    ensures Less(key1, Separator(key1, key2)) && AtMost(Separator(key1, key2), key2)
  {
    hide Separator;
    SeparatorAbove(key1, key2);
    SeparatorAtMost(key1, key2);
  }

  lemma NotBelow(key: bytes, other: bytes)
    requires AtMost(other, key)
    ensures !Less(key, other)
  {
    Irreflexive(key);
    if other != key { Asymmetric(other, key); }
  }

  /** Entry t is in block j of the finished table. */
  ghost predicate InBlock(es: seq<Entry>, j: nat, t: nat) {
    t < |es| && j < |Finished(es).ends| && Start(Finished(es).ends, j) <= t < Finished(es).ends[j]
  }

  /** Entry t closed its block j: adding it made the block overflow. */
  ghost predicate Closing(es: seq<Entry>, j: nat, t: nat) {
    j < |Build(es).ends| && j < |Finished(es).ends| && t + 1 == Finished(es).ends[j]
  }

  /** An entry of block j is sent to index entry j, unless it is the closing one of a block flushed by
      an addition: that is sent to the next index entry, or nowhere if there is none. */
  ghost predicate Routed(es: seq<Entry>, j: nat, t: nat) {
    t < |es| && RouteFrom(Finished(es).index, es[t].key, 0)
             == if !Closing(es, j, t) then j else if j + 1 < |Finished(es).index| then j + 1 else -1
  }

  lemma RoutesToBlock(es: seq<Entry>, j: nat, t: nat)
    requires Routable(es) && InBlock(es, j, t)
    ensures Routed(es, j, t)
  {
    hide Finished, Build, Routable, Less, Bound, Closing;
    var f := Finished(es);
    IndexKeySplits(es, j, t);
    var to := if Closing(es, j, t) then j + 1 else j;
    forall m | 0 <= m < to ensures !Less(es[t].key, f.index[m].key) {
      IndexKeySplits(es, m, t);
      BoundsBracket(es, m, j, t);
    }
    if to < |f.index| {
      IndexKeySplits(es, to, t);
      BoundsBracket(es, to, j, t);
    }
    RouteTo(f.index, es[t].key, 0, to);
  }

  /** What an answer of the router says about the index keys. */
  lemma {:induction false} RouteSays(index: seq<IndexEntry>, key: bytes, i: nat, j: nat)
    requires i <= j < |index|
    ensures RouteFrom(index, key, i) == j ==> Less(key, index[j].key)
    ensures RouteFrom(index, key, i) > j || RouteFrom(index, key, i) == -1 ==> !Less(key, index[j].key)
    ensures RouteFrom(index, key, i) == -1 || RouteFrom(index, key, i) >= i
    decreases j - i
  {
    hide Less;
    if i < j {
      RouteSays(index, key, i + 1, j);
    } else if i + 1 < |index| {
      RouteBounds(index, key, i + 1);
    }
  }

  lemma {:induction false} RouteBounds(index: seq<IndexEntry>, key: bytes, i: nat)
    requires i <= |index|
    ensures RouteFrom(index, key, i) == -1 || RouteFrom(index, key, i) >= i
    decreases |index| - i
  {
    hide Less;
    if i < |index| { RouteBounds(index, key, i + 1); }
  }

  /** Routing: for ascending entries whose first record leaves room in its block, every key of every
      block goes where it should exactly if the keys at the ends of the blocks allow it. */
  lemma RoutesExactly(es: seq<Entry>)
    requires Ordered(es)
    ensures (forall j, t :: InBlock(es, j, t) ==> Routed(es, j, t))
       <==> forall j :: 0 <= j < |Finished(es).ends| ==> IndexKeyFits(es, j)
  {
    hide Finished, Build, Ordered, InBlock, Routed, IndexKeyFits;
    if forall j :: 0 <= j < |Finished(es).ends| ==> IndexKeyFits(es, j) {
      forall j, t | InBlock(es, j, t) ensures Routed(es, j, t) { RoutesToBlock(es, j, t); }
    }
    if forall j, t :: InBlock(es, j, t) ==> Routed(es, j, t) {
      forall j | 0 <= j < |Finished(es).ends| ensures IndexKeyFits(es, j) { FitsIfRouted(es, j); }
    }
  }

  lemma FitsIfRouted(es: seq<Entry>, j: nat)
    requires Ordered(es) && j < |Finished(es).ends| && forall j, t :: InBlock(es, j, t) ==> Routed(es, j, t)
    ensures IndexKeyFits(es, j)
  {
    hide Finished, Build, Less, FlushEntry, FinalEntry, SeparatorFits, KeysAscend, Overflows, DataBytes;
    FinishedIndex(es);
    EndsPastFirst(es);
    EndsPositive(es, j);
    EndsNonempty(es, j);
    EndsMonotone(es, j, j);
    StartBefore(es, j);
    var f, t := Finished(es), Finished(es).ends[j] - 1;
    assert InBlock(es, j, t) && Routed(es, j, t);
    RouteSays(f.index, es[t].key, 0, j);
    if j < |Build(es).ends| {
      EndBefore(es, j);
      RouteSays(f.index, es[t - 1].key, 0, j);
      FlushKeyFits(es, f, j);
    } else {
      FinalKeyFits(es, f, j);
    }
  }

  lemma StartBefore(es: seq<Entry>, j: nat)
    requires j < |Finished(es).ends|
    ensures Start(Finished(es).ends, j) < Finished(es).ends[j] <= |es|
  {
    hide Build, FinishStep;
    assert CutAt(Finished(es).ends, |es|, j);
  }

  /** The entry before a closing one is routed to the same block's index entry, wherever it is. */
  lemma EndBefore(es: seq<Entry>, j: nat)
    requires j < |Build(es).ends| && j < |Finished(es).ends| && 2 <= Finished(es).ends[j] <= |es|
    requires |Finished(es).index| == |Finished(es).ends| && forall j, t :: InBlock(es, j, t) ==> Routed(es, j, t)
    ensures RouteFrom(Finished(es).index, es[Finished(es).ends[j] - 2].key, 0) == j
  {
    hide Finished, Build;
    var t := Finished(es).ends[j] - 2;
    StartBefore(es, j);
    if Start(Finished(es).ends, j) <= t {
      assert InBlock(es, j, t) && Routed(es, j, t);
    } else {
      StartBefore(es, j - 1);
      EndsNonempty(es, j - 1);
      assert InBlock(es, j - 1, t) && Routed(es, j - 1, t);
    }
  }

  lemma FlushKeyFits(es: seq<Entry>, f: Sst, j: nat)
    requires KeysAscend(es) && f.es == es && FlushEntry(f, j) && 2 <= f.ends[j] <= |es|
    requires Less(es[f.ends[j] - 2].key, f.index[j].key) && !Less(es[f.ends[j] - 1].key, f.index[j].key)
    ensures SeparatorFits(es[f.ends[j] - 2].key, es[f.ends[j] - 1].key)
  {
    hide Block, Separator, DataBytes, Less;
    var c, key := f.ends[j] - 1, f.index[j].key;
    assert LessAt(es, c - 1, c);
    SeparatorAbove(es[c - 1].key, es[c].key);
    SeparatorAtMost(es[c - 1].key, es[c].key);
    Total(es[c].key, key);
  }

  lemma FinalKeyFits(es: seq<Entry>, f: Sst, j: nat)
    requires es != [] && j < |f.index| && Less(es[|es| - 1].key, f.index[j].key) && f.es == es && FinalEntry(f, j)
    ensures Bumpable(es[|es| - 1].key)
  {
    hide Block, DataBytes, Less, Bumped;
    BumpedAbove(es[|es| - 1].key);
  }

  /** The bound of every earlier block is at or before an entry of block j, and so is block j's own
      if the entry is its closing one; that of the block it goes to is past it. */
  lemma BoundsBracket(es: seq<Entry>, m: nat, j: nat, t: nat)
    requires m < |Finished(es).ends| && InBlock(es, j, t)
    ensures m < j ==> Bound(es, m) <= t
    ensures m == j ==> (t < Bound(es, j) <==> !Closing(es, j, t))
    ensures m == j + 1 ==> t < Bound(es, m)
  {
    hide Finished, Build;
    EndsNonempty(es, m);
    EndsNonempty(es, j);
    if m < j { EndsMonotone(es, m, j); } else { EndsMonotone(es, j, m); }
  }

  ghost predicate BelowIndexKey(es: seq<Entry>, j: nat, t: nat) {
    t < |es| && j < |Finished(es).index| && Less(es[t].key, Finished(es).index[j].key)
  }

  /** The keys at the end of block j put its index key above all of it: for a block closed by an addition
      the last key continues the one before it with a byte below 0x20, for the block written at the end
      the last key can be bumped. */
  ghost predicate EndsBelowIndexKey(es: seq<Entry>, j: nat) {
    && j < |Finished(es).ends|
    && var end := Finished(es).ends[j];
       if j < |Build(es).ends| then
         2 <= end <= |es| && es[end - 2].key < es[end - 1].key && es[end - 1].key[|es[end - 2].key|] < 0x20
       else
         es != [] && Bumpable(es[|es| - 1].key)
  }

  /** An index key is above every key of its block, as the reader's comment has it, exactly then. */
  lemma IndexKeyAboveBlock(es: seq<Entry>, j: nat)
    requires Ordered(es) && j < |Finished(es).ends|
    ensures (forall t :: InBlock(es, j, t) ==> BelowIndexKey(es, j, t)) <==> EndsBelowIndexKey(es, j)
  {
    hide Finished, Build, Less, FlushEntry, FinalEntry, KeysAscend, Overflows, DataBytes;
    FinishedIndex(es);
    EndsPastFirst(es);
    EndsPositive(es, j);
    EndsNonempty(es, j);
    StartBefore(es, j);
    var f, last := Finished(es), Finished(es).ends[j] - 1;
    assert InBlock(es, j, last);
    if j < |Build(es).ends| { FlushKeyAbove(es, f, j); } else { FinalKeyAbove(es, f, j); }
    forall t | InBlock(es, j, t) && BelowIndexKey(es, j, last) ensures BelowIndexKey(es, j, t) {
      AscendTrans(es, t, last, f.index[j].key);
    }
  }

  lemma FlushKeyAbove(es: seq<Entry>, f: Sst, j: nat)
    requires KeysAscend(es) && f.es == es && FlushEntry(f, j) && 2 <= f.ends[j] <= |es|
    ensures var key1, key2 := es[f.ends[j] - 2].key, es[f.ends[j] - 1].key;
            Less(key2, f.index[j].key) <==> key1 < key2 && key2[|key1|] < 0x20
  {
    hide Block, Separator, DataBytes, Less;
    var c, key := f.ends[j] - 1, f.index[j].key;
    assert LessAt(es, c - 1, c);
    SeparatorAtMost(es[c - 1].key, es[c].key);
    Total(es[c].key, key);
    if AtMost(key, es[c].key) { NotBelow(es[c].key, key); }
  }

  lemma FinalKeyAbove(es: seq<Entry>, f: Sst, j: nat)
    requires es != [] && j < |f.index| && f.es == es && FinalEntry(f, j)
    ensures Less(es[|es| - 1].key, f.index[j].key) <==> Bumpable(es[|es| - 1].key)
  {
    hide Block, DataBytes, Less, Bumped;
    BumpedAbove(es[|es| - 1].key);
  }

  lemma EndsNonempty(es: seq<Entry>, j: nat)
    requires j < |Finished(es).ends|
    ensures Finished(es).ends[j] <= |es| && |Build(es).ends| <= |Finished(es).ends| <= |Build(es).ends| + 1
    ensures if j < |Build(es).ends| then Finished(es).ends[j] == Build(es).ends[j] else Finished(es).ends[j] == |es|
  {
    hide Build, FinishStep;
    FinishEnds(Build(es));
    EndsPositive(es, j);
  }

  lemma FinishEnds(s: Sst)
    requires Start(s.ends, |s.ends|) <= |s.es|
    ensures FinishStep(s).ends == s.ends || FinishStep(s).ends == s.ends + [|s.es|]
  {
    hide Block;
  }

  lemma EndsMonotone(es: seq<Entry>, i: nat, j: nat)
    requires i <= j < |Finished(es).ends|
    ensures i < j ==> Finished(es).ends[i] <= Start(Finished(es).ends, j) < Finished(es).ends[j]
  {
    hide Build, FinishStep;
    CutsMonotone(Finished(es).ends, |es|, i, j);
  }

  lemma {:induction false} CutsMonotone(ends: seq<nat>, n: nat, i: nat, j: nat)
    requires Cuts(ends, n) && i <= j < |ends|
    ensures i < j ==> ends[i] <= Start(ends, j) < ends[j]
    decreases j
  {
    assert CutAt(ends, n, j);
    if i + 1 < j { CutsMonotone(ends, n, i, j - 1); }
  }

  /** The index keys strictly increase. */
  lemma IndexKeysIncrease(es: seq<Entry>, j: nat)
    requires Routable(es) && j + 1 < |Finished(es).ends|
    ensures |Finished(es).index| == |Finished(es).ends|
    ensures Less(Finished(es).index[j].key, Finished(es).index[j + 1].key)
  {
    hide Finished, Build, Routable;
    var f := Finished(es);
    EndsNonempty(es, j);
    EndsNonempty(es, j + 1);
    EndsMonotone(es, j, j + 1);
    EndsPositive(es, j);
    var t := f.ends[j] - 1;
    IndexKeySplits(es, j, t);
    IndexKeySplits(es, j + 1, t);
    Total(f.index[j].key, es[t].key);
    Mixed(f.index[j].key, es[t].key, f.index[j + 1].key);
  }

  /** Printable keys: every byte in 0x20..0xFE. */
  predicate Plain(key: bytes) {
    forall i :: 0 <= i < |key| ==> 0x20 <= key[i] <= 0xFE
  }

  /** Ascending non-empty plain keys are routable as soon as the first record fits its block. */
  lemma PlainRoutable(es: seq<Entry>)
    requires Ordered(es) && forall e :: e in es ==> Plain(e.key)
    ensures Routable(es)
  {
    hide Overflows, Finished, Build, KeysAscend;
    forall j | 0 <= j < |Finished(es).ends| ensures IndexKeyFits(es, j) {
      EndsPastFirst(es);
      EndsPositive(es, j);
      EndsNonempty(es, j);
      var end := Finished(es).ends[j];
      assert es[|es| - 1] in es && es[end - 1] in es;
      if end >= 2 { assert es[end - 2] in es; }
    }
  }
}
