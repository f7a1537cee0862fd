/**
 The skip list under the memtable: a heap of nodes with one forward pointer per level.

 `nodes` is the ghost level-0 order with the head in front. Everything below the class
 `SkipList` speaks of that sequence alone: a node's height never changes, so where each
 pointer has to lead is a function of the sequence (`Target`), and the heap invariant is
 that every pointer leads there.
 */
module SkipLists {
  import opened Bytes
  import opened Sequences

  const MAX_HEIGHT := 12

  class Node {
    const key: bytes
    const value: bytes
    ghost const height: nat
    var next: seq<Node?>

    constructor (key: bytes, level: nat, value: bytes)
      ensures this.key == key && this.value == value && height == level
      ensures next == seq(level, _ => null)
    {
      this.key, this.value, height := key, value, level;
      next := seq(level, _ => null);
    }
  }

  // ---------------------------------------------------------------- order of the nodes

  /** q is the first node after position p that is taller than i, or |nodes| if none is. */
  ghost predicate IsSucc(nodes: seq<Node>, p: nat, i: nat, q: nat) {
    && p < q <= |nodes|
    && (q < |nodes| ==> nodes[q].height > i)
    && forall r :: p < r < q ==> nodes[r].height <= i
  }

  lemma {:induction false} SuccExists(nodes: seq<Node>, p: nat, i: nat, from: nat) returns (q: nat)
    requires p < from <= |nodes| && forall r :: p < r < from ==> nodes[r].height <= i
    ensures IsSucc(nodes, p, i, q)
    decreases |nodes| - from
  {
    if from == |nodes| || nodes[from].height > i {
      q := from;
    } else {
      q := SuccExists(nodes, p, i, from + 1);
    }
  }

  ghost function Succ(nodes: seq<Node>, p: nat, i: nat): (q: nat)
    requires p < |nodes|
    ensures IsSucc(nodes, p, i, q)
  {
    assert exists q :: IsSucc(nodes, p, i, q) by { var q := SuccExists(nodes, p, i, p + 1); }
    var q :| IsSucc(nodes, p, i, q);
    q
  }

  /** Where the level-i pointer of node p has to lead. */
  ghost function Target(nodes: seq<Node>, p: nat, i: nat): Node?
    requires p < |nodes|
  {
    var q := Succ(nodes, p, i);
    if q < |nodes| then nodes[q] else null
  }

  ghost predicate Ascending(nodes: seq<Node>, p: nat, q: nat) {
    p < |nodes| && q < |nodes| && Less(nodes[p].key, nodes[q].key)
  }

  /** The keys behind the head strictly ascend. */
  ghost predicate Sorted(nodes: seq<Node>) {
    forall p, q :: 1 <= p < q < |nodes| ==> Ascending(nodes, p, q)
  }

  ghost predicate Heights(nodes: seq<Node>, top: nat) {
    && |nodes| > 0
    && nodes[0].height == MAX_HEIGHT
    && 1 <= top <= MAX_HEIGHT
    && forall p :: 1 <= p < |nodes| ==> 1 <= nodes[p].height <= top
  }

  /** The forward pointers of the nodes, as a value. */
  ghost function Links(nodes: seq<Node>): map<Node, seq<Node?>>
    reads set n | n in nodes
  {
    map n | n in nodes :: n.next
  }

  /** The level-i pointers of all the nodes that have one lead where they should. */
  ghost predicate Level(nodes: seq<Node>, links: map<Node, seq<Node?>>, i: nat) {
    forall p :: 0 <= p < |nodes| ==> Right(nodes, links, p, i)
  }

  ghost predicate Right(nodes: seq<Node>, links: map<Node, seq<Node?>>, p: nat, i: nat) {
    p < |nodes| && (i < nodes[p].height ==>
      && nodes[p] in links && |links[nodes[p]]| == nodes[p].height
      && links[nodes[p]][i] == Target(nodes, p, i))
  }

  ghost predicate Levels(nodes: seq<Node>, links: map<Node, seq<Node?>>, lo: nat, hi: nat) {
    forall i :: lo <= i < hi ==> Level(nodes, links, i)
  }

  /** p is the last node before position q with a level-i pointer. */
  ghost predicate IsPred(nodes: seq<Node>, q: nat, i: nat, p: nat) {
    p < q <= |nodes| && nodes[p].height > i && Succ(nodes, p, i) >= q
  }

  /** q is where key belongs: everything before is smaller, everything from q on is not. */
  ghost predicate Place(nodes: seq<Node>, key: bytes, q: nat) {
    && 1 <= q <= |nodes|
    && (forall r :: 1 <= r < q ==> Less(nodes[r].key, key))
    && (forall r :: q <= r < |nodes| ==> !Less(nodes[r].key, key))
  }

  ghost function Plus(nodes: seq<Node>, q: nat, x: Node): (r: seq<Node>)
    requires q <= |nodes|
    ensures |r| == |nodes| + 1
    ensures forall p :: 0 <= p < q ==> r[p] == nodes[p]
    ensures r[q] == x
    ensures forall p :: q < p < |r| ==> r[p] == nodes[p - 1]
  {
    nodes[..q] + [x] + nodes[q..]
  }

  lemma PlusHas(nodes: seq<Node>, q: nat, x: Node)
    requires q <= |nodes|
    ensures forall n :: n in Plus(nodes, q, x) <==> n in nodes || n == x
  {
    forall n | n in nodes ensures n in Plus(nodes, q, x) {
      var p :| 0 <= p < |nodes| && nodes[p] == n;
      assert Plus(nodes, q, x)[if p < q then p else p + 1] == n;
    }
    assert Plus(nodes, q, x)[q] == x;
  }

  ghost function Minus(nodes: seq<Node>, q: nat): (r: seq<Node>)
    requires q < |nodes|
    ensures |r| == |nodes| - 1
    ensures forall p :: 0 <= p < q ==> r[p] == nodes[p]
    ensures forall p :: q <= p < |r| ==> r[p] == nodes[p + 1]
  {
    nodes[..q] + nodes[q + 1..]
  }

  lemma SuccUnique(nodes: seq<Node>, p: nat, i: nat, q: nat)
    requires p < |nodes| && IsSucc(nodes, p, i, q)
    ensures Succ(nodes, p, i) == q
  {
  }

  /** Adding x at q moves a level-i pointer only if x is taller than i, and then only the
      predecessor's: it now leads to x, and x leads where the predecessor did. */
  lemma PlusTarget(nodes: seq<Node>, q: nat, x: Node, p: nat, i: nat)
    requires p < |nodes| && q <= |nodes| && nodes[p].height > i
    ensures var to := Target(Plus(nodes, q, x), if p < q then p else p + 1, i);
            if x.height > i && IsPred(nodes, q, i, p) then
              to == x && Target(Plus(nodes, q, x), q, i) == Target(nodes, p, i)
            else
              to == Target(nodes, p, i)
  {
    hide Plus, Succ;
    var s := Succ(nodes, p, i);
    var all := Plus(nodes, q, x);
    if p < q && s >= q {
      if x.height > i {
        SuccUnique(all, p, i, q);
        SuccUnique(all, q, i, s + 1);
      } else {
        SuccUnique(all, p, i, s + 1);
      }
    } else if p < q {
      SuccUnique(all, p, i, s);
    } else {
      SuccUnique(all, p + 1, i, s + 1);
    }
  }

  /** Taking node q out moves only the pointers that led to q. */
  lemma MinusTarget(nodes: seq<Node>, q: nat, p: nat, i: nat)
    requires p < |nodes| && q < |nodes| && p != q && nodes[p].height > i
    ensures var to := Target(Minus(nodes, q), if p < q then p else p - 1, i);
            if Succ(nodes, p, i) == q then
              to == Target(nodes, q, i)
            else
              to == Target(nodes, p, i)
  {
    hide Minus, Succ;
    var s := Succ(nodes, p, i);
    var rest := Minus(nodes, q);
    if p > q {
      assert forall r :: p - 1 < r < s - 1 ==> rest[r] == nodes[r + 1];
      SuccUnique(rest, p - 1, i, s - 1);
    } else if s < q {
      SuccUnique(rest, p, i, s);
    } else {
      var t := if s == q then Succ(nodes, q, i) else s;
      assert forall r :: p < r < t && r != q ==> nodes[r].height <= i;
      assert forall r :: p < r < t - 1 ==> rest[r].height <= i;
      SuccUnique(rest, p, i, t - 1);
    }
  }

  /** All the level-i targets after adding x at q, given the predecessor c at that level. */
  lemma PlusTargets(nodes: seq<Node>, q: nat, x: Node, c: nat, i: nat)
    requires IsPred(nodes, q, i, c) && x.height > i
    ensures forall t :: 0 <= t <= |nodes| && Plus(nodes, q, x)[t].height > i ==>
              Target(Plus(nodes, q, x), t, i) ==
              if t == c then x else Target(nodes, if t < q then t else if t == q then c else t - 1, i)
  {
    PlusTarget(nodes, q, x, c, i);
    forall t | 0 <= t <= |nodes| && t != q && Plus(nodes, q, x)[t].height > i
      ensures Target(Plus(nodes, q, x), t, i) == if t == c then x else Target(nodes, if t < q then t else t - 1, i)
    {
      var p := if t < q then t else t - 1;
      PlusTarget(nodes, q, x, p, i);
      if IsPred(nodes, q, i, p) { PredUnique(nodes, q, i, p, c); }
    }
  }

  /** The predecessor array is right at level i: it holds the node at position at[i]. */
  ghost predicate Found(nodes: seq<Node>, q: nat, prev: seq<Node?>, at: seq<nat>, i: nat) {
    i < |at| && i < |prev| && IsPred(nodes, q, i, at[i]) && prev[i] == nodes[at[i]]
  }

  ghost predicate FoundFrom(nodes: seq<Node>, q: nat, prev: seq<Node?>, at: seq<nat>, lo: nat, hi: nat) {
    forall i :: lo <= i < hi ==> Found(nodes, q, prev, at, i)
  }

  lemma Record(nodes: seq<Node>, q: nat, prev: seq<Node?>, at: seq<nat>, i: nat, hi: nat, c: nat)
    requires FoundFrom(nodes, q, prev, at, i + 1, hi) && IsPred(nodes, q, i, c)
    requires i < |prev| && i < |at|
    ensures FoundFrom(nodes, q, prev[i := nodes[c]], at[i := c], i, hi)
  {
    var prev', at' := prev[i := nodes[c]], at[i := c];
    forall j | i <= j < hi ensures Found(nodes, q, prev', at', j) {
      assert i < j ==> Found(nodes, q, prev, at, j);
    }
  }

  lemma PredUnique(nodes: seq<Node>, q: nat, i: nat, p: nat, c: nat)
    requires IsPred(nodes, q, i, p) && IsPred(nodes, q, i, c)
    ensures p == c
  {
  }

  /** The node's pointers are as they were, except perhaps at level i. */
  ghost predicate SameBut(n: Node, was: map<Node, seq<Node?>>, now: map<Node, seq<Node?>>, i: nat) {
    && n in was && n in now && |now[n]| == |was[n]|
    && forall j :: 0 <= j < |was[n]| && j != i ==> now[n][j] == was[n][j]
  }

  /** Changing level-i pointers leaves the other levels right. */
  lemma OtherLevels(nodes: seq<Node>, was: map<Node, seq<Node?>>, now: map<Node, seq<Node?>>, i: nat, lo: nat, hi: nat)
    requires Levels(nodes, was, lo, hi) && !(lo <= i < hi)
    requires forall n :: n in nodes ==> SameBut(n, was, now, i)
    ensures Levels(nodes, now, lo, hi)
  {
    forall j | lo <= j < hi ensures Level(nodes, now, j) {
      assert Level(nodes, was, j);
      forall p | 0 <= p < |nodes| ensures Right(nodes, now, p, j) {
        assert SameBut(nodes[p], was, now, i) && Right(nodes, was, p, j);
      }
    }
  }

  lemma MoreLinks(nodes: seq<Node>, some: map<Node, seq<Node?>>, more: map<Node, seq<Node?>>, hi: nat)
    requires Levels(nodes, some, 0, hi)
    requires forall n :: n in nodes && n in some ==> n in more && more[n] == some[n]
    ensures Levels(nodes, more, 0, hi)
  {
    forall i | 0 <= i < hi ensures Level(nodes, more, i) {
      assert Level(nodes, some, i);
      forall p | 0 <= p < |nodes| ensures Right(nodes, more, p, i) {
        assert Right(nodes, some, p, i);
      }
    }
  }

  /** Linking x in at level i: the predecessor's pointer goes to x, x takes over its old one. */
  ghost function Spliced(links: map<Node, seq<Node?>>, pred: Node, x: Node, i: nat): map<Node, seq<Node?>>
    requires pred in links && x in links && i < |links[pred]| && i < |links[x]|
  {
    links[pred := links[pred][i := x]][x := links[x][i := links[pred][i]]]
  }

  lemma SplicedLevel(nodes: seq<Node>, links: map<Node, seq<Node?>>, q: nat, x: Node, c: nat, i: nat)
    requires Distinct(nodes) && x !in nodes && x in links && |links[x]| == x.height > i
    requires IsPred(nodes, q, i, c) && Level(nodes, links, i) && Right(nodes, links, c, i)
    ensures Level(Plus(nodes, q, x), Spliced(links, nodes[c], x, i), i)
  {
    PlusTargets(nodes, q, x, c, i);
    var all, now := Plus(nodes, q, x), Spliced(links, nodes[c], x, i);
    forall p | 0 <= p < |all| ensures Right(all, now, p, i) {
      if p != q {
        var o := if p < q then p else p - 1;
        assert nodes[o] == all[p] && Right(nodes, links, o, i);
        assert if o < c then Apart(nodes, o, c) else c < o ==> Apart(nodes, c, o);
      }
    }
  }

  /** One turn of the linking loop: level i now includes x, the others are as before. */
  lemma SplicedLevels(nodes: seq<Node>, links: map<Node, seq<Node?>>, q: nat, x: Node, c: nat, i: nat)
    requires Distinct(nodes) && x !in nodes && x in links && |links[x]| == x.height > i && i < MAX_HEIGHT
    requires IsPred(nodes, q, i, c) && (forall n :: n in nodes ==> n in links)
    requires Levels(Plus(nodes, q, x), links, 0, i) && Levels(nodes, links, i, MAX_HEIGHT)
    ensures i < |links[nodes[c]]|
    ensures Levels(Plus(nodes, q, x), Spliced(links, nodes[c], x, i), 0, i + 1)
    ensures Levels(nodes, Spliced(links, nodes[c], x, i), i + 1, MAX_HEIGHT)
  {
    assert Level(nodes, links, i) && Right(nodes, links, c, i);
    var all, now := Plus(nodes, q, x), Spliced(links, nodes[c], x, i);
    SplicedLevel(nodes, links, q, x, c, i);
    forall n | n in all ensures SameBut(n, links, now, i) {
    }
    OtherLevels(all, links, now, i, 0, i);
    OtherLevels(nodes, links, now, i, i + 1, MAX_HEIGHT);
  }

  /** A new node does not show at the levels above it. */
  lemma AboveNew(nodes: seq<Node>, links: map<Node, seq<Node?>>, q: nat, x: Node)
    requires q <= |nodes| && Levels(nodes, links, x.height, MAX_HEIGHT)
    ensures Levels(Plus(nodes, q, x), links, x.height, MAX_HEIGHT)
  {
    var all := Plus(nodes, q, x);
    forall i | x.height <= i < MAX_HEIGHT ensures Level(all, links, i) {
      assert Level(nodes, links, i);
      forall p | 0 <= p < |all| ensures Right(all, links, p, i) {
        if i < all[p].height {
          var o := if p < q then p else p - 1;
          assert nodes[o] == all[p] && Right(nodes, links, o, i);
          PlusTarget(nodes, q, x, o, i);
        }
      }
    }
  }

  lemma PredTarget(nodes: seq<Node>, q: nat, c: nat, i: nat)
    requires q < |nodes| && IsPred(nodes, q, i, c) && nodes[q].height > i
    ensures Target(nodes, c, i) == nodes[q]
  {
    SuccUnique(nodes, c, i, q);
  }

  /** All the level-i targets after taking node q out, given its predecessor c at that level. */
  lemma MinusTargets(nodes: seq<Node>, q: nat, c: nat, i: nat)
    requires q < |nodes| && IsPred(nodes, q, i, c) && nodes[q].height > i
    ensures forall p :: 0 <= p < |nodes| - 1 && Minus(nodes, q)[p].height > i ==>
              Target(Minus(nodes, q), p, i) == Target(nodes, if p == c then q else if p < q then p else p + 1, i)
  {
    SuccUnique(nodes, c, i, q);
    forall t | 0 <= t < |nodes| - 1 && Minus(nodes, q)[t].height > i
      ensures Target(Minus(nodes, q), t, i) == Target(nodes, if t == c then q else if t < q then t else t + 1, i)
    {
      var p := if t < q then t else t + 1;
      MinusTarget(nodes, q, p, i);
      if Succ(nodes, p, i) == q { PredUnique(nodes, q, i, p, c); }
    }
  }

  ghost function Unspliced(links: map<Node, seq<Node?>>, pred: Node, x: Node, i: nat): map<Node, seq<Node?>>
    requires pred in links && x in links && i < |links[pred]| && i < |links[x]|
  {
    links[pred := links[pred][i := links[x][i]]]
  }

  lemma UnsplicedLevel(nodes: seq<Node>, links: map<Node, seq<Node?>>, q: nat, c: nat, i: nat)
    requires Distinct(nodes) && q < |nodes| && nodes[q].height > i
    requires IsPred(nodes, q, i, c) && Level(nodes, links, i)
    requires Right(nodes, links, c, i) && Right(nodes, links, q, i)
    ensures Level(Minus(nodes, q), Unspliced(links, nodes[c], nodes[q], i), i)
  {
    MinusTargets(nodes, q, c, i);
    var rest, now := Minus(nodes, q), Unspliced(links, nodes[c], nodes[q], i);
    forall p | 0 <= p < |rest| ensures Right(rest, now, p, i) {
      var o := if p < q then p else p + 1;
      assert nodes[o] == rest[p] && Right(nodes, links, o, i);
      assert if o < c then Apart(nodes, o, c) else c < o ==> Apart(nodes, c, o);
    }
  }

  /** One turn of the unlinking loop: level i no longer includes node q, the others are as before. */
  lemma UnsplicedLevels(nodes: seq<Node>, links: map<Node, seq<Node?>>, q: nat, c: nat, i: nat)
    requires Distinct(nodes) && q < |nodes| && nodes[q].height > i && i < MAX_HEIGHT
    requires IsPred(nodes, q, i, c) && (forall n :: n in nodes ==> n in links)
    requires Levels(Minus(nodes, q), links, 0, i) && Levels(nodes, links, i, MAX_HEIGHT)
    ensures i < |links[nodes[c]]| && i < |links[nodes[q]]| && links[nodes[c]][i] == nodes[q]
    ensures Levels(Minus(nodes, q), Unspliced(links, nodes[c], nodes[q], i), 0, i + 1)
    ensures Levels(nodes, Unspliced(links, nodes[c], nodes[q], i), i + 1, MAX_HEIGHT)
  {
    assert Level(nodes, links, i) && Right(nodes, links, c, i) && Right(nodes, links, q, i);
    PredTarget(nodes, q, c, i);
    var rest, now := Minus(nodes, q), Unspliced(links, nodes[c], nodes[q], i);
    UnsplicedLevel(nodes, links, q, c, i);
    forall n | n in nodes ensures SameBut(n, links, now, i) {
    }
    OtherLevels(rest, links, now, i, 0, i);
    OtherLevels(nodes, links, now, i, i + 1, MAX_HEIGHT);
  }

  lemma MinusTargetsAbove(nodes: seq<Node>, q: nat, i: nat)
    requires q < |nodes| && nodes[q].height <= i
    ensures forall p :: 0 <= p < |nodes| - 1 && Minus(nodes, q)[p].height > i ==>
              Target(Minus(nodes, q), p, i) == Target(nodes, if p < q then p else p + 1, i)
  {
    forall t | 0 <= t < |nodes| - 1 && Minus(nodes, q)[t].height > i
      ensures Target(Minus(nodes, q), t, i) == Target(nodes, if t < q then t else t + 1, i)
    {
      MinusTarget(nodes, q, if t < q then t else t + 1, i);
    }
  }

  /** The levels above a node do not miss it. */
  lemma AboveOld(nodes: seq<Node>, links: map<Node, seq<Node?>>, q: nat)
    requires q < |nodes| && Levels(nodes, links, nodes[q].height, MAX_HEIGHT)
    ensures Levels(Minus(nodes, q), links, nodes[q].height, MAX_HEIGHT)
  {
    var rest := Minus(nodes, q);
    forall i | nodes[q].height <= i < MAX_HEIGHT ensures Level(rest, links, i) {
      assert Level(nodes, links, i);
      MinusTargetsAbove(nodes, q, i);
      forall p | 0 <= p < |rest| ensures Right(rest, links, p, i) {
        var o := if p < q then p else p + 1;
        assert nodes[o] == rest[p] && Right(nodes, links, o, i);
      }
    }
  }

  // ---------------------------------------------------------------- keys

  lemma {:induction false} FindPlace(nodes: seq<Node>, key: bytes, from: nat) returns (q: nat)
    requires Sorted(nodes) && 1 <= from <= |nodes|
    requires forall r :: 1 <= r < from ==> Less(nodes[r].key, key)
    ensures Place(nodes, key, q)
    decreases |nodes| - from
  {
    if from < |nodes| && Less(nodes[from].key, key) {
      q := FindPlace(nodes, key, from + 1);
    } else {
      q := from;
      forall r | from <= r < |nodes| ensures !Less(nodes[r].key, key) {
        if Less(nodes[r].key, key) {
          assert from < r ==> Ascending(nodes, from, r);
          Mixed(nodes[from].key, nodes[r].key, key);
        }
      }
    }
  }

  /** A key is in the list exactly if it stands at its place. */
  lemma OnlyAtPlace(nodes: seq<Node>, key: bytes, q: nat)
    requires Sorted(nodes) && Place(nodes, key, q)
    ensures forall p :: 1 <= p < |nodes| && p != q ==> nodes[p].key != key
  {
    Irreflexive(key);
    forall p | q < p < |nodes| ensures nodes[p].key != key {
      assert Ascending(nodes, q, p);
    }
  }

  /** The map the nodes 1..n stand for. */
  ghost function MapTo(nodes: seq<Node>, n: nat): map<bytes, bytes>
    requires n <= |nodes|
  {
    if n <= 1 then map[] else MapTo(nodes, n - 1)[nodes[n - 1].key := nodes[n - 1].value]
  }

  ghost function MapOf(nodes: seq<Node>): map<bytes, bytes> {
    MapTo(nodes, |nodes|)
  }

  lemma {:induction false} MapToAt(nodes: seq<Node>, key: bytes, q: nat, n: nat)
    requires Sorted(nodes) && Place(nodes, key, q) && n <= |nodes|
    ensures key in MapTo(nodes, n) <==> q < n && nodes[q].key == key
    ensures key in MapTo(nodes, n) ==> MapTo(nodes, n)[key] == nodes[q].value
  {
    OnlyAtPlace(nodes, key, q);
    if n > 1 { MapToAt(nodes, key, q, n - 1); }
  }

  /** A search that knows the place of a key knows what the map has for it. */
  lemma MapAt(nodes: seq<Node>, key: bytes, q: nat)
    requires Sorted(nodes) && Place(nodes, key, q)
    ensures key in MapOf(nodes) <==> q < |nodes| && nodes[q].key == key
    ensures key in MapOf(nodes) ==> MapOf(nodes)[key] == nodes[q].value
    ensures forall p :: 1 <= p < |nodes| && p != q ==> nodes[p].key != key
  {
    OnlyAtPlace(nodes, key, q);
    MapToAt(nodes, key, q, |nodes|);
  }

  lemma {:induction false} PlusMapTo(nodes: seq<Node>, q: nat, x: Node, n: nat)
    requires 1 <= q <= |nodes| && n <= |nodes|
    requires forall p :: 1 <= p < |nodes| ==> nodes[p].key != x.key
    ensures n <= q ==> MapTo(Plus(nodes, q, x), n) == MapTo(nodes, n)
    ensures n >= q ==> MapTo(Plus(nodes, q, x), n + 1) == MapTo(nodes, n)[x.key := x.value]
    ensures x.key !in MapTo(nodes, n)
  {
    if n > 1 { PlusMapTo(nodes, q, x, n - 1); }
  }

  lemma PlusMap(nodes: seq<Node>, q: nat, x: Node)
    requires 1 <= q <= |nodes|
    requires forall p :: 1 <= p < |nodes| ==> nodes[p].key != x.key
    ensures MapOf(Plus(nodes, q, x)) == MapOf(nodes)[x.key := x.value]
    ensures x.key !in MapOf(nodes)
  {
    PlusMapTo(nodes, q, x, |nodes|);
  }

  /** Bytes of the keys and values of the nodes 1..n. */
  ghost function UsageTo(nodes: seq<Node>, n: nat): nat
    requires n <= |nodes|
  {
    if n <= 1 then 0 else UsageTo(nodes, n - 1) + |nodes[n - 1].key| + |nodes[n - 1].value|
  }

  ghost function Usage(nodes: seq<Node>): nat {
    UsageTo(nodes, |nodes|)
  }

  lemma {:induction false} PlusUsageTo(nodes: seq<Node>, q: nat, x: Node, n: nat)
    requires 1 <= q <= |nodes| && n <= |nodes|
    ensures n <= q ==> UsageTo(Plus(nodes, q, x), n) == UsageTo(nodes, n)
    ensures n >= q ==> UsageTo(Plus(nodes, q, x), n + 1) == UsageTo(nodes, n) + |x.key| + |x.value|
  {
    if n > 1 { PlusUsageTo(nodes, q, x, n - 1); }
  }

  lemma PlusUsage(nodes: seq<Node>, q: nat, x: Node)
    requires 1 <= q <= |nodes|
    ensures Usage(Plus(nodes, q, x)) == Usage(nodes) + |x.key| + |x.value|
  {
    PlusUsageTo(nodes, q, x, |nodes|);
  }

  lemma MinusPlus(nodes: seq<Node>, q: nat)
    requires q < |nodes|
    ensures Plus(Minus(nodes, q), q, nodes[q]) == nodes
  {
  }

  lemma PlusKeys(nodes: seq<Node>, q: nat, x: Node)
    requires Sorted(nodes) && Distinct(nodes) && x !in nodes
    requires Place(nodes, x.key, q) && (q < |nodes| ==> nodes[q].key != x.key)
    ensures Sorted(Plus(nodes, q, x)) && Distinct(Plus(nodes, q, x))
  {
    var all := Plus(nodes, q, x);
    forall p, r | 0 <= p < r < |all| ensures Apart(all, p, r) && (1 <= p ==> Ascending(all, p, r)) {
      if p == q {
        Total(nodes[q].key, x.key);
        assert q < r - 1 ==> Ascending(nodes, q, r - 1);
        Mixed(x.key, nodes[q].key, nodes[r - 1].key);
      } else if r != q {
        var o, t := if p < q then p else p - 1, if r < q then r else r - 1;
        assert Apart(nodes, o, t) && (1 <= o ==> Ascending(nodes, o, t));
      }
    }
  }

  lemma MinusKeys(nodes: seq<Node>, q: nat)
    requires q < |nodes| && Sorted(nodes) && Distinct(nodes)
    ensures 1 <= q ==> Sorted(Minus(nodes, q))
    ensures Distinct(Minus(nodes, q))
  {
    var rest := Minus(nodes, q);
    forall p, r | 0 <= p < r < |rest| ensures Apart(rest, p, r) && (1 <= p && 1 <= q ==> Ascending(rest, p, r)) {
      var o, t := if p < q then p else p + 1, if r < q then r else r + 1;
      assert Apart(nodes, o, t) && (1 <= o ==> Ascending(nodes, o, t));
    }
  }

  lemma MinusMapUsage(nodes: seq<Node>, q: nat)
    requires 1 <= q < |nodes| && Sorted(nodes)
    ensures MapOf(Minus(nodes, q)) == MapOf(nodes) - {nodes[q].key}
    ensures Usage(Minus(nodes, q)) == Usage(nodes) - |nodes[q].key| - |nodes[q].value|
  {
    var rest, x := Minus(nodes, q), nodes[q];
    MinusPlus(nodes, q);
    forall p | 1 <= p < |rest| ensures rest[p].key != x.key {
      Irreflexive(x.key);
      assert if p < q then Ascending(nodes, p, q) else Ascending(nodes, q, p + 1);
    }
    PlusMap(rest, q, x);
    PlusUsage(rest, q, x);
  }

  // ---------------------------------------------------------------- what a walk sees

  /** The nodes met by following level-i pointers from n, at most `fuel` of them. */
  ghost function Chain(links: map<Node, seq<Node?>>, n: Node?, i: nat, fuel: nat): seq<Node> {
    if n == null || n !in links || i >= |links[n]| || fuel == 0 then []
    else [n] + Chain(links, links[n][i], i, fuel - 1)
  }

  /** The nodes from position p on that are taller than i. */
  ghost function Taller(nodes: seq<Node>, p: nat, i: nat): seq<Node>
    requires p <= |nodes|
    decreases |nodes| - p
  {
    if p == |nodes| then []
    else if nodes[p].height > i then [nodes[p]] + Taller(nodes, p + 1, i)
    else Taller(nodes, p + 1, i)
  }

  lemma {:induction false} TallerSkips(nodes: seq<Node>, p: nat, q: nat, i: nat)
    requires p <= q <= |nodes| && forall r :: p <= r < q ==> nodes[r].height <= i
    ensures Taller(nodes, p, i) == Taller(nodes, q, i)
    decreases q - p
  {
    if p < q { TallerSkips(nodes, p + 1, q, i); }
  }

  /** Every chain ends, after at most |nodes| steps, and is exactly the nodes taller than its level. */
  lemma {:induction false} ChainFrom(nodes: seq<Node>, links: map<Node, seq<Node?>>, p: nat, i: nat, fuel: nat)
    requires Level(nodes, links, i) && Right(nodes, links, p, i) && nodes[p].height > i && fuel >= |nodes| - p
    ensures Chain(links, links[nodes[p]][i], i, fuel) == Taller(nodes, p + 1, i)
    decreases |nodes| - p
  {
    var q := Succ(nodes, p, i);
    TallerSkips(nodes, p + 1, q, i);
    if q < |nodes| {
      assert Right(nodes, links, q, i);
      ChainFrom(nodes, links, q, i, fuel - 1);
    }
  }

  lemma {:induction false} NoneTaller(nodes: seq<Node>, p: nat, i: nat)
    requires p <= |nodes| && forall r :: p <= r < |nodes| ==> nodes[r].height <= i
    ensures Taller(nodes, p, i) == []
    decreases |nodes| - p
  {
    TallerSkips(nodes, p, |nodes|, i);
  }

  /** The level-i chain from the head is the level-0 order restricted to nodes taller than i;
      at and above the list's height it is empty. */
  lemma ChainsAreSublists(nodes: seq<Node>, head: Node, top: nat, links: map<Node, seq<Node?>>, i: nat)
    requires Shape(nodes, head, top, links) && i < MAX_HEIGHT
    ensures head in links && i < |links[head]|
    ensures Chain(links, links[head][i], i, |nodes|) == Taller(nodes, 1, i)
    ensures Chain(links, links[head][0], 0, |nodes|) == nodes[1..]
    ensures i >= top ==> links[head][i] == null && Taller(nodes, 1, i) == []
  {
    assert Level(nodes, links, i) && Level(nodes, links, 0);
    assert Right(nodes, links, 0, i) && Right(nodes, links, 0, 0);
    ChainFrom(nodes, links, 0, i, |nodes|);
    ChainFrom(nodes, links, 0, 0, |nodes|);
    AllTaller(nodes, 1);
    if i >= top {
      assert links[head][i] == Target(nodes, 0, i);
      NoneTaller(nodes, 1, i);
    }
  }

  /** The bottom level leads from each node to the next. */
  lemma NextAtBottom(nodes: seq<Node>, head: Node, top: nat, links: map<Node, seq<Node?>>, p: nat)
    requires Shape(nodes, head, top, links) && p < |nodes|
    ensures nodes[p] in links && |links[nodes[p]]| > 0
    ensures links[nodes[p]][0] == if p + 1 < |nodes| then nodes[p + 1] else null
  {
    assert Level(nodes, links, 0) && Right(nodes, links, p, 0);
    SuccUnique(nodes, p, 0, p + 1);
  }

  lemma {:induction false} AllTaller(nodes: seq<Node>, p: nat)
    requires p <= |nodes| && forall r :: p <= r < |nodes| ==> nodes[r].height > 0
    ensures Taller(nodes, p, 0) == nodes[p..]
    decreases |nodes| - p
  {
    if p < |nodes| { AllTaller(nodes, p + 1); }
  }

  /** The pairs from position p on, as the iterator delivers them. */
  ghost function Pairs(nodes: seq<Node>, p: nat): seq<Pair>
    requires p <= |nodes|
    decreases |nodes| - p
  {
    if p == |nodes| then [] else [Pair(nodes[p].key, nodes[p].value)] + Pairs(nodes, p + 1)
  }

  lemma {:induction false} PairsAt(nodes: seq<Node>, p: nat)
    requires p <= |nodes|
    ensures |Pairs(nodes, p)| == |nodes| - p
    ensures forall j :: 0 <= j < |nodes| - p ==> Pairs(nodes, p)[j] == Pair(nodes[p + j].key, nodes[p + j].value)
    decreases |nodes| - p
  {
    if p < |nodes| {
      PairsAt(nodes, p + 1);
      forall j | 0 <= j < |nodes| - p
        ensures Pairs(nodes, p)[j] == Pair(nodes[p + j].key, nodes[p + j].value)
      {
        assert j > 0 ==> Pairs(nodes, p)[j] == Pairs(nodes, p + 1)[j - 1];
      }
    }
  }

  function TotalBytes(pairs: seq<Pair>): nat {
    if pairs == [] then 0 else |pairs[0].key| + |pairs[0].value| + TotalBytes(pairs[1..])
  }

  lemma {:induction false} UsageSplit(nodes: seq<Node>, p: nat)
    requires 1 <= p <= |nodes|
    ensures Usage(nodes) == UsageTo(nodes, p) + TotalBytes(Pairs(nodes, p))
    decreases |nodes| - p
  {
    if p < |nodes| {
      UsageSplit(nodes, p + 1);
      assert Pairs(nodes, p)[1..] == Pairs(nodes, p + 1);
    }
  }

  lemma {:induction false} MapSize(nodes: seq<Node>, n: nat)
    requires Sorted(nodes) && 1 <= n <= |nodes|
    ensures |MapTo(nodes, n)| == n - 1
  {
    if n > 1 {
      MapSize(nodes, n - 1);
      var q := FindPlace(nodes, nodes[n - 1].key, 1);
      MapToAt(nodes, nodes[n - 1].key, q, n - 1);
      OnlyAtPlace(nodes, nodes[n - 1].key, q);
    }
  }

  /** `pairs` lists the map's associations once each, keys strictly ascending. */
  ghost predicate Enumerates(pairs: seq<Pair>, m: map<bytes, bytes>) {
    && (forall i, j :: 0 <= i < j < |pairs| ==> Less(pairs[i].key, pairs[j].key))
    && (forall i :: 0 <= i < |pairs| ==> pairs[i].key in m && m[pairs[i].key] == pairs[i].value)
    && (forall k :: k in m ==> exists i :: 0 <= i < |pairs| && pairs[i].key == k)
  }

  lemma PairsAscend(nodes: seq<Node>)
    requires nodes != [] && Sorted(nodes)
    ensures forall i, j :: 0 <= i < j < |Pairs(nodes, 1)| ==> Less(Pairs(nodes, 1)[i].key, Pairs(nodes, 1)[j].key)
  {
    var pairs := Pairs(nodes, 1);
    PairsAt(nodes, 1);
    forall i, j | 0 <= i < j < |pairs| ensures Less(pairs[i].key, pairs[j].key) {
      assert Ascending(nodes, i + 1, j + 1);
    }
  }

  lemma PairInMap(nodes: seq<Node>, p: nat)
    requires Sorted(nodes) && 1 <= p < |nodes|
    ensures nodes[p].key in MapOf(nodes) && MapOf(nodes)[nodes[p].key] == nodes[p].value
  {
    var q := FindPlace(nodes, nodes[p].key, 1);
    MapAt(nodes, nodes[p].key, q);
  }

  lemma KeyInPairs(nodes: seq<Node>, k: bytes) returns (i: nat)
    requires nodes != [] && Sorted(nodes) && k in MapOf(nodes)
    ensures i < |Pairs(nodes, 1)| && Pairs(nodes, 1)[i].key == k
  {
    PairsAt(nodes, 1);
    var q := FindPlace(nodes, k, 1);
    MapAt(nodes, k, q);
    i := q - 1;
  }

  lemma PairsEnumerate(nodes: seq<Node>)
    requires nodes != [] && Sorted(nodes)
    ensures Enumerates(Pairs(nodes, 1), MapOf(nodes))
  {
    var pairs, m := Pairs(nodes, 1), MapOf(nodes);
    PairsAscend(nodes);
    forall i | 0 <= i < |pairs| ensures pairs[i].key in m && m[pairs[i].key] == pairs[i].value {
      PairsAt(nodes, 1);
      PairInMap(nodes, i + 1);
    }
    forall k | k in m ensures exists i :: 0 <= i < |pairs| && pairs[i].key == k {
      var i := KeyInPairs(nodes, k);
    }
  }

  /** The counters and the iteration order, in terms of the map: the pairs met at level 0 enumerate
      it, `size` counts them and `mem_usage` is their bytes. */
  lemma ListEnumeratesMap(nodes: seq<Node>)
    requires nodes != [] && Sorted(nodes)
    ensures Enumerates(Pairs(nodes, 1), MapOf(nodes))
    ensures |MapOf(nodes)| == |nodes| - 1
    ensures Usage(nodes) == TotalBytes(Pairs(nodes, 1))
  {
    PairsEnumerate(nodes);
    MapSize(nodes, |nodes|);
    UsageSplit(nodes, 1);
  }

  // ---------------------------------------------------------------- the list

  /** The invariant of the structure: heights, order, and every pointer of every level. */
  ghost predicate Shape(nodes: seq<Node>, head: Node, top: nat, links: map<Node, seq<Node?>>) {
    && Heights(nodes, top) && nodes[0] == head
    && Distinct(nodes) && Sorted(nodes)
    && Levels(nodes, links, 0, MAX_HEIGHT)
  }

  class SkipList {
    const head: Node
    var maxLevel: nat
    var size: int
    var memUsage: int
    ghost var nodes: seq<Node>

    ghost predicate Valid()
      reads this, set n | n in nodes
    {
      && Structure()
      && size == |nodes| - 1 && memUsage == Usage(nodes)
    }

    /** The sorted map the list implements. */
    ghost function Contents(): map<bytes, bytes>
      reads this
    {
      MapOf(nodes)
    }

    ghost predicate Structure()
      reads this, set n | n in nodes
    {
      Shape(nodes, head, maxLevel, Links(nodes))
    }

    constructor ()
      ensures Valid() && fresh(nodes) && Contents() == map[]
    {
      head := new Node([], MAX_HEIGHT, []);
      maxLevel, size, memUsage := 1, 0, 0;
      new;
      nodes := [head];
    }

    method RandomLevel() returns (level: nat)
      ensures 1 <= level <= MAX_HEIGHT
    {
      level := 1;
      var odd: bool := *;
      while level < MAX_HEIGHT && odd
        invariant 1 <= level <= MAX_HEIGHT
      {
        level := level + 1;
        odd := *;
      }
    }

    method Contains(key: bytes) returns (found: bool)
      requires Valid()
      ensures found <==> key in Contents()
    {
      var level := maxLevel - 1;
      var cur := head;
      ghost var c: nat := 0;
      ghost var q := FindPlace(nodes, key, 1);
      MapAt(nodes, key, q);
      while true
        invariant 0 <= level < maxLevel
        invariant c < q && cur == nodes[c] && level < cur.height
        decreases level, |nodes| - c
      {
        assert Level(nodes, Links(nodes), level) && Right(nodes, Links(nodes), c, level);
        var next := cur.next[level];
        if next == null {
          if level == 0 {
            return false;
          } else {
            level := level - 1;
          }
        } else if next.key == key {
          return true;
        } else if Less(next.key, key) {
          c := Succ(nodes, c, level);
          cur := next;
        } else {
          assert Less(key, next.key) by { Total(key, next.key); }
          if level == 0 {
            return false;
          } else {
            level := level - 1;
          }
        }
      }
    }

    method Get(key: bytes) returns (found: Option<bytes>)
      requires Valid()
      ensures found == if key in Contents() then Some(Contents()[key]) else None
    {
      var level := maxLevel - 1;
      var cur := head;
      ghost var c: nat := 0;
      ghost var q := FindPlace(nodes, key, 1);
      MapAt(nodes, key, q);
      while true
        invariant 0 <= level < maxLevel
        invariant c < q && cur == nodes[c] && level < cur.height
        decreases level, |nodes| - c
      {
        assert Level(nodes, Links(nodes), level) && Right(nodes, Links(nodes), c, level);
        var next := cur.next[level];
        if next == null {
          if level == 0 {
            return None;
          } else {
            level := level - 1;
          }
        } else if next.key == key {
          return Some(next.value);
        } else if Less(next.key, key) {
          c := Succ(nodes, c, level);
          cur := next;
        } else {
          assert Less(key, next.key) by { Total(key, next.key); }
          if level == 0 {
            return None;
          } else {
            level := level - 1;
          }
        }
      }
    }

    /** For every level in use, `prev` gets the last node before the place of `key`. */
    method FindPrevNode(key: bytes, unset: seq<Node?>, ghost q: nat)
      returns (prev: seq<Node?>, ghost at: seq<nat>)
      requires Structure() && |unset| == MAX_HEIGHT && Place(nodes, key, q)
      ensures |at| == maxLevel && |prev| == MAX_HEIGHT
      ensures FoundFrom(nodes, q, prev, at, 0, maxLevel)
      ensures forall i :: maxLevel <= i < MAX_HEIGHT ==> prev[i] == unset[i]
    {
      prev := unset;
      var level := maxLevel - 1;
      var cur := head;
      ghost var c: nat := 0;
      at := seq(maxLevel, _ => 0);
      while true
        invariant 0 <= level < maxLevel == |at|
        invariant c < q && cur == nodes[c] && level < cur.height
        invariant |prev| == MAX_HEIGHT && forall i :: maxLevel <= i < MAX_HEIGHT ==> prev[i] == unset[i]
        invariant FoundFrom(nodes, q, prev, at, level + 1, maxLevel)
        decreases level, |nodes| - c
      {
        assert Level(nodes, Links(nodes), level) && Right(nodes, Links(nodes), c, level);
        var next := cur.next[level];
        if next == null || !Less(next.key, key) {
          Record(nodes, q, prev, at, level, maxLevel, c);
          prev := prev[level := cur];
          at := at[level := c];
          if level > 0 {
            level := level - 1;
          } else {
            return;
          }
        } else {
          c := Succ(nodes, c, level);
          cur := next;
        }
      }
    }

    /** One turn of the loop that links a new node in. */
    method LinkIn(node: Node, i: nat, prev: Node?, ghost pred: Node, ghost all: seq<Node>)
      requires pred in all && node in all
      requires pred == if prev == null then head else prev
      requires node != pred && i < |node.next| && i < |pred.next|
      requires prev == null ==> pred.next[i] == null
      modifies node`next, pred`next
      ensures node.next == old(node.next)[i := old(pred.next[i])]
      ensures Links(all) == Spliced(old(Links(all)), pred, node, i)
    {
      if prev == null {
        node.next := node.next[i := null];
        head.next := head.next[i := node];
      } else {
        node.next := node.next[i := prev.next[i]];
        prev.next := prev.next[i := node];
      }
    }

    /** The linking loop. `used` is the list's height before the new node. */
    method LinkAll(node: Node, prev: seq<Node?>, ghost q: nat, ghost at: seq<nat>, ghost used: nat)
      requires nodes != [] && head == nodes[0] && Heights(nodes, used) && Distinct(nodes) && node !in nodes
      requires 1 <= q <= |nodes| && node.height == |node.next| <= MAX_HEIGHT == |prev|
      requires FoundFrom(nodes, q, prev, at, 0, used)
      requires forall i :: used <= i < MAX_HEIGHT ==> prev[i] == null
      requires Levels(nodes, Links(nodes), 0, MAX_HEIGHT)
      modifies node, nodes
      ensures Levels(Plus(nodes, q, node), Links(Plus(nodes, q, node)), 0, MAX_HEIGHT)
    {
      ghost var all := Plus(nodes, q, node);
      PlusHas(nodes, q, node);
      MoreLinks(nodes, Links(nodes), Links(all), MAX_HEIGHT);
      for i := 0 to |node.next|
        invariant |node.next| == node.height
        invariant Levels(all, Links(all), 0, i)
        invariant Levels(nodes, Links(all), i, MAX_HEIGHT)
      {
        ghost var links := Links(all);
        assert i < used ==> Found(nodes, q, prev, at, i);
        ghost var c := if i < used then at[i] else 0;
        assert Level(nodes, links, i) && Right(nodes, links, c, i);
        SplicedLevels(nodes, links, q, node, c, i);
        LinkIn(node, i, prev[i], nodes[c], all);
      }
      AboveNew(nodes, Links(all), q, node);
    }

    /** The part of Insert that changes the structure: predecessors, height, new node, links. */
    method AddNode(key: bytes, value: bytes, ghost q: nat) returns (node: Node)
      requires Structure() && Place(nodes, key, q) && (q < |nodes| ==> nodes[q].key != key)
      modifies this`maxLevel, this`nodes, nodes
      ensures Structure() && nodes == Plus(old(nodes), q, node)
      ensures fresh(node) && node.key == key && node.value == value
    {
      var prev: seq<Node?> := seq(MAX_HEIGHT, _ => null);
      ghost var at;
      prev, at := FindPrevNode(key, prev, q);
      ghost var used := maxLevel;
      var level := RandomLevel();
      maxLevel := if level > maxLevel then level else maxLevel;
      node := new Node(key, level, value);
      assert Links(nodes) == old(Links(nodes));
      LinkAll(node, prev, q, at, used);
      PlusKeys(nodes, q, node);
      nodes := Plus(nodes, q, node);
    }

    method Insert(key: bytes, value: bytes)
      requires Valid()
      modifies this, nodes
      ensures Valid() && forall p :: 0 <= p < |nodes| ==> nodes[p] in old(nodes) || fresh(nodes[p])
      ensures Contents() == if key in old(Contents()) then old(Contents()) else old(Contents())[key := value]
    {
      hide Levels, Links;
      var present := Contains(key);
      if present {
        return;
      }
      size := size + 1;
      memUsage := memUsage + |key|;
      memUsage := memUsage + |value|;

      ghost var q := FindPlace(nodes, key, 1);
      MapAt(nodes, key, q);
      var node := AddNode(key, value, q);
      PlusMap(old(nodes), q, node);
      PlusUsage(old(nodes), q, node);
    }

    /** The search of Delete: predecessors at the levels of the node that holds the key. */
    method FindTarget(key: bytes, unset: seq<Node?>, ghost q: nat)
      returns (prev: seq<Node?>, levelOfTarget: int, ghost at: seq<nat>)
      requires Structure() && |unset| == MAX_HEIGHT
      requires Place(nodes, key, q) && q < |nodes| && nodes[q].key == key
      ensures |prev| == MAX_HEIGHT && levelOfTarget == nodes[q].height
      ensures FoundFrom(nodes, q, prev, at, 0, nodes[q].height)
    {
      prev, levelOfTarget := unset, -1;
      var level := maxLevel - 1;
      var cur := head;
      ghost var c: nat := 0;
      MapAt(nodes, key, q);
      at := seq(maxLevel, _ => 0);
      while true
        invariant 0 <= level < maxLevel == |at| && |prev| == MAX_HEIGHT
        invariant c < q && cur == nodes[c] && level < cur.height
        invariant FoundFrom(nodes, q, prev, at, level + 1, nodes[q].height)
        invariant level + 1 < nodes[q].height ==> levelOfTarget == nodes[q].height
        decreases level, |nodes| - c
      {
        assert Level(nodes, Links(nodes), level) && Right(nodes, Links(nodes), c, level);
        assert Right(nodes, Links(nodes), q, level);
        assert level < nodes[q].height ==> Succ(nodes, c, level) <= q;
        var next := cur.next[level];
        if next == null {
          if level == 0 {
            assert false;
            break;
          } else {
            level := level - 1;
          }
        } else if next.key == key {
          levelOfTarget := |next.next|;
          Record(nodes, q, prev, at, level, nodes[q].height, c);
          prev := prev[level := cur];
          at := at[level := c];
          level := level - 1;
          if level < 0 {
            break;
          }
        } else if Less(next.key, key) {
          c := Succ(nodes, c, level);
          cur := next;
        } else {
          assert Less(key, next.key) by { Total(key, next.key); }
          prev := prev[level := cur];
          level := level - 1;
          if level < 0 {
            break;
          }
        }
      }
    }

    /** The unlinking loop. */
    method Unlink(prev: seq<Node?>, levelOfTarget: int, ghost q: nat, ghost at: seq<nat>)
      requires 1 <= q < |nodes| && |prev| == MAX_HEIGHT && levelOfTarget == nodes[q].height <= MAX_HEIGHT
      requires Distinct(nodes) && FoundFrom(nodes, q, prev, at, 0, nodes[q].height)
      requires Levels(nodes, Links(nodes), 0, MAX_HEIGHT)
      modifies nodes
      ensures Levels(Minus(nodes, q), Links(Minus(nodes, q)), 0, MAX_HEIGHT)
    {
      ghost var rest := Minus(nodes, q);
      for i := 0 to levelOfTarget
        invariant Levels(rest, Links(nodes), 0, i)
        invariant Levels(nodes, Links(nodes), i, MAX_HEIGHT)
      {
        ghost var links := Links(nodes);
        assert Found(nodes, q, prev, at, i);
        UnsplicedLevels(nodes, links, q, at[i], i);
        if prev[i] != null {
          assert prev[i].next[i] != null;
          prev[i].next := prev[i].next[i := prev[i].next[i].next[i]];
        }
        assert Links(nodes) == Unspliced(links, nodes[at[i]], nodes[q], i);
      }
      AboveOld(nodes, Links(nodes), q);
      MoreLinks(rest, Links(nodes), Links(rest), MAX_HEIGHT);
    }

    /** The part of Delete that changes the structure: search, memory count, unlinking. */
    method RemoveNode(key: bytes, ghost q: nat)
      requires Structure() && Place(nodes, key, q) && q < |nodes| && nodes[q].key == key
      modifies this`memUsage, this`nodes, nodes
      ensures Structure() && nodes == Minus(old(nodes), q)
      ensures memUsage == old(memUsage) - |key| - |old(nodes)[q].value|
    {
      hide MapOf, Usage;
      var prev: seq<Node?> := seq(MAX_HEIGHT, _ => null);
      var levelOfTarget;
      ghost var at;
      prev, levelOfTarget, at := FindTarget(key, prev, q);
      assert prev[0] != null && 0 < |prev[0].next| && prev[0].next[0] == nodes[q] by {
        assert Found(nodes, q, prev, at, 0) && Level(nodes, Links(nodes), 0);
        assert Right(nodes, Links(nodes), at[0], 0);
        PredTarget(nodes, q, at[0], 0);
      }
      memUsage := memUsage - |key|;
      memUsage := memUsage - |prev[0].next[0].value|;
      Unlink(prev, levelOfTarget, q, at);
      MinusKeys(nodes, q);
      nodes := Minus(nodes, q);
    }

    method Delete(key: bytes)
      requires Valid()
      modifies this, nodes
      ensures Valid() && forall p :: 0 <= p < |nodes| ==> nodes[p] in old(nodes)
      ensures Contents() == old(Contents()) - {key}
    {
      var present := Contains(key);
      if !present {
        return;
      }
      size := size - 1;
      ghost var q := FindPlace(nodes, key, 1);
      MapAt(nodes, key, q);
      MinusMapUsage(nodes, q);
      RemoveNode(key, q);
    }
  }

  class SkipListIterator {
    const list: SkipList
    var node: Node?
    ghost var at: nat  // position of `node` in the list; |nodes| past the end

    ghost predicate Ready()
      reads this, list, list.nodes
    {
      && list.Valid() && 1 <= at <= |list.nodes|
      && node == if at == |list.nodes| then null else list.nodes[at]
    }

    /** What the iterator has still to deliver, current pair first. */
    ghost function Rest(): seq<Pair>
      requires Ready()
      reads this, list, list.nodes
    {
      Pairs(list.nodes, at)
    }

    constructor (list: SkipList)
      ensures this.list == list && node == null
    {
      this.list := list;
      node := null;
    }

    method MoveToFirst()
      requires list.Valid()
      modifies this
      ensures Ready() && Rest() == Pairs(list.nodes, 1)
    {
      NextAtBottom(list.nodes, list.head, list.maxLevel, Links(list.nodes), 0);
      node := list.head.next[0];
      at := 1;
    }

    method Valid() returns (valid: bool)
      requires Ready()
      ensures valid <==> Rest() != []
    {
      valid := node != null;
    }

    method Next()
      requires Ready() && Rest() != []
      modifies this
      ensures Ready() && Rest() == old(Rest())[1..]
    {
      NextAtBottom(list.nodes, list.head, list.maxLevel, Links(list.nodes), at);
      node := node.next[0];
      at := at + 1;
    }

    method Key() returns (key: bytes)
      requires Ready() && Rest() != []
      ensures key == Rest()[0].key
    {
      key := node.key;
    }

    method Value() returns (value: bytes)
      requires Ready() && Rest() != []
      ensures value == Rest()[0].value
    {
      value := node.value;
    }
  }
}
