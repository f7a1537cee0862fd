/**
 The LRU cache: a recency list, a key index, a recycle map and reference counts.

 `Cache` and the functions on it say what each operation does; the class below keeps the source's
 list, index and counters and is proved to do exactly that. A list iterator is modelled by the node
 it points to, the destructor callback and `delete` by the sequence of destroyed entries.
 */
module Lrus {
  /** A node as a value. The id tells apart nodes that held the same key at different times. */
  datatype Entry<K, V> = Entry(id: nat, key: K, val: V, refs: int)

  /** `list` is the recency list, most recent first. `limbo` holds the entries that left it while
      still referenced, `destroyed` those that were deleted, in order. */
  datatype Cache<K, V> = Cache(
    cap: nat,
    list: seq<Entry<K, V>>,
    garbage: map<K, Entry<K, V>>,
    limbo: seq<Entry<K, V>>,
    destroyed: seq<Entry<K, V>>,
    next: nat)

  // ---------------------------------------------------------------- what the operations do

  ghost function Keys<K, V>(list: seq<Entry<K, V>>): (r: seq<K>)
    ensures |r| == |list| && forall i :: 0 <= i < |r| ==> r[i] == list[i].key
  {
    seq(|list|, i requires 0 <= i < |list| => list[i].key)
  }

  /** The position of the key in a list, or the list's length. */
  ghost function Find<K>(keys: seq<K>, k: K): (i: nat)
    ensures i <= |keys| && (i < |keys| <==> k in keys)
    ensures i < |keys| ==> keys[i] == k
    ensures forall j :: 0 <= j < i ==> keys[j] != k
  {
    if keys == [] || keys[0] == k then 0 else Find(keys[1..], k) + 1
  }

  ghost function Without<T>(s: seq<T>, i: nat): (r: seq<T>)
    requires i < |s|
    ensures |r| == |s| - 1
  {
    s[..i] + s[i + 1..]
  }

  ghost function ToFront<T>(s: seq<T>, i: nat): (r: seq<T>)
    requires i < |s|
    ensures |r| == |s|
  {
    [s[i]] + Without(s, i)
  }

  /** The entry at position i leaves the cache: it goes to the recycle map and gives up the cache's
      own reference, and is destroyed if that was the last one. */
  ghost function PhantomErased<K, V>(c: Cache<K, V>, i: nat): Cache<K, V>
    requires i < |c.list|
  {
    var e := c.list[i].(refs := c.list[i].refs - 1);
    if e.refs <= 0 then
      c.(list := Without(c.list, i), garbage := c.garbage - {e.key}, destroyed := c.destroyed + [e])
    else
      c.(list := Without(c.list, i), garbage := c.garbage[e.key := e], limbo := c.limbo + [e])
  }

  ghost function Inserted<K, V>(c: Cache<K, V>, k: K, v: V): Cache<K, V> {
    var i := Find(Keys(c.list), k);
    if i < |c.list| then c.(list := ToFront(c.list, i))
    else
      var more := c.(list := [Entry(c.next, k, v, 1)] + c.list, next := c.next + 1);
      if |more.list| > c.cap then PhantomErased(more, |more.list| - 1) else more
  }

  ghost function Erased<K, V>(c: Cache<K, V>, k: K): Cache<K, V> {
    var i := Find(Keys(c.list), k);
    if i < |c.list| then PhantomErased(c, i) else c
  }

  ghost function Gotten<K, V>(c: Cache<K, V>, k: K): Cache<K, V> {
    var i := Find(Keys(c.list), k);
    if i < |c.list| then
      c.(list := [c.list[i].(refs := c.list[i].refs + 1)] + Without(c.list, i))
    else c
  }

  /** A released node whose count drops to zero is destroyed where it stands. The source finds the
      node through the index, so the key has to be cached. */
  ghost function Released<K, V>(c: Cache<K, V>, k: K): Cache<K, V>
    requires k in Keys(c.list)
  {
    var i := Find(Keys(c.list), k);
    var e := c.list[i].(refs := c.list[i].refs - 1);
    if e.refs <= 0 then
      c.(list := c.list[i := e], garbage := c.garbage - {k}, destroyed := c.destroyed + [e])
    else c.(list := c.list[i := e])
  }

  // ---------------------------------------------------------------- the class

  class Node<K, V> {
    const key: K
    const val: V
    ghost const id: nat
    var refCnt: int
    var inCache: bool

    constructor (key: K, val: V, ghost id: nat)
      ensures this.key == key && this.val == val && this.id == id && refCnt == 1 && inCache
    {
      this.key, this.val, this.id, refCnt, inCache := key, val, id, 1, true;
    }

    ghost function View(): Entry<K, V>
      reads this`refCnt
    {
      Entry(id, key, val, refCnt)
    }
  }

  ghost predicate KeysApart<K, V>(nodes: seq<Node<K, V>>, i: nat, j: nat) {
    i < |nodes| && j < |nodes| && nodes[i].key != nodes[j].key
  }

  /** The index maps exactly the listed nodes' keys, which are distinct, to those nodes. */
  ghost predicate Indexed<K, V>(nodes: seq<Node<K, V>>, index: map<K, Node<K, V>>) {
    && (forall i :: 0 <= i < |nodes| ==> nodes[i].key in index && index[nodes[i].key] == nodes[i])
    && (forall i, j :: 0 <= i < |nodes| && 0 <= j < |nodes| && i != j ==> KeysApart(nodes, i, j))
    && (forall k :: k in index ==> index[k] in nodes && index[k].key == k)
  }

  /** Listed nodes are marked as cached, recycled ones are not. */
  ghost predicate Marked<K, V>(nodes: seq<Node<K, V>>, garbage: map<K, Node<K, V>>)
    reads nodes`inCache, garbage.Values`inCache
  {
    && (forall i :: 0 <= i < |nodes| ==> nodes[i].inCache)
    && (forall k :: k in garbage ==> !garbage[k].inCache && garbage[k].key == k)
  }

  lemma IndexedWithout<K, V>(nodes: seq<Node<K, V>>, index: map<K, Node<K, V>>, i: nat)
    requires Indexed(nodes, index) && i < |nodes|
    ensures Indexed(Without(nodes, i), index - {nodes[i].key})
    ensures nodes[i] !in nodes[..i] && nodes[i] !in Without(nodes, i)
    ensures nodes[i].key in index && index[nodes[i].key] == nodes[i]
  {
    var rest, less := Without(nodes, i), index - {nodes[i].key};
    forall a, b | 0 <= a < |rest| && 0 <= b < |rest| && a != b ensures KeysApart(rest, a, b) {
      assert KeysApart(nodes, if a < i then a else a + 1, if b < i then b else b + 1);
    }
    forall a | 0 <= a < |rest| ensures rest[a].key in less && less[rest[a].key] == rest[a] && rest[a] != nodes[i] {
      assert KeysApart(nodes, if a < i then a else a + 1, i);
    }
    forall k | k in less ensures less[k] in rest && less[k].key == k {
      var a :| 0 <= a < |nodes| && nodes[a] == index[k];
      assert rest[if a < i then a else a - 1] == index[k];
    }
    forall a | 0 <= a < i ensures nodes[a] != nodes[i] { assert KeysApart(nodes, a, i); }
  }

  /** The key's position in the list is the place of the node the index gives. */
  lemma FindIndexed<K, V>(nodes: seq<Node<K, V>>, index: map<K, Node<K, V>>, k: K)
    requires Indexed(nodes, index)
    ensures var i := Find(Keys(Views(nodes)), k);
            (i < |nodes| <==> k in index) && (i < |nodes| ==> nodes[i] == index[k])
  {
    hide Views;
    var keys := Keys(Views(nodes));
    if k in index {
      var a :| 0 <= a < |nodes| && nodes[a] == index[k];
      assert keys[a] == k;
    }
    var i := Find(keys, k);
    if i < |nodes| { assert nodes[i].key == k; }
  }

  lemma IndexedFront<K, V>(nodes: seq<Node<K, V>>, index: map<K, Node<K, V>>, i: nat)
    requires Indexed(nodes, index) && i < |nodes|
    ensures Indexed(ToFront(nodes, i), index)
  {
    var front := ToFront(nodes, i);
    forall a, b | 0 <= a < |front| && 0 <= b < |front| && a != b ensures KeysApart(front, a, b) {
      var a', b' := if a == 0 then i else if a <= i then a - 1 else a, if b == 0 then i else if b <= i then b - 1 else b;
      assert front[a] == nodes[a'] && front[b] == nodes[b'] && KeysApart(nodes, a', b');
    }
    forall k | k in index ensures index[k] in front && index[k].key == k {
      var a :| 0 <= a < |nodes| && nodes[a] == index[k];
      assert front[if a == i then 0 else if a < i then a + 1 else a] == index[k];
    }
  }

  lemma IndexedPush<K, V>(nodes: seq<Node<K, V>>, index: map<K, Node<K, V>>, n: Node<K, V>)
    requires Indexed(nodes, index) && n.key !in index
    ensures Indexed([n] + nodes, index[n.key := n])
  {
    var more, index' := [n] + nodes, index[n.key := n];
    forall a, b | 0 <= a < |more| && 0 <= b < |more| && a != b ensures KeysApart(more, a, b) {
      if a > 0 && b > 0 { assert KeysApart(nodes, a - 1, b - 1); }
    }
    forall k | k in index' ensures index'[k] in more && index'[k].key == k {
      if k != n.key {
        var a :| 0 <= a < |nodes| && nodes[a] == index[k];
        assert more[a + 1] == index[k];
      } else {
        assert more[0] == n;
      }
    }
  }

  lemma CachedKey<K, V>(nodes: seq<Node<K, V>>, index: map<K, Node<K, V>>, k: K)
    requires Indexed(nodes, index) && k in index
    ensures index[k].key == k
  {
  }

  lemma Alone<K, V>(nodes: seq<Node<K, V>>, index: map<K, Node<K, V>>, garbage: map<K, Node<K, V>>, i: nat)
    requires Indexed(nodes, index) && Marked(nodes, garbage) && i < |nodes|
    ensures forall j :: 0 <= j < |nodes| && j != i ==> nodes[j] != nodes[i]
    ensures forall k :: k in garbage ==> garbage[k] != nodes[i]
  {
    forall j | 0 <= j < |nodes| && j != i ensures nodes[j] != nodes[i] {
      assert KeysApart(nodes, j, i);
    }
  }

  lemma MarkedSub<K, V>(nodes: seq<Node<K, V>>, some: seq<Node<K, V>>, garbage: map<K, Node<K, V>>)
    requires Marked(nodes, garbage)
    requires forall i :: 0 <= i < |some| ==> some[i] in nodes
    ensures Marked(some, garbage)
  {
  }

  lemma UpdateTwice<K, V>(m: map<K, V>, k: K, a: V, b: V)
    ensures m[k := a][k := b] == m[k := b] && m[k := a] - {k} == m - {k}
  {
  }

  class LRU<K(==), V> {
    const cap: nat
    var nodes: seq<Node<K, V>>
    var index: map<K, Node<K, V>>
    var garbageStation: map<K, Node<K, V>>
    ghost var limbo: seq<Entry<K, V>>
    ghost var destroyed: seq<Entry<K, V>>
    ghost var next: nat

    /** List and index hold the same nodes under distinct keys, at most cap of them. */
    ghost predicate Valid()
      reads `nodes, `index, `garbageStation, nodes`inCache, garbageStation.Values`inCache
    {
      |nodes| <= cap && Agree()
    }

    ghost predicate Agree()
      reads `nodes, `index, `garbageStation, nodes`inCache, garbageStation.Values`inCache
    {
      Indexed(nodes, index) && Marked(nodes, garbageStation)
    }

    ghost function List(): (r: seq<Entry<K, V>>)
      reads `nodes, nodes`refCnt
      ensures |r| == |nodes| && forall i :: 0 <= i < |r| ==> r[i] == nodes[i].View()
    {
      Views(nodes)
    }

    ghost function View(): Cache<K, V>
      reads this, nodes`refCnt, garbageStation.Values`refCnt
    {
      Cache(cap, List(), Garbage(), limbo, destroyed, next)
    }

    ghost function Garbage(): map<K, Entry<K, V>>
      reads `garbageStation, garbageStation.Values`refCnt
    {
      GarbageViews(garbageStation)
    }

    constructor (cap: nat)
      ensures Valid() && View() == Cache(cap, [], map[], [], [], 0)
    {
      this.cap := cap;
      nodes, index, garbageStation := [], map[], map[];
      limbo, destroyed, next := [], [], 0;
    }

    /** `nodes.erase(index[key])`, seen as removing the node the iterator points to. */
    static function Cut(s: seq<Node<K, V>>, x: Node<K, V>): seq<Node<K, V>> {
      if s == [] then [] else if s[0] == x then s[1..] else [s[0]] + Cut(s[1..], x)
    }

    static lemma {:induction false} CutAt(s: seq<Node<K, V>>, i: nat)
      requires i < |s| && s[i] !in s[..i]
      ensures Cut(s, s[i]) == Without(s, i)
    {
      if i > 0 {
        assert s[0] == s[..i][0];
        assert s[1..][..i - 1] == s[..i][1..];
        CutAt(s[1..], i - 1);
      }
    }

    method Ref(node: Node<K, V>)
      modifies node`refCnt
      ensures node.refCnt == old(node.refCnt) + 1
    {
      node.refCnt := node.refCnt + 1;
    }

    method Unref(node: Node<K, V>)
      modifies this`garbageStation, this`limbo, this`destroyed, node`refCnt
      ensures node.refCnt == old(node.refCnt) - 1
      ensures if node.refCnt <= 0
              then garbageStation == old(garbageStation) - {node.key} && destroyed == old(destroyed) + [node.View()]
              else garbageStation == old(garbageStation) && destroyed == old(destroyed)
      ensures limbo == old(limbo)
    {
      node.refCnt := node.refCnt - 1;
      if node.refCnt <= 0 {
        destroyed := destroyed + [node.View()];
        garbageStation := garbageStation - {node.key};
      }
    }

    /** Out of the list and the index, into the recycle map. */
    method Detach(node: Node<K, V>, ghost i: nat)
      requires Agree() && i < |nodes| && nodes[i] == node
      modifies this`nodes, this`index, this`garbageStation, node`inCache
      ensures Agree() && nodes == Without(old(nodes), i) && List() == Without(old(List()), i)
      ensures node !in nodes && !node.inCache
      ensures garbageStation == old(garbageStation)[node.key := node]
      ensures Garbage() == old(Garbage())[node.key := node.View()]
    {
      hide Views, GarbageViews, Indexed, Marked;
      IndexedWithout(nodes, index, i);
      CutAt(nodes, i);
      ViewsWithout(nodes, i);
      GarbageViewsUpdate(garbageStation, node);
      Unmark(node);
      nodes := Cut(nodes, index[node.key]);
      index := index - {node.key};
      garbageStation := garbageStation[node.key := node];
    }

    method Unmark(node: Node<K, V>)
      requires Marked(nodes, garbageStation) && Indexed(nodes, index) && node in nodes
      modifies node`inCache
      ensures !node.inCache
      ensures forall i :: 0 <= i < |nodes| && nodes[i] == node ==>
                Marked(Without(nodes, i), garbageStation[node.key := node])
    {
      node.inCache := false;
      forall i, j | 0 <= i < |nodes| && 0 <= j < |nodes| && i != j ensures nodes[i] != nodes[j] {
        assert KeysApart(nodes, i, j);
      }
    }

    /** Unref for a node that has just left the list. */
    method UnrefDetached(node: Node<K, V>)
      requires Marked(nodes, garbageStation) && node !in nodes
      requires node.key in garbageStation && garbageStation[node.key] == node
      modifies this`garbageStation, this`limbo, this`destroyed, node`refCnt
      ensures Marked(nodes, garbageStation) && List() == old(List())
      ensures var e := old(node.View()).(refs := old(node.refCnt) - 1);
              && Garbage() == (if e.refs <= 0 then old(Garbage()) - {e.key} else old(Garbage())[e.key := e])
              && destroyed == old(destroyed) + (if e.refs <= 0 then [e] else [])
              && limbo == old(limbo) + (if e.refs <= 0 then [] else [e])
    {
      hide Views;
      Unref(node);
      if node.refCnt > 0 {
        limbo := limbo + [node.View()];
      }
      assert forall j :: 0 <= j < |nodes| ==> nodes[j] in nodes;
    }

    method PhantomEraseNode(node: Node<K, V>, ghost i: nat)
      requires Agree() && i < |nodes| && nodes[i] == node
      modifies this, node
      ensures Agree() && View() == PhantomErased(old(View()), i)
      ensures nodes == Without(old(nodes), i) && forall j :: 0 <= j < |nodes| ==> nodes[j] in old(nodes)
    {
      hide Views, Indexed, Marked;
      ghost var garbage := Garbage();
      Detach(node, i);
      ghost var e := node.View();
      UnrefDetached(node);
      UpdateTwice(garbage, node.key, e, node.View());
    }

    method Contains(key: K) returns (found: bool)
      requires Valid()
      ensures found <==> key in Keys(List())
    {
      FindIndexed(nodes, index, key);
      found := key in index;
    }

    /** `nodes.splice(nodes.begin(), nodes, index[key])`. */
    method Splice(key: K, ghost i: nat)
      requires Agree() && key in index && i < |nodes| && nodes[i] == index[key]
      modifies this`nodes, this`index
      ensures Agree() && nodes == ToFront(old(nodes), i) && List() == ToFront(old(List()), i)
      ensures index == old(index) && nodes[0] == index[key] && forall j :: 0 <= j < |nodes| ==> nodes[j] in old(nodes)
    {
      hide Views, Indexed, Marked;
      IndexedWithout(nodes, index, i);
      IndexedFront(nodes, index, i);
      CutAt(nodes, i);
      ViewsFront(nodes, i);
      MarkedSub(nodes, ToFront(nodes, i), garbageStation);
      assert index[key := nodes[i]] == index;
      nodes := [index[key]] + Cut(nodes, index[key]);
      index := index[key := nodes[0]];
    }

    method Insert(key: K, val: V)
      requires Valid()
      modifies this, nodes
      ensures Valid() && View() == Inserted(old(View()), key, val)
      ensures forall i :: 0 <= i < |nodes| ==> nodes[i] in old(nodes) || fresh(nodes[i])
    {
      hide Views, Indexed, Marked, Find, Keys, Without, PhantomErased;
      FindIndexed(nodes, index, key);
      ghost var i := Find(Keys(List()), key);
      var newNode := new Node(key, val, next);
      if key !in index {
        InsertNew(newNode);
      } else {
        Splice(key, i);
      }
    }

    /** The branch of Insert for a key that is not cached. */
    method InsertNew(node: Node<K, V>)
      requires Valid() && node.key !in index && node.inCache
      modifies this, nodes, node
      ensures Valid()
      ensures var c := old(View());
              var more := c.(list := [old(node.View())] + c.list, next := c.next + 1);
              View() == if |more.list| > cap then PhantomErased(more, |more.list| - 1) else more
      ensures forall i :: 0 <= i < |nodes| ==> nodes[i] in old(nodes) || nodes[i] == node
    {
      hide Views, Indexed, Marked, Without, PhantomErased;
      ghost var c := View();
      PushFront(node);
      assert View() == c.(list := [node.View()] + c.list, next := c.next + 1);
      if |nodes| > cap {
        PhantomEraseNode(nodes[|nodes| - 1], |nodes| - 1);
      }
    }

    method PushFront(node: Node<K, V>)
      requires Agree() && node.key !in index && node.inCache
      modifies this`nodes, this`index, this`next
      ensures Agree() && nodes == [node] + old(nodes) && List() == [node.View()] + old(List())
      ensures next == old(next) + 1
    {
      hide Views, Indexed;
      IndexedPush(nodes, index, node);
      ViewsPush(nodes, node);
      nodes := [node] + nodes;
      index := index[node.key := nodes[0]];
      next := next + 1;
    }

    method Erase(key: K)
      requires Valid()
      modifies this, nodes
      ensures Valid() && View() == Erased(old(View()), key)
      ensures forall i :: 0 <= i < |nodes| ==> nodes[i] in old(nodes)
    {
      hide Views, Indexed, Marked, Find, Keys, Without, ToFront, PhantomErased;
      FindIndexed(nodes, index, key);
      ghost var i := Find(Keys(List()), key);
      if key in index {
        PhantomEraseNode(index[key], i);
      }
    }

    method Get(key: K) returns (found: Node?<K, V>)
      requires Valid()
      modifies this, nodes
      ensures Valid() && View() == Gotten(old(View()), key)
      ensures if key in Keys(old(List())) then nodes != [] && found == nodes[0] && found.key == key else found == null
      ensures forall i :: 0 <= i < |nodes| ==> nodes[i] in old(nodes)
    {
      hide Views, Indexed, Marked, Find, Keys, Without, ToFront;
      FindIndexed(nodes, index, key);
      ghost var i := Find(Keys(List()), key);
      if key !in index {
        found := null;
      } else {
        CachedKey(nodes, index, key);
        found := GetCached(key, i);
      }
    }

    /** The branch of Get for a key that is cached. */
    method GetCached(key: K, ghost i: nat) returns (found: Node<K, V>)
      requires Valid() && key in index && i < |nodes| && nodes[i] == index[key] && index[key].key == key
      modifies this`nodes, this`index, nodes`refCnt
      ensures Valid() && nodes != [] && found == nodes[0] && found.key == key
      ensures List() == [old(List())[i].(refs := old(List())[i].refs + 1)] + Without(old(List()), i)
      ensures Garbage() == old(Garbage()) && garbageStation == old(garbageStation)
      ensures forall j :: 0 <= j < |nodes| ==> nodes[j] in old(nodes)
    {
      hide Views, Indexed, Marked;
      FrontUpdated(List(), i, List()[i].(refs := List()[i].refs + 1));
      Splice(key, i);
      RefListed(index[key], 0);
      found := index[key];
    }

    method Release(key: K)
      requires Valid() && key in Keys(List())
      modifies this, nodes
      ensures Valid() && View() == Released(old(View()), key) && nodes == old(nodes)
    {
      hide Views, Indexed, Marked, Find, Keys, Without, ToFront;
      FindIndexed(nodes, index, key);
      ghost var i := Find(Keys(List()), key);
      UnrefListed(index[key], i);
    }

    /** Ref, for a node in the list. */
    method RefListed(node: Node<K, V>, ghost i: nat)
      requires Agree() && i < |nodes| && nodes[i] == node
      modifies node`refCnt
      ensures Agree() && Garbage() == old(Garbage())
      ensures List() == old(List())[i := old(List())[i].(refs := old(List())[i].refs + 1)]
    {
      hide Views, Indexed;
      Alone(nodes, index, garbageStation, i);
      Ref(node);
    }

    /** Unref, for a node in the list. */
    method UnrefListed(node: Node<K, V>, ghost i: nat)
      requires Agree() && i < |nodes| && nodes[i] == node
      modifies this`garbageStation, this`limbo, this`destroyed, node`refCnt
      ensures Agree() && limbo == old(limbo)
      ensures var e := old(List())[i].(refs := old(List())[i].refs - 1);
              && List() == old(List())[i := e]
              && Garbage() == (if e.refs <= 0 then old(Garbage()) - {e.key} else old(Garbage()))
              && destroyed == old(destroyed) + (if e.refs <= 0 then [e] else [])
    {
      hide Views, Indexed;
      Alone(nodes, index, garbageStation, i);
      Unref(node);
    }
  }

  lemma FrontUpdated<T>(s: seq<T>, i: nat, x: T)
    requires i < |s|
    ensures ToFront(s, i)[0] == s[i] && ToFront(s, i)[0 := x] == [x] + Without(s, i)
  {
  }

  lemma ViewsFront<K, V>(nodes: seq<Node<K, V>>, i: nat)
    requires i < |nodes|
    ensures Views(ToFront(nodes, i)) == ToFront(Views(nodes), i)
  {
    hide Views, Without;
    ViewsWithout(nodes, i);
    ViewsPush(Without(nodes, i), nodes[i]);
  }

  lemma ViewsPush<K, V>(nodes: seq<Node<K, V>>, n: Node<K, V>)
    ensures Views([n] + nodes) == [n.View()] + Views(nodes)
  {
  }

  lemma ViewsWithout<K, V>(nodes: seq<Node<K, V>>, i: nat)
    requires i < |nodes|
    ensures Views(Without(nodes, i)) == Without(Views(nodes), i)
  {
    hide Views;
  }

  lemma GarbageViewsUpdate<K, V>(garbage: map<K, Node<K, V>>, node: Node<K, V>)
    ensures GarbageViews(garbage[node.key := node]) == GarbageViews(garbage)[node.key := node.View()]
  {
  }

  ghost function GarbageViews<K, V>(garbage: map<K, Node<K, V>>): map<K, Entry<K, V>>
    reads garbage.Values`refCnt
  {
    map k | k in garbage :: garbage[k].View()
  }

  ghost function Views<K, V>(nodes: seq<Node<K, V>>): (r: seq<Entry<K, V>>)
    reads nodes`refCnt
    ensures |r| == |nodes| && forall i :: 0 <= i < |r| ==> r[i] == nodes[i].View()
  {
    if nodes == [] then [] else [nodes[0].View()] + Views(nodes[1..])
  }
}
