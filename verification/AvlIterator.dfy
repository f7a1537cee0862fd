/**
 The in-order iterator of the AVL tree, over any search tree. No implemented operation of the
 source changes a tree, so trees are values here and only the iterator is an object.
 */
module AvlTrees {
  import opened Bytes

  datatype Tree = Leaf | Node(left: Tree, key: bytes, value: bytes, right: Tree)

  function InOrder(t: Tree): seq<Pair> {
    match t
    case Leaf => []
    case Node(left, key, value, right) => InOrder(left) + [Pair(key, value)] + InOrder(right)
  }

  ghost predicate Below(ps: seq<Pair>, key: bytes) {
    forall i :: 0 <= i < |ps| ==> Less(ps[i].key, key)
  }

  ghost predicate Above(ps: seq<Pair>, key: bytes) {
    forall i :: 0 <= i < |ps| ==> Less(key, ps[i].key)
  }

  ghost predicate SearchTree(t: Tree) {
    t.Node? ==>
      && SearchTree(t.left) && SearchTree(t.right)
      && Below(InOrder(t.left), t.key) && Above(InOrder(t.right), t.key)
  }

  ghost predicate Ascending(ps: seq<Pair>) {
    forall i, j :: 0 <= i < j < |ps| ==> Less(ps[i].key, ps[j].key)
  }

  /** In-order is ascending exactly on search trees. */
  lemma {:induction false} SearchTreeAscends(t: Tree)
    ensures SearchTree(t) <==> Ascending(InOrder(t))
  {
    if t.Node? {
      var l, r := InOrder(t.left), InOrder(t.right);
      SearchTreeAscends(t.left);
      SearchTreeAscends(t.right);
      if SearchTree(t) {
        JoinAscends(l, Pair(t.key, t.value), r);
      } else if Ascending(InOrder(t)) {
        SplitAscends(l, Pair(t.key, t.value), r);
      }
    }
  }

  lemma JoinAscends(l: seq<Pair>, p: Pair, r: seq<Pair>)
    requires Ascending(l) && Ascending(r) && Below(l, p.key) && Above(r, p.key)
    ensures Ascending(l + [p] + r)
  {
    var all := l + [p] + r;
    forall i, j | 0 <= i < j < |all| ensures Less(all[i].key, all[j].key) {
      if i < |l| < j {
        assert all[i] == l[i] && all[j] == r[j - |l| - 1];
        Transitive(l[i].key, p.key, r[j - |l| - 1].key);
      }
    }
  }

  lemma SplitAscends(l: seq<Pair>, p: Pair, r: seq<Pair>)
    requires Ascending(l + [p] + r)
    ensures Ascending(l) && Ascending(r) && Below(l, p.key) && Above(r, p.key)
  {
    var all := l + [p] + r;
    forall i | 0 <= i < |l| ensures l[i] == all[i] {}
    forall i | 0 <= i < |r| ensures r[i] == all[|l| + 1 + i] {}
    assert all[|l|] == p;
  }

  // ---------------------------------------------------------------- search

  function SearchNode(t: Tree, key: bytes): Tree {
    if t == Leaf then Leaf
    else if Less(key, t.key) then SearchNode(t.left, key)
    else if Less(t.key, key) then SearchNode(t.right, key)
    else t
  }

  /** Search finds a node exactly if its pair is in the in-order sequence. */
  lemma {:induction false} SearchIsMembership(t: Tree, key: bytes)
    requires SearchTree(t)
    ensures var n := SearchNode(t, key);
            if n.Node? then n.key == key && Pair(key, n.value) in InOrder(t)
            else forall p :: p in InOrder(t) ==> p.key != key
  {
    if t.Node? {
      var l, r := InOrder(t.left), InOrder(t.right);
      Total(key, t.key);
      Irreflexive(key);
      if Less(key, t.key) {
        Asymmetric(key, t.key);
        SearchIsMembership(t.left, key);
        forall p | p in r ensures p.key != key { Transitive(key, t.key, p.key); }
      } else if Less(t.key, key) {
        SearchIsMembership(t.right, key);
        forall p | p in l ensures p.key != key { Transitive(p.key, t.key, key); }
      }
    }
  }

  // ---------------------------------------------------------------- the iterator

  /** What a stack, top last, has still to deliver: each node, then its right subtree. */
  function Pending(stack: seq<Tree>): seq<Pair> {
    if stack == [] then []
    else
      var n, rest := stack[|stack| - 1], Pending(stack[..|stack| - 1]);
      if n == Leaf then rest else [Pair(n.key, n.value)] + InOrder(n.right) + rest
  }

  /** The pairs with keys not below the target. */
  function AtLeast(ps: seq<Pair>, target: bytes): seq<Pair> {
    if ps == [] then []
    else if Less(ps[0].key, target) then AtLeast(ps[1..], target)
    else [ps[0]] + AtLeast(ps[1..], target)
  }

  lemma {:induction false} AtLeastConcat(a: seq<Pair>, b: seq<Pair>, target: bytes)
    ensures AtLeast(a + b, target) == AtLeast(a, target) + AtLeast(b, target)
    decreases |a|
  {
    if a == [] {
      assert a + b == b;
    } else {
      AtLeastConcat(a[1..], b, target);
      assert (a + b)[1..] == a[1..] + b;
    }
  }

  lemma {:induction false} AtLeastAll(ps: seq<Pair>, target: bytes)
    requires forall i :: 0 <= i < |ps| ==> !Less(ps[i].key, target)
    ensures AtLeast(ps, target) == ps
    decreases |ps|
  {
    if ps != [] {
      AtLeastAll(ps[1..], target);
      assert ps == [ps[0]] + ps[1..];
    }
  }

  lemma {:induction false} AtLeastNone(ps: seq<Pair>, target: bytes)
    requires Below(ps, target)
    ensures AtLeast(ps, target) == []
    decreases |ps|
  {
    if ps != [] { AtLeastNone(ps[1..], target); }
  }

  /** On an ascending sequence the filter is a suffix: what it drops is all smaller. */
  lemma {:induction false} AtLeastIsSuffix(ps: seq<Pair>, target: bytes) returns (k: nat)
    requires Ascending(ps)
    ensures k <= |ps| && AtLeast(ps, target) == ps[k..]
    ensures Below(ps[..k], target) && forall i :: k <= i < |ps| ==> !Less(ps[i].key, target)
    decreases |ps|
  {
    if ps == [] {
      k := 0;
    } else if Less(ps[0].key, target) {
      k := AtLeastIsSuffix(ps[1..], target);
      k := k + 1;
      assert ps[1..][..k - 1] == ps[..k][1..];
    } else {
      k := 0;
      forall i | 0 <= i < |ps| ensures !Less(ps[i].key, target) {
        if i > 0 && Less(ps[i].key, target) { Transitive(ps[0].key, ps[i].key, target); }
      }
      AtLeastAll(ps, target);
    }
  }

  class AVLIterator {
    const root: Tree
    var currentNode: Tree
    var pathStack: seq<Tree>

    ghost predicate Ready()
      reads this
    {
      && (forall i :: 0 <= i < |pathStack| ==> pathStack[i].Node?)
      && currentNode == if pathStack == [] then Leaf else pathStack[|pathStack| - 1]
    }

    /** What the iterator has still to deliver, the current pair first. */
    ghost function Rest(): seq<Pair>
      reads this
    {
      Pending(pathStack)
    }

    constructor (tree: Tree)
      ensures root == tree && Ready() && Rest() == InOrder(tree)
    {
      root, currentNode, pathStack := tree, Leaf, [];
      new;
      SeekToFirst();
    }

    method Valid() returns (valid: bool)
      requires Ready()
      ensures valid <==> Rest() != []
    {
      valid := currentNode != Leaf;
    }

    method Key() returns (key: bytes)
      requires Ready() && Rest() != []
      ensures key == Rest()[0].key
    {
      key := currentNode.key;
    }

    method Value() returns (value: bytes)
      requires Ready() && Rest() != []
      ensures value == Rest()[0].value
    {
      value := currentNode.value;
    }

    method PushLeftPath(start: Tree)
      requires forall i :: 0 <= i < |pathStack| ==> pathStack[i].Node?
      modifies this`pathStack
      ensures forall i :: 0 <= i < |pathStack| ==> pathStack[i].Node?
      ensures Pending(pathStack) == InOrder(start) + Pending(old(pathStack))
    {
      hide Pending;
      var node := start;
      ghost var all := InOrder(start) + Pending(pathStack);
      while node != Leaf
        invariant forall i :: 0 <= i < |pathStack| ==> pathStack[i].Node?
        invariant InOrder(node) + Pending(pathStack) == all
        decreases node
      {
        PendingPush(pathStack, node);
        pathStack := pathStack + [node];
        node := node.left;
      }
    }

    method FindFirst()
      modifies this
      ensures Ready() && Rest() == InOrder(root)
    {
      pathStack := [];
      currentNode := Leaf;
      PushLeftPath(root);
      if pathStack != [] {
        currentNode := pathStack[|pathStack| - 1];
      }
    }

    method SeekToFirst()
      modifies this
      ensures Ready() && Rest() == InOrder(root)
    {
      FindFirst();
    }

    /** Past the end it stays past the end. */
    method FindNext()
      requires Ready()
      modifies this
      ensures Ready() && Rest() == if old(Rest()) == [] then [] else old(Rest())[1..]
    {
      if pathStack == [] {
        currentNode := Leaf;
        return;
      }
      var node := pathStack[|pathStack| - 1];
      pathStack := pathStack[..|pathStack| - 1];
      if node.right != Leaf {
        PushLeftPath(node.right);
      }
      if pathStack != [] {
        currentNode := pathStack[|pathStack| - 1];
      } else {
        currentNode := Leaf;
      }
    }

    method Next()
      requires Ready()
      modifies this
      ensures Ready() && Rest() == if old(Rest()) == [] then [] else old(Rest())[1..]
    {
      FindNext();
    }

    method Seek(target: bytes)
      requires SearchTree(root)
      modifies this
      ensures Ready() && Rest() == AtLeast(InOrder(root), target)
    {
      hide Pending, AtLeast, Less;
      SeekNothing(root, target);
      pathStack := [];
      currentNode := Leaf;
      var node := root;
      while node != Leaf
        invariant forall i :: 0 <= i < |pathStack| ==> pathStack[i].Node?
        invariant SearchTree(node)
        invariant AtLeast(InOrder(node), target) + Pending(pathStack) == AtLeast(InOrder(root), target)
        decreases node
      {
        if !Less(node.key, target) {
          SeekLeft(pathStack, node, target);
          pathStack := pathStack + [node];
          node := node.left;
        } else {
          SeekRight(node, target);
          node := node.right;
        }
      }
      if pathStack != [] {
        currentNode := pathStack[|pathStack| - 1];
      } else {
        currentNode := Leaf;
      }
    }
  }

  /** Pushing a node and going left moves nothing between the two parts of what is left. */
  lemma PendingPush(stack: seq<Tree>, node: Tree)
    requires node.Node?
    ensures InOrder(node.left) + Pending(stack + [node]) == InOrder(node) + Pending(stack)
  {
    assert (stack + [node])[..|stack|] == stack;
  }

  lemma SeekNothing(root: Tree, target: bytes)
    ensures Pending([]) == [] && AtLeast(InOrder(Leaf), target) == []
    ensures AtLeast(InOrder(root), target) + Pending([]) == AtLeast(InOrder(root), target)
  {
  }

  lemma SeekLeft(stack: seq<Tree>, node: Tree, target: bytes)
    requires node.Node? && SearchTree(node) && !Less(node.key, target)
    ensures AtLeast(InOrder(node.left), target) + Pending(stack + [node])
         == AtLeast(InOrder(node), target) + Pending(stack)
  {
    hide AtLeast;
    var l, p, r := InOrder(node.left), Pair(node.key, node.value), InOrder(node.right);
    forall i | 0 <= i < |[p] + r| ensures !Less(([p] + r)[i].key, target) {
      if i > 0 && Less(r[i - 1].key, target) { Transitive(node.key, r[i - 1].key, target); }
    }
    AtLeastAll([p] + r, target);
    AtLeastConcat(l, [p] + r, target);
    assert InOrder(node) == l + ([p] + r);
    assert (stack + [node])[..|stack|] == stack;
  }

  lemma SeekRight(node: Tree, target: bytes)
    requires node.Node? && SearchTree(node) && Less(node.key, target)
    ensures AtLeast(InOrder(node.right), target) == AtLeast(InOrder(node), target)
  {
    var l, p, r := InOrder(node.left), Pair(node.key, node.value), InOrder(node.right);
    forall i | 0 <= i < |l + [p]| ensures Less((l + [p])[i].key, target) {
      if i < |l| { Transitive(l[i].key, node.key, target); }
    }
    AtLeastNone(l + [p], target);
    AtLeastConcat(l + [p], r, target);
  }
}
