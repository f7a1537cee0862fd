/** The values an LRU cache hands out, over whole runs. */
module LruValues {
  import opened Lrus
  import opened LruTheory

  // ---------------------------------------------------------------- one insertion

  /** An insertion puts its own pair in front exactly if the key was absent and there is room for
      any entry at all, or was cached with that very value: a cached key keeps its old value. */
  lemma InsertedShows<K, V>(c: Cache<K, V>, k: K, v: V)
    requires |c.list| <= c.cap
    ensures var list, i := Inserted(c, k, v).list, Find(Keys(c.list), k);
            list != [] && list[0].key == k && list[0].val == v
            <==> if k in Keys(c.list) then c.list[i].val == v else c.cap > 0
  {
  }

  // ---------------------------------------------------------------- where a cached value comes from

  ghost predicate BringsIn<K, V>(cap: nat, ops: seq<Op<K, V>>, b: nat, k: K) {
    b < |ops| && ops[b].Insert? && ops[b].key == k && k !in Keys(Run(cap, ops[..b]).list)
  }

  ghost predicate CachedAt<K, V>(cap: nat, ops: seq<Op<K, V>>, n: nat, k: K) {
    n <= |ops| && k in Keys(Run(cap, ops[..n]).list)
  }

  /** Operation b brought key k in, and the key has been cached ever since. */
  ghost predicate BroughtIn<K, V>(cap: nat, ops: seq<Op<K, V>>, b: nat, k: K) {
    BringsIn(cap, ops, b, k) && forall n :: b < n <= |ops| ==> CachedAt(cap, ops, n, k)
  }

  lemma BroughtInLater<K, V>(cap: nat, ops: seq<Op<K, V>>, b: nat, k: K)
    requires ops != [] && BroughtIn(cap, ops[..|ops| - 1], b, k) && k in Keys(Run(cap, ops).list)
    ensures BroughtIn(cap, ops, b, k)
  {
    hide Run, Keys;
    var before := ops[..|ops| - 1];
    assert before[..b] == ops[..b] && ops[..|ops|] == ops;
    forall n | b < n <= |ops| ensures CachedAt(cap, ops, n, k) {
      if n < |ops| { assert CachedAt(cap, before, n, k) && before[..n] == ops[..n]; }
    }
  }

  lemma BroughtInNow<K, V>(cap: nat, ops: seq<Op<K, V>>, k: K)
    requires ops != [] && ops[|ops| - 1].Insert? && ops[|ops| - 1].key == k
    requires k !in Keys(Run(cap, ops[..|ops| - 1]).list) && k in Keys(Run(cap, ops).list)
    ensures BroughtIn(cap, ops, |ops| - 1, k)
  {
    hide Run, Keys;
    assert ops[..|ops|] == ops;
  }

  /** The value of a cached entry is that of the insertion that brought it in, the last one made
      while the key was absent. */
  lemma {:induction false} CachedValue<K, V>(cap: nat, ops: seq<Op<K, V>>, e: Entry<K, V>) returns (b: nat)
    requires Disciplined(cap, ops) && e in Run(cap, ops).list
    ensures BroughtIn(cap, ops, b, e.key) && ops[b].val == e.val
  {
    hide Step, Keys, Held, Allowed;
    var before, op := ops[..|ops| - 1], ops[|ops| - 1];
    var c := Run(cap, before);
    RunKeys(cap, ops);
    InKeys(Run(cap, ops), e);
    EntryKept(c, op, e);
    if y :| y in c.list && y.(refs := e.refs) == e {
      b := CachedValue(cap, before, y);
      BroughtInLater(cap, ops, b, e.key);
    } else {
      b := |ops| - 1;
      BroughtInNow(cap, ops, e.key);
    }
  }

  lemma InKeys<K, V>(c: Cache<K, V>, e: Entry<K, V>)
    requires e in c.list
    ensures e.key in Keys(c.list)
  {
    var i :| 0 <= i < |c.list| && c.list[i] == e;
    assert Keys(c.list)[i] == e.key;
  }

  // ---------------------------------------------------------------- when it is the last value inserted

  datatype Last<V> = Never | Last(val: V)

  /** The value of the last insertion under a key, whether it took effect or not. */
  ghost function LastInserted<K, V>(ops: seq<Op<K, V>>, k: K): Last<V> {
    if ops == [] then Never
    else
      var op := ops[|ops| - 1];
      if op.Insert? && op.key == k then Last(op.val) else LastInserted(ops[..|ops| - 1], k)
  }

  ghost predicate Current<K, V>(ops: seq<Op<K, V>>, n: nat, e: Entry<K, V>) {
    n <= |ops| && LastInserted(ops[..n], e.key) == Last(e.val)
  }

  ghost predicate SameInsert<K, V>(ops: seq<Op<K, V>>, i: nat, e: Entry<K, V>) {
    i < |ops| && (ops[i].Insert? && ops[i].key == e.key ==> ops[i].val == e.val)
  }

  /** A cached entry has had the last inserted value at every point since it was brought in exactly
      if every insertion of its key since then carried that value. */
  lemma CurrentSince<K, V>(cap: nat, ops: seq<Op<K, V>>, e: Entry<K, V>, b: nat)
    requires Disciplined(cap, ops) && e in Run(cap, ops).list
    requires BroughtIn(cap, ops, b, e.key) && ops[b].val == e.val
    ensures (forall n :: b < n <= |ops| ==> Current(ops, n, e)) <==> (forall i :: b < i < |ops| ==> SameInsert(ops, i, e))
  {
    hide Run, Keys;
    if forall n :: b < n <= |ops| ==> Current(ops, n, e) {
      forall i | b < i < |ops| ensures SameInsert(ops, i, e) {
        assert Current(ops, i + 1, e);
        LastStepInserted(ops, i, e.key);
      }
    }
    if forall i :: b < i < |ops| ==> SameInsert(ops, i, e) {
      forall n | b < n <= |ops| ensures Current(ops, n, e) { CurrentFrom(ops, e, b, n); }
    }
  }

  lemma LastStepInserted<K, V>(ops: seq<Op<K, V>>, i: nat, k: K)
    requires i < |ops|
    ensures LastInserted(ops[..i + 1], k)
         == if ops[i].Insert? && ops[i].key == k then Last(ops[i].val) else LastInserted(ops[..i], k)
  {
    assert ops[..i + 1][..i] == ops[..i];
  }

  lemma {:induction false} CurrentFrom<K, V>(ops: seq<Op<K, V>>, e: Entry<K, V>, b: nat, n: nat)
    requires b < n <= |ops| && ops[b] == Insert(e.key, e.val)
    requires forall i :: b < i < |ops| ==> SameInsert(ops, i, e)
    ensures Current(ops, n, e)
    decreases n
  {
    LastStepInserted(ops, n - 1, e.key);
    if b + 1 < n {
      CurrentFrom(ops, e, b, n - 1);
      assert SameInsert(ops, n - 1, e);
    }
  }

  /** At this point of the run everything in the cache has the value last inserted under its key. */
  ghost predicate Fresh<K, V>(cap: nat, ops: seq<Op<K, V>>, n: nat) {
    n <= |ops| && forall e :: e in Run(cap, ops[..n]).list ==> Current(ops, n, e)
  }

  /** Operation i does not insert a cached key under another value than the cached one. */
  ghost predicate Agrees<K, V>(cap: nat, ops: seq<Op<K, V>>, i: nat) {
    i < |ops| && forall e :: e in Run(cap, ops[..i]).list ==> SameInsert(ops, i, e)
  }

  /** The cache holds the last inserted values throughout a run exactly if no insertion in it meets its
      key cached under another value. */
  lemma FreshExactly<K, V>(cap: nat, ops: seq<Op<K, V>>)
    requires Disciplined(cap, ops)
    ensures (forall n :: 0 <= n <= |ops| ==> Fresh(cap, ops, n)) <==> (forall i :: 0 <= i < |ops| ==> Agrees(cap, ops, i))
  {
    hide Fresh, Agrees, Disciplined;
    if forall i :: 0 <= i < |ops| ==> Agrees(cap, ops, i) {
      forall n | 0 <= n <= |ops| ensures Fresh(cap, ops, n) { FreshUpto(cap, ops, n); }
    }
    if forall n :: 0 <= n <= |ops| ==> Fresh(cap, ops, n) {
      forall i | 0 <= i < |ops| ensures Agrees(cap, ops, i) { AgreesIfFresh(cap, ops, i); }
    }
  }

  lemma {:induction false} FreshUpto<K, V>(cap: nat, ops: seq<Op<K, V>>, n: nat)
    requires n <= |ops| && forall i :: 0 <= i < n ==> Agrees(cap, ops, i)
    ensures Fresh(cap, ops, n)
  {
    hide Step;
    if n > 0 {
      var c, op := Run(cap, ops[..n - 1]), ops[n - 1];
      FreshUpto(cap, ops, n - 1);
      assert Agrees(cap, ops, n - 1);
      RunNext(cap, ops, n - 1);
      forall x | x in Step(c, op).list ensures Current(ops, n, x) {
        LastStepInserted(ops, n - 1, x.key);
        EntryKept(c, op, x);
        if y :| y in c.list && y.(refs := x.refs) == x {
          assert Current(ops, n - 1, y) && SameInsert(ops, n - 1, y);
        }
      }
    }
  }

  lemma RunNext<K, V>(cap: nat, ops: seq<Op<K, V>>, i: nat)
    requires i < |ops|
    ensures Run(cap, ops[..i + 1]) == Step(Run(cap, ops[..i]), ops[i])
  {
    hide Step;
    assert ops[..i + 1][..i] == ops[..i];
  }

  lemma AgreesIfFresh<K, V>(cap: nat, ops: seq<Op<K, V>>, i: nat)
    requires i < |ops| && Fresh(cap, ops, i + 1)
    ensures Agrees(cap, ops, i)
  {
    hide Run, LastInserted, Keys;
    var c, op := Run(cap, ops[..i]), ops[i];
    RunNext(cap, ops, i);
    forall e | e in c.list ensures SameInsert(ops, i, e) {
      if op.Insert? && op.key == e.key {
        HitKeeps(c, op, e);
        LastStepInserted(ops, i, e.key);
        assert Current(ops, i + 1, e);
      }
    }
  }

  /** Inserting a cached key leaves its entry, and its value, in the cache. */
  lemma HitKeeps<K, V>(c: Cache<K, V>, op: Op<K, V>, e: Entry<K, V>)
    requires e in c.list && op.Insert? && op.key == e.key
    ensures e in Step(c, op).list
  {
    hide Find, Keys, Without;
    InKeys(c, e);
    WithoutIn(c.list, Find(Keys(c.list), op.key));
  }

  // ---------------------------------------------------------------- two caches

  /** So inclusion is about keys only: two caches that have seen the same inserts can hold
      different values for a key they share. */
  lemma ValuesMayDiffer<K, V>(a: K, b: K, u: V, v: V, w: V)
    requires a != b && u != w
    ensures var ops := [Insert(a, u), Insert(b, v), Insert(a, w)];
            && Run(1, ops).list == [Entry(2, a, w, 1)]
            && Run(2, ops).list == [Entry(0, a, u, 1), Entry(1, b, v, 1)]
  {
    hide Find, Step, Without, ToFront;
    var ops := [Insert(a, u), Insert(b, v), Insert(a, w)];
    var e0, e1 := Entry(0, a, u, 1), Entry(1, b, v, 1);
    Run3(1, ops);
    FreshInsert(Empty(1), a, u);
    var c1 := Step(Empty(1), Insert(a, u));
    FreshInsert(c1, b, v);
    FreshInsert(Step(c1, Insert(b, v)), a, w);

    Run3(2, ops);
    FreshInsert(Empty(2), a, u);
    var d1 := Step(Empty(2), Insert(a, u));
    FreshInsert(d1, b, v);
    var d2 := Step(d1, Insert(b, v));
    assert Keys(d2.list)[1] == a;
    SecondInsert(d2, e1, e0, w);
  }

  lemma FreshInsert<K, V>(c: Cache<K, V>, k: K, v: V)
    requires k !in Keys(c.list) && |c.list| <= c.cap
    ensures Step(c, Insert(k, v)).list == Trim([Entry(c.next, k, v, 1)] + c.list, c.cap)
    ensures Step(c, Insert(k, v)).next == c.next + 1 && Step(c, Insert(k, v)).cap == c.cap
  {
  }

  lemma SecondInsert<K, V>(c: Cache<K, V>, x: Entry<K, V>, y: Entry<K, V>, v: V)
    requires c.list == [x, y] && x.key != y.key
    ensures Step(c, Insert(y.key, v)).list == [y, x]
  {
    assert Keys(c.list)[0] == x.key && Keys(c.list)[1] == y.key;
    assert Find(Keys(c.list), y.key) == 1;
  }
}
