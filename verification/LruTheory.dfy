/** What holds over whole runs of the LRU cache. */
module LruTheory {
  import opened Lrus
  import opened Sequences

  datatype Op<K, V> = Insert(key: K, val: V) | Get(key: K) | Erase(key: K) | Release(key: K)

  /** One operation. Releasing a key that is not cached is undefined in the source; no theorem below
      speaks of a run that does it (`Defined`). */
  ghost function Step<K, V>(c: Cache<K, V>, op: Op<K, V>): Cache<K, V> {
    match op
    case Insert(k, v) => Inserted(c, k, v)
    case Get(k) => Gotten(c, k)
    case Erase(k) => Erased(c, k)
    case Release(k) => if k in Keys(c.list) then Released(c, k) else c
  }

  ghost function Empty<K, V>(cap: nat): Cache<K, V> {
    Cache(cap, [], map[], [], [], 0)
  }

  ghost function Run<K, V>(cap: nat, ops: seq<Op<K, V>>): Cache<K, V> {
    if ops == [] then Empty(cap) else Step(Run(cap, ops[..|ops| - 1]), ops[|ops| - 1])
  }

  ghost predicate Releasable<K, V>(c: Cache<K, V>, op: Op<K, V>) {
    op.Release? ==> op.key in Keys(c.list)
  }

  /** Every release names a cached key. */
  ghost predicate Defined<K, V>(cap: nat, ops: seq<Op<K, V>>) {
    ops == [] || (Defined(cap, ops[..|ops| - 1]) && Releasable(Run(cap, ops[..|ops| - 1]), ops[|ops| - 1]))
  }

  lemma Run3<K, V>(cap: nat, ops: seq<Op<K, V>>)
    requires |ops| == 3
    ensures Run(cap, ops) == Step(Step(Step(Empty(cap), ops[0]), ops[1]), ops[2])
  {
    hide Step;
    assert ops[..2][..1] == ops[..1] && ops[..1][..0] == [];
    assert Run(cap, ops[..1]) == Step(Run(cap, []), ops[0]);
    assert Run(cap, ops[..2]) == Step(Run(cap, ops[..1]), ops[1]);
  }

  // ---------------------------------------------------------------- recency order

  /** The sequence without the element. */
  ghost function Remove<T>(s: seq<T>, x: T): (r: seq<T>)
    ensures forall y :: y in r ==> y in s && y != x
    ensures forall y :: y in s && y != x ==> y in r
    ensures x !in s ==> r == s
  {
    if s == [] then [] else if s[0] == x then Remove(s[1..], x) else [s[0]] + Remove(s[1..], x)
  }

  ghost function Trim<T>(s: seq<T>, cap: nat): seq<T> {
    if |s| > cap then s[..|s| - 1] else s
  }

  /** The effect of an operation on the keys alone, most recent first. */
  ghost function KeysStep<K, V>(cap: nat, keys: seq<K>, op: Op<K, V>): seq<K> {
    match op
    case Insert(k, _) => if k in keys then [k] + Remove(keys, k) else Trim([k] + keys, cap)
    case Get(k) => if k in keys then [k] + Remove(keys, k) else keys
    case Erase(k) => Remove(keys, k)
    case Release(_) => keys
  }

  lemma {:induction false} RemoveOne<T>(s: seq<T>, i: nat)
    requires Distinct(s) && i < |s|
    ensures Remove(s, s[i]) == Without(s, i)
    decreases i
  {
    forall j | 0 < j < |s| ensures s[j] != s[0] { assert Apart(s, 0, j); }
    forall a, b | 0 <= a < b < |s[1..]| ensures Apart(s[1..], a, b) { assert Apart(s, a + 1, b + 1); }
    if i > 0 {
      RemoveOne(s[1..], i - 1);
      assert Without(s, i) == [s[0]] + Without(s[1..], i - 1);
    } else {
      assert s[0] !in s[1..];
    }
  }

  lemma KeysWithout<K, V>(list: seq<Entry<K, V>>, i: nat)
    requires i < |list|
    ensures Keys(Without(list, i)) == Without(Keys(list), i)
  {
  }

  lemma KeysPush<K, V>(list: seq<Entry<K, V>>, e: Entry<K, V>)
    ensures Keys([e] + list) == [e.key] + Keys(list)
  {
  }

  lemma PhantomKeys<K, V>(c: Cache<K, V>, i: nat)
    requires i < |c.list|
    ensures Keys(PhantomErased(c, i).list) == Without(Keys(c.list), i) && PhantomErased(c, i).cap == c.cap
  {
    hide Keys, Without;
    KeysWithout(c.list, i);
  }

  /** Hits go to the front in one piece, new keys push out the last one. */
  lemma KeysOfStep<K, V>(c: Cache<K, V>, op: Op<K, V>)
    requires Distinct(Keys(c.list)) && |c.list| <= c.cap && Releasable(c, op)
    ensures Keys(Step(c, op).list) == KeysStep(c.cap, Keys(c.list), op)
    ensures Step(c, op).cap == c.cap
  {
    hide Find, Without, PhantomErased, Distinct;
    var keys := Keys(c.list);
    var i := Find(keys, op.key);
    if i < |keys| {
      RemoveOne(keys, i);
      KeysWithout(c.list, i);
      PhantomKeys(c, i);
    }
    match op {
      case Insert(k, v) =>
        if i < |keys| {
          KeysPush(Without(c.list, i), c.list[i]);
        } else {
          var e := Entry(c.next, k, v, 1);
          KeysPush(c.list, e);
          PhantomKeys(c.(list := [e] + c.list, next := c.next + 1), |c.list|);
          LastOut(Keys([e] + c.list));
        }
      case Get(k) =>
        if i < |keys| { KeysPush(Without(c.list, i), c.list[i].(refs := c.list[i].refs + 1)); }
      case Erase(k) =>
      case Release(k) =>
    }
  }

  lemma LastOut<T>(s: seq<T>)
    requires s != []
    ensures Without(s, |s| - 1) == s[..|s| - 1]
  {
  }

  lemma {:induction false} DistinctRemove<T>(s: seq<T>, x: T)
    requires Distinct(s)
    ensures Distinct(Remove(s, x)) && |Remove(s, x)| == if x in s then |s| - 1 else |s|
  {
    if x in s {
      var i :| 0 <= i < |s| && s[i] == x;
      RemoveOne(s, i);
      forall a, b | 0 <= a < b < |s| - 1 ensures Apart(Remove(s, x), a, b) {
        assert Apart(s, if a < i then a else a + 1, if b < i then b else b + 1);
      }
    }
  }

  lemma DistinctPush<T>(s: seq<T>, x: T)
    requires Distinct(s) && x !in s
    ensures Distinct([x] + s)
  {
    forall a, b | 0 <= a < b < |s| + 1 ensures Apart([x] + s, a, b) {
      assert a > 0 ==> Apart(s, a - 1, b - 1);
    }
  }

  lemma DistinctTrim<T>(s: seq<T>, cap: nat)
    requires Distinct(s)
    ensures Distinct(Trim(s, cap))
  {
    forall a, b | 0 <= a < b < |Trim(s, cap)| ensures Apart(Trim(s, cap), a, b) {
      assert Apart(s, a, b);
    }
  }

  lemma KeysStepKeeps<K, V>(cap: nat, keys: seq<K>, op: Op<K, V>)
    requires Distinct(keys) && |keys| <= cap
    ensures Distinct(KeysStep(cap, keys, op)) && |KeysStep(cap, keys, op)| <= cap
  {
    DistinctRemove(keys, op.key);
    DistinctPush(Remove(keys, op.key), op.key);
    if op.key !in keys { DistinctTrim([op.key] + keys, cap); }
  }

  /** As long as released keys are cached, the keys are distinct and at most cap, and move by KeysStep. */
  lemma {:induction false} DefinedKeys<K, V>(cap: nat, ops: seq<Op<K, V>>)
    requires Defined(cap, ops)
    ensures Distinct(Keys(Run(cap, ops).list)) && |Run(cap, ops).list| <= cap && Run(cap, ops).cap == cap
    ensures ops != [] ==>
              Keys(Run(cap, ops).list)
              == KeysStep(cap, Keys(Run(cap, ops[..|ops| - 1]).list), ops[|ops| - 1])
  {
    hide Step, KeysStep, Releasable;
    if ops != [] {
      var c := Run(cap, ops[..|ops| - 1]);
      DefinedKeys(cap, ops[..|ops| - 1]);
      KeysOfStep(c, ops[|ops| - 1]);
      KeysStepKeeps(cap, Keys(c.list), ops[|ops| - 1]);
    }
  }

  lemma {:induction false} DisciplinedDefined<K, V>(cap: nat, ops: seq<Op<K, V>>)
    requires Disciplined(cap, ops)
    ensures Defined(cap, ops)
  {
    hide Run, Find, Keys;
    if ops != [] {
      DisciplinedDefined(cap, ops[..|ops| - 1]);
      AllowedReleasable(Run(cap, ops[..|ops| - 1]), Held(cap, ops[..|ops| - 1]), ops[|ops| - 1]);
    }
  }

  lemma AllowedReleasable<K, V>(c: Cache<K, V>, held: multiset<nat>, op: Op<K, V>)
    requires Allowed(c, held, op)
    ensures Releasable(c, op)
  {
  }

  /** In every disciplined run the keys are distinct and at most cap, and move by KeysStep. */
  lemma RunKeys<K, V>(cap: nat, ops: seq<Op<K, V>>)
    requires Disciplined(cap, ops)
    ensures Distinct(Keys(Run(cap, ops).list)) && |Run(cap, ops).list| <= cap && Run(cap, ops).cap == cap
    ensures ops != [] ==>
              Keys(Run(cap, ops).list)
              == KeysStep(cap, Keys(Run(cap, ops[..|ops| - 1]).list), ops[|ops| - 1])
  {
    hide Run, KeysStep, Keys;
    DisciplinedDefined(cap, ops);
    DefinedKeys(cap, ops);
  }

  // ---------------------------------------------------------------- inclusion

  /** s can be had from l by leaving out elements. */
  ghost predicate Sub<T>(s: seq<T>, l: seq<T>)
    decreases |l|
  {
    s == [] || (l != [] && ((s[0] == l[0] && Sub(s[1..], l[1..])) || Sub(s, l[1..])))
  }

  lemma {:induction false} SubIn<T>(s: seq<T>, l: seq<T>)
    requires Sub(s, l)
    ensures |s| <= |l| && forall x :: x in s ==> x in l
    decreases |l|
  {
    if s != [] {
      assert s == [s[0]] + s[1..];
      if s[0] == l[0] && Sub(s[1..], l[1..]) {
        SubIn(s[1..], l[1..]);
      } else {
        SubIn(s, l[1..]);
      }
    }
  }

  lemma {:induction false} SubRemove<T>(s: seq<T>, l: seq<T>, x: T)
    requires Sub(s, l)
    ensures Sub(Remove(s, x), Remove(l, x))
    decreases |l|
  {
    if s != [] {
      if s[0] == l[0] && Sub(s[1..], l[1..]) {
        SubRemove(s[1..], l[1..], x);
        if s[0] != x { SubPush(Remove(s[1..], x), Remove(l[1..], x), s[0]); }
      } else {
        SubRemove(s, l[1..], x);
        if l[0] != x { SubMore(Remove(s, x), Remove(l[1..], x), l[0]); }
      }
    }
  }

  lemma SubPush<T>(s: seq<T>, l: seq<T>, x: T)
    requires Sub(s, l)
    ensures Sub([x] + s, [x] + l)
  {
    assert ([x] + s)[1..] == s && ([x] + l)[1..] == l;
  }

  lemma SubMore<T>(s: seq<T>, l: seq<T>, x: T)
    requires Sub(s, l)
    ensures Sub(s, [x] + l)
  {
    assert ([x] + l)[1..] == l;
  }

  lemma {:induction false} SubDrop<T>(s: seq<T>, l: seq<T>)
    requires Sub(s, l) && s != []
    ensures Sub(s[..|s| - 1], l)
    decreases |l|
  {
    if s[0] == l[0] && Sub(s[1..], l[1..]) {
      if |s| > 1 {
        SubDrop(s[1..], l[1..]);
        assert s[..|s| - 1][1..] == s[1..][..|s| - 2];
      }
    } else {
      SubDrop(s, l[1..]);
    }
  }

  lemma {:induction false} SubDropBoth<T>(s: seq<T>, l: seq<T>)
    requires Sub(s, l) && s != []
    ensures Sub(s[..|s| - 1], l[..|l| - 1])
    decreases |l|
  {
    var l' := l[..|l| - 1];
    if s[0] == l[0] && Sub(s[1..], l[1..]) {
      if |s| > 1 {
        SubDropBoth(s[1..], l[1..]);
        SubIn(s[1..], l[1..]);
        assert s[..|s| - 1][1..] == s[1..][..|s| - 2] && l'[1..] == l[1..][..|l| - 2];
      }
    } else {
      SubIn(s, l[1..]);
      SubDropBoth(s, l[1..]);
      assert l'[1..] == l[1..][..|l| - 2];
    }
  }

  /** Keys of a smaller and a larger cache that have seen the same operations. The last conjunct
      carries the induction: the smaller cache never has more room left than the larger. */
  ghost predicate Included<T>(cap: nat, small: seq<T>, more: nat, large: seq<T>) {
    && cap <= more && |small| <= cap && |large| <= more
    && Distinct(small) && Distinct(large)
    && Sub(small, large)
    && cap - |small| <= more - |large|
  }

  lemma IncludedStep<K, V>(cap: nat, small: seq<K>, more: nat, large: seq<K>, op: Op<K, V>)
    requires Included(cap, small, more, large)
    ensures Included(cap, KeysStep(cap, small, op), more, KeysStep(more, large, op))
  {
    hide Sub, Remove;
    var k := op.key;
    KeysStepKeeps(cap, small, op);
    KeysStepKeeps(more, large, op);
    DistinctRemove(small, k);
    DistinctRemove(large, k);
    SubIn(small, large);
    SubRemove(small, large, k);
    match op {
      case Insert(_, _) =>
        SubPush(Remove(small, k), Remove(large, k), k);
        if k !in small {
          SubTrim([k] + small, [k] + Remove(large, k), cap);
          if k !in large && |large| == more { SubDropBoth([k] + small, [k] + large); }
        }
      case Get(_) =>
        SubPush(Remove(small, k), Remove(large, k), k);
        if k !in small { SubMore(small, Remove(large, k), k); }
      case Erase(_) =>
      case Release(_) =>
    }
  }

  lemma SubTrim<T>(s: seq<T>, l: seq<T>, cap: nat)
    requires Sub(s, l)
    ensures Sub(Trim(s, cap), l)
  {
    if |s| > cap { SubDrop(s, l); }
  }

  lemma NothingIncluded<K, V>(cap: nat, more: nat)
    requires cap <= more
    ensures BothRun<K, V>(cap, more, [])
  {
    assert Keys(Empty<K, V>(cap).list) == [] == Keys(Empty<K, V>(more).list);
  }

  // ---------------------------------------------------------------- exact contents

  /** All the keys ever inserted, most recently inserted first. */
  ghost function Recency<K, V>(ops: seq<Op<K, V>>): (r: seq<K>) {
    if ops == [] then []
    else var k := ops[|ops| - 1].key; [k] + Remove(Recency(ops[..|ops| - 1]), k)
  }

  ghost function Upto<T>(s: seq<T>, n: nat): seq<T> {
    if |s| <= n then s else s[..n]
  }

  lemma {:induction false} RecencyDistinct<K, V>(ops: seq<Op<K, V>>)
    ensures Distinct(Recency(ops))
  {
    if ops != [] {
      RecencyDistinct(ops[..|ops| - 1]);
      var k, rest := ops[|ops| - 1].key, Recency(ops[..|ops| - 1]);
      DistinctRemove(rest, k);
      DistinctPush(Remove(rest, k), k);
    }
  }

  /** Taking a prefix commutes with moving a key to the front. */
  lemma PrefixTouch<K>(all: seq<K>, k: K, cap: nat)
    requires Distinct(all)
    ensures var keys := Upto(all, cap);
            (if k in keys then [k] + Remove(keys, k) else Trim([k] + keys, cap)) == Upto([k] + Remove(all, k), cap)
  {
    hide Remove, Distinct;
    var keys := Upto(all, cap);
    UptoDistinct(all, cap);
    if k in all {
      var i :| 0 <= i < |all| && all[i] == k;
      RemoveOne(all, i);
      if i < cap {
        assert keys[i] == k;
        RemoveOne(keys, i);
        UptoTouch(all, i, cap);
      } else {
        NotInPrefix(all, i, cap);
        UptoTouchFar(all, i, cap);
      }
    }
  }

  lemma UptoDistinct<T>(all: seq<T>, cap: nat)
    requires Distinct(all)
    ensures Distinct(Upto(all, cap))
  {
    var keys := Upto(all, cap);
    forall a, b | 0 <= a < b < |keys| ensures Apart(keys, a, b) { assert Apart(all, a, b); }
  }

  lemma NotInPrefix<T>(all: seq<T>, i: nat, cap: nat)
    requires Distinct(all) && cap <= i < |all|
    ensures all[i] !in Upto(all, cap)
  {
    forall j | 0 <= j < cap ensures all[j] != all[i] { assert Apart(all, j, i); }
  }

  lemma UptoTouch<T>(all: seq<T>, i: nat, cap: nat)
    requires i < |all| && i < cap
    ensures i < |Upto(all, cap)|
    ensures [all[i]] + Without(Upto(all, cap), i) == Upto([all[i]] + Without(all, i), cap)
  {
  }

  lemma UptoTouchFar<T>(all: seq<T>, i: nat, cap: nat)
    requires cap <= i < |all|
    ensures Trim([all[i]] + Upto(all, cap), cap) == Upto([all[i]] + Without(all, i), cap)
  {
  }

  /** After inserts alone the cache holds exactly the cap most recently inserted keys, in order. */
  lemma {:induction false} InsertsKeepMostRecent<K, V>(cap: nat, ops: seq<Op<K, V>>)
    requires forall i :: 0 <= i < |ops| ==> ops[i].Insert?
    ensures Keys(Run(cap, ops).list) == Upto(Recency(ops), cap)
  {
    hide Keys, Step, Remove;
    InsertsDefined(cap, ops);
    DefinedKeys(cap, ops);
    if ops == [] {
      EmptyKeys<K, V>(cap);
    } else {
      var before := ops[..|ops| - 1];
      InsertsKeepMostRecent(cap, before);
      RecencyDistinct(before);
      PrefixTouch(Recency(before), ops[|ops| - 1].key, cap);
    }
  }

  lemma {:induction false} InsertsDefined<K, V>(cap: nat, ops: seq<Op<K, V>>)
    requires forall i :: 0 <= i < |ops| ==> ops[i].Insert?
    ensures Defined(cap, ops)
  {
    hide Run;
    if ops != [] { InsertsDefined(cap, ops[..|ops| - 1]); }
  }

  lemma EmptyKeys<K, V>(cap: nat)
    ensures Keys(Empty<K, V>(cap).list) == []
  {
  }

  // ---------------------------------------------------------------- reference counts

  /** How often each id is held by clients: once per Get that found it, minus its releases. */
  ghost function Held<K, V>(cap: nat, ops: seq<Op<K, V>>): multiset<nat> {
    if ops == [] then multiset{}
    else HeldAfter(Run(cap, ops[..|ops| - 1]), Held(cap, ops[..|ops| - 1]), ops[|ops| - 1])
  }

  ghost function HeldAfter<K, V>(c: Cache<K, V>, held: multiset<nat>, op: Op<K, V>): multiset<nat> {
    var i := Find(Keys(c.list), op.key);
    if i == |c.list| then held
    else
      match op
      case Get(_) => held + multiset{c.list[i].id}
      case Release(_) => held - multiset{c.list[i].id}
      case _ => held
  }

  /** A client releases a key only while the node it got is cached, and once per Get. */
  ghost predicate Allowed<K, V>(c: Cache<K, V>, held: multiset<nat>, op: Op<K, V>) {
    op.Release? ==>
      var i := Find(Keys(c.list), op.key);
      i < |c.list| && c.list[i].id in held
  }

  ghost predicate Disciplined<K, V>(cap: nat, ops: seq<Op<K, V>>) {
    ops == [] ||
    (Disciplined(cap, ops[..|ops| - 1])
     && Allowed(Run(cap, ops[..|ops| - 1]), Held(cap, ops[..|ops| - 1]), ops[|ops| - 1]))
  }

  ghost function Ids<K, V>(list: seq<Entry<K, V>>): multiset<nat> {
    if list == [] then multiset{} else multiset{list[0].id} + Ids(list[1..])
  }

  /** Where every id is. */
  ghost function Census<K, V>(c: Cache<K, V>): multiset<nat> {
    Ids(c.list) + Ids(c.limbo) + Ids(c.destroyed)
  }

  ghost predicate OnceIfKnown<K, V>(c: Cache<K, V>, id: nat) {
    Census(c)[id] == if id < c.next then 1 else 0
  }

  ghost predicate Accounted<K, V>(c: Cache<K, V>, held: multiset<nat>) {
    && (forall e :: e in c.list ==> e.refs == 1 + held[e.id])
    && (forall e :: e in c.limbo ==> e.refs == held[e.id] && e.refs > 0)
    && (forall e :: e in c.destroyed ==> held[e.id] == 0)
    && (forall id: nat :: OnceIfKnown(c, id))
    && (forall k :: k in c.garbage ==> c.garbage[k] in c.limbo && c.garbage[k].key == k)
  }

  lemma {:induction false} IdsConcat<K, V>(a: seq<Entry<K, V>>, b: seq<Entry<K, V>>)
    ensures Ids(a + b) == Ids(a) + Ids(b)
    decreases |a|
  {
    hide Ids;
    if a == [] {
      assert a + b == b;
      IdsNone(a);
    } else {
      IdsConcat(a[1..], b);
      IdsFirst(a);
      IdsFirst(a + b);
      assert (a + b)[1..] == a[1..] + b;
    }
  }

  lemma IdsNone<K, V>(s: seq<Entry<K, V>>)
    ensures s == [] ==> Ids(s) == multiset{}
  {
  }

  lemma IdsFirst<K, V>(s: seq<Entry<K, V>>)
    requires s != []
    ensures Ids(s) == multiset{s[0].id} + Ids(s[1..])
  {
  }

  lemma IdsSplit<K, V>(s: seq<Entry<K, V>>, i: nat)
    requires i < |s|
    ensures Ids(s) == multiset{s[i].id} + Ids(Without(s, i))
  {
    hide Ids;
    IdsConcat(s[..i], s[i..]);
    IdsConcat(s[..i], s[i + 1..]);
    IdsFirst(s[i..]);
    assert s == s[..i] + s[i..] && s[i..][1..] == s[i + 1..];
  }

  lemma {:induction false} IdsIn<K, V>(s: seq<Entry<K, V>>, e: Entry<K, V>)
    requires e in s
    ensures Ids(s)[e.id] > 0
    decreases |s|
  {
    if e != s[0] {
      assert s == [s[0]] + s[1..];
      IdsIn(s[1..], e);
    }
  }

  lemma WithoutIn<T>(s: seq<T>, i: nat)
    requires i < |s|
    ensures forall x :: x in Without(s, i) ==> x in s
    ensures forall x :: x in s && x != s[i] ==> x in Without(s, i)
  {
    forall x | x in s && x != s[i] ensures x in Without(s, i) {
      var j :| 0 <= j < |s| && s[j] == x;
      assert Without(s, i)[if j < i then j else j - 1] == x;
    }
  }

  /** Every id is in one place, so entries elsewhere have other ids. */
  lemma OnePlace<K, V>(c: Cache<K, V>, i: nat)
    requires i < |c.list| && forall id: nat :: OnceIfKnown(c, id)
    ensures c.list[i].id < c.next
    ensures forall e :: e in Without(c.list, i) || e in c.limbo || e in c.destroyed ==> e.id != c.list[i].id
  {
    hide Ids;
    var id := c.list[i].id;
    IdsSplit(c.list, i);
    assert OnceIfKnown(c, id);
    forall e | e in Without(c.list, i) || e in c.limbo || e in c.destroyed ensures e.id != id {
      if e in Without(c.list, i) { IdsIn(Without(c.list, i), e); }
      if e in c.limbo { IdsIn(c.limbo, e); }
      if e in c.destroyed { IdsIn(c.destroyed, e); }
    }
  }

  /** Leaving the cache: the entry is destroyed if nobody holds it, and put in limbo otherwise. */
  lemma PhantomAccounted<K, V>(c: Cache<K, V>, held: multiset<nat>, i: nat)
    requires Accounted(c, held) && i < |c.list|
    ensures Accounted(PhantomErased(c, i), held)
    ensures held[c.list[i].id] == 0 ==> PhantomErased(c, i).destroyed == c.destroyed + [c.list[i].(refs := 0)]
    ensures held[c.list[i].id] > 0 ==>
              && PhantomErased(c, i).destroyed == c.destroyed
              && PhantomErased(c, i).limbo == c.limbo + [c.list[i].(refs := held[c.list[i].id])]
  {
    hide Ids, Census, Without;
    CountOf(c, held, i);
    WithoutIn(c.list, i);
    var c' := PhantomErased(c, i);
    PhantomCensus(c, i);
    forall id: nat ensures OnceIfKnown(c', id) { assert OnceIfKnown(c, id); }
    assert forall e :: e in c'.destroyed ==> e in c.destroyed || e.id == c.list[i].id;
    assert forall e :: e in c'.limbo ==> e in c.limbo || e == c.list[i].(refs := c.list[i].refs - 1);
    assert forall e :: e in c.limbo ==> e in c'.limbo;
  }

  lemma PhantomCensus<K, V>(c: Cache<K, V>, i: nat)
    requires i < |c.list|
    ensures Census(PhantomErased(c, i)) == Census(c)
  {
    hide Without, Ids;
    var e := c.list[i].(refs := c.list[i].refs - 1);
    IdsSplit(c.list, i);
    IdsConcat(c.limbo, [e]);
    IdsConcat(c.destroyed, [e]);
    IdsOne(e);
  }

  lemma PushAccounted<K, V>(c: Cache<K, V>, held: multiset<nat>, k: K, v: V)
    requires Accounted(c, held) && forall id :: id in held ==> id < c.next
    ensures Accounted(c.(list := [Entry(c.next, k, v, 1)] + c.list, next := c.next + 1), held)
  {
    hide Ids;
    var e := Entry(c.next, k, v, 1);
    var c' := c.(list := [e] + c.list, next := c.next + 1);
    IdsConcat([e], c.list);
    IdsOne(e);
    forall id: nat ensures OnceIfKnown(c', id) { assert OnceIfKnown(c, id); }
    assert forall x :: x in c'.list ==> x == e || x in c.list;
    assert e.id !in held;
  }

  lemma IdsOne<K, V>(e: Entry<K, V>)
    ensures Ids([e]) == multiset{e.id}
  {
  }

  /** Replacing an entry by itself with another count, at the front or in place. */
  lemma RecountAccounted<K, V>(c: Cache<K, V>, held: multiset<nat>, held': multiset<nat>, i: nat, list: seq<Entry<K, V>>)
    requires Accounted(c, held) && i < |c.list|
    requires forall id :: id != c.list[i].id ==> held'[id] == held[id]
    requires var e := c.list[i].(refs := 1 + held'[c.list[i].id]);
             list == [e] + Without(c.list, i) || list == c.list[i := e]
    ensures Accounted(c.(list := list), held')
  {
    hide Ids, Census;
    var e := c.list[i].(refs := 1 + held'[c.list[i].id]);
    var c' := c.(list := list);
    OnePlace(c, i);
    RecountCensus(c, e, i, list);
    WithoutIn(c.list, i);
    forall id: nat ensures OnceIfKnown(c', id) { assert OnceIfKnown(c, id); }
    forall x | x in list ensures x == e || x in Without(c.list, i) {
      if list == c.list[i := e] { WithoutIn(list, i); assert Without(list, i) == Without(c.list, i); }
    }
  }

  lemma RecountCensus<K, V>(c: Cache<K, V>, e: Entry<K, V>, i: nat, list: seq<Entry<K, V>>)
    requires i < |c.list| && e.id == c.list[i].id
    requires list == [e] + Without(c.list, i) || list == c.list[i := e]
    ensures Census(c.(list := list)) == Census(c)
  {
    hide Ids;
    IdsSplit(c.list, i);
    if list == c.list[i := e] {
      IdsSplit(list, i);
      assert Without(list, i) == Without(c.list, i);
    } else {
      IdsConcat([e], Without(c.list, i));
      IdsOne(e);
    }
  }

  lemma HeldKnown<K, V>(c: Cache<K, V>, held: multiset<nat>, op: Op<K, V>)
    requires Accounted(c, held) && forall id :: id in held ==> id < c.next
    ensures forall id :: id in HeldAfter(c, held, op) ==> id < c.next
    ensures c.next <= Step(c, op).next
  {
    hide Find, Ids;
    var i := Find(Keys(c.list), op.key);
    if i < |c.list| { OnePlace(c, i); }
  }

  lemma AccountedStep<K, V>(c: Cache<K, V>, held: multiset<nat>, op: Op<K, V>)
    requires Accounted(c, held) && Allowed(c, held, op) && forall id :: id in held ==> id < c.next
    ensures Accounted(Step(c, op), HeldAfter(c, held, op))
  {
    hide Find, Ids, Accounted, PhantomErased;
    var i := Find(Keys(c.list), op.key);
    match op {
      case Insert(k, v) =>
        if i < |c.list| {
          CountOf(c, held, i);
          RecountAccounted(c, held, held, i, ToFront(c.list, i));
        } else {
          var more := c.(list := [Entry(c.next, k, v, 1)] + c.list, next := c.next + 1);
          PushAccounted(c, held, k, v);
          PhantomAccounted(more, held, |c.list|);
        }
      case Erase(k) =>
        if i < |c.list| { PhantomAccounted(c, held, i); }
      case Get(k) =>
        if i < |c.list| {
          CountOf(c, held, i);
          RecountAccounted(c, held, HeldAfter(c, held, op), i, Step(c, op).list);
        }
      case Release(k) =>
        CountOf(c, held, i);
        RecountAccounted(c, held, HeldAfter(c, held, op), i, Step(c, op).list);
    }
  }

  lemma CountOf<K, V>(c: Cache<K, V>, held: multiset<nat>, i: nat)
    requires Accounted(c, held) && i < |c.list|
    ensures c.list[i].refs == 1 + held[c.list[i].id]
  {
    assert c.list[i] in c.list;
  }

  /** In every disciplined run each cached node's count is one plus its outstanding gets, no held
      node has been destroyed, and every node ever cached is in exactly one place: cached, in limbo
      (gone but held), or destroyed, once. */
  lemma {:induction false} ReferenceCounts<K, V>(cap: nat, ops: seq<Op<K, V>>)
    requires Disciplined(cap, ops)
    ensures Accounted(Run(cap, ops), Held(cap, ops))
    ensures forall id :: id in Held(cap, ops) ==> id < Run(cap, ops).next
  {
    hide Step, HeldAfter, Allowed, Accounted;
    if ops == [] {
      EmptyAccounted<K, V>(cap);
    } else {
      var before, op := ops[..|ops| - 1], ops[|ops| - 1];
      ReferenceCounts(cap, before);
      AccountedStep(Run(cap, before), Held(cap, before), op);
      HeldKnown(Run(cap, before), Held(cap, before), op);
    }
  }

  lemma EmptyAccounted<K, V>(cap: nat)
    ensures Accounted(Empty<K, V>(cap), multiset{})
  {
  }

  // ---------------------------------------------------------------- the discipline is exact

  ghost predicate AccountedAt<K, V>(cap: nat, ops: seq<Op<K, V>>, n: nat) {
    n <= |ops| && Accounted(Run(cap, ops[..n]), Held(cap, ops[..n]))
  }

  /** As long as released keys are cached, the reference counts are right at every point of a run
      exactly if the clients kept the discipline: the first release of a node nobody holds takes the
      count of a cached node to 0. */
  lemma {:induction false} DisciplineExactly<K, V>(cap: nat, ops: seq<Op<K, V>>)
    requires Defined(cap, ops)
    ensures Disciplined(cap, ops) <==> forall n :: 0 <= n <= |ops| ==> AccountedAt(cap, ops, n)
  {
    hide Run, Held, Accounted, Allowed, Releasable;
    if ops == [] {
      assert ops[..0] == ops;
      ReferenceCounts(cap, ops);
    } else {
      var before, op := ops[..|ops| - 1], ops[|ops| - 1];
      DisciplineExactly(cap, before);
      forall n | 0 <= n <= |before| ensures AccountedAt(cap, before, n) <==> AccountedAt(cap, ops, n) {
        assert before[..n] == ops[..n];
      }
      assert ops[..|ops|] == ops && ops[..|before|] == before;
      if Disciplined(cap, ops) {
        ReferenceCounts(cap, ops);
      } else if Disciplined(cap, before) {
        ReferenceCounts(cap, before);
        DefinedKeys(cap, before);
        LastStep(cap, ops);
        UnheldRelease(Run(cap, before), Held(cap, before), op);
        assert !AccountedAt(cap, ops, |ops|);
      }
    }
  }

  lemma LastStep<K, V>(cap: nat, ops: seq<Op<K, V>>)
    requires ops != []
    ensures var before, op := ops[..|ops| - 1], ops[|ops| - 1];
            && Run(cap, ops) == Step(Run(cap, before), op)
            && Held(cap, ops) == HeldAfter(Run(cap, before), Held(cap, before), op)
  {
    hide Step, HeldAfter;
  }

  lemma UnheldRelease<K, V>(c: Cache<K, V>, held: multiset<nat>, op: Op<K, V>)
    requires Accounted(c, held) && Releasable(c, op) && !Allowed(c, held, op)
    ensures !Accounted(Step(c, op), HeldAfter(c, held, op))
  {
    hide Find, Keys, Ids;
    var i := Find(Keys(c.list), op.key);
    CountOf(c, held, i);
    assert Step(c, op).list[i] in Step(c, op).list;
  }

  /** What a disciplined operation destroys: exactly the nodes that leave the cache unheld. */
  lemma DestroyedWhenUnheld<K, V>(cap: nat, ops: seq<Op<K, V>>, op: Op<K, V>, e: Entry<K, V>)
    requires Disciplined(cap, ops + [op]) && e in Run(cap, ops).list
    ensures var c, c', held := Run(cap, ops), Run(cap, ops + [op]), Held(cap, ops);
            var cached := exists x :: x in c'.list && x.id == e.id;
            && c.destroyed <= c'.destroyed && c.limbo <= c'.limbo
            && (!cached && held[e.id] == 0 ==> c'.destroyed == c.destroyed + [e.(refs := 0)])
            && (!cached && held[e.id] > 0 ==> c'.limbo == c.limbo + [e.(refs := held[e.id])] && c'.destroyed == c.destroyed)
            && (cached ==> forall x :: x in c'.destroyed || x in c'.limbo ==> x.id != e.id)
  {
    hide Step, Accounted, HeldAfter, Allowed;
    assert (ops + [op])[..|ops|] == ops;
    ReferenceCounts(cap, ops);
    ReferenceCounts(cap, ops + [op]);
    DestroyedStep(Run(cap, ops), Held(cap, ops), op, e);
    var c' := Run(cap, ops + [op]);
    if x :| x in c'.list && x.id == e.id {
      CachedNowhereElse(c', Held(cap, ops + [op]), x);
    }
  }

  lemma CachedNowhereElse<K, V>(c: Cache<K, V>, held: multiset<nat>, e: Entry<K, V>)
    requires Accounted(c, held) && e in c.list
    ensures forall x :: x in c.destroyed || x in c.limbo ==> x.id != e.id
  {
    var i :| 0 <= i < |c.list| && c.list[i] == e;
    OnePlace(c, i);
  }

  /** The effect of PhantomErased at position i on an entry of the list. */
  lemma PhantomFate<K, V>(c: Cache<K, V>, held: multiset<nat>, i: nat, e: Entry<K, V>)
    requires i < |c.list| && e in c.list && c.list[i].refs == 1 + held[c.list[i].id]
    ensures var c' := PhantomErased(c, i);
            && c.destroyed <= c'.destroyed && c.limbo <= c'.limbo
            && (e != c.list[i] ==> e in c'.list)
            && (e == c.list[i] && held[e.id] == 0 ==> c'.destroyed == c.destroyed + [e.(refs := 0)])
            && (e == c.list[i] && held[e.id] > 0 ==>
                  c'.limbo == c.limbo + [e.(refs := held[e.id])] && c'.destroyed == c.destroyed)
  {
    hide Without;
    WithoutIn(c.list, i);
  }

  lemma FrontKeeps<K, V>(list: seq<Entry<K, V>>, i: nat, front: Entry<K, V>, e: Entry<K, V>)
    requires i < |list| && e in list && front.id == list[i].id
    ensures exists x :: x in [front] + Without(list, i) && x.id == e.id
  {
    hide Without;
    WithoutIn(list, i);
    if e == list[i] {
      StillThere([front] + Without(list, i), e.id, 0);
    } else {
      assert e in [front] + Without(list, i);
    }
  }

  lemma DestroyedStep<K, V>(c: Cache<K, V>, held: multiset<nat>, op: Op<K, V>, e: Entry<K, V>)
    requires Accounted(c, held) && Allowed(c, held, op) && e in c.list
    ensures var c' := Step(c, op);
            var cached := exists x :: x in c'.list && x.id == e.id;
            && c.destroyed <= c'.destroyed && c.limbo <= c'.limbo
            && (!cached && held[e.id] == 0 ==> c'.destroyed == c.destroyed + [e.(refs := 0)])
            && (!cached && held[e.id] > 0 ==> c'.limbo == c.limbo + [e.(refs := held[e.id])] && c'.destroyed == c.destroyed)
  {
    hide Find, Keys, Accounted, PhantomErased, Without;
    var i := Find(Keys(c.list), op.key);
    if i < |c.list| {
      CountOf(c, held, i);
      match op {
        case Insert(_, _) => FrontKeeps(c.list, i, c.list[i], e);
        case Get(_) => FrontKeeps(c.list, i, c.list[i].(refs := c.list[i].refs + 1), e);
        case Erase(_) => PhantomFate(c, held, i, e);
        case Release(_) => ReplaceKeeps(c.list, i, c.list[i].(refs := c.list[i].refs - 1), e);
      }
    } else if op.Insert? {
      var more := c.(list := [Entry(c.next, op.key, op.val, 1)] + c.list, next := c.next + 1);
      CountOf(c, held, |c.list| - 1);
      assert e in more.list;
      PhantomFate(more, held, |c.list|, e);
    }
  }

  lemma ReplaceKeeps<K, V>(list: seq<Entry<K, V>>, i: nat, x: Entry<K, V>, e: Entry<K, V>)
    requires i < |list| && e in list && x.id == list[i].id
    ensures exists y :: y in list[i := x] && y.id == e.id
  {
    var j :| 0 <= j < |list| && list[j] == e;
    StillThere(list[i := x], e.id, j);
  }

  lemma StillThere<K, V>(list: seq<Entry<K, V>>, id: nat, i: nat)
    requires i < |list| && list[i].id == id
    ensures exists x :: x in list && x.id == id
  {
    assert list[i] in list;
  }

  /** Without the discipline it fails: releasing a node nobody got destroys it where it stands, and
      erasing it then destroys it again. The second destruction is of freed memory: it is what the code
      does with the node it still lists, if the memory holds what it held. */
  lemma DoubleDestroy<K, V>(cap: nat, k: K, v: V)
    requires cap > 0
    ensures var ops := [Insert(k, v), Release(k), Erase(k)];
            && !Disciplined(cap, ops)
            && |Run(cap, ops).destroyed| == 2
            && Run(cap, ops).destroyed[0].id == Run(cap, ops).destroyed[1].id == 0
  {
    hide Disciplined, Run;
    var ops := [Insert(k, v), Release(k), Erase(k)];
    Run3(cap, ops);
    LoneKey(cap, k, v);
    NotDisciplined(cap, k, v);
  }

  lemma LoneKey<K, V>(cap: nat, k: K, v: V)
    requires cap > 0
    ensures var e := Entry(0, k, v, 0);
            var c1 := Step(Empty<K, V>(cap), Insert(k, v));
            var c2 := Step(c1, Release(k));
            && c1.list == [e.(refs := 1)]
            && c2.list == [e] && c2.destroyed == [e]
            && Step(c2, Erase(k)).destroyed == [e, e.(refs := -1)]
  {
    var e := Entry(0, k, v, 0);
    assert Keys([e.(refs := 1)])[0] == k && Keys([e])[0] == k;
    var c1 := Step(Empty<K, V>(cap), Insert(k, v));
    assert c1.list == [e.(refs := 1)] + [];
    assert Find(Keys(c1.list), k) == 0;
    var c2 := Step(c1, Release(k));
    assert c2.list == [e];
    assert Find(Keys(c2.list), k) == 0;
  }

  lemma NotDisciplined<K, V>(cap: nat, k: K, v: V)
    ensures !Disciplined(cap, [Insert(k, v), Release(k), Erase(k)])
  {
    hide Step, HeldAfter, Keys, Find;
    var first, second := [Insert(k, v)], [Insert(k, v), Release(k)];
    assert [Insert(k, v), Release(k), Erase(k)][..2] == second && second[..1] == first && first[..0] == [];
    NothingHeld(cap, k, v);
    assert !Allowed(Run(cap, first), Held(cap, first), Release(k));
    assert !Disciplined(cap, second);
  }

  lemma NothingHeld<K, V>(cap: nat, k: K, v: V)
    ensures Held(cap, [Insert(k, v)]) == multiset{}
  {
    assert [Insert(k, v)][..0] == [];
    assert Held<K, V>(cap, []) == multiset{};
  }

  // ---------------------------------------------------------------- the recycle map

  datatype Departure<K, V> = Stayed | Left(entry: Entry<K, V>)

  /** The node of key k that was the last to leave the cache, with the number of its holders then. */
  ghost function LastDeparture<K, V>(cap: nat, ops: seq<Op<K, V>>, k: K): Departure<K, V> {
    if ops == [] then Stayed
    else
      var before := ops[..|ops| - 1];
      var c := Run(cap, before);
      var i := Find(Keys(c.list), k);
      if i < |c.list| && k !in Keys(Run(cap, ops).list) then Left(c.list[i].(refs := Held(cap, before)[c.list[i].id]))
      else LastDeparture(cap, before, k)
  }

  ghost predicate RecycledAs<K, V>(garbage: map<K, Entry<K, V>>, k: K, d: Departure<K, V>) {
    && (k in garbage <==> d.Left? && d.entry.refs > 0)
    && (k in garbage ==> garbage[k] == d.entry)
  }

  /** Leaving the cache touches only its own key: recycled if held, forgotten if not. */
  lemma PhantomRecycles<K, V>(c: Cache<K, V>, held: multiset<nat>, i: nat, k: K)
    requires i < |c.list| && c.list[i].refs == 1 + held[c.list[i].id]
    ensures var e, garbage := c.list[i], PhantomErased(c, i).garbage;
            if k == e.key then RecycledAs(garbage, k, Left(e.(refs := held[e.id])))
            else (k in garbage <==> k in c.garbage) && (k in garbage ==> garbage[k] == c.garbage[k])
  {
    hide Without;
  }

  ghost predicate SameRecycled<K, V>(was: map<K, Entry<K, V>>, now: map<K, Entry<K, V>>, k: K) {
    (k in now <==> k in was) && (k in now ==> now[k] == was[k])
  }

  /** What an operation does to the recycle map at one key. */
  lemma RecycledStep<K, V>(c: Cache<K, V>, held: multiset<nat>, op: Op<K, V>, k: K)
    requires Accounted(c, held) && Allowed(c, held, op) && Distinct(Keys(c.list)) && |c.list| <= c.cap && c.cap > 0
    ensures var c', i := Step(c, op), Find(Keys(c.list), k);
            if i < |c.list| && k !in Keys(c'.list) then
              RecycledAs(c'.garbage, k, Left(c.list[i].(refs := held[c.list[i].id])))
            else SameRecycled(c.garbage, c'.garbage, k)
  {
    hide Accounted, PhantomErased, Distinct, Find, Without, Remove;
    var keys := Keys(c.list);
    var i, j := Find(keys, op.key), Find(keys, k);
    AllowedReleasable(c, held, op);
    KeysOfStep(c, op);
    match op {
      case Insert(key, v) =>
        if i == |c.list| && |c.list| == c.cap {
          var more := c.(list := [Entry(c.next, key, v, 1)] + c.list, next := c.next + 1);
          CountOf(c, held, |c.list| - 1);
          PhantomRecycles(more, held, |c.list|, k);
          LastKey(keys, key, k);
        }
      case Erase(key) =>
        if i < |c.list| {
          CountOf(c, held, i);
          PhantomRecycles(c, held, i, k);
        }
      case Get(key) =>
      case Release(key) =>
        CountOf(c, held, i);
    }
  }

  /** When a new key pushes out the last one, that one is gone and the others stay. */
  lemma LastKey<K>(keys: seq<K>, key: K, k: K)
    requires Distinct(keys) && keys != [] && key !in keys
    ensures var left := [key] + keys[..|keys| - 1];
            && left == ([key] + keys)[..|keys|]
            && (k in keys ==> (k !in left <==> k == keys[|keys| - 1]))
            && Find(keys, keys[|keys| - 1]) == |keys| - 1
  {
    hide Find;
    var n := |keys| - 1;
    forall m | 0 <= m < n ensures keys[m] != keys[n] { assert Apart(keys, m, n); }
    assert keys == keys[..n] + [keys[n]];
  }

  lemma {:induction false} NoRoom<K, V>(ops: seq<Op<K, V>>, k: K)
    requires Disciplined(0, ops)
    ensures Run(0, ops).list == [] && Run(0, ops).garbage == map[] && LastDeparture(0, ops, k) == Stayed
  {
    hide Step, Held, Allowed;
    RunKeys(0, ops);
    if ops != [] {
      NoRoom(ops[..|ops| - 1], k);
      RunKeys(0, ops[..|ops| - 1]);
      NoRoomStep(Run(0, ops[..|ops| - 1]), ops[|ops| - 1]);
    }
  }

  lemma NoRoomStep<K, V>(c: Cache<K, V>, op: Op<K, V>)
    requires c.list == [] && c.garbage == map[] && c.cap == 0
    ensures Step(c, op).garbage == map[]
  {
  }

  /** The recycle map in a disciplined run: a key is in it exactly if the last of its nodes to leave the
      cache was held then, and it is in it with that node. */
  lemma {:induction false} RecycledExactly<K, V>(cap: nat, ops: seq<Op<K, V>>, k: K)
    requires Disciplined(cap, ops)
    ensures RecycledAs(Run(cap, ops).garbage, k, LastDeparture(cap, ops, k))
  {
    hide Step, Held, Allowed, Accounted, Find, Keys;
    if cap == 0 {
      NoRoom(ops, k);
    } else if ops != [] {
      var before := ops[..|ops| - 1];
      RecycledExactly(cap, before, k);
      ReferenceCounts(cap, before);
      RunKeys(cap, before);
      RecycledStep(Run(cap, before), Held(cap, before), ops[|ops| - 1], k);
    }
  }

  // ---------------------------------------------------------------- one entry through one operation

  /** Where an entry of the list came from: it was there with the same id, key and value, or it has
      just been inserted. */
  lemma EntryKept<K, V>(c: Cache<K, V>, op: Op<K, V>, x: Entry<K, V>)
    requires x in Step(c, op).list
    ensures (exists y :: y in c.list && y.(refs := x.refs) == x)
         || (op.Insert? && op.key !in Keys(c.list) && x == Entry(c.next, op.key, op.val, 1))
  {
    hide Find, Keys, Without;
    var i := Find(Keys(c.list), op.key);
    if i < |c.list| {
      WithoutIn(c.list, i);
      assert c.list[i] in c.list;
      if op.Release? && x != Step(c, op).list[i] { assert x in c.list; }
    } else if op.Insert? {
      var more := [Entry(c.next, op.key, op.val, 1)] + c.list;
      WithoutIn(more, |more| - 1);
    }
    if x in c.list { assert x.(refs := x.refs) == x; }
  }

  lemma SameEntry<K, V>(c: Cache<K, V>, x: Entry<K, V>, y: Entry<K, V>)
    requires Distinct(Keys(c.list)) && x in c.list && y in c.list && x.key == y.key
    ensures x == y
  {
    var i :| 0 <= i < |c.list| && c.list[i] == x;
    var j :| 0 <= j < |c.list| && c.list[j] == y;
    assert i < j ==> Apart(Keys(c.list), i, j);
    assert j < i ==> Apart(Keys(c.list), j, i);
  }

  lemma EntryFound<K, V>(c: Cache<K, V>, k: K) returns (e: Entry<K, V>)
    requires k in Keys(c.list)
    ensures e in c.list && e.key == k && e == c.list[Find(Keys(c.list), k)]
  {
    e := c.list[Find(Keys(c.list), k)];
  }

  // ---------------------------------------------------------------- two caches, one run

  /** How often the cached node of a key is held. */
  ghost function HeldOf<K, V>(c: Cache<K, V>, held: multiset<nat>, k: K): nat {
    var i := Find(Keys(c.list), k);
    if i < |c.list| then held[c.list[i].id] else 0
  }

  lemma HeldOfEntry<K, V>(c: Cache<K, V>, held: multiset<nat>, e: Entry<K, V>)
    requires Distinct(Keys(c.list)) && e in c.list
    ensures e.key in Keys(c.list) && HeldOf(c, held, e.key) == held[e.id]
  {
    hide Find, Distinct, Keys;
    var j :| 0 <= j < |c.list| && c.list[j] == e;
    assert Keys(c.list)[j] == e.key;
    var f := EntryFound(c, e.key);
    SameEntry(c, e, f);
  }

  ghost function Change<K, V>(op: Op<K, V>, k: K): int {
    if op.key != k then 0 else if op.Get? then 1 else if op.Release? then -1 else 0
  }

  /** How the number of holders of a cached node changes. */
  lemma HeldOfStep<K, V>(c: Cache<K, V>, held: multiset<nat>, op: Op<K, V>, k: K)
    requires Accounted(c, held) && Allowed(c, held, op) && (forall id :: id in held ==> id < c.next)
    requires Distinct(Keys(c.list)) && Distinct(Keys(Step(c, op).list)) && k in Keys(Step(c, op).list)
    ensures HeldOf(Step(c, op), HeldAfter(c, held, op), k)
         == if k in Keys(c.list) then HeldOf(c, held, k) + Change(op, k) else 0
  {
    hide Step, Keys, Find, Accounted, HeldAfter, Allowed;
    var held' := HeldAfter(c, held, op);
    var x := EntryFound(Step(c, op), k);
    HeldOfEntry(Step(c, op), held', x);
    EntryKept(c, op, x);
    if y :| y in c.list && y.(refs := x.refs) == x {
      HeldOfEntry(c, held, y);
      HeldChange(c, held, op, y);
    } else {
      FreshUnheld(c, held, op);
    }
  }

  lemma FreshUnheld<K, V>(c: Cache<K, V>, held: multiset<nat>, op: Op<K, V>)
    requires op.Insert? && forall id :: id in held ==> id < c.next
    ensures HeldAfter(c, held, op)[c.next] == 0
  {
    assert c.next !in held;
  }

  lemma HeldChange<K, V>(c: Cache<K, V>, held: multiset<nat>, op: Op<K, V>, y: Entry<K, V>)
    requires Accounted(c, held) && Allowed(c, held, op) && Distinct(Keys(c.list)) && y in c.list
    ensures HeldAfter(c, held, op)[y.id] == held[y.id] + Change(op, y.key)
  {
    hide Keys, Find, Distinct, Ids;
    var i := Find(Keys(c.list), op.key);
    HeldOfEntry(c, held, y);
    if i < |c.list| {
      OnePlace(c, i);
      WithoutIn(c.list, i);
      if y.key == op.key { SameEntry(c, y, c.list[i]); }
    }
  }

  /** Whatever the smaller cache holds, the larger holds, for at least as many clients. */
  ghost predicate HeldIncluded<K, V>(small: Cache<K, V>, held: multiset<nat>, large: Cache<K, V>, held': multiset<nat>) {
    forall k :: k in Keys(small.list) ==> HeldOf(small, held, k) <= HeldOf(large, held', k)
  }

  /** So a release the smaller cache allows is one the larger allows. */
  lemma AllowedInLarger<K, V>(small: Cache<K, V>, held: multiset<nat>, large: Cache<K, V>, held': multiset<nat>,
                              op: Op<K, V>)
    requires Allowed(small, held, op) && HeldIncluded(small, held, large, held')
    ensures Allowed(large, held', op)
  {
    if op.Release? { assert HeldOf(small, held, op.key) <= HeldOf(large, held', op.key); }
  }

  lemma HeldIncludedStep<K, V>(small: Cache<K, V>, held: multiset<nat>, large: Cache<K, V>, held': multiset<nat>,
                               op: Op<K, V>)
    requires Accounted(small, held) && Allowed(small, held, op) && (forall id :: id in held ==> id < small.next)
    requires Accounted(large, held') && Allowed(large, held', op) && (forall id :: id in held' ==> id < large.next)
    requires Distinct(Keys(small.list)) && Distinct(Keys(Step(small, op).list))
    requires Distinct(Keys(large.list)) && Distinct(Keys(Step(large, op).list))
    requires HeldIncluded(small, held, large, held')
    requires forall k :: k in Keys(small.list) ==> k in Keys(large.list)
    requires forall k :: k in Keys(Step(small, op).list) ==> k in Keys(Step(large, op).list)
    ensures HeldIncluded(Step(small, op), HeldAfter(small, held, op), Step(large, op), HeldAfter(large, held', op))
  {
    hide Step, Keys, Accounted, HeldAfter, Allowed, HeldOf;
    forall k | k in Keys(Step(small, op).list)
      ensures HeldOf(Step(small, op), HeldAfter(small, held, op), k)
           <= HeldOf(Step(large, op), HeldAfter(large, held', op), k)
    {
      HeldOfStep(small, held, op, k);
      HeldOfStep(large, held', op, k);
    }
  }

  ghost predicate BothRun<K, V>(cap: nat, more: nat, ops: seq<Op<K, V>>) {
    && Disciplined(more, ops)
    && Included(cap, Keys(Run(cap, ops).list), more, Keys(Run(more, ops).list))
    && HeldIncluded(Run(cap, ops), Held(cap, ops), Run(more, ops), Held(more, ops))
  }

  lemma {:induction false} RunBoth<K, V>(cap: nat, more: nat, ops: seq<Op<K, V>>)
    requires cap <= more && Disciplined(cap, ops)
    ensures BothRun(cap, more, ops)
  {
    hide Keys, Included, HeldIncluded, Run, Held, Allowed, Step;
    if ops == [] {
      NothingIncluded<K, V>(cap, more);
    } else {
      var before, op := ops[..|ops| - 1], ops[|ops| - 1];
      RunBoth(cap, more, before);
      AllowedInLarger(Run(cap, before), Held(cap, before), Run(more, before), Held(more, before), op);
      RunKeys(cap, ops);
      RunKeys(more, ops);
      IncludedStep(cap, Keys(Run(cap, before).list), more, Keys(Run(more, before).list), op);
      HeldStep(cap, more, ops);
    }
  }

  lemma HeldStep<K, V>(cap: nat, more: nat, ops: seq<Op<K, V>>)
    requires ops != [] && Disciplined(cap, ops) && Disciplined(more, ops) && BothRun(cap, more, ops[..|ops| - 1])
    requires Included(cap, Keys(Run(cap, ops).list), more, Keys(Run(more, ops).list))
    ensures HeldIncluded(Run(cap, ops), Held(cap, ops), Run(more, ops), Held(more, ops))
  {
    hide Keys, HeldIncluded, Run, Held, Step, HeldAfter, Allowed, Accounted, Sub;
    var before, op := ops[..|ops| - 1], ops[|ops| - 1];
    LastStep(cap, ops);
    LastStep(more, ops);
    ReferenceCounts(cap, before);
    ReferenceCounts(more, before);
    SubIn(Keys(Run(cap, before).list), Keys(Run(more, before).list));
    SubIn(Keys(Run(cap, ops).list), Keys(Run(more, ops).list));
    HeldIncludedStep(Run(cap, before), Held(cap, before), Run(more, before), Held(more, before), op);
  }

  /** Inclusion: after the same operations, the recency list of a smaller cache is a subsequence of
      a larger one's, so whatever the smaller cache holds the larger holds too, and clients that keep
      the discipline on the smaller keep it on the larger. */
  lemma Inclusion<K, V>(cap: nat, more: nat, ops: seq<Op<K, V>>)
    requires cap <= more && Disciplined(cap, ops)
    ensures Disciplined(more, ops)
    ensures Included(cap, Keys(Run(cap, ops).list), more, Keys(Run(more, ops).list))
    ensures forall k :: k in Keys(Run(cap, ops).list) ==> k in Keys(Run(more, ops).list)
  {
    hide Run, Keys, Sub;
    RunBoth(cap, more, ops);
    SubIn(Keys(Run(cap, ops).list), Keys(Run(more, ops).list));
  }
}
