/** Byte strings and the order `std::string::operator<` gives them: unsigned bytes, lexicographic. */
module Bytes {

  datatype Option<+T> = None | Some(value: T)

  type byte = x: int | 0 <= x < 256

  type bytes = seq<byte>

  datatype Pair = Pair(key: bytes, value: bytes)

  /** a and b agree on their first k bytes, and there a ends or has the smaller byte. */
  predicate SmallerAt(a: bytes, b: bytes, k: nat) {
    k <= |a| && k < |b| && a[..k] == b[..k] && (k == |a| || a[k] < b[k])
  }

  predicate Less(a: bytes, b: bytes) {
    exists k :: 0 <= k < |b| && SmallerAt(a, b, k)
  }

  predicate AtMost(a: bytes, b: bytes) {
    a == b || Less(a, b)
  }

  /** Length of the longest common prefix. */
  function Common(a: bytes, b: bytes): (k: nat)
    ensures k <= |a| && k <= |b| && a[..k] == b[..k]
    ensures k < |a| && k < |b| ==> a[k] != b[k]
    decreases |a|
  {
    if a == [] || b == [] || a[0] != b[0] then 0
    else
      var k := Common(a[1..], b[1..]) + 1;
      assert a[..k] == [a[0]] + a[1..][..k - 1] && b[..k] == [b[0]] + b[1..][..k - 1];
      k
  }

  lemma Irreflexive(a: bytes)
    ensures !Less(a, a)
  {
  }

  lemma Transitive(a: bytes, b: bytes, c: bytes)
    requires Less(a, b) && Less(b, c)
    ensures Less(a, c)
  {
    var i :| 0 <= i < |b| && SmallerAt(a, b, i);
    var j :| 0 <= j < |c| && SmallerAt(b, c, j);
    var k := if i < j then i else j;
    assert a[..k] == a[..i][..k] && c[..k] == c[..j][..k] && b[..k] == b[..i][..k] == b[..j][..k];
    assert i < j ==> b[i] == b[..j][i] && c[i] == c[..j][i];
    assert j < i ==> a[j] == a[..i][j] && b[j] == b[..i][j];
    assert SmallerAt(a, c, k);
  }

  lemma Total(a: bytes, b: bytes)
    ensures Less(a, b) || a == b || Less(b, a)
  {
    var k := Common(a, b);
    assert a[..|a|] == a && b[..|b|] == b;
    assert k == |a| == |b| || SmallerAt(a, b, k) || SmallerAt(b, a, k);
  }

  lemma Asymmetric(a: bytes, b: bytes)
    requires Less(a, b)
    ensures !Less(b, a) && a != b
  {
    Irreflexive(a);
    if Less(b, a) { Transitive(a, b, a); }
  }

  lemma Mixed(a: bytes, b: bytes, c: bytes)
    requires AtMost(a, b) && AtMost(b, c)
    ensures AtMost(a, c)
    ensures Less(a, b) || Less(b, c) ==> Less(a, c)
  {
    if Less(a, b) && Less(b, c) { Transitive(a, b, c); }
  }

  lemma Regroup(a: bytes, b: bytes, c: bytes, d: bytes)
    ensures a + (b + c) + d == (a + b) + c + d == a + b + (c + d)
  {
  }

  lemma SliceOfSlice(data: bytes, at: nat, n: nat, i: nat, j: nat)
    requires at + n <= |data| && i <= j <= n
    ensures data[at..at + n][i..j] == data[at + i..at + j]
  {
    var a, b := data[at..at + n][i..j], data[at + i..at + j];
    forall m | 0 <= m < j - i ensures a[m] == b[m] {
      assert a[m] == data[at..at + n][i + m] == data[at + i + m];
    }
  }
}
