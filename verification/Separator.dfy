/** The key put into the index for a block: at or below the block's last key, above the one before. */
module Separators {
  import opened Bytes

  /** How many of the first n positions of the two keys match, wherever they are. */
  function Matches(key1: bytes, key2: bytes, n: nat): (cnt: nat)
    requires n <= |key1| && n <= |key2|
    ensures cnt <= n
  {
    if n == 0 then 0 else Matches(key1, key2, n - 1) + if key1[n - 1] == key2[n - 1] then 1 else 0
  }

  function Min(a: nat, b: nat): nat {
    if a < b then a else b
  }

  /** `back() += 1` on a char. */
  function Bumped(key: bytes): (r: bytes)
    requires key != []
    ensures |r| == |key| && r[..|key| - 1] == key[..|key| - 1]
    ensures r[|key| - 1] == (key[|key| - 1] as int + 1) % 256
  {
    key[..|key| - 1] + [(key[|key| - 1] as int + 1) % 256]
  }

  function Separator(key1: bytes, key2: bytes): bytes {
    var cnt := Matches(key1, key2, Min(|key1|, |key2|));
    if |key1| == cnt then key1 + [0x20] else Bumped(key1[..cnt + 1])
  }

  method FindShortestKey(key1: bytes, key2: bytes) returns (shortestKey: bytes)
    requires key1 != [] && key2 != [] && Less(key1, key2)
    ensures shortestKey == Separator(key1, key2)
  {
    var cnt := 0;
    for i := 0 to Min(|key1|, |key2|)
      invariant cnt == Matches(key1, key2, i)
    {
      if key1[i] == key2[i] {
        cnt := cnt + 1;
      }
    }
    if |key1| == cnt {
      shortestKey := key1 + [0x20];
      return;
    }
    shortestKey := key1[..cnt + 1];
    shortestKey := Bumped(shortestKey);
  }

  // ---------------------------------------------------------------- what the separator is made of

  /** The first n positions where the keys agree. */
  ghost function Agreeing(key1: bytes, key2: bytes, n: nat): set<nat>
    requires n <= |key1| && n <= |key2|
  {
    set i: nat | i < n && key1[i] == key2[i]
  }

  lemma {:induction false} MatchesCount(key1: bytes, key2: bytes, n: nat)
    requires n <= |key1| && n <= |key2|
    ensures Matches(key1, key2, n) == |Agreeing(key1, key2, n)|
  {
    if n > 0 {
      MatchesCount(key1, key2, n - 1);
      var before, now := Agreeing(key1, key2, n - 1), Agreeing(key1, key2, n);
      assert now == if key1[n - 1] == key2[n - 1] then before + {n - 1} else before;
    }
  }

  /** The separator is as many bytes of the first key as there are positions where the keys agree, and one
      byte more: the next byte of the key one higher, or a space behind the whole key. */
  lemma SeparatorShape(key1: bytes, key2: bytes)
    ensures var s, n := Separator(key1, key2), |Agreeing(key1, key2, Min(|key1|, |key2|))|;
            && n <= |key1| && |s| == n + 1 && s[..n] == key1[..n]
            && s[n] == if n == |key1| then 0x20 else (key1[n] as int + 1) % 256
  {
    MatchesCount(key1, key2, Min(|key1|, |key2|));
    hide Matches;
    var n := Matches(key1, key2, Min(|key1|, |key2|));
    if n < |key1| { assert key1[..n + 1][..n] == key1[..n]; }
  }

  // ---------------------------------------------------------------- where the separator lies

  lemma {:induction false} MatchesAll(key1: bytes, key2: bytes, n: nat)
    requires n <= |key1| && n <= |key2|
    ensures Matches(key1, key2, n) == n <==> key1[..n] == key2[..n]
  {
    if n > 0 {
      MatchesAll(key1, key2, n - 1);
      assert key1[..n] == key1[..n - 1] + [key1[n - 1]] && key2[..n] == key2[..n - 1] + [key2[n - 1]];
    }
  }

  lemma {:induction false} MatchesFrom(key1: bytes, key2: bytes, p: nat, n: nat)
    requires p <= n <= |key1| && n <= |key2| && key1[..p] == key2[..p]
    ensures Matches(key1, key2, n) >= p
    decreases n
  {
    if p == n { MatchesAll(key1, key2, n); } else { MatchesFrom(key1, key2, p, n - 1); }
  }

  /** The matching positions are at least the common prefix, and all of key1 only if it is one. */
  lemma MatchesAndPrefix(key1: bytes, key2: bytes)
    requires Less(key1, key2)
    ensures var p, cnt := Common(key1, key2), Matches(key1, key2, Min(|key1|, |key2|));
            && p <= cnt
            && (cnt == |key1| <==> p == |key1|)
            && (p < |key1| ==> p < |key2| && key1[p] < key2[p])
            && (p == |key1| ==> p < |key2|)
  {
    hide Common;
    var p, m := Common(key1, key2), Min(|key1|, |key2|);
    MatchesFrom(key1, key2, p, m);
    MatchesAll(key1, key2, m);
    var k :| 0 <= k < |key2| && SmallerAt(key1, key2, k);
    assert forall i :: 0 <= i < k ==> key1[..k][i] == key2[..k][i];
    assert forall i :: 0 <= i < p ==> key1[..p][i] == key2[..p][i];
    assert key1[..|key1|] == key1;
    assert k == p;
  }

  lemma SmallerAtDecides(a: bytes, b: bytes, k: nat)
    requires SmallerAt(a, b, k)
    ensures Less(a, b) && !Less(b, a) && a != b
  {
    assert Less(a, b);
    Asymmetric(a, b);
  }

  /** The separator is above the first key exactly unless the byte it bumps is 0xFF. */
  lemma SeparatorAbove(key1: bytes, key2: bytes)
    requires Less(key1, key2)
    ensures var cnt := Matches(key1, key2, Min(|key1|, |key2|));
            Less(key1, Separator(key1, key2)) <==> cnt == |key1| || key1[cnt] != 0xFF
  {
    hide Matches, Bumped;
    var cnt := Matches(key1, key2, Min(|key1|, |key2|));
    var s := Separator(key1, key2);
    if cnt == |key1| {
      assert s[..cnt] == key1[..cnt] && SmallerAt(key1, s, cnt);
    } else {
      assert s[..cnt] == key1[..cnt + 1][..cnt] == key1[..cnt];
      if key1[cnt] == 0xFF {
        assert SmallerAt(s, key1, cnt);
        SmallerAtDecides(s, key1, cnt);
      } else {
        assert SmallerAt(key1, s, cnt);
      }
    }
  }

  /** The separator is at or below the second key exactly unless the first is a proper prefix of it
      followed by a byte below 0x20. This holds although the loop also counts matches behind the
      first difference. */
  lemma SeparatorAtMost(key1: bytes, key2: bytes)
    requires Less(key1, key2)
    ensures AtMost(Separator(key1, key2), key2) <==> !(key1 < key2 && key2[|key1|] < 0x20)
  {
    hide Common, Matches;
    MatchesAndPrefix(key1, key2);
    var p, cnt := Common(key1, key2), Matches(key1, key2, Min(|key1|, |key2|));
    if p == |key1| {
      assert key1[..p] == key1;
      PrefixSeparator(key1, key2);
    } else {
      assert key1[p] != key2[p];
      BumpedSeparator(key1, key2, p, cnt);
    }
  }

  lemma PrefixSeparator(key1: bytes, key2: bytes)
    requires key1 < key2
    ensures AtMost(key1 + [0x20], key2) <==> key2[|key1|] >= 0x20
  {
    var s, n := key1 + [0x20], |key1|;
    assert s[..n] == key1 == key2[..n];
    if key2[n] < 0x20 {
      assert SmallerAt(key2, s, n);
      SmallerAtDecides(key2, s, n);
    } else if key2[n] > 0x20 {
      assert SmallerAt(s, key2, n);
    } else if |key2| == n + 1 {
      assert key2 == s;
    } else {
      assert key2[..n + 1] == s == s[..n + 1];
      assert SmallerAt(s, key2, n + 1);
    }
  }

  lemma BumpedSeparator(key1: bytes, key2: bytes, p: nat, cnt: nat)
    requires p <= cnt < |key1| && p < |key2| && key1[..p] == key2[..p] && key1[p] < key2[p]
    ensures AtMost(Bumped(key1[..cnt + 1]), key2)
  {
    var s := Bumped(key1[..cnt + 1]);
    assert s[..cnt] == key1[..cnt + 1][..cnt] == key1[..cnt];
    assert s[..p] == s[..cnt][..p] == key1[..cnt][..p] == key1[..p];
    if cnt > p {
      assert s[p] == s[..cnt][p] == key1[p];
      assert SmallerAt(s, key2, p);
    } else if key1[p] as int + 1 < key2[p] {
      assert SmallerAt(s, key2, p);
    } else if |key2| == p + 1 {
      assert s == key2[..p] + [key2[p]] == key2;
    } else {
      assert s[..p + 1] == s && key2[..p + 1] == key2[..p] + [key2[p]];
      assert SmallerAt(s, key2, p + 1);
    }
  }

  /** The header promises a separator strictly below the second key; these two keys have none. */
  lemma NotAlwaysBelow()
    ensures Less([0x61], [0x62]) && Separator([0x61], [0x62]) == [0x62]
  {
    assert SmallerAt([0x61], [0x62], 0);
    assert Matches([0x61], [0x62], 1) == Matches([0x61], [0x62], 0);
  }

  /** The second key is the first with a space behind it. */
  predicate Spaced(key1: bytes, key2: bytes) {
    key2 == key1 + [0x20]
  }

  /** The second key is a non-empty beginning of the first with its last byte one higher. */
  predicate OneUp(key1: bytes, key2: bytes) {
    && 0 < |key2| <= |key1|
    && key2[..|key2| - 1] == key1[..|key2| - 1]
    && key2[|key2| - 1] == key1[|key2| - 1] as int + 1
  }

  lemma PrefixEqual(key1: bytes, key2: bytes)
    requires key1 < key2
    ensures Separator(key1, key2) == key2 <==> Spaced(key1, key2)
    ensures !OneUp(key1, key2)
  {
    assert key1[..|key1|] == key1;
    MatchesAll(key1, key2, |key1|);
  }

  lemma OneUpMatches(key1: bytes, key2: bytes)
    requires OneUp(key1, key2)
    ensures Matches(key1, key2, |key2|) == |key2| - 1
  {
    MatchesAll(key1, key2, |key2| - 1);
  }

  lemma OneUpBumped(key1: bytes, key2: bytes)
    requires OneUp(key1, key2)
    ensures Bumped(key1[..|key2|]) == key2
  {
    var n := |key2| - 1;
    assert key1[..n + 1][..n] == key1[..n];
    assert key2 == key2[..n] + [key2[n]];
  }

  lemma OneUpEqual(key1: bytes, key2: bytes)
    requires OneUp(key1, key2)
    ensures Separator(key1, key2) == key2
  {
    OneUpMatches(key1, key2);
    OneUpBumped(key1, key2);
    hide Matches, Bumped;
  }

  lemma EqualOneUp(key1: bytes, key2: bytes, p: nat, cnt: nat)
    requires p <= cnt < |key1| && p < |key2| && key1[..p] == key2[..p] && key1[p] < key2[p]
    requires Bumped(key1[..cnt + 1]) == key2
    ensures OneUp(key1, key2)
  {
    assert key2[..cnt] == key1[..cnt + 1][..cnt] == key1[..cnt];
    assert forall i :: 0 <= i < cnt ==> key2[..cnt][i] == key1[..cnt][i];
  }

  lemma NotSpaced(key1: bytes, key2: bytes, p: nat)
    requires p < |key1| && p < |key2| && key1[p] != key2[p]
    ensures !Spaced(key1, key2)
  {
  }

  /** The separator is the second key exactly if that is the first with a space behind it, or a
      beginning of the first with its last byte one higher. */
  lemma SeparatorEqual(key1: bytes, key2: bytes)
    requires Less(key1, key2)
    ensures Separator(key1, key2) == key2 <==> Spaced(key1, key2) || OneUp(key1, key2)
  {
    hide Common, Matches, Bumped, Less, Spaced, OneUp;
    MatchesAndPrefix(key1, key2);
    var p, cnt := Common(key1, key2), Matches(key1, key2, Min(|key1|, |key2|));
    if p == |key1| {
      assert key1[..p] == key1;
      PrefixEqual(key1, key2);
    } else {
      NotSpaced(key1, key2, p);
      if OneUp(key1, key2) { OneUpEqual(key1, key2); }
      if Separator(key1, key2) == key2 { EqualOneUp(key1, key2, p, cnt); }
    }
  }

  /** The header promises a separator strictly below the second key. It is exactly if it is at or below
      it and the second key is neither the first with a space behind it nor a beginning of the first
      with its last byte one higher. */
  lemma SeparatorBelow(key1: bytes, key2: bytes)
    requires Less(key1, key2)
    ensures Less(Separator(key1, key2), key2)
       <==> !(key1 < key2 && key2[|key1|] < 0x20) && !Spaced(key1, key2) && !OneUp(key1, key2)
  {
    hide Separator, Less, Spaced, OneUp;
    SeparatorAtMost(key1, key2);
    SeparatorEqual(key1, key2);
    Irreflexive(key2);
  }

  /** Two keys whose separator is below the first: the byte after as many as match is 0xFF. */
  lemma NotAlwaysAbove()
    ensures var key1, key2: bytes := [0x61, 0xFF, 0x63], [0x62, 0x00, 0x63];
            Less(key1, key2) && Separator(key1, key2) == [0x61, 0x00] && Less(Separator(key1, key2), key1)
  {
    var key1: bytes, key2: bytes := [0x61, 0xFF, 0x63], [0x62, 0x00, 0x63];
    assert SmallerAt(key1, key2, 0);
    assert Matches(key1, key2, 1) == Matches(key1, key2, 0);
    assert Matches(key1, key2, 3) == 1;
    assert key1[..2] == [0x61, 0xFF];
    assert SmallerAt([0x61, 0x00], key1, 1);
  }

  /** Two keys whose separator is above the second: the first is a prefix of it, followed by 0x01. */
  lemma NotAlwaysAtMost()
    ensures var key1, key2: bytes := [0x61], [0x61, 0x01];
            Less(key1, key2) && Separator(key1, key2) == [0x61, 0x20] && Less(key2, Separator(key1, key2))
  {
    var key1: bytes, key2: bytes := [0x61], [0x61, 0x01];
    assert key2[..1] == key1;
    assert SmallerAt(key1, key2, 1);
    assert Matches(key1, key2, 1) == 1;
    assert SmallerAt(key2, [0x61, 0x20], 1);
  }

  /** Bumping the last byte moves a key up exactly unless that byte is 0xFF. */
  lemma BumpedAbove(key: bytes)
    requires key != []
    ensures Less(key, Bumped(key)) <==> key[|key| - 1] != 0xFF
  {
    var n, s := |key| - 1, Bumped(key);
    if key[n] == 0xFF {
      assert SmallerAt(s, key, n);
      SmallerAtDecides(s, key, n);
    } else {
      assert SmallerAt(key, s, n);
    }
  }
}
