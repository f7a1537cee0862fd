/** The filter's hash, over wrapping 32-bit words. */
module Murmur {
  import opened Bytes
  import opened Codec
  import opened Words

  const SEED: uint32 := 0xbc451d34
  const M: uint32 := 0x5bd1e995

  /** `x *= m`, wrapping. */
  function TimesM(x: uint32): uint32 {
    x as int * M as int % TWO_32
  }

  // ---------------------------------------------------------------- the hash

  function Mixed4(h: uint32, word: uint32): uint32 {
    var k := TimesM(word);
    Xor(TimesM(h), TimesM(Xor(k, Shr(k, 24))))
  }

  /** All the whole little-endian words, front to back, from the hash so far. */
  function MixWords(h: uint32, data: bytes): uint32
    decreases |data|
  {
    if |data| < 4 then h else MixWords(Mixed4(h, DecodeFixed32(data)), data[4..])
  }

  /** The last one to three bytes. */
  function MixTail(h: uint32, tail: bytes): uint32
    requires |tail| < 4
  {
    var h3 := if |tail| >= 3 then Xor(h, tail[2] as int * 0x1_0000) else h;
    var h2 := if |tail| >= 2 then Xor(h3, tail[1] as int * 0x100) else h3;
    if |tail| >= 1 then TimesM(Xor(h2, tail[0])) else h2
  }

  function Finish(h: uint32): uint32 {
    var a := Xor(h, Shr(h, 13));
    var b := TimesM(a);
    Xor(b, Shr(b, 15))
  }

  /** The length of the part made of whole words. */
  function Whole(n: nat): (r: nat)
    ensures r <= n < r + 4 && r % 4 == 0
  {
    n - n % 4
  }

  function Hash(key: bytes): uint32 {
    Finish(MixTail(MixWords(Xor(SEED, ToU32(|key|)), key), key[Whole(|key|)..]))
  }

  /** The loop over whole words. */
  method HashWords(key: bytes, start: uint32) returns (h: uint32, data: nat)
    ensures data == Whole(|key|) && h == MixWords(start, key)
  {
    hide Xor, TimesM, DecodeFixed32;
    var len: nat;
    h, data, len := start, 0, |key|;
    assert key[0..] == key;
    while len >= 4
      invariant data + len == |key| && data % 4 == 0
      invariant MixWords(h, key[data..]) == MixWords(start, key)
    {
      assert key[data..][4..] == key[data + 4..];
      var k := DecodeFixed32(key[data..]);
      k := TimesM(k);
      k := Xor(k, Shr(k, 24));
      k := TimesM(k);
      h := TimesM(h);
      h := Xor(h, k);
      data := data + 4;
      len := len - 4;
    }
  }

  method MurmurHash2(key: bytes) returns (h: uint32)
    ensures h == Hash(key)
  {
    hide Xor, TimesM, MixWords;
    var data;
    h, data := HashWords(key, Xor(SEED, ToU32(|key|)));
    var len := |key| - data;
    if len == 3 {
      h := Xor(h, key[data + 2] as int * 0x1_0000);
    }
    if len >= 2 {
      h := Xor(h, key[data + 1] as int * 0x100);
    }
    if len >= 1 {
      h := Xor(h, key[data]);
      h := TimesM(h);
    }
    h := Xor(h, Shr(h, 13));
    h := TimesM(h);
    h := Xor(h, Shr(h, 15));
  }

  // ---------------------------------------------------------------- every step can be undone

  /** 1 modulo 2^32, times M. */
  const INVERSE: int := 0xe59b19bd

  lemma TimesMInverse(x: uint32)
    ensures TimesM(x) * INVERSE % TWO_32 == x
  {
    var q := x * M / TWO_32;
    assert x * M == q * TWO_32 + TimesM(x);
    assert TimesM(x) * INVERSE == x + TWO_32 * (x * 0x525a6746 - q * INVERSE);
    Remainder(x, x * 0x525a6746 - q * INVERSE);
  }

  lemma Remainder(x: uint32, k: int)
    ensures (x + TWO_32 * k) % TWO_32 == x
  {
  }

  lemma TimesMInjective(x: uint32, y: uint32)
    requires TimesM(x) == TimesM(y)
    ensures x == y
  {
    hide TimesM;
    TimesMInverse(x);
    TimesMInverse(y);
  }

  /** Mixing a word in loses neither the hash so far nor the word. */
  lemma Mixed4Injective(h: uint32, h': uint32, word: uint32, word': uint32)
    requires Mixed4(h, word) == Mixed4(h', word')
    ensures word == word' ==> h == h'
    ensures h == h' ==> word == word'
  {
    hide TimesM, Xor, Shr;
    var k, k' := TimesM(word), TimesM(word');
    var m, m' := Xor(k, Shr(k, 24)), Xor(k', Shr(k', 24));
    if word == word' {
      XorInjective(TimesM(h), TimesM(h'), TimesM(m));
      TimesMInjective(h, h');
    }
    if h == h' {
      XorInjective(TimesM(m), TimesM(m'), TimesM(h));
      TimesMInjective(m, m');
      XorShiftInjective(k, k', 24);
      TimesMInjective(word, word');
    }
  }

  lemma {:induction false} MixWordsInjective(h: uint32, h': uint32, data: bytes)
    requires MixWords(h, data) == MixWords(h', data)
    ensures h == h'
    decreases |data|
  {
    hide Mixed4, DecodeFixed32;
    if |data| >= 4 {
      var word := DecodeFixed32(data);
      MixWordsInjective(Mixed4(h, word), Mixed4(h', word), data[4..]);
      Mixed4Injective(h, h', word, word);
    }
  }

  /** Whole words at the front are mixed in before the rest. */
  lemma {:induction false} MixWordsSplit(h: uint32, front: bytes, rest: bytes)
    requires |front| % 4 == 0
    ensures MixWords(h, front + rest) == MixWords(MixWords(h, front), rest)
    decreases |front|
  {
    hide Mixed4, DecodeFixed32;
    if front == [] {
      assert front + rest == rest;
    } else {
      FirstFour(front, rest);
      MixWordsSplit(Mixed4(h, DecodeFixed32(front)), front[4..], rest);
      assert (front + rest)[4..] == front[4..] + rest;
    }
  }

  lemma FirstFour(front: bytes, rest: bytes)
    requires |front| >= 4
    ensures DecodeFixed32(front + rest) == DecodeFixed32(front)
  {
  }

  lemma FinishInjective(h: uint32, h': uint32)
    requires Finish(h) == Finish(h')
    ensures h == h'
  {
    hide TimesM, Xor, Shr;
    var a, a' := Xor(h, Shr(h, 13)), Xor(h', Shr(h', 13));
    XorShiftInjective(TimesM(a), TimesM(a'), 15);
    TimesMInjective(a, a');
    XorShiftInjective(h, h', 13);
  }

  lemma MixTailInjective(h: uint32, h': uint32, tail: bytes)
    requires |tail| < 4 && MixTail(h, tail) == MixTail(h', tail)
    ensures h == h'
  {
    hide TimesM, Xor;
    var h3 := if |tail| >= 3 then Xor(h, tail[2] as int * 0x1_0000) else h;
    var h3' := if |tail| >= 3 then Xor(h', tail[2] as int * 0x1_0000) else h';
    var h2 := if |tail| >= 2 then Xor(h3, tail[1] as int * 0x100) else h3;
    var h2' := if |tail| >= 2 then Xor(h3', tail[1] as int * 0x100) else h3';
    if |tail| >= 1 {
      TimesMInjective(Xor(h2, tail[0]), Xor(h2', tail[0]));
      XorInjective(h2, h2', tail[0]);
    }
    if |tail| >= 2 { XorInjective(h3, h3', tail[1] as int * 0x100); }
    if |tail| >= 3 { XorInjective(h, h', tail[2] as int * 0x1_0000); }
  }

  /** Two keys that differ in one whole word have different hashes. */
  lemma OneWordDiffers(front: bytes, word: bytes, word': bytes, rest: bytes)
    requires |front| % 4 == 0 && |word| == |word'| == 4 && word != word'
    ensures Hash(front + word + rest) != Hash(front + word' + rest)
  {
    hide MixWords, Mixed4, DecodeFixed32, Finish, MixTail, Xor;
    var key, key' := front + word + rest, front + word' + rest;
    var start := Xor(SEED, ToU32(|key|));
    if Hash(key) == Hash(key') {
      FinishInjective(MixTail(MixWords(start, key), key[Whole(|key|)..]), MixTail(MixWords(start, key'), key'[Whole(|key|)..]));
      assert key[Whole(|key|)..] == key'[Whole(|key|)..] by { TailAfter(front, word, word', rest); }
      MixTailInjective(MixWords(start, key), MixWords(start, key'), key[Whole(|key|)..]);
      WordIn(start, front, word, rest);
      WordIn(start, front, word', rest);
      var h := MixWords(start, front);
      MixWordsInjective(Mixed4(h, DecodeFixed32(word)), Mixed4(h, DecodeFixed32(word')), rest);
      Mixed4Injective(h, h, DecodeFixed32(word), DecodeFixed32(word'));
      Fixed32Unique(word);
      Fixed32Unique(word');
    }
  }

  lemma WordIn(start: uint32, front: bytes, word: bytes, rest: bytes)
    requires |front| % 4 == 0 && |word| == 4
    ensures MixWords(start, front + word + rest)
         == MixWords(Mixed4(MixWords(start, front), DecodeFixed32(word)), rest)
  {
    hide Mixed4, DecodeFixed32;
    assert front + word + rest == front + (word + rest);
    MixWordsSplit(start, front, word + rest);
    FirstFour(word, rest);
    assert (word + rest)[4..] == rest;
  }

  lemma TailAfter(front: bytes, word: bytes, word': bytes, rest: bytes)
    requires |front| % 4 == 0 && |word| == |word'| == 4
    ensures var n := Whole(|front + word + rest|);
            (front + word + rest)[n..] == (front + word' + rest)[n..]
  {
    var n, at := Whole(|front + word + rest|), |front| + 4;
    assert n >= at;
    assert (front + word + rest)[n..] == rest[n - at..] == (front + word' + rest)[n..];
  }

  /** Two keys that differ in one of the last bytes, behind the whole words, have different hashes. */
  lemma OneTailByteDiffers(front: bytes, tail: bytes, i: nat, b: byte)
    requires |front| % 4 == 0 && i < |tail| < 4 && b != tail[i]
    ensures Hash(front + tail) != Hash(front + tail[i := b])
  {
    hide MixWords, MixTail, Finish, Xor;
    var key, key' := front + tail, front + tail[i := b];
    var start := Xor(SEED, ToU32(|key|));
    var h := MixWords(start, front);
    WordsOnly(start, front, tail);
    WordsOnly(start, front, tail[i := b]);
    if Hash(key) == Hash(key') {
      FinishInjective(MixTail(h, tail), MixTail(h, tail[i := b]));
      TailByteDiffers(h, tail, i, b);
    }
  }

  lemma WordsOnly(start: uint32, front: bytes, tail: bytes)
    requires |front| % 4 == 0 && |tail| < 4
    ensures MixWords(start, front + tail) == MixWords(start, front)
    ensures Whole(|front + tail|) == |front| && (front + tail)[|front|..] == tail
  {
    hide Mixed4, DecodeFixed32;
    MixWordsSplit(start, front, tail);
    WholeFront(|front|, |tail|);
    NoWords(MixWords(start, front), tail);
  }

  lemma WholeFront(n: nat, m: nat)
    requires n % 4 == 0 && m < 4
    ensures Whole(n + m) == n
  {
  }

  lemma NoWords(h: uint32, tail: bytes)
    requires |tail| < 4
    ensures MixWords(h, tail) == h
  {
  }

  lemma TailByteDiffers(h: uint32, tail: bytes, i: nat, b: byte)
    requires i < |tail| < 4 && b != tail[i]
    ensures MixTail(h, tail) != MixTail(h, tail[i := b])
  {
    hide TimesM, Xor;
    var other := tail[i := b];
    if MixTail(h, tail) == MixTail(h, other) {
      var h3 := if |tail| >= 3 then Xor(h, tail[2] as int * 0x1_0000) else h;
      var h3' := if |tail| >= 3 then Xor(h, other[2] as int * 0x1_0000) else h;
      var h2 := if |tail| >= 2 then Xor(h3, tail[1] as int * 0x100) else h3;
      var h2' := if |tail| >= 2 then Xor(h3', other[1] as int * 0x100) else h3';
      TimesMInjective(Xor(h2, tail[0]), Xor(h2', other[0]));
      if i == 0 {
        XorInjective(tail[0], other[0], h2);
      } else {
        XorInjective(h2, h2', tail[0]);
        if i == 1 {
          XorInjective(tail[1] as int * 0x100, other[1] as int * 0x100, h3);
        } else {
          XorInjective(h3, h3', tail[1] as int * 0x100);
          XorInjective(tail[2] as int * 0x1_0000, other[2] as int * 0x1_0000, h);
        }
      }
    }
  }
}
