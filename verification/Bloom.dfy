/** The Bloom filter and the block that stores it. Bits are set by OR in the bytes of the bit array. */
module BloomFilters {
  import opened Bytes
  import opened Codec
  import opened Murmur
  import opened Words

  /** `(h >> 17) | (h << 15)`. */
  function Delta(h: uint32): uint32 {
    Or(Shr(h, 17), Shl(h, 15))
  }

  // ---------------------------------------------------------------- bits

  function Mask(k: nat): bv8
    requires k < 8
  {
    (1 as bv8) << k
  }

  predicate HasBit(b: bv8, k: nat)
    requires k < 8
  {
    b & Mask(k) != 0
  }

  function WithBit(b: bv8, k: nat): bv8
    requires k < 8
  {
    b | Mask(k)
  }

  /** A cleared bit array of this many bytes. */
  function NoBits(size: nat): (r: seq<bv8>)
    ensures |r| == size
  {
    seq(size, _ => 0)
  }

  predicate Bit(bits: seq<bv8>, p: nat)
    requires p < |bits| * 8
  {
    HasBit(bits[p / 8], p % 8)
  }

  function SetBit(bits: seq<bv8>, p: nat): (r: seq<bv8>)
    requires p < |bits| * 8
    ensures |r| == |bits|
  {
    bits[p / 8 := WithBit(bits[p / 8], p % 8)]
  }

  lemma OrSets(b: bv8, i: nat, j: nat)
    requires i < 8 && j < 8
    ensures HasBit(WithBit(b, i), j) <==> i == j || HasBit(b, j)
  {
  }

  lemma MaskTable()
    ensures Mask(0) == 1 && Mask(1) == 2 && Mask(2) == 4 && Mask(3) == 8
    ensures Mask(4) == 16 && Mask(5) == 32 && Mask(6) == 64 && Mask(7) == 128
  {
  }

  lemma MasksDecide(a: bv8, b: bv8)
    requires forall k :: 0 <= k < 8 ==> (HasBit(a, k) <==> HasBit(b, k))
    ensures a == b
  {
    hide Mask;
    MaskTable();
    assert (HasBit(a, 0) <==> HasBit(b, 0)) && (HasBit(a, 1) <==> HasBit(b, 1))
        && (HasBit(a, 2) <==> HasBit(b, 2)) && (HasBit(a, 3) <==> HasBit(b, 3))
        && (HasBit(a, 4) <==> HasBit(b, 4)) && (HasBit(a, 5) <==> HasBit(b, 5))
        && (HasBit(a, 6) <==> HasBit(b, 6)) && (HasBit(a, 7) <==> HasBit(b, 7));
  }

  /** Setting a bit sets that bit and no other. */
  lemma SetBitSets(bits: seq<bv8>, p: nat, q: nat)
    requires p < |bits| * 8 && q < |bits| * 8
    ensures Bit(SetBit(bits, p), q) <==> p == q || Bit(bits, q)
  {
    hide HasBit, WithBit;
    var i, k, j, l := p / 8, p % 8, q / 8, q % 8;
    assert p == i * 8 + k && q == j * 8 + l;
    if i == j {
      OrSets(bits[i], k, l);
    }
  }

  lemma BitsDecide(a: seq<bv8>, b: seq<bv8>)
    requires |a| == |b| && forall p :: 0 <= p < |a| * 8 ==> (Bit(a, p) <==> Bit(b, p))
    ensures a == b
  {
    hide HasBit;
    forall i | 0 <= i < |a| ensures a[i] == b[i] {
      forall k | 0 <= k < 8 ensures HasBit(a[i], k) <==> HasBit(b[i], k) {
        var p := i * 8 + k;
        assert p / 8 == i && p % 8 == k;
        assert Bit(a, p) <==> Bit(b, p);
      }
      MasksDecide(a[i], b[i]);
    }
  }

  // ---------------------------------------------------------------- the filter's meaning

  /** `bits_array.size() * 8`, as a 32-bit word. */
  function BitsSize(bits: seq<bv8>): (r: uint32)
    ensures r <= |bits| * 8
  {
    ToU32(|bits| * 8)
  }

  /** The hash after j rounds of adding delta. */
  function Round(h: uint32, j: nat): uint32 {
    if j == 0 then h else Plus(Round(h, j - 1), Delta(h))
  }

  /** The j-th bit position of a key in an array of this many bits. */
  function Position(key: bytes, j: nat, size: uint32): (p: nat)
    requires size > 0
    ensures p < size
  {
    Round(Hash(key), j) % size
  }

  /** The bits after the first n rounds for a key. */
  function Added(bits: seq<bv8>, key: bytes, n: nat): (r: seq<bv8>)
    requires BitsSize(bits) > 0
    ensures |r| == |bits|
  {
    if n == 0 then bits else SetBit(Added(bits, key, n - 1), Position(key, n - 1, BitsSize(bits)))
  }

  function AddedAll(bits: seq<bv8>, keys: seq<bytes>, n: nat): (r: seq<bv8>)
    requires BitsSize(bits) > 0
    ensures |r| == |bits|
  {
    if keys == [] then bits else Added(AddedAll(bits, keys[..|keys| - 1], n), keys[|keys| - 1], n)
  }

  predicate AllSet(bits: seq<bv8>, key: bytes, n: nat)
    requires BitsSize(bits) > 0
  {
    forall j :: 0 <= j < n ==> Bit(bits, Position(key, j, BitsSize(bits)))
  }

  /** Whether the filter says the key may be there. */
  predicate MayContain(bits: seq<bv8>, key: bytes, n: nat)
    requires BitsSize(bits) > 0
  {
    key != [] && AllSet(bits, key, n)
  }

  ghost predicate Hit(key: bytes, n: nat, size: uint32, q: nat)
    requires size > 0
  {
    exists j :: 0 <= j < n && Position(key, j, size) == q
  }

  lemma {:induction false} AddedBits(bits: seq<bv8>, key: bytes, n: nat, q: nat)
    requires BitsSize(bits) > 0 && q < |bits| * 8
    ensures Bit(Added(bits, key, n), q) <==> Bit(bits, q) || Hit(key, n, BitsSize(bits), q)
  {
    hide Bit, SetBit, Position;
    if n > 0 {
      var size := BitsSize(bits);
      AddedBits(bits, key, n - 1, q);
      SetBitSets(Added(bits, key, n - 1), Position(key, n - 1, size), q);
      assert Hit(key, n, size, q) <==> Hit(key, n - 1, size, q) || Position(key, n - 1, size) == q;
    }
  }

  /** A bit is set after adding keys exactly if it was set or is a position of one of them. */
  lemma {:induction false} AddedAllBits(bits: seq<bv8>, keys: seq<bytes>, n: nat, q: nat)
    requires BitsSize(bits) > 0 && q < |bits| * 8
    ensures Bit(AddedAll(bits, keys, n), q)
       <==> Bit(bits, q) || exists key :: key in keys && Hit(key, n, BitsSize(bits), q)
  {
    hide Bit, Hit, Added, Position;
    if keys != [] {
      var before, last := keys[..|keys| - 1], keys[|keys| - 1];
      AddedAllBits(bits, before, n, q);
      AddedBits(AddedAll(bits, before, n), last, n, q);
      assert keys == before + [last];
    }
  }

  /** Neither order nor repetition matters: only which keys were added. */
  lemma OrderIrrelevant(bits: seq<bv8>, some: seq<bytes>, others: seq<bytes>, n: nat)
    requires BitsSize(bits) > 0 && forall key :: key in some <==> key in others
    ensures AddedAll(bits, some, n) == AddedAll(bits, others, n)
  {
    hide Bit, Hit, AddedAll;
    var a, b := AddedAll(bits, some, n), AddedAll(bits, others, n);
    forall p | 0 <= p < |bits| * 8 ensures Bit(a, p) <==> Bit(b, p) {
      AddedAllBits(bits, some, n, p);
      AddedAllBits(bits, others, n, p);
    }
    BitsDecide(a, b);
  }

  /** Building the filter a second time from the same keys changes nothing. */
  lemma AddingAgain(bits: seq<bv8>, keys: seq<bytes>, n: nat)
    requires BitsSize(bits) > 0
    ensures AddedAll(AddedAll(bits, keys, n), keys, n) == AddedAll(bits, keys, n)
  {
    hide Bit, Hit, AddedAll;
    var once := AddedAll(bits, keys, n);
    var twice := AddedAll(once, keys, n);
    forall p | 0 <= p < |bits| * 8 ensures Bit(twice, p) <==> Bit(once, p) {
      AddedAllBits(bits, keys, n, p);
      AddedAllBits(once, keys, n, p);
    }
    BitsDecide(twice, once);
  }

  /** No false negatives, and none appear as more keys are added. */
  lemma AddedIsFound(bits: seq<bv8>, keys: seq<bytes>, n: nat, key: bytes)
    requires BitsSize(bits) > 0 && (key in keys || AllSet(bits, key, n))
    ensures AllSet(AddedAll(bits, keys, n), key, n)
  {
    hide Bit, AddedAll, Position;
    var size := BitsSize(bits);
    forall j | 0 <= j < n ensures Bit(AddedAll(bits, keys, n), Position(key, j, size)) {
      AddedAllBits(bits, keys, n, Position(key, j, size));
      assert Hit(key, n, size, Position(key, j, size));
    }
  }

  // ---------------------------------------------------------------- positions in numbers

  /** `(h + j * delta) % size` in 32 bits, where delta is h with its upper fifteen and its lower
      seventeen bits exchanged. */
  function Spot(h: uint32, j: nat, size: uint32): (p: nat)
    requires size > 0
    ensures p < size
  {
    (h + j * (h / 0x2_0000 + h % 0x2_0000 * 0x8000)) % TWO_32 % size
  }

  lemma OneMore(h: uint32, m: nat, d: uint32, m': nat)
    requires m' == m + d
    ensures Plus((h + m) % TWO_32, d) == (h + m') % TWO_32
  {
  }

  lemma {:induction false} RoundIs(h: uint32, j: nat)
    ensures Round(h, j) == (h + j * Delta(h)) % TWO_32
  {
    hide Delta, Plus;
    if j > 0 {
      RoundIs(h, j - 1);
      Times(j - 1, Delta(h));
      OneMore(h, (j - 1) * Delta(h), Delta(h), j * Delta(h));
    }
  }

  lemma Times(j: nat, d: nat)
    ensures (j + 1) * d == j * d + d && j * d >= 0
  {
  }

  /** The j-th position of a key, in numbers. */
  lemma PositionIs(key: bytes, j: nat, size: uint32)
    requires size > 0
    ensures Position(key, j, size) == Spot(Hash(key), j, size)
  {
    hide Or, Shr, Shl, Round, Hash;
    RoundIs(Hash(key), j);
    Rotated(Hash(key));
  }

  /** Some key has a position at p. */
  ghost predicate Taken(keys: seq<bytes>, n: nat, size: uint32, p: nat)
    requires size > 0
  {
    exists key, j :: key in keys && 0 <= j < n && Spot(Hash(key), j, size) == p
  }

  lemma NothingSet(size: nat, p: nat)
    requires p < size * 8
    ensures !Bit(NoBits(size), p)
  {
  }

  lemma HitIsTaken(keys: seq<bytes>, n: nat, size: uint32, p: nat)
    requires size > 0
    ensures (exists key :: key in keys && Hit(key, n, size, p)) <==> Taken(keys, n, size, p)
  {
    hide Position, Spot, Hash;
    if key :| key in keys && Hit(key, n, size, p) {
      var j :| 0 <= j < n && Position(key, j, size) == p;
      PositionIs(key, j, size);
    }
    if key, j :| key in keys && 0 <= j < n && Spot(Hash(key), j, size) == p {
      PositionIs(key, j, size);
      assert Hit(key, n, size, p);
    }
  }

  /** After these keys the filter says yes exactly to the non-empty keys all of whose positions are taken. */
  lemma FilterAnswers(size: nat, keys: seq<bytes>, n: nat, key: bytes)
    requires ToU32(size * 8) > 0
    ensures var bits := AddedAll(NoBits(size), keys, n);
            MayContain(bits, key, n)
            <==> key != [] && forall j :: 0 <= j < n ==> Taken(keys, n, ToU32(size * 8), Spot(Hash(key), j, ToU32(size * 8)))
  {
    hide Bit, NoBits, AddedAll, Position, Spot, Hash, Taken, Hit;
    var bits, words := NoBits(size), ToU32(size * 8);
    forall j | 0 <= j < n
      ensures Bit(AddedAll(bits, keys, n), Position(key, j, words)) <==> Taken(keys, n, words, Spot(Hash(key), j, words))
    {
      var p := Position(key, j, words);
      AddedAllBits(bits, keys, n, p);
      NothingSet(size, p);
      HitIsTaken(keys, n, words, p);
      PositionIs(key, j, words);
    }
    if MayContain(AddedAll(bits, keys, n), key, n) {
      forall j | 0 <= j < n ensures Taken(keys, n, words, Spot(Hash(key), j, words)) {
        assert Bit(AddedAll(bits, keys, n), Position(key, j, words));
      }
    }
  }

  /** Bit p is bit p % 8 of byte p / 8, the lowest first: setting it in an empty array makes that byte the
      power of two and leaves the others 0. */
  lemma BitPlace(size: nat, p: nat, i: nat)
    requires p < size * 8 && i < size
    ensures SetBit(NoBits(size), p)[i]
         == if i == p / 8 then [1, 2, 4, 8, 16, 32, 64, 128][p % 8] else 0
  {
    MaskTable();
  }

  // ---------------------------------------------------------------- the filter

  class BloomFilter {
    var hashFuncNum: nat
    var bits: seq<bv8>
    ghost var inserted: set<bytes>

    /** Every key inserted so far has all its bits set. */
    ghost predicate Valid()
      reads this
    {
      BitsSize(bits) > 0 && forall key :: key in inserted ==> AllSet(bits, key, hashFuncNum)
    }

    constructor (hashFuncNum: nat, size: nat)
      requires ToU32(size * 8) > 0
      ensures Valid() && inserted == {} && this.hashFuncNum == hashFuncNum && bits == NoBits(size)
    {
      this.hashFuncNum := hashFuncNum;
      bits := NoBits(size);
      inserted := {};
    }

    /** The rounds for one key. */
    method SetPositions(key: bytes)
      requires BitsSize(bits) > 0
      modifies this`bits
      ensures bits == Added(old(bits), key, hashFuncNum)
    {
      hide Hash, Delta, Plus, SetBit;
      var bitsSize := BitsSize(bits);
      var h := MurmurHash2(key);
      var delta := Delta(h);
      for j := 0 to hashFuncNum
        invariant bits == Added(old(bits), key, j) && h == Round(Hash(key), j)
      {
        var bitPos := h % bitsSize;
        bits := SetBit(bits, bitPos);
        h := Plus(h, delta);
      }
    }

    method CreateFilter(keys: seq<bytes>)
      requires Valid()
      modifies this`bits, this`inserted
      ensures Valid() && bits == AddedAll(old(bits), keys, hashFuncNum)
      ensures inserted == old(inserted) + set key | key in keys
    {
      hide AllSet, Added;
      for i := 0 to |keys|
        invariant BitsSize(bits) == BitsSize(old(bits)) && bits == AddedAll(old(bits), keys[..i], hashFuncNum)
        invariant unchanged(this`inserted)
      {
        assert keys[..i + 1][..i] == keys[..i];
        SetPositions(keys[i]);
      }
      assert keys[..|keys|] == keys;
      inserted := inserted + set key | key in keys;
      forall key | key in inserted ensures AllSet(bits, key, hashFuncNum) {
        AddedIsFound(old(bits), keys, hashFuncNum, key);
      }
    }

    method Add(key: bytes)
      requires Valid()
      modifies this`bits, this`inserted
      ensures Valid() && bits == AddedAll(old(bits), if key == [] then [] else [key], hashFuncNum)
      ensures inserted == old(inserted) + if key == [] then {} else {key}
    {
      hide AllSet, Added;
      if key != [] {
        assert [key][..0] == [];
        SetPositions(key);
        inserted := inserted + {key};
        forall k | k in inserted ensures AllSet(bits, k, hashFuncNum) {
          AddedIsFound(old(bits), [key], hashFuncNum, k);
        }
      }
    }

    method Exists(key: bytes) returns (found: bool)
      requires Valid()
      ensures found <==> MayContain(bits, key, hashFuncNum)
      ensures key in inserted && key != [] ==> found
    {
      hide Hash, Delta, Plus, Bit;
      if key == [] {
        return false;
      }
      var bitsSize := BitsSize(bits);
      var h := MurmurHash2(key);
      var delta := Delta(h);
      for j := 0 to hashFuncNum
        invariant h == Round(Hash(key), j)
        invariant forall i :: 0 <= i < j ==> Bit(bits, Position(key, i, bitsSize))
      {
        var bitPos := h % bitsSize;
        assert bitPos == Position(key, j, bitsSize);
        if !Bit(bits, bitPos) {
          return false;
        }
        h := Plus(h, delta);
      }
      return true;
    }

    /** Used when a filter is read back; the restored filter has no history of its own. */
    method CreateFilter2(hashFuncNum: nat, bits: seq<bv8>)
      requires BitsSize(bits) > 0
      modifies this
      ensures Valid() && this.hashFuncNum == hashFuncNum && this.bits == bits && inserted == {}
    {
      this.hashFuncNum := hashFuncNum;
      this.bits := bits;
      inserted := {};
    }
  }

  // ---------------------------------------------------------------- the filter block

  function ToByte(b: bv8): byte {
    b as int
  }

  function FromByte(x: byte): bv8 {
    x as bv8
  }

  lemma ByteRoundTrip(b: bv8)
    ensures FromByte(ToByte(b)) == b
  {
  }

  function ToBytes(bits: seq<bv8>): (r: bytes)
    ensures |r| == |bits|
  {
    seq(|bits|, i requires 0 <= i < |bits| => ToByte(bits[i]))
  }

  function FromBytes(data: bytes): (r: seq<bv8>)
    ensures |r| == |data|
  {
    seq(|data|, i requires 0 <= i < |data| => FromByte(data[i]))
  }

  /** The bit array, then the number of hash functions. */
  function FilterBlock(bits: seq<bv8>, n: nat): (r: bytes)
    ensures |r| == |bits| + 4
  {
    ToBytes(bits) + Fixed32(ToU32(n))
  }

  /** A byte of the block is that byte of the bit array; the last four are the hash number, lowest first. */
  lemma FilterBlockBytes(bits: seq<bv8>, n: nat, i: nat)
    requires n <= INT32_MAX && i < |bits|
    ensures FilterBlock(bits, n)[i] == bits[i] as int
    ensures LittleEndian(FilterBlock(bits, n)[|bits|..]) == n
  {
    hide Fixed32, LittleEndian;
    Fixed32LittleEndian(n);
    assert FilterBlock(bits, n)[|bits|..] == Fixed32(ToU32(n));
  }

  datatype Restored = Restored(bits: seq<bv8>, hashFuncNum: uint32)

  function ReadFilterBlock(data: bytes): Restored
    requires |data| >= 4
  {
    Restored(FromBytes(data[..|data| - 4]), DecodeFixed32(data[|data| - 4..]))
  }

  /** A filter read back from its block is the filter that was written, so it gives every key the
      same answer. */
  lemma FilterRoundTrip(bits: seq<bv8>, n: nat, key: bytes)
    requires BitsSize(bits) > 0 && n <= INT32_MAX
    ensures ReadFilterBlock(FilterBlock(bits, n)) == Restored(bits, n)
    ensures var r := ReadFilterBlock(FilterBlock(bits, n));
            MayContain(r.bits, key, r.hashFuncNum) <==> MayContain(bits, key, n)
  {
    hide Fixed32, DecodeFixed32, FromByte, ToByte, AllSet;
    var data := FilterBlock(bits, n);
    assert data[|bits|..] == Fixed32(ToU32(n)) + [];
    Fixed32RoundTrip(ToU32(n), []);
    assert data[..|bits|] == ToBytes(bits);
    forall i | 0 <= i < |bits| ensures FromBytes(ToBytes(bits))[i] == bits[i] { ByteRoundTrip(bits[i]); }
    assert FromBytes(ToBytes(bits)) == bits;
  }

  class FilterBlockBuilder {
    const filterPolicy: BloomFilter
    var keyData: seq<bytes>
    var data: bytes

    ghost predicate Valid()
      reads this, filterPolicy
    {
      filterPolicy.Valid() && [] !in keyData
    }

    constructor (hashFuncNum: nat, size: nat)
      requires ToU32(size * 8) > 0
      ensures Valid() && fresh(filterPolicy) && keyData == [] && data == []
      ensures filterPolicy.bits == NoBits(size) && filterPolicy.hashFuncNum == hashFuncNum
    {
      filterPolicy := new BloomFilter(hashFuncNum, size);
      keyData, data := [], [];
    }

    method Add(key: bytes)
      requires Valid()
      modifies this`keyData
      ensures Valid() && keyData == old(keyData) + if key == [] then [] else [key]
    {
      if key != [] {
        keyData := keyData + [key];
      }
    }

    /** May be called again: the filter and the block do not change. */
    method FinishFilterBlock()
      requires Valid()
      modifies this`data, filterPolicy
      ensures Valid() && filterPolicy.hashFuncNum == old(filterPolicy.hashFuncNum)
      ensures filterPolicy.bits == AddedAll(old(filterPolicy.bits), keyData, filterPolicy.hashFuncNum)
      ensures data == FilterBlock(filterPolicy.bits, filterPolicy.hashFuncNum)
      ensures filterPolicy.inserted == old(filterPolicy.inserted) + set key | key in keyData
      ensures filterPolicy.bits == AddedAll(filterPolicy.bits, keyData, filterPolicy.hashFuncNum)
    {
      hide AllSet, Added;
      if keyData != [] {
        filterPolicy.CreateFilter(keyData);
      }
      AddingAgain(old(filterPolicy.bits), keyData, filterPolicy.hashFuncNum);
      data := ToBytes(filterPolicy.bits);
      data := data + Fixed32(ToU32(filterPolicy.hashFuncNum));
    }
  }
}
