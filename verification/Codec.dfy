/** Little-endian fixed-width integers, and the two-field struct that is written as one of them. */
module Codec {
  import opened Bytes

  const TWO_32 := 0x1_0000_0000
  const INT32_MAX := 0x7fff_ffff

  type uint32 = x: int | 0 <= x < 0x1_0000_0000
  type uint64 = x: int | 0 <= x < 0x1_0000_0000_0000_0000
  type int32 = x: int | -0x8000_0000 <= x < 0x8000_0000

  /** Conversion to `uint32_t`. */
  function ToU32(x: int): uint32 {
    x % TWO_32
  }

  /** Conversion to `int32_t`. */
  function ToI32(x: int): int32 {
    var u := x % TWO_32;
    if u <= INT32_MAX then u else u - TWO_32
  }

  function Fixed32(val: uint32): (buf: bytes)
    ensures |buf| == 4
  {
    [val % 256, val / 0x100 % 256, val / 0x1_0000 % 256, val / 0x100_0000 % 256]
  }

  function Fixed64(val: uint64): (buf: bytes)
    ensures |buf| == 8
  {
    [val % 256, val / 0x100 % 256, val / 0x1_0000 % 256, val / 0x100_0000 % 256,
     val / 0x1_0000_0000 % 256, val / 0x100_0000_0000 % 256,
     val / 0x1_0000_0000_0000 % 256, val / 0x100_0000_0000_0000 % 256]
  }

  function DecodeFixed32(data: bytes): uint32
    requires |data| >= 4
  {
    data[0] as int + data[1] as int * 0x100 + data[2] as int * 0x1_0000 + data[3] as int * 0x100_0000
  }

  function DecodeFixed64(data: bytes): uint64
    requires |data| >= 8
  {
    data[0] as int + data[1] as int * 0x100 + data[2] as int * 0x1_0000 + data[3] as int * 0x100_0000
    + data[4] as int * 0x1_0000_0000 + data[5] as int * 0x100_0000_0000
    + data[6] as int * 0x1_0000_0000_0000 + data[7] as int * 0x100_0000_0000_0000
  }

  method EncodeFixed32(buf: array<byte>, val: uint32)
    requires buf.Length >= 4
    modifies buf
    ensures buf[..] == Fixed32(val) + old(buf[4..])
  {
    buf[0] := val % 256;
    buf[1] := val / 0x100 % 256;
    buf[2] := val / 0x1_0000 % 256;
    buf[3] := val / 0x100_0000 % 256;
  }

  method EncodeFixed64(buf: array<byte>, val: uint64)
    requires buf.Length >= 8
    modifies buf
    ensures buf[..] == Fixed64(val) + old(buf[8..])
  {
    buf[0] := val % 256;
    buf[1] := val / 0x100 % 256;
    buf[2] := val / 0x1_0000 % 256;
    buf[3] := val / 0x100_0000 % 256;
    buf[4] := val / 0x1_0000_0000 % 256;
    buf[5] := val / 0x100_0000_0000 % 256;
    buf[6] := val / 0x1_0000_0000_0000 % 256;
    buf[7] := val / 0x100_0000_0000_0000 % 256;
  }

  lemma DivSteps(x: nat)
    ensures x / 0x1_0000 == x / 0x100 / 0x100
    ensures x / 0x100_0000 == x / 0x1_0000 / 0x100
  {
  }

  /** Decoding what was encoded gives the value back, whatever follows; and encoding what was
      decoded gives the bytes back. */
  lemma Fixed32RoundTrip(val: uint32, rest: bytes)
    ensures DecodeFixed32(Fixed32(val) + rest) == val
  {
    DivSteps(val);
    var buf := Fixed32(val) + rest;
    assert buf[0] == val % 256 && buf[1] == val / 0x100 % 256
        && buf[2] == val / 0x1_0000 % 256 && buf[3] == val / 0x100_0000 % 256;
  }

  lemma Fixed32Unique(data: bytes)
    requires |data| == 4
    ensures Fixed32(DecodeFixed32(data)) == data
  {
    var val := DecodeFixed32(data);
    DivSteps(val);
    LowByte(data[0], data[1] as int + data[2] as int * 0x100 + data[3] as int * 0x1_0000);
    LowByte(data[1], data[2] as int + data[3] as int * 0x100);
    LowByte(data[2], data[3]);
    assert val / 0x100 / 0x100 == data[2] as int + data[3] as int * 0x100;
  }

  lemma LowByte(low: byte, high: nat)
    ensures (low as int + high * 0x100) / 0x100 == high && (low as int + high * 0x100) % 0x100 == low
  {
  }

  lemma SameByte(q: nat, h: nat)
    ensures (q + h * 0x100) % 256 == q % 256
  {
  }

  lemma Quotient8(a: nat, r: nat)
    requires r < 0x100
    ensures (a * 0x100 + r) / 0x100 == a
  {
  }

  lemma Quotient16(a: nat, r: nat)
    requires r < 0x1_0000
    ensures (a * 0x1_0000 + r) / 0x1_0000 == a
  {
  }

  lemma Quotient24(a: nat, r: nat)
    requires r < 0x100_0000
    ensures (a * 0x100_0000 + r) / 0x100_0000 == a
  {
  }

  lemma Below8(low: uint32, high: uint32)
    ensures (low as int + high as int * TWO_32) % 256 == low % 256
    ensures (low as int + high as int * TWO_32) / 0x100 % 256 == low / 0x100 % 256
  {
    SameByte(low, high as int * 0x100_0000);
    Quotient8(low / 0x100 + high as int * 0x100_0000, low % 0x100);
    SameByte(low / 0x100, high as int * 0x1_0000);
  }

  lemma Below16(low: uint32, high: uint32)
    ensures (low as int + high as int * TWO_32) / 0x1_0000 % 256 == low / 0x1_0000 % 256
  {
    Quotient16(low / 0x1_0000 + high as int * 0x1_0000, low % 0x1_0000);
    SameByte(low / 0x1_0000, high as int * 0x100);
  }

  lemma Below24(low: uint32, high: uint32)
    ensures (low as int + high as int * TWO_32) / 0x100_0000 % 256 == low / 0x100_0000 % 256
  {
    Quotient24(low / 0x100_0000 + high as int * 0x100, low % 0x100_0000);
    SameByte(low / 0x100_0000, high);
  }

  lemma Above(low: uint32, high: uint32)
    ensures var val := low as int + high as int * TWO_32;
            val / 0x1_0000_0000 == high && val / 0x100_0000_0000 == high / 0x100
  {
  }

  lemma FarAbove(low: uint32, high: uint32)
    ensures var val := low as int + high as int * TWO_32;
            val / 0x1_0000_0000_0000 == high / 0x1_0000 && val / 0x100_0000_0000_0000 == high / 0x100_0000
  {
  }

  /** A 64-bit value is its low half followed by its high half. */
  lemma Fixed64Halves(low: uint32, high: uint32)
    ensures low + high * TWO_32 < 0x1_0000_0000_0000_0000
    ensures Fixed64(low + high * TWO_32) == Fixed32(low) + Fixed32(high)
  {
    Below8(low, high);
    Below16(low, high);
    Below24(low, high);
    Above(low, high);
    FarAbove(low, high);
  }

  lemma Fixed64RoundTrip(val: uint64, rest: bytes)
    ensures DecodeFixed64(Fixed64(val) + rest) == val
  {
    var low, high := val % TWO_32, val / TWO_32;
    Fixed64Halves(low, high);
    Fixed32RoundTrip(low, []);
    Fixed32RoundTrip(high, []);
    var buf := Fixed64(val) + rest;
    assert buf[..4] == Fixed32(low) + [] && buf[4..8] == Fixed32(high) + [];
    assert DecodeFixed64(buf) == DecodeFixed32(buf[..4]) + DecodeFixed32(buf[4..8]) * TWO_32;
  }

  /** The number whose base-256 digits these are, the lowest first. */
  function LittleEndian(data: bytes): nat {
    if data == [] then 0 else data[0] as int + 256 * LittleEndian(data[1..])
  }

  lemma LittleEndian4(data: bytes)
    requires |data| >= 4
    ensures DecodeFixed32(data) == LittleEndian(data[..4])
  {
    var a, b, c, d := data[..4], data[..4][1..], data[..4][2..], data[..4][3..];
    assert a[1..] == b && b[1..] == c && c[1..] == d && d[1..] == [];
    assert LittleEndian(d) == data[3] as int;
    assert LittleEndian(c) == data[2] as int + 256 * LittleEndian(d);
    assert LittleEndian(b) == data[1] as int + 256 * LittleEndian(c);
    assert LittleEndian(a) == data[0] as int + 256 * LittleEndian(b);
  }

  /** Encoded and decoded words have their lowest byte first. */
  lemma Fixed32LittleEndian(val: uint32)
    ensures LittleEndian(Fixed32(val)) == val
  {
    hide LittleEndian, Fixed32, DecodeFixed32;
    Fixed32RoundTrip(val, []);
    assert Fixed32(val) + [] == Fixed32(val) && Fixed32(val)[..4] == Fixed32(val);
    LittleEndian4(Fixed32(val));
  }

  lemma {:induction false} LittleEndianConcat(a: bytes, b: bytes)
    requires |a| == 4
    ensures LittleEndian(a + b) == LittleEndian(a) + TWO_32 * LittleEndian(b)
  {
    var s, a1, a2, a3 := a + b, a[1..], a[2..], a[3..];
    assert s[1..] == a1 + b && (a1 + b)[1..] == a2 + b && (a2 + b)[1..] == a3 + b && (a3 + b)[1..] == b;
    assert a1[1..] == a2 && a2[1..] == a3 && a3[1..] == [];
    assert LittleEndian(s) == a[0] as int + 256 * LittleEndian(a1 + b);
    assert LittleEndian(a1 + b) == a[1] as int + 256 * LittleEndian(a2 + b);
    assert LittleEndian(a2 + b) == a[2] as int + 256 * LittleEndian(a3 + b);
    assert LittleEndian(a3 + b) == a[3] as int + 256 * LittleEndian(b);
    assert LittleEndian(a) == a[0] as int + 256 * LittleEndian(a1);
    assert LittleEndian(a1) == a[1] as int + 256 * LittleEndian(a2);
    assert LittleEndian(a2) == a[2] as int + 256 * LittleEndian(a3);
    assert LittleEndian(a3) == a[3] as int;
  }

  lemma Fixed64LittleEndian(val: uint64)
    ensures LittleEndian(Fixed64(val)) == val
  {
    hide LittleEndian, Fixed32, Fixed64;
    var low, high := val % TWO_32, val / TWO_32;
    Fixed64Halves(low, high);
    Fixed32LittleEndian(low);
    Fixed32LittleEndian(high);
    LittleEndianConcat(Fixed32(low), Fixed32(high));
  }

  // ---------------------------------------------------------------- OffsetInfo

  datatype OffsetInfo = OffsetInfo(size: int32, offset: int32)

  /** The struct's eight bytes read as one little-endian integer. */
  function AsInt64(info: OffsetInfo): uint64 {
    ToU32(info.size) + ToU32(info.offset) * TWO_32
  }

  /** The eight bytes of the struct at the start of the data. */
  function ReadOffsetInfo(data: bytes): OffsetInfo
    requires |data| >= 8
  {
    OffsetInfo(ToI32(DecodeFixed32(data)), ToI32(DecodeFixed32(data[4..])))
  }

  function OffsetInfoBytes(info: OffsetInfo): (r: bytes)
    ensures |r| == 8
  {
    Fixed64(AsInt64(info))
  }

  lemma OffsetInfoHalves(info: OffsetInfo)
    ensures OffsetInfoBytes(info) == Fixed32(ToU32(info.size)) + Fixed32(ToU32(info.offset))
  {
    Fixed64Halves(ToU32(info.size), ToU32(info.offset));
  }

  /** The bytes of the struct: its size, then its offset, each lowest byte first. */
  lemma OffsetInfoFields(info: OffsetInfo)
    ensures LittleEndian(OffsetInfoBytes(info)[..4]) == ToU32(info.size)
    ensures LittleEndian(OffsetInfoBytes(info)[4..]) == ToU32(info.offset)
  {
    hide LittleEndian, Fixed32, OffsetInfoBytes;
    OffsetInfoHalves(info);
    Fixed32LittleEndian(ToU32(info.size));
    Fixed32LittleEndian(ToU32(info.offset));
    assert OffsetInfoBytes(info)[..4] == Fixed32(ToU32(info.size));
    assert OffsetInfoBytes(info)[4..] == Fixed32(ToU32(info.offset));
  }

  lemma WordUnique(x: uint32)
    ensures ToU32(ToI32(x)) == x
  {
  }

  /** Reading eight bytes as the struct and writing it gives the bytes back. */
  lemma OffsetInfoUnique(data: bytes)
    requires |data| == 8
    ensures OffsetInfoBytes(ReadOffsetInfo(data)) == data
  {
    hide Fixed32, DecodeFixed32, OffsetInfoBytes, ToI32, ToU32;
    OffsetInfoHalves(ReadOffsetInfo(data));
    WordUnique(DecodeFixed32(data));
    WordUnique(DecodeFixed32(data[4..]));
    FourOf(data);
    Fixed32Unique(data[..4]);
    Fixed32Unique(data[4..]);
  }

  lemma FourOf(data: bytes)
    requires |data| >= 4
    ensures DecodeFixed32(data) == DecodeFixed32(data[..4])
  {
  }

  lemma Int32RoundTrip(x: int32)
    ensures ToI32(ToU32(x)) == x
  {
  }

  /** Writing the struct as an integer and reading it back as a struct is exact, for every pair. */
  lemma OffsetInfoRoundTrip(info: OffsetInfo, rest: bytes)
    ensures ReadOffsetInfo(OffsetInfoBytes(info) + rest) == info
  {
    var low, high := Fixed32(ToU32(info.size)), Fixed32(ToU32(info.offset));
    OffsetInfoHalves(info);
    assert low + high + rest == low + (high + rest);
    assert (low + (high + rest))[4..] == high + rest;
    Fixed32RoundTrip(ToU32(info.size), high + rest);
    Fixed32RoundTrip(ToU32(info.offset), rest);
    Int32RoundTrip(info.size);
    Int32RoundTrip(info.offset);
  }
}
