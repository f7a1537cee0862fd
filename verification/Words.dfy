/** The 32-bit machine operations of the hash, bit by bit and by their arithmetic. */
module Words {
  import opened Codec

  function Pow2(n: nat): (r: nat)
    ensures r > 0
  {
    if n == 0 then 1 else 2 * Pow2(n - 1)
  }

  lemma Width()
    ensures Pow2(32) == TWO_32 && Pow2(17) == 0x2_0000 && Pow2(15) == 0x8000
  {
    assert Pow2(15) == 0x8000;
    assert Pow2(17) == 4 * Pow2(15);
    assert Pow2(22) == 32 * Pow2(17);
    assert Pow2(27) == 32 * Pow2(22);
    assert Pow2(32) == 32 * Pow2(27);
  }

  function XorBits(a: nat, b: nat, n: nat): (r: nat)
    ensures r < Pow2(n)
  {
    if n == 0 then 0 else (a % 2 + b % 2) % 2 + 2 * XorBits(a / 2, b / 2, n - 1)
  }

  function OrBits(a: nat, b: nat, n: nat): (r: nat)
    ensures r < Pow2(n)
  {
    if n == 0 then 0 else (if a % 2 + b % 2 > 0 then 1 else 0) + 2 * OrBits(a / 2, b / 2, n - 1)
  }

  function Shifted(a: nat, s: nat): (r: nat)
    ensures r <= a
  {
    if s == 0 then a else Shifted(a / 2, s - 1)
  }

  /** `a ^ b`. */
  function Xor(a: uint32, b: uint32): uint32 {
    Width();
    XorBits(a, b, 32)
  }

  /** `a | b`. */
  function Or(a: uint32, b: uint32): uint32 {
    Width();
    OrBits(a, b, 32)
  }

  /** `a >> s`. */
  function Shr(a: uint32, s: nat): uint32 {
    Shifted(a, s)
  }

  /** `a << s`, wrapping. */
  function Shl(a: uint32, s: nat): uint32 {
    a * Pow2(s) % TWO_32
  }

  /** `a + b`, wrapping. */
  function Plus(a: uint32, b: uint32): uint32 {
    (a as int + b as int) % TWO_32
  }

  // ---------------------------------------------------------------- shifts are divisions

  lemma ShiftedFive(a: nat, s: nat)
    ensures Shifted(a, s + 5) == Shifted(a / 32, s)
  {
    assert Shifted(a, s + 5) == Shifted(a / 2, s + 4) == Shifted(a / 2 / 2, s + 3);
    assert Shifted(a / 2 / 2, s + 3) == Shifted(a / 2 / 2 / 2, s + 2) == Shifted(a / 2 / 2 / 2 / 2, s + 1);
    assert Shifted(a / 2 / 2 / 2 / 2, s + 1) == Shifted(a / 2 / 2 / 2 / 2 / 2, s);
  }

  lemma ShiftedTwo(a: nat)
    ensures Shifted(a, 2) == a / 4
  {
    assert Shifted(a, 2) == Shifted(a / 2, 1) == Shifted(a / 2 / 2, 0);
  }

  lemma Shr17(a: uint32)
    ensures Shr(a, 17) == a / 0x2_0000
  {
    hide Shifted;
    ShiftedFive(a, 12);
    ShiftedFive(a / 32, 7);
    ShiftedFive(a / 32 / 32, 2);
    ShiftedTwo(a / 32 / 32 / 32);
  }

  lemma ShiftedThree(a: nat)
    ensures Shifted(a, 3) == a / 8
  {
    assert Shifted(a, 3) == Shifted(a / 2, 2) == Shifted(a / 2 / 2, 1) == Shifted(a / 2 / 2 / 2, 0);
  }

  /** The three shifts of the hash. */
  lemma Shr13(a: uint32)
    ensures Shr(a, 13) == a / 0x2000
  {
    hide Shifted;
    ShiftedFive(a, 8);
    ShiftedFive(a / 32, 3);
    ShiftedThree(a / 32 / 32);
  }

  lemma Shr15(a: uint32)
    ensures Shr(a, 15) == a / 0x8000
  {
    hide Shifted;
    ShiftedFive(a, 10);
    ShiftedFive(a / 32, 5);
    ShiftedFive(a / 32 / 32, 0);
    ShiftedNone(a / 32 / 32 / 32);
  }

  lemma ShiftedNone(a: nat)
    ensures Shifted(a, 0) == a
  {
  }

  lemma Shr24(a: uint32)
    ensures Shr(a, 24) == a / 0x100_0000
  {
    hide Shifted;
    ShiftedFive(a, 19);
    ShiftedFive(a / 32, 14);
    ShiftedFive(a / 32 / 32, 9);
    ShiftedFive(a / 32 / 32 / 32, 4);
    ShiftedTwice(a / 32 / 32 / 32 / 32);
  }

  lemma ShiftedTwice(a: nat)
    ensures Shifted(a, 4) == a / 16
  {
    assert Shifted(a, 4) == Shifted(a / 2, 3) == Shifted(a / 2 / 2, 2);
    ShiftedTwo(a / 2 / 2);
  }

  lemma Shl15(a: uint32)
    ensures Shl(a, 15) == a % 0x2_0000 * 0x8000
  {
    hide Pow2;
    Width();
    var q, r := a / 0x2_0000, a % 0x2_0000;
    assert a * 0x8000 == r * 0x8000 + q * TWO_32;
  }

  // ---------------------------------------------------------------- xor loses nothing

  lemma LowBit(a: nat, b: nat, x: nat, y: nat)
    requires a < 2 && b < 2 && a + 2 * x == b + 2 * y
    ensures a == b && x == y
  {
  }

  lemma SameLowBit(a: nat, b: nat, c: nat)
    requires (a % 2 + c % 2) % 2 == (b % 2 + c % 2) % 2
    ensures a % 2 == b % 2
  {
  }

  lemma Halves(a: nat, b: nat)
    requires a % 2 == b % 2 && a / 2 == b / 2
    ensures a == b
  {
  }

  lemma One()
    ensures Pow2(0) == 1
  {
  }

  lemma Half(a: nat, n: nat)
    requires n > 0 && a < Pow2(n)
    ensures a / 2 < Pow2(n - 1)
  {
  }

  lemma {:induction false} XorCancels(a: nat, b: nat, c: nat, n: nat)
    requires a < Pow2(n) && b < Pow2(n) && XorBits(a, c, n) == XorBits(b, c, n)
    ensures a == b
  {
    if n > 0 {
      Half(a, n);
      Half(b, n);
      hide Pow2;
      LowBit((a % 2 + c % 2) % 2, (b % 2 + c % 2) % 2, XorBits(a / 2, c / 2, n - 1), XorBits(b / 2, c / 2, n - 1));
      SameLowBit(a, b, c);
      XorCancels(a / 2, b / 2, c / 2, n - 1);
      Halves(a, b);
    }
  }

  lemma {:induction false} XorCommutes(a: nat, b: nat, n: nat)
    ensures XorBits(a, b, n) == XorBits(b, a, n)
  {
    if n > 0 { XorCommutes(a / 2, b / 2, n - 1); }
  }

  lemma {:induction false} XorNothing(a: nat, n: nat)
    requires a < Pow2(n)
    ensures XorBits(a, 0, n) == a
  {
    if n > 0 { XorNothing(a / 2, n - 1); }
  }

  lemma {:induction false} ShiftedXor(a: nat, b: nat, s: nat, n: nat)
    requires s <= n
    ensures Shifted(XorBits(a, b, n), s) == XorBits(Shifted(a, s), Shifted(b, s), n - s)
    decreases s
  {
    if s > 0 { ShiftedXor(a / 2, b / 2, s - 1, n - 1); }
  }

  lemma {:induction false} ShiftedBelow(a: nat, s: nat, n: nat)
    requires a < Pow2(n)
    ensures s <= n ==> Shifted(a, s) < Pow2(n - s)
    ensures s >= n ==> Shifted(a, s) == 0
    decreases s
  {
    if s > 0 {
      if n > 0 { ShiftedBelow(a / 2, s - 1, n - 1); } else { ShiftedBelow(0, s - 1, 0); }
    }
  }

  /** `x ^= x >> s` can be undone. */
  lemma {:induction false} XorShiftCancels(x: nat, y: nat, s: nat, n: nat)
    requires s > 0 && x < Pow2(n) && y < Pow2(n)
    requires XorBits(x, Shifted(x, s), n) == XorBits(y, Shifted(y, s), n)
    ensures x == y
    decreases n
  {
    hide Shifted, XorBits;
    ShiftedBelow(x, s, n);
    ShiftedBelow(y, s, n);
    if n <= s {
      XorNothing(x, n);
      XorNothing(y, n);
    } else {
      ShiftedXor(x, Shifted(x, s), s, n);
      ShiftedXor(y, Shifted(y, s), s, n);
      XorShiftCancels(Shifted(x, s), Shifted(y, s), s, n - s);
      XorCancels(x, y, Shifted(x, s), n);
    }
  }

  lemma XorShiftInjective(x: uint32, y: uint32, s: nat)
    requires s > 0 && Xor(x, Shr(x, s)) == Xor(y, Shr(y, s))
    ensures x == y
  {
    hide XorBits, Shifted, Pow2;
    Width();
    XorShiftCancels(x, y, s, 32);
  }

  lemma XorInjective(x: uint32, y: uint32, z: uint32)
    ensures Xor(x, z) == Xor(y, z) ==> x == y
    ensures Xor(z, x) == Xor(z, y) ==> x == y
  {
    hide XorBits, Pow2;
    Width();
    XorCommutes(x, z, 32);
    XorCommutes(y, z, 32);
    if Xor(x, z) == Xor(y, z) { XorCancels(x, y, z, 32); }
  }

  // ---------------------------------------------------------------- xor digit by digit

  /** r is the xor of a and b over n bits. */
  predicate IsXor(a: nat, b: nat, r: nat, n: nat) {
    if n == 0 then r == 0 else r % 2 == (a % 2 + b % 2) % 2 && IsXor(a / 2, b / 2, r / 2, n - 1)
  }

  lemma {:induction false} XorIs(a: nat, b: nat, r: nat, n: nat)
    requires IsXor(a, b, r, n)
    ensures XorBits(a, b, n) == r
  {
    if n > 0 { XorIs(a / 2, b / 2, r / 2, n - 1); }
  }

  /** Low parts and high parts do not meet. */
  lemma {:induction false} XorJoin(a: nat, b: nat, r: nat, c: nat, d: nat, q: nat, k: nat, n: nat)
    requires a < Pow2(k) && b < Pow2(k) && IsXor(a, b, r, k)
    requires Ends(c, k) && Ends(d, k) && Ends(q, k) && IsXor(Shifted(c, k), Shifted(d, k), Shifted(q, k), n)
    ensures IsXor(a + c, b + d, r + q, k + n)
    decreases k
  {
    hide Pow2;
    if k == 0 {
      One();
    } else {
      Half(a, k);
      Half(b, k);
      XorJoin(a / 2, b / 2, r / 2, c / 2, d / 2, q / 2, k - 1, n);
      EvenApart(a, c);
      EvenApart(b, d);
      EvenApart(r, q);
    }
  }

  lemma EvenApart(a: nat, c: nat)
    requires c % 2 == 0
    ensures (a + c) / 2 == a / 2 + c / 2 && (a + c) % 2 == a % 2
  {
  }

  /** The lowest four bits of r are the xor of those of a and b. */
  predicate IsXor4(a: nat, b: nat, r: nat) {
    && r % 2 == (a % 2 + b % 2) % 2
    && r / 2 % 2 == (a / 2 % 2 + b / 2 % 2) % 2
    && r / 4 % 2 == (a / 4 % 2 + b / 4 % 2) % 2
    && r / 8 % 2 == (a / 8 % 2 + b / 8 % 2) % 2
  }

  lemma XorHalf(a: nat, b: nat, r: nat, n: nat)
    requires r % 2 == (a % 2 + b % 2) % 2 && IsXor(a / 2, b / 2, r / 2, n)
    ensures IsXor(a, b, r, n + 1)
  {
  }

  lemma XorQuarter(a: nat, b: nat, r: nat, n: nat)
    requires r % 2 == (a % 2 + b % 2) % 2 && r / 2 % 2 == (a / 2 % 2 + b / 2 % 2) % 2 && IsXor(a / 4, b / 4, r / 4, n)
    ensures IsXor(a, b, r, n + 2)
  {
    hide IsXor;
    assert a / 2 / 2 == a / 4 && b / 2 / 2 == b / 4 && r / 2 / 2 == r / 4;
    XorHalf(a / 2, b / 2, r / 2, n);
    XorHalf(a, b, r, n + 1);
  }

  lemma XorNone()
    ensures IsXor(0, 0, 0, 0)
  {
  }

  lemma XorFour(a: nat, b: nat, r: nat)
    requires a < 16 && b < 16 && r < 16 && IsXor4(a, b, r)
    ensures IsXor(a, b, r, 4)
  {
    hide IsXor;
    XorNone();
    assert a / 4 / 2 == a / 8 && b / 4 / 2 == b / 8 && r / 4 / 2 == r / 8;
    assert a / 4 / 4 == 0 && b / 4 / 4 == 0 && r / 4 / 4 == 0;
    XorQuarter(a / 4, b / 4, r / 4, 0);
    XorQuarter(a, b, r, 2);
  }

  lemma ShiftedFour(h: nat)
    ensures Ends(16 * h, 4) && Shifted(16 * h, 4) == h
  {
    hide Ends, Shifted;
    EndsNothing(h);
    EndsTwice(h, 0);
    EndsTwice(2 * h, 1);
    EndsTwice(4 * h, 2);
    EndsTwice(8 * h, 3);
    ShiftedTwice(16 * h);
  }

  lemma Sixteen()
    ensures Pow2(4) == 16
  {
  }

  lemma XorDigit(a: nat, b: nat, r: nat, c: nat, d: nat, q: nat, n: nat)
    requires a < 16 && b < 16 && r < 16 && IsXor4(a, b, r) && IsXor(c, d, q, n)
    ensures IsXor(a + 16 * c, b + 16 * d, r + 16 * q, 4 + n)
  {
    hide Pow2, IsXor, IsXor4, Shifted, Ends;
    Sixteen();
    ShiftedFour(c);
    ShiftedFour(d);
    ShiftedFour(q);
    XorFour(a, b, r);
    XorJoin(a, b, r, 16 * c, 16 * d, 16 * q, 4, n);
  }

  lemma XorZero4(a: nat)
    requires a < 16
    ensures IsXor4(a, 0, a)
  {
  }

  type nibble = x: int | 0 <= x < 16

  /** A half word written as its four hexadecimal digits. */
  function Hex4(d3: nibble, d2: nibble, d1: nibble, d0: nibble): (r: nat)
    ensures r < 0x1_0000
  {
    d0 as int + 16 * (d1 as int + 16 * (d2 as int + 16 * d3 as int))
  }

  /** Four digits are combined one by one, in front of what is combined already. */
  lemma XorHex4(a3: nibble, a2: nibble, a1: nibble, a0: nibble, b3: nibble, b2: nibble, b1: nibble, b0: nibble,
                r3: nibble, r2: nibble, r1: nibble, r0: nibble, c: nat, d: nat, q: nat, n: nat)
    requires IsXor4(a3, b3, r3) && IsXor4(a2, b2, r2) && IsXor4(a1, b1, r1) && IsXor4(a0, b0, r0)
    requires IsXor(c, d, q, n)
    ensures IsXor(Hex4(a3, a2, a1, a0) + 0x1_0000 * c, Hex4(b3, b2, b1, b0) + 0x1_0000 * d,
                  Hex4(r3, r2, r1, r0) + 0x1_0000 * q, 16 + n)
  {
    hide IsXor, IsXor4;
    XorDigit(a3, b3, r3, c, d, q, n);
    XorDigit(a2, b2, r2, a3 as int + 16 * c, b3 as int + 16 * d, r3 as int + 16 * q, n + 4);
    XorDigit(a1, b1, r1, a2 as int + 16 * a3 as int + 256 * c, b2 as int + 16 * b3 as int + 256 * d,
             r2 as int + 16 * r3 as int + 256 * q, n + 8);
    XorDigit(a0, b0, r0, a1 as int + 16 * a2 as int + 256 * a3 as int + 4096 * c,
             b1 as int + 16 * b2 as int + 256 * b3 as int + 4096 * d,
             r1 as int + 16 * r2 as int + 256 * r3 as int + 4096 * q, n + 12);
  }

  lemma XorIsWord(x: uint32, y: uint32, z: uint32)
    requires IsXor(x, y, z, 32)
    ensures Xor(x, y) == z
  {
    hide IsXor, XorBits, Pow2;
    XorIs(x, y, z, 32);
  }

  /** Two words given as upper and lower halves. */
  lemma XorHalves(hi: nat, lo: nat, hi': nat, lo': nat, high: nat, low: nat)
    requires hi < 0x1_0000 && lo < 0x1_0000 && hi' < 0x1_0000 && lo' < 0x1_0000 && high < 0x1_0000 && low < 0x1_0000
    requires IsXor(lo + 0x1_0000 * hi, lo' + 0x1_0000 * hi', low + 0x1_0000 * high, 32)
    ensures Xor(lo + 0x1_0000 * hi, lo' + 0x1_0000 * hi') == low + 0x1_0000 * high
  {
    hide IsXor, Xor;
    XorIsWord(lo + 0x1_0000 * hi, lo' + 0x1_0000 * hi', low + 0x1_0000 * high);
  }

  // ---------------------------------------------------------------- or of disjoint parts is a sum

  lemma {:induction false} OrNothing(a: nat, n: nat)
    requires a < Pow2(n)
    ensures OrBits(0, a, n) == a
  {
    if n > 0 { OrNothing(a / 2, n - 1); }
  }

  lemma {:induction false} OrIsSum(a: nat, c: nat, k: nat, n: nat)
    requires k <= n && a < Pow2(k) && Ends(c, k) && c < Pow2(n)
    ensures OrBits(a, c, n) == a + c
    decreases k
  {
    if k == 0 {
      OrNothing(c, n);
    } else {
      Half(a, k);
      Half(c, n);
      hide Pow2;
      OrIsSum(a / 2, c / 2, k - 1, n - 1);
      EvenSum(a, c);
    }
  }

  /** The last k bits are 0. */
  predicate Ends(c: nat, k: nat) {
    k == 0 || (c % 2 == 0 && Ends(c / 2, k - 1))
  }

  lemma EvenSum(a: nat, c: nat)
    requires c % 2 == 0
    ensures (if a % 2 + c % 2 > 0 then 1 else 0) + 2 * (a / 2 + c / 2) == a + c
  {
  }

  lemma EndsFive(m: nat, k: nat)
    requires Ends(m, k)
    ensures Ends(m * 32, k + 5)
  {
    hide Ends;
    EndsTwice(m, k);
    EndsTwice(2 * m, k + 1);
    EndsTwice(4 * m, k + 2);
    EndsTwice(8 * m, k + 3);
    EndsTwice(16 * m, k + 4);
  }

  lemma EndsTwice(m: nat, k: nat)
    requires Ends(m, k)
    ensures Ends(2 * m, k + 1)
  {
    assert 2 * m / 2 == m;
  }

  /** `h >> 17 | h << 15`: the upper fifteen and the lower seventeen bits change places. */
  lemma Rotated(h: uint32)
    ensures Or(Shr(h, 17), Shl(h, 15)) == h / 0x2_0000 + h % 0x2_0000 * 0x8000
  {
    hide OrBits, Pow2, Shr, Shl, Ends;
    Width();
    Shr17(h);
    Shl15(h);
    var low := h % 0x2_0000;
    EndsNothing(low);
    EndsFive(low, 0);
    EndsFive(low * 32, 5);
    EndsFive(low * 32 * 32, 10);
    OrIsSum(h / 0x2_0000, low * 0x8000, 15, 32);
  }

  lemma EndsNothing(m: nat)
    ensures Ends(m, 0)
  {
  }
}
