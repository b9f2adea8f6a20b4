/** The two polynomials in numbers, and the register as a machine word. */
module CrcValues {
  import opened Gf2
  import opened CrcSpec
  import opened CrcTables

  // ---------------------------------------------------------------- coefficients

  /** x^k is a term of the polynomial that the word stands for: in reflected order, bit 31 - k. */
  predicate Has(p: u32, k: nat)
    requires k < 32
  {
    PowerPositive(31 - k);
    p / Pow2(31 - k) % 2 == 1
  }

  lemma PowerPositive(n: nat)
    ensures Pow2(n) > 0
  {}

  /** CRC-32C is the polynomial of section 12.1 of RFC 3720. */
  lemma Crc32cTerms(k: nat)
    requires k < 32
    ensures Has(CRC32C_POLY, k) <==> k in {0, 6, 8, 9, 10, 11, 13, 14, 18, 19, 20, 22, 23, 25, 26, 27, 28}
  {
    Powers();
  }

  /** CRC-32 is that of Ethernet, section 3.2.9 of IEEE 802.3. */
  lemma Crc32Terms(k: nat)
    requires k < 32
    ensures Has(CRC32_POLY, k) <==> k in {0, 1, 2, 4, 5, 7, 8, 10, 11, 12, 16, 22, 23, 26}
  {
    Powers();
  }

  lemma Powers()
    ensures Pow2(0) == 1 && Pow2(1) == 2 && Pow2(2) == 4 && Pow2(3) == 8
    ensures Pow2(4) == 0x10 && Pow2(5) == 0x20 && Pow2(6) == 0x40 && Pow2(7) == 0x80
    ensures Pow2(8) == 0x100 && Pow2(9) == 0x200 && Pow2(10) == 0x400 && Pow2(11) == 0x800
    ensures Pow2(12) == 0x1000 && Pow2(13) == 0x2000 && Pow2(14) == 0x4000 && Pow2(15) == 0x8000
    ensures Pow2(16) == 0x1_0000 && Pow2(17) == 0x2_0000 && Pow2(18) == 0x4_0000 && Pow2(19) == 0x8_0000
    ensures Pow2(20) == 0x10_0000 && Pow2(21) == 0x20_0000 && Pow2(22) == 0x40_0000 && Pow2(23) == 0x80_0000
    ensures Pow2(24) == 0x100_0000 && Pow2(25) == 0x200_0000 && Pow2(26) == 0x400_0000 && Pow2(27) == 0x800_0000
    ensures Pow2(28) == 0x1000_0000 && Pow2(29) == 0x2000_0000
    ensures Pow2(30) == 0x4000_0000 && Pow2(31) == 0x8000_0000
  {}

  // ---------------------------------------------------------------- machine words

  function Nat(b: bv8): u8 { b as nat }

  /** The number that four bytes of a machine word make. */
  function Join(b3: bv8, b2: bv8, b1: bv8, b0: bv8): u32 {
    0x100_0000 * Nat(b3) + 0x1_0000 * Nat(b2) + 0x100 * Nat(b1) + Nat(b0)
  }

  function Byte3(w: bv32): bv8 { (w >> 24) as bv8 }

  function Byte2(w: bv32): bv8 { ((w >> 16) & 0xff) as bv8 }

  function Byte1(w: bv32): bv8 { ((w >> 8) & 0xff) as bv8 }

  function Byte0(w: bv32): bv8 { (w & 0xff) as bv8 }

  /** The number that a machine word stands for. */
  function Number(w: bv32): u32 {
    Join(Byte3(w), Byte2(w), Byte1(w), Byte0(w))
  }

  /** One clock of the register, as the machine does it. */
  function Clock(p: bv32, c: bv32): bv32 {
    if c & 1 == 0 then c >> 1 else (c >> 1) ^ p
  }

  lemma HalfByte(a: bv8)
    ensures Nat(a) / 2 == Nat(a >> 1)
    ensures Nat(a) % 2 == if a & 1 == 0 then 0 else 1
  {}

  lemma HighBit(b: bv8)
    ensures Nat(0x80 | (b >> 1)) == 0x80 + Nat(b >> 1)
  {}

  lemma Positive(a: bv8)
    ensures Nat(a) == 0 <==> a == 0
  {}

  lemma XorHalves(a: bv8, b: bv8)
    ensures (a >> 1) ^ (b >> 1) == (a ^ b) >> 1
    ensures (a ^ b) & 1 == 0 <==> (a & 1 == 0 <==> b & 1 == 0)
  {}

  lemma {:induction false} XorOfBytes(a: bv8, b: bv8)
    ensures Xor(Nat(a), Nat(b)) == Nat(a ^ b)
    decreases Nat(a) + Nat(b)
  {
    hide Nat, Xor;
    HalfByte(a);
    HalfByte(b);
    HalfByte(a ^ b);
    Positive(a);
    Positive(b);
    XorHalves(a, b);
    XorUnfold(Nat(a), Nat(b));
    if a == 0 {
      XorZero(Nat(b));
    } else {
      assert Nat(a) > 0;
      XorOfBytes(a >> 1, b >> 1);
    }
  }

  lemma XorUnfold(a: nat, b: nat)
    ensures Xor(a, b) == 2 * Xor(a / 2, b / 2) + if a % 2 == b % 2 then 0 else 1
  {
    XorHalf(a, b);
    hide Xor;
  }

  lemma XorJoin(a: nat, b: nat, i: bv8, j: bv8)
    ensures Xor(0x100 * a + Nat(i), 0x100 * b + Nat(j)) == 0x100 * Xor(a, b) + Nat(i ^ j)
  {
    hide Nat, Xor;
    XorOfBytes(i, j);
    XorParts(a, b, Nat(i), Nat(j));
  }

  lemma XorParts(a: nat, b: nat, i: u8, j: u8)
    ensures Xor(i, j) < 0x100
    ensures Xor(0x100 * a + i, 0x100 * b + j) == 0x100 * Xor(a, b) + Xor(i, j)
  {
    hide Xor;
    ShlWord(1);
    ShlWord(a);
    ShlWord(b);
    ShlWord(Xor(a, b));
    XorBound(i, j, 8);
    XorAppend(i, a, 8);
    XorAppend(j, b, 8);
    XorAppend(Xor(i, j), Xor(a, b), 8);
    ShlXor(a, b, 8);
    XorSwap(i, Shl(a, 8), j, Shl(b, 8));
  }

  /** Exclusive or on numbers is that of the machine. */
  lemma XorNumber(v: bv32, w: bv32)
    ensures Number(v ^ w) == Xor(Number(v), Number(w))
  {
    hide Xor, Byte3, Byte2, Byte1, Byte0, Join;
    ByteXor(v, w);
    JoinXor(Byte3(v), Byte2(v), Byte1(v), Byte0(v),
            Byte3(w), Byte2(w), Byte1(w), Byte0(w),
            Byte3(v ^ w), Byte2(v ^ w), Byte1(v ^ w), Byte0(v ^ w));
  }

  lemma ByteXor(v: bv32, w: bv32)
    ensures Byte3(v ^ w) == Byte3(v) ^ Byte3(w) && Byte2(v ^ w) == Byte2(v) ^ Byte2(w)
    ensures Byte1(v ^ w) == Byte1(v) ^ Byte1(w) && Byte0(v ^ w) == Byte0(v) ^ Byte0(w)
  {}

  lemma JoinXor(a3: bv8, a2: bv8, a1: bv8, a0: bv8, b3: bv8, b2: bv8, b1: bv8, b0: bv8,
                x3: bv8, x2: bv8, x1: bv8, x0: bv8)
    requires x3 == a3 ^ b3 && x2 == a2 ^ b2 && x1 == a1 ^ b1 && x0 == a0 ^ b0
    ensures Join(x3, x2, x1, x0) == Xor(Join(a3, a2, a1, a0), Join(b3, b2, b1, b0))
  {
    hide Xor, Nat;
    var v1, w1 := 0x100 * Nat(a3) + Nat(a2), 0x100 * Nat(b3) + Nat(b2);
    var v2, w2 := 0x100 * v1 + Nat(a1), 0x100 * w1 + Nat(b1);
    XorOfBytes(a3, b3);
    XorJoin(Nat(a3), Nat(b3), a2, b2);
    XorJoin(v1, w1, a1, b1);
    XorJoin(v2, w2, a0, b0);
  }

  /** One clock on numbers is that of the machine. */
  lemma ClockNumber(p: bv32, c: bv32)
    ensures Number(Clock(p, c)) == Step(Number(p), Number(c))
  {
    hide Xor, Number;
    NumberHalf(c);
    XorNumber(c >> 1, p);
  }

  lemma NumberHalf(c: bv32)
    ensures Number(c >> 1) == Number(c) / 2
    ensures Number(c) % 2 == if c & 1 == 0 then 0 else 1
  {
    hide Join, Byte3, Byte2, Byte1, Byte0;
    HalfBytes(c);
    JoinHalf(Byte3(c), Byte2(c), Byte1(c), Byte0(c));
  }

  lemma HalfBytes(c: bv32)
    ensures Byte3(c >> 1) == Byte3(c) >> 1
    ensures Byte2(c >> 1) == ((Byte3(c) & 1) << 7) | (Byte2(c) >> 1)
    ensures Byte1(c >> 1) == ((Byte2(c) & 1) << 7) | (Byte1(c) >> 1)
    ensures Byte0(c >> 1) == ((Byte1(c) & 1) << 7) | (Byte0(c) >> 1)
    ensures c & 1 == 0 <==> Byte0(c) & 1 == 0
  {}

  lemma HalfCarried(a: bv8, b: bv8)
    ensures Nat(((a & 1) << 7) | (b >> 1)) == 0x80 * (Nat(a) % 2) + Nat(b) / 2
  {
    hide Nat;
    HalfByte(a);
    HalfByte(b);
    HighBit(b);
    LowBit(a, b);
  }

  lemma LowBit(a: bv8, b: bv8)
    ensures ((a & 1) << 7) | (b >> 1) == if a & 1 == 0 then b >> 1 else 0x80 | (b >> 1)
  {}

  lemma JoinHalf(b3: bv8, b2: bv8, b1: bv8, b0: bv8)
    ensures Join(b3 >> 1, ((b3 & 1) << 7) | (b2 >> 1), ((b2 & 1) << 7) | (b1 >> 1), ((b1 & 1) << 7) | (b0 >> 1))
         == Join(b3, b2, b1, b0) / 2
    ensures Join(b3, b2, b1, b0) % 2 == if b0 & 1 == 0 then 0 else 1
  {
    hide Nat;
    HalfByte(b3);
    HalfByte(b0);
    HalfCarried(b3, b2);
    HalfCarried(b2, b1);
    HalfCarried(b1, b0);
  }

  // ---------------------------------------------------------------- values

  function FourClocks(p: bv32, c: bv32): bv32 { Clock(p, Clock(p, Clock(p, Clock(p, c)))) }

  function EightClocks(p: bv32, c: bv32): bv32 { FourClocks(p, FourClocks(p, c)) }

  lemma FourNumber(p: bv32, n: nat, c: bv32, d: bv32)
    requires Number(c) == Zeros(Number(p), n, Number(d))
    ensures Number(FourClocks(p, c)) == Zeros(Number(p), n + 4, Number(d))
  {
    hide Number, Clock, Step;
    ClockNumber(p, c);
    ClockNumber(p, Clock(p, c));
    ClockNumber(p, Clock(p, Clock(p, c)));
    ClockNumber(p, Clock(p, Clock(p, Clock(p, c))));
    var z, q := Number(d), Number(p);
    assert Zeros(q, n + 1, z) == Step(q, Zeros(q, n, z));
    assert Zeros(q, n + 2, z) == Step(q, Zeros(q, n + 1, z));
    assert Zeros(q, n + 3, z) == Step(q, Zeros(q, n + 2, z));
  }

  lemma EightNumber(p: bv32, c: bv32)
    ensures Number(EightClocks(p, c)) == Zeros(Number(p), 8, Number(c))
  {
    hide Number, FourClocks, Step;
    assert Zeros(Number(p), 0, Number(c)) == Number(c);
    FourNumber(p, 0, c, c);
    FourNumber(p, 4, FourClocks(p, c), c);
  }

  /** One byte, as the machine takes it in. */
  lemma NextByte(p: bv32, seed: nat, s: seq<u8>, b: bv32, c: bv32, d: bv32)
    requires b < 0x100 && d == EightClocks(p, c ^ b)
    requires CrcBytes(Number(p), seed, s) == Number(c)
    ensures CrcBytes(Number(p), seed, s + [Number(b) % 0x100]) == Number(d)
  {
    hide Xor, Zeros, CrcBytes, Number, EightClocks;
    SmallNumber(b);
    CrcBytesAppend(Number(p), seed, s, [Number(b)]);
    CrcByte(Number(p), Number(c), Number(b));
    XorNumber(c, b);
    EightNumber(p, c ^ b);
  }

  lemma SmallNumber(b: bv32)
    requires b < 0x100
    ensures Number(b) < 0x100
  {}

  /** The second entries of the tables that the source writes out. */
  lemma OneByte()
    ensures CrcBytes(CRC32C_POLY, 0, [1]) == 0xf26b_8303
    ensures CrcBytes(CRC32_POLY, 0, [1]) == 0x7707_3096
  {
    hide CrcBytes, Xor, Zeros;
    CrcEmpty(CRC32C_POLY, 0);
    CrcEmpty(CRC32_POLY, 0);
    NextByte(0x82f6_3b78, 0, [], 1, 0, 0xf26b_8303);
    NextByte(0xedb8_8320, 0, [], 1, 0, 0x7707_3096);
    assert [] + [1] == [1];
  }

  /** The digits 1 to 9, by which implementations of checksums are compared. */
  const DIGITS: seq<u8> := [0x31, 0x32, 0x33, 0x34, 0x35, 0x36, 0x37, 0x38, 0x39]

  lemma NextDigit(p: bv32, k: nat, b: bv32, c: bv32, d: bv32)
    requires k < 9 && b < 0x100 && Number(b) == 0x31 + k && d == EightClocks(p, c ^ b)
    requires CrcBytes(Number(p), ALL_ONES, DIGITS[..k]) == Number(c)
    ensures CrcBytes(Number(p), ALL_ONES, DIGITS[..k + 1]) == Number(d)
  {
    hide CrcBytes, Number, EightClocks;
    NextByte(p, ALL_ONES, DIGITS[..k], b, c, d);
    assert DIGITS[k] == 0x31 + k;
    assert DIGITS[..k + 1] == DIGITS[..k] + [DIGITS[k]];
  }

  /** The check value of CRC-32C. */
  lemma Crc32cDigits()
    ensures Xor(CrcBytes(CRC32C_POLY, 0xffff_ffff, DIGITS), 0xffff_ffff) == 0xe306_9283
  {
    hide CrcBytes, Xor;
    CrcEmpty(CRC32C_POLY, ALL_ONES);
    assert DIGITS[..0] == [];
    NextDigit(0x82f6_3b78, 0, 0x31, 0xffff_ffff, 0x6f0a_661c);
    NextDigit(0x82f6_3b78, 1, 0x32, 0x6f0a_661c, 0x8caa_3b9f);
    NextDigit(0x82f6_3b78, 2, 0x33, 0x8caa_3b9f, 0xef84_d04d);
    NextDigit(0x82f6_3b78, 3, 0x34, 0xef84_d04d, 0x9c5_0b11);
    NextDigit(0x82f6_3b78, 4, 0x35, 0x9c5_0b11, 0xe72e_dcca);
    NextDigit(0x82f6_3b78, 5, 0x36, 0xe72e_dcca, 0xbeca_8e79);
    NextDigit(0x82f6_3b78, 6, 0x37, 0xbeca_8e79, 0xedbd_6815);
    NextDigit(0x82f6_3b78, 7, 0x38, 0xedbd_6815, 0x9f78_7f65);
    NextDigit(0x82f6_3b78, 8, 0x39, 0x9f78_7f65, 0x1cf9_6d7c);
    assert DIGITS[..9] == DIGITS;
    XorNumber(0x1cf9_6d7c, 0xffff_ffff);
  }

  /** The check value of CRC-32, with all ones in and complement out. */
  lemma Crc32Digits()
    ensures Crc32Of(DIGITS) == 0xcbf4_3926
  {
    hide CrcBytes, Xor;
    CrcEmpty(CRC32_POLY, ALL_ONES);
    assert DIGITS[..0] == [];
    NextDigit(0xedb8_8320, 0, 0x31, 0xffff_ffff, 0x7c23_1048);
    NextDigit(0xedb8_8320, 1, 0x32, 0x7c23_1048, 0xb0ac_bb32);
    NextDigit(0xedb8_8320, 2, 0x33, 0xb0ac_bb32, 0x77b7_9c2d);
    NextDigit(0xedb8_8320, 3, 0x34, 0x77b7_9c2d, 0x641c_1f5c);
    NextDigit(0xedb8_8320, 4, 0x35, 0x641c_1f5c, 0x340a_c5e3);
    NextDigit(0xedb8_8320, 5, 0x36, 0x340a_c5e3, 0xf68d_2c9e);
    NextDigit(0xedb8_8320, 6, 0x37, 0xf68d_2c9e, 0xaffc_9660);
    NextDigit(0xedb8_8320, 7, 0x38, 0xaffc_9660, 0x651f_2550);
    NextDigit(0xedb8_8320, 8, 0x39, 0x651f_2550, 0x340b_c6d9);
    assert DIGITS[..9] == DIGITS;
    XorNumber(0x340b_c6d9, 0xffff_ffff);
  }
}
