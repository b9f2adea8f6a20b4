/**
 * The table-driven checksums of lib/utils/crc32.h and lib/utils/crc32.c.
 *
 * Memory, which is only read here, is a sequence of bytes and a pointer is an index into it, so that the
 * alignment of a pointer is its remainder modulo the word size. The host is little-endian.
 */
module CrcTables {
  import opened Gf2
  import opened CrcSpec
  import opened CrcTheory

  /** CRC-32 and CRC-32C, in reflected order. */
  const CRC32_POLY: u32 := 0xedb8_8320
  const CRC32C_POLY: u32 := 0x82f6_3b78
  const ALL_ONES: u32 := 0xffff_ffff

  /** The lookup table that applies n zero bits to a byte. */
  function Table(p: u32, n: nat): (t: seq<u32>)
    ensures |t| == 256
    ensures forall i :: 0 <= i < 256 ==> t[i] == Zeros(p, n, i)
  {
    seq<u32>(256, i requires 0 <= i < 256 => TableEntry(p, n, i))
  }

  function TableEntry(p: u32, n: nat, i: u8): (e: u32)
    ensures e == Zeros(p, n, i)
  {
    ZerosBound(p, n, i);
    Zeros(p, n, i)
  }

  lemma XorWord(a: u32, b: u32)
    ensures Xor(a, b) < 0x1_0000_0000
  {
    ShlWord(1);
    XorBound(a, b, 32);
  }

  /** The byte loop shared by crc32_raw and singletable_crc32c, over a table for one byte of zeros. */
  method ByteLoop(ghost p: u32, tab: seq<u32>, mem: seq<u8>, buf: nat, size: nat, crc0: u32)
    returns (crc: u32)
    requires tab == Table(p, 8)
    requires buf + size <= |mem|
    ensures crc == CrcBytes(p, crc0, mem[buf..buf + size])
  {
    hide Zeros, Xor, CrcBytes, Table;
    crc := crc0;
    var next: nat, left: nat := buf, size;
    CrcEmpty(p, crc0);
    assert mem[buf..next] == [];
    while left > 0
      invariant buf <= next && next + left == buf + size
      invariant crc == CrcBytes(p, crc0, mem[buf..next])
    {
      CrcTableByte(p, crc, mem[next]);
      CrcBytesAppend(p, crc0, mem[buf..next], [mem[next]]);
      assert mem[buf..next + 1] == mem[buf..next] + [mem[next]];
      XorByte(crc, mem[next]);
      var index := Xor(crc, mem[next]) % 0x100;
      XorWord(tab[index], crc / 0x100);
      crc := Xor(tab[index], crc / 0x100);
      next, left := next + 1, left - 1;
    }
  }

  lemma CrcEmpty(p: nat, c: nat)
    ensures CrcBytes(p, c, []) == c
  {}

  // ---------------------------------------------------------------- lib/utils/crc32.h

  method Crc32Raw(mem: seq<u8>, buf: nat, size: nat, crc0: u32) returns (crc: u32)
    requires buf + size <= |mem|
    ensures crc == CrcBytes(CRC32_POLY, crc0, mem[buf..buf + size])
  {
    crc := ByteLoop(CRC32_POLY, Table(CRC32_POLY, 8), mem, buf, size, crc0);
  }

  /** The CRC-32 of a message: all ones in, complement out. */
  function Crc32Of(s: seq<u8>): nat {
    Xor(CrcBytes(CRC32_POLY, ALL_ONES, s), ALL_ONES)
  }

  method Crc32(mem: seq<u8>, buf: nat, size: nat) returns (crc: u32)
    requires buf + size <= |mem|
    ensures crc == Crc32Of(mem[buf..buf + size])
  {
    crc := Crc32Raw(mem, buf, size, ALL_ONES);
    hide Xor;
    XorWord(crc, ALL_ONES);
    crc := Xor(crc, ALL_ONES);
  }

  // ---------------------------------------------------------------- lib/utils/crc32.c

  method SingleTableCrc32c(crc0: u32, mem: seq<u8>, buf: nat, size: nat) returns (crc: u32)
    requires buf + size <= |mem|
    ensures crc == CrcBytes(CRC32C_POLY, crc0, mem[buf..buf + size])
  {
    crc := ByteLoop(CRC32C_POLY, Table(CRC32C_POLY, 8), mem, buf, size, crc0);
  }

  /** The bytes of a word, the least significant one first. */
  function Byte(x: u32, k: nat): (b: u8)
    requires k < 4
  {
    if k == 0 then x % 0x100
    else if k == 1 then x / 0x100 % 0x100
    else if k == 2 then x / 0x1_0000 % 0x100
    else x / 0x100_0000
  }

  lemma ByteOfHigh(x: u32)
    ensures x / 0x1_0000 % 0x100 == Byte(x, 2)
    ensures x / 0x1_0000 / 0x100 % 0x100 == Byte(x, 3)
  {}

  /** The operator that appends n zero bits, spread over four lookups. */
  lemma ZerosLookup(p: u32, n: nat, x: u32)
    ensures Zeros(p, n + 32, x)
         == Xor(Xor(Xor(Table(p, n + 32)[Byte(x, 0)], Table(p, n + 24)[Byte(x, 1)]),
                    Table(p, n + 16)[Byte(x, 2)]),
                Table(p, n + 8)[Byte(x, 3)])
  {
    var b1, b2, b3 := Byte(x, 1), Byte(x, 2), Byte(x, 3);
    ZerosBytes(p, n + 32, x);
    ShlWord(b1);
    ShlWord(b2);
    ShlWord(b3);
    ZerosShl(p, n + 24, 8, b1);
    ZerosShl(p, n + 16, 16, b2);
    ZerosShl(p, n + 8, 24, b3);
  }

  /** Eight bytes of message enter through two words; only the first of them meets the register. */
  lemma SliceStep(p: u32, c: u32, s: seq<u8>, t: seq<u8>)
    requires |s| == |t| == 4
    ensures CrcBytes(p, c, s + t) == Xor(Zeros(p, 64, Xor(c, Load(s))), Zeros(p, 32, Load(t)))
  {
    hide Zeros, Xor;
    var x := Xor(c, Load(s));
    CrcBytesAppend(p, c, s, t);
    CrcLoad(p, c, s);
    CrcLoad(p, CrcBytes(p, c, s), t);
    ZerosXor(p, 32, Zeros(p, 32, x), Load(t));
    ZerosAdd(p, 32, 32, x);
  }

  // The tables of slicing by 8, each named after the position of its slice.
  const O32: seq<u32> := Table(CRC32C_POLY, 8)
  const O40: seq<u32> := Table(CRC32C_POLY, 16)
  const O48: seq<u32> := Table(CRC32C_POLY, 24)
  const O56: seq<u32> := Table(CRC32C_POLY, 32)
  const O64: seq<u32> := Table(CRC32C_POLY, 40)
  const O72: seq<u32> := Table(CRC32C_POLY, 48)
  const O80: seq<u32> := Table(CRC32C_POLY, 56)
  const O88: seq<u32> := Table(CRC32C_POLY, 64)

  lemma XorRegroup(a: nat, b: nat, c: nat, d: nat, e: nat)
    ensures Xor(a, Xor(Xor(Xor(b, c), d), e)) == Xor(Xor(Xor(a, Xor(b, c)), d), e)
  {
    hide Xor;
    XorAssoc(a, Xor(b, c), d);
    XorAssoc(a, Xor(Xor(b, c), d), e);
  }

  /** One step of slicing by 8, the body of the middle loop of crc32c_sb8_64_bit. */
  method SliceBy8(crc0: u32, mem: seq<u8>, buf: nat) returns (crc: u32)
    requires buf + 8 <= |mem|
    ensures crc == CrcBytes(CRC32C_POLY, crc0, mem[buf..buf + 8])
  {
    hide Zeros, Xor, CrcBytes, Byte;
    var first := Load(mem[buf..buf + 4]);
    XorWordLoad(crc0, mem[buf..buf + 4]);
    var x: u32 := Xor(crc0, first);
    var term1 := Xor(O88[Byte(x, 0)], O80[Byte(x, 1)]);
    var term2 := x / 0x1_0000;
    ByteOfHigh(x);
    var front := Xor(Xor(term1, O72[term2 % 0x100]), O64[term2 / 0x100 % 0x100]);
    XorWordLoad(crc0, mem[buf + 4..buf + 8]);
    var w: u32 := Load(mem[buf + 4..buf + 8]);
    term1 := Xor(O56[Byte(w, 0)], O48[Byte(w, 1)]);
    term2 := w / 0x1_0000;
    ByteOfHigh(w);
    var sum := Xor(Xor(Xor(front, term1), O40[term2 % 0x100]), O32[term2 / 0x100 % 0x100]);

    SliceStep(CRC32C_POLY, crc0, mem[buf..buf + 4], mem[buf + 4..buf + 8]);
    ZerosLookup(CRC32C_POLY, 32, x);
    ZerosLookup(CRC32C_POLY, 0, w);
    XorRegroup(front, O56[Byte(w, 0)], O48[Byte(w, 1)], O40[Byte(w, 2)], O32[Byte(w, 3)]);
    assert mem[buf..buf + 8] == mem[buf..buf + 4] + mem[buf + 4..buf + 8];
    CrcBytesBound(CRC32C_POLY, crc0, mem[buf..buf + 8]);
    crc := sum;
  }

  lemma XorWordLoad(c: u32, s: seq<u8>)
    requires |s| == 4
    ensures Load(s) < 0x1_0000_0000
    ensures Xor(c, Load(s)) < 0x1_0000_0000
  {
    LoadWord(s);
    XorWord(c, Load(s));
  }

  lemma LoadWord(s: seq<u8>)
    requires |s| == 4
    ensures Load(s) < 0x1_0000_0000
  {
    LoadBound(s);
    ShlWord(1);
  }

  /** A checksum of adjacent runs of memory is the checksum of the run they make up. */
  lemma CrcResume(p: u32, c: u32, mem: seq<u8>, i: nat, j: nat, k: nat)
    requires i <= j <= k <= |mem|
    ensures CrcBytes(p, CrcBytes(p, c, mem[i..j]), mem[j..k]) == CrcBytes(p, c, mem[i..k])
  {
    CrcBytesAppend(p, c, mem[i..j], mem[j..k]);
    assert mem[i..k] == mem[i..j] + mem[j..k];
  }

  method Sb8(crc0: u32, mem: seq<u8>, buf: nat, length: nat, initBytes: nat) returns (crc: u32)
    requires buf + length <= |mem| && initBytes <= length
    ensures crc == CrcBytes(CRC32C_POLY, crc0, mem[buf..buf + length])
  {
    hide Zeros, Xor, CrcBytes;
    var runningLength := (length - initBytes) / 8 * 8;
    var endBytes := length - initBytes - runningLength;
    crc := ByteLoop(CRC32C_POLY, O32, mem, buf, initBytes, crc0);
    var next := buf + initBytes;
    for li := 0 to runningLength / 8
      invariant next == buf + initBytes + 8 * li
      invariant crc == CrcBytes(CRC32C_POLY, crc0, mem[buf..next])
    {
      crc := SliceBy8(crc, mem, next);
      CrcResume(CRC32C_POLY, crc0, mem, buf, next, next + 8);
      next := next + 8;
    }
    crc := ByteLoop(CRC32C_POLY, O32, mem, next, endBytes, crc);
    CrcResume(CRC32C_POLY, crc0, mem, buf, next, buf + length);
  }

  lemma CrcBytesBound(p: u32, c: u32, s: seq<u8>)
    ensures CrcBytes(p, c, s) < 0x1_0000_0000
  {
    CrcBound(p, c, Message(s));
  }

  method MultiTableCrc32c(crc0: u32, mem: seq<u8>, buf: nat, length: nat) returns (crc: u32)
    requires buf + length <= |mem|
    requires length == 0 || 4 - buf % 4 <= length
    ensures crc == CrcBytes(CRC32C_POLY, crc0, mem[buf..buf + length])
  {
    if length == 0 {
      assert mem[buf..buf] == [];
      return crc0;
    }
    var toEvenWord := 4 - buf % 4;
    crc := Sb8(crc0, mem, buf, length, toEvenWord);
  }

  method CalculateCrc32c(crc0: u32, mem: seq<u8>, buf: nat, length: nat) returns (crc: u32)
    requires buf + length <= |mem|
    ensures crc == CrcBytes(CRC32C_POLY, crc0, mem[buf..buf + length])
  {
    if length < 4 {
      crc := SingleTableCrc32c(crc0, mem, buf, length);
    } else {
      crc := MultiTableCrc32c(crc0, mem, buf, length);
    }
  }

  // ---------------------------------------------------------------- the residue of CRC-32

  /** A word in memory order. */
  function LeBytes(w: u32): (s: seq<u8>)
    ensures |s| == 4
  {
    [Byte(w, 0), Byte(w, 1), Byte(w, 2), Byte(w, 3)]
  }

  lemma LoadLeBytes(w: u32)
    ensures Load(LeBytes(w)) == w
  {
    LoadFour(Byte(w, 0), Byte(w, 1), Byte(w, 2), Byte(w, 3));
    ByteSum(w);
    hide Byte, Load;
  }

  lemma ByteSum(w: u32)
    ensures w == Byte(w, 0) + 0x100 * Byte(w, 1) + 0x1_0000 * Byte(w, 2) + 0x100_0000 * Byte(w, 3)
  {
    DivDiv(w);
    var w1, w2 := w / 0x100, w / 0x1_0000;
    assert w == w % 0x100 + 0x100 * w1;
    assert w1 == w1 % 0x100 + 0x100 * w2;
    assert w2 == w2 % 0x100 + 0x100 * (w / 0x100_0000);
  }

  lemma LoadFour(b0: u8, b1: u8, b2: u8, b3: u8)
    ensures Load([b0, b1, b2, b3]) == b0 + 0x100 * b1 + 0x1_0000 * b2 + 0x100_0000 * b3
  {
    assert Load([b3]) == b3;
    LoadFirst(b2, [b3]);
    LoadFirst(b1, [b2, b3]);
    LoadFirst(b0, [b1, b2, b3]);
  }

  lemma LoadFirst(b: u8, s: seq<u8>)
    ensures [b] + s != [] && Load([b] + s) == b + 0x100 * Load(s)
  {
    assert ([b] + s)[1..] == s;
  }

  lemma LoadInjective(s: seq<u8>, t: seq<u8>)
    requires |s| == |t| && Load(s) == Load(t)
    ensures s == t
  {
    if s != [] {
      assert s[0] == t[0];
      LoadInjective(s[1..], t[1..]);
      assert s == [s[0]] + s[1..] && t == [t[0]] + t[1..];
    }
  }

  /**
   * Four trailing bytes give the fixed residue exactly when they are the CRC of what precedes them: the
   * receiver needs no other check.
   */
  lemma Crc32Residue(m: seq<u8>, t: seq<u8>)
    requires |t| == 4
    ensures Crc32Of(m) < 0x1_0000_0000
    ensures Crc32Of(m + t) == Xor(Zeros(CRC32_POLY, 32, ALL_ONES), ALL_ONES) <==> t == LeBytes(Crc32Of(m))
  {
    hide Zeros, Xor, CrcBytes;
    var p, r := CRC32_POLY, CrcBytes(CRC32_POLY, ALL_ONES, m);
    CrcBytesBound(p, ALL_ONES, m);
    XorWord(r, ALL_ONES);
    CrcBytesAppend(p, ALL_ONES, m, t);
    CrcLoad(p, r, t);
    XorWordLoad(r, t);
    XorCancel(Zeros(p, 32, Xor(r, Load(t))), ALL_ONES);
    XorCancel(Zeros(p, 32, ALL_ONES), ALL_ONES);
    ZerosInjective(p, 32, Xor(r, Load(t)), ALL_ONES);
    XorCancel(Load(t), r);
    XorCancel(ALL_ONES, r);
    LoadLeBytes(Xor(r, ALL_ONES));
    if Load(t) == Xor(r, ALL_ONES) {
      LoadInjective(t, LeBytes(Xor(r, ALL_ONES)));
    }
  }
}
