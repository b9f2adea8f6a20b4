/**
 * Cyclic redundancy checks: the bit-serial definition and the algebra of its shift register.
 *
 * A polynomial over GF(2) of degree 32 is given by the word `p` of its 32 lower coefficients in reflected
 * order, the coefficient of x^31 in bit 0. Nothing here depends on which polynomial it is.
 */
module CrcSpec {
  import opened Gf2

  /** One clock of the register with input 0. */
  function Step(p: nat, c: nat): nat {
    if c % 2 == 0 then c / 2 else Xor(c / 2, p)
  }

  /** The bit-serial CRC: the register after clocking in every bit, the first bit first. */
  function Crc(p: nat, c: nat, bits: seq<bool>): nat {
    if bits == [] then c
    else Step(p, Xor(Crc(p, c, bits[..|bits| - 1]), if bits[|bits| - 1] then 1 else 0))
  }

  /** The n low bits of x, the least significant first, which is the order of transmission. */
  function BitsOf(x: nat, n: nat): (bits: seq<bool>)
    ensures |bits| == n
  {
    if n == 0 then [] else [x % 2 == 1] + BitsOf(x / 2, n - 1)
  }

  function Message(s: seq<u8>): (bits: seq<bool>)
    ensures |bits| == 8 * |s|
  {
    if s == [] then [] else Message(s[..|s| - 1]) + BitsOf(s[|s| - 1], 8)
  }

  /** The reference every fast path has to meet. */
  function CrcBytes(p: nat, c: nat, s: seq<u8>): nat {
    Crc(p, c, Message(s))
  }

  /** n clocks with input 0, the operator that appends n zero bits to the message. */
  function Zeros(p: nat, n: nat, c: nat): nat {
    if n == 0 then c else Step(p, Zeros(p, n - 1, c))
  }

  // ---------------------------------------------------------------- linearity

  lemma StepXor(p: nat, a: nat, b: nat)
    ensures Step(p, Xor(a, b)) == Xor(Step(p, a), Step(p, b))
  {
    XorHalf(a, b);
    hide Xor;
    if a % 2 == 1 && b % 2 == 1 {
      XorSwap(a / 2, p, b / 2, p);
      XorSelf(p);
      XorZero(Xor(a / 2, b / 2));
    } else if a % 2 == 1 {
      XorAssoc(a / 2, b / 2, p);
      XorComm(b / 2, p);
      XorAssoc(a / 2, p, b / 2);
    } else if b % 2 == 1 {
      XorAssoc(a / 2, b / 2, p);
    }
  }

  lemma {:induction false} ZerosXor(p: nat, n: nat, a: nat, b: nat)
    ensures Zeros(p, n, Xor(a, b)) == Xor(Zeros(p, n, a), Zeros(p, n, b))
  {
    hide Xor, Step;
    if n > 0 {
      ZerosXor(p, n - 1, a, b);
      StepXor(p, Zeros(p, n - 1, a), Zeros(p, n - 1, b));
    }
  }

  lemma {:induction false} ZerosAdd(p: nat, m: nat, n: nat, c: nat)
    ensures Zeros(p, m + n, c) == Zeros(p, m, Zeros(p, n, c))
  {
    hide Step;
    if m > 0 {
      ZerosAdd(p, m - 1, n, c);
    }
  }

  lemma {:induction false} ZerosOfZero(p: nat, n: nat)
    ensures Zeros(p, n, 0) == 0
  {
    if n > 0 {
      ZerosOfZero(p, n - 1);
    }
  }

  lemma {:induction false} CrcAppend(p: nat, c: nat, a: seq<bool>, b: seq<bool>)
    ensures Crc(p, c, a + b) == Crc(p, Crc(p, c, a), b)
  {
    hide Xor, Step;
    if b == [] {
      assert a + b == a;
    } else {
      CrcAppend(p, c, a, b[..|b| - 1]);
      assert (a + b)[..|a + b| - 1] == a + b[..|b| - 1];
    }
  }

  /** Superposition: a difference in the register travels through the message as through zeros. */
  lemma {:induction false} CrcXor(p: nat, c: nat, d: nat, bits: seq<bool>)
    ensures Crc(p, Xor(c, d), bits) == Xor(Zeros(p, |bits|, c), Crc(p, d, bits))
  {
    hide Xor, Step;
    if bits != [] {
      var front, x := bits[..|bits| - 1], if bits[|bits| - 1] then 1 else 0;
      CrcXor(p, c, d, front);
      XorAssoc(Zeros(p, |front|, c), Crc(p, d, front), x);
      StepXor(p, Zeros(p, |front|, c), Xor(Crc(p, d, front), x));
    }
  }

  // ---------------------------------------------------------------- words

  lemma ZerosFirst(p: nat, n: nat, c: nat)
    requires n > 0
    ensures Zeros(p, n, c) == Zeros(p, n - 1, Step(p, c))
  {
    ZerosAdd(p, n - 1, 1, c);
    assert Zeros(p, 0, c) == c;
    assert Zeros(p, 1, c) == Step(p, c);
  }

  lemma StepDouble(p: nat, x: nat)
    ensures Step(p, 2 * x) == x
  {}

  lemma {:induction false} ZerosShl(p: nat, m: nat, n: nat, x: nat)
    ensures Zeros(p, m + n, Shl(x, n)) == Zeros(p, m, x)
  {
    hide Xor, Step;
    if n > 0 {
      ZerosFirst(p, m + n, Shl(x, n));
      StepDouble(p, Shl(x, n - 1));
      ZerosShl(p, m, n - 1, x);
    }
  }

  /** Clocking in a word bit by bit is adding it to the register at once and then clocking in zeros. */
  lemma {:induction false} CrcWord(p: nat, c: nat, x: nat, n: nat)
    requires x < Pow2(n)
    ensures Crc(p, c, BitsOf(x, n)) == Zeros(p, n, Xor(c, x))
    decreases n
  {
    hide Xor, Step;
    if n == 0 {
      XorZero(c);
    } else {
      var b := x % 2;
      var first := [x % 2 == 1];
      var d := Crc(p, c, first);
      CrcAppend(p, c, first, BitsOf(x / 2, n - 1));
      CrcWord(p, d, x / 2, n - 1);
      assert d == Step(p, Xor(c, b)) by {
        assert first[..0] == [];
        assert Crc(p, c, first[..0]) == c;
      }
      WordFirst(p, c, x);
      ZerosFirst(p, n, Xor(c, x));
    }
  }

  lemma WordFirst(p: nat, c: nat, x: nat)
    ensures Xor(Step(p, Xor(c, x % 2)), x / 2) == Step(p, Xor(c, x))
  {
    var h := 2 * (x / 2);
    assert Step(p, h) == x / 2;
    WordSplit(x);
    hide Xor, Step;
    XorAssoc(c, x % 2, h);
    StepXor(p, Xor(c, x % 2), h);
  }

  lemma WordSplit(x: nat)
    ensures Xor(x % 2, 2 * (x / 2)) == x
  {
    XorZero(x / 2);
  }

  lemma {:induction false} BitsOfAppend(low: nat, high: nat, m: nat, n: nat)
    requires low < Pow2(m)
    ensures BitsOf(low + Shl(high, m), m + n) == BitsOf(low, m) + BitsOf(high, n)
  {
    if m > 0 {
      BitsOfAppend(low / 2, high, m - 1, n);
      assert (low + Shl(high, m)) / 2 == low / 2 + Shl(high, m - 1);
    }
  }

  // ---------------------------------------------------------------- bytes

  lemma {:induction false} MessageAppend(a: seq<u8>, b: seq<u8>)
    ensures Message(a + b) == Message(a) + Message(b)
  {
    if b == [] {
      assert a + b == a;
    } else {
      MessageAppend(a, b[..|b| - 1]);
      assert (a + b)[..|a + b| - 1] == a + b[..|b| - 1];
    }
  }

  /** Streaming: a checksum is resumed from the register that the earlier bytes left. */
  lemma CrcBytesAppend(p: nat, c: nat, a: seq<u8>, b: seq<u8>)
    ensures CrcBytes(p, c, a + b) == CrcBytes(p, CrcBytes(p, c, a), b)
  {
    MessageAppend(a, b);
    CrcAppend(p, c, Message(a), Message(b));
  }

  lemma CrcBytesXor(p: nat, c: nat, d: nat, s: seq<u8>)
    ensures CrcBytes(p, Xor(c, d), s) == Xor(Zeros(p, 8 * |s|, c), CrcBytes(p, d, s))
  {
    CrcXor(p, c, d, Message(s));
  }

  /** The little-endian load of a run of bytes. */
  function Load(s: seq<u8>): nat {
    if s == [] then 0 else s[0] + 0x100 * Load(s[1..])
  }

  lemma {:induction false} LoadBound(s: seq<u8>)
    ensures Load(s) < Pow2(8 * |s|)
  {
    if s != [] {
      LoadBound(s[1..]);
      ShlAdd(1, 8, 8 * |s[1..]|);
      ShlByte(Pow2(8 * |s[1..]|));
    }
  }

  lemma {:induction false} LoadBits(s: seq<u8>)
    ensures Message(s) == BitsOf(Load(s), 8 * |s|)
  {
    if s != [] {
      var rest := s[1..];
      MessageAppend([s[0]], rest);
      assert [s[0]] + rest == s;
      assert Message([s[0]]) == BitsOf(s[0], 8) by {
        assert [s[0]][..0] == [];
        assert Message([s[0]][..0]) == [];
      }
      LoadBits(rest);
      ShlByte(Load(rest));
      ShlByte(1);
      BitsOfAppend(s[0], Load(rest), 8, 8 * |rest|);
    }
  }

  /** A whole word of the message enters the register in one addition. */
  lemma CrcLoad(p: nat, c: nat, s: seq<u8>)
    ensures CrcBytes(p, c, s) == Zeros(p, 8 * |s|, Xor(c, Load(s)))
  {
    LoadBits(s);
    LoadBound(s);
    CrcWord(p, c, Load(s), 8 * |s|);
  }

  lemma CrcByte(p: nat, c: nat, b: u8)
    ensures CrcBytes(p, c, [b]) == Zeros(p, 8, Xor(c, b))
  {
    CrcLoad(p, c, [b]);
    assert Load([b]) == b;
  }

  lemma ByteSplit(x: nat)
    ensures Xor(x % 0x100, 0x100 * (x / 0x100)) == x
  {
    ShlByte(1);
    ShlByte(x / 0x100);
    XorAppend(x % 0x100, x / 0x100, 8);
  }

  /** Appending zeros to a word wider than a byte splits off its low byte. */
  lemma ZerosByte(p: nat, n: nat, x: nat)
    ensures Zeros(p, n + 8, x) == Xor(Zeros(p, n + 8, x % 0x100), Zeros(p, n, x / 0x100))
  {
    ByteSplit(x);
    ZerosXor(p, n + 8, x % 0x100, 0x100 * (x / 0x100));
    ShlByte(x / 0x100);
    ZerosShl(p, n, 8, x / 0x100);
  }

  /** A byte of input changes only the low byte of the register before it is clocked. */
  lemma XorByte(c: nat, b: u8)
    ensures Xor(c, b) / 0x100 == c / 0x100
    ensures Xor(c, b) % 0x100 == Xor(c % 0x100, b) < 0x100
  {
    var low, high := c % 0x100, 0x100 * (c / 0x100);
    ByteSplit(c);
    XorComm(low, high);
    XorAssoc(high, low, b);
    XorComm(high, Xor(low, b));
    ShlByte(1);
    XorBound(low, b, 8);
    ShlByte(c / 0x100);
    XorAppend(Xor(low, b), c / 0x100, 8);
  }

  /** The table-driven byte step. */
  lemma CrcTableByte(p: nat, c: nat, b: u8)
    ensures CrcBytes(p, c, [b]) == Xor(Zeros(p, 8, Xor(c, b) % 0x100), c / 0x100)
  {
    CrcByte(p, c, b);
    ZerosByte(p, 0, Xor(c, b));
    XorByte(c, b);
  }

  lemma StepBound(p: u32, c: u32)
    ensures Step(p, c) < 0x1_0000_0000
  {
    ShlWord(1);
    XorBound(c / 2, p, 32);
  }

  lemma {:induction false} ZerosBound(p: u32, n: nat, c: u32)
    ensures Zeros(p, n, c) < 0x1_0000_0000
  {
    hide Step;
    if n > 0 {
      ZerosBound(p, n - 1, c);
      StepBound(p, Zeros(p, n - 1, c));
    }
  }

  lemma {:induction false} CrcBound(p: u32, c: u32, bits: seq<bool>)
    ensures Crc(p, c, bits) < 0x1_0000_0000
  {
    if bits != [] {
      var d := Crc(p, c, bits[..|bits| - 1]);
      CrcBound(p, c, bits[..|bits| - 1]);
      ShlWord(1);
      var b := if bits[|bits| - 1] then 1 else 0;
      XorBound(d, b, 32);
      StepBound(p, Xor(d, b));
    }
  }

  // ---------------------------------------------------------------- whole words at a time

  /** x moved up by one byte. */
  function Up(x: nat): nat { 0x100 * x }

  lemma UpXor(a: nat, b: nat)
    ensures Up(Xor(a, b)) == Xor(Up(a), Up(b))
  {
    ShlXor(a, b, 8);
    ShlByte(a);
    ShlByte(b);
    ShlByte(Xor(a, b));
  }

  lemma WordBytes(x: nat)
    ensures x == Xor(Xor(Xor(x % 0x100, 0x100 * (x / 0x100 % 0x100)),
                         0x1_0000 * (x / 0x1_0000 % 0x100)),
                     0x100_0000 * (x / 0x100_0000))
  {
    hide Xor;
    var x1, x2, x3 := x / 0x100, x / 0x1_0000, x / 0x100_0000;
    DivDiv(x);
    ByteSplit(x);
    ByteSplit(x1);
    ByteSplit(x2);
    BytesJoin(x, x1, x2, x3, x % 0x100, x1 % 0x100, x2 % 0x100);
  }

  lemma DivDiv(x: nat)
    ensures x / 0x100 / 0x100 == x / 0x1_0000
    ensures x / 0x1_0000 / 0x100 == x / 0x100_0000
  {}

  lemma BytesJoin(x: nat, x1: nat, x2: nat, x3: nat, b0: nat, b1: nat, b2: nat)
    requires x == Xor(b0, Up(x1)) && x1 == Xor(b1, Up(x2)) && x2 == Xor(b2, Up(x3))
    ensures x == Xor(Xor(Xor(b0, Up(b1)), Up(Up(b2))), Up(Up(Up(x3))))
  {
    hide Xor, Up;
    UpXor(b1, Up(x2));
    UpXor(b2, Up(x3));
    UpXor(Up(b2), Up(Up(x3)));
    XorAssoc(b0, Up(b1), Up(Up(x2)));
    XorAssoc(Xor(b0, Up(b1)), Up(Up(b2)), Up(Up(Up(x3))));
  }

  /** An operator on a word is the sum of what it does to the four bytes of the word. */
  lemma ZerosBytes(p: nat, n: nat, x: nat)
    ensures Zeros(p, n, x)
         == Xor(Xor(Xor(Zeros(p, n, x % 0x100), Zeros(p, n, 0x100 * (x / 0x100 % 0x100))),
                    Zeros(p, n, 0x1_0000 * (x / 0x1_0000 % 0x100))),
                Zeros(p, n, 0x100_0000 * (x / 0x100_0000)))
  {
    var b0, b1 := x % 0x100, 0x100 * (x / 0x100 % 0x100);
    var b2, b3 := 0x1_0000 * (x / 0x1_0000 % 0x100), 0x100_0000 * (x / 0x100_0000);
    WordBytes(x);
    hide Xor, Zeros;
    ZerosXor(p, n, Xor(Xor(b0, b1), b2), b3);
    ZerosXor(p, n, Xor(b0, b1), b2);
    ZerosXor(p, n, b0, b1);
  }
}
