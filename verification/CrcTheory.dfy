/** What a CRC is for: the remainder it computes, and the errors it cannot miss. */
module CrcTheory {
  import opened Gf2
  import opened CrcSpec

  // ---------------------------------------------------------------- division

  /** The generator with its leading coefficient, which reflected order puts in bit 0. */
  function Generator(p: nat): nat { 2 * p + 1 }

  function Term(q: nat, g: nat): nat { if q % 2 == 1 then g else 0 }

  /** Product of polynomials over GF(2). */
  function Clmul(q: nat, g: nat): nat {
    if q == 0 then 0 else Xor(Term(q, g), 2 * Clmul(q / 2, g))
  }

  lemma ClmulUnfold(q: nat, g: nat)
    ensures Clmul(q, g) == Xor(Term(q, g), 2 * Clmul(q / 2, g))
  {
    hide Xor;
    XorZero(0);
  }

  lemma ClmulHalf(q: nat, g: nat)
    ensures Clmul(q, g) / 2 == Xor(Term(q, g) / 2, Clmul(q / 2, g))
    ensures Clmul(q, g) % 2 == Term(q, g) % 2
  {
    ClmulUnfold(q, g);
    XorEven(Term(q, g), Clmul(q / 2, g));
    hide Xor, Clmul;
  }

  /** The feedback decisions of n clocks, the first one in bit 0. */
  function Quotient(p: nat, n: nat, y: nat): nat {
    if n == 0 then 0 else y % 2 + 2 * Quotient(p, n - 1, Step(p, y))
  }

  lemma {:induction false} QuotientBound(p: nat, n: nat, y: nat)
    ensures Quotient(p, n, y) < Pow2(n)
  {
    if n > 0 {
      QuotientBound(p, n - 1, Step(p, y));
    }
  }

  lemma StepBack(p: nat, y: nat)
    ensures y == Xor(Term(y, Generator(p)), 2 * Step(p, y))
  {
    if y % 2 == 1 {
      XorComm(y / 2, p);
      XorCancel(y / 2, p);
    } else {
      XorZero(y);
    }
  }

  lemma {:induction false} DivisionExists(p: nat, n: nat, y: nat)
    ensures y == Xor(Clmul(Quotient(p, n, y), Generator(p)), Shl(Zeros(p, n, y), n))
  {
    if n == 0 {
      XorZero(y);
    } else {
      var y', g, q := Step(p, y), Generator(p), Quotient(p, n, y);
      assert q % 2 == y % 2 && q / 2 == Quotient(p, n - 1, y');
      ZerosFirst(p, n, y);
      var k, r := Clmul(q / 2, g), Shl(Zeros(p, n - 1, y'), n - 1);
      assert Shl(Zeros(p, n, y), n) == 2 * r;
      assert Term(q, g) == Term(y, g);
      hide *;
      DivisionExists(p, n - 1, y');
      StepBack(p, y);
      XorDouble(k, r);
      XorAssoc(Term(y, g), 2 * k, 2 * r);
      ClmulUnfold(q, g);
    }
  }

  lemma XorEven(a: nat, s: nat)
    ensures Xor(a, 2 * s) / 2 == Xor(a / 2, s)
    ensures Xor(a, 2 * s) % 2 == a % 2
  {
    XorHalf(a, 2 * s);
  }

  lemma XorCancelLeft(t: nat, a: nat, b: nat)
    requires Xor(t, a) == Xor(t, b)
    ensures a == b
  {
    XorCancel(a, t);
    XorCancel(b, t);
  }

  /** A number that multiplies to an even sum has a determined lowest term. */
  lemma DivisionUniqueStep(g: nat, q: nat, q': nat, s: nat, s': nat)
    requires g % 2 == 1
    requires Xor(Clmul(q, g), 2 * s) == Xor(Clmul(q', g), 2 * s')
    ensures q % 2 == q' % 2
    ensures Xor(Clmul(q / 2, g), s) == Xor(Clmul(q' / 2, g), s')
  {
    hide Xor, Clmul;
    XorEven(Clmul(q, g), s);
    XorEven(Clmul(q', g), s');
    ClmulHalf(q, g);
    ClmulHalf(q', g);
    assert Term(q, g) == Term(q', g);
    var t := Term(q, g) / 2;
    hide Term;
    XorAssoc(t, Clmul(q / 2, g), s);
    XorAssoc(t, Clmul(q' / 2, g), s');
    XorCancelLeft(t, Xor(Clmul(q / 2, g), s), Xor(Clmul(q' / 2, g), s'));
  }

  lemma NoQuotient(p: nat, q: nat, r: nat)
    requires q < Pow2(0)
    ensures q == 0 && Xor(Clmul(q, Generator(p)), Shl(r, 0)) == r
  {
    XorZero(r);
  }

  lemma GeneratorOdd(p: nat)
    ensures Generator(p) % 2 == 1
  {}

  lemma HalfBound(q: nat, n: nat)
    requires n > 0 && q < Pow2(n)
    ensures q / 2 < Pow2(n - 1)
  {}

  lemma {:induction false} DivisionUnique(p: nat, n: nat, q: nat, r: nat, q': nat, r': nat)
    requires q < Pow2(n) && q' < Pow2(n)
    requires Xor(Clmul(q, Generator(p)), Shl(r, n)) == Xor(Clmul(q', Generator(p)), Shl(r', n))
    ensures q == q' && r == r'
    decreases n
  {
    hide Xor, Clmul, Shl, Pow2, Generator;
    if n == 0 {
      NoQuotient(p, q, r);
      NoQuotient(p, q', r');
    } else {
      GeneratorOdd(p);
      ShlDouble(r, n);
      ShlDouble(r', n);
      HalfBound(q, n);
      HalfBound(q', n);
      DivisionUniqueStep(Generator(p), q, q', Shl(r, n - 1), Shl(r', n - 1));
      DivisionUnique(p, n - 1, q / 2, r, q' / 2, r');
      SameWord(q, q');
    }
  }

  /**
   * The CRC is the remainder of a division of polynomials. With every word read in reflected order, the
   * n message bits preceded by the seed are q * g + r, where g is the generator with its leading
   * coefficient; no other quotient of n terms leaves a remainder.
   */
  lemma CrcIsRemainder(p: nat, c: nat, x: nat, n: nat, q: nat, r: nat)
    requires x < Pow2(n)
    ensures q < Pow2(n) && Xor(c, x) == Xor(Clmul(q, Generator(p)), Shl(r, n))
      <==> q == Quotient(p, n, Xor(c, x)) && r == Crc(p, c, BitsOf(x, n))
  {
    var y := Xor(c, x);
    CrcWord(p, c, x, n);
    DivisionExists(p, n, y);
    QuotientBound(p, n, y);
    if q < Pow2(n) && y == Xor(Clmul(q, Generator(p)), Shl(r, n)) {
      DivisionUnique(p, n, q, r, Quotient(p, n, y), Zeros(p, n, y));
    }
  }

  // ---------------------------------------------------------------- error detection

  /** The constant term of the generator is 1, which makes the register step a bijection. */
  predicate Full(p: nat) { 0x8000_0000 <= p < 0x1_0000_0000 }

  lemma {:induction false} ZerosKernel(p: u32, n: nat, x: u32)
    requires Full(p)
    ensures Zeros(p, n, x) == 0 <==> x == 0
  {
    if n == 0 {
    } else {
      var y := Zeros(p, n - 1, x);
      ZerosKernel(p, n - 1, x);
      ZerosBound(p, n - 1, x);
      if y % 2 == 1 {
        XorIsZero(y / 2, p);
      }
    }
  }

  lemma ZerosInjective(p: u32, n: nat, x: u32, y: u32)
    requires Full(p)
    ensures Zeros(p, n, x) == Zeros(p, n, y) <==> x == y
  {
    ZerosXor(p, n, x, y);
    ShlWord(1);
    XorBound(x, y, 32);
    ZerosKernel(p, n, Xor(x, y));
    XorIsZero(x, y);
    XorIsZero(Zeros(p, n, x), Zeros(p, n, y));
  }

  /** Equal suffixes neither create nor hide a difference. */
  lemma CrcInjective(p: u32, c: u32, d: u32, bits: seq<bool>)
    requires Full(p)
    ensures Crc(p, c, bits) == Crc(p, d, bits) <==> c == d
  {
    CrcXor(p, c, 0, bits);
    CrcXor(p, d, 0, bits);
    XorZero(c);
    XorZero(d);
    var z := Crc(p, 0, bits);
    XorCancel(Zeros(p, |bits|, c), z);
    XorCancel(Zeros(p, |bits|, d), z);
    ZerosInjective(p, |bits|, c, d);
  }

  function WordOf(bits: seq<bool>): nat {
    if bits == [] then 0 else (if bits[0] then 1 else 0) + 2 * WordOf(bits[1..])
  }

  lemma {:induction false} WordOfBits(bits: seq<bool>)
    ensures WordOf(bits) < Pow2(|bits|)
    ensures BitsOf(WordOf(bits), |bits|) == bits
  {
    if bits != [] {
      WordOfBits(bits[1..]);
    }
  }

  lemma CrcWindow(p: u32, c: u32, u: seq<bool>, v: seq<bool>)
    requires Full(p) && |u| == |v| <= 32
    ensures Crc(p, c, u) == Crc(p, c, v) <==> u == v
  {
    var n, x, y := |u|, WordOf(u), WordOf(v);
    WordOfBits(u);
    WordOfBits(v);
    Pow2Monotone(n, 32);
    ShlWord(1);
    CrcWord(p, c, x, n);
    CrcWord(p, c, y, n);
    XorBound(c, x, 32);
    XorBound(c, y, 32);
    ZerosInjective(p, n, Xor(c, x), Xor(c, y));
    XorCancel(x, c);
    XorCancel(y, c);
  }

  /** Every error confined to 32 consecutive bits, wherever it falls, changes the CRC. */
  lemma BurstDetected(p: u32, c: u32, front: seq<bool>, u: seq<bool>, v: seq<bool>, back: seq<bool>)
    requires Full(p) && |u| == |v| <= 32
    ensures Crc(p, c, front + u + back) == Crc(p, c, front + v + back) <==> u == v
  {
    var d := Crc(p, c, front);
    CrcBound(p, c, front);
    CrcAppend(p, c, front, u);
    CrcAppend(p, c, front, v);
    CrcAppend(p, c, front + u, back);
    CrcAppend(p, c, front + v, back);
    CrcBound(p, d, u);
    CrcBound(p, d, v);
    CrcInjective(p, Crc(p, d, u), Crc(p, d, v), back);
    CrcWindow(p, d, u, v);
  }

  /** The 32 bits cannot be made 33: adding the generator itself to the message leaves its CRC unchanged. */
  lemma BurstOf33Missed(p: u32)
    ensures exists u: seq<bool>, v: seq<bool> ::
      |u| == |v| == 33 && u != v && forall c: u32 :: Crc(p, c, u) == Crc(p, c, v)
  {
    var n: nat := 33;
    var u, v := BitsOf(0, n), BitsOf(Generator(p), n);
    assert u[0] != v[0];
    forall c: u32
      ensures Crc(p, c, u) == Crc(p, c, v)
    {
      GeneratorInvisible(p, c, n);
    }
  }

  lemma GeneratorInvisible(p: u32, c: u32, n: nat)
    requires n > 32
    ensures Crc(p, c, BitsOf(0, n)) == Crc(p, c, BitsOf(Generator(p), n))
  {
    var g := Generator(p);
    ShlWord(1);
    Pow2Monotone(33, n);
    assert Step(p, g) == Xor(p, p);
    assert g < Pow2(n);
    hide *;
    CrcWord(p, c, 0, n);
    CrcWord(p, c, g, n);
    ZerosFirst(p, n, g);
    XorSelf(p);
    XorZero(c);
    ZerosXor(p, n, c, g);
    ZerosOfZero(p, n - 1);
    XorZero(Zeros(p, n, c));
  }

  /** On bytes: two messages of one length that differ only inside four consecutive bytes. */
  lemma ByteBurstDetected(p: u32, c: u32, s: seq<u8>, t: seq<u8>, i: nat, k: nat)
    requires Full(p) && |s| == |t| && k <= 4 && i + k <= |s|
    requires s[..i] == t[..i] && s[i + k..] == t[i + k..]
    ensures CrcBytes(p, c, s) == CrcBytes(p, c, t) <==> s == t
  {
    var u, v := s[i..i + k], t[i..i + k];
    assert s == s[..i] + u + s[i + k..] && t == t[..i] + v + t[i + k..];
    MessageAppend(s[..i], u);
    MessageAppend(t[..i], v);
    MessageAppend(s[..i] + u, s[i + k..]);
    MessageAppend(t[..i] + v, t[i + k..]);
    BurstDetected(p, c, Message(s[..i]), Message(u), Message(v), Message(s[i + k..]));
    if Message(u) == Message(v) {
      MessageInjective(u, v);
    }
  }

  lemma {:induction false} MessageInjective(u: seq<u8>, v: seq<u8>)
    requires |u| == |v| && Message(u) == Message(v)
    ensures u == v
  {
    if u != [] {
      var n := |u| - 1;
      var a, b := Message(u), Message(v);
      assert a[..8 * n] == Message(u[..n]) && a[8 * n..] == BitsOf(u[n], 8);
      assert b[..8 * n] == Message(v[..n]) && b[8 * n..] == BitsOf(v[n], 8);
      MessageInjective(u[..n], v[..n]);
      BitsOfInjective(u[n], v[n], 8);
      assert u == u[..n] + [u[n]] && v == v[..n] + [v[n]];
    }
  }

  lemma {:induction false} BitsOfInjective(x: nat, y: nat, n: nat)
    requires x < Pow2(n) && y < Pow2(n) && BitsOf(x, n) == BitsOf(y, n)
    ensures x == y
    decreases n
  {
    if n > 0 {
      assert BitsOf(x / 2, n - 1) == BitsOf(x, n)[1..];
      assert BitsOf(y / 2, n - 1) == BitsOf(y, n)[1..];
      BitsOfInjective(x / 2, y / 2, n - 1);
    }
  }
}
