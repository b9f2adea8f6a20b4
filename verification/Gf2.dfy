/**
 * Machine words as bounded natural numbers, and exclusive or on them.
 *
 * A shift right by k is a division by 2^k, a mask of the low k bits is a remainder modulo 2^k and a
 * shift left is a product, cut to the width of the word where the shift can overflow it.
 */
module Gf2 {
  type u8 = x: nat | x < 0x100
  type u16 = x: nat | x < 0x1_0000
  type u32 = x: nat | x < 0x1_0000_0000
  type u64 = x: nat | x < 0x1_0000_0000_0000_0000

  /** Exclusive or: addition without carries. */
  function Xor(a: nat, b: nat): nat
    decreases a + b
  {
    if a == 0 && b == 0 then 0 else 2 * Xor(a / 2, b / 2) + (if a % 2 == b % 2 then 0 else 1)
  }

  /** x shifted left by n places. */
  function Shl(x: nat, n: nat): (y: nat)
    ensures y >= x
  {
    if n == 0 then x else 2 * Shl(x, n - 1)
  }

  function Pow2(n: nat): nat { Shl(1, n) }

  lemma {:induction false} XorZero(a: nat)
    ensures Xor(a, 0) == a && Xor(0, a) == a
  {
    if a > 0 { XorZero(a / 2); }
  }

  lemma {:induction false} XorSelf(a: nat)
    ensures Xor(a, a) == 0
  {
    if a > 0 { XorSelf(a / 2); }
  }

  lemma {:induction false} XorComm(a: nat, b: nat)
    ensures Xor(a, b) == Xor(b, a)
    decreases a + b
  {
    if a + b > 0 { XorComm(a / 2, b / 2); }
  }

  lemma XorHalf(a: nat, b: nat)
    ensures Xor(a, b) / 2 == Xor(a / 2, b / 2)
    ensures Xor(a, b) % 2 == if a % 2 == b % 2 then 0 else 1
  {}

  lemma XorDouble(a: nat, b: nat)
    ensures Xor(2 * a, 2 * b) == 2 * Xor(a, b)
  {}

  lemma SameWord(x: nat, y: nat)
    requires x / 2 == y / 2 && x % 2 == y % 2
    ensures x == y
  {}

  lemma {:induction false} XorAssoc(a: nat, b: nat, c: nat)
    ensures Xor(Xor(a, b), c) == Xor(a, Xor(b, c))
    decreases a + b + c
  {
    XorHalf(a, b);
    XorHalf(b, c);
    XorHalf(Xor(a, b), c);
    XorHalf(a, Xor(b, c));
    if a + b + c > 0 {
      hide Xor;
      XorAssoc(a / 2, b / 2, c / 2);
      SameWord(Xor(Xor(a, b), c), Xor(a, Xor(b, c)));
    }
  }

  lemma XorSwap(a: nat, b: nat, c: nat, d: nat)
    ensures Xor(Xor(a, b), Xor(c, d)) == Xor(Xor(a, c), Xor(b, d))
  {
    XorAssoc(a, b, Xor(c, d));
    XorAssoc(b, c, d);
    XorComm(b, c);
    XorAssoc(c, b, d);
    XorAssoc(a, c, Xor(b, d));
  }

  lemma XorCancel(a: nat, b: nat)
    ensures Xor(Xor(a, b), b) == a && Xor(b, Xor(b, a)) == a
  {
    XorAssoc(a, b, b);
    XorAssoc(b, b, a);
    XorSelf(b);
    XorZero(a);
  }

  /** Two words are equal exactly when their exclusive or is zero. */
  lemma XorIsZero(a: nat, b: nat)
    ensures Xor(a, b) == 0 <==> a == b
  {
    XorCancel(a, b);
    XorZero(b);
    XorSelf(b);
  }

  lemma {:induction false} XorBound(a: nat, b: nat, n: nat)
    requires a < Pow2(n) && b < Pow2(n)
    ensures Xor(a, b) < Pow2(n)
    decreases n
  {
    if n > 0 { XorBound(a / 2, b / 2, n - 1); }
  }

  lemma {:induction false} ShlAdd(x: nat, m: nat, n: nat)
    ensures Shl(x, m + n) == Shl(Shl(x, n), m)
  {
    if m > 0 { ShlAdd(x, m - 1, n); }
  }

  lemma {:induction false} Pow2Monotone(m: nat, n: nat)
    requires m <= n
    ensures Pow2(m) <= Pow2(n)
  {
    if m < n {
      Pow2Monotone(m, n - 1);
    }
  }

  /** Shifts by the widths of the machine words are products. */
  lemma ShlWord(x: nat)
    ensures Shl(x, 0) == x
    ensures Shl(x, 8) == 0x100 * x
    ensures Shl(x, 16) == 0x1_0000 * x
    ensures Shl(x, 24) == 0x100_0000 * x
    ensures Shl(x, 32) == 0x1_0000_0000 * x
  {
    ShlByte(x);
    ShlByte(Shl(x, 8));
    ShlByte(Shl(x, 16));
    ShlByte(Shl(x, 24));
    ShlAdd(x, 8, 8);
    ShlAdd(x, 8, 16);
    ShlAdd(x, 8, 24);
  }

  lemma Pow2DoubleWord()
    ensures Pow2(64) == 0x1_0000_0000_0000_0000
  {
    ShlAdd(1, 32, 32);
    ShlWord(1);
    ShlWord(Pow2(32));
  }

  lemma ShlByte(x: nat)
    ensures Shl(x, 8) == 0x100 * x
  {
    assert Shl(x, 1) == 2 * x;
    assert Shl(x, 2) == 4 * x;
    assert Shl(x, 4) == 16 * x;
    assert Shl(x, 6) == 64 * x;
  }

  lemma {:induction false} ShlXor(a: nat, b: nat, n: nat)
    ensures Shl(Xor(a, b), n) == Xor(Shl(a, n), Shl(b, n))
  {
    hide Xor;
    if n > 0 {
      ShlXor(a, b, n - 1);
      XorDouble(Shl(a, n - 1), Shl(b, n - 1));
    }
  }

  lemma ShlDouble(x: nat, n: nat)
    requires n > 0
    ensures Shl(x, n) == 2 * Shl(x, n - 1)
  {}

  lemma Pow2Is(n: nat)
    ensures Pow2(n) == Shl(1, n)
  {}

  lemma XorNothing(low: nat, high: nat)
    requires low < Pow2(0)
    ensures Xor(low, Shl(high, 0)) == low + Shl(high, 0)
  {
    XorZero(high);
  }

  /** Exclusive or with a word that occupies only the bits left free is addition. */
  lemma {:induction false} XorAppend(low: nat, high: nat, n: nat)
    requires low < Pow2(n)
    ensures Xor(low, Shl(high, n)) == low + Shl(high, n)
    decreases n
  {
    hide Xor, Shl, Pow2;
    if n == 0 {
      XorNothing(low, high);
    } else {
      ShlDouble(high, n);
      ShlDouble(1, n);
      Pow2Is(n);
      Pow2Is(n - 1);
      XorAppend(low / 2, high, n - 1);
      XorHalf(low, Shl(high, n));
    }
  }
}
