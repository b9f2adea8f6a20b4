/** Arithmetic modulo 65535 with two representations of zero, as the Internet checksum uses it. */
module OnesComplement {
  import opened Gf2

  /** The one's complement representative of a sum: 0 only for 0 itself, otherwise between 1 and 65535. */
  function Norm(x: nat): (r: u16)
    ensures r == 0 <==> x == 0
  {
    if x == 0 then 0 else 1 + (x - 1) % 0xffff
  }

  lemma NormSmall(x: u16)
    ensures Norm(x) == x
  {}

  lemma NormStep(x: nat)
    requires x > 0
    ensures Norm(x + 0xffff) == Norm(x)
  {
    assert (x - 1 + 0xffff) % 0xffff == (x - 1) % 0xffff;
  }

  lemma {:induction false} NormMultiple(x: nat, k: nat)
    requires x > 0
    ensures Norm(x + 0xffff * k) == Norm(x)
  {
    if k > 0 {
      NormMultiple(x, k - 1);
      NormStep(x + 0xffff * (k - 1));
    }
  }

  /** x exceeds its representative by a multiple of 65535. */
  lemma NormQuotient(x: nat) returns (k: nat)
    ensures x == Norm(x) + 0xffff * k
  {
    k := if x == 0 then 0 else (x - 1) / 0xffff;
  }

  lemma NormAdd(x: nat, y: nat)
    ensures Norm(Norm(x) + y) == Norm(x + y)
  {
    var k := NormQuotient(x);
    if Norm(x) + y > 0 {
      NormMultiple(Norm(x) + y, k);
    }
  }

  /** Numbers with one representative differ by a multiple of 65535, and are zero together. */
  lemma NormEqual(x: nat, y: nat)
    ensures Norm(x) == Norm(y) <==> x % 0xffff == y % 0xffff && (x == 0 <==> y == 0)
  {
    var k := NormQuotient(x);
    var l := NormQuotient(y);
    NormMod(Norm(x), k);
    NormMod(Norm(y), l);
  }

  lemma NormMod(r: nat, k: nat)
    ensures (r + 0xffff * k) % 0xffff == r % 0xffff
  {}

  /** One fold of the carries into the low half. */
  function Fold(sum: nat): nat { sum / 0x1_0000 + sum % 0x1_0000 }

  lemma FoldNorm(sum: nat)
    ensures Norm(Fold(sum)) == Norm(sum)
    ensures Fold(sum) <= sum
  {
    var high := sum / 0x1_0000;
    assert sum == Fold(sum) + 0xffff * high;
    if sum > 0 {
      NormMultiple(Fold(sum), high);
    }
  }

  /** Addition with end-around carry. */
  function OnesAdd(a: u16, b: u16): (r: u16) {
    if a + b > 0xffff then a + b - 0xffff else a + b
  }

  lemma OnesAddNorm(a: u16, b: u16)
    ensures OnesAdd(a, b) == Norm(a + b)
  {}

  /** The sum that section 1 of RFC 1071 defines. */
  function OnesSum(words: seq<u16>): u16 {
    if words == [] then 0 else OnesAdd(words[0], OnesSum(words[1..]))
  }

  function Total(words: seq<u16>): nat {
    if words == [] then 0 else words[0] + Total(words[1..])
  }

  lemma {:induction false} OnesSumNorm(words: seq<u16>)
    ensures OnesSum(words) == Norm(Total(words))
  {
    if words != [] {
      OnesSumNorm(words[1..]);
      OnesAddNorm(words[0], OnesSum(words[1..]));
      NormAdd(Total(words[1..]), words[0]);
    }
  }

  function Complement(x: u16): u16 { 0xffff - x }

  function Swap(x: u16): u16 { x % 0x100 * 0x100 + x / 0x100 }

  /** Multiplying by 256 modulo 65535 is exchanging the two bytes. */
  lemma SwapNorm(x: nat)
    ensures Norm(0x100 * x) == Swap(Norm(x))
  {
    var k := NormQuotient(x);
    var r: nat := Norm(x);
    var s := 0x100 * r;
    assert 0x100 * x == s + 0xffff * (0x100 * k);
    assert s == Swap(r) + 0xffff * (r / 0x100);
    if r > 0 {
      NormMultiple(s, 0x100 * k);
      NormMultiple(Swap(r), r / 0x100);
    }
  }
}
