/**
 * The Internet checksum of lib/include/net/fgen_ip.h.
 *
 * Memory that is only read is a sequence of bytes; a 16-bit load or store takes the byte order of the host.
 */
module Checksum {
  import opened Gf2
  import opened OnesComplement

  datatype Endian = Little | Big

  /** The native 16-bit word of two bytes of memory. */
  function Word(e: Endian, b0: u8, b1: u8): u16 {
    if e == Little then b0 + 0x100 * b1 else 0x100 * b0 + b1
  }

  /** The two bytes of memory that hold a native 16-bit word. */
  function Stored(e: Endian, w: u16): (s: seq<u8>)
    ensures |s| == 2 && Word(e, s[0], s[1]) == w
  {
    if e == Little then [w % 0x100, w / 0x100] else [w / 0x100, w % 0x100]
  }

  /** The sum of the words of a buffer; an odd last byte is followed by a zero byte. */
  function WordSum(e: Endian, s: seq<u8>): nat {
    if |s| == 0 then 0
    else if |s| == 1 then Word(e, s[0], 0)
    else Word(e, s[0], s[1]) + WordSum(e, s[2..])
  }

  function Words(e: Endian, s: seq<u8>): seq<u16> {
    if |s| == 0 then []
    else if |s| == 1 then [Word(e, s[0], 0)]
    else [Word(e, s[0], s[1])] + Words(e, s[2..])
  }

  lemma {:induction false} WordsTotal(e: Endian, s: seq<u8>)
    ensures Total(Words(e, s)) == WordSum(e, s)
  {
    if |s| == 1 {
      assert Words(e, s)[1..] == [];
    } else if |s| > 1 {
      assert Words(e, s)[1..] == Words(e, s[2..]);
      WordsTotal(e, s[2..]);
    }
  }

  lemma {:induction false} WordSumBound(e: Endian, s: seq<u8>)
    ensures WordSum(e, s) <= 0xffff * ((|s| + 1) / 2)
  {
    hide Word;
    if |s| > 1 {
      assert (|s| + 1) / 2 == 1 + (|s[2..]| + 1) / 2;
      WordSumBound(e, s[2..]);
    }
  }

  /** A run of even length keeps the words of what follows it aligned. */
  lemma {:induction false} WordSumAppend(e: Endian, a: seq<u8>, b: seq<u8>)
    requires |a| % 2 == 0
    ensures WordSum(e, a + b) == WordSum(e, a) + WordSum(e, b)
  {
    if a == [] {
      assert a + b == b;
    } else {
      assert (a + b)[2..] == a[2..] + b;
      WordSumAppend(e, a[2..], b);
    }
  }

  lemma {:induction false} WordSumZero(e: Endian, s: seq<u8>)
    ensures WordSum(e, s) == 0 <==> forall i :: 0 <= i < |s| ==> s[i] == 0
  {
    if |s| > 1 {
      WordSumZero(e, s[2..]);
      if WordSum(e, s) == 0 {
        forall i | 0 <= i < |s|
          ensures s[i] == 0
        {
          if i >= 2 {
            assert s[2..][i - 2] == 0;
          }
        }
      }
    }
  }

  // ---------------------------------------------------------------- __fgen_raw_cksum

  function Wrap32(x: nat): u32 { x % 0x1_0000_0000 }

  lemma WrapAdd(x: nat, y: nat)
    ensures Wrap32(Wrap32(x) + y) == Wrap32(x + y)
  {}

  /** What is left of the buffer from i on is all that sum still lacks. */
  ghost predicate Pending(e: Endian, buf: seq<u8>, i: nat, sum: u32, all: nat) {
    i <= |buf| && Wrap32(sum + WordSum(e, buf[i..])) == Wrap32(all)
  }

  /** The loop, four words at a time and then one, with the sum cut to 32 bits after every addition. */
  method RawSum(e: Endian, buf: seq<u8>, sum0: u32) returns (sum: u32)
    ensures sum == Wrap32(sum0 + WordSum(e, buf))
  {
    sum := sum0;
    var i: nat, len: nat := 0, |buf|;
    ghost var all := sum0 + WordSum(e, buf);
    assert Pending(e, buf, 0, sum, all) by {
      assert buf[0..] == buf;
    }
    hide *;
    while len >= 8
      invariant i + len == |buf| && Pending(e, buf, i, sum, all)
    {
      sum := AddWord(e, buf, i, sum, all);
      sum := AddWord(e, buf, i + 2, sum, all);
      sum := AddWord(e, buf, i + 4, sum, all);
      sum := AddWord(e, buf, i + 6, sum, all);
      i, len := i + 8, len - 8;
    }
    while len >= 2
      invariant i + len == |buf| && Pending(e, buf, i, sum, all)
    {
      sum := AddWord(e, buf, i, sum, all);
      i, len := i + 2, len - 2;
    }
    AllAdded(e, buf, i, sum, all);
    if len == 1 {
      sum := Wrap32(sum + Word(e, buf[i], 0));
    }
  }

  /** sum += the word at i. */
  method AddWord(e: Endian, buf: seq<u8>, i: nat, sum: u32, ghost all: nat) returns (r: u32)
    requires i + 2 <= |buf| && Pending(e, buf, i, sum, all)
    ensures r == Wrap32(sum + Word(e, buf[i], buf[i + 1]))
    ensures Pending(e, buf, i + 2, r, all)
  {
    r := Wrap32(sum + Word(e, buf[i], buf[i + 1]));
    assert buf[i..][2..] == buf[i + 2..];
    WrapAdd(sum + Word(e, buf[i], buf[i + 1]), WordSum(e, buf[i + 2..]));
  }

  lemma AllAdded(e: Endian, buf: seq<u8>, i: nat, sum: u32, all: nat)
    requires Pending(e, buf, i, sum, all) && |buf| <= i + 1
    ensures Wrap32(all) == if i == |buf| then sum else Wrap32(sum + Word(e, buf[i], 0))
  {}

  /** __fgen_raw_cksum_reduce. */
  function Reduce(sum: u32): u16 {
    Fold(Fold(sum)) % 0x1_0000
  }

  /** Two folds are enough for every 32-bit sum, and the cast to 16 bits loses nothing. */
  lemma ReduceNorm(sum: u32)
    ensures Reduce(sum) == Norm(sum)
  {
    FoldNorm(sum);
    FoldNorm(Fold(sum));
    NormSmall(Fold(Fold(sum)));
  }

  /** fgen_raw_cksum. */
  function RawCksum(e: Endian, s: seq<u8>): u16 {
    Reduce(Wrap32(WordSum(e, s)))
  }

  method RawCksumBuf(e: Endian, buf: seq<u8>) returns (r: u16)
    ensures r == RawCksum(e, buf)
  {
    var sum := RawSum(e, buf, 0);
    r := Reduce(sum);
  }

  /** The longest buffer whose sum cannot wrap around 32 bits whatever it holds. */
  const LONGEST: nat := 0x2_0002

  function AllOnes(n: nat): (s: seq<u8>)
    ensures |s| == n
  {
    seq(n, _ => 0xff)
  }

  lemma {:induction false} WordSumOnes(e: Endian, n: nat)
    ensures WordSum(e, AllOnes(n)) >= 0xffff * (n / 2) + (if n % 2 == 1 then 0xff else 0)
  {
    if n > 1 {
      assert AllOnes(n)[2..] == AllOnes(n - 2);
      WordSumOnes(e, n - 2);
    }
  }

  ghost predicate NeverWraps(e: Endian, n: nat) {
    forall s: seq<u8> :: |s| == n ==> WordSum(e, s) < 0x1_0000_0000
  }

  lemma LongestExact(e: Endian, n: nat)
    ensures NeverWraps(e, n) <==> n <= LONGEST
  {
    hide WordSum, AllOnes;
    if n <= LONGEST {
      forall s: seq<u8> | |s| == n
        ensures WordSum(e, s) < 0x1_0000_0000
      {
        WordSumBound(e, s);
      }
    } else {
      WordSumOnes(e, n);
      assert |AllOnes(n)| == n && WordSum(e, AllOnes(n)) >= 0x1_0000_0000;
    }
  }

  lemma RawCksumNorm(e: Endian, s: seq<u8>)
    requires |s| <= LONGEST
    ensures WordSum(e, s) < 0x1_0000_0000
    ensures RawCksum(e, s) == Norm(WordSum(e, s))
  {
    hide WordSum, Reduce, Norm;
    WordSumBound(e, s);
    ReduceNorm(WordSum(e, s));
  }

  /** The unrolled loop and the two folds compute the one's complement sum of the words. */
  lemma RawCksumIsOnesSum(e: Endian, s: seq<u8>)
    requires |s| <= LONGEST
    ensures RawCksum(e, s) == OnesSum(Words(e, s))
  {
    RawCksumNorm(e, s);
    OnesSumNorm(Words(e, s));
    WordsTotal(e, s);
  }

  lemma RawCksumZero(e: Endian, s: seq<u8>)
    requires |s| <= LONGEST
    ensures RawCksum(e, s) == 0 <==> forall i :: 0 <= i < |s| ==> s[i] == 0
  {
    RawCksumNorm(e, s);
    WordSumZero(e, s);
  }

  /** A sum carried over from an even-length run is the sum of the concatenation. */
  lemma RawCksumChain(e: Endian, a: seq<u8>, b: seq<u8>, sum0: u32)
    requires |a| % 2 == 0
    ensures Wrap32(Wrap32(sum0 + WordSum(e, a)) + WordSum(e, b)) == Wrap32(sum0 + WordSum(e, a + b))
  {
    WordSumAppend(e, a, b);
    WrapAdd(sum0 + WordSum(e, a), WordSum(e, b));
  }

  /** In one byte order the words are 256 times what they are in the other, modulo 65535. */
  lemma {:induction false} WordSumSwap(s: seq<u8>) returns (k: nat)
    ensures 0x100 * WordSum(Little, s) == WordSum(Big, s) + 0xffff * k
  {
    if |s| == 0 {
      k := 0;
    } else if |s| == 1 {
      k := 0;
    } else {
      k := WordSumSwap(s[2..]);
      k := k + s[1];
    }
  }

  /** The checksum of a big-endian host is that of a little-endian host with its bytes exchanged. */
  lemma RawCksumSwap(s: seq<u8>)
    requires |s| <= LONGEST
    ensures RawCksum(Big, s) == Swap(RawCksum(Little, s))
  {
    hide WordSum, RawCksum, Norm, Swap;
    var big, little := WordSum(Big, s), WordSum(Little, s);
    RawCksumNorm(Big, s);
    RawCksumNorm(Little, s);
    var k := WordSumSwap(s);
    SwapNorm(little);
    if big > 0 {
      NormMultiple(big, k);
    } else {
      WordSumZero(Big, s);
      WordSumZero(Little, s);
    }
  }

  /** Section 2(B) of RFC 1071: both byte orders put the same two bytes on the wire. */
  lemma ByteOrderIndependent(s: seq<u8>)
    requires |s| <= LONGEST
    ensures Stored(Big, RawCksum(Big, s)) == Stored(Little, RawCksum(Little, s))
    ensures Stored(Big, Complement(RawCksum(Big, s))) == Stored(Little, Complement(RawCksum(Little, s)))
  {
    hide RawCksum, Swap, Stored, Complement;
    var w := RawCksum(Little, s);
    RawCksumSwap(s);
    SwapStored(w);
    SwapComplement(w);
    SwapStored(Complement(w));
  }

  lemma SwapStored(w: u16)
    ensures Stored(Big, Swap(w)) == Stored(Little, w)
  {
    var low, high := w % 0x100, w / 0x100;
    assert Swap(w) == 0x100 * low + high;
    assert Swap(w) / 0x100 == low && Swap(w) % 0x100 == high;
  }

  lemma SwapComplement(w: u16)
    ensures Complement(Swap(w)) == Swap(Complement(w))
  {
    var low, high := w % 0x100, w / 0x100;
    var c := Complement(w);
    assert c == 0x100 * (0xff - high) + (0xff - low);
    assert c % 0x100 == 0xff - low && c / 0x100 == 0xff - high;
  }

  // ---------------------------------------------------------------- storing a word

  /** The buffer with a native word stored at i. */
  function Store(e: Endian, s: seq<u8>, i: nat, w: u16): (t: seq<u8>)
    requires i + 2 <= |s|
    ensures |t| == |s|
  {
    s[..i] + Stored(e, w) + s[i + 2..]
  }

  function WordAt(e: Endian, s: seq<u8>, i: nat): u16
    requires i + 2 <= |s|
  {
    Word(e, s[i], s[i + 1])
  }

  /** Storing into an aligned word changes the sum by the difference of the words. */
  lemma StoreSum(e: Endian, s: seq<u8>, i: nat, w: u16)
    requires i % 2 == 0 && i + 2 <= |s|
    ensures WordSum(e, Store(e, s, i, w)) + WordAt(e, s, i) == WordSum(e, s) + w
  {
    var front, back := s[..i], s[i + 2..];
    var mid := [s[i], s[i + 1]];
    assert s == front + (mid + back);
    assert Store(e, s, i, w) == front + (Stored(e, w) + back);
    WordSumAppend(e, front, mid + back);
    WordSumAppend(e, front, Stored(e, w) + back);
    WordSumAppend(e, mid, back);
    WordSumAppend(e, Stored(e, w), back);
    assert mid[2..] == [] && Stored(e, w)[2..] == [];
  }

  // ---------------------------------------------------------------- IPv4

  const IPPROTO_TCP: u8 := 6
  const IPPROTO_UDP: u8 := 17

  /** be16toh of the field at i. */
  function Be16(s: seq<u8>, i: nat): u16
    requires i + 2 <= |s|
  {
    var high: nat, low: nat := s[i], s[i + 1];
    0x100 * high + low
  }

  /** The bytes of htobe16(w). */
  function BeBytes(w: u16): (s: seq<u8>)
    ensures |s| == 2 && Be16(s, 0) == w
  {
    [w / 0x100, w % 0x100]
  }

  /** fgen_ipv4_hdr_len, from the low half of version_ihl. */
  function HdrLen(ip: seq<u8>): nat
    requires |ip| >= 20
  {
    ip[0] % 0x10 * 4
  }

  function TotalLength(ip: seq<u8>): u16
    requires |ip| >= 20
  {
    Be16(ip, 2)
  }

  /** fgen_ipv4_cksum over the header with its options. */
  function Ipv4Cksum(e: Endian, ip: seq<u8>): u16
    requires |ip| >= 20 && |ip| >= HdrLen(ip)
  {
    Complement(RawCksum(e, ip[..HdrLen(ip)]))
  }

  /** The pseudo-header that fgen_ipv4_phdr_cksum lays out. */
  function PseudoHeader(ip: seq<u8>): (s: seq<u8>)
    requires |ip| >= 20
    ensures |s| == 12
  {
    var l4Len := (TotalLength(ip) - HdrLen(ip)) % 0x1_0000;
    ip[12..20] + [0, ip[9]] + BeBytes(l4Len)
  }

  function PhdrCksum(e: Endian, ip: seq<u8>): u16
    requires |ip| >= 20
  {
    RawCksum(e, PseudoHeader(ip))
  }

  /** The bytes after the header that total_length announces are in memory. */
  predicate Covered(ip: seq<u8>, l4: seq<u8>) {
    |ip| >= 20 && TotalLength(ip) - HdrLen(ip) <= |l4|
  }

  /** __ipv4_udptcp_cksum. */
  function UdpTcpSum(e: Endian, ip: seq<u8>, l4: seq<u8>): u16
    requires Covered(ip, l4)
  {
    var l3Len := TotalLength(ip);
    if l3Len < HdrLen(ip) then 0
    else
      var l4Len := l3Len - HdrLen(ip);
      var cksum := RawCksum(e, l4[..l4Len]) + PhdrCksum(e, ip);
      Fold(cksum) % 0x1_0000
  }

  /** fgen_ipv4_udptcp_cksum. */
  function UdpTcpCksum(e: Endian, ip: seq<u8>, l4: seq<u8>): u16
    requires Covered(ip, l4)
  {
    var cksum := Complement(UdpTcpSum(e, ip, l4));
    if cksum == 0 && ip[9] == IPPROTO_UDP then 0xffff else cksum
  }

  /** fgen_ipv4_udptcp_cksum_verify. */
  function Verify(e: Endian, ip: seq<u8>, l4: seq<u8>): int
    requires Covered(ip, l4)
  {
    if UdpTcpSum(e, ip, l4) != 0xffff then -1 else 0
  }

  /** The segment as total_length delimits it. */
  function Segment(ip: seq<u8>, l4: seq<u8>): seq<u8>
    requires Covered(ip, l4) && HdrLen(ip) <= TotalLength(ip)
  {
    l4[..TotalLength(ip) - HdrLen(ip)]
  }

  /** The words of a segment and its pseudo-header, added up without any reduction. */
  function SegmentSum(e: Endian, ip: seq<u8>, l4: seq<u8>): nat
    requires Covered(ip, l4) && HdrLen(ip) <= TotalLength(ip)
  {
    WordSum(e, PseudoHeader(ip)) + WordSum(e, Segment(ip, l4))
  }

  /** The two partial checksums and the last fold make one one's complement sum. */
  lemma UdpTcpSumNorm(e: Endian, ip: seq<u8>, l4: seq<u8>)
    requires Covered(ip, l4) && HdrLen(ip) <= TotalLength(ip)
    ensures UdpTcpSum(e, ip, l4) == Norm(SegmentSum(e, ip, l4))
  {
    hide WordSum, RawCksum, PseudoHeader, HdrLen, TotalLength, Norm, Fold;
    RawCksumNorm(e, Segment(ip, l4));
    RawCksumNorm(e, PseudoHeader(ip));
    FoldTwo(WordSum(e, Segment(ip, l4)), WordSum(e, PseudoHeader(ip)));
  }

  lemma FoldTwo(x: nat, y: nat)
    ensures Fold(Norm(x) + Norm(y)) % 0x1_0000 == Norm(y + x)
  {
    var sum: nat := Norm(x) + Norm(y);
    FoldNorm(sum);
    NormSmall(Fold(sum));
    NormAdd(x, Norm(y));
    NormAdd(y, x);
    hide Norm;
  }

  /** The word at offset i of the segment is aligned and inside it. */
  predicate Field(ip: seq<u8>, l4: seq<u8>, i: nat) {
    Covered(ip, l4) && i % 2 == 0 && HdrLen(ip) + i + 2 <= TotalLength(ip)
  }

  lemma SegmentStore(e: Endian, ip: seq<u8>, l4: seq<u8>, i: nat, w: u16)
    requires Field(ip, l4, i)
    ensures Field(ip, Store(e, l4, i, w), i)
    ensures SegmentSum(e, ip, Store(e, l4, i, w)) + WordAt(e, l4, i) == SegmentSum(e, ip, l4) + w
  {
    assert Segment(ip, Store(e, l4, i, w)) == Store(e, Segment(ip, l4), i, w);
    StoreSum(e, Segment(ip, l4), i, w);
    hide WordSum, PseudoHeader;
  }

  /**
   * Generating and then verifying, whatever the field held while the checksum was computed: the packet passes
   * exactly if the caller had cleared the field, up to the other zero.
   */
  lemma GenerateOver(e: Endian, ip: seq<u8>, l4: seq<u8>, i: nat)
    requires Field(ip, l4, i)
    ensures Field(ip, Store(e, l4, i, UdpTcpCksum(e, ip, l4)), i)
    ensures Verify(e, ip, Store(e, l4, i, UdpTcpCksum(e, ip, l4))) == 0 <==> WordAt(e, l4, i) % 0xffff == 0
  {
    hide WordSum, RawCksum, PseudoHeader, HdrLen, TotalLength, Norm, Fold, WordAt, Store, UdpTcpSum, Segment;
    var ck, sum := UdpTcpCksum(e, ip, l4), SegmentSum(e, ip, l4);
    var done := SegmentSum(e, ip, Store(e, l4, i, ck));
    UdpTcpSumNorm(e, ip, l4);
    ComplementFills(sum, ck);
    SegmentStore(e, ip, l4, i, ck);
    UdpTcpSumNorm(e, ip, Store(e, l4, i, ck));
    LengthCounts(e, ip);
    PassesIff(sum + ck);
    PassesIff(done);
    SameRemainder(sum + ck, done, WordAt(e, l4, i), 0);
  }

  /** The round trip, for every header and every segment that holds its checksum field. */
  lemma GenerateVerify(e: Endian, ip: seq<u8>, l4: seq<u8>, i: nat)
    requires Field(ip, l4, i) && WordAt(e, l4, i) == 0
    ensures Field(ip, Store(e, l4, i, UdpTcpCksum(e, ip, l4)), i)
    ensures Verify(e, ip, Store(e, l4, i, UdpTcpCksum(e, ip, l4))) == 0
  {
    GenerateOver(e, ip, l4, i);
  }

  /** A sum and its complement, or all ones when the sum was all ones already, fill the word. */
  lemma ComplementFills(sum: nat, ck: u16)
    requires ck == Complement(Norm(sum)) || (Norm(sum) == 0xffff && ck == 0xffff)
    ensures Norm(sum + ck) == 0xffff
  {
    NormAdd(sum, ck);
    NormSmall(0xffff);
    assert Norm(sum) + ck == 0xffff || Norm(sum) + ck == 0xffff + 0xffff;
    NormStep(0xffff);
  }

  /**
   * A packet that passes still passes after one aligned word of its segment is replaced exactly when the two
   * words are equal modulo 65535: the only change that goes unnoticed exchanges 0x0000 and 0xffff.
   */
  lemma VerifyWord(e: Endian, ip: seq<u8>, l4: seq<u8>, i: nat, w: u16)
    requires Field(ip, l4, i) && Verify(e, ip, l4) == 0
    ensures Field(ip, Store(e, l4, i, w), i)
    ensures Verify(e, ip, Store(e, l4, i, w)) == 0
      <==> w % 0xffff == WordAt(e, l4, i) % 0xffff
  {
    hide WordSum, RawCksum, PseudoHeader, HdrLen, TotalLength, Norm, Fold, WordAt, Store, UdpTcpSum, Segment;
    var t := Store(e, l4, i, w);
    var before, after := SegmentSum(e, ip, l4), SegmentSum(e, ip, t);
    SegmentStore(e, ip, l4, i, w);
    UdpTcpSumNorm(e, ip, l4);
    UdpTcpSumNorm(e, ip, t);
    LengthCounts(e, ip);
    PassesIff(before);
    PassesIff(after);
    SameRemainder(before, after, WordAt(e, l4, i), w);
  }

  lemma PassesIff(sum: nat)
    requires sum > 0
    ensures Norm(sum) == 0xffff <==> sum % 0xffff == 0
  {
    NormSmall(0xffff);
    NormEqual(sum, 0xffff);
  }

  lemma SameRemainder(before: nat, after: nat, v: u16, w: u16)
    requires before % 0xffff == 0 && after + v == before + w
    ensures after % 0xffff == 0 <==> w % 0xffff == v % 0xffff
  {}

  /** A segment that is not empty makes its pseudo-header sum positive. */
  lemma LengthCounts(e: Endian, ip: seq<u8>)
    requires |ip| >= 20 && HdrLen(ip) < TotalLength(ip)
    ensures WordSum(e, PseudoHeader(ip)) > 0
  {
    hide WordSum;
    var s := PseudoHeader(ip);
    assert s[10] != 0 || s[11] != 0;
    WordSumZero(e, s);
  }

  /** The checksum of a segment is that of the segment with its pseudo-header in front. */
  lemma UdpTcpSumIsOnesSum(e: Endian, ip: seq<u8>, l4: seq<u8>)
    requires Covered(ip, l4) && HdrLen(ip) <= TotalLength(ip)
    ensures UdpTcpSum(e, ip, l4) == RawCksum(e, PseudoHeader(ip) + Segment(ip, l4))
    ensures UdpTcpSum(e, ip, l4) == OnesSum(Words(e, PseudoHeader(ip) + Segment(ip, l4)))
  {
    hide WordSum, RawCksum, PseudoHeader, HdrLen, TotalLength, UdpTcpSum, Norm, Words, OnesSum;
    UdpTcpSumNorm(e, ip, l4);
    WordSumAppend(e, PseudoHeader(ip), Segment(ip, l4));
    RawCksumNorm(e, PseudoHeader(ip) + Segment(ip, l4));
    RawCksumIsOnesSum(e, PseudoHeader(ip) + Segment(ip, l4));
  }

  /** Both byte orders store the same UDP or TCP checksum, and agree on which packets pass. */
  lemma UdpTcpByteOrder(ip: seq<u8>, l4: seq<u8>)
    requires Covered(ip, l4) && HdrLen(ip) <= TotalLength(ip)
    ensures Stored(Big, UdpTcpCksum(Big, ip, l4)) == Stored(Little, UdpTcpCksum(Little, ip, l4))
    ensures Verify(Big, ip, l4) == Verify(Little, ip, l4)
  {
    hide WordSum, RawCksum, PseudoHeader, HdrLen, TotalLength, UdpTcpSum, Swap, Stored;
    UdpTcpSumIsOnesSum(Big, ip, l4);
    UdpTcpSumIsOnesSum(Little, ip, l4);
    RawCksumSwap(PseudoHeader(ip) + Segment(ip, l4));
    var sum := UdpTcpSum(Little, ip, l4);
    SwapComplement(sum);
    SwapOnes(sum);
    SwapOnes(Complement(sum));
    SwapStored(UdpTcpCksum(Little, ip, l4));
  }

  lemma SwapOnes(w: u16)
    ensures Swap(w) == 0xffff <==> w == 0xffff
    ensures Swap(w) == 0 <==> w == 0
  {}

  /** Storing the header checksum makes the header add up to all ones exactly if its field was clear. */
  lemma HeaderSumsToOnes(e: Endian, ip: seq<u8>)
    requires |ip| >= 20 && 12 <= HdrLen(ip) <= |ip|
    ensures var done := Store(e, ip, 10, Ipv4Cksum(e, ip));
      && HdrLen(done) == HdrLen(ip)
      && (RawCksum(e, done[..HdrLen(ip)]) == 0xffff <==> WordAt(e, ip, 10) % 0xffff == 0)
  {
    hide WordSum, RawCksum, HdrLen, Norm, Store, WordAt;
    var n, ck := HdrLen(ip), Ipv4Cksum(e, ip);
    var done := Store(e, ip, 10, ck);
    var before, after := WordSum(e, ip[..n]) + ck, WordSum(e, done[..n]);
    HdrLenStays(e, ip, ck);
    StorePrefix(e, ip, 10, ck, n);
    StoreSum(e, ip[..n], 10, ck);
    RawCksumNorm(e, ip[..n]);
    RawCksumNorm(e, done[..n]);
    ComplementFills(WordSum(e, ip[..n]), ck);
    HeaderCounts(e, done);
    PassesIff(before);
    PassesIff(after);
    SameRemainder(before, after, WordAt(e, ip, 10), 0);
  }

  /** The version byte of a header makes its sum positive. */
  lemma HeaderCounts(e: Endian, ip: seq<u8>)
    requires |ip| >= 20 && 12 <= HdrLen(ip) <= |ip|
    ensures WordSum(e, ip[..HdrLen(ip)]) > 0
  {
    hide WordSum;
    var s := ip[..HdrLen(ip)];
    assert s[0] == ip[0] != 0;
    WordSumZero(e, s);
  }

  lemma HdrLenStays(e: Endian, ip: seq<u8>, w: u16)
    requires |ip| >= 20
    ensures HdrLen(Store(e, ip, 10, w)) == HdrLen(ip) <= 60
  {
    assert Store(e, ip, 10, w)[0] == ip[0];
  }

  // ---------------------------------------------------------------- IPv6

  /** payload_len, the next header and the two addresses of a 40-byte header. */
  function PayloadLength(ip6: seq<u8>): u16
    requires |ip6| >= 40
  {
    Be16(ip6, 4)
  }

  /** The structure that fgen_ipv6_phdr_cksum lays out: a 32-bit length and a 32-bit protocol. */
  function CodePseudo6(e: Endian, ip6: seq<u8>): (s: seq<u8>)
    requires |ip6| >= 40
    ensures |s| == 8
  {
    if e == Little then [ip6[4], ip6[5], 0, 0] + [0, 0, 0, ip6[6]]
    else [0, 0, ip6[4], ip6[5]] + [ip6[6], 0, 0, 0]
  }

  /** fgen_ipv6_phdr_cksum, two runs of the loop chained through their 32-bit sum. */
  function PhdrCksum6(e: Endian, ip6: seq<u8>): u16
    requires |ip6| >= 40
  {
    var sum := Wrap32(WordSum(e, ip6[8..40]));
    Reduce(Wrap32(sum + WordSum(e, CodePseudo6(e, ip6))))
  }

  /** The pseudo-header of section 8.1 of RFC 8200. */
  function Pseudo6(ip6: seq<u8>): (s: seq<u8>)
    requires |ip6| >= 40
    ensures |s| == 40
  {
    ip6[8..40] + [0, 0, ip6[4], ip6[5]] + [0, 0, 0, ip6[6]]
  }

  /** fgen_ipv6_udptcp_cksum. */
  function UdpTcpCksum6(e: Endian, ip6: seq<u8>, l4: seq<u8>): u16
    requires |ip6| >= 40 && PayloadLength(ip6) <= |l4|
  {
    var cksum := RawCksum(e, l4[..PayloadLength(ip6)]) + PhdrCksum6(e, ip6);
    var c := Complement(Fold(cksum) % 0x1_0000);
    if c == 0 then 0xffff else c
  }

  lemma PseudoSums6(e: Endian, ip6: seq<u8>)
    requires |ip6| >= 40
    ensures var common := WordSum(e, ip6[8..40]) + Word(e, ip6[4], ip6[5]);
      && WordSum(e, Pseudo6(ip6)) == common + Word(e, 0, ip6[6])
      && WordSum(e, ip6[8..40]) + WordSum(e, CodePseudo6(e, ip6))
           == common + (if e == Little then Word(e, 0, ip6[6]) else Word(e, ip6[6], 0))
  {
    var x, y, p := ip6[4], ip6[5], ip6[6];
    WordSumAppend(e, ip6[8..40], [0, 0, x, y] + [0, 0, 0, p]);
    assert Pseudo6(ip6) == ip6[8..40] + ([0, 0, x, y] + [0, 0, 0, p]);
    EightBytes(e, 0, 0, x, y, 0, 0, 0, p);
    EightBytes(e, x, y, 0, 0, 0, 0, 0, p);
    EightBytes(e, 0, 0, x, y, p, 0, 0, 0);
  }

  lemma EightBytes(e: Endian, a: u8, b: u8, c: u8, d: u8, f: u8, g: u8, h: u8, i: u8)
    ensures WordSum(e, [a, b, c, d] + [f, g, h, i]) == Word(e, a, b) + Word(e, c, d) + Word(e, f, g) + Word(e, h, i)
  {
    WordSumAppend(e, [a, b, c, d], [f, g, h, i]);
    FourBytes(e, a, b, c, d);
    FourBytes(e, f, g, h, i);
  }

  lemma FourBytes(e: Endian, a: u8, b: u8, c: u8, d: u8)
    ensures WordSum(e, [a, b, c, d]) == Word(e, a, b) + Word(e, c, d)
  {
    assert [a, b, c, d][2..] == [c, d];
    assert [c, d][2..] == [];
    assert WordSum(e, [c, d]) == Word(e, c, d) + WordSum(e, []);
  }

  /**
   * The pseudo-header checksum is the standard one exactly on little-endian hosts, or for next header 0: on
   * a big-endian host the protocol lands in the high byte of its word.
   */
  lemma PhdrCksum6Standard(e: Endian, ip6: seq<u8>)
    requires |ip6| >= 40
    ensures PhdrCksum6(e, ip6) == RawCksum(e, Pseudo6(ip6)) <==> e == Little || ip6[6] == 0
  {
    PhdrCksum6Norm(e, ip6);
    PseudoSums6(e, ip6);
    RawCksumNorm(e, Pseudo6(ip6));
    var common := WordSum(e, ip6[8..40]) + Word(e, ip6[4], ip6[5]);
    hide WordSum, RawCksum, PhdrCksum6, Norm;
    if e == Big {
      HighByteDiffers(common, ip6[6]);
    }
  }

  lemma HighByteDiffers(x: nat, p: u8)
    ensures Norm(x + 0x100 * p) == Norm(x + p) <==> p == 0
  {
    hide Norm;
    NormEqual(x + 0x100 * p, x + p);
    Shifted(x + p, 0xff * p);
  }

  lemma Shifted(y: nat, d: nat)
    requires d < 0xffff
    ensures (y + d) % 0xffff == y % 0xffff <==> d == 0
  {}

  lemma PhdrCksum6Norm(e: Endian, ip6: seq<u8>)
    requires |ip6| >= 40
    ensures PhdrCksum6(e, ip6) == Norm(WordSum(e, ip6[8..40]) + WordSum(e, CodePseudo6(e, ip6)))
  {
    hide WordSum, Reduce, Norm, Word, CodePseudo6;
    var x, y := ip6[8..40], CodePseudo6(e, ip6);
    WordSumBound(e, x);
    WordSumBound(e, y);
    ReduceNorm(WordSum(e, x) + WordSum(e, y));
  }

  /**
   * Storing the checksum makes the segment with its standard pseudo-header add up to all ones, again exactly
   * on little-endian hosts or for next header 0.
   */
  lemma Generate6(e: Endian, ip6: seq<u8>, l4: seq<u8>, i: nat)
    requires |ip6| >= 40 && i % 2 == 0 && i + 2 <= PayloadLength(ip6) <= |l4|
    requires WordAt(e, l4, i) == 0
    ensures
      var done := Store(e, l4, i, UdpTcpCksum6(e, ip6, l4))[..PayloadLength(ip6)];
      (RawCksum(e, Pseudo6(ip6) + done) == 0xffff) <==> (e == Little || ip6[6] == 0)
  {
    hide WordSum, RawCksum, PhdrCksum6, Norm, Fold, Store, Word, CodePseudo6, PayloadLength, Pseudo6;
    var n, ck := PayloadLength(ip6), UdpTcpCksum6(e, ip6, l4);
    var seg, done := l4[..n], Store(e, l4, i, ck)[..n];
    var phdr := WordSum(e, ip6[8..40]) + WordSum(e, CodePseudo6(e, ip6));
    StorePrefix(e, l4, i, ck, n);
    StoreSum(e, seg, i, ck);
    assert Norm(phdr + WordSum(e, done)) == 0xffff by {
      RawCksumNorm(e, seg);
      PhdrCksum6Norm(e, ip6);
      FoldTwo(WordSum(e, seg), phdr);
      ComplementFills(phdr + WordSum(e, seg), ck);
    }
    StandardFold6(e, ip6, done, phdr);
  }

  lemma StorePrefix(e: Endian, s: seq<u8>, i: nat, w: u16, n: nat)
    requires i + 2 <= n <= |s|
    ensures Store(e, s, i, w)[..n] == Store(e, s[..n], i, w)
    ensures WordAt(e, s[..n], i) == WordAt(e, s, i)
  {}

  lemma StandardFold6(e: Endian, ip6: seq<u8>, done: seq<u8>, phdr: nat)
    requires |ip6| >= 40 && |done| < 0x1_0000
    requires phdr == WordSum(e, ip6[8..40]) + WordSum(e, CodePseudo6(e, ip6))
    requires Norm(phdr + WordSum(e, done)) == 0xffff
    ensures (RawCksum(e, Pseudo6(ip6) + done) == 0xffff) <==> (e == Little || ip6[6] == 0)
  {
    hide WordSum, RawCksum, Norm, CodePseudo6, Pseudo6;
    var s := Pseudo6(ip6) + done;
    WordSumAppend(e, Pseudo6(ip6), done);
    RawCksumNorm(e, s);
    PseudoDifference6(e, ip6);
    if e == Big {
      OnesIff(WordSum(e, s), ip6[6]);
    }
  }

  /** What separates the two pseudo-headers of a big-endian host. */
  lemma PseudoDifference6(e: Endian, ip6: seq<u8>)
    requires |ip6| >= 40
    ensures WordSum(e, ip6[8..40]) + WordSum(e, CodePseudo6(e, ip6))
         == WordSum(e, Pseudo6(ip6)) + (if e == Little then 0 else 0xff * (ip6[6] as nat))
  {
    PseudoSums6(e, ip6);
    hide WordSum, CodePseudo6, Pseudo6;
  }

  lemma OnesIff(sum: nat, p: u8)
    requires Norm(sum + 0xff * (p as nat)) == 0xffff
    ensures Norm(sum) == 0xffff <==> p == 0
  {
    NormSmall(0xffff);
    NormEqual(sum + 0xff * (p as nat), 0xffff);
    NormEqual(sum, 0xffff);
  }
}
