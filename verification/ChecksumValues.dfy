/** The checksums as sums of numbers, without the buffers and pseudo-headers that the program lays out for them. */
module ChecksumValues {
  import opened Gf2
  import opened OnesComplement
  import opened Checksum

  // ---------------------------------------------------------------- words

  /** The number of two bytes in network byte order. */
  function Two(high: u8, low: u8): u16 {
    0x100 * (high as nat) + low as nat
  }

  /** The bytes of a buffer in network byte order: one at an even offset counts 256 times. */
  function BytesSum(s: seq<u8>): nat {
    if s == [] then 0
    else BytesSum(s[..|s| - 1]) + (if |s| % 2 == 1 then Two(s[|s| - 1], 0) else Two(0, s[|s| - 1]))
  }

  lemma {:induction false} BytesSumAppend(a: seq<u8>, b: seq<u8>)
    requires |a| % 2 == 0
    ensures BytesSum(a + b) == BytesSum(a) + BytesSum(b)
  {
    hide Two;
    if b == [] {
      assert a + b == a;
    } else {
      BytesSumAppend(a, b[..|b| - 1]);
      assert (a + b)[..|a + b| - 1] == a + b[..|b| - 1];
    }
  }

  lemma PairSum(a: u8, b: u8)
    ensures BytesSum([a, b]) == Two(a, b) && BytesSum([a]) == Two(a, 0)
  {
    assert [a, b][..1] == [a] && [a][..0] == [];
    assert BytesSum([a]) == Two(a, 0);
  }

  lemma {:induction false} WordSumIsBytes(s: seq<u8>)
    ensures WordSum(Big, s) == BytesSum(s)
  {
    if |s| == 1 {
      PairSum(s[0], 0);
      assert s == [s[0]];
    } else if |s| > 1 {
      WordSumIsBytes(s[2..]);
      BytesSumAppend(s[..2], s[2..]);
      PairSum(s[0], s[1]);
      assert s[..2] == [s[0], s[1]] && s == s[..2] + s[2..];
    }
  }

  /** The words, one by one; the byte after an odd last one counts as 0. */
  lemma {:induction false} WordsAre(s: seq<u8>, i: nat)
    ensures |Words(Big, s)| == (|s| + 1) / 2
    ensures 2 * i < |s| ==> Words(Big, s)[i] == Two(s[2 * i], if 2 * i + 1 < |s| then s[2 * i + 1] else 0)
  {
    if |s| > 1 {
      WordsAre(s[2..], if i > 0 then i - 1 else 0);
    }
  }

  lemma SumIsBytes(s: seq<u8>)
    requires |s| <= LONGEST
    ensures RawCksum(Big, s) == Norm(BytesSum(s))
  {
    hide WordSum, BytesSum, RawCksum, Norm;
    RawCksumNorm(Big, s);
    WordSumIsBytes(s);
  }

  /** The example of section 3 of RFC 1071, in both byte orders. */
  lemma ExampleSum()
    ensures RawCksum(Big, [0x00, 0x01, 0xf2, 0x03] + [0xf4, 0xf5, 0xf6, 0xf7]) == 0xddf2
    ensures RawCksum(Little, [0x00, 0x01, 0xf2, 0x03] + [0xf4, 0xf5, 0xf6, 0xf7]) == 0xf2dd
  {
    hide WordSum, RawCksum;
    RawCksumNorm(Big, [0x00, 0x01, 0xf2, 0x03] + [0xf4, 0xf5, 0xf6, 0xf7]);
    RawCksumNorm(Little, [0x00, 0x01, 0xf2, 0x03] + [0xf4, 0xf5, 0xf6, 0xf7]);
    EightBytes(Big, 0x00, 0x01, 0xf2, 0x03, 0xf4, 0xf5, 0xf6, 0xf7);
    EightBytes(Little, 0x00, 0x01, 0xf2, 0x03, 0xf4, 0xf5, 0xf6, 0xf7);
  }

  // ---------------------------------------------------------------- UDP and TCP over IPv4

  /** The bytes of the segment that the IPv4 header announces, which may be negative. */
  function Announced(ip: seq<u8>): int
    requires |ip| >= 20
  {
    Two(ip[2], ip[3]) - 4 * (ip[0] % 0x10)
  }

  /** The addresses, the protocol and the length of the segment, as numbers. */
  function PseudoTotal(ip: seq<u8>): nat
    requires |ip| >= 20 && Announced(ip) >= 0
  {
    BytesSum(ip[12..20]) + ip[9] + Announced(ip)
  }

  lemma PseudoSum(ip: seq<u8>)
    requires |ip| >= 20 && Announced(ip) >= 0
    ensures WordSum(Big, PseudoHeader(ip)) == PseudoTotal(ip)
  {
    hide WordSum, BytesSum;
    var n := Announced(ip);
    assert TotalLength(ip) - HdrLen(ip) == n;
    assert PseudoHeader(ip) == ip[12..20] + [0, ip[9], n / 0x100, n % 0x100];
    WordSumAppend(Big, ip[12..20], [0, ip[9], n / 0x100, n % 0x100]);
    FourBytes(Big, 0, ip[9], n / 0x100, n % 0x100);
    WordSumIsBytes(ip[12..20]);
  }

  /** The checksum before its complement: the one's complement sum of addresses, protocol, length and segment. */
  lemma UdpTcpSumIs(ip: seq<u8>, l4: seq<u8>)
    requires |ip| >= 20 && Announced(ip) <= |l4|
    ensures Covered(ip, l4)
    ensures var n := Announced(ip);
      UdpTcpSum(Big, ip, l4) == if n < 0 then 0 else Norm(PseudoTotal(ip) + BytesSum(l4[..n]))
  {
    hide WordSum, BytesSum, PseudoHeader, Norm, RawCksum;
    var n := Announced(ip);
    assert TotalLength(ip) - HdrLen(ip) == n;
    if n >= 0 {
      UdpTcpSumNorm(Big, ip, l4);
      PseudoSum(ip);
      WordSumIsBytes(l4[..n]);
    }
  }

  /** The same sum word by word, as section 1 of RFC 1071 adds it up. */
  lemma UdpTcpSumWords(ip: seq<u8>, l4: seq<u8>)
    requires |ip| >= 20 && 0 <= Announced(ip) <= |l4|
    ensures Covered(ip, l4)
    ensures var n := Announced(ip);
      UdpTcpSum(Big, ip, l4)
        == OnesSum([Two(ip[12], ip[13]), Two(ip[14], ip[15])]
                   + ([Two(ip[16], ip[17]), Two(ip[18], ip[19])] + ([ip[9], n] + Words(Big, l4[..n]))))
  {
    hide WordSum, BytesSum, Norm, Words, Total, OnesSum;
    var n := Announced(ip);
    var w := Words(Big, l4[..n]);
    UdpTcpSumIs(ip, l4);
    WordsTotal(Big, l4[..n]);
    WordSumIsBytes(l4[..n]);
    var w0: u16, w1: u16 := Two(ip[12], ip[13]), Two(ip[14], ip[15]);
    var w2: u16, w3: u16 := Two(ip[16], ip[17]), Two(ip[18], ip[19]);
    OnesSumNorm([w0, w1] + ([w2, w3] + ([ip[9], n] + w)));
    TotalTwo(w0, w1, [w2, w3] + ([ip[9], n] + w));
    TotalTwo(w2, w3, [ip[9], n] + w);
    TotalTwo(ip[9], n, w);
    AddressesSum(ip);
  }

  lemma TotalTwo(a: u16, b: u16, w: seq<u16>)
    ensures Total([a, b] + w) == a + b + Total(w)
  {
    assert ([a, b] + w)[1..] == [b] + w && ([b] + w)[1..] == w;
    assert Total([b] + w) == b + Total(w);
  }

  lemma AddressesSum(ip: seq<u8>)
    requires |ip| >= 20
    ensures BytesSum(ip[12..20])
         == Two(ip[12], ip[13]) + Two(ip[14], ip[15]) + Two(ip[16], ip[17]) + Two(ip[18], ip[19])
  {
    hide BytesSum, WordSum;
    var s := ip[12..20];
    assert s == [s[0], s[1], s[2], s[3]] + [s[4], s[5], s[6], s[7]];
    EightBytes(Big, s[0], s[1], s[2], s[3], s[4], s[5], s[6], s[7]);
    WordSumIsBytes(s);
  }

  /** What is stored: the complement, but never 0 in UDP, where it would mean that there is no checksum. */
  lemma UdpTcpCksumIs(e: Endian, ip: seq<u8>, l4: seq<u8>)
    requires Covered(ip, l4)
    ensures var (sum, cksum) := (UdpTcpSum(e, ip, l4), UdpTcpCksum(e, ip, l4));
      && (cksum == 0 <==> sum == 0xffff && ip[9] != 17)
      && (sum == 0xffff && ip[9] == 17 ==> cksum == 0xffff)
      && (sum != 0xffff ==> cksum == 0xffff - sum)
  {
    hide UdpTcpSum;
  }

  const IP_EXAMPLE: seq<u8> := [0x45, 0, 0, 40] + [0, 1, 0, 0] + [64, 6, 0, 0] + [192, 10, 0, 1] + [192, 10, 0, 2]
  const TCP_EXAMPLE: seq<u8> :=
    [0x12, 0x34, 0x11, 0x11] + [0, 0, 0, 0] + [0, 0, 0, 0] + [0x50, 2, 0x20, 0] + [0, 0, 0, 0]

  /** The checksums of an empty TCP segment between the default addresses. */
  lemma TcpExample(ip: seq<u8>, l4: seq<u8>)
    requires ip == IP_EXAMPLE && l4 == TCP_EXAMPLE
    ensures Covered(ip, l4) && UdpTcpCksum(Big, ip, l4) == 0xec85
    ensures HdrLen(ip) == |ip| == 20 && Ipv4Cksum(Big, ip) == 0xfab7
  {
    hide WordSum, BytesSum, UdpTcpSum, RawCksum, Norm, HdrLen, TotalLength;
    ExampleFields(ip, l4);
    ExampleSums();
    hide IP_EXAMPLE, TCP_EXAMPLE;
    AddressesSum(ip);
    UdpTcpSumIs(ip, l4);
    UdpTcpCksumIs(Big, ip, l4);
    assert l4[..20] == l4 && ip[..20] == ip;
    RawCksumNorm(Big, ip);
    WordSumIsBytes(l4);
    NormExamples();
  }

  lemma ExampleFields(ip: seq<u8>, l4: seq<u8>)
    requires ip == IP_EXAMPLE && l4 == TCP_EXAMPLE
    ensures |ip| == |l4| == 20 && HdrLen(ip) == 20 && Announced(ip) == 20 && ip[9] == 6
    ensures Two(ip[12], ip[13]) + Two(ip[14], ip[15]) + Two(ip[16], ip[17]) + Two(ip[18], ip[19]) == 0x1_8017
  {}

  lemma NormExamples()
    ensures Norm(0x2_1378) == 0x137a && Norm(0x2_0546) == 0x0548
  {}

  lemma FourMore(a: u8, b: u8, c: u8, d: u8, s: seq<u8>)
    ensures WordSum(Big, [a, b, c, d] + s) == Two(a, b) + Two(c, d) + WordSum(Big, s)
  {
    WordSumAppend(Big, [a, b, c, d], s);
    FourBytes(Big, a, b, c, d);
  }

  lemma ExampleSums()
    ensures WordSum(Big, IP_EXAMPLE) == 0x2_0546 && WordSum(Big, TCP_EXAMPLE) == 0x9347
  {
    hide WordSum;
    var addresses := [192, 10, 0, 1] + [192, 10, 0, 2];
    EightBytes(Big, 192, 10, 0, 1, 192, 10, 0, 2);
    FourMore(64, 6, 0, 0, addresses);
    FourMore(0, 1, 0, 0, [64, 6, 0, 0] + addresses);
    FourMore(0x45, 0, 0, 40, [0, 1, 0, 0] + ([64, 6, 0, 0] + addresses));
    assert IP_EXAMPLE == [0x45, 0, 0, 40] + ([0, 1, 0, 0] + ([64, 6, 0, 0] + addresses));
    var end := [0x50, 2, 0x20, 0] + [0, 0, 0, 0];
    EightBytes(Big, 0x50, 2, 0x20, 0, 0, 0, 0, 0);
    FourMore(0, 0, 0, 0, end);
    FourMore(0, 0, 0, 0, [0, 0, 0, 0] + end);
    FourMore(0x12, 0x34, 0x11, 0x11, [0, 0, 0, 0] + ([0, 0, 0, 0] + end));
    assert TCP_EXAMPLE == [0x12, 0x34, 0x11, 0x11] + ([0, 0, 0, 0] + ([0, 0, 0, 0] + end));
  }

  // ---------------------------------------------------------------- UDP and TCP over IPv6

  /** The addresses, the length and the next header of an IPv6 header; a big-endian host misplaces the last. */
  function PseudoTotal6(e: Endian, ip6: seq<u8>): nat
    requires |ip6| >= 40
  {
    BytesSum(ip6[8..40]) + Two(ip6[4], ip6[5]) + (if e == Little then Two(0, ip6[6]) else Two(ip6[6], 0))
  }

  /** The buffer whose words make the checksum of a host, in network byte order. */
  function Laid6(e: Endian, ip6: seq<u8>, l4: seq<u8>): seq<u8>
    requires |ip6| >= 40 && PayloadLength(ip6) <= |l4|
  {
    ip6[8..40] + (CodePseudo6(e, ip6) + l4[..PayloadLength(ip6)])
  }

  lemma Laid6Sum(e: Endian, x: Endian, ip6: seq<u8>, l4: seq<u8>)
    requires |ip6| >= 40 && PayloadLength(ip6) <= |l4|
    ensures WordSum(x, Laid6(e, ip6, l4))
         == WordSum(x, ip6[8..40]) + WordSum(x, CodePseudo6(e, ip6)) + WordSum(x, l4[..PayloadLength(ip6)])
  {
    hide WordSum, CodePseudo6;
    WordSumAppend(x, ip6[8..40], CodePseudo6(e, ip6) + l4[..PayloadLength(ip6)]);
    WordSumAppend(x, CodePseudo6(e, ip6), l4[..PayloadLength(ip6)]);
  }

  lemma Laid6Total(e: Endian, ip6: seq<u8>, l4: seq<u8>)
    requires |ip6| >= 40 && PayloadLength(ip6) <= |l4|
    ensures BytesSum(Laid6(e, ip6, l4)) == PseudoTotal6(e, ip6) + BytesSum(l4[..PayloadLength(ip6)])
  {
    hide WordSum, BytesSum;
    Laid6Sum(e, Big, ip6, l4);
    WordSumIsBytes(Laid6(e, ip6, l4));
    WordSumIsBytes(ip6[8..40]);
    WordSumIsBytes(l4[..PayloadLength(ip6)]);
    EightBytes(Big, ip6[4], ip6[5], 0, 0, 0, 0, 0, ip6[6]);
    EightBytes(Big, 0, 0, ip6[4], ip6[5], ip6[6], 0, 0, 0);
  }

  /**
   * What goes on the wire, in numbers: the complement of the sum of addresses, length, next header and segment,
   * but never 0.
   */
  lemma UdpTcpCksum6Is(e: Endian, ip6: seq<u8>, l4: seq<u8>)
    requires |ip6| >= 40 && Two(ip6[4], ip6[5]) <= |l4|
    ensures PayloadLength(ip6) <= |l4|
    ensures var n: nat := Two(ip6[4], ip6[5]);
      var (sum, s) := (Norm(PseudoTotal6(e, ip6) + BytesSum(l4[..n])), Stored(e, UdpTcpCksum6(e, ip6, l4)));
      Two(s[0], s[1]) == if sum == 0xffff then 0xffff else 0xffff - sum
  {
    hide WordSum, BytesSum, RawCksum, Norm, Stored, CodePseudo6, Fold, Swap;
    var laid := Laid6(e, ip6, l4);
    assert PayloadLength(ip6) == Two(ip6[4], ip6[5]);
    Cksum6Raw(e, ip6, l4);
    SumIsBytes(laid);
    Laid6Total(e, ip6, l4);
    var big := RawCksum(Big, laid);
    if e == Little {
      RawCksumSwap(laid);
      SwapComplement(RawCksum(Little, laid));
      SwapOnes(RawCksum(Little, laid));
      SwapOnes(Complement(RawCksum(Little, laid)));
      SwapStored(UdpTcpCksum6(e, ip6, l4));
    }
    StoredBig(UdpTcpCksum6(e, ip6, l4));
    StoredBig(Swap(UdpTcpCksum6(e, ip6, l4)));
  }

  lemma StoredBig(w: u16)
    ensures var s := Stored(Big, w); Two(s[0], s[1]) == w
  {}

  lemma Cksum6Raw(e: Endian, ip6: seq<u8>, l4: seq<u8>)
    requires |ip6| >= 40 && PayloadLength(ip6) <= |l4|
    ensures |Laid6(e, ip6, l4)| <= LONGEST
    ensures var c := Complement(RawCksum(e, Laid6(e, ip6, l4)));
      UdpTcpCksum6(e, ip6, l4) == if c == 0 then 0xffff else c
  {
    hide WordSum, RawCksum, Norm, CodePseudo6, Fold, PhdrCksum6;
    var seg := l4[..PayloadLength(ip6)];
    Laid6Sum(e, e, ip6, l4);
    RawCksumNorm(e, Laid6(e, ip6, l4));
    RawCksumNorm(e, seg);
    PhdrCksum6Norm(e, ip6);
    FoldTwo(WordSum(e, seg), WordSum(e, ip6[8..40]) + WordSum(e, CodePseudo6(e, ip6)));
  }
}
