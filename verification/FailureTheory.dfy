/** Chains that encode and whose frames are wrong, each with what decides it. */
module FailureTheory {
  import opened Gf2
  import opened OnesComplement
  import opened Checksum
  import opened FrameTheory
  import opened HeaderTheory
  import opened Ipv4Theory
  import opened Layers
  import opened LayersTheory
  import opened Options

  // ---------------------------------------------------------------- payloads that take bytes back

  /** IPv4, TCP and a payload that takes n bytes back and fills. */
  function Shrinking(n: int, fill: int): seq<Layer> {
    [Ipv4(None, None), Tcp(None, None), Payload(Append(-n), fill), Done]
  }

  lemma ShrinkingIs(n: int, fill: int, cap: nat)
    requires 1 <= n <= 20 && fill != 0 && ETH_FRAME_LEN <= cap
    ensures var ls := Shrinking(n, fill);
      && Tame(ls, 0) && Upright(ls, 0)
      && Kept(ls, 0, 0) == 40 - n && EndFill(ls, 0) == fill % 0x100 && FinalLength(ls, 0, 0) == ETH_ZLEN
      && !EndFaults(ls, 0, 0, cap) && !AnyRefused(ls, 0) && !AnyCutOff(ls, 0, ETH_ZLEN, cap)
  {
    var ls := Shrinking(n, fill);
    assert Offset(ls, 0) == 0 && Offset(ls, 1) == 20;
    assert LastEther(ls, 2).None? && LastEther(ls, 1).None?;
    assert Kept(ls, 2, 40) == 40 - n && Kept(ls, 1, 20) == 40 - n;
    assert EndFill(ls, 2) == fill % 0x100 && EndFill(ls, 1) == fill % 0x100;
    assert FinalLength(ls, 2, 40) == ETH_ZLEN && FinalLength(ls, 1, 20) == ETH_ZLEN;
    assert !EndFaults(ls, 2, 40, cap) && !EndFaults(ls, 1, 20, cap);
  }

  /**
   * The chain encodes and its length cuts no header, but its segment verifies exactly if the payload leaves
   * the TCP checksum field alone, which IPv4 does not clear, or fills it with zeros or ones.
   */
  lemma ShrinkingDecides(e: Endian, f: Frame, n: int, fill: int)
    requires Fresh(Shrinking(n, fill), f) && 1 <= n <= 20 && fill != 0
    ensures var (r, g) := Encode(e, Shrinking(n, fill), 0, f);
      && r == Typ(Ipv4Type) && g.len == 60 && Covered(g.buf, g.buf[20..])
      && (Verify(e, g.buf, g.buf[20..]) == 0 <==> n <= 2 || fill % 0x100 == 0 || (fill % 0x100 == 0xff && n >= 4))
  {
    hide Encode, Covered, Verify, RawCksum, Kept, EndFill, Tame, FinalLength, EndFaults, AnyRefused, AnyCutOff, Upright;
    var ls := Shrinking(n, fill);
    var (r, g) := Encode(e, ls, 0, f);
    ShrinkingIs(n, fill, |f.buf|);
    FrameOutcome(e, ls, f);
    KindReturned(e, ls, 0, f);
    assert Offset(ls, 0) == 0;
    ChecksumsRead(e, ls, f, g, 0);
    assert g.buf[0..] == g.buf;
  }

  /** For one, a payload that takes back the whole TCP header and fills with the default pattern. */
  lemma ShrinkingFails(e: Endian, f: Frame)
    requires Fresh(Shrinking(20, 0x25), f)
    ensures var (r, g) := Encode(e, Shrinking(20, 0x25), 0, f);
      && r == Typ(Ipv4Type) && g.len == 60
      && Covered(g.buf, g.buf[20..]) && Verify(e, g.buf, g.buf[20..]) == -1
  {
    hide Encode, Covered, UdpTcpSum, Shrinking;
    ShrinkingDecides(e, f, 20, 0x25);
  }

  /** Ethernet, IPv4, UDP and a payload that takes n bytes back and fills. */
  function Refilling(n: int, fill: int): seq<Layer> {
    [Ether(None, None), Ipv4(None, None), Udp(None, None), Payload(Append(-n), fill), Done]
  }

  lemma RefillingIs(n: int, fill: int, cap: nat)
    requires 1 <= n <= 27 && fill != 0 && ETH_FRAME_LEN <= cap
    ensures var ls := Refilling(n, fill);
      && Tame(ls, 0) && Upright(ls, 1) && Offset(ls, 1) == 14
      && Kept(ls, 0, 0) == 42 - n && EndFill(ls, 0) == fill % 0x100 && FinalLength(ls, 0, 0) == ETH_ZLEN
      && !EndFaults(ls, 0, 0, cap) && !AnyRefused(ls, 0) && !AnyCutOff(ls, 0, ETH_ZLEN, cap)
  {
    var ls := Refilling(n, fill);
    assert Offset(ls, 0) == 0 && Offset(ls, 1) == 14 && Offset(ls, 2) == 34;
    assert Kept(ls, 3, 42) == 42 - n && Kept(ls, 2, 34) == 42 - n && Kept(ls, 1, 14) == 42 - n;
    assert EndFill(ls, 3) == fill % 0x100 && EndFill(ls, 2) == fill % 0x100 && EndFill(ls, 1) == fill % 0x100;
    assert FinalLength(ls, 3, 42) == ETH_ZLEN && FinalLength(ls, 2, 34) == ETH_ZLEN;
    assert FinalLength(ls, 1, 14) == ETH_ZLEN;
    assert !EndFaults(ls, 3, 42, cap) && !EndFaults(ls, 2, 34, cap) && !EndFaults(ls, 1, 14, cap);
    assert Tame(ls, 2);
  }

  /**
   * The chain encodes and its length cuts no header. total_length is right and the UDP segment verifies, but
   * the IPv4 header adds up to all ones exactly if the payload leaves its checksum field alone or fills it
   * with zeros or ones: IPv4 does not clear its own field either.
   */
  lemma RefillingDecides(e: Endian, f: Frame, n: int, fill: int)
    requires Fresh(Refilling(n, fill), f) && 1 <= n <= 27 && fill != 0
    ensures var (r, g) := Encode(e, Refilling(n, fill), 0, f);
      && r == Typ(EtherType) && g.len == 60
      && Be16(g.buf, 16) == 46 && Covered(g.buf[14..], g.buf[34..]) && Verify(e, g.buf[14..], g.buf[34..]) == 0
      && (RawCksum(e, g.buf[14..34]) == 0xffff <==>
          n <= 16 || fill % 0x100 == 0 || (fill % 0x100 == 0xff && n >= 18))
  {
    hide Encode, Covered, Verify, RawCksum, Kept, EndFill, Tame, FinalLength, EndFaults, AnyRefused, AnyCutOff, Upright;
    var ls := Refilling(n, fill);
    var (r, g) := Encode(e, ls, 0, f);
    RefillingIs(n, fill, |f.buf|);
    FrameOutcome(e, ls, f);
    KindReturned(e, ls, 0, f);
    ChecksumsRead(e, ls, f, g, 1);
  }

  /** For one, a payload that takes back 18 bytes and fills with the default pattern. */
  lemma RefillingFails(e: Endian, f: Frame)
    requires Fresh(Refilling(18, 0x25), f)
    ensures var (r, g) := Encode(e, Refilling(18, 0x25), 0, f);
      r == Typ(EtherType) && g.len == 60 && RawCksum(e, g.buf[14..34]) != 0xffff
  {
    hide Encode, Covered, Verify, RawCksum, Refilling;
    RefillingDecides(e, f, 18, 0x25);
  }

  // ---------------------------------------------------------------- Ethernet behind IPv4

  /** An Ethernet layer behind IPv4, which is not behind one itself. */
  const LATE_ETHER: seq<Layer> := [Ipv4(None, None), Ether(None, None), Done]

  /** The inner Ethernet header goes to the start of the frame, where it replaces the version of the IPv4 header. */
  lemma LateEtherFails(e: Endian, f: Frame)
    requires Fresh(LATE_ETHER, f)
    ensures var (r, g) := Encode(e, LATE_ETHER, 0, f); r == Typ(Ipv4Type) && g.buf[0] != 0x45
  {
    hide Encode, AnyRefused, AnyCutOff, Tame, EndFaults, Kept, FinalLength;
    LateEtherIs(|f.buf|);
    FrameOutcome(e, LATE_ETHER, f);
    KindReturned(e, LATE_ETHER, 0, f);
    VersionReadBack(e, LATE_ETHER, f, Encode(e, LATE_ETHER, 0, f).1, 0);
  }

  lemma LateEtherIs(cap: nat)
    ensures Tame(LATE_ETHER, 0) && !EndFaults(LATE_ETHER, 0, 0, cap)
    ensures !AnyRefused(LATE_ETHER, 0) && !AnyCutOff(LATE_ETHER, 0, FinalLength(LATE_ETHER, 0, 0), cap)
    ensures Kept(LATE_ETHER, 0, 0) == 34 && LastEther(LATE_ETHER, 1) == Some(LATE_ETHER[1])
    ensures AddressesOf(LATE_ETHER[1])[0] == 0xff
  {}

  // ---------------------------------------------------------------- a checksum that lands elsewhere

  /** VXLAN without an outer Ethernet layer: the inner one turns the length of the outer IPv4 header into 60. */
  const LANDING: seq<Layer> :=
    [Ipv4(None, None), Udp(None, None), Vxlan, Ether(None, None), Ipv4(None, None), Udp(None, None), Done]

  lemma LandingPlaces()
    ensures Offset(LANDING, 0) == 0 && Offset(LANDING, 1) == 20 && Offset(LANDING, 2) == 28
    ensures Offset(LANDING, 3) == 36 && Offset(LANDING, 4) == 50 && Offset(LANDING, 5) == 70 && Offset(LANDING, 6) == 78
  {
    assert Offset(LANDING, 1) == 20;
    assert Offset(LANDING, 2) == 28;
    assert Offset(LANDING, 3) == 36;
    assert Offset(LANDING, 4) == 50;
    assert Offset(LANDING, 5) == 70;
  }

  lemma LandingEnds(cap: nat)
    ensures Kept(LANDING, 0, 0) == 78 && EndFill(LANDING, 0) == 0 && FinalLength(LANDING, 0, 0) == 78
    ensures Tame(LANDING, 0) && !EndFaults(LANDING, 0, 0, cap)
  {
    assert Kept(LANDING, 6, 78) == 78 && EndFill(LANDING, 6) == 0 && FinalLength(LANDING, 6, 78) == 78;
    assert !EndFaults(LANDING, 6, 78, cap) && Tame(LANDING, 6);
    assert Kept(LANDING, 4, 50) == 78 && EndFill(LANDING, 4) == 0 && FinalLength(LANDING, 4, 50) == 78;
    assert !EndFaults(LANDING, 4, 50, cap) && Tame(LANDING, 4);
    assert Kept(LANDING, 2, 28) == 78 && EndFill(LANDING, 2) == 0 && FinalLength(LANDING, 2, 28) == 78;
    assert !EndFaults(LANDING, 2, 28, cap) && Tame(LANDING, 2);
  }

  lemma LandingStamps()
    ensures LastEther(LANDING, 1) == Some(LANDING[3]) && StampType(LANDING, 1) == Some(TYPE_IPV4)
    ensures LastEther(LANDING, 5).None? && AddressesOf(LANDING[3])[0] == 0xff
  {
    assert LastEther(LANDING, 5).None? && LastEther(LANDING, 4).None?;
    assert LastEther(LANDING, 3) == Some(LANDING[3]);
    assert StampType(LANDING, 3) == Some(TYPE_IPV4);
  }

  lemma LandingSucceeds(e: Endian, f: Frame)
    requires Fresh(LANDING, f)
    ensures var (r, g) := Encode(e, LANDING, 0, f); r == Typ(Ipv4Type) && g.len == 78
    ensures forall n :: 0 <= n < 6 ==> Reached(LANDING, n)
    ensures Encodes(e, LANDING, f, Encode(e, LANDING, 0, f).1)
  {
    hide Encode, Kept, EndFill, FinalLength, EndFaults, Tame;
    LandingPlaces();
    LandingEnds(|f.buf|);
    FrameOutcome(e, LANDING, f);
    KindReturned(e, LANDING, 0, f);
  }

  /** Header bytes: the inner header as it was asked for, the outer one with the inner EtherType in it. */
  lemma LandingBytes()
    ensures LengthOf(LANDING, 0) == 60 && LengthOf(LANDING, 4) == 20
    ensures HeaderByte(LANDING, 0, 12) == 8 && HeaderByte(LANDING, 0, 13) == 0
    ensures forall k :: 14 <= k < 20 ==> HeaderByte(LANDING, 0, k) == Ipv4Header(LANDING[0])[k]
    ensures forall k :: 0 <= k < 20 ==> HeaderByte(LANDING, 4, k) == Ipv4Header(LANDING[4])[k]
  {
    hide Kept, EndFill, LastEther, StampType, AddressesOf, Offset, Ipv4Header;
    LandingPlaces();
    LandingEnds(0);
    LandingStamps();
    KeptSame(LANDING, 1);
    KeptSame(LANDING, 5);
    Ipv4First(LANDING[0]);
    Ipv4First(LANDING[4]);
  }

  lemma Ipv4First(l: Layer)
    requires l.Ipv4?
    ensures Ipv4Header(l)[0] == 0x45
  {}

  /** A sequence of words as a sum. */
  lemma TwelveBytes(e: Endian, s: seq<u8>)
    requires |s| == 12
    ensures WordSum(e, s) == Word(e, s[0], s[1]) + Word(e, s[2], s[3]) + Word(e, s[4], s[5])
                           + Word(e, s[6], s[7]) + Word(e, s[8], s[9]) + Word(e, s[10], s[11])
  {
    hide Word;
    assert s == ([s[0], s[1], s[2], s[3]] + [s[4], s[5], s[6], s[7]]) + [s[8], s[9], s[10], s[11]];
    WordSumAppend(e, [s[0], s[1], s[2], s[3]] + [s[4], s[5], s[6], s[7]], [s[8], s[9], s[10], s[11]]);
    EightBytes(e, s[0], s[1], s[2], s[3], s[4], s[5], s[6], s[7]);
    FourBytes(e, s[8], s[9], s[10], s[11]);
  }

  lemma TenBytes(e: Endian, s: seq<u8>)
    requires |s| == 10
    ensures WordSum(e, s) == Word(e, s[0], s[1]) + Word(e, s[2], s[3]) + Word(e, s[4], s[5])
                           + Word(e, s[6], s[7]) + Word(e, s[8], s[9])
  {
    TwelveBytes(e, s + [0, 0]);
    WordSumAppend(e, s, [0, 0]);
    assert [0, 0][2..] == [];
  }

  /** A segment that verifies adds up to zero with its pseudo-header, modulo 65535. */
  lemma VerifiedSum(e: Endian, ip: seq<u8>, l4: seq<u8>)
    requires Covered(ip, l4) && HdrLen(ip) < TotalLength(ip) && Verify(e, ip, l4) == 0
    ensures SegmentSum(e, ip, l4) % 0xffff == 0
  {
    hide WordSum, PseudoHeader, Segment, HdrLen, TotalLength, UdpTcpSum;
    UdpTcpSumNorm(e, ip, l4);
    LengthCounts(e, ip);
    PassesIff(SegmentSum(e, ip, l4));
  }

  /** The frame without what the outermost layer does to it on the way out. */
  function Inner(e: Endian, f: Frame): Frame
    requires Fresh(LANDING, f)
  {
    LandingFrame(e, f);
    Encode(e, LANDING, 1, Enter(e, LANDING[0], 0, f)).1
  }

  lemma LandingFrame(e: Endian, f: Frame)
    requires Fresh(LANDING, f)
    ensures HeaderFits(LANDING[0], f.len, f) && InFrame(e, LANDING, 0, 4, f) && InFrame(e, LANDING, 0, 0, f)
    ensures |f.buf| >= ETH_FRAME_LEN && Encode(e, LANDING, 0, f).1.len == 78
  {
    hide Encode, Enter, Encodes, Succeeds, Tame;
    LandingSucceeds(e, f);
    EncodesFrame(e, LANDING, f, Encode(e, LANDING, 0, f).1, 0);
    EncodesFrame(e, LANDING, f, Encode(e, LANDING, 0, f).1, 4);
  }

  lemma InnerFrame(e: Endian, f: Frame)
    requires Fresh(LANDING, f)
    ensures HeaderFits(LANDING[0], f.len, f)
    ensures var f1 := Enter(e, LANDING[0], 0, f);
      && InFrame(e, LANDING, 1, 4, f1) && Encode(e, LANDING, 1, f1).1 == Inner(e, f)
      && |f1.buf| == |Inner(e, f).buf| == |f.buf| >= ETH_FRAME_LEN && Inner(e, f).len == 78
  {
    hide Encode, Enter, InFrame, Fresh;
    LandingFrame(e, f);
    InFrameNext(e, LANDING, 0, 4, f);
  }

  lemma NoneInside(lo: nat, hi: nat)
    ensures Untouched(LANDING, 1, 4, lo, hi)
    ensures hi <= 70 ==> Untouched(LANDING, 1, 5, lo, hi)
  {
    hide LengthOf, Offset;
    LandingPlaces();
    LandingBytes();
  }

  lemma InnerByte(e: Endian, f: Frame, k: nat)
    requires Fresh(LANDING, f) && k < 20 && k !in {2, 3, 9, 10, 11}
    ensures 110 <= |f.buf| && Inner(e, f).buf[50 + k] == Ipv4Header(LANDING[4])[k]
  {
    hide Encode, Enter, InFrame, Inner, HeaderByte, LengthOf, Offset, Ipv4Header, Untouched;
    LandingPlaces();
    LandingBytes();
    InnerFrame(e, f);
    NoneInside(50 + k, 51 + k);
    HeaderByteLeft(e, LANDING, 1, 4, Enter(e, LANDING[0], 0, f), k);
  }

  lemma InnerHeader(e: Endian, f: Frame)
    requires Fresh(LANDING, f)
    ensures 110 <= |f.buf|
    ensures Inner(e, f).buf[50..60] == [0x45, 0, 0, 28, 0, 1, 0, 0, 64, 17]
    ensures Inner(e, f).buf[62..70] == [192, 10, 0, 1, 192, 10, 0, 2]
  {
    hide Encode, Enter, InFrame, Inner, LengthOf, Offset, Untouched, HeaderByte, Ipv4Header;
    LandingPlaces();
    LandingBytes();
    InnerFrame(e, f);
    var f1 := Enter(e, LANDING[0], 0, f);
    NoneInside(50, 70);
    NoneInside(52, 54);
    NoneInside(59, 60);
    TotalLengthField(e, LANDING, 1, 4, f1);
    ProtocolField(e, LANDING, 1, 4, f1);
    var s := Inner(e, f).buf;
    forall k | 0 <= k < 20 && k !in {2, 3, 9, 10, 11}
      ensures s[50 + k] == Ipv4Header(LANDING[4])[k]
    {
      InnerByte(e, f, k);
    }
    DefaultHeader(LANDING[4]);
    InnerSlices(s, Ipv4Header(LANDING[4]));
  }

  lemma InnerSlices(s: seq<u8>, h: seq<u8>)
    requires |s| >= 110 && |h| == 20 && s[52] == 0 && s[53] == 28 && s[59] == 17
    requires forall k :: 0 <= k < 20 && k !in {2, 3, 9, 10, 11} ==> s[50 + k] == h[k]
    requires h[0] == 0x45 && h[1] == 0 && h[4] == 0 && h[5] == 1 && h[6] == 0 && h[7] == 0 && h[8] == 64
    requires h[12..20] == [192, 10, 0, 1, 192, 10, 0, 2]
    ensures s[50..60] == [0x45, 0, 0, 28, 0, 1, 0, 0, 64, 17]
    ensures s[62..70] == [192, 10, 0, 1, 192, 10, 0, 2]
  {
    assert s[50] == h[0] && s[51] == h[1] && s[54] == h[4] && s[55] == h[5];
    assert s[56] == h[6] && s[57] == h[7] && s[58] == h[8];
    var t := h[12..20];
    assert t[0] == h[12] && t[1] == h[13] && t[2] == h[14] && t[3] == h[15];
    assert t[4] == h[16] && t[5] == h[17] && t[6] == h[18] && t[7] == h[19];
  }

  lemma DefaultHeader(l: Layer)
    requires l == Ipv4(None, None)
    ensures var h := Ipv4Header(l);
      && h[0] == 0x45 && h[1] == 0 && h[4] == 0 && h[5] == 1 && h[6] == 0 && h[7] == 0 && h[8] == 64
      && h[10] == 0 && h[11] == 0 && h[12..20] == [192, 10, 0, 1, 192, 10, 0, 2]
  {}

  lemma InnerIs(s: seq<u8>)
    requires |s| >= 110
    requires s[50..60] == [0x45, 0, 0, 28, 0, 1, 0, 0, 64, 17] && s[62..70] == [192, 10, 0, 1, 192, 10, 0, 2]
    ensures HdrLen(s[50..]) == 20 && TotalLength(s[50..]) == 28
    ensures PseudoHeader(s[50..]) == [192, 10, 0, 1] + [192, 10, 0, 2] + [0, 17, 0, 8]
  {
    var ip := s[50..];
    assert ip[0] == s[50..60][0] && ip[2] == s[50..60][2] && ip[3] == s[50..60][3] && ip[9] == s[50..60][9];
    assert ip[12..20] == s[62..70];
  }

  /** Inside, everything is right. */
  lemma InnerSums(e: Endian, f: Frame)
    requires Fresh(LANDING, f)
    ensures 110 <= |f.buf|
    ensures RawCksum(e, Inner(e, f).buf[50..70]) == 0xffff
    ensures var pseudo := [192, 10, 0, 1] + [192, 10, 0, 2] + [0, 17, 0, 8];
      (WordSum(e, pseudo) + WordSum(e, Inner(e, f).buf[70..78])) % 0xffff == 0
  {
    hide Encode, Enter, InFrame, Inner, LengthOf, Offset, Untouched, HeaderByte, WordSum, RawCksum, Verify, Covered,
      HdrLen, TotalLength, PseudoHeader, Ipv4Header;
    LandingPlaces();
    LandingBytes();
    InnerFrame(e, f);
    InnerHeader(e, f);
    var f1, s := Enter(e, LANDING[0], 0, f), Inner(e, f).buf;
    NoneInside(50, 70);
    NoneInside(50, 78);
    DefaultHeader(LANDING[4]);
    HeaderSums(e, LANDING, 1, 4, f1);
    SegmentVerifies(e, LANDING, 1, 4, f1);
    InnerIs(s);
    VerifiedBytes(e, s, 50, 28, [192, 10, 0, 1] + [192, 10, 0, 2] + [0, 17, 0, 8]);
  }

  /** The sum of a verified segment behind a header at off, given the bytes of its pseudo-header. */
  lemma VerifiedBytes(e: Endian, s: seq<u8>, off: nat, total: u16, pseudo: seq<u8>)
    requires off + total <= |s| && off + 20 <= |s| && HdrLen(s[off..]) < total == TotalLength(s[off..])
    requires PseudoHeader(s[off..]) == pseudo
    requires var l4 := s[off + HdrLen(s[off..])..]; Covered(s[off..], l4) && Verify(e, s[off..], l4) == 0
    ensures (WordSum(e, pseudo) + WordSum(e, s[off + HdrLen(s[off..])..off + total])) % 0xffff == 0
  {
    hide WordSum, PseudoHeader, HdrLen, TotalLength, Covered, Verify;
    var ip, n := s[off..], HdrLen(s[off..]);
    VerifiedSum(e, ip, s[off + n..]);
    SegmentBytes(ip, s[off + n..]);
    assert s[off + n..][..total - n] == s[off + n..off + total];
  }

  lemma SegmentBytes(ip: seq<u8>, l4: seq<u8>)
    requires Covered(ip, l4) && HdrLen(ip) <= TotalLength(ip)
    ensures TotalLength(ip) - HdrLen(ip) <= |l4| && Segment(ip, l4) == l4[..TotalLength(ip) - HdrLen(ip)]
  {
    hide HdrLen, TotalLength;
  }

  lemma NoneOutside(lo: nat, hi: nat)
    ensures Untouched(LANDING, 0, 0, lo, hi)
    ensures hi <= 66 ==> Untouched(LANDING, 0, 1, lo, hi)
    ensures forall j: nat :: Lands(LANDING, 0, j) <==> 66 <= j < 68
  {
    hide LengthOf, Offset;
    LandingPlaces();
    LandingBytes();
  }

  /** The outer header as the reader of the segment sees it. */
  lemma OuterHeader(e: Endian, f: Frame)
    requires Fresh(LANDING, f)
    ensures var s := Encode(e, LANDING, 0, f).1.buf;
      && |s| >= 110 && HdrLen(s) == 60 && TotalLength(s) == 78
      && PseudoHeader(s) == [8, 0, 0, 1] + [192, 10, 0, 2] + [0, 17, 0, 18]
  {
    hide Encode, InFrame, LengthOf, Offset, Untouched, HeaderByte, Ipv4Header;
    LandingPlaces();
    LandingBytes();
    LandingFrame(e, f);
    var s := Encode(e, LANDING, 0, f).1.buf;
    NoneOutside(2, 4);
    NoneOutside(9, 10);
    TotalLengthField(e, LANDING, 0, 0, f);
    ProtocolField(e, LANDING, 0, 0, f);
    DefaultHeader(LANDING[0]);
    forall k | 12 <= k < 20
      ensures s[k] == HeaderByte(LANDING, 0, k)
    {
      NoneOutside(k, k + 1);
      HeaderByteLeft(e, LANDING, 0, 0, f, k);
    }
    NoneOutside(0, 1);
    HeaderByteLeft(e, LANDING, 0, 0, f, 0);
    LengthIsNibble(LANDING, 0);
    OuterIs(s, Ipv4Header(LANDING[0]));
  }

  lemma OuterIs(s: seq<u8>, h: seq<u8>)
    requires |s| >= 110 && |h| == 20 && s[0] % 0x10 == 15 && Be16(s, 2) == 78 && s[9] == 17
    requires s[12] == 8 && s[13] == 0 && forall k :: 14 <= k < 20 ==> s[k] == h[k]
    requires h[12..20] == [192, 10, 0, 1, 192, 10, 0, 2]
    ensures HdrLen(s) == 60 && TotalLength(s) == 78
    ensures PseudoHeader(s) == [8, 0, 0, 1] + [192, 10, 0, 2] + [0, 17, 0, 18]
  {
    var t := h[12..20];
    assert t[2] == h[14] && t[3] == h[15] && t[4] == h[16] && t[5] == h[17] && t[6] == h[18] && t[7] == h[19];
    assert s[12..20] == [8, 0, 0, 1] + [192, 10, 0, 2];
  }

  /** The outer segment, which begins inside the inner header, verifies all the same. */
  lemma OuterSum(e: Endian, f: Frame)
    requires Fresh(LANDING, f)
    ensures var s := Encode(e, LANDING, 0, f).1.buf;
      && |s| >= 110
      && (WordSum(e, [8, 0, 0, 1] + [192, 10, 0, 2] + [0, 17, 0, 18]) + WordSum(e, s[60..78])) % 0xffff == 0
  {
    hide Encode, InFrame, LengthOf, Offset, Untouched, WordSum, Verify, Covered, HdrLen, TotalLength, PseudoHeader;
    LandingPlaces();
    LandingBytes();
    LandingFrame(e, f);
    OuterHeader(e, f);
    NoneOutside(0, 78);
    SegmentVerifies(e, LANDING, 0, 0, f);
    var s := Encode(e, LANDING, 0, f).1.buf;
    assert s[0..] == s;
    VerifiedBytes(e, s, 0, 78, [8, 0, 0, 1] + [192, 10, 0, 2] + [0, 17, 0, 18]);
  }

  /** The outer second half changes nothing behind its header but the two bytes where its checksum lands. */
  lemma OuterKeeps(e: Endian, f: Frame, j: nat)
    requires Fresh(LANDING, f) && 20 <= j < 78 && j != 66 && j != 67
    ensures |f.buf| >= 110
    ensures Encode(e, LANDING, 0, f).1.buf[j] == Inner(e, f).buf[j]
  {
    hide Encode, Enter, Offset, Lands, Succeeds;
    LandingFrame(e, f);
    InnerFrame(e, f);
    NoneOutside(0, 0);
    LeaveBehind(e, LANDING, 0, f, j);
  }

  /** What the sums of the four runs come to, if the inner header still added up to all ones. */
  lemma Contradiction(e: Endian, outer: nat, inner: nat, front: nat, back: nat, l4: nat)
    requires outer == WordSum(e, [8, 0, 0, 1] + [192, 10, 0, 2] + [0, 17, 0, 18])
    requires inner == WordSum(e, [192, 10, 0, 1] + [192, 10, 0, 2] + [0, 17, 0, 8])
    requires front == WordSum(e, [0x45, 0, 0, 28, 0, 1, 0, 0, 64, 17])
    requires (outer + back + l4) % 0xffff == 0 && (inner + l4) % 0xffff == 0
    ensures (front + back) % 0xffff != 0
  {
    TwelveBytes(e, [8, 0, 0, 1] + [192, 10, 0, 2] + [0, 17, 0, 18]);
    TwelveBytes(e, [192, 10, 0, 1] + [192, 10, 0, 2] + [0, 17, 0, 8]);
    TenBytes(e, [0x45, 0, 0, 28, 0, 1, 0, 0, 64, 17]);
    hide WordSum;
  }

  /**
   * The outer checksum lands in the inner IPv4 header: it replaces the first half of the destination address,
   * and the inner header no longer adds up to all ones.
   */
  lemma LandingFails(e: Endian, f: Frame)
    requires Fresh(LANDING, f)
    ensures var (r, g) := Encode(e, LANDING, 0, f);
      && r == Typ(Ipv4Type) && g.len == 78
      && RawCksum(e, g.buf[50..70]) != 0xffff && g.buf[66..68] != [192, 10]
  {
    hide Encode, Inner, WordSum, RawCksum;
    LandingSucceeds(e, f);
    InnerFrame(e, f);
    InnerHeader(e, f);
    InnerSums(e, f);
    OuterSum(e, f);
    var s, t := Encode(e, LANDING, 0, f).1.buf, Inner(e, f).buf;
    forall j | 20 <= j < 78 && j != 66 && j != 67
      ensures s[j] == t[j]
    {
      OuterKeeps(e, f, j);
    }
    LandingSums(e, s, t);
  }

  lemma LandingSums(e: Endian, s: seq<u8>, t: seq<u8>)
    requires |s| == |t| >= 110 && forall j :: 20 <= j < 78 && j != 66 && j != 67 ==> s[j] == t[j]
    requires t[50..60] == [0x45, 0, 0, 28, 0, 1, 0, 0, 64, 17] && t[62..70] == [192, 10, 0, 1, 192, 10, 0, 2]
    requires RawCksum(e, t[50..70]) == 0xffff
    requires (WordSum(e, [192, 10, 0, 1] + [192, 10, 0, 2] + [0, 17, 0, 8]) + WordSum(e, t[70..78])) % 0xffff == 0
    requires (WordSum(e, [8, 0, 0, 1] + [192, 10, 0, 2] + [0, 17, 0, 18]) + WordSum(e, s[60..78])) % 0xffff == 0
    ensures RawCksum(e, s[50..70]) != 0xffff && s[66..68] != [192, 10]
  {
    hide WordSum, RawCksum, Norm;
    assert s[50..60] == t[50..60] && s[70..78] == t[70..78];
    assert s[60..78] == s[60..70] + s[70..78] && s[50..70] == s[50..60] + s[60..70];
    WordSumAppend(e, s[60..70], s[70..78]);
    WordSumAppend(e, s[50..60], s[60..70]);
    Contradiction(e, WordSum(e, [8, 0, 0, 1] + [192, 10, 0, 2] + [0, 17, 0, 18]),
                  WordSum(e, [192, 10, 0, 1] + [192, 10, 0, 2] + [0, 17, 0, 8]),
                  WordSum(e, s[50..60]), WordSum(e, s[60..70]), WordSum(e, s[70..78]));
    NotOnes(e, s[50..70]);
    SameRun(s, t);
  }

  lemma SameRun(s: seq<u8>, t: seq<u8>)
    requires |s| == |t| >= 110 && forall j :: 20 <= j < 78 && j != 66 && j != 67 ==> s[j] == t[j]
    requires t[62..70] == [192, 10, 0, 1, 192, 10, 0, 2]
    ensures s[66..68] == [192, 10] ==> s[50..70] == t[50..70]
  {
    var b: seq<u8>, c: seq<u8> := [192, 10, 0, 1, 192, 10, 0, 2], [192, 10];
    assert t[66] == b[4] && t[67] == b[5];
    if s[66..68] == c {
      assert s[66] == c[0] && s[67] == c[1];
      assert s[50..70] == t[50..70];
    }
  }

  lemma NotOnes(e: Endian, s: seq<u8>)
    requires |s| <= LONGEST && WordSum(e, s) % 0xffff != 0
    ensures RawCksum(e, s) != 0xffff
  {
    hide WordSum, RawCksum, Norm;
    RawCksumNorm(e, s);
    if WordSum(e, s) > 0 {
      PassesIff(WordSum(e, s));
    }
  }
}
