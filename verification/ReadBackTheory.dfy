/** Reading a frame back by the standard meanings of its type fields. */
module ReadBackTheory {
  import opened Gf2
  import opened Checksum
  import opened FrameTheory
  import opened HeaderTheory
  import opened Ipv4Theory
  import opened Layers
  import opened LayersTheory

  /** A header as a reader finds it, by the standard meanings of the type fields. */
  datatype Header =
    | EtherHeader
    | Tag(ad: bool, vid: nat, prio: nat, cfi: nat)
    | IpHeader(srcAddr: seq<u8>, dstAddr: seq<u8>)
    | UdpHeader(srcPort: u16, dstPort: u16)
    | TcpHeader(srcPort: u16, dstPort: u16)

  /** The fields of a tag control word: the masks and shifts of lib/core/decode.c. */
  function TagOf(ad: bool, tci: u16): Header {
    Tag(ad, tci % 0x1000, tci / 0x2000 % 8, tci / 0x1000 % 2)
  }

  /** The headers from off on, the first of which has the given EtherType. */
  function ReadFrom(s: seq<u8>, off: nat, etherType: u16): seq<(nat, Header)>
    decreases |s| - off
  {
    if (etherType == TYPE_VLAN || etherType == TYPE_QINQ) && off + 4 <= |s| then
      [(off, TagOf(etherType == TYPE_QINQ, Be16(s, off)))] + ReadFrom(s, off + 4, Be16(s, off + 2))
    else if etherType == TYPE_IPV4 && off + 20 <= |s| then
      [(off, IpHeader(s[off + 12..off + 16], s[off + 16..off + 20]))] + ReadL4(s, off + s[off] % 0x10 * 4, s[off + 9])
    else []
  }

  function ReadL4(s: seq<u8>, off: nat, protocol: u8): seq<(nat, Header)> {
    if protocol == IPPROTO_UDP && off + 8 <= |s| then [(off, UdpHeader(Be16(s, off), Be16(s, off + 2)))]
    else if protocol == IPPROTO_TCP && off + 20 <= |s| then [(off, TcpHeader(Be16(s, off), Be16(s, off + 2)))]
    else []
  }

  function ReadFrame(s: seq<u8>): seq<(nat, Header)> {
    if |s| < 14 then [] else [(0, EtherHeader)] + ReadFrom(s, 14, Be16(s, 12))
  }

  /** What a tag should read back as. */
  function TagAsked(l: Layer): Header
    requires l.Vlan?
  {
    Tag(l.ad, Default(l.vid, 1) % 0x1000, Default(l.prio, 7) % 8, Default(l.cfi, 0) % 2)
  }

  /**
   * The tag reads back as asked exactly when the priority is given: the default priority is or-ed into the
   * VLAN id instead of being shifted into its place.
   */
  lemma TagReadsBack(l: Layer)
    requires l.Vlan?
    ensures TagOf(l.ad, Tci(l)) == TagAsked(l) <==> l.prio.Some?
  {
    var v, p, c := Default(l.vid, 1) % 0x1000, Default(l.prio, 7) % 8, Default(l.cfi, 0) % 2;
    if l.prio.Some? {
      assert Tci(l) == 0x2000 * p + 0x1000 * c + v;
      TagFields(p, c, v);
    } else {
      assert Tci(l) == 0x2000 * 0 + 0x1000 * c + Or7(v);
      TagFields(0, c, Or7(v));
    }
    hide Tci;
  }

  lemma TagFields(p: nat, c: nat, v: nat)
    requires p < 8 && c < 2 && v < 0x1000
    ensures var tci := 0x2000 * p + 0x1000 * c + v;
      tci < 0x1_0000 && tci % 0x1000 == v && tci / 0x2000 % 8 == p && tci / 0x1000 % 2 == c
  {}

  /** Tags, then IPv4, then UDP or TCP, then anything. */
  predicate Standard(ls: seq<Layer>, i: nat)
    decreases |ls| - i
  {
    i + 1 < |ls| &&
    if ls[i].Vlan? then Standard(ls, i + 1)
    else ls[i].Ipv4? && (ls[i + 1].Udp? || ls[i + 1].Tcp?) && i + 2 < |ls|
  }

  /** The layers of a standard chain as headers, from layer i at offset off. */
  function Expected(ls: seq<Layer>, i: nat, off: nat): seq<(nat, Header)>
    requires Standard(ls, i)
    decreases |ls| - i
  {
    if ls[i].Vlan? then [(off, TagOf(ls[i].ad, Tci(ls[i])))] + Expected(ls, i + 1, off + 4)
    else
      var ip := IpHeader(Default(ls[i].ipSrc, [192, 10, 0, 1]), Default(ls[i].ipDst, [192, 10, 0, 2]));
      var (sport, dport) := Ports(ls[i + 1], KindOf(ls[i + 2]));
      [(off, ip), (off + 20, if ls[i + 1].Udp? then UdpHeader(sport, dport) else TcpHeader(sport, dport))]
  }

  // ---------------------------------------------------------------- exactly when

  /** Where a standard chain ends, from layer i at offset off: behind its UDP or TCP header. */
  function EndOf(ls: seq<Layer>, i: nat, off: nat): (end: nat)
    requires Standard(ls, i)
    ensures off + 28 <= end
    decreases |ls| - i
  {
    if ls[i].Vlan? then EndOf(ls, i + 1, off + 4) else off + 20 + HeaderSize(ls[i + 1])
  }

  /** Every byte that the reader uses, and that is not written on the way out, is as the layers asked. */
  predicate Intact(ls: seq<Layer>, i: nat)
    requires Standard(ls, i)
    decreases |ls| - i
  {
    if ls[i].Vlan? then
      && TagByte(ls, i, 0) == BeBytes(Tci(ls[i]))[0] && TagByte(ls, i, 1) == BeBytes(Tci(ls[i]))[1]
      && Intact(ls, i + 1)
    else
      LengthOf(ls, i) == 20 && forall k :: 12 <= k < 20 ==> HeaderByte(ls, i, k) == Ipv4Header(ls[i])[k]
  }

  /** No checksum lands in front of the first IPv4 header, or in it. */
  predicate NoneBefore(ls: seq<Layer>, n: nat) {
    n <= |ls| && forall m :: 0 <= m < n ==> !ls[m].Ipv4?
  }

  lemma TagWhole(w: u16)
    ensures w == w / 0x2000 % 8 * 0x2000 + w / 0x1000 % 2 * 0x1000 + w % 0x1000
  {
    assert w / 0x2000 % 8 == w / 0x2000;
    assert w / 0x1000 == w / 0x2000 * 2 + w / 0x1000 % 2;
  }

  lemma TagInjective(ad: bool, v: u16, w: u16)
    ensures TagOf(ad, v) == TagOf(ad, w) <==> v == w
  {
    TagWhole(v);
    TagWhole(w);
  }

  lemma BytesOf(w: u16, a: u8, b: u8)
    ensures a as nat * 0x100 + b as nat == w as nat <==> a == BeBytes(w)[0] && b == BeBytes(w)[1]
  {}

  lemma PairEqual<T>(a: T, s: seq<T>, b: T, t: seq<T>)
    ensures [a] + s == [b] + t <==> a == b && s == t
  {
    assert ([a] + s)[0] == a && ([a] + s)[1..] == s;
    assert ([b] + t)[0] == b && ([b] + t)[1..] == t;
  }

  lemma Be16Prefix(s: seq<u8>, n: nat, i: nat)
    requires i + 2 <= n <= |s|
    ensures Be16(s[..n], i) == Be16(s, i)
  {}

  lemma StandardPlain(ls: seq<Layer>, n: nat)
    requires Standard(ls, n) && forall j :: 0 <= j < n ==> Plain(ls[j])
    ensures Reached(ls, n) && n + 1 < |ls|
    ensures if ls[n].Vlan? then Standard(ls, n + 1)
            else ls[n].Ipv4? && (ls[n + 1].Udp? || ls[n + 1].Tcp?) && n + 2 < |ls| && Reached(ls, n + 1)
  {}

  // ---------------------------------------------------------------- the bytes that are read

  lemma NoneLands(ls: seq<Layer>, n: nat, lo: nat, hi: nat)
    requires NoneBefore(ls, n)
    ensures Untouched(ls, 0, n, lo, hi)
  {}

  lemma TagRead(e: Endian, ls: seq<Layer>, f: Frame, g: Frame, n: nat)
    requires Encodes(e, ls, f, g) && Reached(ls, n) && NoneBefore(ls, n) && ls[n].Vlan?
    requires n + 1 < |ls| && VlanProtoOf(KindOf(ls[n + 1])) != 0
    ensures Offset(ls, n) + 4 <= |g.buf|
    ensures g.buf[Offset(ls, n)] == TagByte(ls, n, 0) && g.buf[Offset(ls, n) + 1] == TagByte(ls, n, 1)
    ensures Be16(g.buf, Offset(ls, n) + 2) == VlanProtoOf(KindOf(ls[n + 1]))
  {
    hide Encodes, InFrame, Encode, NoneBefore, Untouched, Seen, VlanProtoOf, KindOf, Tci;
    EncodesFrame(e, ls, f, g, n);
    var off := Offset(ls, n);
    NoneLands(ls, n, off, off + 1);
    NoneLands(ls, n, off + 1, off + 2);
    NoneLands(ls, n, off + 2, off + 3);
    NoneLands(ls, n, off + 3, off + 4);
    TagBytes(e, ls, 0, n, f, 0);
    TagBytes(e, ls, 0, n, f, 1);
    TagBytes(e, ls, 0, n, f, 2);
    TagBytes(e, ls, 0, n, f, 3);
    Be16Put(VlanProtoOf(KindOf(ls[n + 1])), g.buf, off + 2);
  }

  lemma IpRead(e: Endian, ls: seq<Layer>, f: Frame, g: Frame, n: nat)
    requires Encodes(e, ls, f, g) && Reached(ls, n) && NoneBefore(ls, n) && ls[n].Ipv4?
    requires n + 1 < |ls| && L4(KindOf(ls[n + 1]))
    ensures Offset(ls, n) + 60 <= |g.buf|
    ensures g.buf[Offset(ls, n)] == HeaderByte(ls, n, 0)
    ensures g.buf[Offset(ls, n) + 9] == ProtocolOf(KindOf(ls[n + 1]))
    ensures LengthOf(ls, n) == 20 ==> forall k :: 12 <= k < 20 ==> g.buf[Offset(ls, n) + k] == HeaderByte(ls, n, k)
  {
    hide Encodes, InFrame, Encode, NoneBefore, Untouched, HeaderByte, KindOf, LengthOf;
    EncodesFrame(e, ls, f, g, n);
    var off := Offset(ls, n);
    NoneLands(ls, n, off, off + 1);
    NoneLands(ls, n, off + 9, off + 10);
    VersionUntouched(ls, n);
    HeaderByteLeft(e, ls, 0, n, f, 0);
    ProtocolField(e, ls, 0, n, f);
    if LengthOf(ls, n) == 20 {
      forall k | 12 <= k < 20
        ensures g.buf[off + k] == HeaderByte(ls, n, k)
      {
        OwnLands(ls, n, k);
        HeaderByteLeft(e, ls, 0, n, f, k);
      }
    }
  }

  lemma OwnLands(ls: seq<Layer>, n: nat, k: nat)
    requires NoneBefore(ls, n) && n < |ls| && ls[n].Ipv4? && LengthOf(ls, n) == 20 && k < 20
    ensures Untouched(ls, 0, n + 1, Offset(ls, n) + k, Offset(ls, n) + k + 1)
  {
    hide LengthOf, Offset, KindOf;
  }

  lemma L4Read(e: Endian, ls: seq<Layer>, f: Frame, g: Frame, n: nat)
    requires Encodes(e, ls, f, g) && Reached(ls, n) && NoneBefore(ls, n) && ls[n].Ipv4? && LengthOf(ls, n) == 20
    requires n + 2 < |ls| && Reached(ls, n + 1) && (ls[n + 1].Udp? || ls[n + 1].Tcp?)
    ensures var off := Offset(ls, n) + 20;
      off + 4 <= |g.buf| && (Be16(g.buf, off), Be16(g.buf, off + 2)) == Ports(ls[n + 1], KindOf(ls[n + 2]))
  {
    hide Encodes, InFrame, Encode, NoneBefore, Untouched, LengthOf, Ports, Be16;
    EncodesFrame(e, ls, f, g, n + 1);
    OffsetNext(ls, n);
    L4Lands(ls, n);
    if ls[n + 1].Udp? {
      UdpFields(e, ls, 0, n + 1, f);
    } else {
      TcpFields(e, ls, 0, n + 1, f);
    }
  }

  lemma L4Lands(ls: seq<Layer>, n: nat)
    requires NoneBefore(ls, n) && n + 1 < |ls| && ls[n].Ipv4? && LengthOf(ls, n) == 20
    ensures ls[n + 1].Udp? ==> Untouched(ls, 0, n + 1, Offset(ls, n + 1), Offset(ls, n + 1) + 6)
    ensures ls[n + 1].Tcp? ==> Untouched(ls, 0, n + 1, Offset(ls, n + 1), Offset(ls, n + 1) + 16)
  {
    hide LengthOf, Offset;
    OffsetNext(ls, n);
  }

  // ---------------------------------------------------------------- one header at a time

  lemma TagStep(ls: seq<Layer>, n: nat, s: seq<u8>, off: nat)
    requires Standard(ls, n) && ls[n].Vlan? && Standard(ls, n + 1)
    requires off + 4 <= |s| ==>
      && s[off] == TagByte(ls, n, 0) && s[off + 1] == TagByte(ls, n, 1)
      && Be16(s, off + 2) == VlanProtoOf(KindOf(ls[n + 1]))
    requires ReadFrom(s, off + 4, VlanProtoOf(KindOf(ls[n + 1]))) == Expected(ls, n + 1, off + 4)
      <==> Intact(ls, n + 1) && EndOf(ls, n + 1, off + 4) <= |s|
    ensures ReadFrom(s, off, VlanProtoOf(KindOf(ls[n]))) == Expected(ls, n, off)
      <==> Intact(ls, n) && EndOf(ls, n, off) <= |s|
  {
    hide TagByte, Tci, TagOf;
    if off + 4 <= |s| {
      var w, ad, proto := Be16(s, off), ls[n].ad, VlanProtoOf(KindOf(ls[n + 1]));
      TagInjective(ad, w, Tci(ls[n]));
      BytesOf(Tci(ls[n]), s[off], s[off + 1]);
      PairEqual((off, TagOf(ad, w)), ReadFrom(s, off + 4, proto),
                (off, TagOf(ad, Tci(ls[n]))), Expected(ls, n + 1, off + 4));
    }
  }

  lemma IpStep(ls: seq<Layer>, n: nat, s: seq<u8>, off: nat)
    requires Standard(ls, n) && ls[n].Ipv4? && (ls[n + 1].Udp? || ls[n + 1].Tcp?) && n + 2 < |ls|
    requires off + 20 <= |s| ==>
      && s[off] % 0x10 * 4 == LengthOf(ls, n) && s[off + 9] == ProtocolOf(KindOf(ls[n + 1]))
      && (LengthOf(ls, n) == 20 ==> forall k :: 12 <= k < 20 ==> s[off + k] == HeaderByte(ls, n, k))
    requires LengthOf(ls, n) == 20 && off + 24 <= |s| ==>
      (Be16(s, off + 20), Be16(s, off + 22)) == Ports(ls[n + 1], KindOf(ls[n + 2]))
    ensures ReadFrom(s, off, TYPE_IPV4) == Expected(ls, n, off) <==> Intact(ls, n) && EndOf(ls, n, off) <= |s|
  {
    hide LengthOf, HeaderByte, Ports, Be16, Ipv4Header;
    if off + 20 <= |s| {
      var ip := IpHeader(s[off + 12..off + 16], s[off + 16..off + 20]);
      var asked := IpHeader(Default(ls[n].ipSrc, [192, 10, 0, 1]), Default(ls[n].ipDst, [192, 10, 0, 2]));
      var (sport, dport) := Ports(ls[n + 1], KindOf(ls[n + 2]));
      var l4 := if ls[n + 1].Udp? then UdpHeader(sport, dport) else TcpHeader(sport, dport);
      PairEqual((off, ip), ReadL4(s, off + LengthOf(ls, n), s[off + 9]), (off, asked), [(off + 20, l4)]);
      L4Step(ls, n, s, off, l4);
      if LengthOf(ls, n) == 20 {
        AddressesAsked(ls[n], s[off + 12..off + 16], s[off + 16..off + 20]);
      }
    }
  }

  lemma L4Step(ls: seq<Layer>, n: nat, s: seq<u8>, off: nat, l4: Header)
    requires Standard(ls, n) && ls[n].Ipv4? && (ls[n + 1].Udp? || ls[n + 1].Tcp?) && n + 2 < |ls|
    requires LengthOf(ls, n) == 20 && off + 24 <= |s| ==>
      (Be16(s, off + 20), Be16(s, off + 22)) == Ports(ls[n + 1], KindOf(ls[n + 2]))
    requires var (sport, dport) := Ports(ls[n + 1], KindOf(ls[n + 2]));
      l4 == if ls[n + 1].Udp? then UdpHeader(sport, dport) else TcpHeader(sport, dport)
    ensures ReadL4(s, off + LengthOf(ls, n), ProtocolOf(KindOf(ls[n + 1]))) == [(off + 20, l4)]
      <==> LengthOf(ls, n) == 20 && off + 20 + HeaderSize(ls[n + 1]) <= |s|
  {
    hide LengthOf, Ports, Be16;
  }

  lemma AddressesAsked(l: Layer, src: seq<u8>, dst: seq<u8>)
    requires l.Ipv4? && |src| == |dst| == 4
    ensures src == Default(l.ipSrc, [192, 10, 0, 1]) && dst == Default(l.ipDst, [192, 10, 0, 2])
      <==> forall k :: 12 <= k < 20 ==> (if k < 16 then src[k - 12] else dst[k - 16]) == Ipv4Header(l)[k]
  {
    var h := Ipv4Header(l);
    assert h[12..16] == Default(l.ipSrc, [192, 10, 0, 1]) && h[16..20] == Default(l.ipDst, [192, 10, 0, 2]);
    if forall k :: 12 <= k < 20 ==> (if k < 16 then src[k - 12] else dst[k - 16]) == h[k] {
      assert src == h[12..16] && dst == h[16..20];
    }
  }

  // ---------------------------------------------------------------- the whole frame

  /** From any layer of a standard chain on, the reader finds those asked for exactly if they are intact and not cut. */
  lemma {:induction false} ReadsExactly(e: Endian, ls: seq<Layer>, f: Frame, g: Frame, n: nat)
    requires Encodes(e, ls, f, g) && g.len <= |g.buf| && NoneBefore(ls, n)
    requires Standard(ls, n) && forall j :: 0 <= j < n ==> Plain(ls[j])
    ensures ReadFrom(g.buf[..g.len], Offset(ls, n), VlanProtoOf(KindOf(ls[n]))) == Expected(ls, n, Offset(ls, n))
      <==> Intact(ls, n) && EndOf(ls, n, Offset(ls, n)) <= g.len
    decreases |ls| - n
  {
    hide Encodes, ReadFrom, Expected, Intact, EndOf, TagByte, HeaderByte, LengthOf, Ports, Standard, Be16, Offset;
    StandardPlain(ls, n);
    var s, off := g.buf[..g.len], Offset(ls, n);
    if ls[n].Vlan? {
      OffsetNext(ls, n);
      StandardPlain(ls, n + 1);
      TagRead(e, ls, f, g, n);
      if off + 4 <= g.len {
        Be16Prefix(g.buf, g.len, off + 2);
      }
      ReadsExactly(e, ls, f, g, n + 1);
      TagStep(ls, n, s, off);
    } else {
      IpRead(e, ls, f, g, n);
      LengthIsNibble(ls, n);
      if LengthOf(ls, n) == 20 {
        L4Read(e, ls, f, g, n);
        if off + 24 <= g.len {
          Be16Prefix(g.buf, g.len, off + 20);
          Be16Prefix(g.buf, g.len, off + 22);
        }
      }
      IpStep(ls, n, s, off);
    }
  }

  /**
   * Following the type fields through the bytes of a finished frame recovers its layers, with their offsets,
   * tags, addresses and ports, exactly if the length does not cut their headers and the payload does not
   * change a byte that the reader uses.
   */
  lemma ReadBack(e: Endian, ls: seq<Layer>, f: Frame, g: Frame)
    requires Encodes(e, ls, f, g) && ls[0].Ether? && Standard(ls, 1)
    ensures g.len <= |g.buf|
    ensures ReadFrame(g.buf[..g.len]) == [(0, EtherHeader)] + Expected(ls, 1, 14)
      <==> Intact(ls, 1) && EndOf(ls, 1, 14) <= g.len
  {
    hide Encodes, ReadFrom, Expected, Intact, EndOf, Standard, Be16, EtherTypeOf, VlanProtoOf, KindOf;
    StandardPlain(ls, 1);
    EncodesFrame(e, ls, f, g, 0);
    EtherTypeFinal(e, ls, f, g);
    StandardType(ls);
    assert Offset(ls, 1) == 14;
    Be16Prefix(g.buf, g.len, 12);
    ReadsExactly(e, ls, f, g, 1);
    var s := g.buf[..g.len];
    PairEqual((0, EtherHeader), ReadFrom(s, 14, Be16(s, 12)), (0, EtherHeader), Expected(ls, 1, 14));
  }

  lemma StandardType(ls: seq<Layer>)
    requires Standard(ls, 1)
    ensures EtherTypeOf(KindOf(ls[1])) == VlanProtoOf(KindOf(ls[1]))
  {}

  lemma TagByteAfter(ls: seq<Layer>, n: nat, k: nat)
    requires Reached(ls, n) && n + 1 < |ls| && ls[n].Vlan? && 14 <= Offset(ls, n) && k < 2
    ensures TagByte(ls, n, k) == After(BeBytes(Tci(ls[n]))[k], Offset(ls, n) + k, Kept(ls, 0, 0), EndFill(ls, 0))
  {
    hide Seen, After, Kept, EndFill, Tci, Offset;
    SeenAfter(ls, n, Offset(ls, n) + k, BeBytes(Tci(ls[n]))[k]);
  }

  /** A payload that keeps the headers of a standard chain behind Ethernet leaves them intact. */
  lemma {:induction false} IntactKept(ls: seq<Layer>, n: nat)
    requires Standard(ls, n) && forall j :: 0 <= j < n ==> Plain(ls[j])
    requires 14 <= Offset(ls, n) && EndOf(ls, n, Offset(ls, n)) <= Kept(ls, 0, 0)
    ensures Intact(ls, n)
    decreases |ls| - n
  {
    hide TagByte, HeaderByte, LengthOf, Kept, EndFill, Tci, Ipv4Header, Offset, Standard;
    StandardPlain(ls, n);
    if ls[n].Vlan? {
      OffsetNext(ls, n);
      TagByteAfter(ls, n, 0);
      TagByteAfter(ls, n, 1);
      IntactKept(ls, n + 1);
    } else {
      LengthIs(ls, n);
      forall k | 12 <= k < 20
        ensures HeaderByte(ls, n, k) == Ipv4Header(ls[n])[k]
      {
        HeaderByteAfter(ls, n, k);
      }
    }
  }
}
