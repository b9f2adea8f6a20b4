/** What each header of a finished frame holds, read off the layers. */
module HeaderTheory {
  import opened Gf2
  import opened Checksum
  import opened Ipv4Theory
  import opened Layers
  import opened LayersTheory
  import opened Options

  /** Layer i succeeds and layer n is inside it, before any payload. */
  predicate InFrame(e: Endian, ls: seq<Layer>, i: nat, n: nat, f: Frame) {
    Succeeds(e, ls, i, f) && Plains(ls, i, n) && n < |ls| && Plain(ls[n])
  }

  lemma InFrameNext(e: Endian, ls: seq<Layer>, i: nat, n: nat, f: Frame)
    requires InFrame(e, ls, i, n, f) && i < n
    ensures HeaderFits(ls[i], f.len, f) && |Enter(e, ls[i], i, f).buf| == |f.buf|
    ensures InFrame(e, ls, i + 1, n, Enter(e, ls[i], i, f))
    ensures Encode(e, ls, i + 1, Enter(e, ls[i], i, f)).1.len == Encode(e, ls, i, f).1.len
  {
    hide Encode, Enter, Succeeds;
    AtPlace(e, ls, i, f);
    Between(e, ls, i, f);
  }

  /** What layer n and those inside make of a stretch of the frame is what the whole frame holds there. */
  lemma SettledRange(e: Endian, ls: seq<Layer>, i: nat, n: nat, f: Frame, lo: nat, hi: nat)
    requires InFrame(e, ls, i, n, f) && Untouched(ls, i, n, lo, hi)
    requires Offset(ls, n) <= lo <= hi <= |f.buf|
    ensures Encode(e, ls, i, f).1.buf[lo..hi] == Encode(e, ls, n, Begin(e, ls, i, n, f)).1.buf[lo..hi]
  {
    hide Encode, Lands, Succeeds, Begin, Offset;
    BeginPlace(e, ls, i, n, f);
    var s, t := Encode(e, ls, i, f).1.buf, Encode(e, ls, n, Begin(e, ls, i, n, f)).1.buf;
    forall j | lo <= j < hi
      ensures s[j] == t[j]
    {
      Settled(e, ls, i, n, f, j);
    }
  }

  // ---------------------------------------------------------------- checksums

  predicate ZeroWord(a: u8, b: u8) { (a == 0 && b == 0) || (a == 0xff && b == 0xff) }

  lemma ZeroWordIs(e: Endian, s: seq<u8>, i: nat)
    requires i + 2 <= |s|
    ensures WordAt(e, s, i) % 0xffff == 0 <==> ZeroWord(s[i], s[i + 1])
  {}

  /** The checksum field of the IPv4 header n is zero, modulo 65535, when the checksum is computed. */
  predicate HeaderClear(ls: seq<Layer>, n: nat)
    requires n < |ls| && ls[n].Ipv4?
  {
    ZeroWord(HeaderByte(ls, n, 10), HeaderByte(ls, n, 11))
  }

  lemma LengthIsNibble(ls: seq<Layer>, n: nat)
    requires n < |ls| && ls[n].Ipv4?
    ensures LengthOf(ls, n) == HeaderByte(ls, n, 0) % 0x10 * 4
  {
    hide HeaderByte;
  }

  /** The layer n with its frame: what its second half finds, and what it makes of it. */
  lemma Ipv4Begun(e: Endian, ls: seq<Layer>, i: nat, n: nat, f: Frame)
    requires InFrame(e, ls, i, n, f) && ls[n].Ipv4?
    ensures n + 1 < |ls| && Succeeds(e, ls, n, Begin(e, ls, i, n, f)) && Offset(ls, n) + 60 <= |f.buf|
    ensures var (b, off) := (Begin(e, ls, i, n, f), Offset(ls, n));
      && |Found(e, ls, n, b)| == |f.buf| - off
      && HdrLen(Found(e, ls, n, b)) == LengthOf(ls, n)
      && LeftBy(e, Found(e, ls, n, b), KindOf(ls[n + 1]), Cut16(Encode(e, ls, i, f).1.len - off),
                Encode(e, ls, n, b).1.buf[off..])
  {
    hide *;
    BeginPlace(e, ls, i, n, f);
    var b := Begin(e, ls, i, n, f);
    Begun(e, ls, i, n, f);
    Ipv4Leaves(e, ls, n, b);
    FoundLength(e, ls, n, b);
  }

  lemma BeginPlace(e: Endian, ls: seq<Layer>, i: nat, n: nat, f: Frame)
    requires InFrame(e, ls, i, n, f)
    ensures n < |ls| && Plain(ls[n]) && Succeeds(e, ls, i, f)
    ensures Plains(ls, i, n) && Small(ls, i, f) && Begin(e, ls, i, n, f).len == Offset(ls, n)
    ensures |Begin(e, ls, i, n, f).buf| == |f.buf|
  {
    hide Encode;
  }

  /** A header, as long as it says it is, adds up to all ones exactly if its checksum field was clear. */
  lemma HeaderSums(e: Endian, ls: seq<Layer>, i: nat, n: nat, f: Frame)
    requires InFrame(e, ls, i, n, f) && ls[n].Ipv4? && 12 <= LengthOf(ls, n)
    requires Untouched(ls, i, n, Offset(ls, n), Offset(ls, n) + LengthOf(ls, n))
    ensures Offset(ls, n) + 60 <= |f.buf|
    ensures var (g, off) := (Encode(e, ls, i, f).1, Offset(ls, n));
      RawCksum(e, g.buf[off..off + LengthOf(ls, n)]) == 0xffff <==> HeaderClear(ls, n)
  {
    hide Encode, Succeeds, Found, KindOf, LengthOf, RawCksum, LeaveIpv4, HeaderByte, WordAt, Untouched, Begin, HdrLen;
    BeginPlace(e, ls, i, n, f);
    var b, off, len := Begin(e, ls, i, n, f), Offset(ls, n), LengthOf(ls, n);
    Ipv4Begun(e, ls, i, n, f);
    var s, r := Found(e, ls, n, b), Encode(e, ls, n, b).1;
    var total := Cut16(Encode(e, ls, i, f).1.len - off);
    LeaveSums(e, s, KindOf(ls[n + 1]), total);
    FoundByte(e, ls, n, b, 10);
    FoundByte(e, ls, n, b, 11);
    ZeroWordIs(e, s, 10);
    SettledRange(e, ls, i, n, f, off, off + len);
    assert r.buf[off..][..len] == r.buf[off..off + len];
  }

  /** Byte k of the TCP header of layer n, for one that its second half does not write. */
  function TcpByte(ls: seq<Layer>, n: nat, k: nat): u8
    requires n < |ls|
  {
    Seen(ls, n + 1, Offset(ls, n) + 20, Offset(ls, n) + k, 0)
  }

  /** The checksum field of the TCP header n is zero, modulo 65535, when IPv4 computes the checksum. */
  predicate TcpClear(ls: seq<Layer>, n: nat)
    requires n < |ls|
  {
    ZeroWord(TcpByte(ls, n, 16), TcpByte(ls, n, 17))
  }

  lemma TcpLeaves(e: Endian, l: Layer, i: nat, off: nat, kind: Kind, f: Frame, k: nat)
    requires l.Tcp? && Fits(f, off, 20) && (4 <= k < 12 || 16 <= k < 20)
    ensures Leave(e, l, i, off, Typ(kind), f).1.buf[off + k] == f.buf[off + k]
  {
    hide Ports;
  }

  /**
   * TCP leaves its numbers, its checksum field and its urgent pointer alone; the checksum is for the enclosing
   * IPv4 layer, which does not clear the field.
   */
  lemma TcpFieldLeft(e: Endian, ls: seq<Layer>, n: nat, f: Frame, k: nat)
    requires Succeeds(e, ls, n, f) && ls[n].Tcp? && (4 <= k < 12 || 16 <= k < 20)
    ensures f.len + 20 <= |f.buf| && Encode(e, ls, n, f).1.buf[f.len + k] == TcpByte(ls, n, k)
  {
    hide Encode, Enter, Leave, Seen, Succeeds, Tame, Small, KindOf;
    AtPlace(e, ls, n, f);
    Between(e, ls, n, f);
    var g := Enter(e, ls[n], n, f);
    var (next, h) := Encode(e, ls, n + 1, g);
    EncodeSeen(e, ls, n + 1, g, f.len + k);
    EnterTcp(e, ls[n], n, f, k);
    TcpLeaves(e, ls[n], n, f.len, next.kind, h, k);
  }

  lemma EnterTcp(e: Endian, l: Layer, i: nat, f: Frame, k: nat)
    requires l.Tcp? && HeaderFits(l, f.len, f) && k < 20
    ensures Enter(e, l, i, f).buf[f.len + k] == 0
  {}

  lemma TcpFound(e: Endian, ls: seq<Layer>, n: nat, f: Frame, k: nat)
    requires n + 1 < |ls| && Succeeds(e, ls, n, f) && ls[n].Ipv4? && ls[n + 1].Tcp? && 16 <= k < 18
    ensures Found(e, ls, n, f)[20 + k] == TcpByte(ls, n + 1, k)
  {
    hide *;
    Ipv4Size(ls[n]);
    AtPlace(e, ls, n, f);
    Between(e, ls, n, f);
    FoundIs(e, ls, n, f);
    var g := Enter(e, ls[n], n, f);
    TcpFieldLeft(e, ls, n + 1, g, k);
    assert g.len + k == f.len + (20 + k);
  }

  /** The next header, where the IPv4 header says it is, is in the frame. */
  predicate Whole(ls: seq<Layer>, n: nat, len: nat) {
    && n + 1 < |ls| && ls[n].Ipv4? && L4(KindOf(ls[n + 1]))
    && Offset(ls, n) + LengthOf(ls, n) + L4Size(KindOf(ls[n + 1])) <= len
  }

  /** A UDP segment verifies, and a TCP segment behind a header of 20 bytes does exactly if its field was clear. */
  lemma SegmentVerifies(e: Endian, ls: seq<Layer>, i: nat, n: nat, f: Frame)
    requires n + 1 < |ls| && ls[n].Ipv4? && InFrame(e, ls, i, n, f)
    requires ETH_FRAME_LEN <= |f.buf| && Whole(ls, n, Encode(e, ls, i, f).1.len)
    requires 16 <= LengthOf(ls, n) && (ls[n + 1].Tcp? ==> LengthOf(ls, n) == 20)
    requires Untouched(ls, i, n, Offset(ls, n), Encode(e, ls, i, f).1.len)
    ensures Offset(ls, n) + 60 <= |f.buf|
    ensures var (g, off, len) := (Encode(e, ls, i, f).1, Offset(ls, n), LengthOf(ls, n));
      && Covered(g.buf[off..], g.buf[off + len..])
      && (Verify(e, g.buf[off..], g.buf[off + len..]) == 0 <==> ls[n + 1].Udp? || TcpClear(ls, n + 1))
  {
    hide Encode, Succeeds, Found, LengthOf, LeaveIpv4, WordAt, Untouched, Begin, Verify, Covered, TcpByte, HdrLen;
    BeginPlace(e, ls, i, n, f);
    var b, off, len := Begin(e, ls, i, n, f), Offset(ls, n), LengthOf(ls, n);
    var g, kind := Encode(e, ls, i, f).1, KindOf(ls[n + 1]);
    FrameLength(e, ls, i, f);
    Ipv4Begun(e, ls, i, n, f);
    var s, t := Found(e, ls, n, b), Encode(e, ls, n, b).1.buf[off..];
    LeaveVerifies(e, s, kind, g.len - off);
    LeaveFields(e, s, kind, g.len - off);
    if kind == TcpType {
      TcpFound(e, ls, n, b, 16);
      TcpFound(e, ls, n, b, 17);
      ZeroWordIs(e, s, 36);
    }
    SettledRange(e, ls, i, n, f, off, g.len);
    VerifyAt(e, g.buf, Encode(e, ls, n, b).1.buf, off, g.len - off, len);
  }

  /** Two frames with one segment. */
  lemma VerifyAt(e: Endian, s: seq<u8>, t: seq<u8>, off: nat, m: nat, n: nat)
    requires |s| == |t| && 20 <= m && off + m <= |s| && s[off..off + m] == t[off..off + m]
    requires TotalLength(t[off..]) == m && HdrLen(t[off..]) == n <= m
    ensures Covered(s[off..], s[off + n..]) && Covered(t[off..], t[off..][n..])
    ensures Verify(e, s[off..], s[off + n..]) == Verify(e, t[off..], t[off..][n..])
  {
    hide TotalLength, HdrLen, Verify, Covered;
    assert s[off..][..m] == s[off..off + m] && t[off..][..m] == t[off..off + m];
    VerifyPrefix(e, t[off..], s[off..], n);
    assert s[off..][n..] == s[off + n..];
  }

  lemma FrameLength(e: Endian, ls: seq<Layer>, i: nat, f: Frame)
    requires Succeeds(e, ls, i, f)
    ensures ETH_ZLEN <= Encode(e, ls, i, f).1.len <= ETH_FRAME_LEN
  {
    hide Encode;
    LengthClamped(e, ls, i, f);
  }

  // ---------------------------------------------------------------- fields

  lemma Be16Slice(s: seq<u8>, t: seq<u8>, i: nat)
    requires i + 2 <= |s| && i + 2 <= |t| && s[i..i + 2] == t[i..i + 2]
    ensures Be16(s, i) == Be16(t, i)
  {
    assert s[i] == s[i..i + 2][0] && s[i + 1] == s[i..i + 2][1];
    assert t[i] == t[i..i + 2][0] && t[i + 1] == t[i..i + 2][1];
  }

  lemma Be16Suffix(s: seq<u8>, off: nat, i: nat)
    requires off + i + 2 <= |s|
    ensures Be16(s[off..], i) == Be16(s, off + i)
  {}

  /** total_length counts from the header to the end of the frame, modulo 65536. */
  lemma TotalLengthField(e: Endian, ls: seq<Layer>, i: nat, n: nat, f: Frame)
    requires InFrame(e, ls, i, n, f) && ls[n].Ipv4?
    requires Untouched(ls, i, n, Offset(ls, n) + 2, Offset(ls, n) + 4)
    ensures Offset(ls, n) + 60 <= |f.buf|
    ensures var (g, off) := (Encode(e, ls, i, f).1, Offset(ls, n)); Be16(g.buf, off + 2) == Cut16(g.len - off)
  {
    hide Encode, Succeeds, Found, LengthOf, LeaveIpv4, Untouched, Begin, HdrLen, KindOf, Be16;
    BeginPlace(e, ls, i, n, f);
    var b, off := Begin(e, ls, i, n, f), Offset(ls, n);
    Ipv4Begun(e, ls, i, n, f);
    var r := Encode(e, ls, n, b).1;
    LeaveFields(e, Found(e, ls, n, b), KindOf(ls[n + 1]), Cut16(Encode(e, ls, i, f).1.len - off));
    Be16Suffix(r.buf, off, 2);
    SettledRange(e, ls, i, n, f, off + 2, off + 4);
    Be16Slice(r.buf, Encode(e, ls, i, f).1.buf, off + 2);
  }

  /** Any other byte of an IPv4 header but those of its checksum and of the protocol. */
  lemma HeaderByteLeft(e: Endian, ls: seq<Layer>, i: nat, n: nat, f: Frame, k: nat)
    requires InFrame(e, ls, i, n, f) && ls[n].Ipv4? && k < 20 && k !in {2, 3, 9, 10, 11}
    requires Untouched(ls, i, n + 1, Offset(ls, n) + k, Offset(ls, n) + k + 1)
    ensures Offset(ls, n) + 60 <= |f.buf|
    ensures Encode(e, ls, i, f).1.buf[Offset(ls, n) + k] == HeaderByte(ls, n, k)
  {
    hide Encode, Found, LengthOf, LeaveIpv4, Begin, HdrLen, KindOf, HeaderByte;
    BeginPlace(e, ls, i, n, f);
    var b, off := Begin(e, ls, i, n, f), Offset(ls, n);
    Ipv4Begun(e, ls, i, n, f);
    var s, r := Found(e, ls, n, b), Encode(e, ls, n, b).1;
    assert !Lands(ls, n, off + k);
    LeaveKeeps(e, s, KindOf(ls[n + 1]), Cut16(Encode(e, ls, i, f).1.len - off), k);
    FoundByte(e, ls, n, b, k);
    assert r.buf[off..][k] == r.buf[off + k];
    Settled(e, ls, i, n, f, off + k);
  }

  lemma ProtocolField(e: Endian, ls: seq<Layer>, i: nat, n: nat, f: Frame)
    requires InFrame(e, ls, i, n, f) && ls[n].Ipv4? && n + 1 < |ls| && L4(KindOf(ls[n + 1]))
    requires Untouched(ls, i, n, Offset(ls, n) + 9, Offset(ls, n) + 10)
    ensures Offset(ls, n) + 60 <= |f.buf|
    ensures Encode(e, ls, i, f).1.buf[Offset(ls, n) + 9] == ProtocolOf(KindOf(ls[n + 1]))
  {
    hide Encode, Succeeds, Found, LengthOf, LeaveIpv4, Begin, HdrLen, KindOf, Lands;
    BeginPlace(e, ls, i, n, f);
    var b, off := Begin(e, ls, i, n, f), Offset(ls, n);
    Ipv4Begun(e, ls, i, n, f);
    var r := Encode(e, ls, n, b).1;
    LeaveFields(e, Found(e, ls, n, b), KindOf(ls[n + 1]), Cut16(Encode(e, ls, i, f).1.len - off));
    assert r.buf[off..][9] == r.buf[off + 9];
    Settled(e, ls, i, n, f, off + 9);
  }

  /** Ports and length of a UDP header, which its second half writes. */
  lemma UdpFields(e: Endian, ls: seq<Layer>, i: nat, n: nat, f: Frame)
    requires InFrame(e, ls, i, n, f) && ls[n].Udp? && Untouched(ls, i, n, Offset(ls, n), Offset(ls, n) + 6)
    ensures n + 1 < |ls| && Offset(ls, n) + 8 <= |f.buf|
    ensures var (g, off) := (Encode(e, ls, i, f).1, Offset(ls, n));
      && (Be16(g.buf, off), Be16(g.buf, off + 2)) == Ports(ls[n], KindOf(ls[n + 1]))
      && Be16(g.buf, off + 4) == Cut16(g.len - off)
  {
    hide Encode, Enter, Leave, Succeeds, Untouched, KindOf, Be16, Ports;
    BeginPlace(e, ls, i, n, f);
    var b, off := Begin(e, ls, i, n, f), Offset(ls, n);
    Begun(e, ls, i, n, f);
    AtPlace(e, ls, n, b);
    Between(e, ls, n, b);
    UdpLeaves(e, ls[n], n, off, KindOf(ls[n + 1]), Encode(e, ls, n + 1, Enter(e, ls[n], n, b)).1);
    SettledRange(e, ls, i, n, f, off, off + 6);
    Be16Stretch(Encode(e, ls, n, b).1.buf, Encode(e, ls, i, f).1.buf, off, off + 6);
  }

  lemma Be16Stretch(s: seq<u8>, t: seq<u8>, lo: nat, hi: nat)
    requires lo <= hi <= |s| == |t| && s[lo..hi] == t[lo..hi]
    ensures forall i :: lo <= i && i + 2 <= hi ==> Be16(s, i) == Be16(t, i)
  {
    assert forall j :: lo <= j < hi ==> s[j] == s[lo..hi][j - lo] == t[j];
  }

  lemma UdpLeaves(e: Endian, l: Layer, i: nat, off: nat, kind: Kind, f: Frame)
    requires l.Udp? && Fits(f, off, 8)
    ensures var r := Leave(e, l, i, off, Typ(kind), f).1;
      (Be16(r.buf, off), Be16(r.buf, off + 2)) == Ports(l, kind) && Be16(r.buf, off + 4) == Cut16(f.len - off)
  {
    hide KindOf, Ports;
    var s := Leave(e, l, i, off, Typ(kind), f).1.buf;
    var (sport, dport) := Ports(l, kind);
    Be16Put(sport, s, off);
    Be16Put(dport, s, off + 2);
    Be16Put(Cut16(f.len - off), s, off + 4);
  }

  /** Ports, data offset, flags and window of a TCP header. */
  lemma TcpFields(e: Endian, ls: seq<Layer>, i: nat, n: nat, f: Frame)
    requires InFrame(e, ls, i, n, f) && ls[n].Tcp? && Untouched(ls, i, n, Offset(ls, n), Offset(ls, n) + 16)
    ensures n + 1 < |ls| && Offset(ls, n) + 20 <= |f.buf|
    ensures var (g, off) := (Encode(e, ls, i, f).1, Offset(ls, n));
      && (Be16(g.buf, off), Be16(g.buf, off + 2)) == Ports(ls[n], KindOf(ls[n + 1]))
      && Be16(g.buf, off + 12) == 0x5002 && Be16(g.buf, off + 14) == 8192
  {
    hide Encode, Enter, Leave, Succeeds, Untouched, KindOf, Be16, Ports;
    BeginPlace(e, ls, i, n, f);
    var b, off := Begin(e, ls, i, n, f), Offset(ls, n);
    Begun(e, ls, i, n, f);
    AtPlace(e, ls, n, b);
    Between(e, ls, n, b);
    TcpWrites(e, ls[n], n, off, KindOf(ls[n + 1]), Encode(e, ls, n + 1, Enter(e, ls[n], n, b)).1);
    SettledRange(e, ls, i, n, f, off, off + 16);
    Be16Stretch(Encode(e, ls, n, b).1.buf, Encode(e, ls, i, f).1.buf, off, off + 16);
  }

  lemma TcpWrites(e: Endian, l: Layer, i: nat, off: nat, kind: Kind, f: Frame)
    requires l.Tcp? && Fits(f, off, 20)
    ensures var r := Leave(e, l, i, off, Typ(kind), f).1;
      && (Be16(r.buf, off), Be16(r.buf, off + 2)) == Ports(l, kind)
      && Be16(r.buf, off + 12) == 0x5002 && Be16(r.buf, off + 14) == 8192
  {
    hide KindOf, Ports, Be16, BeBytes, LeaveTcp;
    var s := Leave(e, l, i, off, Typ(kind), f).1.buf;
    var (sport, dport) := Ports(l, kind);
    assert s == LeaveTcp(l, off, kind, f);
    TcpStored(l, off, kind, f);
    Be16Put(sport, s, off);
    Be16Put(dport, s, off + 2);
    Be16Put(0x5002, s, off + 12);
    Be16Put(8192, s, off + 14);
  }

  lemma TcpStored(l: Layer, off: nat, kind: Kind, f: Frame)
    requires l.Tcp? && Fits(f, off, 20)
    ensures var (s, ports) := (LeaveTcp(l, off, kind, f), Ports(l, kind));
      && s[off] == BeBytes(ports.0)[0] && s[off + 1] == BeBytes(ports.0)[1]
      && s[off + 2] == BeBytes(ports.1)[0] && s[off + 3] == BeBytes(ports.1)[1]
      && s[off + 12] == BeBytes(0x5002)[0] && s[off + 13] == BeBytes(0x5002)[1]
      && s[off + 14] == BeBytes(8192)[0] && s[off + 15] == BeBytes(8192)[1]
  {
    hide Ports, Be16;
  }

  /** Byte k of the tag of layer n: the protocol is written on the way out, unless it stays 0. */
  function TagByte(ls: seq<Layer>, n: nat, k: nat): u8
    requires n + 1 < |ls| && ls[n].Vlan? && k < 4
  {
    var proto := VlanProtoOf(KindOf(ls[n + 1]));
    if k >= 2 && proto != 0 then BeBytes(proto)[k - 2]
    else Seen(ls, n + 1, Offset(ls, n) + 4, Offset(ls, n) + k, (BeBytes(Tci(ls[n])) + [0, 0])[k])
  }

  lemma TagBytes(e: Endian, ls: seq<Layer>, i: nat, n: nat, f: Frame, k: nat)
    requires InFrame(e, ls, i, n, f) && ls[n].Vlan? && k < 4
    requires Untouched(ls, i, n, Offset(ls, n) + k, Offset(ls, n) + k + 1)
    ensures n + 1 < |ls| && Offset(ls, n) + 4 <= |f.buf|
    ensures Encode(e, ls, i, f).1.buf[Offset(ls, n) + k] == TagByte(ls, n, k)
  {
    hide Encode, Enter, Leave, Succeeds, Lands, KindOf, Seen, Tame, Small, VlanProtoOf, Tci;
    BeginPlace(e, ls, i, n, f);
    var b, off := Begin(e, ls, i, n, f), Offset(ls, n);
    Begun(e, ls, i, n, f);
    AtPlace(e, ls, n, b);
    Between(e, ls, n, b);
    var g := Enter(e, ls[n], n, b);
    var h := Encode(e, ls, n + 1, g).1;
    EncodeSeen(e, ls, n + 1, g, off + k);
    EnterVlanAt(e, ls[n], n, b, k);
    VlanLeaves(e, ls[n], n, off, KindOf(ls[n + 1]), h, k);
    Settled(e, ls, i, n, f, off + k);
  }

  lemma EnterVlanAt(e: Endian, l: Layer, i: nat, f: Frame, k: nat)
    requires l.Vlan? && HeaderFits(l, f.len, f) && k < 4
    ensures Enter(e, l, i, f).buf[f.len + k] == (BeBytes(Tci(l)) + [0, 0])[k]
  {
    hide Tci;
  }

  lemma VlanLeaves(e: Endian, l: Layer, i: nat, off: nat, kind: Kind, f: Frame, k: nat)
    requires l.Vlan? && Fits(f, off, 4) && k < 4 && Leave(e, l, i, off, Typ(kind), f).0.Typ?
    ensures Leave(e, l, i, off, Typ(kind), f).1.buf[off + k]
         == if k >= 2 && VlanProtoOf(kind) != 0 then BeBytes(VlanProtoOf(kind))[k - 2] else f.buf[off + k]
  {
    hide VlanProtoOf, KindOf;
  }
}
