/**
 * The frame encoder of lib/core/encode.c as it works: one method a layer, each writing its header into the
 * buffer, recursing into the next layer and then patching what it wrote.
 */
module Encoder {
  import opened Gf2
  import opened Checksum
  import opened Layers
  import opened LayersTheory

  class FrameGen {
    const e: Endian
    const buf: array<u8>
    var dataLen: u16
    var tscOff: u16
    var lengths: map<nat, u16>
    var opts: seq<Layer>

    constructor (e: Endian, storage: array<u8>)
      ensures this.e == e && buf == storage && dataLen == 0 && opts == []
      ensures View() == Frame(storage[..], 0, map[], 0)
    {
      this.e, buf, dataLen, tscOff, lengths, opts := e, storage, 0, 0, map[], [];
    }

    ghost function View(): Frame
      reads this, buf
    {
      Frame(buf[..], dataLen, lengths, tscOff)
    }

    // -------------------------------------------------------------- the buffer

    method Write(off: nat, b: seq<u8>)
      requires off + |b| <= buf.Length
      modifies buf
      ensures buf[..] == Put(old(buf[..]), off, b)
    {
      for k := 0 to |b|
        invariant forall j :: 0 <= j < buf.Length ==>
          buf[j] == if off <= j < off + k then b[j - off] else old(buf[j])
      {
        buf[off + k] := b[k];
      }
    }

    method Memset(off: nat, b: u8, n: nat)
      requires off + n <= buf.Length
      modifies buf
      ensures buf[..] == Put(old(buf[..]), off, Fill(n, b))
    {
      for k := 0 to n
        invariant forall j :: 0 <= j < buf.Length ==>
          buf[j] == if off <= j < off + k then b else old(buf[j])
      {
        buf[off + k] := b;
      }
    }

    method Write16(off: nat, w: u16)
      requires off + 2 <= buf.Length
      modifies buf
      ensures buf[..] == Put16(old(buf[..]), off, w)
    {
      Write(off, BeBytes(w));
    }

    // -------------------------------------------------------------- first halves

    method StartEther(l: Layer, idx: nat)
      requires l.Ether? && 14 <= buf.Length
      modifies this`dataLen, this`lengths, buf
      ensures View() == Enter(e, l, idx, old(View()))
    {
      ghost var f := View();
      hide Enter, Put;
      Write(0, [0xff, 0xff, 0xff, 0xff, 0xff, 0xff]);
      Write(6, [0, 0, 0, 0, 0, 0]);
      lengths := lengths[idx := 14];
      dataLen := Cut16(dataLen + 14);
      if l.dst.Some? {
        Write(0, l.dst.value);
      }
      if l.src.Some? {
        Write(6, l.src.value);
      }
      EtherWrites(f.buf, l);
      EnterEther(e, l, idx, f);
    }

    method StartVlan(l: Layer, idx: nat)
      requires l.Vlan? && dataLen + 4 <= buf.Length
      modifies this`dataLen, this`lengths, buf
      ensures View() == Enter(e, l, idx, old(View()))
    {
      hide Tci, Put, BeBytes, Enter;
      ghost var f := View();
      var off: nat := dataLen;
      lengths := lengths[idx := 4];
      dataLen := Cut16(dataLen + 4);
      Write16(off, Tci(l));
      Write16(off + 2, 0);
      PutAfter(f.buf, off, BeBytes(Tci(l)), BeBytes(0));
      EnterVlan(e, l, idx, f);
    }

    method StartIpv4(l: Layer, idx: nat)
      requires l.Ipv4? && dataLen + 20 <= buf.Length
      modifies this`dataLen, buf
      ensures View() == Enter(e, l, idx, old(View()))
    {
      hide Ipv4Header, Enter, Put;
      ghost var f := View();
      FillIpv4(l, dataLen);
      dataLen := Cut16(dataLen + 20);
      EnterIpv4(e, l, idx, f);
    }

    method FillIpv4(l: Layer, off: nat)
      requires l.Ipv4? && off + 20 <= buf.Length
      modifies buf
      ensures buf[..] == Put(old(buf[..]), off, Ipv4Header(l))
    {
      hide Put, Fill, BeBytes, Ipv4Header;
      ghost var s := buf[..];
      Memset(off, 0, 20);
      Write(off, [0x45]);
      Write16(off + 4, 1);
      Write(off + 8, [64]);
      Write(off + 16, Default(l.ipDst, [192, 10, 0, 2]));
      Write(off + 12, Default(l.ipSrc, [192, 10, 0, 1]));
      Ipv4Writes(s, off, l);
    }

    method StartUdp(l: Layer, idx: nat)
      requires l.Udp? && dataLen + 8 <= buf.Length
      modifies this`dataLen, buf
      ensures View() == Enter(e, l, idx, old(View()))
    {
      Memset(dataLen, 0, 8);
      dataLen := Cut16(dataLen + 8);
    }

    method StartTcp(l: Layer, idx: nat)
      requires l.Tcp? && dataLen + 20 <= buf.Length
      modifies this`dataLen, buf
      ensures View() == Enter(e, l, idx, old(View()))
    {
      Memset(dataLen, 0, 20);
      dataLen := Cut16(dataLen + 20);
    }

    method StartVxlan(l: Layer, idx: nat)
      requires l.Vxlan? && dataLen + 8 <= buf.Length
      modifies this`dataLen, buf
      ensures View() == Enter(e, l, idx, old(View()))
    {
      hide Put, Fill, Enter;
      ghost var f := View();
      var off: nat := dataLen;
      Memset(off, 0, 8);
      Write(off + 4, [0, 0, 3, 0xe8]);
      dataLen := Cut16(dataLen + 8);
      PutOver(f.buf, off, Fill(8, 0), 4, [0, 0, 3, 0xe8], [0, 0, 0, 0] + [0, 0, 3, 0xe8]);
      EnterVxlan(e, l, idx, f);
    }

    method StartTsc(l: Layer, idx: nat)
      requires l.Tsc? && dataLen + 16 <= buf.Length
      modifies this`dataLen, this`tscOff, buf
      ensures View() == Enter(e, l, idx, old(View()))
    {
      hide TscStamp;
      ghost var f := View();
      var off: nat := dataLen;
      Memset(off, 0, 16);
      tscOff := off;
      Write(off, TscStamp(e));
      dataLen := Cut16(dataLen + 16);
      PutOver(f.buf, off, Fill(16, 0), 0, TscStamp(e), HeaderBytes(e, l));
    }

    /** IPv6, Echo and Raw leave the bytes of their header as they are. */
    method StartSkip(l: Layer, idx: nat)
      requires l.Ipv6? || l.Echo? || l.Raw?
      modifies this`dataLen, this`lengths
      ensures View() == Enter(e, l, idx, old(View()))
    {
      if l.Ipv6? {
        lengths := lengths[idx := 40];
      }
      dataLen := Cut16(dataLen + HeaderSize(l));
    }

    method Start(l: Layer, idx: nat)
      requires Plain(l) && HeaderFits(l, dataLen, View())
      modifies this`dataLen, this`tscOff, this`lengths, buf
      ensures View() == Enter(e, l, idx, old(View()))
    {
      hide Enter;
      match l
      case Ether(_, _) => StartEther(l, idx);
      case Vlan(_, _, _, _) => StartVlan(l, idx);
      case Ipv4(_, _) => StartIpv4(l, idx);
      case Udp(_, _) => StartUdp(l, idx);
      case Tcp(_, _) => StartTcp(l, idx);
      case Vxlan => StartVxlan(l, idx);
      case Tsc => StartTsc(l, idx);
      case Ipv6 => StartSkip(l, idx);
      case Echo => StartSkip(l, idx);
      case Raw => StartSkip(l, idx);
    }

    // -------------------------------------------------------------- second halves

    method FinishVlan(l: Layer, idx: nat, off: nat, kind: Kind) returns (r: Ret)
      requires l.Vlan? && off + 4 <= buf.Length
      modifies buf
      ensures (r, View()) == Leave(e, l, idx, off, Typ(kind), old(View()))
    {
      match kind {
        case Dot1QType =>
          if l.ad {
            Write16(off + 2, TYPE_VLAN);
          } else {
            return Error;
          }
        case Ipv4Type => Write16(off + 2, TYPE_IPV4);
        case Dot1AdType => Write16(off + 2, TYPE_QINQ);
        case _ =>
      }
      return Typ(if l.ad then Dot1AdType else Dot1QType);
    }

    method FinishUdp(l: Layer, idx: nat, off: nat, kind: Kind)
      requires l.Udp? && off + 8 <= buf.Length
      modifies this`lengths, buf
      ensures (Typ(UdpType), View()) == Leave(e, l, idx, off, Typ(kind), old(View()))
    {
      ghost var f := View();
      var (sport, dport) := Ports(l, kind);
      hide Ports, KindOf, Put, BeBytes, Leave;
      var n := Cut16(dataLen - off);
      Write16(off + 2, dport);
      Write16(off, sport);
      PutJoin(f.buf, off, BeBytes(sport), BeBytes(dport));
      Write16(off + 4, n);
      PutAfter(f.buf, off, BeBytes(sport) + BeBytes(dport), BeBytes(n));
      lengths := lengths[idx := n];
      LeaveUdpIs(e, l, idx, off, kind, f);
    }

    method FinishTcp(l: Layer, idx: nat, off: nat, kind: Kind)
      requires l.Tcp? && off + 20 <= buf.Length
      modifies this`lengths, buf
      ensures (Typ(TcpType), View()) == Leave(e, l, idx, off, Typ(kind), old(View()))
    {
      ghost var f := View();
      var (sport, dport) := Ports(l, kind);
      hide Ports, Put, KindOf, LeaveUdp, LeaveIpv4;
      lengths := lengths[idx := 20];
      Write(off + 12, [0x50]);
      Write16(off + 14, 8192);
      Write(off + 13, [2]);
      ghost var s := buf[..];
      TcpWrites(f.buf, off);
      Write16(off + 2, dport);
      Write16(off, sport);
      PutJoin(s, off, BeBytes(sport), BeBytes(dport));
    }

    /** Writes inside the storage from off on. */
    method WriteIn(off: nat, at: nat, b: seq<u8>)
      requires off + at + |b| <= buf.Length
      modifies buf
      ensures buf[..off] == old(buf[..off])
      ensures buf[off..] == Put(old(buf[off..]), at, b)
    {
      ghost var s := buf[..];
      Write(off + at, b);
      PutSuffix(s, off, at, b);
    }

    /** udp->dgram_cksum or tcp->cksum; false when it is not in storage. */
    method FinishL4(off: nat, kind: Kind) returns (ok: bool)
      requires off + 20 <= buf.Length && (kind == UdpType || kind == TcpType)
      modifies buf
      ensures ok <==> PatchL4(e, old(buf[off..]), kind).Some?
      ensures ok ==> buf[..off] == old(buf[..off]) && buf[off..] == PatchL4(e, old(buf[off..]), kind).value
    {
      hide UdpTcpCksum, Stored, Covered;
      var l4 := HdrLen(buf[off..]);
      var at := l4 + CksumField(kind);
      if off + at + 2 > buf.Length {
        return false;
      }
      if kind == UdpType {
        WriteIn(off, at, [0, 0]);
      }
      if !Covered(buf[off..], buf[off..][l4..]) {
        return false;
      }
      var cksum := UdpTcpCksum(e, buf[off..], buf[off..][l4..]);
      WriteIn(off, at, Stored(e, cksum));
      return true;
    }

    method FinishHeader(off: nat) returns (ok: bool)
      requires off + 20 <= buf.Length
      modifies buf
      ensures ok <==> PatchHeader(e, old(buf[off..])).Some?
      ensures ok ==> buf[..off] == old(buf[..off]) && buf[off..] == PatchHeader(e, old(buf[off..])).value
    {
      hide Ipv4Cksum, Stored;
      if buf.Length - off < HdrLen(buf[off..]) {
        return false;
      }
      var cksum := Ipv4Cksum(e, buf[off..]);
      WriteIn(off, 10, Stored(e, cksum));
      return true;
    }

    /** After a fault nothing is promised about the frame. */
    ghost predicate Agrees(r: Ret, result: (Ret, Frame))
      reads this, buf
    {
      r == result.0 && (r != Fault ==> View() == result.1)
    }

    /** The fields of the header and the two checksums; false when something is not in storage. */
    method FinishFields(off: nat, kind: Kind, total: u16) returns (ok: bool)
      requires off + 20 <= buf.Length
      modifies buf
      ensures ok <==> LeaveIpv4(e, old(buf[off..]), kind, total).Some?
      ensures ok ==> buf[..off] == old(buf[..off]) && buf[off..] == LeaveIpv4(e, old(buf[off..]), kind, total).value
    {
      hide PatchL4, PatchHeader;
      WriteIn(off, 2, BeBytes(total));
      if kind == UdpType || kind == TcpType {
        WriteIn(off, 9, [if kind == UdpType then IPPROTO_UDP else IPPROTO_TCP]);
        ok := FinishL4(off, kind);
        if !ok {
          return;
        }
      }
      ok := FinishHeader(off);
    }

    method FinishIpv4(l: Layer, idx: nat, off: nat, next: Ret) returns (r: Ret)
      requires l.Ipv4? && off + 20 <= buf.Length && next != Fault
      modifies this`lengths, buf
      ensures Agrees(r, Leave(e, l, idx, off, next, old(View())))
    {
      hide Leave, LeaveIpv4;
      ghost var f := View();
      LeaveIpv4Whole(e, l, idx, off, next, f);
      var total := Cut16(dataLen - off);
      lengths := lengths[idx := total];
      if next == Error {
        Write16(off + 2, total);
        return Error;
      }
      var ok := FinishFields(off, next.kind, total);
      if !ok {
        return Fault;
      }
      assert buf[..] == buf[..off] + buf[off..];
      return Typ(Ipv4Type);
    }

    method Finish(l: Layer, idx: nat, off: nat, next: Ret) returns (r: Ret)
      requires Plain(l) && HeaderFits(l, off, View())
      modifies this`lengths, buf
      ensures Agrees(r, Leave(e, l, idx, off, next, old(View())))
    {
      hide Leave;
      ghost var f := View();
      LeaveErrors(e, l, idx, off, next, f);
      if next == Fault || (next == Error && !l.Ipv4?) {
        return next;
      }
      match l
      case Ether(_, _) =>
        Write16(12, EtherTypeOf(next.kind));
        r := Typ(EtherType);
      case Vlan(_, _, _, _) => r := FinishVlan(l, idx, off, next.kind);
      case Ipv4(_, _) => r := FinishIpv4(l, idx, off, next);
      case Udp(_, _) =>
        FinishUdp(l, idx, off, next.kind);
        r := Typ(UdpType);
      case Tcp(_, _) =>
        FinishTcp(l, idx, off, next.kind);
        r := Typ(TcpType);
      case Vxlan =>
        Write(off, [8, 0, 0, if next.kind == EtherType then 3 else 0]);
        r := Typ(VxlanType);
      case Ipv6 => r := Typ(Ipv6Type);
      case Echo => r := Typ(EchoType);
      case Tsc => r := Typ(TscType);
      case Raw => r := Typ(RawType);
    }

    // -------------------------------------------------------------- the recursion

    /** The layer at idx and every layer inside it. */
    method NextLayer(idx: nat) returns (r: Ret)
      modifies this`dataLen, this`tscOff, this`lengths, buf
      ensures Agrees(r, Encode(e, opts, idx, old(View())))
      decreases |opts| - idx, 1
    {
      hide Encode;
      if idx >= |opts| {
        NoLayer(e, opts, idx, View());
        return Error;
      }
      match opts[idx]
      case Rejected =>
        NoLayer(e, opts, idx, View());
        r := Error;
      case Done =>
        DoneEnds(e, opts, idx, View());
        if dataLen < ETH_ZLEN {
          dataLen := ETH_ZLEN;
        }
        if dataLen > ETH_FRAME_LEN {
          dataLen := ETH_FRAME_LEN;
        }
        r := Typ(DoneType);
      case Payload(_, _) => r := EncodePayload(idx);
      case Ether(_, _) => r := EncodeHeader(idx);
      case Vlan(_, _, _, _) => r := EncodeHeader(idx);
      case Ipv4(_, _) => r := EncodeHeader(idx);
      case Ipv6 => r := EncodeHeader(idx);
      case Udp(_, _) => r := EncodeHeader(idx);
      case Tcp(_, _) => r := EncodeHeader(idx);
      case Vxlan => r := EncodeHeader(idx);
      case Echo => r := EncodeHeader(idx);
      case Tsc => r := EncodeHeader(idx);
      case Raw => r := EncodeHeader(idx);
    }

    /** The frame of every header layer: its first half, the layers inside, its second half. */
    method EncodeHeader(idx: nat) returns (r: Ret)
      requires idx < |opts| && Plain(opts[idx])
      modifies this`dataLen, this`tscOff, this`lengths, buf
      ensures Agrees(r, Encode(e, opts, idx, old(View())))
      decreases |opts| - idx, 0
    {
      hide Encode, Enter, Leave;
      ghost var f := View();
      EncodePlain(e, opts, idx, f);
      var l, off := opts[idx], dataLen;
      if !(l.Ipv6? || l.Echo? || l.Raw?) && (if l.Ether? then 0 else off) + HeaderSize(l) > buf.Length {
        return Fault;
      }
      Start(l, idx);
      var next := NextLayer(idx + 1);
      if next == Fault {
        LeaveErrors(e, l, idx, off, next, Encode(e, opts, idx + 1, Enter(e, l, idx, f)).1);
        return Fault;
      }
      r := Finish(l, idx, off, next);
    }

    method EncodePayload(idx: nat) returns (r: Ret)
      requires idx < |opts| && opts[idx].Payload?
      modifies this`dataLen, this`tscOff, this`lengths, buf
      ensures Agrees(r, Encode(e, opts, idx, old(View())))
      decreases |opts| - idx, 0
    {
      hide Encode, EnterPayload;
      EncodePayloadIs(e, opts, idx, View());
      var l := opts[idx];
      var pktlen := PacketLength(l.sizing, dataLen);
      var ok := StartPayload(l, pktlen);
      if !ok {
        return Fault;
      }
      var next := NextLayer(idx + 1);
      r := FinishPayload(l, pktlen, next);
    }

    method StartPayload(l: Layer, pktlen: int) returns (ok: bool)
      requires l.Payload? && pktlen == PacketLength(l.sizing, dataLen)
      modifies this`dataLen, buf
      ensures ok <==> EnterPayload(l, old(View())).Some?
      ensures ok ==> View() == EnterPayload(l, old(View())).value
    {
      var plen: int := dataLen;
      if pktlen > plen && pktlen > buf.Length {
        return false;
      }
      dataLen := Cut16(pktlen);
      if pktlen > plen {
        Memset(plen, l.fill % 0x100, pktlen - plen);
      }
      return true;
    }

    method FinishPayload(l: Layer, pktlen: int, next: Ret) returns (r: Ret)
      requires l.Payload?
      modifies buf
      ensures Agrees(r, LeavePayload(l, pktlen, next, old(View())))
    {
      if !next.Typ? {
        return next;
      }
      if dataLen != pktlen && l.fill != 0 {
        if pktlen < 0 || pktlen > dataLen || dataLen > buf.Length {
          return Fault;
        }
        Memset(pktlen, l.fill % 0x100, dataLen - pktlen);
      }
      return Typ(PayloadType);
    }

    /** _encode_frame: the layers of the text, closed by Done. */
    method EncodeFrame(layers: seq<Layer>) returns (r: Ret)
      requires 0 < |layers| <= 31
      modifies this, buf
      ensures opts == layers + [Done]
      ensures Agrees(r, Encode(e, layers + [Done], 0, old(View()).(lengths := map[])))
    {
      opts := layers + [Done];
      lengths := map[];
      r := NextLayer(0);
    }
  }

  lemma NoLayer(e: Endian, ls: seq<Layer>, i: nat, f: Frame)
    requires i >= |ls| || ls[i].Rejected?
    ensures Encode(e, ls, i, f) == (Error, f)
  {}

  lemma EncodePayloadIs(e: Endian, ls: seq<Layer>, i: nat, f: Frame)
    requires i < |ls| && ls[i].Payload?
    ensures Encode(e, ls, i, f)
         == var g := EnterPayload(ls[i], f);
            if g.None? then (Fault, f)
            else
              var (next, h) := Encode(e, ls, i + 1, g.value);
              LeavePayload(ls[i], PacketLength(ls[i].sizing, f.len), next, h)
  {
    hide EnterPayload, LeavePayload, PacketLength;
  }

  /** How a layer passes on what goes wrong inside it, and what it does otherwise. */
  lemma LeaveErrors(e: Endian, l: Layer, i: nat, off: nat, next: Ret, f: Frame)
    requires Plain(l) && HeaderFits(l, off, f)
    ensures next == Fault || (next == Error && !l.Ipv4?) ==> Leave(e, l, i, off, next, f) == (next, f)
    ensures next.Typ? && l.Ether? ==>
      Leave(e, l, i, off, next, f) == (Typ(EtherType), f.(buf := Put16(f.buf, 12, EtherTypeOf(next.kind))))
    ensures next.Typ? && l.Vxlan? ==>
      Leave(e, l, i, off, next, f) == (Typ(VxlanType), f.(buf := LeaveVxlan(off, next.kind, f)))
    ensures next.Typ? && (l.Ipv6? || l.Echo? || l.Tsc? || l.Raw?) ==>
      Leave(e, l, i, off, next, f) == (Typ(KindOf(l)), f)
  {
    hide LeaveIpv4, LeaveUdp, LeaveTcp;
  }

  lemma PutSuffix(s: seq<u8>, off: nat, at: nat, b: seq<u8>)
    requires off + at + |b| <= |s|
    ensures Put(s, off + at, b)[..off] == s[..off]
    ensures Put(s, off + at, b)[off..] == Put(s[off..], at, b)
  {}

  lemma PutJoin(s: seq<u8>, off: nat, a: seq<u8>, b: seq<u8>)
    requires off + |a| + |b| <= |s|
    ensures Put(Put(s, off + |a|, b), off, a) == Put(s, off, a + b)
  {}

  lemma PutAfter(s: seq<u8>, off: nat, a: seq<u8>, b: seq<u8>)
    requires off + |a| + |b| <= |s|
    ensures Put(Put(s, off, a), off + |a|, b) == Put(s, off, a + b)
  {}

  lemma LeaveUdpIs(e: Endian, l: Layer, i: nat, off: nat, kind: Kind, f: Frame)
    requires l.Udp? && Fits(f, off, 8)
    ensures Leave(e, l, i, off, Typ(kind), f)
         == (var (sport, dport) := Ports(l, kind);
             var n := Cut16(f.len - off);
             (Typ(UdpType), f.(buf := Put(f.buf, off, BeBytes(sport) + BeBytes(dport) + BeBytes(n)),
                               lengths := f.lengths[i := n])))
  {
    hide Put, BeBytes, Ports;
  }

  lemma LeaveIpv4Whole(e: Endian, l: Layer, i: nat, off: nat, next: Ret, f: Frame)
    requires l.Ipv4? && Fits(f, off, 20) && next != Fault
    ensures
      var total := Cut16(f.len - off);
      var t := LeaveIpv4(e, f.buf[off..], if next.Typ? then next.kind else DoneType, total);
      Leave(e, l, i, off, next, f)
        == if next == Error then (Error, f.(buf := Put16(f.buf, off + 2, total), lengths := f.lengths[i := total]))
           else if t.None? then (Fault, f)
           else (Typ(Ipv4Type), f.(buf := f.buf[..off] + t.value, lengths := f.lengths[i := total]))
  {
    hide LeaveIpv4;
  }

  lemma TcpWrites(s: seq<u8>, off: nat)
    requires off + 20 <= |s|
    ensures Put(Put16(Put(s, off + 12, [0x50]), off + 14, 8192), off + 13, [2])
         == Put(s, off + 12, [0x50, 2] + BeBytes(8192))
  {}

  /** Writing over a part of what was just written. */
  lemma PutOver(s: seq<u8>, off: nat, a: seq<u8>, i: nat, b: seq<u8>, c: seq<u8>)
    requires off + |a| <= |s| && i + |b| <= |a| == |c|
    requires forall k :: 0 <= k < |a| ==> c[k] == if i <= k < i + |b| then b[k - i] else a[k]
    ensures Put(Put(s, off, a), off + i, b) == Put(s, off, c)
  {}

  lemma EnterVlan(e: Endian, l: Layer, i: nat, f: Frame)
    requires l.Vlan? && Fits(f, f.len, 4)
    ensures Enter(e, l, i, f)
         == Frame(Put(f.buf, f.len, BeBytes(Tci(l)) + BeBytes(0)), Cut16(f.len + 4), f.lengths[i := 4], f.tscOff)
  {
    hide Tci, Put;
    assert BeBytes(0) == [0, 0];
  }

  lemma EnterVxlan(e: Endian, l: Layer, i: nat, f: Frame)
    requires l.Vxlan? && Fits(f, f.len, 8)
    ensures Enter(e, l, i, f)
         == Frame(Put(f.buf, f.len, [0, 0, 0, 0] + [0, 0, 3, 0xe8]), Cut16(f.len + 8), f.lengths, f.tscOff)
  {
    hide Put;
  }

  lemma EnterEther(e: Endian, l: Layer, i: nat, f: Frame)
    requires l.Ether? && Fits(f, 0, 14)
    ensures Enter(e, l, i, f)
         == Frame(Put(f.buf, 0, DstOf(l) + SrcOf(l)), Cut16(f.len + 14), f.lengths[i := 14], f.tscOff)
  {
    hide DstOf, SrcOf, Put;
  }

  /** Both addresses, first the defaults and then those given. */
  lemma EtherWrites(s: seq<u8>, l: Layer)
    requires l.Ether? && 14 <= |s|
    ensures
      var s1 := Put(Put(s, 0, [0xff, 0xff, 0xff, 0xff, 0xff, 0xff]), 6, [0, 0, 0, 0, 0, 0]);
      var s2 := if l.dst.Some? then Put(s1, 0, l.dst.value) else s1;
      var s3 := if l.src.Some? then Put(s2, 6, l.src.value) else s2;
      s3 == Put(s, 0, DstOf(l) + SrcOf(l))
  {
    var ones: seq<u8>, zeros: seq<u8> := [0xff, 0xff, 0xff, 0xff, 0xff, 0xff], [0, 0, 0, 0, 0, 0];
    hide Put;
    PutAfter(s, 0, ones, zeros);
    if l.dst.Some? {
      PutOver(s, 0, ones + zeros, 0, l.dst.value, l.dst.value + zeros);
    }
    if l.src.Some? {
      PutOver(s, 0, DstOf(l) + zeros, 6, l.src.value, DstOf(l) + l.src.value);
    }
  }

  lemma EnterIpv4(e: Endian, l: Layer, i: nat, f: Frame)
    requires l.Ipv4? && Fits(f, f.len, 20)
    ensures Enter(e, l, i, f) == Frame(Put(f.buf, f.len, Ipv4Header(l)), Cut16(f.len + 20), f.lengths, f.tscOff)
  {
    hide Ipv4Header;
  }

  lemma Ipv4Fields(l: Layer)
    requires l.Ipv4?
    ensures
      var h2 := Put16(Put(Fill(20, 0), 0, [0x45]), 4, 1);
      var h4 := Put(Put(h2, 8, [64]), 16, Default(l.ipDst, [192, 10, 0, 2]));
      Put(h4, 12, Default(l.ipSrc, [192, 10, 0, 1])) == Ipv4Header(l)
  {}

  /** The fields of the IPv4 header, one after another. */
  lemma Ipv4Writes(s: seq<u8>, off: nat, l: Layer)
    requires l.Ipv4? && off + 20 <= |s|
    ensures
      var s0 := Put(s, off, Fill(20, 0));
      var s1 := Put(s0, off, [0x45]);
      var s2 := Put16(s1, off + 4, 1);
      var s3 := Put(s2, off + 8, [64]);
      var s4 := Put(s3, off + 16, Default(l.ipDst, [192, 10, 0, 2]));
      Put(s4, off + 12, Default(l.ipSrc, [192, 10, 0, 1])) == Put(s, off, Ipv4Header(l))
  {
    Ipv4Fields(l);
    hide Put, Put16, BeBytes, Fill, Ipv4Header, Default;
    var h0 := Fill(20, 0);
    var h1 := Put(h0, 0, [0x45]);
    var h2 := Put16(h1, 4, 1);
    var h3 := Put(h2, 8, [64]);
    var h4 := Put(h3, 16, Default(l.ipDst, [192, 10, 0, 2]));
    var h5 := Put(h4, 12, Default(l.ipSrc, [192, 10, 0, 1]));
    PutOver(s, off, h0, 0, [0x45], h1);
    PutOver(s, off, h1, 4, BeBytes(1), h2);
    PutOver(s, off, h2, 8, [64], h3);
    PutOver(s, off, h3, 16, Default(l.ipDst, [192, 10, 0, 2]), h4);
    PutOver(s, off, h4, 12, Default(l.ipSrc, [192, 10, 0, 1]), h5);
  }
}
