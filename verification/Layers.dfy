/**
 * The frame encoder of lib/core/encode.c, as a function of the layers and of the frame.
 *
 * A layer has a first half, which writes a header and advances the length, and a second half, which runs
 * after the layers inside it and patches the header.
 */
module Layers {
  import opened Gf2
  import opened Checksum
  import opened Options

  type Mac = s: seq<u8> | |s| == 6 witness [0, 0, 0, 0, 0, 0]
  type Ip = s: seq<u8> | |s| == 4 witness [0, 0, 0, 0]

  /** What a Payload layer does to the length of the frame. */
  datatype Sizing = Keep | Size(size: int) | Append(append: int)

  /** A layer with its options; None where the option is not given. */
  datatype Layer =
    | Ether(dst: Option<Mac>, src: Option<Mac>)
    | Vlan(ad: bool, vid: Option<int>, prio: Option<int>, cfi: Option<int>)
    | Ipv4(ipDst: Option<Ip>, ipSrc: Option<Ip>)
    | Ipv6
    | Udp(dport: Option<int>, sport: Option<int>)
    | Tcp(dport: Option<int>, sport: Option<int>)
    | Vxlan
    | Echo
    | Tsc
    | Raw
    | Payload(sizing: Sizing, fill: int)
    | Done
    | Rejected  // no such layer, or options it does not take

  /** What a layer function returns: the type of the layer, or the error type. */
  datatype Kind = EtherType | Dot1QType | Dot1AdType | Ipv4Type | Ipv6Type | UdpType | TcpType | VxlanType
                | EchoType | TscType | RawType | PayloadType | DoneType

  /** Fault is a write or read outside the storage of the frame, which the source does not guard against. */
  datatype Ret = Typ(kind: Kind) | Error | Fault

  datatype Frame = Frame(buf: seq<u8>, len: u16, lengths: map<nat, u16>, tscOff: u16)

  const ETH_ZLEN: nat := 60
  const ETH_FRAME_LEN: nat := 1514
  const ETHER_MIN_LEN: int := 64
  const ETHER_MAX_LEN: int := 1518
  const ETHER_CRC_LEN: int := 4

  const TYPE_IPV4: u16 := 0x0800
  const TYPE_VLAN: u16 := 0x8100
  const TYPE_QINQ: u16 := 0x88a8
  const TYPE_OTHER: u16 := 0x9000
  const VXLAN_PORT: u16 := 4789

  function Cut16(x: int): u16 { x % 0x1_0000 }

  /** s with b written at off. */
  function Put(s: seq<u8>, off: nat, b: seq<u8>): (t: seq<u8>)
    requires off + |b| <= |s|
    ensures |t| == |s|
    ensures forall k :: 0 <= k < |s| ==> t[k] == if off <= k < off + |b| then b[k - off] else s[k]
  {
    s[..off] + b + s[off + |b|..]
  }

  function Fill(n: nat, b: u8): (s: seq<u8>)
    ensures |s| == n && forall k :: 0 <= k < n ==> s[k] == b
  {
    seq(n, _ => b)
  }

  function Default<T>(o: Option<T>, d: T): T {
    if o.Some? then o.value else d
  }

  // ---------------------------------------------------------------- first halves

  /** The bytes a layer occupies. */
  function HeaderSize(l: Layer): nat {
    match l
    case Ether(_, _) => 14
    case Vlan(_, _, _, _) => 4
    case Ipv4(_, _) => 20
    case Ipv6 => 40
    case Udp(_, _) => 8
    case Tcp(_, _) => 20
    case Vxlan => 8
    case Echo => 20
    case Tsc => 16
    case Raw => 20
    case _ => 0
  }

  /** The tag control word: the three fields are or-ed, and a priority that is not given is the plain number 7. */
  function Tci(l: Layer): u16
    requires l.Vlan?
  {
    var vid := Default(l.vid, 1) % 0x1000;
    var cfi := if l.cfi.Some? then l.cfi.value % 2 * 0x1000 else 0;
    if l.prio.Some? then l.prio.value % 8 * 0x2000 + cfi + vid
    else cfi + Or7(vid)
  }

  /** vid | 7 */
  function Or7(vid: nat): nat { vid / 8 * 8 + 7 }

  function Ipv4Header(l: Layer): (s: seq<u8>)
    requires l.Ipv4?
    ensures |s| == 20
  {
    [0x45, 0, 0, 0] + [0, 1, 0, 0] + [64, 0, 0, 0]
      + Default(l.ipSrc, [192, 10, 0, 1]) + Default(l.ipDst, [192, 10, 0, 2])
  }

  function DstOf(l: Layer): (s: seq<u8>)
    requires l.Ether?
    ensures |s| == 6
  {
    Default(l.dst, [0xff, 0xff, 0xff, 0xff, 0xff, 0xff])
  }

  function SrcOf(l: Layer): (s: seq<u8>)
    requires l.Ether?
    ensures |s| == 6
  {
    Default(l.src, [0, 0, 0, 0, 0, 0])
  }

  /** The native 32-bit marker 1 that opens a timestamp. */
  function TscStamp(e: Endian): (s: seq<u8>)
    ensures |s| == 4
  {
    if e == Little then [1, 0, 0, 0] else [0, 0, 0, 1]
  }

  /** The header as the first half leaves it, and where it goes: the Ethernet header always goes to offset 0. */
  function HeaderBytes(e: Endian, l: Layer): (s: seq<u8>)
    ensures |s| <= HeaderSize(l)
  {
    match l
    case Ether(_, _) => DstOf(l) + SrcOf(l)
    case Vlan(_, _, _, _) => BeBytes(Tci(l)) + [0, 0]
    case Ipv4(_, _) => Ipv4Header(l)
    case Udp(_, _) => Fill(8, 0)
    case Tcp(_, _) => Fill(20, 0)
    case Vxlan => [0, 0, 0, 0] + [0, 0, 3, 0xe8]
    case Tsc => TscStamp(e) + Fill(12, 0)
    case _ => []
  }

  function HeaderOffset(l: Layer, f: Frame): nat {
    if l.Ether? then 0 else f.len
  }

  predicate Plain(l: Layer) { !l.Payload? && !l.Done? && !l.Rejected? }

  predicate Fits(f: Frame, off: nat, n: nat) { off + n <= |f.buf| }

  /** The header a layer writes is in storage; IPv6, Echo and Raw only advance the length. */
  predicate HeaderFits(l: Layer, off: nat, f: Frame) {
    l.Ipv6? || l.Echo? || l.Raw? || Fits(f, if l.Ether? then 0 else off, HeaderSize(l))
  }

  function Enter(e: Endian, l: Layer, i: nat, f: Frame): (g: Frame)
    requires Plain(l) && HeaderFits(l, f.len, f)
    ensures |g.buf| == |f.buf|
  {
    Frame(if HeaderBytes(e, l) == [] then f.buf else Put(f.buf, HeaderOffset(l, f), HeaderBytes(e, l)),
          Cut16(f.len + HeaderSize(l)),
          if l.Ether? || l.Vlan? || l.Ipv6? then f.lengths[i := HeaderSize(l)] else f.lengths,
          if l.Tsc? then f.len else f.tscOff)
  }

  /** The length a Payload layer asks for; a size includes the four bytes of the frame check sequence. */
  function PacketLength(s: Sizing, len: int): int {
    match s
    case Keep => len
    case Size(n) =>
      (if n < ETHER_MIN_LEN then ETHER_MIN_LEN else if n > ETHER_MAX_LEN then ETHER_MAX_LEN else n) - ETHER_CRC_LEN
    case Append(n) => len + n
  }

  /** The first half of Payload; None when it writes outside the storage. */
  function EnterPayload(l: Layer, f: Frame): (g: Option<Frame>)
    requires l.Payload?
    ensures g.Some? ==> |g.value.buf| == |f.buf|
  {
    var pktlen := PacketLength(l.sizing, f.len);
    if pktlen <= f.len then Some(f.(len := Cut16(pktlen)))
    else if pktlen > |f.buf| then None
    else Some(f.(buf := Put(f.buf, f.len, Fill(pktlen - f.len, l.fill % 0x100)), len := Cut16(pktlen)))
  }

  // ---------------------------------------------------------------- second halves

  function Put16(s: seq<u8>, off: nat, w: u16): (t: seq<u8>)
    requires off + 2 <= |s|
    ensures |t| == |s|
  {
    Put(s, off, BeBytes(w))
  }

  function EtherTypeOf(next: Kind): u16 {
    match next
    case Dot1QType => TYPE_VLAN
    case Dot1AdType => TYPE_QINQ
    case Ipv4Type => TYPE_IPV4
    case _ => TYPE_OTHER
  }

  /** eth_proto of a tag, which stays 0 before anything but a tag or IPv4. */
  function VlanProtoOf(next: Kind): u16 {
    match next
    case Dot1QType => TYPE_VLAN
    case Dot1AdType => TYPE_QINQ
    case Ipv4Type => TYPE_IPV4
    case _ => 0
  }

  function Ports(l: Layer, next: Kind): (u16, u16)
    requires l.Udp? || l.Tcp?
  {
    if l.Udp? && next == EchoType then (7, 7)
    else if l.Udp? && next == VxlanType then (VXLAN_PORT, VXLAN_PORT)
    else (Cut16(Default(l.sport, if l.Udp? then 1234 else 0x1234)),
          Cut16(Default(l.dport, if l.Udp? then 5678 else 0x1111)))
  }

  function LeaveUdp(l: Layer, off: nat, next: Kind, f: Frame): (s: seq<u8>)
    requires l.Udp? && Fits(f, off, 8)
    ensures |s| == |f.buf|
  {
    var (sport, dport) := Ports(l, next);
    Put(f.buf, off, BeBytes(sport) + BeBytes(dport) + BeBytes(Cut16(f.len - off)))
  }

  function LeaveTcp(l: Layer, off: nat, next: Kind, f: Frame): (s: seq<u8>)
    requires l.Tcp? && Fits(f, off, 20)
    ensures |s| == |f.buf|
  {
    var (sport, dport) := Ports(l, next);
    Put(Put(f.buf, off + 12, [0x50, 2] + BeBytes(8192)), off, BeBytes(sport) + BeBytes(dport))
  }

  function LeaveVxlan(off: nat, next: Kind, f: Frame): (s: seq<u8>)
    requires Fits(f, off, 8)
    ensures |s| == |f.buf|
  {
    Put(f.buf, off, [8, 0, 0, if next == EtherType then 3 else 0])
  }

  /** The checksum field of the next header inside it. */
  function CksumField(next: Kind): nat {
    if next == UdpType then 6 else 16
  }

  // The second half of IPv4 works on s, the storage from the IPv4 header on.

  /**
   * udp->dgram_cksum or tcp->cksum, computed and stored; only UDP clears the field first. None when the field
   * or the segment that total_length announces is not in storage.
   */
  function PatchL4(e: Endian, s: seq<u8>, next: Kind): (t: Option<seq<u8>>)
    requires |s| >= 20
    ensures t.Some? ==> |t.value| == |s|
  {
    var l4 := HdrLen(s);
    var at := l4 + CksumField(next);
    if at + 2 > |s| then None
    else
      var clear := if next == UdpType then Put(s, at, [0, 0]) else s;
      if !Covered(clear, clear[l4..]) then None
      else Some(Put(clear, at, Stored(e, UdpTcpCksum(e, clear, clear[l4..]))))
  }

  /** hdr->hdr_checksum. */
  function PatchHeader(e: Endian, s: seq<u8>): (t: Option<seq<u8>>)
    requires |s| >= 20
    ensures t.Some? ==> |t.value| == |s|
  {
    if |s| < HdrLen(s) then None else Some(Put(s, 10, Stored(e, Ipv4Cksum(e, s))))
  }

  /** total_length, the protocol, the checksum of the next layer and then that of the header. */
  function LeaveIpv4(e: Endian, s: seq<u8>, next: Kind, total: u16): (t: Option<seq<u8>>)
    requires |s| >= 20
    ensures t.Some? ==> |t.value| == |s|
  {
    var s1 := Put16(s, 2, total);
    if next == UdpType || next == TcpType then
      var s2 := Put(s1, 9, [if next == UdpType then IPPROTO_UDP else IPPROTO_TCP]);
      var t := PatchL4(e, s2, next);
      if t.None? then None else PatchHeader(e, t.value)
    else PatchHeader(e, s1)
  }

  /** The type a layer function returns when nothing went wrong. */
  function KindOf(l: Layer): Kind {
    match l
    case Ether(_, _) => EtherType
    case Vlan(ad, _, _, _) => if ad then Dot1AdType else Dot1QType
    case Ipv4(_, _) => Ipv4Type
    case Ipv6 => Ipv6Type
    case Udp(_, _) => UdpType
    case Tcp(_, _) => TcpType
    case Vxlan => VxlanType
    case Echo => EchoType
    case Tsc => TscType
    case Raw => RawType
    case Payload(_, _) => PayloadType
    case _ => DoneType
  }

  /** A Dot1Q tag refuses a Dot1Q tag inside it. */
  predicate Refuses(l: Layer, next: Kind) {
    l.Vlan? && !l.ad && next == Dot1QType
  }

  /** The second half of a layer, given where its header is and what the next layer returned. */
  function Leave(e: Endian, l: Layer, i: nat, off: nat, next: Ret, f: Frame): (r: (Ret, Frame))
    requires Plain(l) && HeaderFits(l, off, f)
    ensures |r.1.buf| == |f.buf|
  {
    match next
    case Fault => (Fault, f)
    case Error =>
      (Error, if l.Ipv4? then
                f.(buf := Put16(f.buf, off + 2, Cut16(f.len - off)), lengths := f.lengths[i := Cut16(f.len - off)])
              else f)
    case Typ(kind) =>
      var ret := Typ(KindOf(l));
      match l
      case Ether(_, _) => (ret, f.(buf := Put16(f.buf, 12, EtherTypeOf(kind))))
      case Vlan(_, _, _, _) =>
        if Refuses(l, kind) then (Error, f)
        else if VlanProtoOf(kind) == 0 then (ret, f)
        else (ret, f.(buf := Put16(f.buf, off + 2, VlanProtoOf(kind))))
      case Ipv4(_, _) =>
        var t := LeaveIpv4(e, f.buf[off..], kind, Cut16(f.len - off));
        if t.None? then (Fault, f)
        else (ret, f.(buf := f.buf[..off] + t.value, lengths := f.lengths[i := Cut16(f.len - off)]))
      case Udp(_, _) =>
        (ret, f.(buf := LeaveUdp(l, off, kind, f), lengths := f.lengths[i := Cut16(f.len - off)]))
      case Tcp(_, _) => (ret, f.(buf := LeaveTcp(l, off, kind, f), lengths := f.lengths[i := 20]))
      case Vxlan => (ret, f.(buf := LeaveVxlan(off, kind, f)))
      case _ => (ret, f)
  }

  /** The second half of Payload: fills what Done added, with a size that must not be negative. */
  function LeavePayload(l: Layer, pktlen: int, next: Ret, f: Frame): (r: (Ret, Frame))
    requires l.Payload?
    ensures |r.1.buf| == |f.buf|
  {
    if !next.Typ? then (next, f)
    else if f.len == pktlen || l.fill == 0 then (Typ(PayloadType), f)
    else if pktlen < 0 || pktlen > f.len || f.len > |f.buf| then (Fault, f)
    else (Typ(PayloadType), f.(buf := Put(f.buf, pktlen, Fill(f.len - pktlen, l.fill % 0x100))))
  }

  /** The terminal layer: the length of an Ethernet frame without its check sequence. */
  function Clamp(len: u16): u16 {
    if len < ETH_ZLEN then ETH_ZLEN else if len > ETH_FRAME_LEN then ETH_FRAME_LEN else len
  }

  // ---------------------------------------------------------------- the recursion

  /** The layer at i and every layer inside it. */
  function Encode(e: Endian, ls: seq<Layer>, i: nat, f: Frame): (r: (Ret, Frame))
    ensures |r.1.buf| == |f.buf|
    decreases |ls| - i
  {
    if i >= |ls| then (Error, f)
    else
      var l := ls[i];
      match l
      case Rejected => (Error, f)
      case Done => (Typ(DoneType), f.(len := Clamp(f.len)))
      case Payload(sizing, _) =>
        var g := EnterPayload(l, f);
        if g.None? then (Fault, f)
        else
          var (next, h) := Encode(e, ls, i + 1, g.value);
          LeavePayload(l, PacketLength(sizing, f.len), next, h)
      case _ =>
        if !HeaderFits(l, f.len, f) then (Fault, f)
        else
          var (next, h) := Encode(e, ls, i + 1, Enter(e, l, i, f));
          Leave(e, l, i, f.len, next, h)
  }
}
