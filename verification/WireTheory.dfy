/** The finished frame in numbers: its length, and the bytes of every header and of the payload. */
module WireTheory {
  import opened Gf2
  import opened Checksum
  import opened FrameTheory
  import opened HeaderTheory
  import opened Ipv4Theory
  import opened Layers
  import opened LayersTheory
  import opened Options

  // ---------------------------------------------------------------- the length

  /** x, held between the least and the greatest length of a frame without its check sequence. */
  function Held(x: int): (n: nat)
    ensures 60 <= n <= 1514
  {
    if x < 60 then 60 else if x > 1514 then 1514 else x
  }

  /** Layer n ends the chain, or is the payload at its end. */
  predicate EndsAt(ls: seq<Layer>, n: nat) {
    n < |ls| && !Plain(ls[n]) && forall j :: 0 <= j < n ==> Plain(ls[j])
  }

  /** The end of a chain begins behind the headers, and the length it leaves is that of the frame. */
  lemma EndBegun(e: Endian, ls: seq<Layer>, f: Frame, g: Frame, n: nat)
    requires Encodes(e, ls, f, g) && EndsAt(ls, n)
    ensures n < |ls| && Succeeds(e, ls, 0, f) && Plains(ls, 0, n) && Small(ls, 0, f)
    ensures Encode(e, ls, 0, f).1 == g
    ensures Succeeds(e, ls, n, Begin(e, ls, 0, n, f)) && Encode(e, ls, n, Begin(e, ls, 0, n, f)).1.len == g.len
  {
    hide Encode, Begin, KindOf, Tame;
    FreshSmall(ls, f);
    Begun(e, ls, 0, n, f);
  }

  /** Without a payload the length is that of the headers. */
  lemma DoneLength(e: Endian, ls: seq<Layer>, f: Frame, g: Frame, n: nat)
    requires Encodes(e, ls, f, g) && EndsAt(ls, n) && ls[n].Done?
    ensures g.len == Held(Offset(ls, n))
  {
    hide Encode, Begin, Encodes;
    EndBegun(e, ls, f, g, n);
    DoneEnds(e, ls, n, Begin(e, ls, 0, n, f));
  }

  /**
   * With a payload behind h bytes of headers: a size includes the four bytes of the check sequence, and what
   * is appended counts from the headers, in the 16 bits of the length.
   */
  lemma PayloadLengthIs(e: Endian, ls: seq<Layer>, f: Frame, g: Frame, n: nat)
    requires Encodes(e, ls, f, g) && EndsAt(ls, n) && ls[n].Payload?
    ensures var h: nat := Offset(ls, n);
      match ls[n].sizing
      case Size(k) => g.len == if k <= 64 then 60 else if k <= 1518 then k - 4 else 1514
      case Append(k) =>
        && g.len == Held((h + k) % 0x1_0000)
        && (0 <= h + k < 0x1_0000 ==> g.len == Held(h + k))
      case Keep => g.len == Held(h)
  {
    hide Encode, Begin, Encodes, Small, Tame;
    EndBegun(e, ls, f, g, n);
    PayloadEncodes(e, ls, n, Begin(e, ls, 0, n, f));
  }

  lemma PayloadEncodes(e: Endian, ls: seq<Layer>, n: nat, b: Frame)
    requires n < |ls| && Tame(ls, n) && ls[n].Payload? && Encode(e, ls, n, b).0.Typ?
    ensures var h: nat := b.len;
      match ls[n].sizing
      case Size(k) => Encode(e, ls, n, b).1.len == if k <= 64 then 60 else if k <= 1518 then k - 4 else 1514
      case Append(k) => Encode(e, ls, n, b).1.len == Held((h + k) % 0x1_0000)
      case Keep => Encode(e, ls, n, b).1.len == Held(h)
  {
    hide Encode;
    PayloadDone(e, ls, n, b);
  }

  /** When a payload behind h bytes of headers writes outside the storage, which a size never does. */
  lemma PayloadFaultsIs(l: Layer, h: nat, cap: nat)
    requires l.Payload? && 1514 <= cap
    ensures PayloadFaults(l, h, cap) <==>
      match l.sizing
      case Size(_) => false
      case Append(k) => (k > 0 && h + k > cap) || (l.fill != 0 && (h + k < 0 || h + k > 1514))
      case Keep => l.fill != 0 && h > 1514
  {}

  lemma {:induction false} EndFaultsAt(ls: seq<Layer>, i: nat, n: nat, cap: nat)
    requires i <= n && EndsAt(ls, n)
    ensures EndFaults(ls, i, Offset(ls, i), cap) <==> ls[n].Payload? && PayloadFaults(ls[n], Offset(ls, n), cap)
    decreases n - i
  {
    hide PayloadFaults, HeaderSize;
    if i < n {
      OffsetNext(ls, i);
      EndFaultsAt(ls, i + 1, n, cap);
    }
  }

  /** A chain of headers that nothing ends, or a layer that is not known, is an error. */
  lemma {:induction false} Unfinished(e: Endian, ls: seq<Layer>, i: nat, n: nat, f: Frame)
    requires i <= n <= |ls| && Plains(ls, i, n) && Small(ls, i, f) && (n == |ls| || ls[n].Rejected?)
    ensures Encode(e, ls, i, f).0 == Error
    decreases n - i
  {
    hide Encode, Enter, Leave;
    if i < n {
      SmallFits(ls, i, f);
      EncodePlain(e, ls, i, f);
      EnterSmall(e, ls, i, f);
      var g := Enter(e, ls[i], i, f);
      Unfinished(e, ls, i + 1, n, g);
      var (next, h) := Encode(e, ls, i + 1, g);
      LeavePassesOn(e, ls[i], i, f.len, next, h);
    } else {
      NothingLeft(e, ls, n, f);
    }
  }

  lemma NothingLeft(e: Endian, ls: seq<Layer>, n: nat, f: Frame)
    requires n == |ls| || (n < |ls| && ls[n].Rejected?)
    ensures Encode(e, ls, n, f).0 == Error
  {}

  // ---------------------------------------------------------------- types

  /** A Dot1Q tag refuses a Dot1Q tag inside it, and nothing else refuses anything. */
  lemma RefusesIs(l: Layer, next: Layer)
    ensures Refuses(l, KindOf(next)) <==> l.Vlan? && !l.ad && next.Vlan? && !next.ad
  {}

  /** Where the next header begins. */
  lemma NextOffset(ls: seq<Layer>, n: nat)
    requires n < |ls|
    ensures Offset(ls, 0) == 0
    ensures Offset(ls, n + 1) == Offset(ls, n) +
      match ls[n]
      case Ether(_, _) => 14
      case Vlan(_, _, _, _) => 4
      case Ipv4(_, _) => 20
      case Ipv6 => 40
      case Udp(_, _) => 8
      case Vxlan => 8
      case Tsc => 16
      case Tcp(_, _) => 20
      case Echo => 20
      case Raw => 20
      case _ => 0
  {
    OffsetNext(ls, n);
  }

  /** The EtherType of a layer inside Ethernet. */
  lemma EtherTypeIs(next: Layer)
    ensures EtherTypeOf(KindOf(next))
         == if next.Vlan? && next.ad then 0x88a8
            else if next.Vlan? then 0x8100
            else if next.Ipv4? then 0x0800
            else 0x9000
  {}

  /** The type of a layer inside a tag, which names no other layer. */
  lemma VlanTypeIs(next: Layer)
    ensures VlanProtoOf(KindOf(next)) == if next.Vlan? || next.Ipv4? then EtherTypeOf(KindOf(next)) else 0
  {}

  lemma ProtocolIs(next: Layer)
    ensures ProtocolOf(KindOf(next)) == if next.Udp? then 17 else if next.Tcp? then 6 else 0
    ensures L4(KindOf(next)) <==> next.Udp? || next.Tcp?
  {}

  // ---------------------------------------------------------------- the bytes of a header

  /**
   * No checksum lands on byte k of layer n, no Ethernet layer inside writes over it and no payload takes it
   * back.
   */
  predicate Shown(ls: seq<Layer>, n: nat, k: nat)
    requires n < |ls|
  {
    var j := Offset(ls, n) + k;
    j < Kept(ls, 0, 0) && (14 <= j || LastEther(ls, n + 1).None?) && Unlanded(ls, n, j)
  }

  predicate Unlanded(ls: seq<Layer>, n: nat, j: nat) { forall m :: 0 <= m <= n ==> !Lands(ls, m, j) }

  lemma UnlandedAt(ls: seq<Layer>, n: nat, j: nat)
    requires Unlanded(ls, n, j)
    ensures !Lands(ls, n, j) && forall m :: 0 <= m < n ==> !Lands(ls, m, j)
  {}

  lemma ShownSeen(ls: seq<Layer>, n: nat, k: nat, b: u8)
    requires Reached(ls, n) && Shown(ls, n, k)
    ensures Seen(ls, n + 1, Offset(ls, n) + HeaderSize(ls[n]), Offset(ls, n) + k, b) == b
    ensures Unlanded(ls, n, Offset(ls, n) + k)
  {
    hide Kept, EndFill, Seen, Unlanded, Offset, HeaderSize, LastEther;
    SeenAfter(ls, n, Offset(ls, n) + k, b);
  }

  /** The IPv4 header but for its checksum. */
  lemma Ipv4Wire(e: Endian, ls: seq<Layer>, f: Frame, g: Frame, n: nat, k: nat)
    requires Encodes(e, ls, f, g) && Reached(ls, n) && ls[n].Ipv4?
    requires k < 20 && k != 10 && k != 11 && Shown(ls, n, k)
    ensures n + 1 < |ls| && Offset(ls, n) + 60 <= |g.buf|
    ensures var total := (g.len - Offset(ls, n)) % 0x1_0000;
      var protocol := if ls[n + 1].Udp? then 17 else if ls[n + 1].Tcp? then 6 else 0;
      var src := if ls[n].ipSrc.Some? then ls[n].ipSrc.value else [192, 10, 0, 1];
      var dst := if ls[n].ipDst.Some? then ls[n].ipDst.value else [192, 10, 0, 2];
      g.buf[Offset(ls, n) + k]
        == if k == 0 then 0x45
           else if k == 2 then total / 0x100
           else if k == 3 then total % 0x100
           else if k == 5 then 1
           else if k == 8 then 64
           else if k == 9 then protocol
           else if 12 <= k < 16 then src[k - 12]
           else if 16 <= k then dst[k - 16]
           else 0
  {
    hide *;
    EncodesFrame(e, ls, f, g, n);
    BeginPlace(e, ls, 0, n, f);
    Ipv4Size(ls[n]);
    var b, off := Begin(e, ls, 0, n, f), Offset(ls, n);
    Ipv4Begun(e, ls, 0, n, f);
    ShownSeen(ls, n, k, Ipv4Header(ls[n])[k]);
    UnlandedAt(ls, n, off + k);
    FoundByte(e, ls, n, b, k);
    HeaderByteIs(ls, n, k);
    Ipv4Settles(e, ls, n, k, Found(e, ls, n, b), KindOf(ls[n + 1]), g.len, Encode(e, ls, n, b).1.buf[off..]);
    Ipv4Bytes(ls[n], k);
    ProtocolIs(ls[n + 1]);
    Settled(e, ls, 0, n, f, off + k);
    assert Encode(e, ls, n, b).1.buf[off..][k] == Encode(e, ls, n, b).1.buf[off + k];
  }

  lemma Ipv4Bytes(l: Layer, k: nat)
    requires l.Ipv4? && k < 20
    ensures var src := if l.ipSrc.Some? then l.ipSrc.value else [192, 10, 0, 1];
      var dst := if l.ipDst.Some? then l.ipDst.value else [192, 10, 0, 2];
      Ipv4Header(l)[k] == if k == 0 then 0x45 else if k == 5 then 1 else if k == 8 then 64
                          else if 12 <= k < 16 then src[k - 12] else if 16 <= k then dst[k - 16] else 0
  {}

  lemma Ipv4Settles(e: Endian, ls: seq<Layer>, n: nat, k: nat, s: seq<u8>, kind: Kind, len: u16, t: seq<u8>)
    requires n + 1 < |ls| && ls[n].Ipv4? && kind == KindOf(ls[n + 1]) && k < 20 && k != 10 && k != 11
    requires LeftBy(e, s, kind, Cut16(len - Offset(ls, n)), t) && HdrLen(s) == LengthOf(ls, n)
    requires !Lands(ls, n, Offset(ls, n) + k)
    ensures |t| == |s| >= 20
    ensures var total := (len - Offset(ls, n)) % 0x1_0000;
      t[k] == if k == 2 then total / 0x100
              else if k == 3 then total % 0x100
              else if k == 9 && L4(kind) then ProtocolOf(kind)
              else s[k]
  {
    hide LeaveIpv4, LengthOf, HdrLen, KindOf, ProtocolOf;
    var total := Cut16(len - Offset(ls, n));
    LeaveFields(e, s, kind, total);
    if k == 2 || k == 3 {
      Be16Bytes(t, 2, total);
    } else if k != 9 || !L4(kind) {
      LeaveKeeps(e, s, kind, total, k);
    }
  }

  lemma Be16Bytes(s: seq<u8>, i: nat, w: u16)
    requires i + 2 <= |s| && Be16(s, i) == w
    ensures s[i] == w / 0x100 && s[i + 1] == w % 0x100
  {}

  /** A tag, whose type stays 0 in front of anything but a tag or IPv4. */
  lemma TagWire(e: Endian, ls: seq<Layer>, f: Frame, g: Frame, n: nat, k: nat)
    requires Encodes(e, ls, f, g) && Reached(ls, n) && ls[n].Vlan? && k < 4 && Shown(ls, n, k)
    ensures n + 1 < |ls| && Offset(ls, n) + 4 <= |g.buf|
    ensures var vid := if ls[n].vid.Some? then ls[n].vid.value % 0x1000 else 1;
      var cfi := if ls[n].cfi.Some? then ls[n].cfi.value % 2 else 0;
      var proto: nat :=
        if ls[n + 1].Vlan? then (if ls[n + 1].ad then 0x88a8 else 0x8100) else if ls[n + 1].Ipv4? then 0x0800 else 0;
      g.buf[Offset(ls, n) + k]
        == if k == 0 then (if ls[n].prio.Some? then ls[n].prio.value % 8 * 0x20 else 0) + cfi * 0x10 + vid / 0x100
           else if k == 1 then (if ls[n].prio.Some? then vid % 0x100 else vid % 0x100 / 8 * 8 + 7)
           else if k == 2 then proto / 0x100
           else proto % 0x100
  {
    hide *;
    EncodesFrame(e, ls, f, g, n);
    ShownSeen(ls, n, k, (BeBytes(Tci(ls[n])) + [0, 0])[k]);
    UnlandedBefore(ls, n, Offset(ls, n) + k);
    TagBytes(e, ls, 0, n, f, k);
    TagByteIs(ls, n, k);
    TciBytes(ls[n]);
    VlanTypeIs(ls[n + 1]);
    EtherTypeIs(ls[n + 1]);
  }

  lemma UnlandedBefore(ls: seq<Layer>, n: nat, j: nat)
    requires Unlanded(ls, n, j)
    ensures Untouched(ls, 0, n, j, j + 1)
  {
    hide Lands;
  }

  lemma TagByteIs(ls: seq<Layer>, n: nat, k: nat)
    requires n + 1 < |ls| && ls[n].Vlan? && k < 4
    requires Seen(ls, n + 1, Offset(ls, n) + HeaderSize(ls[n]), Offset(ls, n) + k, (BeBytes(Tci(ls[n])) + [0, 0])[k])
          == (BeBytes(Tci(ls[n])) + [0, 0])[k]
    ensures var (tci, proto) := (Tci(ls[n]), VlanProtoOf(KindOf(ls[n + 1])));
      TagByte(ls, n, k)
        == if k == 0 then tci / 0x100 else if k == 1 then tci % 0x100
           else if k == 2 then proto / 0x100 else proto % 0x100
  {
    hide Seen, Offset, Tci, VlanProtoOf;
  }

  lemma TciBytes(l: Layer)
    requires l.Vlan?
    ensures var vid := if l.vid.Some? then l.vid.value % 0x1000 else 1;
      var cfi := if l.cfi.Some? then l.cfi.value % 2 else 0;
      && Tci(l) / 0x100 == (if l.prio.Some? then l.prio.value % 8 * 0x20 else 0) + cfi * 0x10 + vid / 0x100
      && Tci(l) % 0x100 == if l.prio.Some? then vid % 0x100 else vid % 0x100 / 8 * 8 + 7
  {
    var vid := if l.vid.Some? then l.vid.value % 0x1000 else 1;
    var cfi := if l.cfi.Some? then l.cfi.value % 2 else 0;
    var prio := if l.prio.Some? then l.prio.value % 8 else 0;
    TciIs(l, prio, cfi, vid);
    Or7Parts(vid);
    TciParts(prio, cfi, if l.prio.Some? then vid else Or7(vid));
    hide Tci, Or7;
  }

  lemma TciIs(l: Layer, prio: nat, cfi: nat, vid: nat)
    requires l.Vlan? && prio < 8 && cfi < 2 && vid < 0x1000
    requires vid == (if l.vid.Some? then l.vid.value % 0x1000 else 1)
    requires cfi == (if l.cfi.Some? then l.cfi.value % 2 else 0)
    requires prio == if l.prio.Some? then l.prio.value % 8 else 0
    ensures Tci(l) == prio * 0x2000 + cfi * 0x1000 + if l.prio.Some? then vid else Or7(vid)
  {
    hide Or7;
  }

  lemma TciParts(p: nat, c: nat, v: nat)
    requires p < 8 && c < 2 && v < 0x1000
    ensures (p * 0x2000 + c * 0x1000 + v) / 0x100 == p * 0x20 + c * 0x10 + v / 0x100
    ensures (p * 0x2000 + c * 0x1000 + v) % 0x100 == v % 0x100
  {}

  lemma Or7Parts(v: nat)
    requires v < 0x1000
    ensures Or7(v) < 0x1000 && Or7(v) / 0x100 == v / 0x100 && Or7(v) % 0x100 == v % 0x100 / 8 * 8 + 7
  {}

  /** The ports of UDP and TCP, the source first. */
  lemma PortsAre(l: Layer, next: Layer)
    requires l.Udp? || l.Tcp?
    ensures var (src, dst) := Ports(l, KindOf(next));
      if l.Udp? && next.Echo? then src == dst == 7
      else if l.Udp? && next.Vxlan? then src == dst == 4789
      else
        && src == (if l.sport.Some? then l.sport.value % 0x1_0000 else if l.Udp? then 1234 else 0x1234)
        && dst == (if l.dport.Some? then l.dport.value % 0x1_0000 else if l.Udp? then 5678 else 0x1111)
  {}

  // ---------------------------------------------------------------- the other headers

  /** Byte k of layer n is written by the first half, if at all, and not by the second. */
  predicate Early(l: Layer, k: nat) {
    k < HeaderSize(l) &&
    match l
    case Tcp(_, _) => 4 <= k < 12 || 16 <= k
    case Vxlan => 4 <= k
    case Tsc => true
    case Ipv6 => true
    case Echo => true
    case Raw => true
    case _ => false
  }

  lemma EarlyLeft(e: Endian, l: Layer, i: nat, off: nat, kind: Kind, f: Frame, k: nat)
    requires Early(l, k) && HeaderFits(l, off, f) && off + k < |f.buf|
    ensures Leave(e, l, i, off, Typ(kind), f).1.buf[off + k] == f.buf[off + k]
  {
    hide Ports;
  }

  /** What the first half finds or leaves at byte k. */
  function EarlyByte(e: Endian, l: Layer, k: nat, b: u8): u8
    requires Early(l, k)
  {
    match l
    case Tcp(_, _) => 0
    case Vxlan => if k == 6 then 3 else if k == 7 then 0xe8 else 0
    case Tsc => if k == (if e == Little then 0 else 3) then 1 else 0
    case _ => b
  }

  lemma EarlyEntered(e: Endian, l: Layer, i: nat, f: Frame, k: nat)
    requires Early(l, k) && HeaderFits(l, f.len, f) && f.len + k < |f.buf|
    ensures Enter(e, l, i, f).buf[f.len + k] == EarlyByte(e, l, k, f.buf[f.len + k])
  {}

  /** A first half leaves the storage behind its header alone. */
  lemma EnterBehind(e: Endian, l: Layer, i: nat, f: Frame, j: nat)
    requires Plain(l) && HeaderFits(l, f.len, f) && f.len + HeaderSize(l) <= j < |f.buf|
    ensures Enter(e, l, i, f).buf[j] == f.buf[j]
  {}

  lemma {:induction false} BeginBehind(e: Endian, ls: seq<Layer>, i: nat, n: nat, f: Frame, j: nat)
    requires Plains(ls, i, n) && Small(ls, i, f) && f.len == Offset(ls, i) && Offset(ls, n) <= j < |f.buf|
    ensures Begin(e, ls, i, n, f).buf[j] == f.buf[j]
    decreases n - i
  {
    hide Enter, Offset, HeaderSize, Small, HeaderFits;
    if i < n {
      SmallFits(ls, i, f);
      EnterSmall(e, ls, i, f);
      OffsetNext(ls, i);
      OffsetGrows(ls, i + 1, n);
      EnterBehind(e, ls[i], i, f, j);
      BeginBehind(e, ls, i + 1, n, Enter(e, ls[i], i, f), j);
    }
  }

  lemma EarlySettles(e: Endian, ls: seq<Layer>, n: nat, b: Frame, k: nat)
    requires n < |ls| && Succeeds(e, ls, n, b) && Plain(ls[n]) && Early(ls[n], k) && Offset(ls, n) + k < |b.buf|
    ensures Encode(e, ls, n, b).1.buf[Offset(ls, n) + k]
         == Seen(ls, n + 1, Offset(ls, n) + HeaderSize(ls[n]), Offset(ls, n) + k,
                 EarlyByte(e, ls[n], k, b.buf[Offset(ls, n) + k]))
  {
    hide *;
    AtPlace(e, ls, n, b);
    Between(e, ls, n, b);
    var g := Enter(e, ls[n], n, b);
    var (next, h) := Encode(e, ls, n + 1, g);
    EarlySmall(ls[n], k);
    EncodeSeen(e, ls, n + 1, g, b.len + k);
    EarlyEntered(e, ls[n], n, b, k);
    FitsSame(ls[n], b.len, b, h);
    EarlyLeft(e, ls[n], n, b.len, KindOf(ls[n + 1]), h, k);
  }

  lemma FitsSame(l: Layer, off: nat, f: Frame, g: Frame)
    requires |f.buf| == |g.buf|
    ensures HeaderFits(l, off, f) <==> HeaderFits(l, off, g)
  {}

  lemma EarlySmall(l: Layer, k: nat)
    requires Early(l, k)
    ensures k < HeaderSize(l)
  {}

  /**
   * The rest of the headers: the numbers, checksum and urgent pointer of TCP are 0 (its checksum in front of
   * the one that IPv4 stores), the network of VXLAN is 1000, a timestamp is the marker 1 and zeros, and IPv6,
   * Echo and Raw leave what was in the storage.
   */
  lemma EarlyWire(e: Endian, ls: seq<Layer>, f: Frame, g: Frame, n: nat, k: nat)
    requires Encodes(e, ls, f, g) && Reached(ls, n) && Early(ls[n], k) && Shown(ls, n, k)
    ensures Offset(ls, n) + k < |g.buf| == |f.buf|
    ensures var was := f.buf[Offset(ls, n) + k];
      g.buf[Offset(ls, n) + k]
        == match ls[n]
           case Tcp(_, _) => 0
           case Vxlan => if k == 6 then 3 else if k == 7 then 0xe8 else 0
           case Tsc => if k == (if e == Little then 0 else 3) then 1 else 0
           case _ => was
  {
    hide *;
    EncodesFrame(e, ls, f, g, n);
    BeginPlace(e, ls, 0, n, f);
    var b, off := Begin(e, ls, 0, n, f), Offset(ls, n);
    Begun(e, ls, 0, n, f);
    EarlyInside(e, ls, n, b, k);
    BeginBehind(e, ls, 0, n, f, off + k);
    EarlySettles(e, ls, n, b, k);
    ShownSeen(ls, n, k, EarlyByte(e, ls[n], k, b.buf[off + k]));
    UnlandedAt(ls, n, off + k);
    Settled(e, ls, 0, n, f, off + k);
    EarlyByteIs(e, ls[n], k, f.buf[off + k]);
  }

  lemma EarlyInside(e: Endian, ls: seq<Layer>, n: nat, b: Frame, k: nat)
    requires n < |ls| && Succeeds(e, ls, n, b) && Plain(ls[n]) && Early(ls[n], k)
    ensures Offset(ls, n) + k < |b.buf|
  {
    hide *;
    Between(e, ls, n, b);
    AtPlace(e, ls, n, b);
    EarlySmall(ls[n], k);
  }

  lemma EarlyByteIs(e: Endian, l: Layer, k: nat, was: u8)
    requires Early(l, k)
    ensures EarlyByte(e, l, k, was)
         == match l
            case Tcp(_, _) => 0
            case Vxlan => if k == 6 then 3 else if k == 7 then 0xe8 else 0
            case Tsc => if k == (if e == Little then 0 else 3) then 1 else 0
            case _ => was
  {}

  /** The flags of VXLAN, and the protocol it carries. */
  lemma VxlanWire(e: Endian, ls: seq<Layer>, f: Frame, g: Frame, n: nat, k: nat)
    requires Encodes(e, ls, f, g) && Reached(ls, n) && ls[n].Vxlan? && k < 4 && Unlanded(ls, n, Offset(ls, n) + k)
    ensures n + 1 < |ls| && Offset(ls, n) + 8 <= |g.buf|
    ensures g.buf[Offset(ls, n) + k] == if k == 0 then 8 else if k == 3 && ls[n + 1].Ether? then 3 else 0
  {
    hide *;
    EncodesFrame(e, ls, f, g, n);
    BeginPlace(e, ls, 0, n, f);
    var b, off := Begin(e, ls, 0, n, f), Offset(ls, n);
    Begun(e, ls, 0, n, f);
    AtPlace(e, ls, n, b);
    Between(e, ls, n, b);
    var (next, h) := Encode(e, ls, n + 1, Enter(e, ls[n], n, b));
    FitsSame(ls[n], off, b, h);
    VxlanLeaves(e, ls[n], n, off, ls[n + 1], h, k);
    UnlandedAt(ls, n, off + k);
    Settled(e, ls, 0, n, f, off + k);
  }

  lemma VxlanLeaves(e: Endian, l: Layer, i: nat, off: nat, next: Layer, f: Frame, k: nat)
    requires l.Vxlan? && HeaderFits(l, off, f) && k < 4
    ensures off + 8 <= |f.buf|
    ensures Leave(e, l, i, off, Typ(KindOf(next)), f).1.buf[off + k]
         == if k == 0 then 8 else if k == 3 && next.Ether? then 3 else 0
  {}

  /** The ports of a UDP or TCP header in the frame, with the length of the one and the flags of the other. */
  lemma PortsWire(e: Endian, ls: seq<Layer>, f: Frame, g: Frame, n: nat)
    requires Encodes(e, ls, f, g) && Reached(ls, n) && (ls[n].Udp? || ls[n].Tcp?)
    requires Untouched(ls, 0, n, Offset(ls, n), Offset(ls, n) + if ls[n].Udp? then 6 else 16)
    ensures n + 1 < |ls| && Offset(ls, n) + 8 <= |g.buf|
    ensures var (l, next, off) := (ls[n], ls[n + 1], Offset(ls, n));
      var (src, dst) := (Be16(g.buf, off), Be16(g.buf, off + 2));
      && (if l.Udp? && next.Echo? then src == dst == 7
          else if l.Udp? && next.Vxlan? then src == dst == 4789
          else
            && src == (if l.sport.Some? then l.sport.value % 0x1_0000 else if l.Udp? then 1234 else 0x1234)
            && dst == (if l.dport.Some? then l.dport.value % 0x1_0000 else if l.Udp? then 5678 else 0x1111))
      && (l.Udp? ==> Be16(g.buf, off + 4) == (g.len - off) % 0x1_0000)
      && (l.Tcp? ==>
            off + 20 <= |g.buf| && Be16(g.buf, off + 12) == 0x5002 && Be16(g.buf, off + 14) == 8192)
  {
    hide Encodes, Encode, Untouched, Ports, Be16, KindOf, InFrame, Offset;
    EncodesFrame(e, ls, f, g, n);
    if ls[n].Udp? {
      UdpFields(e, ls, 0, n, f);
    } else {
      TcpFields(e, ls, 0, n, f);
    }
    PortsAre(ls[n], ls[n + 1]);
  }

  /** The start of a frame whose first layer is Ethernet: the addresses are those of the last one. */
  lemma EtherWire(e: Endian, ls: seq<Layer>, f: Frame, g: Frame, j: nat)
    requires Encodes(e, ls, f, g) && ls[0].Ether? && j < 14 && (j < 12 ==> j < Kept(ls, 0, 0))
    ensures LastEther(ls, 0).Some? && |ls| > 1 && |g.buf| >= 14
    ensures var last := LastEther(ls, 0).value;
      var proto: nat :=
        if ls[1].Vlan? then (if ls[1].ad then 0x88a8 else 0x8100) else if ls[1].Ipv4? then 0x0800 else 0x9000;
      g.buf[j]
        == if j < 6 then (if last.dst.Some? then last.dst.value[j] else 0xff)
           else if j < 12 then (if last.src.Some? then last.src.value[j - 6] else 0)
           else if j == 12 then proto / 0x100
           else proto % 0x100
  {
    hide Encode, Kept, EndFill, KindOf, EtherTypeOf, AddressesOf, LastEther;
    assert Tame(ls, 1);
    AddressesReadBack(e, ls, f, g);
    EtherTypeFinal(e, ls, f, g);
    EtherTypeIs(ls[1]);
    Be16Bytes(g.buf, 12, EtherTypeOf(KindOf(ls[1])));
    if j < 12 {
      AddressesAre(LastEther(ls, 0).value, j);
    }
  }

  lemma AddressesAre(l: Layer, j: nat)
    requires l.Ether? && j < 12
    ensures AddressesOf(l)[j]
         == if j < 6 then (if l.dst.Some? then l.dst.value[j] else 0xff)
            else if l.src.Some? then l.src.value[j - 6]
            else 0
  {}

  // ---------------------------------------------------------------- the bytes of the payload

  /** The length that a payload behind h bytes of headers asks for. */
  ghost predicate Asks(l: Layer, h: nat, p: int)
    requires l.Payload?
  {
    match l.sizing
    case Size(k) => p == if k <= 64 then 60 else if k <= 1518 then k - 4 else 1514
    case Append(k) => p == h + k
    case Keep => p == h
  }

  /**
   * Behind the headers a payload fills up to the length it asks for, and if it fills with something else than
   * 0 up to the end of the frame; what was in the storage is left behind that.
   */
  lemma PayloadWire(e: Endian, ls: seq<Layer>, f: Frame, g: Frame, n: nat, p: int, j: nat)
    requires Encodes(e, ls, f, g) && EndsAt(ls, n) && ls[n].Payload? && Asks(ls[n], Offset(ls, n), p)
    requires Offset(ls, n) <= j < |f.buf| && forall m :: 0 <= m < n ==> !Lands(ls, m, j)
    ensures |g.buf| == |f.buf|
    ensures g.buf[j] == if j < p || (ls[n].fill != 0 && j < g.len) then ls[n].fill % 0x100 else f.buf[j]
  {
    hide *;
    EndBegun(e, ls, f, g, n);
    var b := Begin(e, ls, 0, n, f);
    Settled(e, ls, 0, n, f, j);
    OffsetStart(ls);
    SucceedsStart(e, ls, 0, f);
    SucceedsStart(e, ls, n, b);
    BeginBehind(e, ls, 0, n, f, j);
    PayloadFills(e, ls, n, b, p, j);
  }

  lemma OffsetStart(ls: seq<Layer>)
    ensures Offset(ls, 0) == 0
  {}

  lemma SucceedsStart(e: Endian, ls: seq<Layer>, i: nat, f: Frame)
    requires Succeeds(e, ls, i, f)
    ensures i < |ls| && f.len == Offset(ls, i) && Tame(ls, i) && Encode(e, ls, i, f).0.Typ?
  {
    hide Encode, Tame;
  }

  lemma PayloadFills(e: Endian, ls: seq<Layer>, n: nat, b: Frame, p: int, j: nat)
    requires n < |ls| && Tame(ls, n) && ls[n].Payload? && Encode(e, ls, n, b).0.Typ? && Asks(ls[n], b.len, p)
    requires b.len <= j < |b.buf|
    ensures var g := Encode(e, ls, n, b).1;
      g.buf[j] == if j < p || (ls[n].fill != 0 && j < g.len) then ls[n].fill % 0x100 else b.buf[j]
  {
    hide Encode;
    PayloadDone(e, ls, n, b);
  }

  // ---------------------------------------------------------------- what is noted beside the frame

  lemma LeaveNotes(e: Endian, l: Layer, i: nat, off: nat, next: Ret, f: Frame)
    requires Plain(l) && HeaderFits(l, off, f) && next.Typ? && Leave(e, l, i, off, next, f).0.Typ?
    ensures var g := Leave(e, l, i, off, next, f).1;
      && g.tscOff == f.tscOff
      && g.lengths == if l.Ipv4? || l.Udp? then f.lengths[i := (f.len - off) % 0x1_0000]
                      else if l.Tcp? then f.lengths[i := 20]
                      else f.lengths
  {
    hide LeaveIpv4, LeaveUdp, LeaveTcp, LeaveVxlan, Put, KindOf;
  }

  lemma EnterNotes(e: Endian, l: Layer, i: nat, f: Frame)
    requires Plain(l) && HeaderFits(l, f.len, f)
    ensures var g := Enter(e, l, i, f);
      && g.tscOff == (if l.Tsc? then f.len else f.tscOff)
      && g.lengths == if l.Ether? then f.lengths[i := 14]
                      else if l.Vlan? then f.lengths[i := 4]
                      else if l.Ipv6? then f.lengths[i := 40]
                      else f.lengths
  {
    hide Put, HeaderBytes;
  }

  lemma EndNotes(e: Endian, ls: seq<Layer>, i: nat, f: Frame)
    requires i < |ls| && Tame(ls, i) && !Plain(ls[i]) && Encode(e, ls, i, f).0.Typ?
    ensures Encode(e, ls, i, f).1.tscOff == f.tscOff && Encode(e, ls, i, f).1.lengths == f.lengths
  {
    hide Encode, Put;
    if ls[i].Payload? {
      PayloadDone(e, ls, i, f);
    } else {
      DoneEnds(e, ls, i, f);
    }
  }

  /** Layer k notes v as its length, in a frame of the given length. */
  predicate Notes(ls: seq<Layer>, k: nat, final: u16, v: int)
    requires k < |ls|
  {
    match ls[k]
    case Ether(_, _) => v == 14
    case Vlan(_, _, _, _) => v == 4
    case Ipv6 => v == 40
    case Tcp(_, _) => v == 20
    case Ipv4(_, _) => v == (final - Offset(ls, k)) % 0x1_0000
    case Udp(_, _) => v == (final - Offset(ls, k)) % 0x1_0000
    case _ => false
  }

  /** The layer notes a length at all. */
  predicate Noting(l: Layer) { l.Ether? || l.Vlan? || l.Ipv6? || l.Tcp? || l.Ipv4? || l.Udp? }

  /**
   * Every layer in front of the payload that notes a length notes that of its header, or for IPv4 and UDP what
   * counts to the end of the frame; the others leave what was noted.
   */
  lemma {:induction false} LengthsNoted(e: Endian, ls: seq<Layer>, i: nat, f: Frame, k: nat)
    requires Succeeds(e, ls, i, f)
    ensures var g := Encode(e, ls, i, f).1;
      if i <= k < |ls| && Plains(ls, i, k + 1) && Noting(ls[k]) then k in g.lengths && Notes(ls, k, g.len, g.lengths[k])
      else (k in g.lengths <==> k in f.lengths) && (k in f.lengths ==> g.lengths[k] == f.lengths[k])
    decreases |ls| - i
  {
    hide Encode, Enter, Leave, Offset, Succeeds;
    SucceedsStart(e, ls, i, f);
    if Plain(ls[i]) {
      AtPlace(e, ls, i, f);
      Between(e, ls, i, f);
      var g := Enter(e, ls[i], i, f);
      var (next, h) := Encode(e, ls, i + 1, g);
      LengthsNoted(e, ls, i + 1, g, k);
      EnterNotes(e, ls[i], i, f);
      FitsSame(ls[i], f.len, f, h);
      LeaveNotes(e, ls[i], i, f.len, next, h);
    } else {
      EndNotes(e, ls, i, f);
    }
  }

  /** The last timestamp in front of the payload, if there is one. */
  function LastTsc(ls: seq<Layer>, i: nat): Option<nat>
    decreases |ls| - i
  {
    if i < |ls| && Plain(ls[i]) then
      var k := LastTsc(ls, i + 1);
      if k.None? && ls[i].Tsc? then Some(i) else k
    else None
  }

  lemma {:induction false} LastTscIs(ls: seq<Layer>, i: nat, k: nat)
    requires i <= k < |ls| && Plains(ls, i, k + 1) && ls[k].Tsc?
    ensures var t := LastTsc(ls, i); t.Some? && k <= t.value < |ls| && ls[t.value].Tsc?
    decreases |ls| - i
  {
    if i < k {
      LastTscIs(ls, i + 1, k);
    } else {
      LastTscBehind(ls, i + 1);
    }
  }

  lemma {:induction false} LastTscBehind(ls: seq<Layer>, i: nat)
    ensures var t := LastTsc(ls, i); t.Some? ==> i <= t.value < |ls| && ls[t.value].Tsc?
    decreases |ls| - i
  {
    if i < |ls| && Plain(ls[i]) {
      LastTscBehind(ls, i + 1);
    }
  }

  /** The offset noted for the timestamp is that of the last one. */
  lemma {:induction false} TscNoted(e: Endian, ls: seq<Layer>, i: nat, f: Frame)
    requires Succeeds(e, ls, i, f)
    ensures var t := LastTsc(ls, i);
      t.Some? ==> t.value < |ls| && Encode(e, ls, i, f).1.tscOff == Offset(ls, t.value)
    ensures LastTsc(ls, i).None? ==> Encode(e, ls, i, f).1.tscOff == f.tscOff
    decreases |ls| - i
  {
    hide Encode, Enter, Leave, Offset, Succeeds;
    SucceedsStart(e, ls, i, f);
    if Plain(ls[i]) {
      AtPlace(e, ls, i, f);
      Between(e, ls, i, f);
      var g := Enter(e, ls[i], i, f);
      var (next, h) := Encode(e, ls, i + 1, g);
      TscNoted(e, ls, i + 1, g);
      EnterNotes(e, ls[i], i, f);
      FitsSame(ls[i], f.len, f, h);
      LeaveNotes(e, ls[i], i, f.len, next, h);
    } else {
      EndNotes(e, ls, i, f);
    }
  }
}
