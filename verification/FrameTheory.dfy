/** The end-to-end promises of the encoder: outcome, lengths and checksums. */
module FrameTheory {
  import opened Gf2
  import opened Checksum
  import opened HeaderTheory
  import opened Ipv4Theory
  import opened Layers
  import opened LayersTheory
  import opened Options

  // ---------------------------------------------------------------- outcome and length

  /** The length of the finished frame. */
  function FinalLength(ls: seq<Layer>, i: nat, len: nat): u16
    decreases |ls| - i
  {
    if i < |ls| && Plain(ls[i]) then FinalLength(ls, i + 1, len + HeaderSize(ls[i]))
    else if i < |ls| && ls[i].Payload? then Clamp(Cut16(PacketLength(ls[i].sizing, len)))
    else Clamp(Cut16(len))
  }

  /**
   * A payload that outgrows the storage, or one with a fill that takes back more than there is or outgrows a
   * frame: after the clamp it is filled again, with a start or a size that is negative.
   */
  predicate PayloadFaults(l: Layer, len: nat, cap: nat)
    requires l.Payload?
  {
    var pktlen := PacketLength(l.sizing, len);
    (pktlen > len && pktlen > cap) || (l.fill != 0 && (pktlen < 0 || pktlen > ETH_FRAME_LEN))
  }

  /**
   * An IPv4 header behind the end of the frame: total_length wraps around 16 bits, and the segment that it
   * announces leaves the storage.
   */
  predicate CutFaults(l: Layer, next: Kind, off: nat, final: u16, cap: nat) {
    l.Ipv4? && (next == UdpType || next == TcpType) && final < off && cap < 0x1_0000 + final
  }

  /** What a tame chain comes to, read off its layers. */
  function Outcome(ls: seq<Layer>, i: nat, len: nat, cap: nat): Ret
    decreases |ls| - i
  {
    if i >= |ls| then Error
    else if Plain(ls[i]) then
      var next := Outcome(ls, i + 1, len + HeaderSize(ls[i]), cap);
      if !next.Typ? then next
      else if Refuses(ls[i], next.kind) then Error
      else if CutFaults(ls[i], next.kind, len, FinalLength(ls, i, len), cap) then Fault
      else Typ(KindOf(ls[i]))
    else if ls[i].Payload? && PayloadFaults(ls[i], len, cap) then Fault
    else Typ(KindOf(ls[i]))
  }

  lemma PayloadOutcome(e: Endian, ls: seq<Layer>, i: nat, f: Frame)
    requires Tame(ls, i) && ls[i].Payload? && ETH_FRAME_LEN <= |f.buf|
    ensures var (r, g) := Encode(e, ls, i, f);
      r == Outcome(ls, i, f.len, |f.buf|) && (r.Typ? ==> g.len == FinalLength(ls, i, f.len))
  {
    PayloadDone(e, ls, i, f);
    hide Encode;
  }

  lemma OutcomeKind(ls: seq<Layer>, i: nat, len: nat, cap: nat)
    requires Outcome(ls, i, len, cap).Typ?
    ensures i < |ls| && Outcome(ls, i, len, cap).kind == KindOf(ls[i])
  {}

  /**
   * Whatever is left of its header, the second half of IPv4 reads outside the storage exactly if it computes
   * the checksum of a segment that does not fit there.
   */
  lemma LeaveIpv4Faults(e: Endian, s: seq<u8>, kind: Kind, total: u16)
    requires |s| >= 60 && (kind == UdpType || kind == TcpType ==> |s| >= 78)
    ensures LeaveIpv4(e, s, kind, total).None? <==> (kind == UdpType || kind == TcpType) && |s| < total
  {
    hide PatchL4, PatchHeader, Put;
    var s1 := Put16(s, 2, total);
    Be16Put(total, s1, 2);
    if kind == UdpType || kind == TcpType {
      var s2 := Put(s1, 9, [if kind == UdpType then IPPROTO_UDP else IPPROTO_TCP]);
      assert TotalLength(s2) == total;
      PatchL4Faults(e, s2, kind);
      if PatchL4(e, s2, kind).Some? {
        PatchHeaderWorks(e, PatchL4(e, s2, kind).value);
      }
    } else {
      PatchHeaderWorks(e, s1);
    }
  }

  lemma PatchHeaderWorks(e: Endian, s: seq<u8>)
    requires |s| >= 60
    ensures PatchHeader(e, s).Some?
  {
    hide Ipv4Cksum, Stored, Put;
  }

  lemma PatchL4Faults(e: Endian, s: seq<u8>, kind: Kind)
    requires |s| >= 78
    ensures PatchL4(e, s, kind).None? <==> |s| < TotalLength(s)
  {
    hide UdpTcpCksum, Stored;
  }

  /** How one layer turns the outcome of the layers inside it into its own. */
  lemma LeaveOutcome(e: Endian, l: Layer, kind: Kind, i: nat, off: nat, h: Frame)
    requires Plain(l) && HeaderFits(l, off, h) && off < 0x1_0000
    requires l.Ipv4? ==> h.len <= |h.buf| && off + 60 <= |h.buf|
    requires l.Ipv4? && (kind == UdpType || kind == TcpType) ==> off + 78 <= |h.buf|
    ensures Leave(e, l, i, off, Typ(kind), h).0
         == if Refuses(l, kind) then Error
            else if CutFaults(l, kind, off, h.len, |h.buf|) then Fault
            else Typ(KindOf(l))
  {
    hide Leave, LeaveIpv4, KindOf, Cut16;
    if l.Ipv4? {
      Ipv4Leaves(e, l, i, off, kind, h);
      LeaveIpv4Faults(e, h.buf[off..], kind, Cut16(h.len - off));
      CutTotal(off, h.len, |h.buf|);
    } else {
      OtherLeaves(e, l, i, off, kind, h);
    }
  }

  lemma Ipv4Leaves(e: Endian, l: Layer, i: nat, off: nat, kind: Kind, h: Frame)
    requires l.Ipv4? && Fits(h, off, 20)
    ensures Leave(e, l, i, off, Typ(kind), h).0
         == if LeaveIpv4(e, h.buf[off..], kind, Cut16(h.len - off)).None? then Fault else Typ(KindOf(l))
  {
    hide LeaveIpv4, KindOf;
  }

  lemma OtherLeaves(e: Endian, l: Layer, i: nat, off: nat, kind: Kind, h: Frame)
    requires Plain(l) && HeaderFits(l, off, h) && !l.Ipv4?
    ensures Leave(e, l, i, off, Typ(kind), h).0 == if Refuses(l, kind) then Error else Typ(KindOf(l))
  {
    hide LeaveIpv4, LeaveUdp, LeaveTcp, LeaveVxlan, Put;
  }

  lemma CutTotal(off: nat, final: u16, cap: nat)
    requires off <= cap && final <= cap && off < 0x1_0000
    ensures cap - off < Cut16(final - off) <==> final < off && cap < 0x1_0000 + final
  {}

  lemma LeavePassesOn(e: Endian, l: Layer, i: nat, off: nat, next: Ret, h: Frame)
    requires Plain(l) && HeaderFits(l, off, h) && !next.Typ?
    ensures Leave(e, l, i, off, next, h).0 == next
  {}

  /** The outcome and the length of every tame chain, in storage for at least one frame. */
  lemma {:induction false} EncodeOutcome(e: Endian, ls: seq<Layer>, i: nat, f: Frame)
    requires Tame(ls, i) && Small(ls, i, f) && ETH_FRAME_LEN <= |f.buf|
    ensures var (r, g) := Encode(e, ls, i, f);
      r == Outcome(ls, i, f.len, |f.buf|) && (r.Typ? ==> g.len == FinalLength(ls, i, f.len))
    decreases |ls| - i
  {
    hide Encode, Enter, Leave, Clamp, CutFaults, PayloadFaults;
    var l := ls[i];
    if l.Payload? {
      PayloadOutcome(e, ls, i, f);
    } else if l.Done? {
      DoneEnds(e, ls, i, f);
    } else {
      SmallFits(ls, i, f);
      EncodePlain(e, ls, i, f);
      EnterSmall(e, ls, i, f);
      var g := Enter(e, l, i, f);
      FinalIsFrame(ls, i, f.len);
      EncodeOutcome(e, ls, i + 1, g);
      var (next, h) := Encode(e, ls, i + 1, g);
      if next.Typ? {
        OutcomeKind(ls, i + 1, g.len, |f.buf|);
        RoomBehind(ls, i, f);
        LeaveLength(e, l, i, f.len, next, h);
        LeaveOutcome(e, l, next.kind, i, f.len, h);
      } else {
        LeavePassesOn(e, l, i, f.len, next, h);
      }
    }
  }

  /** The layers to come leave room behind an IPv4 header, whatever length it claims to have. */
  lemma RoomBehind(ls: seq<Layer>, i: nat, f: Frame)
    requires Tame(ls, i) && Small(ls, i, f) && Plain(ls[i])
    ensures i + 1 < |ls| && f.len + 60 <= |f.buf|
    ensures KindOf(ls[i + 1]) == UdpType || KindOf(ls[i + 1]) == TcpType ==> f.len + 78 <= |f.buf|
  {}

  lemma {:induction false} FinalIsFrame(ls: seq<Layer>, i: nat, len: nat)
    ensures ETH_ZLEN <= FinalLength(ls, i, len) <= ETH_FRAME_LEN
    decreases |ls| - i
  {
    if i < |ls| && Plain(ls[i]) {
      FinalIsFrame(ls, i + 1, len + HeaderSize(ls[i]));
    }
  }

  /** The payload at the end of the chain, if there is one, faults. */
  predicate EndFaults(ls: seq<Layer>, i: nat, len: nat, cap: nat)
    decreases |ls| - i
  {
    i < |ls| &&
    if Plain(ls[i]) then EndFaults(ls, i + 1, len + HeaderSize(ls[i]), cap)
    else ls[i].Payload? && PayloadFaults(ls[i], len, cap)
  }

  /** Layers k and k + 1 are both Dot1Q tags, in front of any payload. */
  predicate Refused(ls: seq<Layer>, i: nat, k: nat) {
    && i <= k && k + 1 < |ls|
    && (forall j :: i <= j <= k ==> Plain(ls[j]))
    && Refuses(ls[k], KindOf(ls[k + 1]))
  }

  ghost predicate AnyRefused(ls: seq<Layer>, i: nat) {
    exists k: nat :: Refused(ls, i, k)
  }

  lemma RefusedStep(ls: seq<Layer>, i: nat)
    requires i < |ls| && Plain(ls[i])
    ensures AnyRefused(ls, i) <==> Refused(ls, i, i) || AnyRefused(ls, i + 1)
  {
    var n := i + 1;
    if k: nat :| Refused(ls, i, k) && k > i {
      assert Refused(ls, n, k);
    }
    if k: nat :| Refused(ls, n, k) {
      assert Refused(ls, i, k);
    }
  }

  /** Layer k is an IPv4 header that a frame of the given length cuts off, and no layer inside it fails. */
  ghost predicate CutOff(ls: seq<Layer>, i: nat, k: nat, final: u16, cap: nat) {
    && i <= k && k + 1 < |ls|
    && (forall j :: i <= j <= k ==> Plain(ls[j]))
    && CutFaults(ls[k], KindOf(ls[k + 1]), Offset(ls, k), final, cap)
    && !AnyRefused(ls, k + 1)
  }

  ghost predicate AnyCutOff(ls: seq<Layer>, i: nat, final: u16, cap: nat) {
    exists k: nat :: CutOff(ls, i, k, final, cap)
  }

  lemma CutOffStep(ls: seq<Layer>, i: nat, final: u16, cap: nat)
    requires i < |ls| && Plain(ls[i])
    ensures AnyCutOff(ls, i, final, cap) <==> CutOff(ls, i, i, final, cap) || AnyCutOff(ls, i + 1, final, cap)
  {
    hide CutFaults, Offset, AnyRefused, KindOf;
    var n := i + 1;
    if k: nat :| CutOff(ls, i, k, final, cap) && k > i {
      assert CutOff(ls, n, k, final, cap);
    }
    if k: nat :| CutOff(ls, n, k, final, cap) {
      assert CutOff(ls, i, k, final, cap);
    }
  }

  /** Whatever fails first on the way out decides; nothing else makes a tame chain fail. */
  lemma {:induction false} OutcomeExact(ls: seq<Layer>, i: nat, cap: nat)
    requires Tame(ls, i)
    ensures var (len, final) := (Offset(ls, i), FinalLength(ls, i, Offset(ls, i)));
      && (Outcome(ls, i, len, cap) == Fault <==> EndFaults(ls, i, len, cap) || AnyCutOff(ls, i, final, cap))
      && (Outcome(ls, i, len, cap) == Error <==>
          !EndFaults(ls, i, len, cap) && !AnyCutOff(ls, i, final, cap) && AnyRefused(ls, i))
    decreases |ls| - i
  {
    hide HeaderSize, KindOf, PayloadFaults, AnyRefused, AnyCutOff, CutFaults;
    if Plain(ls[i]) {
      var len := Offset(ls, i);
      var final := FinalLength(ls, i, len);
      OutcomeExact(ls, i + 1, cap);
      OutcomeStep(ls, i, len, final, cap);
    } else {
      NothingInside(ls, i, FinalLength(ls, i, Offset(ls, i)), cap);
    }
  }

  lemma NothingInside(ls: seq<Layer>, i: nat, final: u16, cap: nat)
    requires i < |ls| && !Plain(ls[i])
    ensures !AnyRefused(ls, i) && !AnyCutOff(ls, i, final, cap)
  {
    hide CutFaults, Offset, KindOf;
  }

  lemma OutcomeStep(ls: seq<Layer>, i: nat, len: nat, final: u16, cap: nat)
    requires Tame(ls, i) && Plain(ls[i]) && len == Offset(ls, i) && final == FinalLength(ls, i, len)
    requires var (r, n) := (Outcome(ls, i + 1, len + HeaderSize(ls[i]), cap), len + HeaderSize(ls[i]));
      && (r == Fault <==> EndFaults(ls, i + 1, n, cap) || AnyCutOff(ls, i + 1, final, cap))
      && (r == Error <==>
          !EndFaults(ls, i + 1, n, cap) && !AnyCutOff(ls, i + 1, final, cap) && AnyRefused(ls, i + 1))
    ensures var r := Outcome(ls, i, len, cap);
      && (r == Fault <==> EndFaults(ls, i, len, cap) || AnyCutOff(ls, i, final, cap))
      && (r == Error <==> !EndFaults(ls, i, len, cap) && !AnyCutOff(ls, i, final, cap) && AnyRefused(ls, i))
  {
    hide HeaderSize, KindOf, PayloadFaults, AnyRefused, AnyCutOff, Offset, FinalLength;
    RefusedStep(ls, i);
    CutOffStep(ls, i, final, cap);
    if Outcome(ls, i + 1, len + HeaderSize(ls[i]), cap).Typ? {
      OutcomeKind(ls, i + 1, len + HeaderSize(ls[i]), cap);
    }
  }

  // ---------------------------------------------------------------- a whole frame

  /** An empty frame with storage for a full one, and as many layers as the encoder takes. */
  predicate Fresh(ls: seq<Layer>, f: Frame) {
    f.len == 0 && ETH_FRAME_LEN <= |f.buf| && |ls| <= 32
  }

  /**
   * A tame chain encodes unless its payload faults, a Dot1Q tag directly encloses a Dot1Q tag or the length
   * cuts off an IPv4 header, and then has the length its layers ask for.
   */
  lemma FrameOutcome(e: Endian, ls: seq<Layer>, f: Frame)
    requires Fresh(ls, f) && Tame(ls, 0)
    ensures var (r, g) := Encode(e, ls, 0, f);
      var (faults, cut) := (EndFaults(ls, 0, 0, |f.buf|), AnyCutOff(ls, 0, FinalLength(ls, 0, 0), |f.buf|));
      && (r.Typ? <==> !faults && !cut && !AnyRefused(ls, 0))
      && (r == Fault <==> faults || cut)
      && (r.Typ? ==> g.len == FinalLength(ls, 0, 0))
  {
    hide Encode, Outcome, AnyRefused, AnyCutOff, EndFaults, FinalLength, Tame;
    assert Offset(ls, 0) == 0;
    EncodeOutcome(e, ls, 0, f);
    OutcomeExact(ls, 0, |f.buf|);
  }

  // ---------------------------------------------------------------- checksums and lengths

  /** Layer n comes before any payload. */
  predicate Reached(ls: seq<Layer>, n: nat) {
    n < |ls| && forall j :: 0 <= j <= n ==> Plain(ls[j])
  }

  /** The chain encodes into the frame g. */
  predicate Encodes(e: Endian, ls: seq<Layer>, f: Frame, g: Frame) {
    && Fresh(ls, f) && Tame(ls, 0)
    && Encode(e, ls, 0, f) == (Typ(KindOf(ls[0])), g)
  }

  lemma EncodesFrame(e: Endian, ls: seq<Layer>, f: Frame, g: Frame, n: nat)
    requires Encodes(e, ls, f, g) && Reached(ls, n)
    ensures n < |ls| && InFrame(e, ls, 0, n, f) && Encode(e, ls, 0, f).1 == g && |g.buf| == |f.buf| >= ETH_FRAME_LEN
    ensures ETH_ZLEN <= g.len <= ETH_FRAME_LEN
  {
    hide Encode, Tame, KindOf;
    FreshSmall(ls, f);
    assert Offset(ls, 0) == 0;
    LengthClamped(e, ls, 0, f);
  }

  lemma FreshSmall(ls: seq<Layer>, f: Frame)
    requires Fresh(ls, f)
    ensures Small(ls, 0, f)
  {}

  /**
   * The checksums of every IPv4 header of every finished frame, as long as the header says it is and no
   * checksum of an enclosing IPv4 layer lands in it or in its segment. The header adds up to all ones exactly
   * if its checksum field was clear. A UDP segment verifies; a TCP segment does exactly if its field was.
   */
  lemma ChecksumsVerify(e: Endian, ls: seq<Layer>, f: Frame, g: Frame, n: nat)
    requires Encodes(e, ls, f, g) && Reached(ls, n) && ls[n].Ipv4?
    ensures Offset(ls, n) + 60 <= |g.buf|
    ensures var (off, len) := (Offset(ls, n), LengthOf(ls, n));
      12 <= len && Untouched(ls, 0, n, off, off + len) ==>
        (RawCksum(e, g.buf[off..off + len]) == 0xffff <==> HeaderClear(ls, n))
    ensures var (off, len) := (Offset(ls, n), LengthOf(ls, n));
      16 <= len && Whole(ls, n, g.len) && (ls[n + 1].Tcp? ==> len == 20) && Untouched(ls, 0, n, off, g.len) ==>
        && Covered(g.buf[off..], g.buf[off + len..])
        && (Verify(e, g.buf[off..], g.buf[off + len..]) == 0 <==> ls[n + 1].Udp? || TcpClear(ls, n + 1))
  {
    hide *;
    EncodesFrame(e, ls, f, g, n);
    var off, len := Offset(ls, n), LengthOf(ls, n);
    Ipv4Begun(e, ls, 0, n, f);
    if 12 <= len && Untouched(ls, 0, n, off, off + len) {
      HeaderSums(e, ls, 0, n, f);
    }
    if Whole(ls, n, g.len) {
      WholeNext(ls, n, g.len);
      if 16 <= len && (ls[n + 1].Tcp? ==> len == 20) && Untouched(ls, 0, n, off, g.len) {
        SegmentVerifies(e, ls, 0, n, f);
      }
    }
  }

  lemma WholeNext(ls: seq<Layer>, n: nat, len: nat)
    requires Whole(ls, n, len)
    ensures n + 1 < |ls| && ls[n].Ipv4? && Offset(ls, n) + LengthOf(ls, n) <= len
  {}

  /**
   * total_length of an IPv4 header and dgram_len of a UDP header count from the header to the end of the
   * frame, modulo 65536.
   */
  lemma LengthFields(e: Endian, ls: seq<Layer>, f: Frame, g: Frame, n: nat)
    requires Encodes(e, ls, f, g) && Reached(ls, n)
    ensures ls[n].Ipv4? && Untouched(ls, 0, n, Offset(ls, n) + 2, Offset(ls, n) + 4) ==>
      Offset(ls, n) + 4 <= |g.buf| && Be16(g.buf, Offset(ls, n) + 2) == Cut16(g.len - Offset(ls, n))
    ensures ls[n].Udp? && Untouched(ls, 0, n, Offset(ls, n), Offset(ls, n) + 6) ==>
      Offset(ls, n) + 6 <= |g.buf| && Be16(g.buf, Offset(ls, n) + 4) == Cut16(g.len - Offset(ls, n))
  {
    hide Encodes, InFrame, Untouched, Be16, Encode;
    EncodesFrame(e, ls, f, g, n);
    if ls[n].Ipv4? && Untouched(ls, 0, n, Offset(ls, n) + 2, Offset(ls, n) + 4) {
      TotalLengthField(e, ls, 0, n, f);
    }
    if ls[n].Udp? && Untouched(ls, 0, n, Offset(ls, n), Offset(ls, n) + 6) {
      UdpFields(e, ls, 0, n, f);
    }
  }

  // ---------------------------------------------------------------- read off the layers

  lemma {:induction false} KeptSame(ls: seq<Layer>, n: nat)
    requires n <= |ls| && forall j :: 0 <= j < n ==> Plain(ls[j])
    ensures Kept(ls, n, Offset(ls, n)) == Kept(ls, 0, 0) && EndFill(ls, n) == EndFill(ls, 0)
  {
    if n > 0 {
      KeptSame(ls, n - 1);
    }
  }

  /** A byte behind the start of the frame, or of a chain without Ethernet from there on, is left to the payload. */
  lemma SeenAfter(ls: seq<Layer>, n: nat, j: nat, b: u8)
    requires Reached(ls, n) && (14 <= j || LastEther(ls, n + 1).None?)
    ensures Seen(ls, n + 1, Offset(ls, n) + HeaderSize(ls[n]), j, b) == After(b, j, Kept(ls, 0, 0), EndFill(ls, 0))
  {
    hide After, Kept, EndFill, LastEther, StampType, HeaderSize, Offset;
    KeptSame(ls, n + 1);
    OffsetNext(ls, n);
    if LastEther(ls, n + 1).None? {
      NoStampType(ls, n + 1);
    }
  }

  lemma {:induction false} NoStampType(ls: seq<Layer>, i: nat)
    requires LastEther(ls, i).None?
    ensures StampType(ls, i).None?
    decreases |ls| - i
  {
    if i < |ls| && Plain(ls[i]) {
      NoStampType(ls, i + 1);
    }
  }

  /** No Ethernet layer inside layer n writes to its header. */
  predicate Unstamped(ls: seq<Layer>, n: nat)
    requires n < |ls|
  {
    14 <= Offset(ls, n) || LastEther(ls, n + 1).None?
  }

  /** The version byte is kept, or the payload fills with one that gives the same header length. */
  lemma LengthIs(ls: seq<Layer>, n: nat)
    requires Reached(ls, n) && ls[n].Ipv4? && Unstamped(ls, n)
    ensures LengthOf(ls, n) == 20 <==>
      Offset(ls, n) < Kept(ls, 0, 0) || ETH_ZLEN <= Offset(ls, n) || EndFill(ls, 0) % 0x10 == 5
  {
    hide Seen, Kept, EndFill;
    SeenAfter(ls, n, Offset(ls, n), 0x45);
  }

  /** Behind headers of 20 bytes every checksum lands in the UDP or TCP header that it belongs to. */
  lemma UntouchedBehind(ls: seq<Layer>, n: nat, hi: nat)
    requires Reached(ls, n) && ls[n].Ipv4? && forall m :: 0 <= m < n && ls[m].Ipv4? ==> LengthOf(ls, m) == 20
    ensures Untouched(ls, 0, n, Offset(ls, n), hi)
  {
    hide Lands, LengthOf, Offset;
    forall m, j | 0 <= m < n && Offset(ls, n) <= j < hi
      ensures !Lands(ls, m, j)
    {
      LandsNext(ls, m, n, j);
    }
  }

  lemma LandsNext(ls: seq<Layer>, m: nat, n: nat, j: nat)
    requires m < n < |ls| && (ls[m].Ipv4? ==> LengthOf(ls, m) == 20) && ls[n].Ipv4? && Offset(ls, n) <= j
    ensures !Lands(ls, m, j)
  {
    hide LengthOf, Offset;
    OffsetNext(ls, m);
    if m + 1 < n {
      OffsetNext(ls, m + 1);
      OffsetGrows(ls, m + 2, n);
    }
  }

  /** k bytes of the IPv4 header are kept and the others filled. */
  predicate HeaderSpared(k: int, fill: u8) {
    k >= 12 || fill == 0 || (fill == 0xff && k <= 10)
  }

  /** k bytes of the TCP header are kept and the others filled. */
  predicate Spared(k: int, fill: u8) {
    k >= 18 || fill == 0 || (fill == 0xff && k <= 16)
  }

  lemma HeaderClearIs(ls: seq<Layer>, n: nat)
    requires Reached(ls, n) && ls[n].Ipv4? && Unstamped(ls, n)
    requires Kept(ls, 0, 0) < Offset(ls, n) + 20 ==> Offset(ls, n) + 20 <= ETH_ZLEN
    ensures HeaderClear(ls, n) <==> HeaderSpared(Kept(ls, 0, 0) - Offset(ls, n), EndFill(ls, 0))
  {
    hide HeaderByte, Kept, EndFill, Offset, Unstamped, After;
    HeaderByteAfter(ls, n, 10);
    HeaderByteAfter(ls, n, 11);
    HeaderSparedAfter(Offset(ls, n), Kept(ls, 0, 0), EndFill(ls, 0));
  }

  /** A byte of an IPv4 header in terms of the payload. */
  lemma HeaderByteAfter(ls: seq<Layer>, n: nat, k: nat)
    requires Reached(ls, n) && ls[n].Ipv4? && Unstamped(ls, n) && k < 20
    ensures HeaderByte(ls, n, k) == After(Ipv4Header(ls[n])[k], Offset(ls, n) + k, Kept(ls, 0, 0), EndFill(ls, 0))
    ensures Ipv4Header(ls[n])[10] == 0 && Ipv4Header(ls[n])[11] == 0
  {
    hide Seen, Kept, EndFill, Offset, After;
    SeenAfter(ls, n, Offset(ls, n) + k, Ipv4Header(ls[n])[k]);
  }

  lemma HeaderSparedAfter(off: nat, kept: nat, fill: u8)
    requires kept < off + 20 ==> off + 20 <= ETH_ZLEN
    ensures ZeroWord(After(0, off + 10, kept, fill), After(0, off + 11, kept, fill)) <==> HeaderSpared(kept - off, fill)
  {}

  /**
   * An IPv4 header at the start of the frame with an Ethernet layer inside: its length is in the destination
   * address of the last one, and its checksum field at the end of the source address.
   */
  lemma StampedHeader(ls: seq<Layer>)
    requires Reached(ls, 0) && ls[0].Ipv4? && LastEther(ls, 1).Some? && 12 <= Kept(ls, 0, 0)
    ensures var last := LastEther(ls, 1).value;
      && LengthOf(ls, 0) == DstOf(last)[0] % 0x10 * 4
      && (HeaderClear(ls, 0) <==> ZeroWord(SrcOf(last)[4], SrcOf(last)[5]))
  {
    hide Kept, EndFill, LastEther, StampType, DstOf, SrcOf, Ipv4Header;
    assert Offset(ls, 0) == 0 && Offset(ls, 1) == 20;
    KeptSame(ls, 1);
  }

  lemma TcpClearIs(ls: seq<Layer>, n: nat)
    requires Reached(ls, n) && ls[n].Tcp? && 14 <= Offset(ls, n)
    requires Kept(ls, 0, 0) < Offset(ls, n) + 20 ==> Offset(ls, n) + 20 <= ETH_ZLEN
    ensures TcpClear(ls, n) <==> Spared(Kept(ls, 0, 0) - Offset(ls, n), EndFill(ls, 0))
  {
    hide Seen, Kept, EndFill, Offset, After;
    SeenAfter(ls, n, Offset(ls, n) + 16, 0);
    SeenAfter(ls, n, Offset(ls, n) + 17, 0);
    SparedAfter(Offset(ls, n), Kept(ls, 0, 0), EndFill(ls, 0));
  }

  lemma SparedAfter(off: nat, kept: nat, fill: u8)
    requires kept < off + 20 ==> off + 20 <= ETH_ZLEN
    ensures ZeroWord(After(0, off + 16, kept, fill), After(0, off + 17, kept, fill)) <==> Spared(kept - off, fill)
  {}

  lemma PadsHeaders(e: Endian, ls: seq<Layer>, f: Frame, g: Frame, n: nat)
    requires Encodes(e, ls, f, g) && Reached(ls, n)
    ensures Kept(ls, 0, 0) < Offset(ls, n) + HeaderSize(ls[n]) ==> g.len == ETH_ZLEN
  {
    hide Encodes, Encode, Enter, Succeeds, Kept, HeaderSize, Begin, Offset;
    EncodesFrame(e, ls, f, g, n);
    BeginPlace(e, ls, 0, n, f);
    Begun(e, ls, 0, n, f);
    PadsBegun(e, ls, n, Begin(e, ls, 0, n, f));
    OffsetNext(ls, n);
    KeptSame(ls, n + 1);
  }

  lemma PadsBegun(e: Endian, ls: seq<Layer>, n: nat, b: Frame)
    requires Succeeds(e, ls, n, b) && Plain(ls[n])
    ensures Kept(ls, n + 1, Offset(ls, n + 1)) < Offset(ls, n + 1) ==> Encode(e, ls, n, b).1.len == ETH_ZLEN
  {
    hide Encode, Enter, Kept, HeaderSize, Tame, Small;
    AtPlace(e, ls, n, b);
    Between(e, ls, n, b);
    OffsetNext(ls, n);
    RefillPads(e, ls, n + 1, Enter(e, ls[n], n, b));
  }

  /** Every IPv4 layer up to n has a header length of 20: no Ethernet layer and no payload takes its version away. */
  predicate Upright(ls: seq<Layer>, n: nat)
    requires n < |ls|
  {
    forall m :: 0 <= m <= n && ls[m].Ipv4? ==>
      Unstamped(ls, m) && (Offset(ls, m) < Kept(ls, 0, 0) || EndFill(ls, 0) % 0x10 == 5)
  }

  /**
   * The checksums in terms of the payload: k bytes of the IPv4 header are kept, at most, and the others up to
   * the least length of a frame are filled.
   */
  lemma ChecksumsRead(e: Endian, ls: seq<Layer>, f: Frame, g: Frame, n: nat)
    requires Encodes(e, ls, f, g) && Reached(ls, n) && ls[n].Ipv4? && Upright(ls, n) && Offset(ls, n) + 20 <= g.len
    ensures Offset(ls, n) + 60 <= |g.buf|
    ensures var (off, k, fill) := (Offset(ls, n), Kept(ls, 0, 0) - Offset(ls, n), EndFill(ls, 0));
      && Be16(g.buf, off + 2) == g.len - off
      && (RawCksum(e, g.buf[off..off + 20]) == 0xffff <==> HeaderSpared(k, fill))
      && (n + 1 < |ls| && L4(KindOf(ls[n + 1])) && off + 20 + HeaderSize(ls[n + 1]) <= g.len ==>
            && Covered(g.buf[off..], g.buf[off + 20..])
            && (Verify(e, g.buf[off..], g.buf[off + 20..]) == 0 <==> ls[n + 1].Udp? || Spared(k - 20, fill)))
  {
    hide Encodes, LengthOf, HeaderClear, TcpClear, RawCksum, Verify, Covered, Untouched, Be16, Kept, EndFill, Unstamped;
    UprightLengths(ls, n);
    UntouchedBehind(ls, n, Offset(ls, n) + 20);
    UntouchedBehind(ls, n, g.len);
    UntouchedInside(ls, n);
    ChecksumsVerify(e, ls, f, g, n);
    LengthFields(e, ls, f, g, n);
    PadsHeaders(e, ls, f, g, n);
    UprightHere(ls, n);
    HeaderClearIs(ls, n);
    if n + 1 < |ls| && ls[n + 1].Tcp? && Offset(ls, n) + 40 <= g.len {
      PadsHeaders(e, ls, f, g, n + 1);
      OffsetNext(ls, n);
      TcpClearIs(ls, n + 1);
    }
  }

  lemma UprightHere(ls: seq<Layer>, n: nat)
    requires n < |ls| && Upright(ls, n) && ls[n].Ipv4?
    ensures Unstamped(ls, n)
  {}

  lemma UntouchedInside(ls: seq<Layer>, n: nat)
    requires n < |ls| && Untouched(ls, 0, n, Offset(ls, n), Offset(ls, n) + 20)
    ensures Untouched(ls, 0, n, Offset(ls, n) + 2, Offset(ls, n) + 4)
  {
    hide Lands;
  }

  lemma UprightLengths(ls: seq<Layer>, n: nat)
    requires Reached(ls, n) && Upright(ls, n)
    ensures forall m :: 0 <= m <= n && ls[m].Ipv4? ==> LengthOf(ls, m) == 20
  {
    hide LengthOf, Unstamped, Kept, EndFill;
    forall m | 0 <= m <= n && ls[m].Ipv4?
      ensures LengthOf(ls, m) == 20
    {
      LengthIs(ls, m);
    }
  }

  // ---------------------------------------------------------------- the start of the frame

  /** The EtherType names the layer that the first Ethernet header encloses. */
  lemma EtherTypeFinal(e: Endian, ls: seq<Layer>, f: Frame, g: Frame)
    requires Encodes(e, ls, f, g) && ls[0].Ether? && |ls| > 1
    ensures |g.buf| >= 14 && Be16(g.buf, 12) == EtherTypeOf(KindOf(ls[1]))
  {
    hide Encode, KindOf, Tame, EtherTypeOf, Seen;
    FreshSmall(ls, f);
    EncodeSeen(e, ls, 0, f, 12);
    EncodeSeen(e, ls, 0, f, 13);
    SeenStep(ls, 0, 0, 12, f.buf[12]);
    SeenStep(ls, 0, 0, 13, f.buf[13]);
    Be16Put(EtherTypeOf(KindOf(ls[1])), g.buf, 12);
  }

  /**
   * What is where the first Ethernet layer put its addresses: those of the last Ethernet layer, as far as
   * the payload keeps them. So if it keeps all of them, they read back exactly if both layers have the same.
   */
  lemma AddressesReadBack(e: Endian, ls: seq<Layer>, f: Frame, g: Frame)
    requires Encodes(e, ls, f, g) && ls[0].Ether?
    ensures LastEther(ls, 0).Some? && |g.buf| >= 12
    ensures var last := AddressesOf(LastEther(ls, 0).value);
      && (forall j :: 0 <= j < 12 ==> g.buf[j] == After(last[j], j, Kept(ls, 0, 0), EndFill(ls, 0)))
      && (12 <= Kept(ls, 0, 0) ==> (g.buf[..12] == AddressesOf(ls[0]) <==> last == AddressesOf(ls[0])))
  {
    hide Encode, AddressesOf, EndFill, Kept, KindOf;
    var last := AddressesOf(LastEther(ls, 0).value);
    FreshSmall(ls, f);
    forall j | 0 <= j < 12
      ensures g.buf[j] == After(last[j], j, Kept(ls, 0, 0), EndFill(ls, 0))
    {
      EncodeSeen(e, ls, 0, f, j);
    }
    if 12 <= Kept(ls, 0, 0) {
      assert g.buf[..12] == last;
    }
  }

  /**
   * The version byte of any IPv4 layer, unless the checksum of an enclosing one lands on it: it is still there
   * exactly if no Ethernet layer inside puts another byte there, and the payload keeps it or fills with it.
   */
  lemma VersionReadBack(e: Endian, ls: seq<Layer>, f: Frame, g: Frame, n: nat)
    requires Encodes(e, ls, f, g) && Reached(ls, n) && ls[n].Ipv4?
    requires Untouched(ls, 0, n, Offset(ls, n), Offset(ls, n) + 1)
    ensures Offset(ls, n) + 60 <= |g.buf|
    ensures var (off, last) := (Offset(ls, n), LastEther(ls, n + 1));
      g.buf[off] == 0x45 <==>
        if 12 <= off < 14 && last.Some? then false
        else if Kept(ls, 0, 0) <= off < ETH_ZLEN then EndFill(ls, 0) == 0x45
        else off < 12 && last.Some? ==> AddressesOf(last.value)[off] == 0x45
  {
    hide InFrame, Encode, HeaderByte, AddressesOf, Kept, EndFill, Tame, Fresh, LastEther;
    EncodesFrame(e, ls, f, g, n);
    VersionUntouched(ls, n);
    HeaderByteLeft(e, ls, 0, n, f, 0);
    VersionSeen(ls, n);
  }

  lemma VersionUntouched(ls: seq<Layer>, n: nat)
    requires n < |ls| && Untouched(ls, 0, n, Offset(ls, n), Offset(ls, n) + 1)
    ensures Untouched(ls, 0, n + 1, Offset(ls, n) + 0, Offset(ls, n) + 0 + 1)
  {
    hide LengthOf, Offset, KindOf;
  }

  lemma VersionSeen(ls: seq<Layer>, n: nat)
    requires Reached(ls, n) && ls[n].Ipv4? && Tame(ls, 0)
    ensures var (off, last) := (Offset(ls, n), LastEther(ls, n + 1));
      HeaderByte(ls, n, 0) == 0x45 <==>
        if 12 <= off < 14 && last.Some? then false
        else if Kept(ls, 0, 0) <= off < ETH_ZLEN then EndFill(ls, 0) == 0x45
        else off < 12 && last.Some? ==> AddressesOf(last.value)[off] == 0x45
  {
    hide AddressesOf, Kept, EndFill, LastEther, StampType, Offset, Tame;
    TameAt(ls, n + 1);
    KeptSame(ls, n + 1);
    OffsetNext(ls, n);
    StampIsEther(ls, n + 1);
  }

  lemma {:induction false} TameAt(ls: seq<Layer>, n: nat)
    requires Tame(ls, 0) && n <= |ls| && forall j :: 0 <= j < n ==> Plain(ls[j])
    ensures n < |ls| && Tame(ls, n)
  {
    if n > 0 {
      TameAt(ls, n - 1);
    }
  }

  lemma {:induction false} StampIsEther(ls: seq<Layer>, i: nat)
    requires i < |ls| && Tame(ls, i)
    ensures LastEther(ls, i).Some? <==> StampType(ls, i).Some?
    ensures StampType(ls, i).Some? ==> StampType(ls, i).value in {TYPE_VLAN, TYPE_QINQ, TYPE_IPV4, TYPE_OTHER}
    decreases |ls| - i
  {
    if Plain(ls[i]) {
      StampIsEther(ls, i + 1);
    }
  }
}
