/** What the encoder promises about every frame it finishes. */
module LayersTheory {
  import opened Gf2
  import opened Checksum
  import opened Layers
  import opened Ipv4Theory
  import opened Options

  /** One level of the recursion, for every layer but Payload and the terminal ones. */
  lemma EncodePlain(e: Endian, ls: seq<Layer>, i: nat, f: Frame)
    requires i < |ls| && Plain(ls[i])
    ensures Encode(e, ls, i, f)
         == if !HeaderFits(ls[i], f.len, f) then (Fault, f)
            else
              var (next, h) := Encode(e, ls, i + 1, Enter(e, ls[i], i, f));
              Leave(e, ls[i], i, f.len, next, h)
  {}

  lemma LeaveLength(e: Endian, l: Layer, i: nat, off: nat, next: Ret, f: Frame)
    requires Plain(l) && HeaderFits(l, off, f)
    ensures Leave(e, l, i, off, next, f).1.len == f.len
    ensures Leave(e, l, i, off, next, f).0.Typ? ==> next.Typ?
  {}

  /** Whatever the layers are, a frame that encodes has the length of an Ethernet frame. */
  lemma {:induction false} LengthClamped(e: Endian, ls: seq<Layer>, i: nat, f: Frame)
    ensures var (r, g) := Encode(e, ls, i, f); r.Typ? ==> ETH_ZLEN <= g.len <= ETH_FRAME_LEN
    decreases |ls| - i
  {
    hide Enter, Leave;
    if i < |ls| {
      var l := ls[i];
      if l.Payload? {
        var g := EnterPayload(l, f);
        if g.Some? {
          LengthClamped(e, ls, i + 1, g.value);
        }
      } else if Plain(l) && HeaderFits(l, f.len, f) {
        EncodePlain(e, ls, i, f);
        var g := Enter(e, l, i, f);
        LengthClamped(e, ls, i + 1, g);
        var (next, h) := Encode(e, ls, i + 1, g);
        LeaveLength(e, l, i, f.len, next, h);
      }
    }
  }

  // ---------------------------------------------------------------- what the layers inside do to those outside

  /** Payload, if any, is the last layer; the source takes any other chain as well. */
  predicate Tame(ls: seq<Layer>, i: nat)
    decreases |ls| - i
  {
    i < |ls| &&
    match ls[i]
    case Done => true
    case Rejected => false
    case Payload(_, _) => i + 1 < |ls| && ls[i + 1].Done?
    case _ => Tame(ls, i + 1)
  }

  /** The payload takes bytes back from the headers, and fills them when the frame is padded to its least length. */
  predicate Refills(l: Layer, len: nat)
    requires l.Payload?
  {
    l.fill != 0 && 0 <= PacketLength(l.sizing, len) < len && PacketLength(l.sizing, len) < ETH_ZLEN
  }

  /** Where the payload begins to write: behind the headers, unless it refills some of their bytes. */
  function Kept(ls: seq<Layer>, i: nat, len: nat): nat
    decreases |ls| - i
  {
    if i < |ls| && Plain(ls[i]) then Kept(ls, i + 1, len + HeaderSize(ls[i]))
    else if i < |ls| && ls[i].Payload? && Refills(ls[i], len) then PacketLength(ls[i].sizing, len)
    else len
  }

  /** The byte that the payload at the end of the chain fills with. */
  function EndFill(ls: seq<Layer>, i: nat): u8
    decreases |ls| - i
  {
    if i < |ls| && Plain(ls[i]) then EndFill(ls, i + 1)
    else if i < |ls| && ls[i].Payload? then ls[i].fill % 0x100
    else 0
  }

  /** What becomes of byte b at offset k when the payload fills from `kept` on. */
  function After(b: u8, k: nat, kept: nat, fill: u8): u8 {
    if kept <= k < ETH_ZLEN then fill else b
  }

  /** The headers of the layers from i on fit in storage and in the 16 bits of the length. */
  predicate Small(ls: seq<Layer>, i: nat, f: Frame) {
    i <= |ls| && f.len + 40 * (|ls| - i) <= |f.buf| && f.len + 40 * (|ls| - i) < 0x1_0000
  }

  /** From 0 to hi nothing happens to s but the payload. */
  predicate Refilled(s: seq<u8>, t: seq<u8>, hi: nat, kept: nat, fill: u8) {
    |s| == |t| && hi <= |s| && forall k :: 0 <= k < hi ==> t[k] == After(s[k], k, kept, fill)
  }

  /**
   * The last Ethernet layer from i on. It writes over those before it: every Ethernet layer writes to the
   * start of the frame.
   */
  function LastEther(ls: seq<Layer>, i: nat): (l: Option<Layer>)
    ensures l.Some? ==> l.value.Ether?
    decreases |ls| - i
  {
    if i < |ls| && Plain(ls[i]) then
      var l := LastEther(ls, i + 1);
      if l.None? && ls[i].Ether? then Some(ls[i]) else l
    else None
  }

  function AddressesOf(l: Layer): (s: seq<u8>)
    requires l.Ether?
    ensures |s| == 12
  {
    DstOf(l) + SrcOf(l)
  }

  /** The EtherType of the first Ethernet layer from i on, which is the last to be written. */
  function StampType(ls: seq<Layer>, i: nat): Option<u16>
    decreases |ls| - i
  {
    if i < |ls| && Plain(ls[i]) then
      if ls[i].Ether? && i + 1 < |ls| then Some(EtherTypeOf(KindOf(ls[i + 1]))) else StampType(ls, i + 1)
    else None
  }

  /** What becomes of byte b at j, in front of layer i at offset len, when layer i and all inside are done. */
  function Seen(ls: seq<Layer>, i: nat, len: nat, j: nat, b: u8): u8 {
    if 12 <= j < 14 && StampType(ls, i).Some? then BeBytes(StampType(ls, i).value)[j - 12]
    else
      var l := LastEther(ls, i);
      After(if j < 12 && l.Some? then AddressesOf(l.value)[j] else b, j, Kept(ls, i, len), EndFill(ls, i))
  }

  /** Payload and Done, which end a tame chain. */
  lemma PayloadDone(e: Endian, ls: seq<Layer>, i: nat, f: Frame)
    requires i + 1 < |ls| && ls[i].Payload? && ls[i + 1].Done?
    ensures Encode(e, ls, i, f)
         == var g := EnterPayload(ls[i], f);
            if g.None? then (Fault, f)
            else
              var pktlen := PacketLength(ls[i].sizing, f.len);
              LeavePayload(ls[i], pktlen, Typ(DoneType), g.value.(len := Clamp(g.value.len)))
  {
    hide EnterPayload, LeavePayload, PacketLength;
  }

  lemma PayloadEnds(e: Endian, ls: seq<Layer>, i: nat, f: Frame)
    requires Tame(ls, i) && ls[i].Payload? && f.len <= |f.buf|
    requires Encode(e, ls, i, f).0.Typ?
    ensures Refilled(f.buf, Encode(e, ls, i, f).1.buf, f.len, Kept(ls, i, f.len), EndFill(ls, i))
    ensures Kept(ls, i, f.len) < f.len ==> Encode(e, ls, i, f).1.len == ETH_ZLEN
  {
    hide Encode, EnterPayload, LeavePayload, Refilled, Refills, PacketLength;
    PayloadDone(e, ls, i, f);
    PayloadWrites(ls[i], f);
  }

  /** Payload fills behind the headers, and over them only where it refills. */
  lemma PayloadWrites(l: Layer, f: Frame)
    requires l.Payload? && f.len <= |f.buf| && EnterPayload(l, f).Some?
    ensures var pktlen := PacketLength(l.sizing, f.len);
      var g := EnterPayload(l, f).value;
      var (r, h) := LeavePayload(l, pktlen, Typ(DoneType), g.(len := Clamp(g.len)));
      r.Typ? ==>
        && Refilled(f.buf, h.buf, f.len, if Refills(l, f.len) then pktlen else f.len, l.fill % 0x100)
        && (Refills(l, f.len) ==> h.len == ETH_ZLEN)
  {}

  lemma DoneEnds(e: Endian, ls: seq<Layer>, i: nat, f: Frame)
    requires i < |ls| && ls[i].Done?
    ensures Encode(e, ls, i, f) == (Typ(DoneType), f.(len := Clamp(f.len)))
  {}

  lemma EnterSmall(e: Endian, ls: seq<Layer>, i: nat, f: Frame)
    requires i < |ls| && Plain(ls[i]) && HeaderFits(ls[i], f.len, f) && Small(ls, i, f)
    ensures var g := Enter(e, ls[i], i, f); g.len == f.len + HeaderSize(ls[i]) && Small(ls, i + 1, g)
  {}

  lemma KindReturned(e: Endian, ls: seq<Layer>, i: nat, f: Frame)
    requires Encode(e, ls, i, f).0.Typ?
    ensures i < |ls| && !ls[i].Rejected? && Encode(e, ls, i, f).0.kind == KindOf(ls[i])
  {
    hide Enter, LeaveIpv4, LeaveUdp, LeaveTcp, LeaveVxlan, EnterPayload;
  }

  lemma SmallFits(ls: seq<Layer>, i: nat, f: Frame)
    requires i < |ls| && Plain(ls[i]) && Small(ls, i, f)
    ensures HeaderFits(ls[i], f.len, f) && f.len + HeaderSize(ls[i]) <= |f.buf|
  {}

  lemma SeenStep(ls: seq<Layer>, i: nat, len: nat, j: nat, b: u8)
    requires i + 1 < |ls| && Plain(ls[i])
    ensures Seen(ls, i, len, j, b)
         == if ls[i].Ether? && 12 <= j < 14 then BeBytes(EtherTypeOf(KindOf(ls[i + 1])))[j - 12]
            else
              Seen(ls, i + 1, len + HeaderSize(ls[i]), j,
                   if ls[i].Ether? && j < 12 then AddressesOf(ls[i])[j] else b)
  {
    hide AddressesOf, BeBytes, EtherTypeOf, KindOf, HeaderSize, After;
  }

  lemma EnterStart(e: Endian, l: Layer, i: nat, f: Frame, j: nat)
    requires Plain(l) && HeaderFits(l, f.len, f) && j < |f.buf| && (j < f.len || (l.Ether? && j < 12))
    ensures Enter(e, l, i, f).buf[j] == if l.Ether? && j < 12 then AddressesOf(l)[j] else f.buf[j]
  {
    hide DstOf, SrcOf;
  }

  lemma LeaveStart(e: Endian, l: Layer, i: nat, off: nat, kind: Kind, f: Frame, j: nat)
    requires Plain(l) && HeaderFits(l, off, f) && off <= |f.buf| && j < |f.buf| && (l.Ether? || j < off)
    requires Leave(e, l, i, off, Typ(kind), f).0.Typ?
    ensures Leave(e, l, i, off, Typ(kind), f).1.buf[j]
         == if l.Ether? && 12 <= j < 14 then BeBytes(EtherTypeOf(kind))[j - 12] else f.buf[j]
  {
    hide LeaveIpv4, EtherTypeOf;
  }

  /**
   * Exactly what the layers from i on do to the bytes in front of them, and to the start of the frame if the
   * first of them is Ethernet.
   */
  lemma {:induction false} EncodeSeen(e: Endian, ls: seq<Layer>, i: nat, f: Frame, j: nat)
    requires Tame(ls, i) && Small(ls, i, f) && Encode(e, ls, i, f).0.Typ?
    requires j < f.len || (ls[i].Ether? && j < 14)
    ensures j < |f.buf| && Encode(e, ls, i, f).1.buf[j] == Seen(ls, i, f.len, j, f.buf[j])
    decreases |ls| - i
  {
    hide Encode, Enter, Leave, After, AddressesOf, EtherTypeOf, BeBytes, KindOf, Seen;
    var l := ls[i];
    if l.Payload? {
      PayloadEnds(e, ls, i, f);
      NoStamp(ls, i, f.len, j, f.buf[j]);
    } else if l.Done? {
      DoneEnds(e, ls, i, f);
      NoStamp(ls, i, f.len, j, f.buf[j]);
      DoneAfter(ls, i, f.len, j, f.buf[j]);
    } else {
      SmallFits(ls, i, f);
      EncodePlain(e, ls, i, f);
      EnterSmall(e, ls, i, f);
      var g := Enter(e, l, i, f);
      var (next, h) := Encode(e, ls, i + 1, g);
      LeaveLength(e, l, i, f.len, next, h);
      KindReturned(e, ls, i + 1, g);
      EncodeSeen(e, ls, i + 1, g, j);
      LeaveStart(e, l, i, f.len, next.kind, h, j);
      SeenStep(ls, i, f.len, j, f.buf[j]);
      if !(l.Ether? && 12 <= j < 14) {
        EnterStart(e, l, i, f, j);
      }
    }
  }

  lemma NoStamp(ls: seq<Layer>, i: nat, len: nat, j: nat, b: u8)
    requires i < |ls| && !Plain(ls[i])
    ensures Seen(ls, i, len, j, b) == After(b, j, Kept(ls, i, len), EndFill(ls, i))
  {
    hide After;
  }

  lemma DoneAfter(ls: seq<Layer>, i: nat, len: nat, j: nat, b: u8)
    requires i < |ls| && ls[i].Done? && j < len
    ensures After(b, j, Kept(ls, i, len), EndFill(ls, i)) == b
  {}

  /** The payload refills headers only in a frame of the least length. */
  lemma {:induction false} RefillPads(e: Endian, ls: seq<Layer>, i: nat, f: Frame)
    requires Tame(ls, i) && Small(ls, i, f) && Encode(e, ls, i, f).0.Typ?
    ensures Kept(ls, i, f.len) < f.len ==> Encode(e, ls, i, f).1.len == ETH_ZLEN
    decreases |ls| - i
  {
    hide Encode, Enter, Leave, Refills;
    var l := ls[i];
    if l.Payload? {
      PayloadEnds(e, ls, i, f);
    } else if Plain(l) {
      SmallFits(ls, i, f);
      EncodePlain(e, ls, i, f);
      EnterSmall(e, ls, i, f);
      var g := Enter(e, l, i, f);
      var (next, h) := Encode(e, ls, i + 1, g);
      LeaveLength(e, l, i, f.len, next, h);
      RefillPads(e, ls, i + 1, g);
    }
  }

  // ---------------------------------------------------------------- one layer in its chain

  /** The offset of layer k. */
  function Offset(ls: seq<Layer>, k: nat): nat
    requires k <= |ls|
  {
    if k == 0 then 0 else Offset(ls, k - 1) + HeaderSize(ls[k - 1])
  }

  lemma OffsetNext(ls: seq<Layer>, k: nat)
    requires k < |ls|
    ensures Offset(ls, k + 1) == Offset(ls, k) + HeaderSize(ls[k])
  {}

  lemma {:induction false} OffsetGrows(ls: seq<Layer>, k: nat, n: nat)
    requires k <= n <= |ls|
    ensures Offset(ls, k) <= Offset(ls, n)
  {
    if k < n {
      OffsetGrows(ls, k, n - 1);
    }
  }

  predicate Plains(ls: seq<Layer>, i: nat, n: nat) {
    i <= n <= |ls| && forall k :: i <= k < n ==> Plain(ls[k])
  }

  /** The frame in which layer n begins, if layer i begins in f. */
  function Begin(e: Endian, ls: seq<Layer>, i: nat, n: nat, f: Frame): (g: Frame)
    requires Plains(ls, i, n) && Small(ls, i, f)
    ensures |g.buf| == |f.buf| && Small(ls, n, g) && g.len - f.len == Offset(ls, n) - Offset(ls, i)
    decreases n - i
  {
    if n == i then f
    else
      SmallFits(ls, i, f);
      EnterSmall(e, ls, i, f);
      OffsetNext(ls, i);
      Begin(e, ls, i + 1, n, Enter(e, ls[i], i, f))
  }

  /** Layer i begins at its place and succeeds. */
  predicate Succeeds(e: Endian, ls: seq<Layer>, i: nat, f: Frame) {
    && i < |ls| && f.len == Offset(ls, i)
    && Tame(ls, i) && Small(ls, i, f) && Encode(e, ls, i, f).0.Typ?
  }

  /** A plain layer that succeeds, in its two halves. */
  lemma Between(e: Endian, ls: seq<Layer>, i: nat, f: Frame)
    requires Succeeds(e, ls, i, f) && Plain(ls[i])
    ensures HeaderFits(ls[i], f.len, f) && i + 1 < |ls|
    ensures var g := Enter(e, ls[i], i, f);
      var (next, h) := Encode(e, ls, i + 1, g);
      && g.len == f.len + HeaderSize(ls[i]) <= |f.buf|
      && Succeeds(e, ls, i + 1, g)
      && next == Typ(KindOf(ls[i + 1]))
      && Encode(e, ls, i, f) == Leave(e, ls[i], i, f.len, next, h)
      && Encode(e, ls, i, f).1.len == h.len
  {
    hide Encode, Enter, Leave;
    SmallFits(ls, i, f);
    EncodePlain(e, ls, i, f);
    EnterSmall(e, ls, i, f);
    var g := Enter(e, ls[i], i, f);
    var (next, h) := Encode(e, ls, i + 1, g);
    LeaveLength(e, ls[i], i, f.len, next, h);
    KindReturned(e, ls, i + 1, g);
    OffsetNext(ls, i);
  }

  lemma {:induction false} Begun(e: Endian, ls: seq<Layer>, i: nat, n: nat, f: Frame)
    requires Succeeds(e, ls, i, f) && Plains(ls, i, n) && n < |ls|
    ensures Succeeds(e, ls, n, Begin(e, ls, i, n, f))
    ensures Encode(e, ls, n, Begin(e, ls, i, n, f)).1.len == Encode(e, ls, i, f).1.len
    decreases n - i
  {
    hide Encode, Enter, Succeeds;
    if i < n {
      Between(e, ls, i, f);
      Begun(e, ls, i + 1, n, Enter(e, ls[i], i, f));
    }
  }

  // ---------------------------------------------------------------- IPv4 headers

  /** Byte k of the IPv4 header of layer n as its second half finds it. */
  function HeaderByte(ls: seq<Layer>, n: nat, k: nat): u8
    requires n < |ls| && ls[n].Ipv4? && k < 20
  {
    Seen(ls, n + 1, Offset(ls, n) + 20, Offset(ls, n) + k, Ipv4Header(ls[n])[k])
  }

  /** The length that the header of layer n gives for itself. */
  function LengthOf(ls: seq<Layer>, n: nat): (len: nat)
    requires n < |ls| && ls[n].Ipv4?
    ensures len <= 60
  {
    HeaderByte(ls, n, 0) % 0x10 * 4
  }

  /** Layer n stores the checksum of the next header at j. */
  predicate Lands(ls: seq<Layer>, n: nat, j: nat) {
    n + 1 < |ls| && ls[n].Ipv4? && L4(KindOf(ls[n + 1])) &&
    var at := Offset(ls, n) + LengthOf(ls, n) + CksumField(KindOf(ls[n + 1]));
    at <= j < at + 2
  }

  /** No checksum that one of the layers from i up to n stores lands in the bytes from lo up to hi. */
  predicate Untouched(ls: seq<Layer>, i: nat, n: nat, lo: nat, hi: nat) {
    forall m, j :: i <= m < n && lo <= j < hi ==> !Lands(ls, m, j)
  }

  /** What the second half of the IPv4 layer n works on. */
  function Found(e: Endian, ls: seq<Layer>, n: nat, f: Frame): (s: seq<u8>)
    requires Succeeds(e, ls, n, f) && ls[n].Ipv4?
    ensures |s| == |f.buf| - f.len >= 60
  {
    Between(e, ls, n, f);
    Encode(e, ls, n + 1, Enter(e, ls[n], n, f)).1.buf[f.len..]
  }

  lemma FoundByte(e: Endian, ls: seq<Layer>, n: nat, f: Frame, k: nat)
    requires n < |ls| && Succeeds(e, ls, n, f) && ls[n].Ipv4? && k < 20
    ensures Found(e, ls, n, f)[k] == HeaderByte(ls, n, k)
  {
    hide *;
    Ipv4Size(ls[n]);
    AtPlace(e, ls, n, f);
    Between(e, ls, n, f);
    var g := Enter(e, ls[n], n, f);
    FoundIs(e, ls, n, f);
    EncodeSeen(e, ls, n + 1, g, f.len + k);
    EnterIpv4At(e, ls[n], n, f, k);
    HeaderByteIs(ls, n, k);
  }

  lemma FoundIs(e: Endian, ls: seq<Layer>, n: nat, f: Frame)
    requires Succeeds(e, ls, n, f) && ls[n].Ipv4?
    ensures HeaderFits(ls[n], f.len, f) && f.len <= |f.buf|
    ensures Found(e, ls, n, f) == Encode(e, ls, n + 1, Enter(e, ls[n], n, f)).1.buf[f.len..]
  {
    hide Encode, Enter, Succeeds;
    Between(e, ls, n, f);
  }

  lemma HeaderByteIs(ls: seq<Layer>, n: nat, k: nat)
    requires n < |ls| && ls[n].Ipv4? && k < 20
    ensures HeaderByte(ls, n, k) == Seen(ls, n + 1, Offset(ls, n) + 20, Offset(ls, n) + k, Ipv4Header(ls[n])[k])
  {
    hide Seen, Ipv4Header;
  }

  lemma Ipv4Size(l: Layer)
    requires l.Ipv4?
    ensures HeaderSize(l) == 20 && Plain(l)
  {}

  lemma FoundLength(e: Endian, ls: seq<Layer>, n: nat, f: Frame)
    requires n < |ls| && Succeeds(e, ls, n, f) && ls[n].Ipv4?
    ensures HdrLen(Found(e, ls, n, f)) == LengthOf(ls, n)
  {
    hide Found, Succeeds, HeaderByte;
    FoundByte(e, ls, n, f, 0);
  }

  lemma AtPlace(e: Endian, ls: seq<Layer>, i: nat, f: Frame)
    requires Succeeds(e, ls, i, f) && Plain(ls[i])
    ensures f.len == Offset(ls, i) && HeaderFits(ls[i], f.len, f)
    ensures i + 1 < |ls| && Tame(ls, i + 1) && Small(ls, i + 1, Enter(e, ls[i], i, f))
    ensures Encode(e, ls, i + 1, Enter(e, ls[i], i, f)).0.Typ? && Encode(e, ls, i, f).0.Typ?
  {
    hide Encode, Enter, Tame, Small;
    Between(e, ls, i, f);
  }

  lemma EnterIpv4At(e: Endian, l: Layer, i: nat, f: Frame, k: nat)
    requires l.Ipv4? && HeaderFits(l, f.len, f) && k < 20
    ensures Enter(e, l, i, f).buf[f.len + k] == Ipv4Header(l)[k]
  {
    hide Ipv4Header;
  }

  lemma LeaveIpv4Is(e: Endian, l: Layer, i: nat, off: nat, kind: Kind, f: Frame)
    requires l.Ipv4? && Fits(f, off, 20) && Leave(e, l, i, off, Typ(kind), f).0.Typ?
    ensures var t := LeaveIpv4(e, f.buf[off..], kind, Cut16(f.len - off));
      t.Some? && Leave(e, l, i, off, Typ(kind), f).1.buf[off..] == t.value
  {
    hide LeaveIpv4, KindOf;
  }

  /** The second half of IPv4 makes t of s. */
  predicate LeftBy(e: Endian, s: seq<u8>, kind: Kind, total: u16, t: seq<u8>) {
    |s| >= 20 && LeaveIpv4(e, s, kind, total) == Some(t)
  }

  /** The second half of the IPv4 layer n, on what it finds. */
  lemma Ipv4Leaves(e: Endian, ls: seq<Layer>, n: nat, f: Frame)
    requires Succeeds(e, ls, n, f) && ls[n].Ipv4?
    ensures n + 1 < |ls|
    ensures var r := Encode(e, ls, n, f).1;
      LeftBy(e, Found(e, ls, n, f), KindOf(ls[n + 1]), Cut16(r.len - f.len), r.buf[f.len..])
  {
    hide Encode, Enter, Leave, LeaveIpv4, KindOf, Succeeds;
    Between(e, ls, n, f);
    AtPlace(e, ls, n, f);
    LeaveIpv4Is(e, ls[n], n, f.len, KindOf(ls[n + 1]), Encode(e, ls, n + 1, Enter(e, ls[n], n, f)).1);
  }

  // ---------------------------------------------------------------- framing

  /** Outside IPv4 a second half stays within the header. */
  lemma LeaveAbove(e: Endian, l: Layer, i: nat, off: nat, next: Ret, f: Frame)
    requires Plain(l) && HeaderFits(l, off, f) && !l.Ipv4?
    ensures var r := Leave(e, l, i, off, next, f).1;
      forall j :: off + HeaderSize(l) <= j < |f.buf| ==> r.buf[j] == f.buf[j]
  {}

  /** What the second half of layer i does to the bytes behind its header: nothing, unless its checksum lands there. */
  lemma LeaveBehind(e: Endian, ls: seq<Layer>, i: nat, f: Frame, j: nat)
    requires Succeeds(e, ls, i, f) && Plain(ls[i]) && f.len + HeaderSize(ls[i]) <= j < |f.buf| && !Lands(ls, i, j)
    ensures HeaderFits(ls[i], f.len, f)
    ensures Encode(e, ls, i, f).1.buf[j] == Encode(e, ls, i + 1, Enter(e, ls[i], i, f)).1.buf[j]
  {
    hide Encode, Enter, Leave, LeaveIpv4, LengthOf, KindOf, CksumField, HdrLen;
    Between(e, ls, i, f);
    var (next, h) := Encode(e, ls, i + 1, Enter(e, ls[i], i, f));
    if ls[i].Ipv4? {
      var r := Encode(e, ls, i, f).1;
      Ipv4Leaves(e, ls, i, f);
      FoundLength(e, ls, i, f);
      AtPlace(e, ls, i, f);
      LeaveKeeps(e, Found(e, ls, i, f), KindOf(ls[i + 1]), Cut16(r.len - f.len), j - f.len);
      assert r.buf[j] == r.buf[f.len..][j - f.len] && h.buf[j] == h.buf[f.len..][j - f.len];
    } else {
      LeaveAbove(e, ls[i], i, f.len, next, h);
    }
  }

  /**
   * Every byte from layer n on is what layer n and those inside made it, whatever encloses them, unless the
   * checksum of an enclosing IPv4 layer lands on it.
   */
  lemma {:induction false} Settled(e: Endian, ls: seq<Layer>, i: nat, n: nat, f: Frame, j: nat)
    requires Succeeds(e, ls, i, f) && Plains(ls, i, n) && n < |ls| && Offset(ls, n) <= j < |f.buf|
    requires forall m :: i <= m < n ==> !Lands(ls, m, j)
    ensures Encode(e, ls, i, f).1.buf[j] == Encode(e, ls, n, Begin(e, ls, i, n, f)).1.buf[j]
    decreases n - i
  {
    hide Encode, Enter, Succeeds, Lands;
    if i < n {
      Between(e, ls, i, f);
      AtPlace(e, ls, i, f);
      OffsetNext(ls, i);
      OffsetGrows(ls, i + 1, n);
      Settled(e, ls, i + 1, n, Enter(e, ls[i], i, f), j);
      LeaveBehind(e, ls, i, f, j);
    }
  }
}
