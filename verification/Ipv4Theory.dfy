/**
 * The second half of the IPv4 layer, whatever the layers inside left of its header: s is the storage from the
 * header on, and its first byte says where the second half looks for the next header.
 */
module Ipv4Theory {
  import opened Gf2
  import opened Checksum
  import opened Layers
  import opened Options

  predicate L4(kind: Kind) { kind == UdpType || kind == TcpType }

  function L4Size(kind: Kind): nat { if kind == UdpType then 8 else 20 }

  function ProtocolOf(kind: Kind): u8 {
    if kind == UdpType then IPPROTO_UDP else if kind == TcpType then IPPROTO_TCP else 0
  }

  // ---------------------------------------------------------------- steps

  /** s with total_length and the protocol. */
  function Marked(s: seq<u8>, kind: Kind, total: u16): (t: seq<u8>)
    requires |s| >= 20
    ensures |t| == |s|
  {
    var s1 := Put16(s, 2, total);
    if L4(kind) then Put(s1, 9, [ProtocolOf(kind)]) else s1
  }

  lemma MarkedFields(s: seq<u8>, kind: Kind, total: u16)
    requires |s| >= 20
    ensures var t := Marked(s, kind, total);
      && HdrLen(t) == HdrLen(s) && TotalLength(t) == total
      && (L4(kind) ==> t[9] == ProtocolOf(kind))
      && forall j :: 0 <= j < |s| && j != 2 && j != 3 && (j != 9 || !L4(kind)) ==> t[j] == s[j]
  {
    Be16Put(total, Marked(s, kind, total), 2);
  }

  lemma Be16Put(w: u16, s: seq<u8>, i: nat)
    requires i + 2 <= |s| && s[i] == BeBytes(w)[0] && s[i + 1] == BeBytes(w)[1]
    ensures Be16(s, i) == w
  {}

  /** Where the second half puts the checksum of the next header. */
  function FieldAt(s: seq<u8>, kind: Kind): nat
    requires |s| >= 20
  {
    HdrLen(s) + CksumField(kind)
  }

  /** The storage when that checksum is computed: only UDP clears the field. */
  function Cleared(s: seq<u8>, kind: Kind): (t: seq<u8>)
    requires |s| >= 20 && FieldAt(s, kind) + 2 <= |s|
    ensures |t| == |s|
  {
    if kind == UdpType then Put(s, FieldAt(s, kind), [0, 0]) else s
  }

  lemma PatchL4Is(e: Endian, s: seq<u8>, kind: Kind)
    requires |s| >= 20 && PatchL4(e, s, kind).Some?
    ensures FieldAt(s, kind) + 2 <= |s|
    ensures var clear := Cleared(s, kind);
      && Covered(clear, clear[HdrLen(s)..])
      && PatchL4(e, s, kind).value
           == Put(clear, FieldAt(s, kind), Stored(e, UdpTcpCksum(e, clear, clear[HdrLen(s)..])))
  {
    hide UdpTcpCksum, Stored, Covered, Put;
  }

  /** The storage before the header checksum. */
  function Patched(e: Endian, s: seq<u8>, kind: Kind, total: u16): (t: Option<seq<u8>>)
    requires |s| >= 20
    ensures t.Some? ==> |t.value| == |s|
  {
    if L4(kind) then PatchL4(e, Marked(s, kind, total), kind) else Some(Marked(s, kind, total))
  }

  lemma LeaveIs(e: Endian, s: seq<u8>, kind: Kind, total: u16)
    requires |s| >= 20 && LeaveIpv4(e, s, kind, total).Some?
    ensures Patched(e, s, kind, total).Some? && HdrLen(Patched(e, s, kind, total).value) <= |s|
    ensures var p := Patched(e, s, kind, total).value;
      LeaveIpv4(e, s, kind, total).value == Store(e, p, 10, Ipv4Cksum(e, p))
  {
    hide PatchL4, Ipv4Cksum, Stored, HdrLen;
    PutStore(e, Patched(e, s, kind, total).value, 10, Ipv4Cksum(e, Patched(e, s, kind, total).value));
  }

  lemma PutStore(e: Endian, s: seq<u8>, at: nat, w: u16)
    requires at + 2 <= |s|
    ensures Put(s, at, Stored(e, w)) == Store(e, s, at, w)
  {}

  /** Every byte but these, and the checksum of the next header at its place, is left as it was. */
  predicate Touches(s: seq<u8>, kind: Kind, j: nat)
    requires |s| >= 20
  {
    j == 2 || j == 3 || (j == 9 && L4(kind)) || (L4(kind) && FieldAt(s, kind) <= j < FieldAt(s, kind) + 2)
  }

  lemma PatchedKeeps(e: Endian, s: seq<u8>, kind: Kind, total: u16)
    requires |s| >= 20 && Patched(e, s, kind, total).Some?
    ensures var p := Patched(e, s, kind, total).value;
      && HdrLen(p) == HdrLen(s) && TotalLength(p) == total && (L4(kind) ==> p[9] == ProtocolOf(kind))
      && forall j :: 0 <= j < |s| && !Touches(s, kind, j) ==> p[j] == s[j]
  {
    hide PatchL4, Marked, Stored, UdpTcpCksum, Covered, Put;
    var m := Marked(s, kind, total);
    MarkedFields(s, kind, total);
    if L4(kind) {
      PatchL4Is(e, m, kind);
      var p := PatchL4(e, m, kind).value;
      var at := FieldAt(m, kind);
      assert at == FieldAt(s, kind) && at % 4 != 1 && at >= 6 && at != 8;
      assert forall j :: 0 <= j < |s| && !(at <= j < at + 2) ==> p[j] == m[j];
    }
  }

  // ---------------------------------------------------------------- results

  lemma LeaveKeeps(e: Endian, s: seq<u8>, kind: Kind, total: u16, j: nat)
    requires |s| >= 20 && LeaveIpv4(e, s, kind, total).Some?
    requires j < |s| && j != 10 && j != 11 && !Touches(s, kind, j)
    ensures LeaveIpv4(e, s, kind, total).value[j] == s[j]
  {
    hide LeaveIpv4, Patched, Touches, Ipv4Cksum, Stored;
    LeaveIs(e, s, kind, total);
    PatchedKeeps(e, s, kind, total);
  }

  lemma LeaveFields(e: Endian, s: seq<u8>, kind: Kind, total: u16)
    requires |s| >= 20 && LeaveIpv4(e, s, kind, total).Some?
    ensures var t := LeaveIpv4(e, s, kind, total).value;
      HdrLen(t) == HdrLen(s) && TotalLength(t) == total && (L4(kind) ==> t[9] == ProtocolOf(kind))
  {
    hide LeaveIpv4, Patched, Touches, Ipv4Cksum, Stored;
    LeaveIs(e, s, kind, total);
    PatchedKeeps(e, s, kind, total);
  }

  /** The header, as long as it says it is, adds up to all ones exactly if its checksum field was clear. */
  lemma LeaveSums(e: Endian, s: seq<u8>, kind: Kind, total: u16)
    requires |s| >= 20 && LeaveIpv4(e, s, kind, total).Some? && HdrLen(s) >= 12
    ensures HdrLen(s) <= |s|
    ensures RawCksum(e, LeaveIpv4(e, s, kind, total).value[..HdrLen(s)]) == 0xffff <==> WordAt(e, s, 10) % 0xffff == 0
  {
    hide LeaveIpv4, Patched, Ipv4Cksum, Stored, HdrLen, RawCksum;
    LeaveIs(e, s, kind, total);
    PatchedKeeps(e, s, kind, total);
    HeaderSumsToOnes(e, Patched(e, s, kind, total).value);
  }

  /** A header of at least 16 bytes does not overlap the checksum field behind it. */
  lemma LeaveVerifies(e: Endian, s: seq<u8>, kind: Kind, total: u16)
    requires |s| >= 20 && L4(kind) && LeaveIpv4(e, s, kind, total).Some?
    requires HdrLen(s) >= 16 && HdrLen(s) + L4Size(kind) <= total
    ensures FieldAt(s, kind) + 2 <= |s|
    ensures var (n, t) := (HdrLen(s), LeaveIpv4(e, s, kind, total).value);
      && Covered(t, t[n..])
      && (Verify(e, t, t[n..]) == 0 <==> kind == UdpType || WordAt(e, s, FieldAt(s, kind)) % 0xffff == 0)
  {
    hide LeaveIpv4, PatchL4, Marked, Covered, Verify, Ipv4Cksum, WordAt;
    var m := Marked(s, kind, total);
    LeaveIs(e, s, kind, total);
    MarkedFields(s, kind, total);
    PatchedKeeps(e, s, kind, total);
    PatchL4Is(e, m, kind);
    var p := PatchL4(e, m, kind).value;
    PatchL4Verifies(e, m, kind, p);
    SameWordAt(e, s, m, FieldAt(s, kind));
    HeaderPatched(e, p, LeaveIpv4(e, s, kind, total).value, HdrLen(s));
  }

  lemma SameWordAt(e: Endian, s: seq<u8>, t: seq<u8>, i: nat)
    requires i + 2 <= |s| == |t| && s[i] == t[i] && s[i + 1] == t[i + 1]
    ensures WordAt(e, s, i) == WordAt(e, t, i)
  {}

  lemma PatchL4Verifies(e: Endian, s: seq<u8>, kind: Kind, t: seq<u8>)
    requires |s| >= 20 && L4(kind) && HdrLen(s) >= 16 && HdrLen(s) + L4Size(kind) <= TotalLength(s)
    requires FieldAt(s, kind) + 2 <= |s|
    requires var clear := Cleared(s, kind);
      && Covered(clear, clear[HdrLen(s)..])
      && t == Put(clear, FieldAt(s, kind), Stored(e, UdpTcpCksum(e, clear, clear[HdrLen(s)..])))
    ensures HdrLen(t) == HdrLen(s) && Covered(t, t[HdrLen(s)..])
    ensures Verify(e, t, t[HdrLen(s)..]) == 0 <==> kind == UdpType || WordAt(e, s, FieldAt(s, kind)) % 0xffff == 0
  {
    hide UdpTcpCksum, Verify, Covered, Stored, Put, TotalLength, HdrLen, Cleared, WordAt, Store;
    var n, at, clear := HdrLen(s), CksumField(kind), Cleared(s, kind);
    ClearedFields(s, kind);
    ClearedWord(e, s, kind);
    var ck := UdpTcpCksum(e, clear, clear[n..]);
    PutTail(e, clear, n, at, ck);
    assert Field(clear, clear[n..], at);
    GenerateOver(e, clear, clear[n..], at);
    VerifyHeader(e, clear, t, t[n..]);
  }

  lemma ClearedFields(s: seq<u8>, kind: Kind)
    requires |s| >= 20 && FieldAt(s, kind) + 2 <= |s| && HdrLen(s) >= 16
    ensures HdrLen(Cleared(s, kind)) == HdrLen(s) && TotalLength(Cleared(s, kind)) == TotalLength(s)
  {}

  lemma ClearedWord(e: Endian, s: seq<u8>, kind: Kind)
    requires |s| >= 20 && FieldAt(s, kind) + 2 <= |s|
    ensures WordAt(e, Cleared(s, kind)[HdrLen(s)..], CksumField(kind))
         == if kind == UdpType then 0 else WordAt(e, s, FieldAt(s, kind))
  {
    hide HdrLen;
  }

  lemma PutTail(e: Endian, s: seq<u8>, n: nat, at: nat, w: u16)
    requires n + at + 2 <= |s| && n + at >= 20
    ensures var t := Put(s, n + at, Stored(e, w));
      && t[n..] == Store(e, s[n..], at, w) && t[0] == s[0]
      && t[..10] == s[..10] && t[12..20] == s[12..20]
  {}

  /** Verification reads these bytes of the header and no others. */
  lemma VerifyHeader(e: Endian, ip: seq<u8>, ip': seq<u8>, l4: seq<u8>)
    requires |ip| >= 20 && |ip'| >= 20 && ip'[..10] == ip[..10] && ip'[12..20] == ip[12..20]
    requires Covered(ip, l4)
    ensures HdrLen(ip') == HdrLen(ip) && Covered(ip', l4) && Verify(e, ip', l4) == Verify(e, ip, l4)
  {
    assert forall k :: 0 <= k < 10 ==> ip'[k] == ip'[..10][k] == ip[k];
    assert HdrLen(ip') == HdrLen(ip) && TotalLength(ip') == TotalLength(ip);
    assert PseudoHeader(ip') == PseudoHeader(ip);
    hide HdrLen, TotalLength, PseudoHeader, RawCksum;
  }

  /** The checksum of the header itself does not matter to Verify. */
  lemma HeaderPatched(e: Endian, t: seq<u8>, u: seq<u8>, n: nat)
    requires |t| >= 20 && 12 <= n <= |t| && Covered(t, t[n..])
    requires HdrLen(t) <= |t| && u == Store(e, t, 10, Ipv4Cksum(e, t))
    ensures Covered(u, u[n..]) && Verify(e, u, u[n..]) == Verify(e, t, t[n..])
  {
    hide Covered, Verify, Ipv4Cksum;
    assert u[n..] == t[n..] && u[..10] == t[..10] && u[12..20] == t[12..20];
    VerifyHeader(e, t, u, t[n..]);
  }

  /** Nor does anything behind the segment. */
  lemma VerifyPrefix(e: Endian, ip: seq<u8>, ip': seq<u8>, n: nat)
    requires |ip| == |ip'| && 20 <= |ip| && 20 <= TotalLength(ip) <= |ip| && HdrLen(ip) == n <= TotalLength(ip)
    requires ip'[..TotalLength(ip)] == ip[..TotalLength(ip)]
    ensures HdrLen(ip') == n && Covered(ip, ip[n..]) && Covered(ip', ip'[n..])
    ensures Verify(e, ip', ip'[n..]) == Verify(e, ip, ip[n..])
  {
    var m := TotalLength(ip);
    assert forall k :: 0 <= k < m ==> ip'[k] == ip'[..m][k] == ip[k];
    assert TotalLength(ip') == m && HdrLen(ip') == n;
    assert PseudoHeader(ip') == PseudoHeader(ip);
    assert ip'[n..][..m - n] == ip'[..m][n..] == ip[n..][..m - n];
    hide HdrLen, TotalLength, PseudoHeader, RawCksum;
  }
}
