/** From a captured frame to its fields. Specifications read what is left of the frame; the methods move a
    bounds-checked cursor over it. */
module Decoder {
  import opened Serial
  import opened Dissection
  import opened FlowModel
  import opened Checksum

  const ETHERTYPE_IPV4: nat := 0x0800
  const ETHERTYPE_ARP: nat := 0x0806
  const ETHERTYPE_IPV6: nat := 0x86DD
  const ETHERTYPE_VLAN: nat := 0x8100
  const ETHERTYPE_QINQ: nat := 0x88A8

  const HOP_OPTIONS: byte := 0
  const ICMP_PROTO: byte := 1
  const TCP_PROTO: byte := 6
  const UDP_PROTO: byte := 17
  const ROUTING: byte := 43
  const FRAGMENT: byte := 44
  const ICMPV6_PROTO: byte := 58
  const NO_NEXT: byte := 59
  const DESTINATION_OPTIONS: byte := 60

  /** The loopback header is in the byte order of the host that reads it. */
  datatype LinkType = Null(littleEndian: bool) | Ethernet | Raw | LinuxSll | LinuxSll2 | OtherLink

  datatype Failure =
    | EmptyFrame | TruncatedEthernet | TruncatedVlan | TruncatedSll | TruncatedSll2 | TruncatedLoopback
    | UnsupportedLink | TruncatedIpv4 | NotIpv4 | BadIhl | TruncatedIpv6 | NotIpv6 | UnsupportedEthertype
    | BadDataOffset

  /** Zero address and fields until something is read. */
  datatype Frame = Frame(
    hasL2: bool, srcMac: seq<byte>, dstMac: seq<byte>, hasVlan: bool, vlanId: nat, ethertype: nat,
    l3: L3Proto, src: Address, dst: Address, ttl: byte, ipProto: byte, ipId: nat, dscp: nat,
    fragmented: bool, firstFragment: bool, badIpChecksum: bool,
    l4: L4Proto, sport: nat, dport: nat, sn: uint32, ack: uint32, window: nat, tcpFlags: byte,
    icmpType: byte, icmpCode: byte,
    payload: seq<byte>, truncated: bool, error: Option<Failure>)

  function Zeros(n: nat): seq<byte> {
    seq(n, _ => 0)
  }

  const NO_ADDRESS: Address := IpAddress(false, Zeros(16))

  const BLANK: Frame := Frame(
    false, Zeros(6), Zeros(6), false, 0, 0,
    NoL3, NO_ADDRESS, NO_ADDRESS, 0, 0, 0, 0,
    false, true, false,
    NoL4, 0, 0, 0, 0, 0, 0,
    0, 0,
    [], false, None)

  function U32(d: seq<byte>, p: nat): uint32
    requires p + 4 <= |d|
  {
    65536 * U16(d, p) + U16(d, p + 2)
  }

  function FromV4(d: seq<byte>, p: nat): Address
    requires p + 4 <= |d|
  {
    IpAddress(false, d[p..p + 4] + Zeros(12))
  }

  function FromV6(d: seq<byte>, p: nat): Address
    requires p + 16 <= |d|
  {
    IpAddress(true, d[p..p + 16])
  }

  // ----------------------------------------------------------------- transport

  function WithTcp(h: seq<byte>, out: Frame): Frame
    requires |h| >= 20
  {
    out.(l4 := TCP, sport := U16(h, 0), dport := U16(h, 2), sn := U32(h, 4), ack := U32(h, 8),
         window := U16(h, 14), tcpFlags := h[13])
  }

  function TcpLength(h: seq<byte>): nat
    requires |h| >= 20
  {
    h[12] / 16 * 4
  }

  function TcpOf(s: seq<byte>, out: Frame): Frame {
    if |s| < 20 then out.(l4 := TCP, truncated := true)
    else if TcpLength(s) < 20 then WithTcp(s, out).(error := Some(BadDataOffset))
    else if |s| < TcpLength(s) then WithTcp(s, out).(truncated := true)
    else WithTcp(s, out).(payload := s[TcpLength(s)..])
  }

  /** The shorter of the declared and the captured payload. */
  function UdpLength(s: seq<byte>): nat
    requires |s| >= 8
  {
    var declared := if U16(s, 4) >= 8 then U16(s, 4) - 8 else 0;
    if declared < |s| - 8 then declared else |s| - 8
  }

  function UdpOf(s: seq<byte>, out: Frame): Frame {
    if |s| < 8 then out.(l4 := UDP, truncated := true)
    else out.(l4 := UDP, sport := U16(s, 0), dport := U16(s, 2), payload := s[8..8 + UdpLength(s)])
  }

  function IcmpOf(s: seq<byte>, out: Frame): Frame {
    var l4 := if out.ipProto == ICMP_PROTO then ICMP else ICMPv6;
    if |s| < 4 then out.(l4 := l4, truncated := true)
    else out.(l4 := l4, icmpType := s[0], icmpCode := s[1], payload := s[4..])
  }

  function L4Of(s: seq<byte>, out: Frame): Frame {
    if out.ipProto == TCP_PROTO then TcpOf(s, out)
    else if out.ipProto == UDP_PROTO then UdpOf(s, out)
    else if out.ipProto == ICMP_PROTO || out.ipProto == ICMPV6_PROTO then IcmpOf(s, out)
    else out.(l4 := OtherL4, payload := s)
  }

  // ------------------------------------------------------------------- network

  const MAX_HOPS: nat := 8

  /** Where a walk over extension headers ends: the protocol found, and what is left behind it. */
  datatype Walk = Walk(next: byte, rest: seq<byte>, fragmented: bool, first: bool, truncated: bool)

  predicate IsOptions(next: byte) {
    next == HOP_OPTIONS || next == ROUTING || next == DESTINATION_OPTIONS
  }

  /** The length of an options or routing header, in bytes. */
  function OptionsLength(s: seq<byte>): nat
    requires |s| >= 2
  {
    (s[1] as int) * 8 + 8
  }

  /** One header of the chain: the walk ends, or goes on behind it. */
  datatype Hop = Stop(w: Walk) | On(rest: seq<byte>, next: byte, fragmented: bool, first: bool)

  function HopOf(s: seq<byte>, next: byte, fragmented: bool, first: bool): Hop {
    if IsOptions(next) then
      if |s| < 2 then Stop(Walk(NO_NEXT, s, fragmented, first, true))
      else if |s| < OptionsLength(s) then Stop(Walk(NO_NEXT, s[2..], fragmented, first, true))
      else On(s[OptionsLength(s)..], s[0], fragmented, first)
    else if next == FRAGMENT then
      if |s| < 8 then Stop(Walk(NO_NEXT, s, fragmented, first, true))
      else On(s[8..], s[0], true, U16(s, 2) / 8 == 0)
    else Stop(Walk(next, s, fragmented, first, false))
  }

  /** At most `hops` steps; the protocol behind the last of them is not looked at. */
  function Resolve(s: seq<byte>, next: byte, hops: nat, fragmented: bool, first: bool): Walk
    decreases hops
  {
    if hops == 0 then Walk(NO_NEXT, s, fragmented, first, false)
    else match HopOf(s, next, fragmented, first)
      case Stop(w) => w
      case On(rest, after, frag, head) => Resolve(rest, after, hops - 1, frag, head)
  }

  function Ipv4Length(s: seq<byte>): nat
    requires |s| >= 20
  {
    s[0] % 16 * 4
  }

  function WithIpv4(h: seq<byte>, out: Frame): Frame
    requires |h| >= 20
  {
    out.(l3 := IPv4, src := FromV4(h, 12), dst := FromV4(h, 16), ttl := h[8], ipProto := h[9], ipId := U16(h, 4),
         dscp := h[1] / 4, fragmented := U16(h, 6) / 0x2000 % 2 == 1 || U16(h, 6) % 0x2000 > 0,
         firstFragment := U16(h, 6) % 0x2000 == 0)
  }

  /** Why a fixed header is refused. */
  function Ipv4Refusal(s: seq<byte>): Option<Failure> {
    if |s| < 20 then Some(TruncatedIpv4)
    else if s[0] / 16 != 4 then Some(NotIpv4)
    else if Ipv4Length(s) < 20 then Some(BadIhl)
    else None
  }

  /** The fixed header, and whether the whole one verifies. */
  function CheckedIpv4(s: seq<byte>, out: Frame): Frame
    requires |s| >= 20 && Ipv4Length(s) <= |s|
  {
    WithIpv4(s, out).(badIpChecksum := InternetChecksum(s[..Ipv4Length(s)]) != 0)
  }

  /** Only the first fragment starts with a transport header. */
  function BehindIpv4(s: seq<byte>, out: Frame): Frame {
    if !out.firstFragment then out.(l4 := OtherL4, payload := s) else L4Of(s, out)
  }

  function Ipv4Of(s: seq<byte>, out: Frame): Frame {
    match Ipv4Refusal(s)
    case Some(why) => out.(error := Some(why))
    case None =>
      if |s| < Ipv4Length(s) then WithIpv4(s, out).(truncated := true)
      else BehindIpv4(s[Ipv4Length(s)..], CheckedIpv4(s, out))
  }

  /** The fixed header, and where the walk behind it ended. */
  function WithIpv6(h: seq<byte>, w: Walk, out: Frame): Frame
    requires |h| >= 40
  {
    out.(l3 := IPv6, src := FromV6(h, 8), dst := FromV6(h, 24), ttl := h[7], ipProto := w.next,
         fragmented := w.fragmented, firstFragment := w.first, truncated := out.truncated || w.truncated)
  }

  function BehindIpv6(s: seq<byte>, w: Walk, out: Frame): Frame
    requires |s| >= 40
  {
    var o := WithIpv6(s, w, out);
    if o.truncated then o
    else if !o.firstFragment then o.(l4 := OtherL4)
    else L4Of(w.rest, o)
  }

  function Ipv6Of(s: seq<byte>, out: Frame): Frame {
    if |s| < 40 then out.(error := Some(TruncatedIpv6))
    else if s[0] / 16 != 6 then out.(error := Some(NotIpv6))
    else BehindIpv6(s, Resolve(s[40..], s[6], MAX_HOPS, out.fragmented, out.firstFragment), out)
  }

  function L3Of(s: seq<byte>, ethertype: nat, out: Frame): Frame {
    if ethertype == ETHERTYPE_ARP then out.(l3 := ARP, l4 := NoL4)
    else if ethertype == ETHERTYPE_IPV4 then Ipv4Of(s, out)
    else if ethertype == ETHERTYPE_IPV6 then Ipv6Of(s, out)
    else out.(l3 := NoL3, error := Some(UnsupportedEthertype))
  }

  // ---------------------------------------------------------------------- link

  predicate IsTag(ethertype: nat) {
    ethertype == ETHERTYPE_VLAN || ethertype == ETHERTYPE_QINQ
  }

  /** What is behind the VLAN tags. */
  datatype Untagged = Untagged(whole: bool, rest: seq<byte>, ethertype: nat, out: Frame)

  /** Unwraps up to `tags` VLAN tags. */
  function Unwrap(s: seq<byte>, ethertype: nat, tags: nat, out: Frame): Untagged {
    if tags == 0 || !IsTag(ethertype) then Untagged(true, s, ethertype, out)
    else if |s| < 4 then Untagged(false, s, ethertype, out)
    else Unwrap(s[4..], U16(s, 2), tags - 1, out.(hasVlan := true, vlanId := U16(s, 0) % 0x1000))
  }

  /** The link-layer addresses. */
  function WithMacs(h: seq<byte>): Frame
    requires |h| >= 14
  {
    BLANK.(hasL2 := true, dstMac := h[..6], srcMac := h[6..12])
  }

  /** Behind the Ethernet header whose addresses are in `out`. */
  function TaggedOf(s: seq<byte>, ethertype: nat, out: Frame): Frame {
    var u := Unwrap(s, ethertype, 2, out);
    if !u.whole then u.out.(error := Some(TruncatedVlan))
    else L3Of(u.rest, u.ethertype, u.out.(ethertype := u.ethertype))
  }

  /** The loopback family as the host reads it. */
  function LoopbackEthertype(s: seq<byte>, littleEndian: bool): nat
    requires |s| >= 4
  {
    if s[..4] == (if littleEndian then [2, 0, 0, 0] else [0, 0, 0, 2]) then ETHERTYPE_IPV4 else ETHERTYPE_IPV6
  }

  function Skipping(s: seq<byte>, n: nat, ethertype: nat): Frame
    requires n <= |s|
  {
    L3Of(s[n..], ethertype, BLANK.(ethertype := ethertype))
  }

  function PacketOf(data: seq<byte>, link: LinkType): Frame {
    if data == [] then BLANK.(error := Some(EmptyFrame))
    else match link
      case Ethernet =>
        if |data| < 14 then BLANK.(error := Some(TruncatedEthernet))
        else TaggedOf(data[14..], U16(data, 12), WithMacs(data))
      case LinuxSll =>
        if |data| < 16 then BLANK.(error := Some(TruncatedSll)) else Skipping(data, 16, U16(data, 14))
      case LinuxSll2 =>
        if |data| < 20 then BLANK.(error := Some(TruncatedSll2)) else Skipping(data, 20, U16(data, 0))
      case Null(littleEndian) =>
        if |data| < 4 then BLANK.(error := Some(TruncatedLoopback))
        else Skipping(data, 4, LoopbackEthertype(data, littleEndian))
      case Raw => Skipping(data, 0, if data[0] / 16 == 6 then ETHERTYPE_IPV6 else ETHERTYPE_IPV4)
      case OtherLink => BLANK.(error := Some(UnsupportedLink))
  }

  // -------------------------------------------------------------------- cursor

  /** Refuses to hand out more bytes than were captured. */
  class Cursor {
    const data: seq<byte>
    var pos: nat
    var left: nat

    ghost predicate Valid()
      reads this
    {
      pos + left == |data|
    }

    function Rest(): seq<byte>
      requires Valid()
      reads this
    {
      data[pos..]
    }

    constructor (data: seq<byte>)
      ensures Valid() && this.data == data && Rest() == data
    {
      this.data, pos, left := data, 0, |data|;
    }

    method Take(n: nat) returns (ok: bool, h: seq<byte>)
      requires Valid()
      modifies this
      ensures Valid() && (ok <==> n <= |old(Rest())|)
      ensures if ok then h == old(Rest())[..n] && Rest() == old(Rest())[n..] else Rest() == old(Rest())
    {
      if left < n {
        return false, [];
      }
      h := data[pos..pos + n];
      pos := pos + n;
      left := left - n;
      ok := true;
    }

    method Skip(n: nat) returns (ok: bool)
      requires Valid()
      modifies this
      ensures Valid() && (ok <==> n <= |old(Rest())|)
      ensures Rest() == if ok then old(Rest())[n..] else old(Rest())
    {
      ghost var h;
      ok, h := Take(n);
    }
  }

  // ------------------------------------------------------------------- methods

  /** Takes an options or routing header: its two fixed bytes, then as many as it declares. */
  method SkipOptions(cur: Cursor) returns (ok: bool, next: byte)
    requires cur.Valid()
    modifies cur
    ensures cur.Valid() && (ok <==> 2 <= |old(cur.Rest())| && OptionsLength(old(cur.Rest())) <= |old(cur.Rest())|)
    ensures ok ==> next == old(cur.Rest())[0] && cur.Rest() == old(cur.Rest())[OptionsLength(old(cur.Rest()))..]
    ensures !ok ==> cur.Rest() == if |old(cur.Rest())| < 2 then old(cur.Rest()) else old(cur.Rest())[2..]
  {
    ghost var s := cur.Rest();
    next := NO_NEXT;
    var h;
    ok, h := cur.Take(2);
    if !ok { return; }
    next := h[0];
    ok := cur.Skip((h[1] as int) * 8 + 6);
    assert ok ==> s[2..][OptionsLength(s) - 2..] == s[OptionsLength(s)..];
  }

  /** Takes a fragment header. */
  method TakeFragment(cur: Cursor) returns (ok: bool, first: bool, next: byte)
    requires cur.Valid()
    modifies cur
    ensures cur.Valid() && (ok <==> 8 <= |old(cur.Rest())|)
    ensures ok ==> next == old(cur.Rest())[0] && first == (U16(old(cur.Rest()), 2) / 8 == 0)
                   && cur.Rest() == old(cur.Rest())[8..]
    ensures !ok ==> cur.Rest() == old(cur.Rest())
  {
    first, next := true, NO_NEXT;
    var h;
    ok, h := cur.Take(8);
    if ok {
      first, next := U16(h, 2) / 8 == 0, h[0];
    }
  }

  method TakeHop(cur: Cursor, next: byte, fragmented: bool, first: bool) returns (h: Hop)
    requires cur.Valid()
    modifies cur
    ensures cur.Valid() && h == HopOf(old(cur.Rest()), next, fragmented, first)
    ensures cur.Rest() == if h.Stop? then h.w.rest else h.rest
  {
    if IsOptions(next) {
      var ok, after := SkipOptions(cur);
      h := if ok then On(cur.Rest(), after, fragmented, first)
           else Stop(Walk(NO_NEXT, cur.Rest(), fragmented, first, true));
    } else if next == FRAGMENT {
      var ok, head, after := TakeFragment(cur);
      h := if ok then On(cur.Rest(), after, true, head)
           else Stop(Walk(NO_NEXT, cur.Rest(), fragmented, first, true));
    } else {
      h := Stop(Walk(next, cur.Rest(), fragmented, first, false));
    }
  }

  /** Walks past extension headers to the upper-layer protocol. */
  method ResolveIpv6Next(cur: Cursor, start: byte, maxHops: nat, fragmented: bool, firstFragment: bool) returns (w: Walk)
    requires cur.Valid()
    modifies cur
    ensures cur.Valid() && w == Resolve(old(cur.Rest()), start, maxHops, fragmented, firstFragment)
    ensures cur.Rest() == w.rest
  {
    var next, frag, first := start, fragmented, firstFragment;
    ghost var goal := Resolve(cur.Rest(), start, maxHops, fragmented, firstFragment);
    var hops := 0;
    while hops < maxHops
      invariant cur.Valid() && hops <= maxHops
      invariant Resolve(cur.Rest(), next, maxHops - hops, frag, first) == goal
    {
      var h := TakeHop(cur, next, frag, first);
      if h.Stop? { return h.w; }
      next, frag, first := h.next, h.fragmented, h.first;
      hops := hops + 1;
    }
    w := Walk(NO_NEXT, cur.Rest(), frag, first, false);
  }

  /** Header fields read from the bytes taken are those of the frame. */
  lemma SameTcp(s: seq<byte>, h: seq<byte>, out: Frame)
    requires |s| >= 20 && h == s[..20]
    ensures WithTcp(h, out) == WithTcp(s, out) && TcpLength(h) == TcpLength(s)
    ensures TcpLength(s) >= 20 && |s| >= TcpLength(s) ==> s[20..][TcpLength(s) - 20..] == s[TcpLength(s)..]
  {
  }

  lemma SameUdp(s: seq<byte>, h: seq<byte>, out: Frame)
    requires |s| >= 8 && h == s[..8]
    ensures U16(h, 4) == U16(s, 4)
    ensures UdpOf(s, out) == out.(l4 := UDP, sport := U16(h, 0), dport := U16(h, 2), payload := s[8..][..UdpLength(s)])
  {
  }

  lemma SameIpv4(s: seq<byte>, h: seq<byte>, out: Frame)
    requires |s| >= 20 && h == s[..20]
    ensures h[0] == s[0] && Ipv4Length(h) == Ipv4Length(s) && WithIpv4(h, out) == WithIpv4(s, out)
    ensures Ipv4Length(s) >= 20 && |s| >= Ipv4Length(s) ==> s[20..][Ipv4Length(s) - 20..] == s[Ipv4Length(s)..]
  {
    assert h[12..16] == s[12..16] && h[16..20] == s[16..20];
  }

  method DecodeTcp(cur: Cursor, out: Frame) returns (o: Frame)
    requires cur.Valid()
    modifies cur
    ensures cur.Valid() && o == TcpOf(old(cur.Rest()), out)
  {
    ghost var s := cur.Rest();
    o := out.(l4 := TCP);
    var ok, h := cur.Take(20);
    if !ok { return o.(truncated := true); }
    SameTcp(s, h, out);
    o := WithTcp(h, out);
    var length := TcpLength(h);
    if length < 20 { return o.(error := Some(BadDataOffset)); }
    ok := cur.Skip(length - 20);
    if !ok { return o.(truncated := true); }
    o := o.(payload := cur.Rest());
  }

  method DecodeUdp(cur: Cursor, out: Frame) returns (o: Frame)
    requires cur.Valid()
    modifies cur
    ensures cur.Valid() && o == UdpOf(old(cur.Rest()), out)
  {
    ghost var s := cur.Rest();
    o := out.(l4 := UDP);
    var ok, h := cur.Take(8);
    if !ok { return o.(truncated := true); }
    SameUdp(s, h, out);
    var declared := if U16(h, 4) >= 8 then U16(h, 4) - 8 else 0;
    var len := if declared < cur.left then declared else cur.left;
    o := o.(sport := U16(h, 0), dport := U16(h, 2), payload := cur.Rest()[..len]);
  }

  method DecodeL4(cur: Cursor, out: Frame) returns (o: Frame)
    requires cur.Valid()
    modifies cur
    ensures cur.Valid() && o == L4Of(old(cur.Rest()), out)
  {
    if out.ipProto == TCP_PROTO {
      o := DecodeTcp(cur, out);
    } else if out.ipProto == UDP_PROTO {
      o := DecodeUdp(cur, out);
    } else if out.ipProto == ICMP_PROTO || out.ipProto == ICMPV6_PROTO {
      o := out.(l4 := if out.ipProto == ICMP_PROTO then ICMP else ICMPv6);
      var ok, h := cur.Take(4);
      if !ok { return o.(truncated := true); }
      o := o.(icmpType := h[0], icmpCode := h[1], payload := cur.Rest());
    } else {
      o := out.(l4 := OtherL4, payload := cur.Rest());
    }
  }

  /** Takes the fixed header, or tells why it is refused. */
  method TakeIpv4(cur: Cursor) returns (h: seq<byte>, refusal: Option<Failure>)
    requires cur.Valid()
    modifies cur
    ensures cur.Valid() && refusal == Ipv4Refusal(old(cur.Rest()))
    ensures refusal.None? ==> |old(cur.Rest())| >= 20 && h == old(cur.Rest())[..20] && cur.Rest() == old(cur.Rest())[20..]
  {
    var ok;
    ok, h := cur.Take(20);
    if !ok { return h, Some(TruncatedIpv4); }
    if h[0] / 16 != 4 { return h, Some(NotIpv4); }
    refusal := if Ipv4Length(h) < 20 then Some(BadIhl) else None;
  }

  method DecodeBehindIpv4(cur: Cursor, out: Frame) returns (o: Frame)
    requires cur.Valid()
    modifies cur
    ensures cur.Valid() && o == BehindIpv4(old(cur.Rest()), out)
  {
    if !out.firstFragment { return out.(l4 := OtherL4, payload := cur.Rest()); }
    o := DecodeL4(cur, out);
  }

  method DecodeIpv4(cur: Cursor, out: Frame) returns (o: Frame)
    requires cur.Valid()
    modifies cur
    ensures cur.Valid() && o == Ipv4Of(old(cur.Rest()), out)
  {
    var s := cur.Rest();
    var h, refusal := TakeIpv4(cur);
    if refusal.Some? { return out.(error := refusal); }
    SameIpv4(s, h, out);
    var length := Ipv4Length(h);
    o := WithIpv4(h, out);
    if cur.left + 20 >= length {
      var sum := ComputeInternetChecksum(s[..length]);
      o := o.(badIpChecksum := sum != 0);
    }
    var ok := cur.Skip(length - 20);
    if !ok { return o.(truncated := true); }
    o := DecodeBehindIpv4(cur, o);
  }

  method DecodeIpv6(cur: Cursor, out: Frame) returns (o: Frame)
    requires cur.Valid()
    modifies cur
    ensures cur.Valid() && o == Ipv6Of(old(cur.Rest()), out)
  {
    ghost var s := cur.Rest();
    var ok, h := cur.Take(40);
    if !ok { return out.(error := Some(TruncatedIpv6)); }
    if h[0] / 16 != 6 { return out.(error := Some(NotIpv6)); }
    assert h[8..24] == s[8..24] && h[24..40] == s[24..40];
    var w := ResolveIpv6Next(cur, h[6], MAX_HOPS, out.fragmented, out.firstFragment);
    o := WithIpv6(h, w, out);
    if o.truncated { return; }
    if !o.firstFragment { return o.(l4 := OtherL4); }
    o := DecodeL4(cur, o);
  }

  method DecodeL3(cur: Cursor, ethertype: nat, out: Frame) returns (o: Frame)
    requires cur.Valid()
    modifies cur
    ensures cur.Valid() && o == L3Of(old(cur.Rest()), ethertype, out)
  {
    if ethertype == ETHERTYPE_ARP {
      o := out.(l3 := ARP, l4 := NoL4);
    } else if ethertype == ETHERTYPE_IPV4 {
      o := DecodeIpv4(cur, out);
    } else if ethertype == ETHERTYPE_IPV6 {
      o := DecodeIpv6(cur, out);
    } else {
      o := out.(l3 := NoL3, error := Some(UnsupportedEthertype));
    }
  }

  lemma UnwrapOne(s: seq<byte>, h: seq<byte>, ethertype: nat, tags: nat, out: Frame)
    requires tags > 0 && IsTag(ethertype) && |s| >= 4 && h == s[..4]
    ensures Unwrap(s, ethertype, tags, out) ==
            Unwrap(s[4..], U16(h, 2), tags - 1, out.(hasVlan := true, vlanId := U16(h, 0) % 0x1000))
  {
  }

  method UnwrapTags(cur: Cursor, start: nat, out: Frame) returns (u: Untagged)
    requires cur.Valid()
    modifies cur
    ensures cur.Valid() && u == Unwrap(old(cur.Rest()), start, 2, out) && cur.Rest() == u.rest
  {
    var ethertype: nat, o, tags: nat := start, out, 2;
    ghost var goal := Unwrap(cur.Rest(), start, 2, out);
    while tags > 0 && IsTag(ethertype)
      invariant cur.Valid() && Unwrap(cur.Rest(), ethertype, tags, o) == goal
    {
      ghost var s := cur.Rest();
      var ok, h := cur.Take(4);
      if !ok { return Untagged(false, cur.Rest(), ethertype, o); }
      UnwrapOne(s, h, ethertype, tags, o);
      o := o.(hasVlan := true, vlanId := U16(h, 0) % 0x1000);
      ethertype := U16(h, 2);
      tags := tags - 1;
    }
    u := Untagged(true, cur.Rest(), ethertype, o);
  }

  /** The Ethernet header is already taken: up to two VLAN tags, then the network layer. */
  method DecodeTagged(cur: Cursor, start: nat, out: Frame) returns (o: Frame)
    requires cur.Valid()
    modifies cur
    ensures cur.Valid() && o == TaggedOf(old(cur.Rest()), start, out)
  {
    var u := UnwrapTags(cur, start, out);
    if !u.whole { return u.out.(error := Some(TruncatedVlan)); }
    o := DecodeL3(cur, u.ethertype, u.out.(ethertype := u.ethertype));
  }

  lemma SameEthernet(s: seq<byte>, h: seq<byte>)
    requires |s| >= 14 && h == s[..14]
    ensures U16(h, 12) == U16(s, 12) && WithMacs(h) == WithMacs(s)
  {
    assert h[..6] == s[..6] && h[6..12] == s[6..12];
  }

  method DecodeEthernet(data: seq<byte>) returns (o: Frame)
    requires |data| >= 14
    ensures o == TaggedOf(data[14..], U16(data, 12), WithMacs(data))
  {
    var cur := new Cursor(data);
    var ok, h := cur.Take(14);
    SameEthernet(data, h);
    o := DecodeTagged(cur, U16(h, 12), WithMacs(h));
  }

  /** Behind a fixed header of `n` bytes that told the ethertype. */
  method DecodeBehind(data: seq<byte>, n: nat, ethertype: nat) returns (o: Frame)
    requires n <= |data|
    ensures o == Skipping(data, n, ethertype)
  {
    var cur := new Cursor(data);
    var ok := cur.Skip(n);
    o := DecodeL3(cur, ethertype, BLANK.(ethertype := ethertype));
  }

  method DecodePacket(data: seq<byte>, link: LinkType) returns (o: Frame)
    ensures o == PacketOf(data, link)
  {
    if |data| == 0 { return BLANK.(error := Some(EmptyFrame)); }
    match link
    case Ethernet =>
      if |data| < 14 { return BLANK.(error := Some(TruncatedEthernet)); }
      o := DecodeEthernet(data);
    case LinuxSll =>
      if |data| < 16 { return BLANK.(error := Some(TruncatedSll)); }
      o := DecodeBehind(data, 16, U16(data, 14));
    case LinuxSll2 =>
      if |data| < 20 { return BLANK.(error := Some(TruncatedSll2)); }
      o := DecodeBehind(data, 20, U16(data, 0));
    case Null(littleEndian) =>
      if |data| < 4 { return BLANK.(error := Some(TruncatedLoopback)); }
      o := DecodeBehind(data, 4, LoopbackEthertype(data, littleEndian));
    case Raw =>
      o := DecodeBehind(data, 0, if data[0] / 16 == 6 then ETHERTYPE_IPV6 else ETHERTYPE_IPV4);
    case OtherLink =>
      o := BLANK.(error := Some(UnsupportedLink));
  }
}
