/** The packet generator's frames, and their way back through the decoder into the flow table. */
module FrameRoundTrip {
  import opened Serial
  import opened Dissection
  import opened FlowModel
  import opened Checksum
  import opened Decoder
  import ChecksumTheorems
  import FlowKeys
  import TcpStates

  // ------------------------------------------------------------------ generator

  function Bytes32(n: uint32): (s: seq<byte>)
    ensures |s| == 4
  {
    Bytes16(n / 65536) + Bytes16(n % 65536)
  }

  datatype Ipv4Fields = Ipv4Fields(src: seq<byte>, dst: seq<byte>, proto: byte, ident: nat, ttl: byte)
  {
    predicate Fits() { |src| == 4 && |dst| == 4 && ident < 65536 }
  }

  datatype TcpFields = TcpFields(sport: nat, dport: nat, sn: uint32, ack: uint32, flags: byte, window: nat)
  {
    predicate Fits() { sport < 65536 && dport < 65536 && window < 65536 }
  }

  /** The header with its checksum field still zero. */
  function BareIpv4(ip: Ipv4Fields, len: nat): (h: seq<byte>)
    requires ip.Fits() && len < 65536
    ensures |h| == 20
  {
    [0x45, 0] + Bytes16(len) + Bytes16(ip.ident) + [0x40, 0, ip.ttl, ip.proto, 0, 0] + ip.src + ip.dst
  }

  /** The generator can write the complement of the right checksum on purpose. */
  function Ipv4Packet(ip: Ipv4Fields, payload: seq<byte>, corrupt: bool): seq<byte>
    requires ip.Fits() && 20 + |payload| < 65536
  {
    var bare := BareIpv4(ip, 20 + |payload|);
    var c := GeneratorChecksum(bare);
    ChecksumTheorems.Patch(bare, 10, if corrupt then ALL_ONES - c else c) + payload
  }

  function Pseudo(ip: Ipv4Fields, len: nat): seq<byte>
    requires len < 65536
  {
    ip.src + ip.dst + [0, ip.proto] + Bytes16(len)
  }

  function BareTcp(t: TcpFields): (h: seq<byte>)
    requires t.Fits()
    ensures |h| == 20
  {
    Bytes16(t.sport) + Bytes16(t.dport) + Bytes32(t.sn) + Bytes32(t.ack) + [0x50, t.flags] + Bytes16(t.window) + [0, 0, 0, 0]
  }

  function TcpSegment(ip: Ipv4Fields, t: TcpFields, payload: seq<byte>): seq<byte>
    requires t.Fits() && 20 + |payload| < 65536
  {
    var h := BareTcp(t);
    ChecksumTheorems.Patch(h, 16, GeneratorChecksum(Pseudo(ip, 20 + |payload|) + h + payload)) + payload
  }

  function UdpHeader(sport: nat, dport: nat, len: nat, csum: nat): (h: seq<byte>)
    requires sport < 65536 && dport < 65536 && len < 65536 && csum < 65536
    ensures |h| == 8
  {
    Bytes16(sport) + Bytes16(dport) + Bytes16(len) + Bytes16(csum)
  }

  function UdpDatagram(ip: Ipv4Fields, sport: nat, dport: nat, payload: seq<byte>): seq<byte>
    requires sport < 65536 && dport < 65536 && 8 + |payload| < 65536
  {
    var len := 8 + |payload|;
    var c := GeneratorChecksum(Pseudo(ip, len) + UdpHeader(sport, dport, len, 0) + payload);
    UdpHeader(sport, dport, len, if c == 0 then ALL_ONES else c) + payload
  }

  function EthernetFrame(src: seq<byte>, dst: seq<byte>, packet: seq<byte>): seq<byte> {
    dst + src + Bytes16(ETHERTYPE_IPV4) + packet
  }

  // -------------------------------------------------------------- reading it back

  lemma PatchedFields(ip: Ipv4Fields, len: nat, c: nat, tail: seq<byte>)
    requires ip.Fits() && len < 65536 && c < 65536
    ensures var s := ChecksumTheorems.Patch(BareIpv4(ip, len), 10, c) + tail;
            && s[0] == 0x45 && s[1] == 0 && U16(s, 4) == ip.ident && U16(s, 6) == 0x4000
            && s[8] == ip.ttl && s[9] == ip.proto && s[12..16] == ip.src && s[16..20] == ip.dst
            && s[..20] == ChecksumTheorems.Patch(BareIpv4(ip, len), 10, c) && s[20..] == tail
  {
  }

  /** The checksum the decoder verifies: right unless it was corrupted, and then wrong unless it was zero. */
  lemma ChecksumSeen(bare: seq<byte>, corrupt: bool)
    requires |bare| == 20 && bare[0] == 0x45 && WordFrom(bare, 10) == 0
    ensures var c := GeneratorChecksum(bare);
            InternetChecksum(ChecksumTheorems.Patch(bare, 10, if corrupt then ALL_ONES - c else c)) != 0 <==> corrupt && c != 0
  {
    var c := GeneratorChecksum(bare);
    ChecksumTheorems.NeverOverflows(bare);
    ChecksumTheorems.AgreesWithGeneratorIff(bare);
    ChecksumTheorems.FillingVerifies(bare, 10);
    if corrupt {
      var d := ChecksumTheorems.Patch(bare, 10, c);
      assert WordFrom(d, 10) == c;
      NotAllOnes(bare);
      ChecksumTheorems.ChangeUnnoticedIff(d, 10, ALL_ONES - c);
      assert ChecksumTheorems.Patch(d, 10, ALL_ONES - c) == ChecksumTheorems.Patch(bare, 10, ALL_ONES - c);
    }
  }

  lemma NotAllOnes(bare: seq<byte>)
    requires |bare| == 20 && bare[0] == 0x45
    ensures GeneratorChecksum(bare) != ALL_ONES
  {
    ChecksumTheorems.FoldedIsRemainder(WordSum(bare));
  }

  /** What the IPv4 header tells the decoder. */
  function Addressed(ip: Ipv4Fields, bad: bool, out: Frame): Frame
    requires ip.Fits()
  {
    out.(l3 := IPv4, src := IpAddress(false, ip.src + Zeros(12)), dst := IpAddress(false, ip.dst + Zeros(12)),
         ttl := ip.ttl, ipProto := ip.proto, ipId := ip.ident, dscp := 0, fragmented := false, firstFragment := true,
         badIpChecksum := bad)
  }

  /** A corrupted header is noticed exactly when the right checksum was not zero. */
  predicate Noticed(ip: Ipv4Fields, len: nat, corrupt: bool)
    requires ip.Fits() && len < 65536
  {
    corrupt && GeneratorChecksum(BareIpv4(ip, len)) != 0
  }

  lemma Ipv4ReadsBack(ip: Ipv4Fields, payload: seq<byte>, corrupt: bool, out: Frame)
    requires ip.Fits() && 20 + |payload| < 65536
    ensures Ipv4Of(Ipv4Packet(ip, payload, corrupt), out) ==
            L4Of(payload, Addressed(ip, Noticed(ip, 20 + |payload|, corrupt), out))
  {
    var bare := BareIpv4(ip, 20 + |payload|);
    var c := GeneratorChecksum(bare);
    PatchedFields(ip, 20 + |payload|, if corrupt then ALL_ONES - c else c, payload);
    ChecksumSeen(bare, corrupt);
    Ipv4Parts(ip, Ipv4Packet(ip, payload, corrupt), payload, Noticed(ip, 20 + |payload|, corrupt), out);
  }

  /** The header fields, once known at their places, make the decoded header. */
  lemma Ipv4Parts(ip: Ipv4Fields, s: seq<byte>, payload: seq<byte>, bad: bool, out: Frame)
    requires ip.Fits() && |s| >= 20 && s[20..] == payload && bad == (InternetChecksum(s[..20]) != 0)
    requires s[0] == 0x45 && s[1] == 0 && U16(s, 4) == ip.ident && U16(s, 6) == 0x4000
    requires s[8] == ip.ttl && s[9] == ip.proto && s[12..16] == ip.src && s[16..20] == ip.dst
    ensures Ipv4Of(s, out) == L4Of(payload, Addressed(ip, bad, out))
  {
    assert Ipv4Length(s) == 20;
    assert CheckedIpv4(s, out) == Addressed(ip, bad, out);
  }

  lemma TcpFieldsRead(t: TcpFields, c: nat, tail: seq<byte>)
    requires t.Fits() && c < 65536
    ensures var s := ChecksumTheorems.Patch(BareTcp(t), 16, c) + tail;
            && U16(s, 0) == t.sport && U16(s, 2) == t.dport && U32(s, 4) == t.sn && U32(s, 8) == t.ack
            && s[12] == 0x50 && s[13] == t.flags && U16(s, 14) == t.window && s[20..] == tail
  {
  }

  function Segmented(t: TcpFields, payload: seq<byte>, out: Frame): Frame {
    out.(l4 := TCP, sport := t.sport, dport := t.dport, sn := t.sn, ack := t.ack, window := t.window, tcpFlags := t.flags,
         payload := payload)
  }

  lemma TcpReadsBack(ip: Ipv4Fields, t: TcpFields, payload: seq<byte>, out: Frame)
    requires t.Fits() && 20 + |payload| < 65536
    ensures TcpOf(TcpSegment(ip, t, payload), out) == Segmented(t, payload, out)
  {
    var c := GeneratorChecksum(Pseudo(ip, 20 + |payload|) + BareTcp(t) + payload);
    TcpFieldsRead(t, c, payload);
  }

  lemma UdpReadsBack(ip: Ipv4Fields, sport: nat, dport: nat, payload: seq<byte>, out: Frame)
    requires sport < 65536 && dport < 65536 && 8 + |payload| < 65536
    ensures UdpOf(UdpDatagram(ip, sport, dport, payload), out) ==
            out.(l4 := UDP, sport := sport, dport := dport, payload := payload)
  {
    var s := UdpDatagram(ip, sport, dport, payload);
    assert U16(s, 0) == sport && U16(s, 2) == dport && U16(s, 4) == 8 + |payload|;
    assert s[8..8 + UdpLength(s)] == payload;
  }

  /** What the link layer tells of a generated frame. */
  function Linked(src: seq<byte>, dst: seq<byte>): Frame {
    BLANK.(hasL2 := true, srcMac := src, dstMac := dst, ethertype := ETHERTYPE_IPV4)
  }

  lemma EthernetReadsBack(src: seq<byte>, dst: seq<byte>, packet: seq<byte>)
    requires |src| == 6 && |dst| == 6
    ensures PacketOf(EthernetFrame(src, dst, packet), Ethernet) == Ipv4Of(packet, Linked(src, dst))
  {
    var d := EthernetFrame(src, dst, packet);
    assert U16(d, 12) == ETHERTYPE_IPV4 && d[14..] == packet;
    assert d[..6] == dst && d[6..12] == src;
    UntaggedIpv4(packet, WithMacs(d));
  }

  lemma UntaggedIpv4(s: seq<byte>, out: Frame)
    ensures TaggedOf(s, ETHERTYPE_IPV4, out) == Ipv4Of(s, out.(ethertype := ETHERTYPE_IPV4))
  {
  }

  // ----------------------------------------------------------------- main results

  /** A generated TCP frame decodes to exactly the fields it was built from. */
  lemma TcpFrameReadsBack(srcMac: seq<byte>, dstMac: seq<byte>, ip: Ipv4Fields, t: TcpFields, payload: seq<byte>, corrupt: bool)
    requires |srcMac| == 6 && |dstMac| == 6 && ip.Fits() && ip.proto == TCP_PROTO && t.Fits() && 40 + |payload| < 65536
    ensures PacketOf(EthernetFrame(srcMac, dstMac, Ipv4Packet(ip, TcpSegment(ip, t, payload), corrupt)), Ethernet) ==
            Segmented(t, payload, Addressed(ip, Noticed(ip, 40 + |payload|, corrupt), Linked(srcMac, dstMac)))
  {
    var segment := TcpSegment(ip, t, payload);
    EthernetReadsBack(srcMac, dstMac, Ipv4Packet(ip, segment, corrupt));
    Ipv4ReadsBack(ip, segment, corrupt, Linked(srcMac, dstMac));
    TcpReadsBack(ip, t, payload, Addressed(ip, Noticed(ip, 40 + |payload|, corrupt), Linked(srcMac, dstMac)));
  }

  lemma UdpFrameReadsBack(srcMac: seq<byte>, dstMac: seq<byte>, ip: Ipv4Fields, sport: nat, dport: nat,
                          payload: seq<byte>, corrupt: bool)
    requires |srcMac| == 6 && |dstMac| == 6 && ip.Fits() && ip.proto == UDP_PROTO
    requires sport < 65536 && dport < 65536 && 28 + |payload| < 65536
    ensures PacketOf(EthernetFrame(srcMac, dstMac, Ipv4Packet(ip, UdpDatagram(ip, sport, dport, payload), corrupt)), Ethernet) ==
            Addressed(ip, Noticed(ip, 28 + |payload|, corrupt), Linked(srcMac, dstMac)).(
              l4 := UDP, sport := sport, dport := dport, payload := payload)
  {
    var datagram := UdpDatagram(ip, sport, dport, payload);
    EthernetReadsBack(srcMac, dstMac, Ipv4Packet(ip, datagram, corrupt));
    Ipv4ReadsBack(ip, datagram, corrupt, Linked(srcMac, dstMac));
    UdpReadsBack(ip, sport, dport, payload, Addressed(ip, Noticed(ip, 28 + |payload|, corrupt), Linked(srcMac, dstMac)));
  }

  /** The flag bits the flow table looks at. */
  function FlagsOf(b: byte): TcpStates.Flags {
    TcpStates.Flags(b % 2 == 1, b / 2 % 2 == 1, b / 4 % 2 == 1, b / 16 % 2 == 1)
  }

  /** A flag byte, bit by bit. */
  function FlagByte(fin: bool, syn: bool, rst: bool, psh: bool, ack: bool): byte {
    (if fin then 0x01 else 0) + (if syn then 0x02 else 0) + (if rst then 0x04 else 0) + (if psh then 0x08 else 0)
    + if ack then 0x10 else 0
  }

  lemma FlagsReadBack(fin: bool, syn: bool, rst: bool, psh: bool, ack: bool)
    ensures FlagsOf(FlagByte(fin, syn, rst, psh, ack)) == TcpStates.Flags(fin, syn, rst, ack)
  {
  }

  /** A decoded frame as the flow table gets it. */
  function Handed(o: Frame, ts: int, wirelen: nat): DecodedPacket
    requires |o.payload| < 0x1_0000_0000
  {
    DecodedPacket(ts, wirelen, o.l3, o.src, o.dst, o.ttl, o.ipProto, o.l4, o.sport, o.dport, o.sn, o.ack, o.window,
                  FlagsOf(o.tcpFlags), o.payload, o.error.Some?)
  }

  /** So the flow table accepts the frame and is given exactly the segment that was sent. */
  lemma GeneratedSegmentIsTracked(srcMac: seq<byte>, dstMac: seq<byte>, ip: Ipv4Fields, t: TcpFields, payload: seq<byte>,
                                  corrupt: bool, ts: int, wirelen: nat)
    requires |srcMac| == 6 && |dstMac| == 6 && ip.Fits() && ip.proto == TCP_PROTO && t.Fits() && 40 + |payload| < 65536
    ensures var o := PacketOf(EthernetFrame(srcMac, dstMac, Ipv4Packet(ip, TcpSegment(ip, t, payload), corrupt)), Ethernet);
            o.payload == payload &&
            var p := Handed(o, ts, wirelen);
            && Accepts(p) && p.l4 == TCP && p.sn == t.sn && p.ack == t.ack && p.payload == payload
            && p.flags == FlagsOf(t.flags) && SourcePort(p) == t.sport && DestinationPort(p) == t.dport
  {
    TcpFrameReadsBack(srcMac, dstMac, ip, t, payload, corrupt);
  }

  /** A segment and the answer to it end up in one flow, in opposite directions unless an endpoint talks to itself. */
  lemma AnswerSharesFlow(mac: seq<byte>, ip: Ipv4Fields, back: Ipv4Fields, t: TcpFields, u: TcpFields,
                         payload: seq<byte>, answer: seq<byte>, ts: int, later: int, wirelen: nat)
    requires |mac| == 6 && ip.Fits() && back.Fits() && ip.proto == back.proto == TCP_PROTO && t.Fits() && u.Fits()
    requires back.src == ip.dst && back.dst == ip.src && u.sport == t.dport && u.dport == t.sport
    requires 40 + |payload| < 65536 && 40 + |answer| < 65536
    ensures var o := PacketOf(EthernetFrame(mac, mac, Ipv4Packet(ip, TcpSegment(ip, t, payload), false)), Ethernet);
            var a := PacketOf(EthernetFrame(mac, mac, Ipv4Packet(back, TcpSegment(back, u, answer), false)), Ethernet);
            o.payload == payload && a.payload == answer &&
            var p, q := Handed(o, ts, wirelen), Handed(a, later, wirelen);
            && KeyOf(p) == KeyOf(q)
            && (Forward(p) != Forward(q) <==> ip.src != ip.dst || t.sport != t.dport)
  {
    TcpFrameReadsBack(mac, mac, ip, t, payload, false);
    TcpFrameReadsBack(mac, mac, back, u, answer, false);
    var o := PacketOf(EthernetFrame(mac, mac, Ipv4Packet(ip, TcpSegment(ip, t, payload), false)), Ethernet);
    var a := PacketOf(EthernetFrame(mac, mac, Ipv4Packet(back, TcpSegment(back, u, answer), false)), Ethernet);
    SwappedSharesFlow(ip, t, Handed(o, ts, wirelen), Handed(a, later, wirelen));
  }

  lemma SwappedSharesFlow(ip: Ipv4Fields, t: TcpFields, p: DecodedPacket, q: DecodedPacket)
    requires ip.Fits() && p.ipProto == q.ipProto && p.l4 == q.l4 == TCP
    requires p.src == q.dst == IpAddress(false, ip.src + Zeros(12)) && p.dst == q.src == IpAddress(false, ip.dst + Zeros(12))
    requires p.sport == q.dport == t.sport && p.dport == q.sport == t.dport
    ensures KeyOf(p) == KeyOf(q)
    ensures Forward(p) != Forward(q) <==> ip.src != ip.dst || t.sport != t.dport
  {
    FlowKeys.SameKeyIff(p, q);
    FlowKeys.SameDirectionIff(p, q);
    assert p.src.bytes[..4] == ip.src && p.dst.bytes[..4] == ip.dst;
  }
}
