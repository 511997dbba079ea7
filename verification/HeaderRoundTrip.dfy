/** Every header the decoder knows, built from its fields and read back: options, tags and fragments included. */
module HeaderRoundTrip {
  import opened Serial
  import opened Dissection
  import opened FlowModel
  import opened Checksum
  import opened Decoder
  import opened DecoderTheorems
  import FrameRoundTrip

  // ------------------------------------------------------------------ transport

  datatype TcpHead = TcpHead(
    sport: nat, dport: nat, sn: uint32, ack: uint32, reserved: nat, flags: byte, window: nat,
    sum: nat, urgent: nat, options: seq<byte>)
  {
    /** Options fill whole words, at most ten (section 3.1 of RFC 9293). */
    predicate Fits() {
      && sport < 65536 && dport < 65536 && reserved < 16 && window < 65536 && sum < 65536 && urgent < 65536
      && |options| <= 40 && |options| % 4 == 0
    }

    function Fixed(): (h: seq<byte>)
      requires Fits()
      ensures |h| == 20
    {
      Bytes16(sport) + Bytes16(dport) + FrameRoundTrip.Bytes32(sn) + FrameRoundTrip.Bytes32(ack)
      + [16 * (5 + |options| / 4) + reserved, flags] + Bytes16(window) + Bytes16(sum) + Bytes16(urgent)
    }

    function Encode(): seq<byte>
      requires Fits()
    {
      Fixed() + options
    }

    function Told(out: Frame): Frame {
      out.(l4 := TCP, sport := sport, dport := dport, sn := sn, ack := ack, window := window, tcpFlags := flags)
    }
  }

  lemma TcpFixedReads(t: TcpHead, rest: seq<byte>)
    requires t.Fits()
    ensures var s := t.Fixed() + rest;
            && U16(s, 0) == t.sport && U16(s, 2) == t.dport && U32(s, 4) == t.sn && U32(s, 8) == t.ack
            && s[12] / 16 == 5 + |t.options| / 4 && s[13] == t.flags && U16(s, 14) == t.window
  {
    var h := t.Fixed();
    assert forall i | 0 <= i < 20 :: (h + rest)[i] == h[i];
    assert h[12] == 16 * (5 + |t.options| / 4) + t.reserved;
  }

  /** A TCP header with any options is read back, and the payload is exactly what stands behind the options. */
  lemma TcpHeaderReads(t: TcpHead, payload: seq<byte>, out: Frame)
    requires t.Fits()
    ensures TcpOf(t.Encode() + payload, out) == t.Told(out).(payload := payload)
  {
    var s := t.Encode() + payload;
    assert s == t.Fixed() + (t.options + payload);
    TcpFixedReads(t, t.options + payload);
    assert TcpLength(s) == 20 + |t.options| && s[20 + |t.options|..] == payload;
  }

  /** Cut short, it tells its fields if they are there, and no payload. */
  lemma CutTcpReads(t: TcpHead, n: nat, out: Frame)
    requires t.Fits() && n < |t.Encode()|
    ensures TcpOf(t.Encode()[..n], out) ==
            if n < 20 then out.(l4 := TCP, truncated := true)
            else t.Told(out).(truncated := true)
  {
    if n >= 20 {
      var s := t.Encode()[..n];
      assert s == t.Fixed() + t.options[..n - 20];
      TcpFixedReads(t, t.options[..n - 20]);
    }
  }

  /** A header that claims fewer than five words is refused. */
  lemma ShortOffsetRefused(s: seq<byte>, out: Frame)
    requires |s| >= 20 && s[12] < 80
    ensures TcpOf(s, out).error == Some(BadDataOffset) && TcpOf(s, out).payload == out.payload
  {
  }

  /** A UDP header: the payload ends where the datagram or the capture does. */
  lemma UdpHeaderReads(sport: nat, dport: nat, len: nat, sum: nat, captured: seq<byte>, out: Frame)
    requires sport < 65536 && dport < 65536 && len < 65536 && sum < 65536
    ensures UdpOf(Bytes16(sport) + Bytes16(dport) + Bytes16(len) + Bytes16(sum) + captured, out) ==
            out.(l4 := UDP, sport := sport, dport := dport,
                 payload := if len < 8 then [] else if len - 8 < |captured| then captured[..len - 8] else captured)
  {
    var s := Bytes16(sport) + Bytes16(dport) + Bytes16(len) + Bytes16(sum) + captured;
    assert U16(s, 0) == sport && U16(s, 2) == dport && U16(s, 4) == len && s[8..] == captured;
    assert s[8..8 + UdpLength(s)] == captured[..UdpLength(s)];
  }

  lemma IcmpHeaderReads(kind: byte, code: byte, sum: nat, rest: seq<byte>, out: Frame)
    requires sum < 65536
    ensures IcmpOf([kind, code] + Bytes16(sum) + rest, out) ==
            out.(l4 := if out.ipProto == 1 then ICMP else ICMPv6, icmpType := kind, icmpCode := code, payload := rest)
  {
    var s := [kind, code] + Bytes16(sum) + rest;
    assert s[4..] == rest;
  }

  /** The protocol number chooses the header. */
  lemma TransportByNumber(s: seq<byte>, out: Frame)
    ensures L4Of(s, out) ==
            match out.ipProto
            case 6 => TcpOf(s, out)
            case 17 => UdpOf(s, out)
            case 1 => IcmpOf(s, out)
            case 58 => IcmpOf(s, out)
            case _ => out.(l4 := OtherL4, payload := s)
  {
  }

  // -------------------------------------------------------------------- network

  datatype Ipv4Head = Ipv4Head(
    tos: byte, length: nat, ident: nat, flags: nat, offset: nat, ttl: byte, proto: byte, sum: nat,
    src: seq<byte>, dst: seq<byte>, options: seq<byte>)
  {
    /** Options fill whole words, at most ten (section 3.1 of RFC 791). */
    predicate Fits() {
      && length < 65536 && ident < 65536 && flags < 8 && offset < 8192 && sum < 65536
      && |src| == 4 && |dst| == 4 && |options| <= 40 && |options| % 4 == 0
    }

    function Fixed(): (h: seq<byte>)
      requires Fits()
      ensures |h| == 20
    {
      [0x40 + 5 + |options| / 4, tos] + Bytes16(length) + Bytes16(ident) + Bytes16(8192 * flags + offset)
      + [ttl, proto] + Bytes16(sum) + src + dst
    }

    function Encode(): seq<byte>
      requires Fits()
    {
      Fixed() + options
    }

    /** Its fields in a decoded frame; the last of the three flags says that more fragments follow. */
    function Told(out: Frame): Frame
      requires Fits()
    {
      out.(l3 := IPv4, src := IpAddress(false, src + Zeros(12)), dst := IpAddress(false, dst + Zeros(12)),
           ttl := ttl, ipProto := proto, ipId := ident, dscp := tos / 4,
           fragmented := flags % 2 == 1 || offset > 0, firstFragment := offset == 0)
    }
  }

  lemma Ipv4FixedReads(h: Ipv4Head, rest: seq<byte>, out: Frame)
    requires h.Fits()
    ensures var s := h.Fixed() + rest;
            && s[0] / 16 == 4 && Ipv4Length(s) == 20 + |h.options| && WithIpv4(s, out) == h.Told(out)
  {
    var f := h.Fixed();
    var s := f + rest;
    assert forall i | 0 <= i < 20 :: s[i] == f[i];
    assert f[0] == 0x45 + |h.options| / 4 && U16(f, 6) == 8192 * h.flags + h.offset && U16(f, 4) == h.ident;
    assert s[12..16] == f[12..16] == h.src && s[16..20] == f[16..20] == h.dst;
    FragmentBits(h.flags, h.offset);
  }

  lemma FragmentBits(flags: nat, offset: nat)
    requires flags < 8 && offset < 8192
    ensures (8192 * flags + offset) / 0x2000 == flags && (8192 * flags + offset) % 0x2000 == offset
  {
  }

  function Checked(ip: Ipv4Head, out: Frame): Frame
    requires ip.Fits()
  {
    var o := ip.Told(out);
    o.(badIpChecksum := InternetChecksum(ip.Encode()) != 0)
  }

  /** An IPv4 header with any options, flags and fragment offset is read back; what is behind the options is the
      transport header in a first fragment, and payload in any other. The checksum flag is that of the whole header. */
  lemma Ipv4HeaderReads(h: Ipv4Head, behind: seq<byte>, out: Frame)
    requires h.Fits()
    ensures var o := Checked(h, out);
            Ipv4Of(h.Encode() + behind, out) ==
            if h.offset > 0 then o.(l4 := OtherL4, payload := behind) else L4Of(behind, o)
  {
    var s, n := h.Encode() + behind, 20 + |h.options|;
    assert s == h.Fixed() + (h.options + behind);
    Ipv4FixedReads(h, h.options + behind, out);
    assert s[..n] == h.Encode() && s[n..] == behind;
  }

  lemma CutIpv4Reads(h: Ipv4Head, n: nat, out: Frame)
    requires h.Fits() && n < |h.Encode()|
    ensures Ipv4Of(h.Encode()[..n], out) ==
            if n < 20 then out.(error := Some(TruncatedIpv4)) else h.Told(out).(truncated := true)
  {
    if n >= 20 {
      assert h.Encode()[..n] == h.Fixed() + h.options[..n - 20];
      Ipv4FixedReads(h, h.options[..n - 20], out);
    }
  }

  /** Other versions and headers of fewer than five words are refused. */
  lemma Ipv4Refused(s: seq<byte>, out: Frame)
    requires |s| >= 20
    ensures s[0] / 16 != 4 ==> Ipv4Of(s, out) == out.(error := Some(NotIpv4))
    ensures 0x40 <= s[0] < 0x45 ==> Ipv4Of(s, out) == out.(error := Some(BadIhl))
  {
  }

  datatype Ipv6Head = Ipv6Head(low: nat, flow: seq<byte>, length: nat, hop: byte, src: seq<byte>, dst: seq<byte>)
  {
    predicate Fits() { low < 16 && |flow| == 3 && length < 65536 && |src| == 16 && |dst| == 16 }

    function Encode(next: byte): (h: seq<byte>)
      requires Fits()
      ensures |h| == 40
    {
      [0x60 + low] + flow + Bytes16(length) + [next, hop] + src + dst
    }

    function Told(exts: seq<Extension>, upper: byte, out: Frame): Frame
      requires Fits()
    {
      out.(l3 := IPv6, src := IpAddress(true, src), dst := IpAddress(true, dst), ttl := hop, ipProto := upper,
           fragmented := Fragmented(exts, out.fragmented), firstFragment := IsFirst(exts, out.firstFragment))
    }
  }

  lemma Ipv6FixedReads(h: Ipv6Head, next: byte, rest: seq<byte>)
    requires h.Fits()
    ensures var s := h.Encode(next) + rest;
            && s[0] / 16 == 6 && s[6] == next && s[7] == h.hop && s[8..24] == h.src && s[24..40] == h.dst && s[40..] == rest
  {
    var f := h.Encode(next);
    var s := f + rest;
    assert s[0] == 0x60 + h.low && s[6] == next && s[7] == h.hop;
    assert f[8..24] == h.src && f[24..40] == h.dst;
    assert s[8..24] == f[8..24] && s[24..40] == f[24..40];
  }

  /** The numbers that the walk takes for extension headers: hop-by-hop and destination options, routing, fragment. */
  lemma ExtensionNumbers(next: byte)
    ensures IsExtension(next) <==> next in {0, 43, 44, 60}
    ensures FRAGMENT == 44 && NO_NEXT == 59
  {
  }

  /** An IPv6 header with up to seven extension headers is read back; what is behind them is the transport header,
      unless a fragment header says that it is not the first fragment. */
  lemma Ipv6HeaderReads(h: Ipv6Head, exts: seq<Extension>, upper: byte, behind: seq<byte>, out: Frame)
    requires h.Fits() && |exts| <= 7 && (forall e | e in exts :: e.Encodable()) && upper !in {0, 43, 44, 60}
    requires !out.truncated
    ensures var o := h.Told(exts, upper, out);
            Ipv6Of(h.Encode(Head(exts, upper)) + (EncodeChain(exts, upper) + behind), out) ==
            if IsFirst(exts, out.firstFragment) then L4Of(behind, o) else o.(l4 := OtherL4)
  {
    Ipv6FixedReads(h, Head(exts, upper), EncodeChain(exts, upper) + behind);
    ExtensionNumbers(upper);
    ChainResolves(exts, upper, behind, MAX_HOPS, out.fragmented, out.firstFragment);
  }

  /** The ethertype chooses the network header. */
  lemma NetworkByEthertype(s: seq<byte>, ethertype: nat, out: Frame)
    ensures L3Of(s, ethertype, out) ==
            if ethertype == 0x0800 then Ipv4Of(s, out)
            else if ethertype == 0x86DD then Ipv6Of(s, out)
            else if ethertype == 0x0806 then out.(l3 := ARP, l4 := NoL4)
            else out.(l3 := NoL3, error := Some(UnsupportedEthertype))
  {
  }

  // ----------------------------------------------------------------------- link

  /** A VLAN tag: 802.1Q or 802.1ad, and its control information. */
  datatype Tag = Tag(outer: bool, tci: nat)
  {
    predicate Fits() { tci < 65536 }
    function Ethertype(): nat { if outer then 0x88A8 else 0x8100 }
  }

  /** Behind the addresses: the ethertypes, each tag's followed by its control information. */
  function EncodeTags(tags: seq<Tag>, inner: nat): seq<byte>
    requires inner < 65536 && forall t | t in tags :: t.Fits()
  {
    if tags == [] then Bytes16(inner)
    else
      assert tags[0].Fits();
      Bytes16(tags[0].Ethertype()) + (Bytes16(tags[0].tci) + EncodeTags(tags[1..], inner))
  }

  function FirstType(tags: seq<Tag>, inner: nat): nat {
    if tags == [] then inner else tags[0].Ethertype()
  }

  /** The identifier is that of the innermost tag. */
  function Tagged(tags: seq<Tag>, out: Frame): Frame {
    if tags == [] then out
    else Tagged(tags[1..], out.(hasVlan := true, vlanId := tags[0].tci % 4096))
  }

  lemma EncodeTagsStarts(tags: seq<Tag>, inner: nat, rest: seq<byte>)
    requires inner < 65536 && forall t | t in tags :: t.Fits()
    ensures |EncodeTags(tags, inner)| >= 2 && U16(EncodeTags(tags, inner) + rest, 0) == FirstType(tags, inner)
  {
    var s := EncodeTags(tags, inner);
    if tags != [] {
      assert s[..2] == Bytes16(tags[0].Ethertype());
    }
    assert s[0] == FirstType(tags, inner) / 256 && s[1] == FirstType(tags, inner) % 256;
    assert (s + rest)[0] == s[0] && (s + rest)[1] == s[1];
  }

  lemma TagStep(tag: Tag, body: seq<byte>, n: nat, out: Frame)
    requires tag.Fits() && |body| >= 2 && n > 0
    ensures Unwrap(Bytes16(tag.tci) + body, tag.Ethertype(), n, out) ==
            Unwrap(body[2..], U16(body, 0), n - 1, out.(hasVlan := true, vlanId := tag.tci % 4096))
  {
    var s := Bytes16(tag.tci) + body;
    assert U16(s, 0) == tag.tci && U16(s, 2) == U16(body, 0) && s[4..] == body[2..];
  }

  lemma {:induction false} TagsUnwrap(tags: seq<Tag>, inner: nat, n: nat, packet: seq<byte>, out: Frame)
    requires inner < 65536 && (forall t | t in tags :: t.Fits()) && |tags| <= n && (|tags| < n ==> !IsTag(inner))
    ensures |EncodeTags(tags, inner)| >= 2
    ensures Unwrap((EncodeTags(tags, inner) + packet)[2..], FirstType(tags, inner), n, out) ==
            Untagged(true, packet, inner, Tagged(tags, out))
    decreases |tags|
  {
    EncodeTagsStarts(tags, inner, packet);
    var s := (EncodeTags(tags, inner) + packet)[2..];
    if tags == [] {
      assert s == packet;
    } else {
      assert tags[0].Fits() && forall t | t in tags[1..] :: t in tags;
      EncodeTagsStarts(tags[1..], inner, packet);
      assert s == Bytes16(tags[0].tci) + (EncodeTags(tags[1..], inner) + packet);
      TagStep(tags[0], EncodeTags(tags[1..], inner) + packet, n, out);
      TagsUnwrap(tags[1..], inner, n - 1, packet, out.(hasVlan := true, vlanId := tags[0].tci % 4096));
    }
  }

  /** What the link layer tells. */
  function Linked(src: seq<byte>, dst: seq<byte>, tags: seq<Tag>, inner: nat): Frame {
    var out := Tagged(tags, BLANK.(hasL2 := true, srcMac := src, dstMac := dst));
    out.(ethertype := inner)
  }

  /** An Ethernet frame with up to two tags is read back: addresses, innermost tag, and the packet by its ethertype; after
      two tags a third is an ethertype like any other, and an unsupported one. */
  lemma EthernetReads(src: seq<byte>, dst: seq<byte>, tags: seq<Tag>, inner: nat, packet: seq<byte>)
    requires |src| == 6 && |dst| == 6 && |tags| <= 2 && (forall t | t in tags :: t.Fits()) && inner < 65536
    requires |tags| < 2 ==> inner != 0x8100 && inner != 0x88A8
    ensures PacketOf(dst + src + EncodeTags(tags, inner) + packet, Ethernet) ==
            L3Of(packet, inner, Linked(src, dst, tags, inner))
  {
    var d, body := dst + src + EncodeTags(tags, inner) + packet, EncodeTags(tags, inner) + packet;
    EncodeTagsStarts(tags, inner, packet);
    assert d == dst + src + body;
    FrameParts(src, dst, body);
    TaggedReads(tags, inner, packet, WithMacs(d));
  }

  lemma FrameParts(src: seq<byte>, dst: seq<byte>, body: seq<byte>)
    requires |src| == 6 && |dst| == 6 && |body| >= 2
    ensures var d := dst + src + body;
            && U16(d, 12) == U16(body, 0) && d[14..] == body[2..]
            && WithMacs(d) == BLANK.(hasL2 := true, srcMac := src, dstMac := dst)
  {
    var d := dst + src + body;
    assert d[..6] == dst && d[6..12] == src;
  }

  lemma TaggedReads(tags: seq<Tag>, inner: nat, packet: seq<byte>, out: Frame)
    requires |tags| <= 2 && (forall t | t in tags :: t.Fits()) && inner < 65536
    requires |tags| < 2 ==> inner != 0x8100 && inner != 0x88A8
    ensures var body := EncodeTags(tags, inner) + packet;
            |body| >= 2 && TaggedOf(body[2..], U16(body, 0), out) == L3Of(packet, inner, Tagged(tags, out).(ethertype := inner))
  {
    EncodeTagsStarts(tags, inner, packet);
    TagsUnwrap(tags, inner, 2, packet, out);
  }

  /** Frames shorter than their link header are refused, each with its own reason. */
  lemma ShortFrames(data: seq<byte>, link: LinkType)
    ensures data == [] ==> PacketOf(data, link) == BLANK.(error := Some(EmptyFrame))
    ensures 0 < |data| < 14 ==> PacketOf(data, Ethernet) == BLANK.(error := Some(TruncatedEthernet))
    ensures 0 < |data| < 16 ==> PacketOf(data, LinuxSll) == BLANK.(error := Some(TruncatedSll))
    ensures 0 < |data| < 20 ==> PacketOf(data, LinuxSll2) == BLANK.(error := Some(TruncatedSll2))
    ensures 0 < |data| < 4 ==> forall little :: PacketOf(data, Null(little)) == BLANK.(error := Some(TruncatedLoopback))
    ensures 0 < |data| ==> PacketOf(data, OtherLink) == BLANK.(error := Some(UnsupportedLink))
  {
  }

  /** The cooked headers of Linux captures, raw packets, and the loopback header, whose family is 2 for IPv4. */
  lemma OtherLinksRead(head: seq<byte>, ethertype: nat, packet: seq<byte>, v4: bool, little: bool)
    requires ethertype < 65536
    ensures |head| == 14 ==> PacketOf(head + Bytes16(ethertype) + packet, LinuxSll)
                             == L3Of(packet, ethertype, BLANK.(ethertype := ethertype))
    ensures |head| == 18 ==> PacketOf(Bytes16(ethertype) + head + packet, LinuxSll2)
                             == L3Of(packet, ethertype, BLANK.(ethertype := ethertype))
    ensures |head| == 4 ==> var inner := if head == (if little then [2, 0, 0, 0] else [0, 0, 0, 2]) then 0x0800 else 0x86DD;
                            PacketOf(head + packet, Null(little)) == L3Of(packet, inner, BLANK.(ethertype := inner))
    ensures packet != [] ==> var inner := if 0x60 <= packet[0] < 0x70 then 0x86DD else 0x0800;
                             PacketOf(packet, Raw) == L3Of(packet, inner, BLANK.(ethertype := inner))
  {
    if |head| == 14 {
      var d := head + Bytes16(ethertype) + packet;
      assert U16(d, 14) == ethertype && d[16..] == packet;
    } else if |head| == 18 {
      var d := Bytes16(ethertype) + head + packet;
      assert U16(d, 0) == ethertype && d[20..] == packet;
    } else if |head| == 4 {
      var d := head + packet;
      assert d[..4] == head && d[4..] == packet;
    }
    if packet != [] {
      assert packet[0..] == packet;
    }
  }

  // ------------------------------------------------------------------ main results

  /** A TCP segment with any options in an IPv4 packet with any options, tagged or not: its fields come back, and as
      payload exactly what the sender put behind the options. */
  lemma SegmentReadsBack(src: seq<byte>, dst: seq<byte>, tags: seq<Tag>, ip: Ipv4Head, t: TcpHead, payload: seq<byte>)
    requires |src| == 6 && |dst| == 6 && |tags| <= 2 && forall g | g in tags :: g.Fits()
    requires ip.Fits() && ip.proto == 6 && ip.offset == 0 && t.Fits()
    ensures PacketOf(dst + src + EncodeTags(tags, 0x0800) + (ip.Encode() + (t.Encode() + payload)), Ethernet) ==
            t.Told(Checked(ip, Linked(src, dst, tags, 0x0800))).(payload := payload)
  {
    var linked := Linked(src, dst, tags, 0x0800);
    EthernetReads(src, dst, tags, 0x0800, ip.Encode() + (t.Encode() + payload));
    NetworkByEthertype(ip.Encode() + (t.Encode() + payload), 0x0800, linked);
    Ipv4HeaderReads(ip, t.Encode() + payload, linked);
    TransportByNumber(t.Encode() + payload, Checked(ip, linked));
    TcpHeaderReads(t, payload, Checked(ip, linked));
  }

  /** The same over IPv6, behind up to seven extension headers. */
  lemma SegmentOverIpv6ReadsBack(src: seq<byte>, dst: seq<byte>, tags: seq<Tag>, ip: Ipv6Head, exts: seq<Extension>,
                                 t: TcpHead, payload: seq<byte>)
    requires |src| == 6 && |dst| == 6 && |tags| <= 2 && (forall g | g in tags :: g.Fits()) && ip.Fits() && t.Fits()
    requires |exts| <= 7 && (forall e | e in exts :: e.Encodable()) && IsFirst(exts, true)
    ensures var chain := EncodeChain(exts, 6) + (t.Encode() + payload);
            PacketOf(dst + src + EncodeTags(tags, 0x86DD) + (ip.Encode(Head(exts, 6)) + chain), Ethernet) ==
            t.Told(ip.Told(exts, 6, Linked(src, dst, tags, 0x86DD))).(payload := payload)
  {
    var linked := Linked(src, dst, tags, 0x86DD);
    var packet := ip.Encode(Head(exts, 6)) + (EncodeChain(exts, 6) + (t.Encode() + payload));
    EthernetReads(src, dst, tags, 0x86DD, packet);
    TaggedKeeps(tags, BLANK.(hasL2 := true, srcMac := src, dstMac := dst));
    NetworkByEthertype(packet, 0x86DD, linked);
    Ipv6HeaderReads(ip, exts, 6, t.Encode() + payload, linked);
    TransportByNumber(t.Encode() + payload, ip.Told(exts, 6, linked));
    TcpHeaderReads(t, payload, ip.Told(exts, 6, linked));
  }

  lemma {:induction false} TaggedKeeps(tags: seq<Tag>, out: Frame)
    ensures var o := Tagged(tags, out);
            o.truncated == out.truncated && o.fragmented == out.fragmented && o.firstFragment == out.firstFragment
  {
    if tags != [] {
      TaggedKeeps(tags[1..], out.(hasVlan := true, vlanId := tags[0].tci % 4096));
    }
  }
}
