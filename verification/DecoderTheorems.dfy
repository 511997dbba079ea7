/** What the frame decoder may hand out, and that it reads back what was built. */
module DecoderTheorems {
  import opened Serial
  import opened Dissection
  import opened Decoder

  // ----------------------------------------------------------- within the capture

  ghost predicate SliceAt(x: seq<byte>, d: seq<byte>, k: nat) {
    k + |x| <= |d| && d[k..k + |x|] == x
  }

  /** A run of captured bytes. */
  ghost predicate SliceOf(x: seq<byte>, d: seq<byte>) {
    exists k: nat :: SliceAt(x, d, k)
  }

  lemma SliceOfRest(x: seq<byte>, d: seq<byte>, n: nat)
    requires n <= |d| && SliceOf(x, d[n..])
    ensures SliceOf(x, d)
  {
    var k: nat :| SliceAt(x, d[n..], k);
    assert d[n..][k..k + |x|] == d[n + k..n + k + |x|];
    assert SliceAt(x, d, n + k);
  }

  lemma WholeSlice(d: seq<byte>, n: nat, m: nat)
    requires n <= m <= |d|
    ensures SliceOf(d[n..m], d) && SliceOf(d[n..], d)
  {
    assert SliceAt(d[n..m], d, n) && SliceAt(d[n..], d, n);
  }

  /** No payload, or one inside these bytes; none from a frame that was cut short or given up. */
  ghost predicate Sane(o: Frame, d: seq<byte>) {
    SliceOf(o.payload, d) && (o.truncated || o.error.Some? ==> o.payload == [])
  }

  predicate Fresh(out: Frame) {
    out.payload == [] && out.error == None
  }

  lemma EmptySlice(d: seq<byte>)
    ensures SliceOf([], d)
  {
    assert SliceAt([], d, 0);
  }

  lemma TcpSane(s: seq<byte>, out: Frame)
    requires Fresh(out) && !out.truncated
    ensures Sane(TcpOf(s, out), s)
  {
    EmptySlice(s);
    if |s| >= 20 && TcpLength(s) <= |s| { WholeSlice(s, TcpLength(s), |s|); }
  }

  lemma UdpSane(s: seq<byte>, out: Frame)
    requires Fresh(out) && !out.truncated
    ensures Sane(UdpOf(s, out), s)
  {
    EmptySlice(s);
    if |s| >= 8 { WholeSlice(s, 8, 8 + UdpLength(s)); }
  }

  lemma IcmpSane(s: seq<byte>, out: Frame)
    requires Fresh(out) && !out.truncated
    ensures Sane(IcmpOf(s, out), s)
  {
    EmptySlice(s);
    if |s| >= 4 { WholeSlice(s, 4, |s|); }
  }

  lemma L4Sane(s: seq<byte>, out: Frame)
    requires Fresh(out) && !out.truncated
    ensures Sane(L4Of(s, out), s)
  {
    TcpSane(s, out);
    UdpSane(s, out);
    IcmpSane(s, out);
    WholeSlice(s, 0, |s|);
    assert s[0..] == s;
  }

  lemma BehindIpv4Sane(s: seq<byte>, out: Frame)
    requires Fresh(out) && !out.truncated
    ensures Sane(BehindIpv4(s, out), s)
  {
    L4Sane(s, out);
    WholeSlice(s, 0, |s|);
    assert s[0..] == s;
  }

  lemma Ipv4Sane(s: seq<byte>, out: Frame)
    requires Fresh(out) && !out.truncated
    ensures Sane(Ipv4Of(s, out), s)
  {
    EmptySlice(s);
    if Ipv4Refusal(s).None? && Ipv4Length(s) <= |s| {
      BehindIpv4Sane(s[Ipv4Length(s)..], CheckedIpv4(s, out));
      SliceOfRest(Ipv4Of(s, out).payload, s, Ipv4Length(s));
    }
  }

  ghost predicate TailOf(x: seq<byte>, s: seq<byte>) {
    |x| <= |s| && x == s[|s| - |x|..]
  }

  lemma TailOfTail(x: seq<byte>, y: seq<byte>, s: seq<byte>)
    requires TailOf(x, y) && TailOf(y, s)
    ensures TailOf(x, s)
  {
  }

  lemma HopStaysInside(s: seq<byte>, next: byte, fragmented: bool, first: bool)
    ensures var h := HopOf(s, next, fragmented, first); TailOf(if h.On? then h.rest else h.w.rest, s)
  {
  }

  lemma {:induction false} ResolveStaysInside(s: seq<byte>, next: byte, hops: nat, fragmented: bool, first: bool)
    ensures TailOf(Resolve(s, next, hops, fragmented, first).rest, s)
    decreases hops
  {
    if hops > 0 {
      HopStaysInside(s, next, fragmented, first);
      var h := HopOf(s, next, fragmented, first);
      if h.On? {
        ResolveStaysInside(h.rest, h.next, hops - 1, h.fragmented, h.first);
        TailOfTail(Resolve(h.rest, h.next, hops - 1, h.fragmented, h.first).rest, h.rest, s);
      }
    }
  }

  lemma BehindIpv6Sane(s: seq<byte>, w: Walk, out: Frame)
    requires |s| >= 40 && Fresh(out) && !out.truncated
    requires TailOf(w.rest, s[40..])
    ensures Sane(BehindIpv6(s, w, out), s)
  {
    EmptySlice(s);
    var o := WithIpv6(s, w, out);
    if !o.truncated && o.firstFragment {
      L4Sane(w.rest, o);
      SliceOfRest(L4Of(w.rest, o).payload, s[40..], |s[40..]| - |w.rest|);
      SliceOfRest(L4Of(w.rest, o).payload, s, 40);
    }
  }

  lemma Ipv6Sane(s: seq<byte>, out: Frame)
    requires Fresh(out) && !out.truncated
    ensures Sane(Ipv6Of(s, out), s)
  {
    EmptySlice(s);
    if |s| >= 40 && s[0] / 16 == 6 {
      ResolveStaysInside(s[40..], s[6], MAX_HOPS, out.fragmented, out.firstFragment);
      BehindIpv6Sane(s, Resolve(s[40..], s[6], MAX_HOPS, out.fragmented, out.firstFragment), out);
    }
  }

  lemma L3Sane(s: seq<byte>, ethertype: nat, out: Frame)
    requires Fresh(out) && !out.truncated
    ensures Sane(L3Of(s, ethertype, out), s)
  {
    if ethertype == ETHERTYPE_IPV4 {
      Ipv4Sane(s, out);
    } else if ethertype == ETHERTYPE_IPV6 {
      Ipv6Sane(s, out);
    } else {
      EmptySlice(s);
    }
  }

  lemma {:induction false} UnwrapStaysInside(s: seq<byte>, ethertype: nat, tags: nat, out: Frame)
    requires Fresh(out) && !out.truncated
    ensures var u := Unwrap(s, ethertype, tags, out);
            && Fresh(u.out) && !u.out.truncated
            && TailOf(u.rest, s)
    decreases tags
  {
    if tags > 0 && IsTag(ethertype) && |s| >= 4 {
      UnwrapStaysInside(s[4..], U16(s, 2), tags - 1, out.(hasVlan := true, vlanId := U16(s, 0) % 0x1000));
    }
  }

  lemma TaggedSane(s: seq<byte>, ethertype: nat, out: Frame)
    requires Fresh(out) && !out.truncated
    ensures Sane(TaggedOf(s, ethertype, out), s)
  {
    EmptySlice(s);
    var u := Unwrap(s, ethertype, 2, out);
    UnwrapStaysInside(s, ethertype, 2, out);
    if u.whole {
      var o := u.out.(ethertype := u.ethertype);
      L3Sane(u.rest, u.ethertype, o);
      SliceOfRest(L3Of(u.rest, u.ethertype, o).payload, s, |s| - |u.rest|);
    }
  }

  lemma SkippingSane(s: seq<byte>, n: nat, ethertype: nat)
    requires n <= |s|
    ensures Sane(Skipping(s, n, ethertype), s)
  {
    L3Sane(s[n..], ethertype, BLANK.(ethertype := ethertype));
    SliceOfRest(Skipping(s, n, ethertype).payload, s, n);
  }

  /** For any bytes and any link type, the payload handed out is a run of the captured bytes, and there is none
      when the frame was cut short or decoding gave up. */
  lemma PayloadStaysInside(data: seq<byte>, link: LinkType)
    ensures SliceOf(PacketOf(data, link).payload, data)
    ensures PacketOf(data, link).truncated || PacketOf(data, link).error.Some? ==> PacketOf(data, link).payload == []
  {
    EmptySlice(data);
    if data != [] {
      match link
      case Ethernet =>
        if |data| >= 14 {
          TaggedSane(data[14..], U16(data, 12), WithMacs(data));
          SliceOfRest(PacketOf(data, link).payload, data, 14);
        }
      case LinuxSll => if |data| >= 16 { SkippingSane(data, 16, U16(data, 14)); }
      case LinuxSll2 => if |data| >= 20 { SkippingSane(data, 20, U16(data, 0)); }
      case Null(little) => if |data| >= 4 { SkippingSane(data, 4, LoopbackEthertype(data, little)); }
      case Raw => SkippingSane(data, 0, if data[0] / 16 == 6 then ETHERTYPE_IPV6 else ETHERTYPE_IPV4);
      case OtherLink =>
    }
  }

  // ------------------------------------------------------- extension header chains

  /** An extension header as laid out on the wire (sections 4.3 to 4.6 of RFC 8200). */
  datatype Extension =
    | Options(kind: byte, body: seq<byte>)
    | FragmentPart(reserved: byte, offset: nat, low: nat, id: seq<byte>)
  {
    predicate Encodable() {
      match this
      case Options(kind, body) => IsOptions(kind) && 6 <= |body| <= 255 * 8 + 6 && |body| % 8 == 6
      case FragmentPart(_, offset, low, id) => offset < 8192 && low < 8 && |id| == 4
    }

    function Kind(): byte { if Options? then kind else FRAGMENT }
  }

  function EncodeOne(e: Extension, next: byte): seq<byte>
    requires e.Encodable()
  {
    match e
    case Options(_, body) => [next, (|body| - 6) / 8] + body
    case FragmentPart(reserved, offset, low, id) => [next, reserved] + Bytes16(offset * 8 + low) + id
  }

  function Head(exts: seq<Extension>, upper: byte): byte {
    if exts == [] then upper else exts[0].Kind()
  }

  function EncodeChain(exts: seq<Extension>, upper: byte): seq<byte>
    requires forall e | e in exts :: e.Encodable()
  {
    if exts == [] then []
    else EncodeOne(exts[0], Head(exts[1..], upper)) + EncodeChain(exts[1..], upper)
  }

  /** Whether a chain says the datagram is a fragment, and whether it is the first one. */
  function Fragmented(exts: seq<Extension>, was: bool): bool {
    if exts == [] then was else Fragmented(exts[1..], was || exts[0].FragmentPart?)
  }

  function IsFirst(exts: seq<Extension>, was: bool): bool {
    if exts == [] then was else IsFirst(exts[1..], if exts[0].FragmentPart? then exts[0].offset == 0 else was)
  }

  predicate IsExtension(next: byte) {
    IsOptions(next) || next == FRAGMENT
  }

  lemma HopInverts(e: Extension, next: byte, tail: seq<byte>, fragmented: bool, first: bool)
    requires e.Encodable()
    ensures HopOf(EncodeOne(e, next) + tail, e.Kind(), fragmented, first) ==
            On(tail, next, fragmented || e.FragmentPart?, if e.FragmentPart? then e.offset == 0 else first)
  {
    var s := EncodeOne(e, next) + tail;
    match e
    case Options(_, body) =>
      assert OptionsLength(s) == 2 + |body|;
      assert s[2 + |body|..] == tail;
    case FragmentPart(_, offset, low, _) =>
      assert s[8..] == tail;
      assert U16(s, 2) == offset * 8 + low;
  }

  lemma ChainStep(e: Extension, next: byte, tail: seq<byte>, hops: nat, fragmented: bool, first: bool)
    requires e.Encodable() && hops > 0
    ensures Resolve(EncodeOne(e, next) + tail, e.Kind(), hops, fragmented, first) ==
            Resolve(tail, next, hops - 1, fragmented || e.FragmentPart?, if e.FragmentPart? then e.offset == 0 else first)
  {
    HopInverts(e, next, tail, fragmented, first);
  }

  lemma ChainCons(exts: seq<Extension>, upper: byte, tail: seq<byte>)
    requires exts != [] && forall e | e in exts :: e.Encodable()
    ensures forall e | e in exts[1..] :: e.Encodable()
    ensures EncodeChain(exts, upper) + tail ==
            EncodeOne(exts[0], Head(exts[1..], upper)) + (EncodeChain(exts[1..], upper) + tail)
  {
    assert forall e | e in exts[1..] :: e in exts;
  }

  /** The walk over a chain ends at its upper protocol with all that follows, if it may take enough steps, and is
      given up otherwise. */
  ghost predicate Ends(exts: seq<Extension>, upper: byte, tail: seq<byte>, hops: nat, fragmented: bool, first: bool, w: Walk) {
    if |exts| < hops then w == Walk(upper, tail, Fragmented(exts, fragmented), IsFirst(exts, first), false)
    else w.next == NO_NEXT && !w.truncated
  }

  /** What is behind the first header of a chain, as the walk meets it. */
  function Behind(exts: seq<Extension>, upper: byte, tail: seq<byte>, hops: nat, fragmented: bool, first: bool): Walk
    requires exts != [] && hops > 0 && forall e | e in exts[1..] :: e.Encodable()
  {
    Resolve(EncodeChain(exts[1..], upper) + tail, Head(exts[1..], upper), hops - 1,
            fragmented || exts[0].FragmentPart?, if exts[0].FragmentPart? then exts[0].offset == 0 else first)
  }

  lemma StepsBehind(exts: seq<Extension>, upper: byte, tail: seq<byte>, hops: nat, fragmented: bool, first: bool)
    requires exts != [] && hops > 0 && forall e | e in exts :: e.Encodable()
    ensures forall e | e in exts[1..] :: e.Encodable()
    ensures Resolve(EncodeChain(exts, upper) + tail, Head(exts, upper), hops, fragmented, first) ==
            Behind(exts, upper, tail, hops, fragmented, first)
  {
    ChainCons(exts, upper, tail);
    ChainStep(exts[0], Head(exts[1..], upper), EncodeChain(exts[1..], upper) + tail, hops, fragmented, first);
  }

  lemma EndsOneLater(exts: seq<Extension>, upper: byte, tail: seq<byte>, hops: nat, fragmented: bool, first: bool, w: Walk)
    requires exts != [] && hops > 0
    requires Ends(exts[1..], upper, tail, hops - 1, fragmented || exts[0].FragmentPart?,
                  if exts[0].FragmentPart? then exts[0].offset == 0 else first, w)
    ensures Ends(exts, upper, tail, hops, fragmented, first, w)
  {
  }

  /** A chain of fewer headers than the walk may take resolves to its true upper protocol and to all that follows it;
      a longer one is given up. */
  lemma {:induction false} ChainResolves(exts: seq<Extension>, upper: byte, tail: seq<byte>, hops: nat,
                                         fragmented: bool, first: bool)
    requires (forall e | e in exts :: e.Encodable()) && !IsExtension(upper)
    ensures Ends(exts, upper, tail, hops, fragmented, first,
                 Resolve(EncodeChain(exts, upper) + tail, Head(exts, upper), hops, fragmented, first))
    decreases |exts|
  {
    if exts == [] {
      assert EncodeChain(exts, upper) + tail == tail;
    } else if hops > 0 {
      StepsBehind(exts, upper, tail, hops, fragmented, first);
      ChainResolves(exts[1..], upper, tail, hops - 1, fragmented || exts[0].FragmentPart?,
                    if exts[0].FragmentPart? then exts[0].offset == 0 else first);
      EndsOneLater(exts, upper, tail, hops, fragmented, first, Behind(exts, upper, tail, hops, fragmented, first));
    }
  }

  /** So the decoder finds the upper protocol exactly behind at most seven extension headers. */
  lemma SevenHeadersResolve(exts: seq<Extension>, upper: byte, tail: seq<byte>)
    requires (forall e | e in exts :: e.Encodable()) && !IsExtension(upper) && upper != NO_NEXT
    ensures var w := Resolve(EncodeChain(exts, upper) + tail, Head(exts, upper), MAX_HOPS, false, true);
            && (w.next == upper <==> |exts| <= 7)
            && (|exts| <= 7 ==> w.rest == tail && w.fragmented == (exists e :: e in exts && e.FragmentPart?))
  {
    ChainResolves(exts, upper, tail, MAX_HOPS, false, true);
    FragmentedIff(exts, false);
  }

  lemma {:induction false} FragmentedIff(exts: seq<Extension>, was: bool)
    ensures Fragmented(exts, was) <==> was || exists e :: e in exts && e.FragmentPart?
  {
    if exts != [] {
      FragmentedIff(exts[1..], was || exts[0].FragmentPart?);
      assert exts[0] in exts && forall e | e in exts :: e == exts[0] || e in exts[1..];
    }
  }
}
