/** The bounded table of conversations, updated in place one packet at a time. */
module FlowTables {
  import opened Serial
  import opened Dissection
  import opened SequenceTracking
  import opened RoundTrip
  import opened FlowModel
  import opened Reassembly
  import TcpStates
  import TlsHello

  // ------------------------------------------------------------------ records

  class DirectionStats {
    var packets: nat
    var bytes: nat
    var payloadBytes: nat
    var retransmits: nat
    var outOfOrder: nat
    var syn: nat
    var fin: nat
    var rst: nat
    var pureAcks: nat
    var lastWindow: nat
    var lastTtl: byte
    var seqValid: bool
    var nextSeq: uint32
    var recentSegments: seq<nat>
    var holes: seq<Hole>
    var stream: StreamReassembler?
    var awaitingAck: seq<Sent>
    const rtt: RttStats

    ghost function CountersOf(): Counters
      reads this
    {
      Counters(packets, bytes, payloadBytes, syn, fin, rst, pureAcks, lastWindow, lastTtl)
    }

    ghost function TrackerOf(): Tracker
      reads this
    {
      Tracker(seqValid, nextSeq, recentSegments, holes, retransmits, outOfOrder)
    }

    ghost function SenderOf(): Sender
      reads this, rtt
    {
      Sender(awaitingAck, rtt.Model())
    }

    /** The reassembler's own invariant, and that it was built with the default caps. */
    ghost predicate StreamValid()
      reads `stream, stream
    {
      stream != null ==> stream.Valid() && stream.Limits() == STREAM_CAPS
    }

    ghost function StreamOf(): Option<Stream>
      reads `stream, stream
    {
      if stream == null then None else Some(stream.Model())
    }

    /** The direction but for its reassembler. */
    ghost function Core(): Direction
      reads this, rtt
    {
      Direction(CountersOf(), TrackerOf(), SenderOf(), None)
    }

    constructor ()
      ensures Core() == NO_DIRECTION && StreamValid() && stream == null && fresh(rtt)
    {
      packets, bytes, payloadBytes, retransmits, outOfOrder := 0, 0, 0, 0, 0;
      syn, fin, rst, pureAcks, lastWindow, lastTtl := 0, 0, 0, 0, 0, 0;
      seqValid, nextSeq, recentSegments, holes := false, 0, [], [];
      stream, awaitingAck := null, [];
      rtt := new RttStats();
    }

    /** Counts a packet of this direction. */
    method CountPacket(p: DecodedPacket)
      modifies `packets, `bytes, `payloadBytes, `lastTtl, `lastWindow, `syn, `fin, `rst, `pureAcks
      ensures CountersOf() == Count(old(CountersOf()), p)
    {
      packets := packets + 1;
      bytes := bytes + p.wirelen;
      payloadBytes := payloadBytes + |p.payload|;
      lastTtl := p.ttl;
      if p.l4 == TCP {
        CountFlags(p);
      }
    }

    method CountFlags(p: DecodedPacket)
      requires p.l4 == TCP
      modifies `lastWindow, `syn, `fin, `rst, `pureAcks
      ensures lastWindow == p.window && syn == old(syn) + One(p.flags.syn) && fin == old(fin) + One(p.flags.fin)
      ensures rst == old(rst) + One(p.flags.rst) && pureAcks == old(pureAcks) + One(PureAck(p))
    {
      lastWindow := p.window;
      if p.flags.syn { syn := syn + 1; }
      if p.flags.fin { fin := fin + 1; }
      if p.flags.rst { rst := rst + 1; }
      if |p.payload| == 0 && p.flags.ack && !p.flags.syn && !p.flags.fin && !p.flags.rst {
        pureAcks := pureAcks + 1;
      }
    }

    /** Does [lo, hi) land in a range known to be missing? If so that range is now partly filled. */
    method FillKnownHole(lo: uint32, hi: uint32) returns (filled: bool)
      modifies `holes
      ensures var i := FirstOverlap(old(holes), lo, hi);
              && (filled <==> i < |old(holes)|)
              && holes == if i < |old(holes)| then Fill(old(holes), i, lo, hi) else old(holes)
    {
      var i := 0;
      ghost var first := FirstOverlap(holes, lo, hi);
      while i < |holes|
        invariant i <= first && i <= |holes| && holes == old(holes)
      {
        var h := holes[i];
        if RangesOverlap(lo, hi, h.lo, h.hi) {
          if SeqLe(h.hi, hi) && SeqLe(lo, h.lo) {
            holes := holes[..i] + holes[i + 1..];
          } else if SeqLe(lo, h.lo) {
            holes := holes[i := h.(lo := hi)];
          } else {
            holes := holes[i := h.(hi := lo)];
          }
          return true;
        }
        i := i + 1;
      }
      return false;
    }

    /** Remembers a data segment until the peer acknowledges it. */
    method AwaitAck(end: uint32, len: nat, at: int, resend: bool)
      modifies `awaitingAck
      ensures Core() == old(Core()).(sender := Remember(old(SenderOf()), end, len, at, resend))
    {
      if len > 0 && !resend {
        awaitingAck := awaitingAck + [Sent(end, at)];
        if |awaitingAck| > MAX_AWAITING_ACK {
          awaitingAck := awaitingAck[1..];
        }
      }
    }

    /** An acknowledgement retires sends from the front and takes at most one sample. */
    method TakeAck(ack: uint32, at: int) returns (sampled: bool)
      modifies `awaitingAck, rtt
      ensures Core() == old(Core()).(sender := Acknowledge(old(SenderOf()), ack, at))
      ensures sampled <==> Covered(old(awaitingAck), ack) > 0
    {
      sampled := false;
      ghost var start := SenderOf();
      ghost var k := Covered(awaitingAck, ack);
      ghost var removed := 0;
      while |awaitingAck| > 0 && SeqLe(awaitingAck[0].end, ack)
        invariant removed <= k <= |start.queue| && awaitingAck == start.queue[removed..]
        invariant sampled <==> removed > 0
        invariant rtt.Model() == if removed == 0 then start.rtt else AddSample(start.rtt, Millis(at, start.queue[0].at))
        decreases |awaitingAck|
      {
        if !sampled {
          rtt.Add(Millis(at, awaitingAck[0].at));
          sampled := true;
        }
        assert removed < k;
        awaitingAck := awaitingAck[1..];
        removed := removed + 1;
      }
      assert removed == k;
    }
  }

  class Flow {
    const id: nat
    const key: FlowKey
    const l4: L4Proto
    const fwd: DirectionStats
    const rev: DirectionStats
    const firstSeen: int
    var state: TcpStates.TcpState
    var lastSeen: int
    var handshakeComplete: bool
    var app: AppInfo
    var handshakeRttMs: real
    var synTs: int
    var synSeen: bool
    ghost var Repr: set<object>

    ghost predicate Valid()
      reads this, Repr
      ensures Valid() ==> this in Repr
    {
      && this in Repr && fwd in Repr && rev in Repr && fwd.rtt in Repr && rev.rtt in Repr
      && (fwd.stream != null ==> fwd.stream in Repr) && (rev.stream != null ==> rev.stream in Repr)
      && fwd != rev && fwd.rtt != rev.rtt && (fwd.stream != null ==> fwd.stream != rev.stream)
      && fwd.StreamValid() && rev.StreamValid()
    }

    ghost function Handshaking(): Handshake
      reads this
    {
      Handshake(synTs, synSeen, handshakeRttMs)
    }

    /** The flow but for its application label and its reassemblers. */
    ghost function Core(): FlowState
      reads this, fwd, rev, fwd.rtt, rev.rtt
    {
      FlowState(id, key, l4, state, handshakeComplete, fwd.Core(), rev.Core(), firstSeen, lastSeen, UNIDENTIFIED, Handshaking())
    }

    ghost function Model(): FlowState
      reads this, fwd, rev, fwd.rtt, rev.rtt, fwd.stream, rev.stream
    {
      Full(Core(), fwd.StreamOf(), rev.StreamOf(), app)
    }

    constructor (id: nat, p: DecodedPacket)
      ensures Valid() && fresh(Repr) && Model() == NewFlow(id, p)
    {
      this.id, key, l4, firstSeen := id, KeyOf(p), p.l4, p.ts;
      fwd := new DirectionStats();
      rev := new DirectionStats();
      state, lastSeen, handshakeComplete, app := TcpStates.None, 0, false, UNIDENTIFIED;
      handshakeRttMs, synTs, synSeen := -1.0, 0, false;
      new;
      Repr := {this, fwd, rev, fwd.rtt, rev.rtt};
    }

    function DirectionOf(forward: bool): (d: DirectionStats)
      ensures d == if forward then fwd else rev
    {
      if forward then fwd else rev
    }

    /** Advances the connection state on the evidence of one segment. */
    method AdvanceTcpState(p: DecodedPacket, forward: bool)
      modifies `state, `handshakeComplete
      ensures (state, handshakeComplete) ==
              TcpStates.Advance(old(state), old(handshakeComplete), p.flags, forward, fwd.fin, rev.fin)
    {
      if p.flags.rst {
        state := TcpStates.Reset;
        return;
      }
      var syn, ack, fin := p.flags.syn, p.flags.ack, p.flags.fin;
      match state
      case None =>
        state := if syn && !ack then TcpStates.SynSent else if syn && ack then TcpStates.SynReceived else TcpStates.Established;
      case SynSent =>
        if syn && ack { state := TcpStates.SynReceived; }
      case SynReceived =>
        if ack && !syn {
          state := TcpStates.Established;
          handshakeComplete := true;
        }
      case Established =>
        if fin { state := TcpStates.FinWait; }
      case FinWait =>
        if fin {
          var otherSideFinned := if forward then rev.fin > 0 else fwd.fin > 0;
          state := if otherSideFinned then TcpStates.Closing else TcpStates.FinWait;
        }
      case Closing =>
        if ack && !fin { state := TcpStates.Closed; }
      case _ =>
        if syn && !ack {
          state := TcpStates.SynSent;
          handshakeComplete := false;
        }
    }
  }

  /** Whether the data starts with one of the HTTP request methods or the response version. */
  method LooksLikeHttp(data: seq<byte>) returns (found: bool)
    ensures found <==> HttpMagic(data)
  {
    var i := 0;
    while i < |HTTP_STARTS|
      invariant i <= |HTTP_STARTS| && forall j | 0 <= j < i :: !StartsWith(data, HTTP_STARTS[j])
    {
      if StartsWith(data, HTTP_STARTS[i]) {
        return true;
      }
      i := i + 1;
    }
    return false;
  }

  method DissectTcpStream(others: Dissectors, prefix: seq<byte>, sport: nat, dport: nat) returns (out: Option<AppInfo>)
    ensures out == DissectStream(others, prefix, sport, dport)
  {
    if |prefix| < 4 {
      return None;
    }
    var service := Service(sport, dport);
    if TlsFirst(service) {
      out := TlsHello.DissectTls(prefix);
      if out.Some? { return; }
    }
    var http := LooksLikeHttp(prefix);
    if http {
      return Some(others.http(prefix));
    }
    if !TlsFirst(service) {
      out := TlsHello.DissectTls(prefix);
      if out.Some? { return; }
    }
    if StartsWith(prefix, "SSH-") {
      return Some(others.ssh(prefix));
    }
    if service == 53 {
      var declared := U16(prefix, 0);
      if declared >= 12 && declared <= |prefix| - 2 {
        return others.dns(prefix[2..2 + declared]);
      }
    }
    return None;
  }

  // -------------------------------------------------------------------- table

  /** What is left once every flow but the unseen ones has been looked at. */
  ghost function Sifted(flows: map<FlowKey, FlowState>, unseen: set<FlowKey>, now: int, idleSec: real): map<FlowKey, FlowState> {
    map k | k in flows && (k in unseen || !FlowModel.Expired(flows[k], now, idleSec)) :: flows[k]
  }

  lemma Sift(flows: map<FlowKey, FlowState>, unseen: set<FlowKey>, k: FlowKey, now: int, idleSec: real)
    requires k in flows && k in unseen
    ensures var before := Sifted(flows, unseen, now, idleSec);
            && k in before && before[k] == flows[k]
            && Sifted(flows, unseen - {k}, now, idleSec) ==
               if FlowModel.Expired(flows[k], now, idleSec) then before - {k} else before
  {
  }

  lemma AllSifted(flows: map<FlowKey, FlowState>, now: int, idleSec: real)
    ensures Sifted(flows, flows.Keys, now, idleSec) == flows
    ensures Sifted(flows, {}, now, idleSec) == Survivors(flows, now, idleSec)
  {
  }

  /** What an inspection may change: the label, the direction's stream and two of the totals. */
  datatype Sight = Sight(app: AppInfo, stream: Option<Stream>, reassembled: nat, counts: map<AppProtocol, nat>)

  ghost function Shown(i: Inspection, reassembled: nat, counts: map<AppProtocol, nat>): Sight {
    Sight(i.app, i.stream, reassembled + i.added, Bump(counts, i.counted))
  }

  predicate Listed(flows: map<FlowKey, Flow>, k: FlowKey) {
    k in flows
  }

  /** Flows under their own keys, each the owner of its own objects, with these contents. */
  ghost predicate Stores(flows: map<FlowKey, Flow>, objects: set<object>, contents: map<FlowKey, FlowState>)
    reads objects
  {
    && flows.Keys == contents.Keys
    && (forall k {:trigger Listed(flows, k)} | Listed(flows, k) ::
          flows[k] in objects && flows[k].Repr <= objects && flows[k].Valid() && flows[k].key == k
          && flows[k].Model() == contents[k])
    && (forall j, k {:trigger Listed(flows, j), Listed(flows, k)} | Listed(flows, j) && Listed(flows, k) && j != k ::
          flows[j].Repr !! flows[k].Repr)
  }

  lemma Fetch(flows: map<FlowKey, Flow>, objects: set<object>, contents: map<FlowKey, FlowState>, key: FlowKey)
    requires Stores(flows, objects, contents) && key in flows
    ensures flows[key] in objects && flows[key].Repr <= objects && flows[key].Valid() && flows[key].key == key
    ensures flows[key].Model() == contents[key]
  {
    assert Listed(flows, key);
  }

  lemma Replaced<V>(m: map<FlowKey, V>, key: FlowKey, v: V)
    ensures (m - {key})[key := v] == m[key := v]
    ensures key in m ==> m[key := m[key]] == m
  {
  }

  /** Taking flows out. */
  lemma Without(flows: map<FlowKey, Flow>, objects: set<object>, contents: map<FlowKey, FlowState>, gone: set<FlowKey>)
    requires Stores(flows, objects, contents)
    ensures Stores(flows - gone, objects, contents - gone)
  {
    var left := flows - gone;
    forall k | Listed(left, k)
      ensures Listed(flows, k) && left[k] == flows[k]
    {
    }
  }

  /** Taking a flow out together with its objects. */
  lemma Apart(flows: map<FlowKey, Flow>, objects: set<object>, contents: map<FlowKey, FlowState>, key: FlowKey)
    requires Stores(flows, objects, contents) && key in flows
    ensures Stores(flows - {key}, objects - flows[key].Repr, contents - {key})
  {
    var left := flows - {key};
    assert Listed(flows, key);
    forall k | Listed(left, k)
      ensures Listed(flows, k) && left[k] == flows[k]
    {
    }
  }

  /** Putting a flow in together with its objects. */
  lemma Together(flows: map<FlowKey, Flow>, objects: set<object>, contents: map<FlowKey, FlowState>, key: FlowKey, flow: Flow)
    requires Stores(flows, objects, contents) && key !in flows
    requires flow.Valid() && flow.key == key && flow.Repr !! objects
    ensures Stores(flows[key := flow], objects + flow.Repr, contents[key := flow.Model()])
  {
    var more := flows[key := flow];
    forall k | Listed(more, k) && k != key
      ensures Listed(flows, k) && more[k] == flows[k]
    {
    }
  }

  lemma DeliveryParts(cfg: Config, app: AppInfo, delivered: nat, s: Stream, p: DecodedPacket)
    requires delivered <= s.delivered
    ensures var i, info := InspectDelivery(cfg, app, delivered, s, p), Reading(cfg, s.delivered - delivered, s.prefix, p);
            && i.app == Relabelled(app, info) && i.added == s.delivered - delivered
            && i.stream == Kept(i.app, s) && i.counted == FirstLabel(app, info)
  {
  }

  class FlowTable {
    const maxFlows: nat
    const others: Dissectors
    var dissectEnabled: bool
    var flows: map<FlowKey, Flow>
    var nextId: nat
    var totalRetransmits: nat
    var totalOutOfOrder: nat
    var totalDataSegments: nat
    var totalReassembled: nat
    var totalRttSamples: nat
    var appCounts: map<AppProtocol, nat>
    ghost var contents: map<FlowKey, FlowState>
    ghost var Repr: set<object>

    ghost predicate Valid()
      reads this, Repr
    {
      this !in Repr && 1 <= maxFlows && |flows| <= maxFlows && Stores(flows, Repr, contents)
    }

    ghost function Settings(): Config
      reads `dissectEnabled
    {
      Config(others, dissectEnabled)
    }

    ghost function TotalsOf(): Totals
      reads `nextId, `totalRetransmits, `totalOutOfOrder, `totalDataSegments, `totalReassembled, `totalRttSamples, `appCounts
    {
      Totals(nextId, totalRetransmits, totalOutOfOrder, totalDataSegments, totalReassembled, totalRttSamples, appCounts)
    }

    ghost function Model(): Table
      reads this
    {
      Table(contents, TotalsOf())
    }

    constructor (others: Dissectors, maxFlows: nat := 65536)
      requires maxFlows >= 1
      ensures Valid() && Repr == {} && Model() == EMPTY_TABLE
      ensures this.maxFlows == maxFlows && Settings() == Config(others, true)
    {
      this.maxFlows, this.others, dissectEnabled, flows, nextId := maxFlows, others, true, map[], 0;
      totalRetransmits, totalOutOfOrder, totalDataSegments, totalReassembled, totalRttSamples := 0, 0, 0, 0, 0;
      appCounts, contents, Repr := map[], map[], {};
    }

    /** Judges a segment against its direction's history; true if it was judged a resend. */
    method TrackSequence(dir: DirectionStats, p: DecodedPacket) returns (retransmit: bool)
      modifies `totalDataSegments, `totalRetransmits, `totalOutOfOrder
      modifies dir`seqValid, dir`nextSeq, dir`recentSegments, dir`holes, dir`retransmits, dir`outOfOrder
      ensures dir.Core() == old(dir.Core()).(tracker := Track(old(dir.TrackerOf()), p))
      ensures retransmit == JudgedResend(old(dir.TrackerOf()), p)
      ensures TotalsOf() == SequenceTally(old(TotalsOf()), old(dir.TrackerOf()), p)
    {
      var len: uint32 := |p.payload|;
      if len == 0 {
        TrackFlags(dir, p);
        return false;
      }
      retransmit := TrackPayload(dir, p.sn, len);
    }

    /** Without data only the flags move the next number: SYN or FIN by one. */
    method TrackFlags(dir: DirectionStats, p: DecodedPacket)
      modifies dir`seqValid, dir`nextSeq
      ensures dir.Core() == old(dir.Core()).(tracker := TrackControl(old(dir.TrackerOf()), p.sn, One(p.flags.syn || p.flags.fin)))
    {
      var consumed := 0;
      if p.flags.syn { consumed := 1; }
      if p.flags.fin { consumed := 1; }
      if !dir.seqValid {
        dir.seqValid := true;
        dir.nextSeq := Add32(p.sn, consumed);
      } else if SeqGt(Add32(p.sn, consumed), dir.nextSeq) {
        dir.nextSeq := Add32(p.sn, consumed);
      }
    }

    /** The same for a segment that carries data. */
    method TrackPayload(dir: DirectionStats, sn: uint32, len: uint32) returns (retransmit: bool)
      requires len > 0
      modifies `totalDataSegments, `totalRetransmits, `totalOutOfOrder
      modifies dir`seqValid, dir`nextSeq, dir`recentSegments, dir`holes, dir`retransmits, dir`outOfOrder
      ensures dir.Core() == old(dir.Core()).(tracker := TrackData(old(dir.TrackerOf()), sn, len))
      ensures var v := Judge(old(dir.TrackerOf()), sn, len);
              && (retransmit <==> v == Resend)
              && totalDataSegments == old(totalDataSegments) + 1
              && totalRetransmits == old(totalRetransmits) + One(retransmit)
              && totalOutOfOrder == old(totalOutOfOrder) + One(v.Late? || v == Jump)
    {
      retransmit := JudgePayload(dir, sn, len);
    }

    /** Judges the data [sn, sn + len) and updates the tracker and the totals field by field. */
    method JudgePayload(dir: DirectionStats, sn: uint32, len: uint32) returns (retransmit: bool)
      requires len > 0
      modifies `totalDataSegments, `totalRetransmits, `totalOutOfOrder
      modifies dir`seqValid, dir`nextSeq, dir`recentSegments, dir`holes, dir`retransmits, dir`outOfOrder
      ensures dir.TrackerOf() == TrackData(old(dir.TrackerOf()), sn, len)
      ensures var v := Judge(old(dir.TrackerOf()), sn, len);
              && (retransmit <==> v == Resend)
              && totalDataSegments == old(totalDataSegments) + 1
              && totalRetransmits == old(totalRetransmits) + One(retransmit)
              && totalOutOfOrder == old(totalOutOfOrder) + One(v.Late? || v == Jump)
    {
      totalDataSegments := totalDataSegments + 1;
      var fp := Fingerprint(sn, len);
      var duplicate := fp in dir.recentSegments;
      var end := Add32(sn, len);
      retransmit := false;
      if !dir.seqValid {
        dir.seqValid := true;
        dir.nextSeq := end;
      } else if duplicate {
        CountRetransmit(dir);
        retransmit := true;
      } else if SeqLe(end, dir.nextSeq) {
        var filled := dir.FillKnownHole(sn, end);
        if filled {
          CountOutOfOrder(dir);
        } else {
          CountRetransmit(dir);
          retransmit := true;
        }
      } else if SeqGt(sn, dir.nextSeq) {
        dir.holes := AppendCapped(dir.holes, Hole(dir.nextSeq, sn), MAX_TRACKED_HOLES);
        CountOutOfOrder(dir);
        dir.nextSeq := end;
      } else {
        dir.nextSeq := end;
      }
      dir.recentSegments := AppendCapped(dir.recentSegments, fp, RECENT_SEGMENT_WINDOW);
    }

    method CountRetransmit(dir: DirectionStats)
      modifies `totalRetransmits, dir`retransmits
      ensures dir.retransmits == old(dir.retransmits) + 1 && totalRetransmits == old(totalRetransmits) + 1
    {
      dir.retransmits := dir.retransmits + 1;
      totalRetransmits := totalRetransmits + 1;
    }

    method CountOutOfOrder(dir: DirectionStats)
      modifies `totalOutOfOrder, dir`outOfOrder
      ensures dir.outOfOrder == old(dir.outOfOrder) + 1 && totalOutOfOrder == old(totalOutOfOrder) + 1
    {
      dir.outOfOrder := dir.outOfOrder + 1;
      totalOutOfOrder := totalOutOfOrder + 1;
    }

    /** Times the handshake, remembers this segment, and retires what it acknowledges. */
    method TrackRtt(flow: Flow, sender: DirectionStats, peer: DirectionStats, p: DecodedPacket, retransmit: bool)
      requires sender != peer && sender.rtt != peer.rtt
      modifies `totalRttSamples, flow`synTs, flow`synSeen, flow`handshakeRttMs
      modifies sender`awaitingAck, peer`awaitingAck, peer.rtt
      ensures flow.Handshaking() == Shake(old(flow.Handshaking()), p.flags.syn, p.flags.ack, p.ts)
      ensures sender.Core() == old(sender.Core()).(sender :=
                Remember(old(sender.SenderOf()), Add32(p.sn, |p.payload|), |p.payload|, p.ts, retransmit))
      ensures peer.Core() == Hears(old(peer.Core()), p)
      ensures totalRttSamples == old(totalRttSamples)
              + One(Measures(old(flow.Handshaking()), p.flags.syn, p.flags.ack))
              + One(p.flags.ack && Covered(old(peer.awaitingAck), p.ack) > 0)
    {
      TimeHandshake(flow, p);
      sender.AwaitAck(Add32(p.sn, |p.payload|), |p.payload|, p.ts, retransmit);
      if p.flags.ack {
        var sampled := peer.TakeAck(p.ack, p.ts);
        if sampled { totalRttSamples := totalRttSamples + 1; }
      }
    }

    /** The SYN to SYN/ACK delay. */
    method TimeHandshake(flow: Flow, p: DecodedPacket)
      modifies `totalRttSamples, flow`synTs, flow`synSeen, flow`handshakeRttMs
      ensures flow.Handshaking() == Shake(old(flow.Handshaking()), p.flags.syn, p.flags.ack, p.ts)
      ensures totalRttSamples == old(totalRttSamples)
              + One(Measures(old(flow.Handshaking()), p.flags.syn, p.flags.ack))
    {
      var syn, ack := p.flags.syn, p.flags.ack;
      if syn && !ack {
        flow.synTs := p.ts;
        flow.synSeen := true;
      } else if syn && ack && flow.synSeen && flow.handshakeRttMs < 0.0 {
        flow.handshakeRttMs := Millis(p.ts, flow.synTs);
        totalRttSamples := totalRttSamples + 1;
      }
    }

    /** Feeds the payload through reassembly, then tries to name the protocol. */
    method ReassembleAndDissect(flow: Flow, forward: bool, p: DecodedPacket)
      requires flow.Valid()
      modifies `totalReassembled, `appCounts, flow`app, flow`Repr
      modifies flow.DirectionOf(forward)`stream, flow.DirectionOf(forward).stream
      ensures flow.Valid() && fresh(flow.Repr - old(flow.Repr))
      ensures var i := Inspect(Settings(), old(flow.app), old(flow.DirectionOf(forward).StreamOf()), p);
              Sight(flow.app, flow.DirectionOf(forward).StreamOf(), totalReassembled, appCounts)
              == Shown(i, old(totalReassembled), old(appCounts))
      ensures flow.DirectionOf(!forward).StreamOf() == old(flow.DirectionOf(!forward).StreamOf())
    {
      if !dissectEnabled || flow.app.conclusive {
        return;
      }
      if p.l4 == UDP {
        if |p.payload| > 0 {
          var info := others.udp(p.payload, p.sport, p.dport);
          if info.Some? { Identify(flow, info.value); }
        }
        return;
      }
      if p.l4 != TCP || (|p.payload| == 0 && !p.flags.syn) {
        return;
      }
      InspectPayload(flow, forward, p);
    }

    /** The flow takes a new label; the first one is counted. */
    method Identify(flow: Flow, info: AppInfo)
      modifies `appCounts, flow`app
      ensures flow.app == info
      ensures appCounts == Bump(old(appCounts), if old(flow.app).Identified() then None else Some(info.proto))
    {
      var first := !flow.app.Identified();
      flow.app := info;
      if first {
        appCounts := appCounts[info.proto := (if info.proto in appCounts then appCounts[info.proto] else 0) + 1];
      }
    }

    method InspectPayload(flow: Flow, forward: bool, p: DecodedPacket)
      requires flow.Valid()
      modifies `totalReassembled, `appCounts, flow`app, flow`Repr
      modifies flow.DirectionOf(forward)`stream, flow.DirectionOf(forward).stream
      ensures flow.Valid() && fresh(flow.Repr - old(flow.Repr))
      ensures var before := old(flow.DirectionOf(forward).StreamOf());
              var i := InspectSegment(Settings(), old(flow.app), if before.Some? then before.value else EMPTY, p);
              Sight(flow.app, flow.DirectionOf(forward).StreamOf(), totalReassembled, appCounts)
              == Shown(i, old(totalReassembled), old(appCounts))
      ensures flow.DirectionOf(!forward).StreamOf() == old(flow.DirectionOf(!forward).StreamOf())
    {
      var dir := flow.DirectionOf(forward);
      ghost var before := if dir.stream == null then EMPTY else dir.stream.Model();
      ghost var app, s := flow.app, Push(STREAM_CAPS, before, p.sn, p.payload, p.flags.syn);
      var stream, added := FeedStream(flow, forward, p);
      totalReassembled := totalReassembled + added;
      Relabel(flow, added, stream.prefix, p);
      DeliveryParts(Settings(), app, before.delivered, s, p);
      assert stream.Model() == s;
      if flow.app.conclusive || |stream.prefix| >= stream.maxPrefix {
        dir.stream := null;
      }
    }

    /** Feeds the direction's reassembler, created on first use. */
    method FeedStream(flow: Flow, forward: bool, p: DecodedPacket) returns (stream: StreamReassembler, added: nat)
      requires flow.Valid()
      modifies flow`Repr, flow.DirectionOf(forward)`stream, flow.DirectionOf(forward).stream
      ensures flow.Valid() && fresh(flow.Repr - old(flow.Repr)) && stream in flow.Repr
      ensures flow.DirectionOf(forward).stream == stream
      ensures stream == old(flow.DirectionOf(forward).stream) || fresh(stream)
      ensures var before := if old(flow.DirectionOf(forward).stream) == null then EMPTY
                            else old(flow.DirectionOf(forward).stream.Model());
              && stream.Model() == Push(STREAM_CAPS, before, p.sn, p.payload, p.flags.syn)
              && added == stream.delivered - before.delivered
      ensures flow.DirectionOf(!forward).StreamOf() == old(flow.DirectionOf(!forward).StreamOf())
    {
      var dir := flow.DirectionOf(forward);
      if dir.stream == null {
        dir.stream := new StreamReassembler();
      }
      stream := dir.stream;
      flow.Repr := flow.Repr + {stream};
      added := stream.Feed(p.sn, p.payload, p.flags.syn);
    }

    /** Tries to name the protocol from the delivered prefix. */
    method Relabel(flow: Flow, added: nat, prefix: seq<byte>, p: DecodedPacket)
      modifies `appCounts, flow`app
      ensures var info := Reading(Settings(), added, prefix, p);
              && flow.app == Relabelled(old(flow.app), info)
              && appCounts == Bump(old(appCounts), FirstLabel(old(flow.app), info))
    {
      if added > 0 {
        var info := DissectTcpStream(others, prefix, p.sport, p.dport);
        if info.Some? && (!flow.app.Identified() || (info.value.conclusive && !flow.app.conclusive)) {
          Identify(flow, info.value);
        }
      }
    }

    /** The TCP part of an update: sequence tracking, connection state, round-trip times. */
    method TrackSegment(flow: Flow, dir: DirectionStats, peer: DirectionStats, p: DecodedPacket, forward: bool)
      requires dir == flow.DirectionOf(forward) && peer == flow.DirectionOf(!forward)
      requires dir != peer && dir.rtt != peer.rtt
      modifies `totalRetransmits, `totalOutOfOrder, `totalDataSegments, `totalRttSamples
      modifies flow`state, flow`handshakeComplete, flow`synTs, flow`synSeen, flow`handshakeRttMs
      modifies dir`seqValid, dir`nextSeq, dir`recentSegments, dir`holes, dir`retransmits, dir`outOfOrder, dir`awaitingAck
      modifies peer`awaitingAck, peer.rtt
      ensures (flow.state, flow.handshakeComplete) ==
              TcpStates.Advance(old(flow.state), old(flow.handshakeComplete), p.flags, forward, flow.fwd.fin, flow.rev.fin)
      ensures flow.Handshaking() == Shake(old(flow.Handshaking()), p.flags.syn, p.flags.ack, p.ts)
      ensures dir.Core() == Sends(old(dir.Core()), p) && peer.Core() == Hears(old(peer.Core()), p)
      ensures TotalsOf() == TallyParts(old(TotalsOf()), old(dir.TrackerOf()), old(peer.awaitingAck), old(flow.Handshaking()), p)
    {
      var retransmit := TrackSequence(dir, p);
      flow.AdvanceTcpState(p, forward);
      TrackRtt(flow, dir, peer, p, retransmit);
    }

    /** Arrival time and counters. */
    method SeePacket(flow: Flow, dir: DirectionStats, p: DecodedPacket, forward: bool)
      requires dir == flow.DirectionOf(forward) && flow.fwd != flow.rev
      modifies flow`lastSeen
      modifies dir`packets, dir`bytes, dir`payloadBytes, dir`lastTtl, dir`lastWindow, dir`syn, dir`fin, dir`rst, dir`pureAcks
      ensures flow.Core() == Seen(old(flow.Core()), p, forward)
    {
      flow.lastSeen := p.ts;
      dir.CountPacket(p);
    }

    /** The TCP part, on the whole flow. */
    method FollowSegment(flow: Flow, dir: DirectionStats, peer: DirectionStats, p: DecodedPacket, forward: bool)
      requires dir == flow.DirectionOf(forward) && peer == flow.DirectionOf(!forward)
      requires dir != peer && dir.rtt != peer.rtt
      modifies `totalRetransmits, `totalOutOfOrder, `totalDataSegments, `totalRttSamples
      modifies flow`state, flow`handshakeComplete, flow`synTs, flow`synSeen, flow`handshakeRttMs
      modifies dir`seqValid, dir`nextSeq, dir`recentSegments, dir`holes, dir`retransmits, dir`outOfOrder, dir`awaitingAck
      modifies peer`awaitingAck, peer.rtt
      ensures flow.Core() == Segment(old(flow.Core()), p, forward)
      ensures TotalsOf() == TallySegment(old(TotalsOf()), old(flow.Core()), p, forward)
    {
      ghost var before := flow.Core();
      TrackSegment(flow, dir, peer, p, forward);
      SegmentByParts(before, flow.Core(), p, forward);
    }

    /** Arrival time, counters and the TCP part of an update. */
    method Transport(flow: Flow, dir: DirectionStats, peer: DirectionStats, p: DecodedPacket, forward: bool)
      requires dir == flow.DirectionOf(forward) && peer == flow.DirectionOf(!forward)
      requires dir != peer && dir.rtt != peer.rtt
      modifies `totalRetransmits, `totalOutOfOrder, `totalDataSegments, `totalRttSamples
      modifies flow`lastSeen, flow`state, flow`handshakeComplete, flow`synTs, flow`synSeen, flow`handshakeRttMs
      modifies dir`packets, dir`bytes, dir`payloadBytes, dir`lastTtl, dir`lastWindow, dir`syn, dir`fin, dir`rst, dir`pureAcks
      modifies dir`seqValid, dir`nextSeq, dir`recentSegments, dir`holes, dir`retransmits, dir`outOfOrder, dir`awaitingAck
      modifies peer`awaitingAck, peer.rtt
      ensures flow.Core() == Transported(old(flow.Core()), p, forward)
      ensures TotalsOf() == if p.l4 == TCP then TallySegment(old(TotalsOf()), old(flow.Core()), p, forward) else old(TotalsOf())
    {
      CountingKeepsTally(flow.Core(), TotalsOf(), p, forward);
      SeePacket(flow, dir, p, forward);
      if p.l4 == TCP {
        FollowSegment(flow, dir, peer, p, forward);
      }
    }

    /** Transport of a packet from endpoint A, on the whole flow. */
    method TransportForward(flow: Flow, p: DecodedPacket)
      requires flow.Valid() && this !in flow.Repr
      modifies `totalRetransmits, `totalOutOfOrder, `totalDataSegments, `totalRttSamples
      modifies flow.Repr
      ensures flow.Valid() && flow.Repr == old(flow.Repr) && flow.app == old(flow.app)
      ensures flow.fwd.StreamOf() == old(flow.fwd.StreamOf()) && flow.rev.StreamOf() == old(flow.rev.StreamOf())
      ensures flow.Core() == Transported(old(flow.Core()), p, true)
      ensures TotalsOf() == if p.l4 == TCP then TallySegment(old(TotalsOf()), old(flow.Core()), p, true) else old(TotalsOf())
    {
      Transport(flow, flow.fwd, flow.rev, p, true);
    }

    /** The same for a packet from endpoint B. */
    method TransportBackward(flow: Flow, p: DecodedPacket)
      requires flow.Valid() && this !in flow.Repr
      modifies `totalRetransmits, `totalOutOfOrder, `totalDataSegments, `totalRttSamples
      modifies flow.Repr
      ensures flow.Valid() && flow.Repr == old(flow.Repr) && flow.app == old(flow.app)
      ensures flow.fwd.StreamOf() == old(flow.fwd.StreamOf()) && flow.rev.StreamOf() == old(flow.rev.StreamOf())
      ensures flow.Core() == Transported(old(flow.Core()), p, false)
      ensures TotalsOf() == if p.l4 == TCP then TallySegment(old(TotalsOf()), old(flow.Core()), p, false) else old(TotalsOf())
    {
      Transport(flow, flow.rev, flow.fwd, p, false);
    }

    /** Reassembly and dissection of a packet from endpoint A, on the whole flow. */
    method InspectForward(flow: Flow, p: DecodedPacket)
      requires flow.Valid() && this !in flow.Repr
      modifies `totalReassembled, `appCounts
      modifies flow.Repr
      ensures flow.Valid() && fresh(flow.Repr - old(flow.Repr)) && flow.Core() == old(flow.Core())
      ensures var i := Inspect(Settings(), old(flow.app), old(flow.fwd.StreamOf()), p);
              Sight(flow.app, flow.fwd.StreamOf(), totalReassembled, appCounts)
              == Shown(i, old(totalReassembled), old(appCounts))
      ensures flow.rev.StreamOf() == old(flow.rev.StreamOf())
    {
      ReassembleAndDissect(flow, true, p);
    }

    /** The same for a packet from endpoint B. */
    method InspectBackward(flow: Flow, p: DecodedPacket)
      requires flow.Valid() && this !in flow.Repr
      modifies `totalReassembled, `appCounts
      modifies flow.Repr
      ensures flow.Valid() && fresh(flow.Repr - old(flow.Repr)) && flow.Core() == old(flow.Core())
      ensures var i := Inspect(Settings(), old(flow.app), old(flow.rev.StreamOf()), p);
              Sight(flow.app, flow.rev.StreamOf(), totalReassembled, appCounts)
              == Shown(i, old(totalReassembled), old(appCounts))
      ensures flow.fwd.StreamOf() == old(flow.fwd.StreamOf())
    {
      ReassembleAndDissect(flow, false, p);
    }

    /** A packet from endpoint A. */
    method UpdateForward(flow: Flow, p: DecodedPacket)
      requires flow.Valid() && this !in flow.Repr && Forward(p)
      modifies `totalRetransmits, `totalOutOfOrder, `totalDataSegments, `totalReassembled, `totalRttSamples, `appCounts
      modifies flow.Repr
      ensures flow.Valid() && fresh(flow.Repr - old(flow.Repr))
      ensures flow.Model() == UpdateFlow(Settings(), old(flow.Model()), p)
      ensures TotalsOf() == Tally(Settings(), old(TotalsOf()), old(flow.Model()), p)
    {
      ghost var core, sf, sr, app, totals := flow.Core(), flow.fwd.StreamOf(), flow.rev.StreamOf(), flow.app, TotalsOf();
      TransportForward(flow, p);
      InspectForward(flow, p);
      UpdateByParts(Settings(), core, sf, sr, app, totals, p);
    }

    /** A packet from endpoint B. */
    method UpdateBackward(flow: Flow, p: DecodedPacket)
      requires flow.Valid() && this !in flow.Repr && !Forward(p)
      modifies `totalRetransmits, `totalOutOfOrder, `totalDataSegments, `totalReassembled, `totalRttSamples, `appCounts
      modifies flow.Repr
      ensures flow.Valid() && fresh(flow.Repr - old(flow.Repr))
      ensures flow.Model() == UpdateFlow(Settings(), old(flow.Model()), p)
      ensures TotalsOf() == Tally(Settings(), old(TotalsOf()), old(flow.Model()), p)
    {
      ghost var core, sf, sr, app, totals := flow.Core(), flow.fwd.StreamOf(), flow.rev.StreamOf(), flow.app, TotalsOf();
      TransportBackward(flow, p);
      InspectBackward(flow, p);
      UpdateByParts(Settings(), core, sf, sr, app, totals, p);
    }

    /** Everything one packet does to its flow and to the totals. */
    method UpdateOne(flow: Flow, p: DecodedPacket)
      requires flow.Valid() && this !in flow.Repr
      modifies `totalRetransmits, `totalOutOfOrder, `totalDataSegments, `totalReassembled, `totalRttSamples, `appCounts
      modifies flow.Repr
      ensures flow.Valid() && fresh(flow.Repr - old(flow.Repr))
      ensures flow.Model() == UpdateFlow(Settings(), old(flow.Model()), p)
      ensures TotalsOf() == Tally(Settings(), old(TotalsOf()), old(flow.Model()), p)
    {
      if Forward(p) {
        UpdateForward(flow, p);
      } else {
        UpdateBackward(flow, p);
      }
    }

    /** A flow no other flow was seen before. */
    method Oldest() returns (oldest: FlowKey)
      requires flows != map[]
      ensures oldest in flows && forall k | k in flows :: flows[oldest].lastSeen <= flows[k].lastSeen
    {
      oldest :| oldest in flows.Keys;
      var keys := flows.Keys - {oldest};
      while keys != {}
        invariant oldest in flows && keys <= flows.Keys
        invariant forall k | k in flows && k !in keys :: flows[oldest].lastSeen <= flows[k].lastSeen
        decreases |keys|
      {
        var k :| k in keys;
        keys := keys - {k};
        if flows[k].lastSeen < flows[oldest].lastSeen { oldest := k; }
      }
    }

    method Drop(key: FlowKey)
      requires Valid() && key in flows
      modifies `flows, `contents
      ensures Valid() && contents == old(contents) - {key} && flows == old(flows) - {key}
    {
      Without(flows, Repr, contents, {key});
      flows := flows - {key};
      contents := contents - {key};
    }

    /** Frees one place: that of the flow silent longest. */
    method EvictOldest() returns (ghost victim: FlowKey)
      requires Valid() && flows != map[]
      modifies `flows, `contents
      ensures Valid() && LeastRecent(old(Model()), victim)
      ensures contents == old(contents) - {victim} && flows == old(flows) - {victim}
    {
      var oldest := Oldest();
      victim := oldest;
      forall k | k in flows
        ensures contents[k].lastSeen == flows[k].lastSeen
      {
        Fetch(flows, Repr, contents, k);
      }
      Drop(oldest);
    }

    /** Puts a flow in the table. */
    method Install(key: FlowKey, flow: Flow, ghost objects: set<object>, ghost next: map<FlowKey, FlowState>)
      requires Stores(flows[key := flow], objects, next) && this !in objects && 1 <= maxFlows && |next| <= maxFlows
      modifies `flows, `contents, `Repr
      ensures Valid() && flows == old(flows)[key := flow] && contents == next && Repr == objects
      ensures TotalsOf() == old(TotalsOf())
    {
      flows := flows[key := flow];
      contents := next;
      Repr := objects;
    }

    method Insert(key: FlowKey, flow: Flow)
      requires Valid() && key !in flows && |flows| < maxFlows
      requires flow.Valid() && flow.key == key && flow.Repr !! Repr && this !in flow.Repr
      modifies `flows, `contents, `Repr
      ensures Valid() && Repr == old(Repr) + flow.Repr
      ensures TotalsOf() == old(TotalsOf())
      ensures flows == old(flows)[key := flow] && contents == old(contents)[key := old(flow.Model())]
    {
      ghost var f := flow.Model();
      Together(flows, Repr, contents, key, flow);
      Install(key, flow, Repr + flow.Repr, contents[key := f]);
    }

    /** Adds an empty flow for the packet's conversation. */
    method CreateFlow(key: FlowKey, p: DecodedPacket)
      requires Valid() && key == KeyOf(p) && key !in flows && |flows| < maxFlows
      modifies `flows, `contents, `nextId, `Repr
      ensures Valid() && fresh(Repr - old(Repr)) && key in flows
      ensures Model() == Admit(old(Model()), p)
    {
      ghost var before, admitted := Model(), Admit(Model(), p);
      AdmitNew(before, p);
      nextId := nextId + 1;
      assert TotalsOf() == admitted.totals;
      var flow := new Flow(nextId, p);
      ghost var f := NewFlow(nextId, p);
      Insert(key, flow);
      assert contents == before.flows[key := f];
    }

    /** One packet for a flow the rest of the table does not share objects with. */
    method UpdateApart(key: FlowKey, flow: Flow, p: DecodedPacket, ghost rest: map<FlowKey, Flow>, ghost objects: set<object>,
                       ghost left: map<FlowKey, FlowState>, ghost f: FlowState)
      requires Stores(rest, objects, left) && key !in rest
      requires flow.Valid() && flow.key == key && flow.Repr !! objects && this !in flow.Repr + objects
      requires flow.Model() == f
      modifies flow.Repr
      modifies `totalRetransmits, `totalOutOfOrder, `totalDataSegments, `totalReassembled, `totalRttSamples, `appCounts
      ensures fresh(flow.Repr - old(flow.Repr))
      ensures Stores(rest[key := flow], objects + flow.Repr, left[key := UpdateFlow(Settings(), f, p)])
      ensures TotalsOf() == Tally(Settings(), old(TotalsOf()), f, p)
    {
      UpdateOne(flow, p);
      Together(rest, objects, left, key, flow);
    }

    /** One packet for a flow that is in the table. */
    method UpdateAt(key: FlowKey, p: DecodedPacket) returns (ghost after: FlowState)
      requires Valid() && key in flows
      modifies Repr, `flows, `contents, `Repr
      modifies `totalRetransmits, `totalOutOfOrder, `totalDataSegments, `totalReassembled, `totalRttSamples, `appCounts
      ensures Valid() && fresh(Repr - old(Repr)) && flows == old(flows)
      ensures after == UpdateFlow(Settings(), old(contents)[key], p) && contents == old(contents)[key := after]
      ensures TotalsOf() == Tally(Settings(), old(TotalsOf()), old(contents)[key], p)
    {
      var flow := flows[key];
      Fetch(flows, Repr, contents, key);
      Apart(flows, Repr, contents, key);
      ghost var objects := Repr - flow.Repr;
      after := UpdateFlow(Settings(), contents[key], p);
      UpdateApart(key, flow, p, flows - {key}, objects, contents - {key}, contents[key]);
      Replaced(flows, key, flow);
      Replaced(contents, key, after);
      Install(key, flow, objects + flow.Repr, contents[key := after]);
    }

    /** Makes room for the packet's flow in a full table. */
    method MakeRoom(key: FlowKey) returns (ghost evicted: set<FlowKey>)
      requires Valid()
      modifies `flows, `contents
      ensures Valid() && contents == old(contents) - evicted && Evictable(old(Model()), maxFlows, key, evicted)
      ensures key in old(contents) <==> key in flows
      ensures key in flows || |flows| < maxFlows
    {
      evicted := {};
      if key !in flows && |flows| >= maxFlows {
        ghost var victim := EvictOldest();
        evicted := {victim};
      }
    }

    /** Finds the packet's flow or creates it. */
    method FindOrCreate(key: FlowKey, p: DecodedPacket) returns (ghost evicted: set<FlowKey>)
      requires Valid() && key == KeyOf(p)
      modifies `flows, `contents, `nextId, `Repr
      ensures Valid() && fresh(Repr - old(Repr)) && key in flows
      ensures Evictable(old(Model()), maxFlows, key, evicted)
      ensures Model() == Admit(Table(old(contents) - evicted, old(TotalsOf())), p)
    {
      evicted := MakeRoom(key);
      if key !in flows {
        CreateFlow(key, p);
      }
    }

    /** Hands a decoded packet to its flow, a new one if there is none; a packet that is no traffic of a flow gets null. */
    method Update(p: DecodedPacket) returns (flow: Flow?, ghost evicted: set<FlowKey>)
      requires Valid()
      modifies Repr, `flows, `contents, `nextId, `Repr
      modifies `totalRetransmits, `totalOutOfOrder, `totalDataSegments, `totalReassembled, `totalRttSamples, `appCounts
      ensures Valid() && fresh(Repr - old(Repr))
      ensures if Accepts(p) then Evictable(old(Model()), maxFlows, KeyOf(p), evicted) else evicted == {}
      ensures Model() == if Accepts(p) then FlowModel.Arrive(Settings(), Table(old(contents) - evicted, old(TotalsOf())), p)
                         else old(Model())
      ensures if Accepts(p) then KeyOf(p) in flows && flow == flows[KeyOf(p)] else flow == null
    {
      if !Accepts(p) {
        return null, {};
      }
      var key := KeyOf(p);
      evicted := FindOrCreate(key, p);
      ghost var after := UpdateAt(key, p);
      flow := flows[key];
    }

    method DropIfExpired(key: FlowKey, now: int, idleSec: real) returns (dropped: bool)
      requires Valid() && key in flows
      modifies `flows, `contents
      ensures Valid() && dropped == FlowModel.Expired(old(contents)[key], now, idleSec)
      ensures contents == if dropped then old(contents) - {key} else old(contents)
      ensures flows == if dropped then old(flows) - {key} else old(flows)
    {
      Fetch(flows, Repr, contents, key);
      var flow := flows[key];
      var idle := Seconds(now, flow.lastSeen);
      dropped := idle > idleSec || (TcpStates.Terminal(flow.state) && idle > CLOSED_GRACE_SEC);
      if dropped {
        Drop(key);
      }
    }

    /** Drops flows idle for too long, and terminal ones after a short grace; returns how many. */
    method Expire(now: int, idleSec: real := 120.0) returns (removed: nat)
      requires Valid()
      modifies `flows, `contents
      ensures Valid() && contents == Survivors(old(contents), now, idleSec)
      ensures removed == |old(flows)| - |flows|
    {
      removed := 0;
      var keys := flows.Keys;
      ghost var before := contents;
      AllSifted(before, now, idleSec);
      while keys != {}
        invariant Valid() && keys <= flows.Keys && keys <= before.Keys
        invariant contents == Sifted(before, keys, now, idleSec)
        invariant removed == |old(flows)| - |flows|
        decreases |keys|
      {
        var k :| k in keys;
        Sift(before, keys, k, now, idleSec);
        keys := keys - {k};
        var dropped := DropIfExpired(k, now, idleSec);
        if dropped { removed := removed + 1; }
      }
    }

    /** Forgets every flow and the per-protocol counts; the running totals stay. */
    method Clear()
      requires Valid()
      modifies `flows, `contents, `appCounts
      ensures Valid() && Model() == Table(map[], old(TotalsOf()).(appCounts := map[]))
    {
      flows := map[];
      contents := map[];
      appCounts := map[];
    }

    method SetDissectionEnabled(on: bool)
      requires Valid()
      modifies `dissectEnabled
      ensures Valid() && Model() == old(Model()) && Settings() == old(Settings()).(enabled := on)
    {
      dissectEnabled := on;
    }
  }

  lemma AdmitNew(tb: Table, p: DecodedPacket)
    requires KeyOf(p) !in tb.flows
    ensures Admit(tb, p).flows == tb.flows[KeyOf(p) := NewFlow(tb.totals.nextId + 1, p)]
    ensures Admit(tb, p).totals == tb.totals.(nextId := tb.totals.nextId + 1)
  {
  }

  /** A flow with the parts of a flow that took a segment is that flow. */
  lemma SegmentByParts(f: FlowState, g: FlowState, p: DecodedPacket, forward: bool)
    requires g == f.(state := g.state, handshake := g.handshake, fwd := g.fwd, rev := g.rev, shake := g.shake)
    requires Dir(g, forward) == Sends(Dir(f, forward), p) && Dir(g, !forward) == Hears(Dir(f, !forward), p)
    requires g.shake == Shake(f.shake, p.flags.syn, p.flags.ack, p.ts)
    requires (g.state, g.handshake) ==
             TcpStates.Advance(f.state, f.handshake, p.flags, forward, f.fwd.c.fin, f.rev.c.fin)
    ensures g == Segment(f, p, forward)
  {
  }

  /** Counting does not change what a segment adds to the totals. */
  lemma CountingKeepsTally(f: FlowState, t: Totals, p: DecodedPacket, forward: bool)
    ensures TallySegment(t, Seen(f, p, forward), p, forward) == TallySegment(t, f, p, forward)
  {
  }

  /** The update in two parts: what transport does to the core, and what inspection does to the
      label and the stream. */
  lemma UpdateByParts(cfg: Config, core: FlowState, sf: Option<Stream>, sr: Option<Stream>, app: AppInfo, t: Totals, p: DecodedPacket)
    ensures var forward := Forward(p);
            var i := Inspect(cfg, app, if forward then sf else sr, p);
            && UpdateFlow(cfg, Full(core, sf, sr, app), p) ==
               Full(Transported(core, p, forward), if forward then i.stream else sf, if forward then sr else i.stream, i.app)
            && Tally(cfg, t, Full(core, sf, sr, app), p) ==
               (if p.l4 == TCP then TallySegment(t, core, p, forward) else t).(
                 reassembled := t.reassembled + i.added, appCounts := Bump(t.appCounts, i.counted))
  {
  }
}
