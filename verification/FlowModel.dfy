/** Packets, conversations and what one packet does to a conversation, as values. */
module FlowModel {
  import opened Serial
  import opened Dissection
  import opened SequenceTracking
  import opened RoundTrip
  import Reassembly
  import TcpStates
  import TlsHello

  // ------------------------------------------------------------------- packets

  datatype L3Proto = NoL3 | IPv4 | IPv6 | ARP
  datatype L4Proto = NoL4 | TCP | UDP | ICMP | ICMPv6 | OtherL4

  datatype IpAddress = IpAddress(isV6: bool, bytes: seq<byte>)

  type Address = a: IpAddress | |a.bytes| == 16 witness IpAddress(false, seq(16, _ => 0))

  type Payload = s: seq<byte> | |s| < 0x1_0000_0000

  /** A decoded frame; times are microseconds. */
  datatype DecodedPacket = DecodedPacket(
    ts: int,
    wirelen: nat,
    l3: L3Proto,
    src: Address,
    dst: Address,
    ttl: byte,
    ipProto: byte,
    l4: L4Proto,
    sport: nat,
    dport: nat,
    sn: uint32,
    ack: uint32,
    window: nat,
    flags: TcpStates.Flags,
    payload: Payload,
    failed: bool)
  {
    predicate HasPorts() { l4 == TCP || l4 == UDP }
  }

  // ----------------------------------------------------------------- flow keys

  predicate LexLess(a: seq<byte>, b: seq<byte>)
    requires |a| == |b|
  {
    a != [] && (a[0] < b[0] || (a[0] == b[0] && LexLess(a[1..], b[1..])))
  }

  predicate AddressLess(a: Address, b: Address) {
    if a.isV6 != b.isV6 then !a.isV6 else LexLess(a.bytes, b.bytes)
  }

  datatype FlowKey = FlowKey(a: Address, b: Address, portA: nat, portB: nat, proto: byte)

  function SourcePort(p: DecodedPacket): nat {
    if p.HasPorts() then p.sport else 0
  }

  function DestinationPort(p: DecodedPacket): nat {
    if p.HasPorts() then p.dport else 0
  }

  /** The packet travels from endpoint A, the smaller (address, port), to endpoint B. */
  predicate Forward(p: DecodedPacket) {
    AddressLess(p.src, p.dst) || (p.src == p.dst && SourcePort(p) <= DestinationPort(p))
  }

  function KeyOf(p: DecodedPacket): FlowKey {
    if Forward(p) then FlowKey(p.src, p.dst, SourcePort(p), DestinationPort(p), p.ipProto)
    else FlowKey(p.dst, p.src, DestinationPort(p), SourcePort(p), p.ipProto)
  }

  // ---------------------------------------------------------------- dissection

  /** The dissectors that are not modelled, with what the modelled dispatch needs of them. */
  datatype Dissectors = Dissectors(
    http: seq<byte> -> AppInfo,
    ssh: seq<byte> -> AppInfo,
    dns: seq<byte> -> Option<AppInfo>,
    udp: (seq<byte>, nat, nat) -> Option<AppInfo>)

  const HTTP_STARTS: seq<string> :=
    ["HTTP/1.", "GET ", "POST ", "HEAD ", "PUT ", "DELETE ", "OPTIONS ", "PATCH ", "CONNECT ", "TRACE "]

  predicate StartsWith(data: seq<byte>, text: string) {
    |text| <= |data| && forall i | 0 <= i < |text| :: data[i] == text[i] as int
  }

  predicate HttpMagic(data: seq<byte>) {
    exists i | 0 <= i < |HTTP_STARTS| :: StartsWith(data, HTTP_STARTS[i])
  }

  function Service(sport: nat, dport: nat): nat {
    if sport < dport then sport else dport
  }

  predicate TlsFirst(service: nat) {
    service in {443, 8443, 993, 995, 465}
  }

  /** The port only chooses the order of attempts. */
  function DissectStream(others: Dissectors, prefix: seq<byte>, sport: nat, dport: nat): Option<AppInfo> {
    if |prefix| < 4 then None
    else
      var tls := TlsHello.Dissected(prefix);
      if TlsFirst(Service(sport, dport)) && tls.Some? then tls
      else if HttpMagic(prefix) then Some(others.http(prefix))
      else if !TlsFirst(Service(sport, dport)) && tls.Some? then tls
      else if StartsWith(prefix, "SSH-") then Some(others.ssh(prefix))
      else if Service(sport, dport) == 53 && 12 <= U16(prefix, 0) <= |prefix| - 2 then
        others.dns(prefix[2..2 + U16(prefix, 0)])
      else None
  }

  const STREAM_CAPS: Reassembly.Caps := Reassembly.Caps(Reassembly.DEFAULT_PREFIX, Reassembly.DEFAULT_BUFFERED)

  datatype Config = Config(others: Dissectors, enabled: bool)

  /** What a packet did to the flow's application label and its direction's stream. */
  datatype Inspection = Inspection(app: AppInfo, stream: Option<Reassembly.Stream>, added: nat, counted: Option<AppProtocol>)

  ghost function Inspect(cfg: Config, app: AppInfo, stream: Option<Reassembly.Stream>, p: DecodedPacket): Inspection {
    if !cfg.enabled || app.conclusive then Inspection(app, stream, 0, None)
    else if p.l4 == UDP then
      var info := if |p.payload| == 0 then None else cfg.others.udp(p.payload, p.sport, p.dport);
      if info.Some? then
        Inspection(info.value, stream, 0, if app.Identified() then None else Some(info.value.proto))
      else Inspection(app, stream, 0, None)
    else if p.l4 != TCP || (|p.payload| == 0 && !p.flags.syn) then Inspection(app, stream, 0, None)
    else InspectSegment(cfg, app, if stream.Some? then stream.value else Reassembly.EMPTY, p)
  }

  /** The first reading names the flow; only a conclusive one can rename it, and only once. */
  function Relabelled(app: AppInfo, info: Option<AppInfo>): AppInfo {
    if info.Some? && (!app.Identified() || (info.value.conclusive && !app.conclusive)) then info.value else app
  }

  /** The protocol to count: that of the flow's first label. */
  function FirstLabel(app: AppInfo, info: Option<AppInfo>): Option<AppProtocol> {
    if info.Some? && !app.Identified() then Some(info.value.proto) else None
  }

  function Reading(cfg: Config, added: nat, prefix: seq<byte>, p: DecodedPacket): Option<AppInfo> {
    if added > 0 then DissectStream(cfg.others, prefix, p.sport, p.dport) else None
  }

  /** A stream is kept while it is not full and the label not final. */
  function Kept(app: AppInfo, s: Reassembly.Stream): Option<Reassembly.Stream> {
    if app.conclusive || Reassembly.Saturated(STREAM_CAPS, s) then None else Some(s)
  }

  ghost function InspectSegment(cfg: Config, app: AppInfo, before: Reassembly.Stream, p: DecodedPacket): Inspection {
    InspectDelivery(cfg, app, before.delivered, Reassembly.Push(STREAM_CAPS, before, p.sn, p.payload, p.flags.syn), p)
  }

  function InspectDelivery(cfg: Config, app: AppInfo, delivered: nat, s: Reassembly.Stream, p: DecodedPacket): Inspection {
    var added := if s.delivered > delivered then s.delivered - delivered else 0;
    var info := Reading(cfg, added, s.prefix, p);
    var shown := Relabelled(app, info);
    Inspection(shown, Kept(shown, s), added, FirstLabel(app, info))
  }

  // --------------------------------------------------------------------- flows

  datatype Counters = Counters(
    packets: nat, bytes: nat, payloadBytes: nat,
    syn: nat, fin: nat, rst: nat, pureAcks: nat,
    lastWindow: nat, lastTtl: byte)

  const NO_COUNTERS: Counters := Counters(0, 0, 0, 0, 0, 0, 0, 0, 0)

  datatype Direction = Direction(c: Counters, tracker: Tracker, sender: Sender, stream: Option<Reassembly.Stream>)

  const NO_DIRECTION: Direction := Direction(NO_COUNTERS, UNTRACKED, Sender([], NO_RTT), None)

  datatype FlowState = FlowState(
    id: nat, key: FlowKey, l4: L4Proto,
    state: TcpStates.TcpState, handshake: bool,
    fwd: Direction, rev: Direction,
    firstSeen: int, lastSeen: int,
    app: AppInfo, shake: Handshake)

  function NewFlow(id: nat, p: DecodedPacket): FlowState {
    FlowState(id, KeyOf(p), p.l4, TcpStates.None, false, NO_DIRECTION, NO_DIRECTION, p.ts, 0, UNIDENTIFIED, NO_HANDSHAKE)
  }

  function One(b: bool): nat {
    if b then 1 else 0
  }

  predicate PureAck(p: DecodedPacket) {
    |p.payload| == 0 && p.flags.ack && !p.flags.syn && !p.flags.fin && !p.flags.rst
  }

  function Count(c: Counters, p: DecodedPacket): Counters {
    var d := c.(packets := c.packets + 1, bytes := c.bytes + p.wirelen, payloadBytes := c.payloadBytes + |p.payload|,
                lastTtl := p.ttl);
    if p.l4 != TCP then d
    else d.(lastWindow := p.window, syn := c.syn + One(p.flags.syn), fin := c.fin + One(p.flags.fin),
            rst := c.rst + One(p.flags.rst), pureAcks := c.pureAcks + One(PureAck(p)))
  }

  function Track(t: Tracker, p: DecodedPacket): Tracker {
    if |p.payload| == 0 then TrackControl(t, p.sn, One(p.flags.syn || p.flags.fin))
    else TrackData(t, p.sn, |p.payload|)
  }

  function VerdictOn(t: Tracker, p: DecodedPacket): Verdict
    requires |p.payload| > 0
  {
    Judge(t, p.sn, |p.payload|)
  }

  predicate JudgedResend(t: Tracker, p: DecodedPacket) {
    |p.payload| > 0 && VerdictOn(t, p) == Resend
  }

  predicate JudgedOutOfOrder(t: Tracker, p: DecodedPacket) {
    |p.payload| > 0 && (VerdictOn(t, p).Late? || VerdictOn(t, p) == Jump)
  }

  predicate JudgedInOrder(t: Tracker, p: DecodedPacket) {
    |p.payload| > 0 && (VerdictOn(t, p) == First || VerdictOn(t, p) == InOrder)
  }

  function Awaited(s: Sender, t: Tracker, p: DecodedPacket): Sender {
    Remember(s, Add32(p.sn, |p.payload|), |p.payload|, p.ts, JudgedResend(t, p))
  }

  function Heard(s: Sender, p: DecodedPacket): Sender {
    if p.flags.ack then Acknowledge(s, p.ack, p.ts) else s
  }

  /** The sending direction of a TCP segment. */
  function Sends(d: Direction, p: DecodedPacket): Direction {
    d.(tracker := Track(d.tracker, p), sender := Awaited(d.sender, d.tracker, p))
  }

  /** The other direction, whose data the segment may acknowledge. */
  function Hears(d: Direction, p: DecodedPacket): Direction {
    d.(sender := Heard(d.sender, p))
  }

  function Dir(f: FlowState, forward: bool): Direction {
    if forward then f.fwd else f.rev
  }

  function WithDir(f: FlowState, forward: bool, d: Direction): FlowState {
    if forward then f.(fwd := d) else f.(rev := d)
  }

  /** Arrival time and counters, for any protocol. */
  function Seen(f: FlowState, p: DecodedPacket, forward: bool): FlowState {
    var g := f.(lastSeen := p.ts);
    WithDir(g, forward, Dir(g, forward).(c := Count(Dir(g, forward).c, p)))
  }

  /** The TCP part of an update, after the counters. */
  function Segment(f: FlowState, p: DecodedPacket, forward: bool): FlowState {
    var (state, handshake) := TcpStates.Advance(f.state, f.handshake, p.flags, forward, f.fwd.c.fin, f.rev.c.fin);
    var g := f.(state := state, handshake := handshake, shake := Shake(f.shake, p.flags.syn, p.flags.ack, p.ts));
    WithDir(WithDir(g, forward, Sends(Dir(g, forward), p)), !forward, Hears(Dir(g, !forward), p))
  }

  function Transported(f: FlowState, p: DecodedPacket, forward: bool): FlowState {
    var g := Seen(f, p, forward);
    if p.l4 == TCP then Segment(g, p, forward) else g
  }

  /** A flow made of what transport keeps and what inspection keeps. */
  function Full(core: FlowState, sf: Option<Reassembly.Stream>, sr: Option<Reassembly.Stream>, app: AppInfo): FlowState {
    core.(fwd := core.fwd.(stream := sf), rev := core.rev.(stream := sr), app := app)
  }

  function Inspected(f: FlowState, forward: bool, i: Inspection): FlowState {
    WithDir(f, forward, Dir(f, forward).(stream := i.stream)).(app := i.app)
  }

  /** One packet of the conversation. */
  ghost function UpdateFlow(cfg: Config, f: FlowState, p: DecodedPacket): FlowState {
    var g := Transported(f, p, Forward(p));
    Inspected(g, Forward(p), Inspect(cfg, g.app, Dir(g, Forward(p)).stream, p))
  }

  // --------------------------------------------------------------------- table

  datatype Totals = Totals(
    nextId: nat, retransmits: nat, outOfOrder: nat, dataSegments: nat,
    reassembled: nat, rttSamples: nat, appCounts: map<AppProtocol, nat>)

  const NO_TOTALS: Totals := Totals(0, 0, 0, 0, 0, 0, map[])

  function Bump(m: map<AppProtocol, nat>, key: Option<AppProtocol>): map<AppProtocol, nat> {
    if key == None then m
    else m[key.value := (if key.value in m then m[key.value] else 0) + 1]
  }

  /** What a TCP segment adds to the totals by what its sender's tracker was. */
  function SequenceTally(t: Totals, tracker: Tracker, p: DecodedPacket): Totals {
    t.(dataSegments := t.dataSegments + One(|p.payload| > 0),
       retransmits := t.retransmits + One(JudgedResend(tracker, p)),
       outOfOrder := t.outOfOrder + One(JudgedOutOfOrder(tracker, p)))
  }

  /** What it adds by what its peer's unacknowledged sends and the handshake timer were. */
  function RttTally(t: Totals, queue: seq<Sent>, shake: Handshake, p: DecodedPacket): Totals {
    t.(rttSamples := t.rttSamples + One(Measures(shake, p.flags.syn, p.flags.ack))
                     + One(p.flags.ack && Covered(queue, p.ack) > 0))
  }

  function TallyParts(t: Totals, tracker: Tracker, queue: seq<Sent>, shake: Handshake, p: DecodedPacket): Totals {
    RttTally(SequenceTally(t, tracker, p), queue, shake, p)
  }

  function TallySegment(t: Totals, f: FlowState, p: DecodedPacket, forward: bool): Totals {
    TallyParts(t, Dir(f, forward).tracker, Dir(f, !forward).sender.queue, f.shake, p)
  }

  ghost function Tally(cfg: Config, t: Totals, f: FlowState, p: DecodedPacket): Totals {
    var u := if p.l4 == TCP then TallySegment(t, f, p, Forward(p)) else t;
    var i := Inspect(cfg, f.app, Dir(f, Forward(p)).stream, p);
    u.(reassembled := u.reassembled + i.added, appCounts := Bump(u.appCounts, i.counted))
  }

  datatype Table = Table(flows: map<FlowKey, FlowState>, totals: Totals)

  const EMPTY_TABLE: Table := Table(map[], NO_TOTALS)

  predicate Accepts(p: DecodedPacket) {
    (p.l3 == IPv4 || p.l3 == IPv6) && !p.failed
  }

  /** The packet's flow is created if need be. */
  function Admit(tb: Table, p: DecodedPacket): Table {
    if KeyOf(p) in tb.flows then tb
    else Table(tb.flows[KeyOf(p) := NewFlow(tb.totals.nextId + 1, p)], tb.totals.(nextId := tb.totals.nextId + 1))
  }

  ghost function Settle(cfg: Config, tb: Table, key: FlowKey, p: DecodedPacket): Table
    requires key in tb.flows
  {
    Table(tb.flows[key := UpdateFlow(cfg, tb.flows[key], p)], Tally(cfg, tb.totals, tb.flows[key], p))
  }

  /** An accepted packet, once any eviction is done. */
  ghost function Arrive(cfg: Config, tb: Table, p: DecodedPacket): Table {
    Settle(cfg, Admit(tb, p), KeyOf(p), p)
  }

  /** What may be evicted for a packet: nothing, or, for a new flow in a full table, exactly one flow
      none of the others was seen before. */
  ghost predicate Evictable(tb: Table, maxFlows: nat, key: FlowKey, evicted: set<FlowKey>) {
    if key in tb.flows || |tb.flows| < maxFlows then evicted == {}
    else exists v :: evicted == {v} && LeastRecent(tb, v)
  }

  ghost predicate LeastRecent(tb: Table, v: FlowKey) {
    v in tb.flows && forall k | k in tb.flows :: tb.flows[v].lastSeen <= tb.flows[k].lastSeen
  }

  const CLOSED_GRACE_SEC: real := 5.0

  function Seconds(later: int, earlier: int): real {
    (later - earlier) as real / 1000000.0
  }

  predicate Expired(f: FlowState, now: int, idleSec: real) {
    var idle := Seconds(now, f.lastSeen);
    idle > idleSec || (TcpStates.Terminal(f.state) && idle > CLOSED_GRACE_SEC)
  }

  function Survivors(flows: map<FlowKey, FlowState>, now: int, idleSec: real): map<FlowKey, FlowState> {
    map k | k in flows && !Expired(flows[k], now, idleSec) :: flows[k]
  }
}
