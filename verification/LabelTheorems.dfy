/** What decides a flow's label, what is counted while it is looked for, and how much memory that may take. */
module LabelTheorems {
  import opened Serial
  import opened Dissection
  import opened FlowModel
  import opened FlowHistory
  import opened FlowConservation
  import Reassembly
  import TlsHello
  import TlsTheorems

  // ------------------------------------------------------------ which dissector answers

  predicate Opens(data: seq<byte>, text: string) {
    |text| <= |data| && forall i | 0 <= i < |text| :: data[i] == text[i] as int
  }

  /** A request with one of nine methods, or a response. */
  predicate HttpOpens(data: seq<byte>) {
    || Opens(data, "GET ") || Opens(data, "POST ") || Opens(data, "HEAD ") || Opens(data, "PUT ")
    || Opens(data, "DELETE ") || Opens(data, "OPTIONS ") || Opens(data, "PATCH ") || Opens(data, "CONNECT ")
    || Opens(data, "TRACE ") || Opens(data, "HTTP/1.")
  }

  lemma HttpMagicIff(data: seq<byte>)
    ensures HttpMagic(data) <==> HttpOpens(data)
  {
    assert HTTP_STARTS[0] == "HTTP/1." && HTTP_STARTS[1] == "GET " && HTTP_STARTS[2] == "POST " && HTTP_STARTS[3] == "HEAD "
        && HTTP_STARTS[4] == "PUT " && HTTP_STARTS[5] == "DELETE " && HTTP_STARTS[6] == "OPTIONS "
        && HTTP_STARTS[7] == "PATCH " && HTTP_STARTS[8] == "CONNECT " && HTTP_STARTS[9] == "TRACE ";
    assert forall text {:trigger StartsWith(data, text)} :: StartsWith(data, text) <==> Opens(data, text);
  }

  /** The service port is the smaller one. */
  predicate Serves(sport: nat, dport: nat, port: nat) {
    (sport == port && port <= dport) || (dport == port && port <= sport)
  }

  /** The ports only choose the order of attempts, and the order makes no difference: a stream is TLS, HTTP or SSH by how
      it opens, and otherwise DNS if it is to port 53 and holds one whole message behind its length. */
  lemma StreamReading(others: Dissectors, prefix: seq<byte>, sport: nat, dport: nat)
    ensures DissectStream(others, prefix, sport, dport) ==
            if |prefix| < 4 then None
            else if TlsHello.Dissected(prefix).Some? then TlsHello.Dissected(prefix)
            else if HttpOpens(prefix) then Some(others.http(prefix))
            else if Opens(prefix, "SSH-") then Some(others.ssh(prefix))
            else if Serves(sport, dport, 53) && 12 <= U16(prefix, 0) <= |prefix| - 2 then
              others.dns(prefix[2..2 + U16(prefix, 0)])
            else None
  {
    HttpMagicIff(prefix);
    TlsTheorems.TlsNeedsHandshake(prefix);
    if TlsHello.Dissected(prefix).Some? {
      assert forall text: string | |text| > 0 && text[0] as int != 22 :: !Opens(prefix, text);
    }
  }

  // -------------------------------------------------------------- what a packet may change

  /** The switch, a conclusive label, other protocols and TCP segments without data or SYN: nothing is looked at. */
  predicate Ignored(cfg: Config, app: AppInfo, p: DecodedPacket) {
    || !cfg.enabled || app.conclusive
    || (p.l4 != TCP && p.l4 != UDP) || (|p.payload| == 0 && !(p.l4 == TCP && p.flags.syn))
  }

  lemma IgnoredChangesNothing(cfg: Config, app: AppInfo, stream: Option<Reassembly.Stream>, p: DecodedPacket)
    requires Ignored(cfg, app, p)
    ensures Inspect(cfg, app, stream, p) == Inspection(app, stream, 0, None)
  {
  }

  /** A label is replaced by the first reading, then by a conclusive one; only the first is counted. */
  ghost predicate Renamed(before: AppInfo, reading: Option<AppInfo>, after: AppInfo, counted: Option<AppProtocol>) {
    && after == (match reading
                 case None => before
                 case Some(r) => if before.proto == Unknown || r.conclusive then r else before)
    && counted == if reading.Some? && before.proto == Unknown then Some(reading.value.proto) else None
  }

  /** A datagram stands alone, and its reading always replaces the label. */
  lemma DatagramsRead(cfg: Config, app: AppInfo, stream: Option<Reassembly.Stream>, p: DecodedPacket)
    requires !Ignored(cfg, app, p) && p.l4 == UDP
    ensures var i, reading := Inspect(cfg, app, stream, p), cfg.others.udp(p.payload, p.sport, p.dport);
            && i.stream == stream && i.added == 0
            && i.app == (if reading.Some? then reading.value else app)
            && i.counted == if reading.Some? && app.proto == Unknown then Some(reading.value.proto) else None
  {
  }

  /** A segment is pushed; if it delivered anything the prefix is read again; and the stream is let go as soon as the label
      is conclusive or the prefix has 8192 bytes. */
  lemma SegmentsRead(cfg: Config, app: AppInfo, stream: Option<Reassembly.Stream>, p: DecodedPacket)
    requires !Ignored(cfg, app, p) && p.l4 == TCP
    ensures var i := Inspect(cfg, app, stream, p);
            var before := if stream.Some? then stream.value else Reassembly.EMPTY;
            var after := Reassembly.Push(STREAM_CAPS, before, p.sn, p.payload, p.flags.syn);
            var reading := if after.delivered > before.delivered then DissectStream(cfg.others, after.prefix, p.sport, p.dport) else None;
            && Renamed(app, reading, i.app, i.counted)
            && i.added == (if after.delivered > before.delivered then after.delivered - before.delivered else 0)
            && i.stream == if i.app.conclusive || |after.prefix| >= 8192 then None else Some(after)
  {
  }

  // ------------------------------------------------------------------ bytes delivered

  /** What a packet delivers in order: the reassembler is asked only while the label is open and dissection is on. */
  ghost function Gain(others: Dissectors, s: State, e: Step): nat {
    if !(e.Packet? && Accepts(e.p)) then 0
    else
      var f := Target(Table(s.table.flows - e.evicted, s.table.totals), e.p);
      var stream := Dir(f, Forward(e.p)).stream;
      if Ignored(Config(others, s.enabled), f.app, e.p) || e.p.l4 != TCP then 0
      else
        var before := if stream.Some? then stream.value else Reassembly.EMPTY;
        var after := Reassembly.Push(STREAM_CAPS, before, e.p.sn, e.p.payload, e.p.flags.syn);
        if after.delivered > before.delivered then after.delivered - before.delivered else 0
  }

  ghost function Gains(others: Dissectors, run: seq<Step>): nat {
    if run == [] then 0
    else
      var init := run[..|run| - 1];
      Gains(others, init) + Gain(others, After(others, init), run[|run| - 1])
  }

  lemma StepGains(others: Dissectors, s: State, e: Step)
    ensures Next(others, s, e).table.totals.reassembled == s.table.totals.reassembled + Gain(others, s, e)
  {
    if e.Packet? && Accepts(e.p) {
      var cfg, left := Config(others, s.enabled), Table(s.table.flows - e.evicted, s.table.totals);
      var f := Target(left, e.p);
      ArrivalGains(cfg, left, e.p);
      if Ignored(cfg, f.app, e.p) {
        IgnoredChangesNothing(cfg, f.app, Dir(f, Forward(e.p)).stream, e.p);
      } else if e.p.l4 == TCP {
        SegmentsRead(cfg, f.app, Dir(f, Forward(e.p)).stream, e.p);
      } else {
        DatagramsRead(cfg, f.app, Dir(f, Forward(e.p)).stream, e.p);
      }
    }
  }

  lemma ArrivalGains(cfg: Config, tb: Table, p: DecodedPacket)
    ensures FlowModel.Arrive(cfg, tb, p).totals.reassembled == tb.totals.reassembled
            + Inspect(cfg, Target(tb, p).app, Dir(Target(tb, p), Forward(p)).stream, p).added
  {
  }

  /** The table-wide byte total is what the reassemblers delivered, through eviction, expiry, clearing and release. */
  lemma {:induction false} ReassembledConserved(others: Dissectors, run: seq<Step>)
    ensures After(others, run).table.totals.reassembled == Gains(others, run)
  {
    if run != [] {
      ReassembledConserved(others, run[..|run| - 1]);
      StepGains(others, After(others, run[..|run| - 1]), run[|run| - 1]);
    }
  }

  // ---------------------------------------------------------------------- memory

  /** A reassembler that is kept: its prefix is not full, and it buffers at most 32768 bytes. */
  ghost predicate Small(stream: Option<Reassembly.Stream>) {
    stream.Some? ==>
      && |stream.value.prefix| < 8192
      && stream.value.bufferedBytes == Reassembly.Held(stream.value) <= 32768
  }

  lemma InspectionStaysSmall(cfg: Config, app: AppInfo, stream: Option<Reassembly.Stream>, p: DecodedPacket)
    requires Small(stream)
    ensures Small(Inspect(cfg, app, stream, p).stream)
  {
    if !Ignored(cfg, app, p) && p.l4 == TCP {
      var before := if stream.Some? then stream.value else Reassembly.EMPTY;
      SegmentsRead(cfg, app, stream, p);
      assert Reassembly.Held(Reassembly.EMPTY) == 0;
      Reassembly.PushBounded(STREAM_CAPS, before, p.sn, p.payload, p.flags.syn);
    }
  }

  lemma UpdateStaysSmall(cfg: Config, f: FlowState, p: DecodedPacket)
    requires Small(f.fwd.stream) && Small(f.rev.stream)
    ensures var g := UpdateFlow(cfg, f, p); Small(g.fwd.stream) && Small(g.rev.stream)
  {
    InspectionStaysSmall(cfg, f.app, Dir(f, Forward(p)).stream, p);
    TransportKeepsStreams(f, p);
  }

  lemma TransportKeepsStreams(f: FlowState, p: DecodedPacket)
    ensures var g := Transported(f, p, Forward(p));
            g.app == f.app && g.fwd.stream == f.fwd.stream && g.rev.stream == f.rev.stream
  {
  }

  /** However long a connection lives, a live flow holds less than 8192 bytes of prefix and at most 32768 bytes of pending
      data for each direction. */
  lemma {:induction false} LiveStreamsStaySmall(others: Dissectors, maxFlows: nat, run: seq<Step>, k: FlowKey)
    requires Possible(others, maxFlows, run) && k in FlowsAfter(others, run)
    ensures var f := FlowsAfter(others, run)[k]; Small(f.fwd.stream) && Small(f.rev.stream)
  {
    var init, e := run[..|run| - 1], run[|run| - 1];
    var s := After(others, init);
    StepOnFlow(others, maxFlows, s, e, k);
    if k in s.table.flows {
      LiveStreamsStaySmall(others, maxFlows, init, k);
      if IsFor(e, k) {
        UpdateStaysSmall(Config(others, s.enabled), s.table.flows[k], e.p);
      }
    } else {
      UpdateStaysSmall(Config(others, s.enabled), NewFlow(s.table.totals.nextId + 1, e.p), e.p);
    }
  }
}
