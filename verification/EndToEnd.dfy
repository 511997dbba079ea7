/** From packets to a name: a ClientHello split over segments, through the table, the reassembler and the
    TLS reader. */
module EndToEnd {
  import opened Serial
  import opened Dissection
  import opened FlowModel
  import opened FlowHistory
  import Reassembly
  import Safety = ReassemblySafety
  import Coverage = ReassemblyCoverage
  import TlsHello
  import TlsTheorems

  // ------------------------------------------------------------------- replay

  /** A flow fed a log of packets, nothing else. */
  ghost function Replay(cfg: Config, f: FlowState, log: seq<DecodedPacket>): FlowState {
    if log == [] then f
    else UpdateFlow(cfg, Replay(cfg, f, log[..|log| - 1]), log[|log| - 1])
  }

  lemma ReplaySnoc(cfg: Config, f: FlowState, log: seq<DecodedPacket>, p: DecodedPacket)
    ensures Replay(cfg, f, log + [p]) == UpdateFlow(cfg, Replay(cfg, f, log), p)
  {
    assert (log + [p])[..|log|] == log;
  }

  /** A flow is a new one fed a log. */
  ghost predicate Fresh(cfg: Config, f: FlowState, log: seq<DecodedPacket>) {
    log != [] && f == Replay(cfg, NewFlow(f.id, log[0]), log)
  }

  lemma FreshAtBirth(cfg: Config, id: nat, p: DecodedPacket)
    ensures Fresh(cfg, UpdateFlow(cfg, NewFlow(id, p), p), [p])
  {
    UpdateMoves(cfg, NewFlow(id, p), p);
    ReplaySnoc(cfg, NewFlow(id, p), [], p);
    assert [] + [p] == [p];
  }

  lemma FreshGrows(cfg: Config, f: FlowState, log: seq<DecodedPacket>, p: DecodedPacket)
    requires Fresh(cfg, f, log)
    ensures Fresh(cfg, UpdateFlow(cfg, f, p), log + [p])
  {
    UpdateMoves(cfg, f, p);
    ReplaySnoc(cfg, NewFlow(f.id, log[0]), log, p);
  }

  /** While dissection stays on, a live flow is a new one fed its log: no other conversation, eviction or
      expiry leaves a trace in it. */
  lemma {:induction false} FlowIsReplay(others: Dissectors, maxFlows: nat, run: seq<Step>, k: FlowKey)
    requires Possible(others, maxFlows, run) && k in FlowsAfter(others, run)
    requires forall e | e in run :: (e.Enable? ==> e.on)
    ensures Fresh(Config(others, true), FlowsAfter(others, run)[k], Log(others, run, k))
  {
    var init, e := run[..|run| - 1], run[|run| - 1];
    var s, log, cfg := After(others, init), Log(others, init, k), Config(others, true);
    assert forall x | x in init :: x in run;
    AlwaysEnabled(others, init);
    StepOnFlow(others, maxFlows, s, e, k);
    if k in s.table.flows {
      FlowIsReplay(others, maxFlows, init, k);
      if IsFor(e, k) {
        FreshGrows(cfg, s.table.flows[k], log, e.p);
      } else {
        assert log + [] == log;
      }
    } else {
      assert log == [] && log + [e.p] == [e.p];
      FreshAtBirth(cfg, s.table.totals.nextId + 1, e.p);
    }
  }

  lemma {:induction false} AlwaysEnabled(others: Dissectors, run: seq<Step>)
    requires forall e | e in run :: (e.Enable? ==> e.on)
    ensures After(others, run).enabled
  {
    if run != [] {
      assert forall e | e in run[..|run| - 1] :: e in run;
      assert run[|run| - 1] in run;
      AlwaysEnabled(others, run[..|run| - 1]);
    }
  }

  // ------------------------------------------------------------------- the message

  /** A packet of the conversation: from the client a piece of the message or no payload, from the server
      no payload; no port is 53. */
  predicate Belongs(base: uint32, d: bool, message: seq<byte>, p: DecodedPacket) {
    && p.l4 == TCP && Service(p.sport, p.dport) != 53
    && (p.payload == [] || (Forward(p) == d && !p.flags.syn && IsPiece(message, PieceOf(base, p))))
  }

  function PieceOf(base: uint32, p: DecodedPacket): Safety.Segment {
    Safety.Segment(Off(base, p.sn), p.payload)
  }

  predicate IsPiece(message: seq<byte>, g: Safety.Segment) {
    0 <= g.pos && g.pos + |g.data| <= |message| && g.data == message[g.pos..g.pos + |g.data|]
  }

  /** The pieces a log carries, in order of arrival. */
  function Cut(base: uint32, log: seq<DecodedPacket>): seq<Safety.Segment> {
    if log == [] then []
    else
      var p := log[|log| - 1];
      Cut(base, log[..|log| - 1]) + if p.payload == [] then [] else [PieceOf(base, p)]
  }

  lemma {:induction false} CutIsPieces(base: uint32, d: bool, message: seq<byte>, log: seq<DecodedPacket>)
    requires forall p | p in log :: Belongs(base, d, message, p)
    ensures forall g | g in Cut(base, log) :: IsPiece(message, g) && g.data != []
  {
    if log != [] {
      assert forall p | p in log[..|log| - 1] :: p in log;
      assert log[|log| - 1] in log;
      CutIsPieces(base, d, message, log[..|log| - 1]);
    }
  }

  ghost function Fed(base: uint32, log: seq<DecodedPacket>): Reassembly.Stream {
    Safety.Feed(STREAM_CAPS, base, Cut(base, log))
  }

  /** What the reassembler delivered is the message up to there, across the wrap and whatever is refused. */
  lemma FedPrefix(base: uint32, d: bool, message: seq<byte>, log: seq<DecodedPacket>)
    requires |message| <= Reassembly.DEFAULT_PREFIX && forall p | p in log :: Belongs(base, d, message, p)
    ensures var s := Fed(base, log);
            s.initialized && s.delivered <= |message| && s.prefix == message[..s.delivered]
  {
    var segs, s := Cut(base, log), Fed(base, log);
    var truth: Safety.Truth := x => if 0 <= x < |message| then message[x] else 0;
    CutIsPieces(base, d, message, log);
    forall g | g in segs
      ensures Coverage.Spanned(g) && g.pos + |g.data| <= |message| && Safety.Agrees(truth, g.pos, g.data)
    {
      assert IsPiece(message, g);
    }
    Coverage.StaysWithin(STREAM_CAPS, base, segs, |message|);
    Coverage.SpannedIsNear(STREAM_CAPS, base, segs);
    Safety.PrefixIsTrue(STREAM_CAPS, base, truth, segs);
  }

  // ------------------------------------------------------------- reading the prefix

  /** A prefix that starts like a TLS handshake is only ever read as TLS. */
  lemma OnlyTls(o: Dissectors, prefix: seq<byte>, sport: nat, dport: nat)
    requires |prefix| > 0 && prefix[0] == 22 && Service(sport, dport) != 53
    ensures DissectStream(o, prefix, sport, dport) == if |prefix| < 4 then None else TlsHello.Dissected(prefix)
  {
    assert forall i | 0 <= i < |HTTP_STARTS| :: HTTP_STARTS[i][0] as int != 22;
    assert !HttpMagic(prefix);
    assert "SSH-"[0] as int != 22;
  }

  lemma SniNeedsHandshake(d: seq<byte>)
    requires TlsTheorems.SniOf(d) != []
    ensures |d| > 5 && d[0] == 22
  {
  }

  ghost predicate Concluded(app: AppInfo, message: seq<byte>) {
    && app.conclusive && app.proto == Tls
    && TlsTheorems.EndsWith(app.summary, " sni=" + Sanitized(TlsTheorems.SniOf(message), TlsHello.SNI_MAX))
  }

  /** Delivering the message up to `n`, read by the flow: conclusive as soon as the name is in the prefix. */
  lemma DeliveryConcludes(cfg: Config, app: AppInfo, delivered: nat, s: Reassembly.Stream, message: seq<byte>, p: DecodedPacket)
    requires !app.conclusive && Service(p.sport, p.dport) != 53
    requires TlsTheorems.SniOf(message) != [] && message[5] == 1 && |message| <= Reassembly.DEFAULT_PREFIX
    requires delivered <= s.delivered <= |message| && s.prefix == message[..s.delivered]
    requires TlsTheorems.SniOf(message[..delivered]) == []
    ensures var i := InspectDelivery(cfg, app, delivered, s, p);
            if TlsTheorems.SniOf(s.prefix) != [] then Concluded(i.app, message)
            else !i.app.conclusive && i.stream == Some(s)
  {
    SniNeedsHandshake(message);
    if s.delivered == |message| {
      assert s.prefix == message;
    }
    if delivered == s.delivered {
      return;
    }
    OnlyTls(cfg.others, s.prefix, p.sport, p.dport);
    TlsTheorems.ConclusiveIffSni(s.prefix);
    if TlsTheorems.SniOf(s.prefix) != [] {
      TlsTheorems.SniStable(message, s.delivered);
      SniNeedsHandshake(s.prefix);
    }
  }

  // ----------------------------------------------------------------- one packet

  lemma UpdateInspects(cfg: Config, f: FlowState, p: DecodedPacket)
    ensures var g, i := UpdateFlow(cfg, f, p), Inspect(cfg, f.app, Dir(f, Forward(p)).stream, p);
            && g.app == i.app && Dir(g, Forward(p)).stream == i.stream
            && Dir(g, !Forward(p)).stream == Dir(f, !Forward(p)).stream
  {
  }

  /** The flow is named if the delivered prefix yields the name; otherwise it is not settled, and waits with the
      message's pieces in its reassembler. */
  ghost predicate Progress(base: uint32, d: bool, message: seq<byte>, f: FlowState, log: seq<DecodedPacket>) {
    if TlsTheorems.SniOf(Fed(base, log).prefix) != [] then Concluded(f.app, message)
    else !f.app.conclusive && Dir(f, d).stream == Some(Fed(base, log))
  }

  lemma EmptyPayload(cfg: Config, app: AppInfo, stream: Option<Reassembly.Stream>, p: DecodedPacket)
    requires p.l4 == TCP && p.payload == []
    ensures var i := Inspect(cfg, app, stream, p);
            && i.app == app
            && (!app.conclusive && stream.Some? && stream.value.initialized && !Reassembly.Saturated(STREAM_CAPS, stream.value)
                ==> i.stream == stream)
  {
  }

  lemma PiecePushed(cfg: Config, app: AppInfo, s: Reassembly.Stream, base: uint32, p: DecodedPacket)
    requires cfg.enabled && !app.conclusive && p.l4 == TCP && p.payload != [] && !p.flags.syn
    ensures Inspect(cfg, app, Some(s), p) ==
            InspectDelivery(cfg, app, s.delivered, Safety.FeedOne(STREAM_CAPS, base, s, PieceOf(base, p)), p)
  {
    AtOff(base, p.sn);
  }

  lemma FedSnoc(base: uint32, log: seq<DecodedPacket>, p: DecodedPacket)
    ensures Fed(base, log + [p]) ==
            if p.payload == [] then Fed(base, log)
            else Safety.FeedOne(STREAM_CAPS, base, Fed(base, log), PieceOf(base, p))
  {
    assert (log + [p])[..|log|] == log;
    var more := Cut(base, log + [p]);
    if p.payload != [] {
      assert more[..|more| - 1] == Cut(base, log);
    } else {
      assert more == Cut(base, log);
    }
  }

  /** A client's message with a server name, of which only pieces travel. */
  ghost predicate Run(base: uint32, d: bool, message: seq<byte>, log: seq<DecodedPacket>) {
    && |message| <= Reassembly.DEFAULT_PREFIX && TlsTheorems.SniOf(message) != [] && |message| > 5 && message[5] == 1
    && (forall p | p in log :: Belongs(base, d, message, p))
  }

  lemma FedGrows(base: uint32, log: seq<DecodedPacket>, p: DecodedPacket)
    ensures Fed(base, log).prefix <= Fed(base, log + [p]).prefix && Fed(base, log).delivered <= Fed(base, log + [p]).delivered
  {
    FedSnoc(base, log, p);
    if p.payload != [] {
      Safety.PrefixOnlyGrows(STREAM_CAPS, base, Cut(base, log), [PieceOf(base, p)]);
      assert Cut(base, log + [p]) == Cut(base, log) + [PieceOf(base, p)] by {
        assert (log + [p])[..|log|] == log;
      }
    }
  }

  /** A longer prefix yields the same name. */
  lemma NameStays(a: seq<byte>, b: seq<byte>)
    requires a <= b && TlsTheorems.SniOf(a) != []
    ensures TlsTheorems.SniOf(b) == TlsTheorems.SniOf(a)
  {
    assert b[..|a|] == a;
    TlsTheorems.SniStable(b, |a|);
  }

  lemma PacketProgresses(cfg: Config, base: uint32, d: bool, message: seq<byte>, f: FlowState, log: seq<DecodedPacket>, p: DecodedPacket)
    requires cfg.enabled && Run(base, d, message, log + [p]) && Progress(base, d, message, f, log)
    ensures Progress(base, d, message, UpdateFlow(cfg, f, p), log + [p])
  {
    var before, after := Fed(base, log).prefix, Fed(base, log + [p]).prefix;
    FedGrows(base, log, p);
    if TlsTheorems.SniOf(before) != [] {
      ConclusionStays(cfg, f, p);
      NameStays(before, after);
    } else {
      WaitingProgresses(cfg, base, d, message, f, log, p);
    }
  }

  lemma WaitingProgresses(cfg: Config, base: uint32, d: bool, message: seq<byte>, f: FlowState, log: seq<DecodedPacket>, p: DecodedPacket)
    requires cfg.enabled && Run(base, d, message, log + [p]) && Progress(base, d, message, f, log) && !f.app.conclusive
    ensures Progress(base, d, message, UpdateFlow(cfg, f, p), log + [p])
  {
    var all := log + [p];
    assert forall q | q in log :: q in all;
    assert p in all;
    UpdateInspects(cfg, f, p);
    FedPrefix(base, d, message, log);
    FedPrefix(base, d, message, all);
    FedSnoc(base, log, p);
    if p.payload == [] {
      EmptyPayload(cfg, f.app, Dir(f, Forward(p)).stream, p);
      WaitingHasRoom(message, Fed(base, log));
    } else {
      PiecePushed(cfg, f.app, Fed(base, log), base, p);
      FedGrows(base, log, p);
      DeliveryConcludes(cfg, f.app, Fed(base, log).delivered, Fed(base, all), message, p);
    }
  }

  lemma WaitingHasRoom(message: seq<byte>, s: Reassembly.Stream)
    requires |message| <= Reassembly.DEFAULT_PREFIX && TlsTheorems.SniOf(message) != []
    requires s.delivered <= |message| && s.prefix == message[..s.delivered] && TlsTheorems.SniOf(s.prefix) == []
    ensures !Reassembly.Saturated(STREAM_CAPS, s)
  {
    assert message[..|message|] == message;
  }

  // ------------------------------------------------------------------ the whole run

  /** A SYN without payload opens the conversation. */
  predicate Opens(p: DecodedPacket) {
    p.l4 == TCP && p.flags.syn && p.payload == []
  }

  lemma OpeningProgresses(cfg: Config, message: seq<byte>, id: nat, p: DecodedPacket)
    requires cfg.enabled && Opens(p)
    ensures Progress(Add32(p.sn, 1), Forward(p), message, Replay(cfg, NewFlow(id, p), [p]), [])
  {
    var f := NewFlow(id, p);
    ReplaySnoc(cfg, f, [], p);
    assert [] + [p] == [p];
    UpdateInspects(cfg, f, p);
    Safety.FirstPacketAnchors(STREAM_CAPS, p.sn, []);
  }

  lemma RunBefore(base: uint32, d: bool, message: seq<byte>, log: seq<DecodedPacket>, p: DecodedPacket)
    requires Run(base, d, message, log + [p])
    ensures Run(base, d, message, log)
  {
    assert forall q | q in log :: q in log + [p];
  }

  lemma ReplayProgresses(cfg: Config, base: uint32, d: bool, message: seq<byte>, f: FlowState,
                         opening: DecodedPacket, log: seq<DecodedPacket>, p: DecodedPacket)
    requires cfg.enabled && Run(base, d, message, log + [p])
    requires Progress(base, d, message, Replay(cfg, f, [opening] + log), log)
    ensures Progress(base, d, message, Replay(cfg, f, [opening] + (log + [p])), log + [p])
  {
    PacketProgresses(cfg, base, d, message, Replay(cfg, f, [opening] + log), log, p);
    ReplaySnoc(cfg, f, [opening] + log, p);
    assert [opening] + (log + [p]) == ([opening] + log) + [p];
  }

  lemma {:induction false} LogProgresses(cfg: Config, base: uint32, d: bool, message: seq<byte>, id: nat,
                                         opening: DecodedPacket, log: seq<DecodedPacket>)
    requires cfg.enabled && Opens(opening) && base == Add32(opening.sn, 1) && d == Forward(opening)
    requires Run(base, d, message, log)
    ensures Progress(base, d, message, Replay(cfg, NewFlow(id, opening), [opening] + log), log)
  {
    if log == [] {
      assert [opening] + log == [opening];
      OpeningProgresses(cfg, message, id, opening);
    } else {
      var init, p := log[..|log| - 1], log[|log| - 1];
      assert log == init + [p];
      RunBefore(base, d, message, init, p);
      LogProgresses(cfg, base, d, message, id, opening, init);
      ReplayProgresses(cfg, base, d, message, NewFlow(id, opening), opening, init, p);
    }
  }

  // ------------------------------------------------------------- when a flow is named

  /** The log opens with a SYN, and then only pieces of the message travel. */
  ghost predicate Carries(log: seq<DecodedPacket>, message: seq<byte>) {
    log != [] && Opens(log[0]) && Run(Add32(log[0].sn, 1), Forward(log[0]), message, log[1..])
  }

  /** What the client's reassembler was handed, in order, by such a log. */
  ghost function Delivered(log: seq<DecodedPacket>): seq<byte>
    requires log != []
  {
    Fed(Add32(log[0].sn, 1), log[1..]).prefix
  }

  ghost predicate NamedBy(app: AppInfo, delivered: seq<byte>, message: seq<byte>) {
    && (app.conclusive <==> TlsTheorems.SniOf(delivered) != [])
    && (app.conclusive ==> Concluded(app, message) && TlsTheorems.SniOf(delivered) == TlsTheorems.SniOf(message))
  }

  lemma LogNames(cfg: Config, id: nat, log: seq<DecodedPacket>, message: seq<byte>)
    requires cfg.enabled && Carries(log, message)
    ensures NamedBy(Replay(cfg, NewFlow(id, log[0]), log).app, Delivered(log), message)
  {
    var opening, rest := log[0], log[1..];
    var base, d := Add32(opening.sn, 1), Forward(opening);
    assert log == [opening] + rest;
    LogProgresses(cfg, base, d, message, id, opening, rest);
    FedPrefix(base, d, message, rest);
    if TlsTheorems.SniOf(Delivered(log)) != [] {
      NameStays(Delivered(log), message);
    }
  }

  /** While dissection is on, a live flow that carries a message is named if and only if what was delivered of it yields
      the name: whatever the cuts, the order and the repeats, across the wrap, and whatever the buffers refused. */
  lemma NamedIffDelivered(others: Dissectors, maxFlows: nat, run: seq<Step>, k: FlowKey, message: seq<byte>)
    requires Possible(others, maxFlows, run) && (forall e | e in run :: (e.Enable? ==> e.on)) && k in FlowsAfter(others, run)
    requires Carries(Log(others, run, k), message)
    ensures NamedBy(FlowsAfter(others, run)[k].app, Delivered(Log(others, run, k)), message)
  {
    FlowIsReplay(others, maxFlows, run, k);
    LogNames(Config(others, true), FlowsAfter(others, run)[k].id, Log(others, run, k), message);
  }

  // --------------------------------------------------------------- and what follows

  /** A conclusive label is final: no later packet, whatever it carries, changes it. */
  lemma ConclusionStays(cfg: Config, f: FlowState, p: DecodedPacket)
    requires f.app.conclusive
    ensures UpdateFlow(cfg, f, p).app == f.app
  {
    UpdateInspects(cfg, f, p);
  }

  /** From moment `r` of the run on, the flow stays in the table. */
  ghost predicate Lives(others: Dissectors, run: seq<Step>, k: FlowKey, r: nat) {
    r <= |run| && forall i | r <= i <= |run| :: k in FlowsAfter(others, run[..i])
  }

  /** So it outlives everything: packets of either side, other flows, and dissection being switched off. */
  lemma {:induction false} ConclusionOutlives(others: Dissectors, maxFlows: nat, run: seq<Step>, k: FlowKey, r: nat)
    requires Possible(others, maxFlows, run) && Lives(others, run, k, r)
    requires FlowsAfter(others, run[..r])[k].app.conclusive
    ensures k in FlowsAfter(others, run) && FlowsAfter(others, run)[k].app == FlowsAfter(others, run[..r])[k].app
  {
    assert run[..|run|] == run;
    if r < |run| {
      var init, e := run[..|run| - 1], run[|run| - 1];
      var s := After(others, init);
      forall i | r <= i <= |init| ensures k in FlowsAfter(others, init[..i]) {
        assert init[..i] == run[..i];
      }
      assert init[..r] == run[..r] && run[..|init|] == init;
      ConclusionOutlives(others, maxFlows, init, k, r);
      StepOnFlow(others, maxFlows, s, e, k);
      if IsFor(e, k) {
        ConclusionStays(Config(others, s.enabled), s.table.flows[k], e.p);
      }
    }
  }

  lemma {:induction false} PossibleBefore(others: Dissectors, maxFlows: nat, run: seq<Step>, r: nat)
    requires Possible(others, maxFlows, run) && r <= |run|
    ensures Possible(others, maxFlows, run[..r])
  {
    if r < |run| {
      assert run[..|run| - 1][..r] == run[..r];
      PossibleBefore(others, maxFlows, run[..|run| - 1], r);
    } else {
      assert run[..r] == run;
    }
  }

  /** Dissection is not switched off before moment `r`, when the flow is there. */
  ghost predicate Watched(others: Dissectors, run: seq<Step>, k: FlowKey, r: nat) {
    Lives(others, run, k, r) && forall e | e in run[..r] :: (e.Enable? ==> e.on)
  }

  /** The whole way: in any run of a table, a live flow that at some moment has carried a ClientHello of which enough was
      delivered is shown as TLS with the client's server name, sanitised, from then on, whatever happens later. */
  lemma ServerNameShown(others: Dissectors, maxFlows: nat, run: seq<Step>, k: FlowKey, r: nat, message: seq<byte>)
    requires Possible(others, maxFlows, run) && Watched(others, run, k, r)
    requires Carries(Log(others, run[..r], k), message)
    requires TlsTheorems.SniOf(Delivered(Log(others, run[..r], k))) != []
    ensures k in FlowsAfter(others, run) && Concluded(FlowsAfter(others, run)[k].app, message)
  {
    PossibleBefore(others, maxFlows, run, r);
    NamedIffDelivered(others, maxFlows, run[..r], k, message);
    ConclusionOutlives(others, maxFlows, run, k, r);
  }

  // ------------------------------------------------- when what arrived is delivered

  ghost predicate Unrefused(base: uint32, log: seq<DecodedPacket>) {
    Coverage.NothingRefused(STREAM_CAPS, base, Cut(base, log))
  }

  /** The bytes up to `n` all arrived. */
  ghost predicate Arrived(base: uint32, log: seq<DecodedPacket>, n: nat) {
    forall x | 0 <= x < n :: Coverage.Covered(Cut(base, log), x)
  }

  /** Without refusals, and if the message's numbers ascend, all that arrived in one piece is delivered. */
  lemma ArrivedIsDelivered(log: seq<DecodedPacket>, message: seq<byte>, n: nat)
    requires Carries(log, message) && n <= |message|
    requires var base := Add32(log[0].sn, 1);
             Coverage.Ascending(base, |message| - 1) && Unrefused(base, log[1..]) && Arrived(base, log[1..], n)
    ensures message[..n] <= Delivered(log)
  {
    var base, d, rest := Add32(log[0].sn, 1), Forward(log[0]), log[1..];
    var segs := Cut(base, rest);
    CutIsPieces(base, d, message, rest);
    forall g | g in segs ensures Coverage.Unwrapped(base, g) {
      assert IsPiece(message, g);
    }
    Coverage.AcceptedArePushed(STREAM_CAPS, base, segs);
    Coverage.DeliversLongestRun(STREAM_CAPS, base, segs);
    FedPrefix(base, d, message, rest);
    assert Fed(base, rest).delivered < n ==> Coverage.Covered(segs, Fed(base, rest).delivered);
  }

  /** So if enough to yield the name arrived, unrefused and with ascending numbers, it is shown from then on. */
  lemma ArrivedNameShown(others: Dissectors, maxFlows: nat, run: seq<Step>, k: FlowKey, r: nat, message: seq<byte>, n: nat)
    requires Possible(others, maxFlows, run) && Watched(others, run, k, r)
    requires var log := Log(others, run[..r], k);
             && Carries(log, message) && n <= |message| && TlsTheorems.SniOf(message[..n]) != []
             && Coverage.Ascending(Add32(log[0].sn, 1), |message| - 1)
             && Unrefused(Add32(log[0].sn, 1), log[1..]) && Arrived(Add32(log[0].sn, 1), log[1..], n)
    ensures k in FlowsAfter(others, run) && Concluded(FlowsAfter(others, run)[k].app, message)
    ensures TlsTheorems.SniOf(message) == TlsTheorems.SniOf(message[..n])
  {
    var log := Log(others, run[..r], k);
    ArrivedIsDelivered(log, message, n);
    NameStays(message[..n], Delivered(log));
    NameStays(message[..n], message);
    ServerNameShown(others, maxFlows, run, k, r, message);
  }

  /** A hello that is always cut the same way is never refused by the buffers. */
  lemma SameCutsUnrefused(base: uint32, d: bool, message: seq<byte>, log: seq<DecodedPacket>)
    requires |message| <= Reassembly.DEFAULT_PREFIX && (forall p | p in log :: Belongs(base, d, message, p))
    requires forall g, h | g in Cut(base, log) && h in Cut(base, log) :: Coverage.SameOrApart(g, h)
    ensures Unrefused(base, log)
  {
    CutIsPieces(base, d, message, log);
    Coverage.PiecesNeverRefused(STREAM_CAPS, base, Cut(base, log), |message|);
  }

  function Total(segs: seq<Safety.Segment>): nat {
    if segs == [] then 0 else Total(segs[..|segs| - 1]) + |segs[|segs| - 1].data|
  }

  lemma {:induction false} TotalIsPushed(base: uint32, segs: seq<Safety.Segment>)
    ensures Safety.Books(STREAM_CAPS, base, segs).pushed == Total(segs)
  {
    if segs != [] {
      TotalIsPushed(base, segs[..|segs| - 1]);
    }
  }

  /** Nor is one whose pieces, repeats and overlaps included, add up to no more than the buffer. */
  lemma FewBytesUnrefused(base: uint32, d: bool, message: seq<byte>, log: seq<DecodedPacket>)
    requires |message| <= Reassembly.DEFAULT_PREFIX && (forall p | p in log :: Belongs(base, d, message, p))
    requires Total(Cut(base, log)) <= Reassembly.DEFAULT_BUFFERED
    ensures Unrefused(base, log)
  {
    var segs := Cut(base, log);
    CutIsPieces(base, d, message, log);
    TotalIsPushed(base, segs);
    forall g | g in segs
      ensures Coverage.Spanned(g) && g.pos + |g.data| <= |message|
    {
      assert IsPiece(message, g);
    }
    Coverage.FewBytesNeverRefused(STREAM_CAPS, base, segs, |message|);
  }

  /** The longest message of which the default buffers never refuse a piece. */
  const NEVER_REFUSED: nat := 255

  lemma ShortFits(n: nat)
    ensures n <= NEVER_REFUSED <==> (n - 1) * (n + 2) <= 2 * Reassembly.DEFAULT_BUFFERED
  {
    if n <= NEVER_REFUSED {
      Grows(n - 1, NEVER_REFUSED - 1);
    } else {
      Grows(NEVER_REFUSED, n - 1);
    }
  }

  lemma Grows(x: int, y: nat)
    requires -1 <= x <= y
    ensures x * (x + 3) <= y * (y + 3)
  {
    assert y * (y + 3) - x * (x + 3) == (y - x) * (y + x + 3);
  }

  /** Messages up to that length, and no longer ones, are never refused a piece, however they are cut and repeated. */
  lemma ShortUnrefused(base: uint32, d: bool, message: seq<byte>, log: seq<DecodedPacket>)
    requires |message| <= NEVER_REFUSED && (forall p | p in log :: Belongs(base, d, message, p))
    ensures Unrefused(base, log)
  {
    CutIsPieces(base, d, message, log);
    ShortFits(|message|);
    Coverage.NeverRefusesIff(STREAM_CAPS, base, |message|);
    assert Coverage.Inside(Cut(base, log), |message|);
  }

  /** What the default buffers always take: pieces cut the same way each time, however often they come; pieces
      cut and repeated in any way that add up to at most the buffer cap; and any pieces of a short message. */
  ghost predicate Gentle(message: seq<byte>, pieces: seq<Safety.Segment>) {
    || (forall g, h | g in pieces && h in pieces :: Coverage.SameOrApart(g, h))
    || Total(pieces) <= Reassembly.DEFAULT_BUFFERED
    || |message| <= NEVER_REFUSED
  }

  lemma GentleUnrefused(base: uint32, d: bool, message: seq<byte>, log: seq<DecodedPacket>)
    requires |message| <= Reassembly.DEFAULT_PREFIX && (forall p | p in log :: Belongs(base, d, message, p))
    requires Gentle(message, Cut(base, log))
    ensures Unrefused(base, log)
  {
    if |message| <= NEVER_REFUSED {
      ShortUnrefused(base, d, message, log);
    } else if Total(Cut(base, log)) <= Reassembly.DEFAULT_BUFFERED {
      FewBytesUnrefused(base, d, message, log);
    } else {
      SameCutsUnrefused(base, d, message, log);
    }
  }

  /** The log opens with a SYN and then carries all of the message, in any order. */
  ghost predicate CarriesAll(log: seq<DecodedPacket>, message: seq<byte>) {
    && log != [] && Opens(log[0]) && |message| <= Reassembly.DEFAULT_PREFIX
    && var base := Add32(log[0].sn, 1);
    && Coverage.Ascending(base, |message| - 1)
    && (forall p | p in log[1..] :: Belongs(base, Forward(log[0]), message, p))
    && Gentle(message, Cut(base, log[1..]))
    && Arrived(base, log[1..], |message|)
  }

  lemma AllIsDelivered(log: seq<DecodedPacket>, message: seq<byte>)
    requires CarriesAll(log, message) && TlsTheorems.SniOf(message) != [] && |message| > 5 && message[5] == 1
    ensures Carries(log, message) && Delivered(log) == message
  {
    var base, d := Add32(log[0].sn, 1), Forward(log[0]);
    GentleUnrefused(base, d, message, log[1..]);
    ArrivedIsDelivered(log, message, |message|);
    FedPrefix(base, d, message, log[1..]);
  }

  lemma HelloIsClient(h: TlsTheorems.ClientHello)
    requires TlsTheorems.Fits(h)
    ensures |TlsTheorems.Encode(h)| > 5 && TlsTheorems.Encode(h)[5] == 1
  {
    TlsTheorems.HeaderInverts(h);
  }

  /** A ClientHello built around a server name, carried whole by a flow at some moment of its life: the flow is TLS and
      shows exactly that name from then on. */
  lemma ClientHelloNamesFlow(others: Dissectors, maxFlows: nat, run: seq<Step>, k: FlowKey, r: nat, h: TlsTheorems.ClientHello,
                             before: seq<TlsHello.Extension>, name: seq<byte>, after: seq<TlsHello.Extension>)
    requires name != [] && |name| + 5 < 65536 && (forall e | e in before :: e.kind != 0)
    requires h.extensions == before + [TlsTheorems.ServerNameExtension(name)] + after && TlsTheorems.Fits(h)
    requires Possible(others, maxFlows, run) && Watched(others, run, k, r)
    requires CarriesAll(Log(others, run[..r], k), TlsTheorems.Encode(h))
    ensures k in FlowsAfter(others, run)
    ensures var app := FlowsAfter(others, run)[k].app;
            && app.conclusive && app.proto == Tls
            && TlsTheorems.EndsWith(app.summary, " sni=" + Sanitized(name, TlsHello.SNI_MAX))
            && (|name| <= 48 && (forall b | b in name :: 0x20 <= b <= 0x7E) ==>
                  TlsTheorems.EndsWith(app.summary, " sni=" + Chars(name)))
  {
    if |name| <= 48 && forall b | b in name :: 0x20 <= b <= 0x7E {
      PrintableShown(name, TlsHello.SNI_MAX);
    }
    var message := TlsTheorems.Encode(h);
    TlsTheorems.SniRecovered(h, before, name, after);
    HelloIsClient(h);
    AllIsDelivered(Log(others, run[..r], k), message);
    ServerNameShown(others, maxFlows, run, k, r, message);
  }
}
