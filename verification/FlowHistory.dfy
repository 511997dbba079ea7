/** Runs of the flow table, and what each live flow says about the packets that made it. */
module FlowHistory {
  import opened Serial
  import opened SequenceTracking
  import opened RoundTrip
  import opened FlowModel
  import RoundTripTheorems
  import SequenceExactness
  import SequenceTheorems
  import KarnRule
  import TcpStates

  // ---------------------------------------------------------------------- runs

  /** What happens to a table; an accepted packet comes with the choice of what to evict for it. */
  datatype Step =
    | Packet(p: DecodedPacket, evicted: set<FlowKey>)
    | Expire(now: int, idleSec: real)
    | Clear
    | Enable(on: bool)

  datatype State = State(table: Table, enabled: bool)

  const START: State := State(EMPTY_TABLE, true)

  ghost function Next(others: Dissectors, s: State, e: Step): State {
    match e
    case Packet(p, evicted) =>
      if Accepts(p) then
        s.(table := FlowModel.Arrive(Config(others, s.enabled), Table(s.table.flows - evicted, s.table.totals), p))
      else s
    case Expire(now, idleSec) => s.(table := Table(Survivors(s.table.flows, now, idleSec), s.table.totals))
    case Clear => s.(table := Table(map[], s.table.totals.(appCounts := map[])))
    case Enable(on) => s.(enabled := on)
  }

  ghost predicate Allowed(maxFlows: nat, s: State, e: Step) {
    e.Packet? && Accepts(e.p) ==> Evictable(s.table, maxFlows, KeyOf(e.p), e.evicted)
  }

  ghost function After(others: Dissectors, run: seq<Step>): State {
    if run == [] then START
    else Next(others, After(others, run[..|run| - 1]), run[|run| - 1])
  }

  ghost predicate Possible(others: Dissectors, maxFlows: nat, run: seq<Step>) {
    run == [] ||
    (Possible(others, maxFlows, run[..|run| - 1]) &&
     Allowed(maxFlows, After(others, run[..|run| - 1]), run[|run| - 1]))
  }

  ghost function FlowsAfter(others: Dissectors, run: seq<Step>): map<FlowKey, FlowState> {
    After(others, run).table.flows
  }

  predicate IsFor(e: Step, k: FlowKey) {
    e.Packet? && Accepts(e.p) && KeyOf(e.p) == k
  }

  /** The naive log: a conversation's accepted packets, kept while its flow is in the table. */
  ghost function Log(others: Dissectors, run: seq<Step>, k: FlowKey): seq<DecodedPacket> {
    if run == [] || k !in FlowsAfter(others, run) then []
    else Log(others, run[..|run| - 1], k) + if IsFor(run[|run| - 1], k) then [run[|run| - 1].p] else []
  }

  // ------------------------------------------------------------- counting a log

  datatype Kind = Any | Syn | Fin | Rst | PureAcks

  /** Packets of direction `d` that a counter is for; all but the first kind are TCP packets. */
  predicate Is(kind: Kind, d: bool, p: DecodedPacket) {
    Forward(p) == d &&
    match kind
    case Any => true
    case Syn => p.l4 == TCP && p.flags.syn
    case Fin => p.l4 == TCP && p.flags.fin
    case Rst => p.l4 == TCP && p.flags.rst
    case PureAcks => p.l4 == TCP && p.payload == [] && p.flags.ack && !p.flags.syn && !p.flags.fin && !p.flags.rst
  }

  function Where(log: seq<DecodedPacket>, kind: Kind, d: bool): set<nat> {
    set i: nat | i < |log| && Is(kind, d, log[i])
  }

  function Number(log: seq<DecodedPacket>, kind: Kind, d: bool): nat {
    |Where(log, kind, d)|
  }

  function Bytes(log: seq<DecodedPacket>, d: bool): nat {
    if log == [] then 0
    else Bytes(log[..|log| - 1], d) + if Forward(log[|log| - 1]) == d then log[|log| - 1].wirelen else 0
  }

  function PayloadBytes(log: seq<DecodedPacket>, d: bool): nat {
    if log == [] then 0
    else PayloadBytes(log[..|log| - 1], d) + if Forward(log[|log| - 1]) == d then |log[|log| - 1].payload| else 0
  }

  /** What the last packet of direction `d` said, zero before there is one. */
  function LastTtl(log: seq<DecodedPacket>, d: bool): byte {
    if log == [] then 0
    else if Forward(log[|log| - 1]) == d then log[|log| - 1].ttl
    else LastTtl(log[..|log| - 1], d)
  }

  function LastWindow(log: seq<DecodedPacket>, d: bool): nat {
    if log == [] then 0
    else if Forward(log[|log| - 1]) == d && log[|log| - 1].l4 == TCP then log[|log| - 1].window
    else LastWindow(log[..|log| - 1], d)
  }

  lemma NumberSnoc(log: seq<DecodedPacket>, p: DecodedPacket, kind: Kind, d: bool)
    ensures Number(log + [p], kind, d) == Number(log, kind, d) + One(Is(kind, d, p))
  {
    var before, after := Where(log, kind, d), Where(log + [p], kind, d);
    forall i: nat
      ensures i in after <==> i in before || (i == |log| && Is(kind, d, p))
    {
      if i < |log| {
        assert (log + [p])[i] == log[i];
      }
    }
    assert after == before + if Is(kind, d, p) then {|log|} else {};
  }

  /** The counters of direction `d` are those of the log. */
  ghost predicate Counted(c: Counters, log: seq<DecodedPacket>, d: bool) {
    && c.packets == Number(log, Any, d)
    && c.bytes == Bytes(log, d)
    && c.payloadBytes == PayloadBytes(log, d)
    && c.syn == Number(log, Syn, d)
    && c.fin == Number(log, Fin, d)
    && c.rst == Number(log, Rst, d)
    && c.pureAcks == Number(log, PureAcks, d)
    && c.lastTtl == LastTtl(log, d)
    && c.lastWindow == LastWindow(log, d)
  }

  lemma CountedGrows(c: Counters, log: seq<DecodedPacket>, d: bool, p: DecodedPacket)
    requires Counted(c, log, d)
    ensures Counted(if Forward(p) == d then Count(c, p) else c, log + [p], d)
  {
    assert (log + [p])[..|log|] == log;
    NumberSnoc(log, p, Any, d);
    NumberSnoc(log, p, Syn, d);
    NumberSnoc(log, p, Fin, d);
    NumberSnoc(log, p, Rst, d);
    NumberSnoc(log, p, PureAcks, d);
  }

  /** The TCP packets of a log as the connection state sees them. */
  function Segments(log: seq<DecodedPacket>): seq<TcpStates.Packet> {
    if log == [] then []
    else
      var p := log[|log| - 1];
      Segments(log[..|log| - 1]) + if p.l4 == TCP then [TcpStates.Packet(p.flags, Forward(p))] else []
  }

  function ConnectionOf(f: FlowState): TcpStates.Connection {
    TcpStates.Connection(f.state, f.handshake, f.fwd.c.fin, f.rev.c.fin)
  }

  /** A packet of direction `d` as its sequence tracker sees it, in positions from `base`. */
  function EventOf(base: uint32, p: DecodedPacket): SequenceTheorems.Event {
    if |p.payload| > 0 then SequenceTheorems.Data(Off(base, p.sn), |p.payload|)
    else SequenceTheorems.Control(Off(base, p.sn), One(p.flags.syn || p.flags.fin))
  }

  function EventsOf(base: uint32, log: seq<DecodedPacket>, d: bool): seq<SequenceTheorems.Event> {
    if log == [] then []
    else
      var p := log[|log| - 1];
      EventsOf(base, log[..|log| - 1], d) + if p.l4 == TCP && Forward(p) == d then [EventOf(base, p)] else []
  }

  /** The tracker of direction `d` after a log. */
  function Tracked(log: seq<DecodedPacket>, d: bool): Tracker {
    if log == [] then UNTRACKED
    else
      var p, t := log[|log| - 1], Tracked(log[..|log| - 1], d);
      if p.l4 == TCP && Forward(p) == d then Track(t, p) else t
  }

  /** The handshake timer after a log. */
  function Shaken(log: seq<DecodedPacket>): Handshake {
    if log == [] then NO_HANDSHAKE
    else
      var p, h := log[|log| - 1], Shaken(log[..|log| - 1]);
      if p.l4 == TCP then Shake(h, p.flags.syn, p.flags.ack, p.ts) else h
  }

  /** What one more packet tells the queue of direction `d`. */
  function Heeded(base: uint32, log: seq<DecodedPacket>, d: bool, p: DecodedPacket): seq<RoundTripTheorems.Event> {
    if p.l4 != TCP then []
    else if Forward(p) == d then
      [RoundTripTheorems.Send(Off(base, p.sn), |p.payload|, p.ts, JudgedResend(Tracked(log, d), p))]
    else if p.flags.ack then [RoundTripTheorems.Ack(Off(base, p.ack), p.ts)]
    else []
  }

  /** What the round-trip queue of direction `d` is told: its own segments, and the peer's ACKs. */
  function Exchanged(base: uint32, log: seq<DecodedPacket>, d: bool): seq<RoundTripTheorems.Event> {
    if log == [] then []
    else
      var p, init := log[|log| - 1], log[..|log| - 1];
      Exchanged(base, init, d) + Heeded(base, init, d, p)
  }

  // -------------------------------------------------------------- what a flow is

  /** A flow is what its log makes of it. */
  ghost predicate Told(f: FlowState, log: seq<DecodedPacket>) {
    && log != []
    && f.firstSeen == log[0].ts && f.lastSeen == log[|log| - 1].ts && f.l4 == log[0].l4
    && Agrees(f, log)
  }

  /** Flow `g` is flow `f` after packet `p`, but for its label and streams. */
  ghost predicate Moved(f: FlowState, g: FlowState, p: DecodedPacket) {
    && g.id == f.id && g.key == f.key && g.l4 == f.l4 && g.firstSeen == f.firstSeen && g.lastSeen == p.ts
    && ConnectionOf(g) == (if p.l4 == TCP then TcpStates.Observe(ConnectionOf(f), TcpStates.Packet(p.flags, Forward(p)))
                           else ConnectionOf(f))
    && g.shake == (if p.l4 == TCP then Shake(f.shake, p.flags.syn, p.flags.ack, p.ts) else f.shake)
    && (forall d :: DirectionMoved(Dir(f, d), Dir(g, d), p, d))
  }

  ghost predicate DirectionMoved(before: Direction, after: Direction, p: DecodedPacket, d: bool) {
    if Forward(p) == d then
      && after.c == Count(before.c, p)
      && after.tracker == (if p.l4 == TCP then Track(before.tracker, p) else before.tracker)
      && after.sender == (if p.l4 == TCP then Awaited(before.sender, before.tracker, p) else before.sender)
    else
      && after.c == before.c
      && after.tracker == before.tracker
      && after.sender == if p.l4 == TCP then Heard(before.sender, p) else before.sender
  }

  predicate SameIdentity(f: FlowState, g: FlowState) {
    g.id == f.id && g.key == f.key && g.l4 == f.l4 && g.firstSeen == f.firstSeen
  }

  lemma SeenParts(f: FlowState, p: DecodedPacket, forward: bool)
    ensures var g := Seen(f, p, forward);
            && SameIdentity(f, g) && g.lastSeen == p.ts
            && g.state == f.state && g.handshake == f.handshake && g.shake == f.shake
            && Dir(g, forward) == Dir(f, forward).(c := Count(Dir(f, forward).c, p))
            && Dir(g, !forward) == Dir(f, !forward)
  {
  }

  lemma SegmentParts(f: FlowState, p: DecodedPacket, forward: bool)
    ensures var g := Segment(f, p, forward);
            && SameIdentity(f, g) && g.lastSeen == f.lastSeen
            && (g.state, g.handshake) ==
               TcpStates.Advance(f.state, f.handshake, p.flags, forward, f.fwd.c.fin, f.rev.c.fin)
            && g.shake == Shake(f.shake, p.flags.syn, p.flags.ack, p.ts)
            && Dir(g, forward) == Sends(Dir(f, forward), p) && Dir(g, !forward) == Hears(Dir(f, !forward), p)
  {
  }

  lemma CountedFins(f: FlowState, p: DecodedPacket, forward: bool)
    requires p.l4 == TCP
    ensures var g, c := Seen(f, p, forward), TcpStates.Observe(ConnectionOf(f), TcpStates.Packet(p.flags, forward));
            && g.fwd.c.fin == c.finFwd && g.rev.c.fin == c.finRev
            && (c.state, c.handshake) ==
               TcpStates.Advance(f.state, f.handshake, p.flags, forward, g.fwd.c.fin, g.rev.c.fin)
  {
    SeenParts(f, p, forward);
  }

  lemma TransportMoves(f: FlowState, p: DecodedPacket)
    ensures Moved(f, Transported(f, p, Forward(p)), p)
  {
    var forward := Forward(p);
    var g, h := Seen(f, p, forward), Transported(f, p, forward);
    SeenParts(f, p, forward);
    if p.l4 == TCP {
      SegmentParts(g, p, forward);
      CountedFins(f, p, forward);
    }
    forall d
      ensures DirectionMoved(Dir(f, d), Dir(h, d), p, d)
    {
      assert d == forward || d == !forward;
    }
  }

  lemma UpdateMoves(cfg: Config, f: FlowState, p: DecodedPacket)
    ensures Moved(f, UpdateFlow(cfg, f, p), p)
  {
    TransportMoves(f, p);
    var g := Transported(f, p, Forward(p));
    var i := Inspect(cfg, g.app, Dir(g, Forward(p)).stream, p);
    InspectionKeeps(g, Forward(p), i);
  }

  lemma InspectionKeeps(f: FlowState, forward: bool, i: Inspection)
    ensures var g := Inspected(f, forward, i);
            && g.id == f.id && g.key == f.key && g.l4 == f.l4 && g.firstSeen == f.firstSeen && g.lastSeen == f.lastSeen
            && ConnectionOf(g) == ConnectionOf(f) && g.shake == f.shake
            && forall d :: Dir(g, d).c == Dir(f, d).c && Dir(g, d).tracker == Dir(f, d).tracker
                           && Dir(g, d).sender == Dir(f, d).sender
  {
  }

  lemma ExchangedSnoc(base: uint32, log: seq<DecodedPacket>, d: bool, p: DecodedPacket)
    ensures Exchanged(base, log + [p], d) == Exchanged(base, log, d) + Heeded(base, log, d, p)
  {
    assert (log + [p])[..|log|] == log;
  }

  lemma SendSeen(base: uint32, s: Sender, t: Tracker, p: DecodedPacket)
    ensures RoundTripTheorems.Apply(base, s, RoundTripTheorems.Send(Off(base, p.sn), |p.payload|, p.ts, JudgedResend(t, p))) ==
            Awaited(s, t, p)
  {
    AtOff(base, p.sn);
    AtAdd(base, Off(base, p.sn), |p.payload|);
  }

  lemma AckSeen(base: uint32, s: Sender, p: DecodedPacket)
    requires p.flags.ack
    ensures RoundTripTheorems.Apply(base, s, RoundTripTheorems.Ack(Off(base, p.ack), p.ts)) == Heard(s, p)
  {
    AtOff(base, p.ack);
  }

  lemma SendersGrow(s: Sender, log: seq<DecodedPacket>, d: bool, p: DecodedPacket, base: uint32)
    requires s == RoundTripTheorems.Run(base, Exchanged(base, log, d))
    ensures RoundTripTheorems.Run(base, Exchanged(base, log + [p], d)) ==
            if p.l4 != TCP then s
            else if Forward(p) == d then Awaited(s, Tracked(log, d), p)
            else Heard(s, p)
  {
    var events, told := Exchanged(base, log, d), Heeded(base, log, d, p);
    ExchangedSnoc(base, log, d, p);
    if told == [] {
      assert events + told == events;
    } else {
      RoundTripTheorems.RunSnoc(base, events, told[0]);
      assert events + told == events + [told[0]];
      if Forward(p) == d {
        SendSeen(base, s, Tracked(log, d), p);
      } else {
        AckSeen(base, s, p);
      }
    }
  }

  lemma SegmentsSnoc(log: seq<DecodedPacket>, p: DecodedPacket)
    ensures TcpStates.Run(Segments(log + [p])) ==
            if p.l4 == TCP then TcpStates.Observe(TcpStates.Run(Segments(log)), TcpStates.Packet(p.flags, Forward(p)))
            else TcpStates.Run(Segments(log))
  {
    assert (log + [p])[..|log|] == log;
    if p.l4 == TCP {
      TcpStates.RunSnoc(Segments(log), TcpStates.Packet(p.flags, Forward(p)));
    } else {
      assert Segments(log + [p]) == Segments(log);
    }
  }

  lemma TrackedSnoc(log: seq<DecodedPacket>, p: DecodedPacket, d: bool)
    ensures Tracked(log + [p], d) ==
            if p.l4 == TCP && Forward(p) == d then Track(Tracked(log, d), p) else Tracked(log, d)
  {
    assert (log + [p])[..|log|] == log;
  }

  /** A flow under construction: like `Told`, but a log may still be empty. */
  ghost predicate Agrees(f: FlowState, log: seq<DecodedPacket>) {
    && ConnectionOf(f) == TcpStates.Run(Segments(log)) && f.shake == Shaken(log)
    && (forall d :: Counted(Dir(f, d).c, log, d) && Dir(f, d).tracker == Tracked(log, d))
    && (forall base, d :: Dir(f, d).sender == RoundTripTheorems.Run(base, Exchanged(base, log, d)))
  }

  lemma AgreesGrows(f: FlowState, g: FlowState, log: seq<DecodedPacket>, p: DecodedPacket)
    requires Agrees(f, log) && Moved(f, g, p)
    ensures Agrees(g, log + [p])
  {
    SegmentsSnoc(log, p);
    assert (log + [p])[..|log|] == log;
    forall d
      ensures Counted(Dir(g, d).c, log + [p], d) && Dir(g, d).tracker == Tracked(log + [p], d)
    {
      assert DirectionMoved(Dir(f, d), Dir(g, d), p, d);
      CountedGrows(Dir(f, d).c, log, d, p);
      TrackedSnoc(log, p, d);
    }
    forall base, d
      ensures Dir(g, d).sender == RoundTripTheorems.Run(base, Exchanged(base, log + [p], d))
    {
      assert DirectionMoved(Dir(f, d), Dir(g, d), p, d);
      SendersGrow(Dir(f, d).sender, log, d, p, base);
    }
  }

  lemma ToldAtBirth(cfg: Config, id: nat, p: DecodedPacket)
    ensures Told(UpdateFlow(cfg, NewFlow(id, p), p), [p])
  {
    var f := NewFlow(id, p);
    UpdateMoves(cfg, f, p);
    AgreesGrows(f, UpdateFlow(cfg, f, p), [], p);
    assert [] + [p] == [p];
  }

  lemma ToldGrows(cfg: Config, f: FlowState, log: seq<DecodedPacket>, p: DecodedPacket)
    requires Told(f, log)
    ensures Told(UpdateFlow(cfg, f, p), log + [p])
  {
    UpdateMoves(cfg, f, p);
    AgreesGrows(f, UpdateFlow(cfg, f, p), log, p);
  }

  /** What a step does to one flow of the table: nothing, one packet of its own, or its removal. */
  lemma StepOnFlow(others: Dissectors, maxFlows: nat, s: State, e: Step, k: FlowKey)
    requires Allowed(maxFlows, s, e) && k in Next(others, s, e).table.flows
    ensures var before, after, cfg := s.table.flows, Next(others, s, e).table.flows, Config(others, s.enabled);
            if !IsFor(e, k) then k in before && after[k] == before[k]
            else if k in before then after[k] == UpdateFlow(cfg, before[k], e.p)
            else after[k] == UpdateFlow(cfg, NewFlow(s.table.totals.nextId + 1, e.p), e.p)
  {
  }

  /** Every live flow is exactly what its packets since its creation make of it: counters, connection
      state, sequence tracker and round-trip queue, whatever was evicted, expired or cleared meanwhile. */
  lemma {:induction false} FlowIsItsLog(others: Dissectors, maxFlows: nat, run: seq<Step>, k: FlowKey)
    requires Possible(others, maxFlows, run) && k in FlowsAfter(others, run)
    ensures var f, log := FlowsAfter(others, run)[k], Log(others, run, k);
            Told(f, log) && f.key == k && forall p | p in log :: Accepts(p) && KeyOf(p) == k
  {
    var init, e := run[..|run| - 1], run[|run| - 1];
    var s, log := After(others, init), Log(others, init, k);
    StepOnFlow(others, maxFlows, s, e, k);
    if k in s.table.flows {
      FlowIsItsLog(others, maxFlows, init, k);
      if IsFor(e, k) {
        ToldGrows(Config(others, s.enabled), s.table.flows[k], log, e.p);
        UpdateMoves(Config(others, s.enabled), s.table.flows[k], e.p);
      } else {
        assert log + [] == log;
      }
    } else {
      assert log == [] && [] + [e.p] == [e.p];
      ToldAtBirth(Config(others, s.enabled), s.table.totals.nextId + 1, e.p);
      UpdateMoves(Config(others, s.enabled), NewFlow(s.table.totals.nextId + 1, e.p), e.p);
    }
  }

  /** A packet reaches a flow exactly when it is IPv4 or IPv6 and was decoded without error; any other leaves all as it is. */
  lemma HeardIff(others: Dissectors, maxFlows: nat, run: seq<Step>, p: DecodedPacket, evicted: set<FlowKey>)
    requires Possible(others, maxFlows, run + [Packet(p, evicted)])
    ensures var more := run + [Packet(p, evicted)];
            if (p.l3 == IPv4 || p.l3 == IPv6) && !p.failed then
              KeyOf(p) in FlowsAfter(others, more) && Log(others, more, KeyOf(p)) == Log(others, run, KeyOf(p)) + [p]
            else After(others, more) == After(others, run)
  {
    assert (run + [Packet(p, evicted)])[..|run|] == run;
  }

  // ------------------------------------------------------------ read off the log

  lemma {:induction false} TrackedIsRun(base: uint32, log: seq<DecodedPacket>, d: bool)
    requires forall e | e in EventsOf(base, log, d) :: SequenceTheorems.InSpan(e)
    ensures Tracked(log, d) == SequenceTheorems.Run(base, EventsOf(base, log, d))
  {
    if log != [] {
      var init, p := log[..|log| - 1], log[|log| - 1];
      var events, more := EventsOf(base, init, d), EventsOf(base, log, d);
      assert forall e | e in events :: e in more;
      TrackedIsRun(base, init, d);
      if p.l4 == TCP && Forward(p) == d {
        assert more[..|more| - 1] == events;
        AtOff(base, p.sn);
      } else {
        assert more == events;
      }
    }
  }

  /** The retransmission counter of a live flow against its own packets: the repeats among its data segments plus the
      new ones that met no hole, hence the repeats alone if and only if new data always lands in a tracked hole or
      beyond the reach. */
  lemma LiveRetransmits(others: Dissectors, maxFlows: nat, run: seq<Step>, k: FlowKey, base: uint32, d: bool)
    requires Possible(others, maxFlows, run) && k in FlowsAfter(others, run)
    requires SequenceTheorems.WellCut(EventsOf(base, Log(others, run, k), d))
    ensures var events := EventsOf(base, Log(others, run, k), d);
            var repeats := SequenceTheorems.DataCount(events) - |SequenceTheorems.Distinct(events)|;
            var counted := Dir(FlowsAfter(others, run)[k], d).tracker.retransmits;
            && counted == repeats + SequenceExactness.Misjudged(base, events)
            && (counted == repeats <==> SequenceExactness.FirstsLand(base, events))
            && (SequenceExactness.OrderlyRun(base, events) ==> counted == repeats)
  {
    var log := Log(others, run, k);
    FlowIsItsLog(others, maxFlows, run, k);
    TrackedIsRun(base, log, d);
    LogRetransmits(base, EventsOf(base, log, d));
  }

  lemma LogRetransmits(base: uint32, events: seq<SequenceTheorems.Event>)
    requires SequenceTheorems.WellCut(events)
    ensures var repeats := SequenceTheorems.DataCount(events) - |SequenceTheorems.Distinct(events)|;
            var counted := SequenceTheorems.Run(base, events).retransmits;
            && counted == repeats + SequenceExactness.Misjudged(base, events)
            && (counted == repeats <==> SequenceExactness.FirstsLand(base, events))
            && (SequenceExactness.OrderlyRun(base, events) ==> counted == repeats)
  {
    SequenceExactness.RetransmitsCounted(base, events);
    SequenceExactness.RetransmitsExactIff(base, events);
    if SequenceExactness.OrderlyRun(base, events) {
      SequenceExactness.RetransmitsExact(base, events);
    }
  }

  /** The other counter of a live flow is its data that came beyond the reach or landed in a tracked hole; and what the
      tracker remembers of its log is bounded. */
  lemma LiveOutOfOrder(others: Dissectors, maxFlows: nat, run: seq<Step>, k: FlowKey, base: uint32, d: bool)
    requires Possible(others, maxFlows, run) && k in FlowsAfter(others, run)
    requires SequenceTheorems.WellCut(EventsOf(base, Log(others, run, k), d))
    ensures var t := Dir(FlowsAfter(others, run)[k], d).tracker;
            && t.outOfOrder == SequenceExactness.DisplacedCount(base, EventsOf(base, Log(others, run, k), d))
            && |t.recent| <= 64 && |t.holes| <= 16
  {
    var log := Log(others, run, k);
    FlowIsItsLog(others, maxFlows, run, k);
    TrackedIsRun(base, log, d);
    SequenceExactness.OutOfOrderCounted(base, EventsOf(base, log, d));
    SequenceExactness.MemoryIsBounded(base, EventsOf(base, log, d));
  }

  /** The connection state shown for a live flow is borne out by its own packets. */
  lemma LiveStateIsEarned(others: Dissectors, maxFlows: nat, run: seq<Step>, k: FlowKey)
    requires Possible(others, maxFlows, run) && k in FlowsAfter(others, run)
    ensures var f, h := FlowsAfter(others, run)[k], Segments(Log(others, run, k));
            && (f.state == TcpStates.Closed ==> TcpStates.BothFinsThenAck(h))
            && (f.handshake ==> TcpStates.SynAckThenAck(h))
            && (f.state == TcpStates.Reset <==> TcpStates.ResetStands(h))
  {
    FlowIsItsLog(others, maxFlows, run, k);
    TcpStates.StateTellsHistory(Segments(Log(others, run, k)));
    TcpStates.ResetIffStands(Segments(Log(others, run, k)));
  }

  /** And exactly so: the state and the handshake flag shown are those its own packets lead to. */
  lemma LiveStateIff(others: Dissectors, maxFlows: nat, run: seq<Step>, k: FlowKey)
    requires Possible(others, maxFlows, run) && k in FlowsAfter(others, run)
    ensures var f, h := FlowsAfter(others, run)[k], Segments(Log(others, run, k));
            && (f.state == TcpStates.SynSent <==> TcpStates.Got(h, 1) && !TcpStates.Got(h, 2))
            && (f.state == TcpStates.SynReceived <==> TcpStates.Got(h, 2) && !TcpStates.Got(h, 3))
            && (f.state == TcpStates.Established <==> TcpStates.Got(h, 3) && !TcpStates.Got(h, 4))
            && (f.state == TcpStates.FinWait <==> TcpStates.Got(h, 4) && !TcpStates.Got(h, 5))
            && (f.state == TcpStates.Closing <==> TcpStates.Got(h, 5) && !TcpStates.Got(h, 6))
            && (f.state == TcpStates.Closed <==> TcpStates.Got(h, 6))
            && (f.handshake <==> TcpStates.HandshakeSeen(h))
  {
    FlowIsItsLog(others, maxFlows, run, k);
    TcpStates.StateIff(Segments(Log(others, run, k)));
  }

  // ------------------------------------------------------------- who leaves, and when

  function LastSeen(log: seq<DecodedPacket>): int
    requires log != []
  {
    log[|log| - 1].ts
  }

  /** A flow last heard of `now - last` microseconds ago has been idle too long: over `idleSec` seconds, or over five if
      its connection is over. */
  ghost predicate Stale(last: int, over: bool, now: int, idleSec: real) {
    (now - last) as real > idleSec * 1000000.0 || (over && now - last > 5000000)
  }

  lemma AgeInSeconds(later: int, earlier: int, limit: real)
    ensures Seconds(later, earlier) > limit <==> (later - earlier) as real > limit * 1000000.0
  {
    assert Seconds(later, earlier) * 1000000.0 == (later - earlier) as real;
  }

  lemma ExpiredIffStale(f: FlowState, now: int, idleSec: real)
    ensures FlowModel.Expired(f, now, idleSec) <==>
            Stale(f.lastSeen, f.state == TcpStates.Closed || f.state == TcpStates.Reset, now, idleSec)
  {
    AgeInSeconds(now, f.lastSeen, idleSec);
    AgeInSeconds(now, f.lastSeen, 5.0);
  }

  lemma ExpireKeeps(others: Dissectors, run: seq<Step>, now: int, idleSec: real, k: FlowKey)
    ensures var before, after := FlowsAfter(others, run), FlowsAfter(others, run + [Expire(now, idleSec)]);
            if k in before && !FlowModel.Expired(before[k], now, idleSec) then k in after && after[k] == before[k] else k !in after
  {
    assert (run + [Expire(now, idleSec)])[..|run|] == run;
  }

  lemma LiveEnds(others: Dissectors, maxFlows: nat, run: seq<Step>, k: FlowKey)
    requires Possible(others, maxFlows, run) && k in FlowsAfter(others, run)
    ensures var f, log := FlowsAfter(others, run)[k], Log(others, run, k);
            && log != [] && f.lastSeen == LastSeen(log)
            && (f.state == TcpStates.Closed || f.state == TcpStates.Reset <==> Ended(log))
  {
    FlowIsItsLog(others, maxFlows, run, k);
    TcpStates.StateIff(Segments(Log(others, run, k)));
    TcpStates.ResetIffStands(Segments(Log(others, run, k)));
  }

  /** The log's last connection closed, or a reset stands. */
  ghost predicate Ended(log: seq<DecodedPacket>) {
    TcpStates.Got(Segments(log), 6) || TcpStates.ResetStands(Segments(log))
  }

  /** An expiry at `now` keeps a live flow, unchanged, if and only if the last packet of its own log is not too old for
      how the log ends; it brings in no other. */
  lemma ExpiryIff(others: Dissectors, maxFlows: nat, run: seq<Step>, now: int, idleSec: real, k: FlowKey)
    requires Possible(others, maxFlows, run)
    ensures var before, after := FlowsAfter(others, run), FlowsAfter(others, run + [Expire(now, idleSec)]);
            && (k in after ==> k in before && after[k] == before[k])
            && (k in before ==>
                  var log := Log(others, run, k);
                  log != [] && (k in after <==> !Stale(LastSeen(log), Ended(log), now, idleSec)))
  {
    ExpireKeeps(others, run, now, idleSec, k);
    if k in FlowsAfter(others, run) {
      LiveEnds(others, maxFlows, run, k);
      ExpiredIffStale(FlowsAfter(others, run)[k], now, idleSec);
    }
  }

  predicate OpensAt(log: seq<DecodedPacket>, i: int) {
    0 <= i < |log| && log[i].l4 == TCP && log[i].flags.syn && !log[i].flags.ack
  }

  predicate AnswersAt(log: seq<DecodedPacket>, j: int) {
    0 <= j < |log| && log[j].l4 == TCP && log[j].flags.syn && log[j].flags.ack
  }

  /** The delay from a SYN to a later SYN/ACK, with no other SYN in between; in milliseconds. */
  ghost predicate Delay(log: seq<DecodedPacket>, i: int, j: int, ms: real) {
    && OpensAt(log, i) && AnswersAt(log, j) && i < j && (forall k | i < k < j :: !OpensAt(log, k))
    && ms * 1000.0 == (log[j].ts - log[i].ts) as real
  }

  ghost predicate LastOpened(log: seq<DecodedPacket>, i: int) {
    OpensAt(log, i) && forall k | i < k < |log| :: !OpensAt(log, k)
  }

  /** A SYN/ACK that some SYN came before. */
  ghost predicate Answered(log: seq<DecodedPacket>, j: int) {
    AnswersAt(log, j) && exists i | 0 <= i < j :: OpensAt(log, i)
  }

  ghost predicate FirstAnswered(log: seq<DecodedPacket>, j: int) {
    Answered(log, j) && forall k | 0 <= k < j :: !Answered(log, k)
  }

  /** Times do not run backwards. */
  ghost predicate InTime(log: seq<DecodedPacket>) {
    forall i, j | 0 <= i < j < |log| :: log[i].ts <= log[j].ts
  }

  ghost predicate Timed(h: Handshake, log: seq<DecodedPacket>) {
    && (h.synSeen <==> exists i :: OpensAt(log, i))
    && (h.synSeen ==> exists i :: LastOpened(log, i) && h.synAt == log[i].ts)
    && (h.ms != -1.0 ==> exists i, j :: Delay(log, i, j, h.ms))
  }

  /** The first answered SYN/ACK settles the time, if any is answered. */
  ghost predicate Settled(h: Handshake, log: seq<DecodedPacket>) {
    if exists j :: Answered(log, j) then h.ms >= 0.0 && exists i, j :: FirstAnswered(log, j) && Delay(log, i, j, h.ms)
    else h.ms == -1.0
  }

  lemma LogSnoc(init: seq<DecodedPacket>, p: DecodedPacket)
    ensures forall i | 0 <= i < |init| :: OpensAt(init + [p], i) <==> OpensAt(init, i)
    ensures forall j | 0 <= j < |init| :: AnswersAt(init + [p], j) <==> AnswersAt(init, j)
    ensures forall j | 0 <= j < |init| :: Answered(init + [p], j) <==> Answered(init, j)
    ensures Answered(init + [p], |init|) <==> AnswersAt(init + [p], |init|) && exists i :: OpensAt(init, i)
  {
    var log := init + [p];
    assert forall i | 0 <= i < |init| :: OpensAt(log, i) <==> OpensAt(init, i);
    forall j | 0 <= j < |init| ensures Answered(log, j) <==> Answered(init, j) {
      assert AnswersAt(log, j) <==> AnswersAt(init, j);
    }
    if i :| OpensAt(init, i) {
      assert OpensAt(log, i);
    }
  }

  lemma {:induction false} ShakenIsMeasured(log: seq<DecodedPacket>)
    ensures Timed(Shaken(log), log)
    ensures InTime(log) ==> Settled(Shaken(log), log)
  {
    if log != [] {
      var init, p := log[..|log| - 1], log[|log| - 1];
      assert log == init + [p];
      ShakenIsMeasured(init);
      LogSnoc(init, p);
      if OpensAt(log, |init|) {
        OpeningTimed(Shaken(init), init, p);
      } else if AnswersAt(log, |init|) && Shaken(init).synSeen && Shaken(init).ms < 0.0 {
        AnswerTimed(Shaken(init), init, p);
      } else {
        OtherTimed(Shaken(init), init, p);
      }
    }
  }

  /** An earlier delay stays one. */
  lemma DelayStays(init: seq<DecodedPacket>, p: DecodedPacket, i: int, j: int, ms: real)
    requires Delay(init, i, j, ms)
    ensures Delay(init + [p], i, j, ms)
    ensures FirstAnswered(init, j) ==> FirstAnswered(init + [p], j)
  {
    LogSnoc(init, p);
  }

  lemma SettledStays(h: Handshake, init: seq<DecodedPacket>, p: DecodedPacket)
    requires Settled(h, init) && !(Answered(init + [p], |init|) && h.ms < 0.0)
    ensures Settled(h, init + [p])
  {
    LogSnoc(init, p);
    if j :| Answered(init, j) {
      assert Answered(init + [p], j);
      var i, k :| FirstAnswered(init, k) && Delay(init, i, k, h.ms);
      DelayStays(init, p, i, k, h.ms);
    }
    assert forall j :: Answered(init + [p], j) ==> j == |init| || Answered(init, j);
  }

  lemma OpeningTimed(h: Handshake, init: seq<DecodedPacket>, p: DecodedPacket)
    requires Timed(h, init) && OpensAt(init + [p], |init|)
    ensures Timed(Shake(h, p.flags.syn, p.flags.ack, p.ts), init + [p])
    ensures Settled(h, init) ==> Settled(Shake(h, p.flags.syn, p.flags.ack, p.ts), init + [p])
  {
    var log := init + [p];
    assert LastOpened(log, |init|);
    if h.ms != -1.0 {
      var i, j :| Delay(init, i, j, h.ms);
      DelayStays(init, p, i, j, h.ms);
    }
    if Settled(h, init) {
      SettledStays(h, init, p);
    }
  }

  lemma AnswerTimed(h: Handshake, init: seq<DecodedPacket>, p: DecodedPacket)
    requires Timed(h, init) && AnswersAt(init + [p], |init|) && h.synSeen && h.ms < 0.0
    ensures Timed(Shake(h, p.flags.syn, p.flags.ack, p.ts), init + [p])
    ensures Settled(h, init) && InTime(init + [p]) ==> Settled(Shake(h, p.flags.syn, p.flags.ack, p.ts), init + [p])
  {
    var log, g := init + [p], Shake(h, p.flags.syn, p.flags.ack, p.ts);
    LogSnoc(init, p);
    var i :| LastOpened(init, i) && h.synAt == init[i].ts;
    assert LastOpened(log, i) && log[i] == init[i];
    assert g.ms * 1000.0 == (p.ts - h.synAt) as real;
    assert Delay(log, i, |init|, g.ms);
    if Settled(h, init) && InTime(log) {
      assert Answered(log, |init|) && FirstAnswered(log, |init|);
    }
  }

  lemma OtherTimed(h: Handshake, init: seq<DecodedPacket>, p: DecodedPacket)
    requires Timed(h, init) && !OpensAt(init + [p], |init|)
    requires !(AnswersAt(init + [p], |init|) && h.synSeen && h.ms < 0.0)
    ensures Timed(h, init + [p])
    ensures Settled(h, init) ==> Settled(h, init + [p])
  {
    var log := init + [p];
    LogSnoc(init, p);
    if h.synSeen {
      var i :| LastOpened(init, i) && h.synAt == init[i].ts;
      assert LastOpened(log, i) && OpensAt(log, i);
    } else {
      assert forall i :: OpensAt(log, i) ==> OpensAt(init, i);
    }
    if h.ms != -1.0 {
      var i, j :| Delay(init, i, j, h.ms);
      DelayStays(init, p, i, j, h.ms);
    }
    if Settled(h, init) {
      SettledStays(h, init, p);
    }
  }

  /** A handshake time shown for a live flow is the delay between a SYN of its log and the SYN/ACK that answers it. If
      the log's times do not run backwards, one is shown if and only if some SYN/ACK has a SYN before it, and it is that
      of the first one. */
  lemma LiveHandshakeIsMeasured(others: Dissectors, maxFlows: nat, run: seq<Step>, k: FlowKey)
    requires Possible(others, maxFlows, run) && k in FlowsAfter(others, run)
    ensures var h, log := FlowsAfter(others, run)[k].shake, Log(others, run, k);
            && (h.ms >= 0.0 ==> exists i, j :: Delay(log, i, j, h.ms))
            && (InTime(log) ==> (h.ms >= 0.0 <==> exists j :: Answered(log, j)))
            && (InTime(log) && h.ms >= 0.0 ==> exists i, j :: FirstAnswered(log, j) && Delay(log, i, j, h.ms))
  {
    FlowIsItsLog(others, maxFlows, run, k);
    ShakenIsMeasured(Log(others, run, k));
  }

  predicate CarriesData(p: DecodedPacket, d: bool) {
    p.l4 == TCP && Forward(p) == d && |p.payload| > 0
  }

  /** A data segment of direction `d` that would be queued as `q`. */
  predicate SentAs(p: DecodedPacket, d: bool, q: Sent) {
    CarriesData(p, d) && q == Sent(Add32(p.sn, |p.payload|), p.ts)
  }

  /** Packet `i` of the log was queued as `q`, not being judged a resend by the tracker that met it. */
  ghost predicate QueuedAt(log: seq<DecodedPacket>, d: bool, q: Sent, i: int) {
    0 <= i < |log| && SentAs(log[i], d, q) && !JudgedResend(Tracked(log[..i], d), log[i])
  }

  lemma {:induction false} ExchangedSends(log: seq<DecodedPacket>, d: bool, e: RoundTripTheorems.Event)
    requires e in Exchanged(0, log, d) && RoundTripTheorems.IsNew(e)
    ensures exists i :: QueuedAt(log, d, Sent(At(0, RoundTripTheorems.End(e)), e.at), i)
  {
    var init, p := log[..|log| - 1], log[|log| - 1];
    var q := Sent(At(0, RoundTripTheorems.End(e)), e.at);
    if e in Exchanged(0, init, d) {
      ExchangedSends(init, d, e);
      var i :| QueuedAt(init, d, q, i);
      assert init[..i] == log[..i];
      assert QueuedAt(log, d, q, i);
    } else {
      AtOff(0, p.sn);
      AtAdd(0, Off(0, p.sn), |p.payload|);
      assert QueuedAt(log, d, q, |log| - 1);
    }
  }

  /** At most 256 sends of a live flow await acknowledgement, each the trace of a data segment of its log that the
      flow's own tracker did not judge a resend when it came. */
  lemma LiveQueueIsGenuine(others: Dissectors, maxFlows: nat, run: seq<Step>, k: FlowKey, d: bool)
    requires Possible(others, maxFlows, run) && k in FlowsAfter(others, run)
    ensures var queue, log := Dir(FlowsAfter(others, run)[k], d).sender.queue, Log(others, run, k);
            && |queue| <= 256
            && forall q | q in queue :: exists i :: QueuedAt(log, d, q, i)
  {
    var f, log := FlowsAfter(others, run)[k], Log(others, run, k);
    var events := Exchanged(0, log, d);
    FlowIsItsLog(others, maxFlows, run, k);
    assert Dir(f, d).sender == RoundTripTheorems.Run(0, events);
    RoundTripTheorems.QueueIsGenuine(0, events);
    forall q | q in Dir(f, d).sender.queue
      ensures exists i :: QueuedAt(log, d, q, i)
    {
      assert RoundTripTheorems.Genuine(0, events, q);
      var e :| e in events && RoundTripTheorems.IsNew(e) && q == Sent(At(0, RoundTripTheorems.End(e)), e.at);
      ExchangedSends(log, d, e);
    }
  }

  /** The round-trip estimate of a live flow is the smoothing of its samples: delays of its own log, each from a data
      segment not judged a resend to a later ACK of the peer that covers it. */
  lemma LiveEstimate(others: Dissectors, maxFlows: nat, run: seq<Step>, k: FlowKey, base: uint32, d: bool)
    requires Possible(others, maxFlows, run) && k in FlowsAfter(others, run)
    ensures var events := Exchanged(base, Log(others, run, k), d);
            var samples := KarnRule.Samples(base, events);
            && KarnRule.Within(events, samples) && (forall s | s in samples :: KarnRule.Timed(base, events, s))
            && Dir(FlowsAfter(others, run)[k], d).sender.rtt ==
               RoundTripTheorems.Smooth(NO_RTT, KarnRule.Delays(events, samples))
  {
    var events := Exchanged(base, Log(others, run, k), d);
    FlowIsItsLog(others, maxFlows, run, k);
    assert Dir(FlowsAfter(others, run)[k], d).sender == RoundTripTheorems.Run(base, events);
    KarnRule.EstimateIsItsSamples(base, events);
  }

  lemma {:induction false} EventsOfPrefix(base: uint32, log: seq<DecodedPacket>, d: bool, j: nat)
    requires j <= |log|
    ensures forall e | e in EventsOf(base, log[..j], d) :: e in EventsOf(base, log, d)
  {
    if j < |log| {
      assert log[..|log| - 1][..j] == log[..j];
      EventsOfPrefix(base, log[..|log| - 1], d, j);
    } else {
      assert log[..j] == log;
    }
  }

  lemma {:induction false} EventsOfAll(base: uint32, log: seq<DecodedPacket>, d: bool, i: nat)
    requires i < |log| && CarriesData(log[i], d)
    ensures EventOf(base, log[i]) in EventsOf(base, log, d)
  {
    if i < |log| - 1 {
      EventsOfAll(base, log[..|log| - 1], d, i);
    }
  }

  /** For well-cut data the flag those events carry is the truth about repeats: a segment sent again is judged a resend
      by the tracker that meets it. */
  lemma RepeatsAreResends(base: uint32, log: seq<DecodedPacket>, d: bool, i: nat, j: nat)
    requires SequenceTheorems.WellCut(EventsOf(base, log, d))
    requires i < j < |log| && CarriesData(log[i], d) && CarriesData(log[j], d)
    requires log[i].sn == log[j].sn && |log[i].payload| == |log[j].payload|
    ensures JudgedResend(Tracked(log[..j], d), log[j])
  {
    EventsOfPrefix(base, log, d, j);
    EventsOfAll(base, log[..j], d, i);
    TrackedIsRun(base, log[..j], d);
    SequenceTheorems.NoResendMissed(base, EventsOf(base, log[..j], d), EventOf(base, log[j]));
    AtOff(base, log[j].sn);
  }
}
