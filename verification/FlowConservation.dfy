/** What the table-wide totals mean over whole runs, through eviction, expiry and clearing. */
module FlowConservation {
  import opened Serial
  import opened Dissection
  import opened SequenceTracking
  import opened FlowModel
  import opened FlowHistory
  import MapSum
  import Reassembly
  import RoundTrip
  import RoundTripTheorems
  import TlsHello

  // ------------------------------------------------------------ flows that left

  function Resends(f: FlowState): nat {
    f.fwd.tracker.retransmits + f.rev.tracker.retransmits
  }

  function Disordered(f: FlowState): nat {
    f.fwd.tracker.outOfOrder + f.rev.tracker.outOfOrder
  }

  function Named(f: FlowState): nat {
    One(f.app.Identified())
  }

  function Itself(n: nat): nat { n }

  /** The flows a step removes. */
  ghost function Removed(others: Dissectors, s: State, e: Step): map<FlowKey, FlowState> {
    s.table.flows - Next(others, s, e).table.flows.Keys
  }

  /** What `w` made of the flows no longer in the table, each as it was when it left. */
  ghost function Retired(others: Dissectors, run: seq<Step>, w: FlowState -> nat): nat {
    if run == [] then 0
    else
      var init := run[..|run| - 1];
      Retired(others, init, w) + MapSum.Sum(Removed(others, After(others, init), run[|run| - 1]), w)
  }

  ghost function Live(others: Dissectors, run: seq<Step>, w: FlowState -> nat): nat {
    MapSum.Sum(FlowsAfter(others, run), w)
  }

  lemma {:induction false} SumSplits<V>(m: map<FlowKey, V>, gone: set<FlowKey>, w: V -> nat)
    ensures MapSum.Sum(m, w) == MapSum.Sum(m - gone, w) + MapSum.Sum(m - (m - gone).Keys, w)
    decreases |m|
  {
    if k :| k in m {
      var less := m - {k};
      SumSplits(less, gone, w);
      MapSum.Remove(m, w, k);
      if k in gone {
        assert m - gone == less - gone;
        var out := m - (m - gone).Keys;
        MapSum.Remove(out, w, k);
        assert out - {k} == less - (less - gone).Keys;
      } else {
        MapSum.Remove(m - gone, w, k);
        assert (m - gone) - {k} == less - gone;
        assert m - (m - gone).Keys == less - (less - gone).Keys;
      }
    } else {
      assert m == map[] && m - gone == map[];
    }
  }

  // ------------------------------------------------------------- one packet's part

  /** What the tracker of a packet's direction was when it arrived. */
  ghost function TrackerBefore(s: State, p: DecodedPacket): Tracker {
    if KeyOf(p) in s.table.flows then Dir(s.table.flows[KeyOf(p)], Forward(p)).tracker else UNTRACKED
  }

  predicate Carries(e: Step) {
    e.Packet? && Accepts(e.p) && e.p.l4 == TCP && |e.p.payload| > 0
  }

  lemma UpdateAdds(cfg: Config, f: FlowState, p: DecodedPacket)
    ensures var g, t := UpdateFlow(cfg, f, p), Dir(f, Forward(p)).tracker;
            && Resends(g) == Resends(f) + One(p.l4 == TCP && JudgedResend(t, p))
            && Disordered(g) == Disordered(f) + One(p.l4 == TCP && JudgedOutOfOrder(t, p))
  {
    UpdateMoves(cfg, f, p);
    assert DirectionMoved(f.fwd, UpdateFlow(cfg, f, p).fwd, p, true) by {
      assert DirectionMoved(Dir(f, true), Dir(UpdateFlow(cfg, f, p), true), p, true);
    }
    assert DirectionMoved(f.rev, UpdateFlow(cfg, f, p).rev, p, false) by {
      assert DirectionMoved(Dir(f, false), Dir(UpdateFlow(cfg, f, p), false), p, false);
    }
    TrackAdds(Dir(f, Forward(p)).tracker, p);
  }

  lemma TrackAdds(t: Tracker, p: DecodedPacket)
    ensures Track(t, p).retransmits == t.retransmits + One(JudgedResend(t, p))
    ensures Track(t, p).outOfOrder == t.outOfOrder + One(JudgedOutOfOrder(t, p))
  {
  }

  /** The flow an accepted packet updates: its own, or a new one. */
  function Target(tb: Table, p: DecodedPacket): FlowState {
    if KeyOf(p) in tb.flows then tb.flows[KeyOf(p)] else NewFlow(tb.totals.nextId + 1, p)
  }

  lemma ArrivalParts(cfg: Config, tb: Table, p: DecodedPacket)
    ensures var after := FlowModel.Arrive(cfg, tb, p);
            && after.flows == tb.flows[KeyOf(p) := UpdateFlow(cfg, Target(tb, p), p)]
            && after.totals.retransmits == tb.totals.retransmits
               + One(p.l4 == TCP && JudgedResend(Dir(Target(tb, p), Forward(p)).tracker, p))
            && after.totals.outOfOrder == tb.totals.outOfOrder
               + One(p.l4 == TCP && JudgedOutOfOrder(Dir(Target(tb, p), Forward(p)).tracker, p))
            && after.totals.dataSegments == tb.totals.dataSegments + One(p.l4 == TCP && |p.payload| > 0)
            && after.totals.nextId == tb.totals.nextId + One(KeyOf(p) !in tb.flows)
  {
  }

  /** Eviction and one packet: the sum over live and removed flows grows by what the packet adds. */
  lemma ArrivalMoves(cfg: Config, tb: Table, evicted: set<FlowKey>, p: DecodedPacket, w: FlowState -> nat, d: nat)
    requires KeyOf(p) !in evicted
    requires var f := Target(Table(tb.flows - evicted, tb.totals), p);
             w(UpdateFlow(cfg, f, p)) == w(f) + d && (KeyOf(p) !in tb.flows ==> w(f) == 0)
    ensures var after := FlowModel.Arrive(cfg, Table(tb.flows - evicted, tb.totals), p).flows;
            MapSum.Sum(after, w) + MapSum.Sum(tb.flows - after.Keys, w) == MapSum.Sum(tb.flows, w) + d
  {
    var left := Table(tb.flows - evicted, tb.totals);
    ArrivalParts(cfg, left, p);
    MapSum.Put(left.flows, w, KeyOf(p), UpdateFlow(cfg, Target(left, p), p));
    SumSplits(tb.flows, evicted, w);
    var after := FlowModel.Arrive(cfg, left, p).flows;
    assert tb.flows - after.Keys == tb.flows - left.flows.Keys;
  }

  /** Any other step only removes flows. */
  lemma RemovalMoves(others: Dissectors, s: State, e: Step, w: FlowState -> nat)
    requires !(e.Packet? && Accepts(e.p))
    ensures MapSum.Sum(Next(others, s, e).table.flows, w) + MapSum.Sum(Removed(others, s, e), w)
            == MapSum.Sum(s.table.flows, w)
  {
    var before, after := s.table.flows, Next(others, s, e).table.flows;
    SumSplits(before, before.Keys - after.Keys, w);
    assert after == before - (before.Keys - after.Keys);
  }

  /** An allowed eviction never removes the flow of the packet it makes room for. */
  lemma EvictionSparesKey(maxFlows: nat, s: State, e: Step)
    requires Allowed(maxFlows, s, e) && e.Packet? && Accepts(e.p)
    ensures KeyOf(e.p) !in e.evicted
  {
  }

  lemma ArrivalBalances(others: Dissectors, maxFlows: nat, init: seq<Step>, e: Step)
    requires Allowed(maxFlows, After(others, init), e) && e.Packet? && Accepts(e.p)
    ensures var s := After(others, init);
            var before, after := s.table, Next(others, s, e).table;
            && after.totals.retransmits - before.totals.retransmits ==
               MapSum.Sum(after.flows, Resends) + MapSum.Sum(Removed(others, s, e), Resends) - MapSum.Sum(before.flows, Resends)
            && after.totals.outOfOrder - before.totals.outOfOrder ==
               MapSum.Sum(after.flows, Disordered) + MapSum.Sum(Removed(others, s, e), Disordered)
               - MapSum.Sum(before.flows, Disordered)
  {
    var s := After(others, init);
    var cfg, left := Config(others, s.enabled), Table(s.table.flows - e.evicted, s.table.totals);
    EvictionSparesKey(maxFlows, s, e);
    var f := Target(left, e.p);
    UpdateAdds(cfg, f, e.p);
    ArrivalParts(cfg, left, e.p);
    var t := Dir(f, Forward(e.p)).tracker;
    ArrivalMoves(cfg, s.table, e.evicted, e.p, Resends, One(e.p.l4 == TCP && JudgedResend(t, e.p)));
    ArrivalMoves(cfg, s.table, e.evicted, e.p, Disordered, One(e.p.l4 == TCP && JudgedOutOfOrder(t, e.p)));
  }

  /** At every moment of every run, the table-wide retransmission and reordering counts are the sums over the
      flows in the table and the flows that left it. */
  lemma {:induction false} TotalsConserved(others: Dissectors, maxFlows: nat, run: seq<Step>)
    requires Possible(others, maxFlows, run)
    ensures var t := After(others, run).table.totals;
            && t.retransmits == Live(others, run, Resends) + Retired(others, run, Resends)
            && t.outOfOrder == Live(others, run, Disordered) + Retired(others, run, Disordered)
  {
    if run != [] {
      var init, e := run[..|run| - 1], run[|run| - 1];
      TotalsConserved(others, maxFlows, init);
      if e.Packet? && Accepts(e.p) {
        ArrivalBalances(others, maxFlows, init, e);
      } else {
        RemovalMoves(others, After(others, init), e, Resends);
        RemovalMoves(others, After(others, init), e, Disordered);
      }
    }
  }

  // ------------------------------------------------------- every segment is judged

  ghost predicate ArrivesInOrder(s: State, e: Step) {
    Carries(e) && JudgedInOrder(TrackerBefore(s, e.p), e.p)
  }

  /** TCP segments with payload in the run, and those of them judged in order as they came. */
  function DataArrivals(run: seq<Step>): nat {
    if run == [] then 0 else DataArrivals(run[..|run| - 1]) + One(Carries(run[|run| - 1]))
  }

  ghost function InOrderArrivals(others: Dissectors, run: seq<Step>): nat {
    if run == [] then 0
    else
      var init := run[..|run| - 1];
      InOrderArrivals(others, init) + One(ArrivesInOrder(After(others, init), run[|run| - 1]))
  }

  lemma OneVerdict(t: Tracker, p: DecodedPacket)
    ensures One(|p.payload| > 0) == One(JudgedInOrder(t, p)) + One(JudgedOutOfOrder(t, p)) + One(JudgedResend(t, p))
  {
  }

  /** Every data segment ever accepted was counted once, and is in exactly one of: in order, out of order,
      retransmitted. */
  lemma {:induction false} EverySegmentJudgedOnce(others: Dissectors, maxFlows: nat, run: seq<Step>)
    requires Possible(others, maxFlows, run)
    ensures var t := After(others, run).table.totals;
            && t.dataSegments == DataArrivals(run)
            && t.dataSegments == InOrderArrivals(others, run) + t.outOfOrder + t.retransmits
  {
    if run != [] {
      var init, e := run[..|run| - 1], run[|run| - 1];
      var s := After(others, init);
      EverySegmentJudgedOnce(others, maxFlows, init);
      if e.Packet? && Accepts(e.p) {
        ArrivalIsJudged(others, maxFlows, s, e);
      }
    }
  }

  lemma ArrivalIsJudged(others: Dissectors, maxFlows: nat, s: State, e: Step)
    requires Allowed(maxFlows, s, e) && e.Packet? && Accepts(e.p)
    ensures var before, after := s.table.totals, Next(others, s, e).table.totals;
            && after.dataSegments - before.dataSegments == One(Carries(e))
            && One(Carries(e)) == One(ArrivesInOrder(s, e)) + (after.outOfOrder - before.outOfOrder)
               + (after.retransmits - before.retransmits)
  {
    var left := Table(s.table.flows - e.evicted, s.table.totals);
    EvictionSparesKey(maxFlows, s, e);
    ArrivalParts(Config(others, s.enabled), left, e.p);
    assert Dir(Target(left, e.p), Forward(e.p)).tracker == TrackerBefore(s, e.p);
    OneVerdict(TrackerBefore(s, e.p), e.p);
  }

  // ------------------------------------------------------------------ round trips

  function Sampled(f: FlowState): nat {
    f.fwd.sender.rtt.samples + f.rev.sender.rtt.samples
  }

  /** An acknowledgement from `p` times the front of its peer's queue. */
  predicate Times(f: FlowState, p: DecodedPacket) {
    p.l4 == TCP && p.flags.ack && RoundTrip.Covered(Dir(f, !Forward(p)).sender.queue, p.ack) > 0
  }

  predicate TimesPlausibly(f: FlowState, p: DecodedPacket) {
    Times(f, p) && 0 <= p.ts - Dir(f, !Forward(p)).sender.queue[0].at <= 60000000
  }

  predicate TimesHandshake(f: FlowState, p: DecodedPacket) {
    p.l4 == TCP && RoundTrip.Measures(f.shake, p.flags.syn, p.flags.ack)
  }

  /** A packet adds one sample to its flow exactly when it times a plausible delay. */
  lemma UpdateSamples(cfg: Config, f: FlowState, p: DecodedPacket)
    ensures Sampled(UpdateFlow(cfg, f, p)) == Sampled(f) + One(TimesPlausibly(f, p))
  {
    var g := UpdateFlow(cfg, f, p);
    UpdateMoves(cfg, f, p);
    assert DirectionMoved(Dir(f, Forward(p)), Dir(g, Forward(p)), p, Forward(p));
    assert DirectionMoved(Dir(f, !Forward(p)), Dir(g, !Forward(p)), p, !Forward(p));
    assert Sampled(f) == Dir(f, Forward(p)).sender.rtt.samples + Dir(f, !Forward(p)).sender.rtt.samples;
    assert Sampled(g) == Dir(g, Forward(p)).sender.rtt.samples + Dir(g, !Forward(p)).sender.rtt.samples;
    HeardSamples(Dir(f, !Forward(p)).sender, p);
  }

  lemma HeardSamples(s: RoundTrip.Sender, p: DecodedPacket)
    ensures Heard(s, p).rtt.samples == s.rtt.samples +
            One(p.flags.ack && RoundTrip.Covered(s.queue, p.ack) > 0
                && 0 <= p.ts - s.queue[0].at <= 60000000)
  {
    RoundTripTheorems.AckTakesDelay(s, p.ack, p.ts);
  }

  /** The total also counts a handshake, and an implausible delay. */
  lemma ArrivalTimes(cfg: Config, tb: Table, p: DecodedPacket)
    ensures FlowModel.Arrive(cfg, tb, p).totals.rttSamples == tb.totals.rttSamples
            + One(TimesHandshake(Target(tb, p), p)) + One(Times(Target(tb, p), p))
  {
  }

  /** Handshakes measured in the run. */
  ghost function Handshakes(others: Dissectors, run: seq<Step>): nat {
    if run == [] then 0
    else
      var init, e := run[..|run| - 1], run[|run| - 1];
      Handshakes(others, init) +
      One(e.Packet? && Accepts(e.p) && TimesHandshake(Target(After(others, init).table, e.p), e.p))
  }

  /** Delays timed in the run that were too implausible to be smoothed. */
  ghost function Rejected(others: Dissectors, run: seq<Step>): nat {
    if run == [] then 0
    else
      var init, e := run[..|run| - 1], run[|run| - 1];
      var s := After(others, init);
      Rejected(others, init) +
      One(e.Packet? && Accepts(e.p) && Times(Target(s.table, e.p), e.p) && !TimesPlausibly(Target(s.table, e.p), e.p))
  }

  /** The table-wide sample total is what live and retired flows accepted, plus the handshakes measured and the delays
      rejected as implausible. */
  lemma {:induction false} SamplesConserved(others: Dissectors, maxFlows: nat, run: seq<Step>)
    requires Possible(others, maxFlows, run)
    ensures After(others, run).table.totals.rttSamples ==
            Live(others, run, Sampled) + Retired(others, run, Sampled) + Handshakes(others, run) + Rejected(others, run)
  {
    if run != [] {
      var init, e := run[..|run| - 1], run[|run| - 1];
      var s := After(others, init);
      SamplesConserved(others, maxFlows, init);
      if e.Packet? && Accepts(e.p) {
        ArrivalSamples(others, maxFlows, s, e);
      } else {
        RemovalMoves(others, s, e, Sampled);
      }
    }
  }

  lemma ArrivalSamples(others: Dissectors, maxFlows: nat, s: State, e: Step)
    requires Allowed(maxFlows, s, e) && e.Packet? && Accepts(e.p)
    ensures var f := Target(s.table, e.p);
            && MapSum.Sum(Next(others, s, e).table.flows, Sampled) + MapSum.Sum(Removed(others, s, e), Sampled)
               == MapSum.Sum(s.table.flows, Sampled) + One(TimesPlausibly(f, e.p))
            && Next(others, s, e).table.totals.rttSamples == s.table.totals.rttSamples
               + One(TimesHandshake(f, e.p)) + One(Times(f, e.p))
  {
    var cfg, left := Config(others, s.enabled), Table(s.table.flows - e.evicted, s.table.totals);
    EvictionSparesKey(maxFlows, s, e);
    var f := Target(left, e.p);
    assert f == Target(s.table, e.p);
    UpdateSamples(cfg, f, e.p);
    ArrivalTimes(cfg, left, e.p);
    ArrivalMoves(cfg, s.table, e.evicted, e.p, Sampled, One(TimesPlausibly(f, e.p)));
  }

  // ---------------------------------------------------------------- size and names

  ghost predicate WellFormed(maxFlows: nat, tb: Table) {
    && |tb.flows| <= maxFlows
    && Keyed(tb.flows, tb.totals.nextId) && DistinctIds(tb.flows)
  }

  ghost predicate Keyed(m: map<FlowKey, FlowState>, last: nat) {
    forall k | k in m :: m[k].key == k && 1 <= m[k].id <= last
  }

  lemma PutKeyed(m: map<FlowKey, FlowState>, last: nat, next: nat, key: FlowKey, g: FlowState)
    requires Keyed(m, last) && last <= next && g.key == key && 1 <= g.id <= next
    ensures Keyed(m[key := g], next)
  {
  }

  ghost predicate DistinctIds(m: map<FlowKey, FlowState>) {
    forall j, k | j in m && k in m && j != k :: m[j].id != m[k].id
  }

  lemma PutDistinct(m: map<FlowKey, FlowState>, key: FlowKey, g: FlowState)
    requires DistinctIds(m) && forall k | k in m && k != key :: m[k].id != g.id
    ensures DistinctIds(m[key := g])
  {
    var n := m[key := g];
    forall j, k | j in n && k in n && j != k
      ensures n[j].id != n[k].id
    {
      if j != key && k != key {
        assert j in m && k in m;
      }
    }
  }

  lemma FewerFlows(maxFlows: nat, m: map<FlowKey, FlowState>, n: map<FlowKey, FlowState>)
    requires n.Keys <= m.Keys
    ensures |n| <= |m|
  {
    Cardinality(n.Keys, m.Keys);
  }

  lemma {:induction false} Cardinality<T>(a: set<T>, b: set<T>)
    requires a <= b
    ensures |a| <= |b|
  {
    if x :| x in a {
      Cardinality(a - {x}, b - {x});
    }
  }

  /** The table never outgrows its limit and its flows keep their own keys and distinct identifiers. */
  lemma {:induction false} TableStaysBounded(others: Dissectors, maxFlows: nat, run: seq<Step>)
    requires maxFlows >= 1 && Possible(others, maxFlows, run)
    ensures WellFormed(maxFlows, After(others, run).table)
  {
    if run != [] {
      var init, e := run[..|run| - 1], run[|run| - 1];
      var s := After(others, init);
      TableStaysBounded(others, maxFlows, init);
      if e.Packet? && Accepts(e.p) {
        ArrivalStaysBounded(others, maxFlows, s, e);
      } else {
        FewerFlows(maxFlows, s.table.flows, Next(others, s, e).table.flows);
      }
    }
  }

  lemma EvictionMakesRoom(maxFlows: nat, tb: Table, key: FlowKey, evicted: set<FlowKey>)
    requires maxFlows >= 1 && WellFormed(maxFlows, tb) && Evictable(tb, maxFlows, key, evicted)
    ensures var left := Table(tb.flows - evicted, tb.totals);
            WellFormed(maxFlows, left) && (key in left.flows || |left.flows| < maxFlows)
  {
    assert (tb.flows - evicted).Keys == tb.flows.Keys - evicted;
    FewerFlows(maxFlows, tb.flows, tb.flows - evicted);
  }

  lemma PutStaysBounded(maxFlows: nat, before: Table, after: Table, key: FlowKey, g: FlowState)
    requires WellFormed(maxFlows, before) && (key in before.flows || |before.flows| < maxFlows)
    requires after.flows == before.flows[key := g] && g.key == key
    requires if key in before.flows then g.id == before.flows[key].id && after.totals.nextId == before.totals.nextId
             else g.id == before.totals.nextId + 1 == after.totals.nextId
    ensures WellFormed(maxFlows, after)
  {
    assert after.flows.Keys == before.flows.Keys + {key};
    PutKeyed(before.flows, before.totals.nextId, after.totals.nextId, key, g);
    PutDistinct(before.flows, key, g);
  }

  lemma ArrivalStaysBounded(others: Dissectors, maxFlows: nat, s: State, e: Step)
    requires maxFlows >= 1 && WellFormed(maxFlows, s.table) && Allowed(maxFlows, s, e) && e.Packet? && Accepts(e.p)
    ensures WellFormed(maxFlows, Next(others, s, e).table)
  {
    var cfg, left := Config(others, s.enabled), Table(s.table.flows - e.evicted, s.table.totals);
    EvictionMakesRoom(maxFlows, s.table, KeyOf(e.p), e.evicted);
    ArrivalParts(cfg, left, e.p);
    UpdateMoves(cfg, Target(left, e.p), e.p);
    PutStaysBounded(maxFlows, left, FlowModel.Arrive(cfg, left, e.p), KeyOf(e.p), UpdateFlow(cfg, Target(left, e.p), e.p));
  }

  /** A packet removes at most one flow, only from a full table, and one that no other was seen before. */
  lemma EvictsLeastRecent(others: Dissectors, maxFlows: nat, s: State, e: Step)
    requires Allowed(maxFlows, s, e) && e.Packet?
    ensures var gone := Removed(others, s, e);
            gone == map[] || (Accepts(e.p) && KeyOf(e.p) !in s.table.flows && |s.table.flows| >= maxFlows
                              && exists v :: gone.Keys == {v} && LeastRecent(s.table, v))
  {
    if Accepts(e.p) {
      var cfg, left := Config(others, s.enabled), Table(s.table.flows - e.evicted, s.table.totals);
      ArrivalParts(cfg, left, e.p);
      EvictionSparesKey(maxFlows, s, e);
      var gone := Removed(others, s, e);
      assert gone.Keys == s.table.flows.Keys * e.evicted;
      if gone != map[] {
        var v :| e.evicted == {v} && LeastRecent(s.table, v);
        assert gone.Keys == {v};
      }
    }
  }

  /** In the flows' own packets: what leaves for a packet leaves a full table to a new conversation, alone, and no flow
      heard its last packet before it did. */
  lemma EvictedIsStalest(others: Dissectors, maxFlows: nat, run: seq<Step>, p: DecodedPacket, evicted: set<FlowKey>, v: FlowKey)
    requires Possible(others, maxFlows, run + [Packet(p, evicted)])
    requires v in FlowsAfter(others, run) && v !in FlowsAfter(others, run + [Packet(p, evicted)])
    ensures var before, after := FlowsAfter(others, run), FlowsAfter(others, run + [Packet(p, evicted)]);
            && |before| >= maxFlows && KeyOf(p) !in before && (forall k | k in before && k != v :: k in after)
            && Log(others, run, v) != []
            && forall k | k in before ::
                 Log(others, run, k) != [] && LastSeen(Log(others, run, v)) <= LastSeen(Log(others, run, k))
  {
    var s, e := After(others, run), Packet(p, evicted);
    assert (run + [e])[..|run|] == run;
    EvictsLeastRecent(others, maxFlows, s, e);
    assert v in Removed(others, s, e);
    var w :| Removed(others, s, e).Keys == {w} && LeastRecent(s.table, w);
    assert w == v;
    forall k | k in s.table.flows
      ensures Log(others, run, k) != [] && s.table.flows[k].lastSeen == LastSeen(Log(others, run, k))
    {
      FlowIsItsLog(others, maxFlows, run, k);
    }
    forall k | k in s.table.flows && k != v ensures k in FlowsAfter(others, run + [e]) {
      assert k !in Removed(others, s, e);
    }
  }

  // ------------------------------------------------------- named flows are counted

  /** The other dissectors name a protocol whenever they answer. */
  ghost predicate Naming(o: Dissectors) {
    && (forall d {:trigger o.http(d)} :: o.http(d).Identified())
    && (forall d {:trigger o.ssh(d)} :: o.ssh(d).Identified())
    && (forall d {:trigger o.dns(d)} :: o.dns(d).Some? ==> o.dns(d).value.Identified())
    && (forall d, sport, dport {:trigger o.udp(d, sport, dport)} ::
          o.udp(d, sport, dport).Some? ==> o.udp(d, sport, dport).value.Identified())
  }

  lemma TlsNames(data: seq<byte>)
    ensures TlsHello.Dissected(data).Some? ==> TlsHello.Dissected(data).value.Identified()
  {
  }

  lemma StreamNames(o: Dissectors, prefix: seq<byte>, sport: nat, dport: nat)
    requires Naming(o)
    ensures DissectStream(o, prefix, sport, dport).Some? ==> DissectStream(o, prefix, sport, dport).value.Identified()
  {
    TlsNames(prefix);
  }

  /** The protocol to count when a label changes: that of the first one. */
  function FirstNamed(before: AppInfo, after: AppInfo): Option<AppProtocol> {
    if !before.Identified() && after.Identified() then Some(after.proto) else None
  }

  lemma DeliveryNames(cfg: Config, app: AppInfo, delivered: nat, t: Reassembly.Stream, p: DecodedPacket)
    requires Naming(cfg.others)
    ensures var i := InspectDelivery(cfg, app, delivered, t, p);
            i.counted == FirstNamed(app, i.app) && (app.Identified() ==> i.app.Identified())
  {
    StreamNames(cfg.others, t.prefix, p.sport, p.dport);
  }

  lemma InspectionNames(cfg: Config, app: AppInfo, stream: Option<Reassembly.Stream>, p: DecodedPacket)
    requires Naming(cfg.others)
    ensures var i := Inspect(cfg, app, stream, p);
            i.counted == FirstNamed(app, i.app) && (app.Identified() ==> i.app.Identified())
  {
    var before := if stream.Some? then stream.value else Reassembly.EMPTY;
    DeliveryNames(cfg, app, before.delivered, Reassembly.Push(STREAM_CAPS, before, p.sn, p.payload, p.flags.syn), p);
  }

  /** What this packet makes the table count. */
  ghost function NewlyNamed(cfg: Config, f: FlowState, p: DecodedPacket): Option<AppProtocol> {
    Inspect(cfg, f.app, Dir(f, Forward(p)).stream, p).counted
  }

  lemma TransportKeepsLabel(f: FlowState, p: DecodedPacket)
    ensures var g := Transported(f, p, Forward(p));
            g.app == f.app && Dir(g, Forward(p)).stream == Dir(f, Forward(p)).stream
  {
  }

  lemma UpdateNames(cfg: Config, f: FlowState, p: DecodedPacket)
    requires Naming(cfg.others)
    ensures NewlyNamed(cfg, f, p) == FirstNamed(f.app, UpdateFlow(cfg, f, p).app)
    ensures f.app.Identified() ==> UpdateFlow(cfg, f, p).app.Identified()
    ensures Named(UpdateFlow(cfg, f, p)) == Named(f) + One(NewlyNamed(cfg, f, p).Some?)
  {
    TransportKeepsLabel(f, p);
    InspectionNames(cfg, f.app, Dir(f, Forward(p)).stream, p);
  }

  lemma BumpAddsOne(m: map<AppProtocol, nat>, key: Option<AppProtocol>)
    ensures MapSum.Sum(Bump(m, key), Itself) == MapSum.Sum(m, Itself) + One(key.Some?)
  {
    if key.Some? {
      MapSum.Put(m, Itself, key.value, (if key.value in m then m[key.value] else 0) + 1);
    }
  }

  lemma ArrivalCounts(cfg: Config, tb: Table, p: DecodedPacket)
    ensures FlowModel.Arrive(cfg, tb, p).totals.appCounts == Bump(tb.totals.appCounts, NewlyNamed(cfg, Target(tb, p), p))
  {
  }

  /** As `Retired`, but forgotten when the table is cleared. */
  ghost function RetiredSinceClear(others: Dissectors, run: seq<Step>, w: FlowState -> nat): nat {
    if run == [] || run[|run| - 1].Clear? then 0
    else
      var init := run[..|run| - 1];
      RetiredSinceClear(others, init, w) + MapSum.Sum(Removed(others, After(others, init), run[|run| - 1]), w)
  }

  /** The per-protocol counts add up to the flows that were ever named since the last clear: each is counted once,
      by its first name, and relabelling counts nothing. */
  lemma {:induction false} NamedFlowsCountedOnce(others: Dissectors, maxFlows: nat, run: seq<Step>)
    requires Naming(others) && Possible(others, maxFlows, run)
    ensures MapSum.Sum(After(others, run).table.totals.appCounts, Itself) ==
            Live(others, run, Named) + RetiredSinceClear(others, run, Named)
  {
    if run != [] {
      var init, e := run[..|run| - 1], run[|run| - 1];
      var s := After(others, init);
      NamedFlowsCountedOnce(others, maxFlows, init);
      if e.Packet? && Accepts(e.p) {
        var cfg, left := Config(others, s.enabled), Table(s.table.flows - e.evicted, s.table.totals);
        var f := Target(left, e.p);
        EvictionSparesKey(maxFlows, s, e);
        UpdateNames(cfg, f, e.p);
        ArrivalMoves(cfg, s.table, e.evicted, e.p, Named, One(NewlyNamed(cfg, f, e.p).Some?));
        ArrivalCounts(cfg, left, e.p);
        BumpAddsOne(left.totals.appCounts, NewlyNamed(cfg, f, e.p));
      } else if !e.Clear? {
        RemovalMoves(others, s, e, Named);
      }
    }
  }

  // ------------------------------------------------------------ counted per protocol

  /** What a flow was first named, given what it was first named so far. */
  function Recall(first: Option<AppProtocol>, app: AppInfo): Option<AppProtocol> {
    if first.None? && app.Identified() then Some(app.proto) else first
  }

  function Noted(names: map<FlowKey, Option<AppProtocol>>, k: FlowKey): Option<AppProtocol> {
    if k in names then names[k] else None
  }

  ghost function Renoted(names: map<FlowKey, Option<AppProtocol>>, flows: map<FlowKey, FlowState>): map<FlowKey, Option<AppProtocol>> {
    map k | k in flows :: Recall(Noted(names, k), flows[k].app)
  }

  /** The first name of every live flow, kept outside the table. */
  ghost function FirstNames(others: Dissectors, run: seq<Step>): map<FlowKey, Option<AppProtocol>> {
    if run == [] then map[] else Renoted(FirstNames(others, run[..|run| - 1]), FlowsAfter(others, run))
  }

  function Same(x: AppProtocol): Option<AppProtocol> -> nat {
    first => One(first == Some(x))
  }

  /** How many flows first named `x` have left since the last clear. */
  ghost function Departed(others: Dissectors, run: seq<Step>, x: AppProtocol): nat {
    if run == [] || run[|run| - 1].Clear? then 0
    else
      var init := run[..|run| - 1];
      Departed(others, init, x) + MapSum.Sum(FirstNames(others, init) - FlowsAfter(others, run).Keys, Same(x))
  }

  function CountOf(m: map<AppProtocol, nat>, x: AppProtocol): nat {
    if x in m then m[x] else 0
  }

  /** The names noted are those of the live flows. */
  ghost predicate NamesFit(names: map<FlowKey, Option<AppProtocol>>, flows: map<FlowKey, FlowState>) {
    names.Keys == flows.Keys && forall k | k in names :: names[k].Some? <==> flows[k].app.Identified()
  }

  lemma FewerNotes(names: map<FlowKey, Option<AppProtocol>>, flows: map<FlowKey, FlowState>, after: map<FlowKey, FlowState>)
    requires NamesFit(names, flows) && forall k | k in after :: k in flows && after[k] == flows[k]
    ensures NamesFit(Renoted(names, after), after) && Renoted(names, after) == names - (names - after.Keys).Keys
  {
  }

  /** Removing flows forgets their names and no other. */
  lemma RemovalForgets(others: Dissectors, init: seq<Step>, e: Step)
    requires NamesFit(FirstNames(others, init), FlowsAfter(others, init)) && !(e.Packet? && Accepts(e.p))
    ensures var names, after := FirstNames(others, init), FlowsAfter(others, init + [e]);
            && NamesFit(FirstNames(others, init + [e]), after)
            && FirstNames(others, init + [e]) == names - (names - after.Keys).Keys
  {
    assert (init + [e])[..|init|] == init;
    FewerNotes(FirstNames(others, init), FlowsAfter(others, init), FlowsAfter(others, init + [e]));
  }

  lemma PutNotes(names: map<FlowKey, Option<AppProtocol>>, flows: map<FlowKey, FlowState>, gone: set<FlowKey>,
                 k: FlowKey, before: AppInfo, g: FlowState)
    requires NamesFit(names, flows) && k !in gone
    requires before == (if k in flows then flows[k].app else UNIDENTIFIED) && (before.Identified() ==> g.app.Identified())
    ensures var after, newly := (flows - gone)[k := g], FirstNamed(before, g.app);
            && NamesFit(Renoted(names, after), after)
            && (newly.Some? ==> Noted(names, k).None?)
            && Renoted(names, after) == (names - gone)[k := if newly.Some? then newly else Noted(names, k)]
  {
  }

  /** A packet keeps the names of the flows it spares, and names its own if it was not named before. */
  lemma ArrivalNotes(others: Dissectors, maxFlows: nat, init: seq<Step>, e: Step)
    requires Naming(others) && NamesFit(FirstNames(others, init), FlowsAfter(others, init))
    requires Allowed(maxFlows, After(others, init), e) && e.Packet? && Accepts(e.p)
    ensures var s, names := After(others, init), FirstNames(others, init);
            var f := Target(Table(s.table.flows - e.evicted, s.table.totals), e.p);
            var newly := NewlyNamed(Config(others, s.enabled), f, e.p);
            && NamesFit(FirstNames(others, init + [e]), FlowsAfter(others, init + [e]))
            && (newly.Some? ==> Noted(names, KeyOf(e.p)).None?)
            && FirstNames(others, init + [e]) ==
               (names - e.evicted)[KeyOf(e.p) := if newly.Some? then newly else Noted(names, KeyOf(e.p))]
  {
    assert (init + [e])[..|init|] == init;
    var s, names := After(others, init), FirstNames(others, init);
    var cfg, left := Config(others, s.enabled), Table(s.table.flows - e.evicted, s.table.totals);
    var f := Target(left, e.p);
    EvictionSparesKey(maxFlows, s, e);
    ArrivalParts(cfg, left, e.p);
    UpdateNames(cfg, f, e.p);
    PutNotes(names, s.table.flows, e.evicted, KeyOf(e.p), f.app, UpdateFlow(cfg, f, e.p));
  }

  /** Putting in a first name moves the sum by what is new. */
  lemma NotingMoves(names: map<FlowKey, Option<AppProtocol>>, gone: set<FlowKey>, k: FlowKey, newly: Option<AppProtocol>, x: AppProtocol)
    requires k !in gone && (newly.Some? ==> Noted(names, k).None?)
    ensures var after := (names - gone)[k := if newly.Some? then newly else Noted(names, k)];
            MapSum.Sum(after, Same(x)) + MapSum.Sum(names - after.Keys, Same(x))
            == MapSum.Sum(names, Same(x)) + One(newly == Some(x))
  {
    var left, first := names - gone, if newly.Some? then newly else Noted(names, k);
    MapSum.Put(left, Same(x), k, first);
    SumSplits(names, gone, Same(x));
    assert names - left[k := first].Keys == names - left.Keys;
  }

  lemma BumpCounts(m: map<AppProtocol, nat>, key: Option<AppProtocol>, x: AppProtocol)
    ensures CountOf(Bump(m, key), x) == CountOf(m, x) + One(key == Some(x))
  {
  }

  /** The count shown for each protocol is the number of flows, live or gone since the last clear, whose first name it
      was; what a flow is called later counts nothing. */
  lemma {:induction false} ProtocolsCountFirstNames(others: Dissectors, maxFlows: nat, run: seq<Step>, x: AppProtocol)
    requires Naming(others) && Possible(others, maxFlows, run)
    ensures NamesFit(FirstNames(others, run), FlowsAfter(others, run))
    ensures CountOf(After(others, run).table.totals.appCounts, x) ==
            MapSum.Sum(FirstNames(others, run), Same(x)) + Departed(others, run, x)
  {
    if run != [] {
      var init, e := run[..|run| - 1], run[|run| - 1];
      assert run == init + [e];
      ProtocolsCountFirstNames(others, maxFlows, init, x);
      if e.Packet? && Accepts(e.p) {
        ArrivalCountsFirst(others, maxFlows, init, e, x);
      } else {
        RemovalCountsFirst(others, init, e, x);
      }
    }
  }

  lemma ArrivalCountsFirst(others: Dissectors, maxFlows: nat, init: seq<Step>, e: Step, x: AppProtocol)
    requires Naming(others) && NamesFit(FirstNames(others, init), FlowsAfter(others, init))
    requires Allowed(maxFlows, After(others, init), e) && e.Packet? && Accepts(e.p)
    ensures var run, names := init + [e], FirstNames(others, init);
            && NamesFit(FirstNames(others, run), FlowsAfter(others, run))
            && CountOf(After(others, run).table.totals.appCounts, x) - CountOf(After(others, init).table.totals.appCounts, x)
               == MapSum.Sum(FirstNames(others, run), Same(x)) - MapSum.Sum(names, Same(x))
                  + MapSum.Sum(names - FlowsAfter(others, run).Keys, Same(x))
  {
    var s, names := After(others, init), FirstNames(others, init);
    var cfg, left := Config(others, s.enabled), Table(s.table.flows - e.evicted, s.table.totals);
    var newly := NewlyNamed(cfg, Target(left, e.p), e.p);
    assert (init + [e])[..|init|] == init;
    ArrivalNotes(others, maxFlows, init, e);
    EvictionSparesKey(maxFlows, s, e);
    NotingMoves(names, e.evicted, KeyOf(e.p), newly, x);
    ArrivalCounts(cfg, left, e.p);
    BumpCounts(left.totals.appCounts, newly, x);
  }

  lemma RemovalCountsFirst(others: Dissectors, init: seq<Step>, e: Step, x: AppProtocol)
    requires NamesFit(FirstNames(others, init), FlowsAfter(others, init)) && !(e.Packet? && Accepts(e.p))
    ensures var run, names := init + [e], FirstNames(others, init);
            && NamesFit(FirstNames(others, run), FlowsAfter(others, run))
            && MapSum.Sum(FirstNames(others, run), Same(x)) + MapSum.Sum(names - FlowsAfter(others, run).Keys, Same(x))
               == MapSum.Sum(names, Same(x))
            && (e.Clear? ==> CountOf(After(others, run).table.totals.appCounts, x) == 0
                             && MapSum.Sum(FirstNames(others, run), Same(x)) == 0)
            && (!e.Clear? ==> After(others, run).table.totals.appCounts == After(others, init).table.totals.appCounts)
  {
    assert (init + [e])[..|init|] == init;
    var names, after := FirstNames(others, init), FlowsAfter(others, init + [e]);
    RemovalForgets(others, init, e);
    SumSplits(names, (names - after.Keys).Keys, Same(x));
    assert names - (names - (names - after.Keys).Keys).Keys == names - after.Keys;
  }
}
