/** The observational TCP connection state of a flow, and what a state says about the whole history
    of packets that led to it. */
module TcpStates {
  datatype TcpState = None | SynSent | SynReceived | Established | FinWait | Closing | Closed | Reset

  datatype Flags = Flags(fin: bool, syn: bool, rst: bool, ack: bool)

  /** One step of the state machine; the FIN counters already include this packet. */
  function Advance(state: TcpState, handshake: bool, f: Flags, forward: bool, finFwd: nat, finRev: nat): (TcpState, bool) {
    if f.rst then (Reset, handshake)
    else match state
      case None =>
        (if f.syn && !f.ack then SynSent else if f.syn && f.ack then SynReceived else Established, handshake)
      case SynSent => (if f.syn && f.ack then SynReceived else SynSent, handshake)
      case SynReceived => if f.ack && !f.syn then (Established, true) else (SynReceived, handshake)
      case Established => (if f.fin then FinWait else Established, handshake)
      case FinWait =>
        (if f.fin && (if forward then finRev else finFwd) > 0 then Closing else FinWait, handshake)
      case Closing => (if f.ack && !f.fin then Closed else Closing, handshake)
      case Closed => if f.syn && !f.ack then (SynSent, false) else (state, handshake)
      case Reset => if f.syn && !f.ack then (SynSent, false) else (state, handshake)
  }

  datatype Packet = Packet(f: Flags, forward: bool)

  datatype Connection = Connection(state: TcpState, handshake: bool, finFwd: nat, finRev: nat)

  const NEW: Connection := Connection(None, false, 0, 0)

  /** One packet of the flow: its FIN is counted, then the state advances. */
  function Observe(c: Connection, p: Packet): Connection {
    var finFwd := c.finFwd + if p.f.fin && p.forward then 1 else 0;
    var finRev := c.finRev + if p.f.fin && !p.forward then 1 else 0;
    var (state, handshake) := Advance(c.state, c.handshake, p.f, p.forward, finFwd, finRev);
    Connection(state, handshake, finFwd, finRev)
  }

  function Run(h: seq<Packet>): Connection {
    if h == [] then NEW else Observe(Run(h[..|h| - 1]), h[|h| - 1])
  }

  lemma RunSnoc(h: seq<Packet>, p: Packet)
    ensures Run(h + [p]) == Observe(Run(h), p)
  {
    assert (h + [p])[..|h|] == h;
  }

  predicate Terminal(s: TcpState) {
    s == Closed || s == Reset
  }

  // ------------------------------------------------- what happened at index i

  predicate FinAt(h: seq<Packet>, i: int, forward: bool) {
    0 <= i < |h| && h[i].f.fin && h[i].forward == forward
  }

  ghost predicate FinSeen(h: seq<Packet>, forward: bool) {
    exists i :: FinAt(h, i, forward)
  }

  /** An ACK without FIN, not a reset. */
  predicate FinalAckAt(h: seq<Packet>, k: int) {
    0 <= k < |h| && h[k].f.ack && !h[k].f.fin && !h[k].f.rst
  }

  predicate SynAckAt(h: seq<Packet>, i: int) {
    0 <= i < |h| && h[i].f.syn && h[i].f.ack && !h[i].f.rst
  }

  predicate NonSynAckAt(h: seq<Packet>, i: int) {
    0 <= i < |h| && h[i].f.ack && !h[i].f.syn && !h[i].f.rst
  }

  predicate RstAt(h: seq<Packet>, i: int) {
    0 <= i < |h| && h[i].f.rst
  }

  /** A fresh attempt: SYN without ACK, not a reset. */
  predicate Fresh(p: Packet) {
    p.f.syn && !p.f.ack && !p.f.rst
  }

  predicate RestartAt(h: seq<Packet>, i: int) {
    0 <= i < |h| && Fresh(h[i])
  }

  ghost predicate SynAckSeen(h: seq<Packet>) {
    exists i :: SynAckAt(h, i)
  }

  ghost predicate BothFinsThenAck(h: seq<Packet>) {
    exists i, j, k :: FinAt(h, i, true) && FinAt(h, j, false) && FinalAckAt(h, k) && i < k && j < k
  }

  ghost predicate SynAckThenAck(h: seq<Packet>) {
    exists i, j :: SynAckAt(h, i) && NonSynAckAt(h, j) && i < j
  }

  /** The last reset is more recent than any fresh attempt. */
  ghost predicate ResetStands(h: seq<Packet>) {
    exists i :: RstAt(h, i) && forall j :: RestartAt(h, j) ==> j < i
  }

  // --------------------------------------------------- histories grow at the end

  lemma Grow(h: seq<Packet>, p: Packet)
    ensures forall d :: FinSeen(h + [p], d) <==> FinSeen(h, d) || (p.f.fin && p.forward == d)
    ensures SynAckSeen(h) ==> SynAckSeen(h + [p])
    ensures p.f.syn && p.f.ack && !p.f.rst ==> SynAckSeen(h + [p])
    ensures BothFinsThenAck(h) ==> BothFinsThenAck(h + [p])
    ensures SynAckThenAck(h) ==> SynAckThenAck(h + [p])
  {
    var g := h + [p];
    forall d ensures FinSeen(g, d) <==> FinSeen(h, d) || (p.f.fin && p.forward == d) {
      if i :| FinAt(h, i, d) { assert FinAt(g, i, d); }
      if p.f.fin && p.forward == d { assert FinAt(g, |h|, d); }
      if i :| FinAt(g, i, d) { assert i == |h| || FinAt(h, i, d); }
    }
    if i :| SynAckAt(h, i) { assert SynAckAt(g, i); }
    if p.f.syn && p.f.ack && !p.f.rst { assert SynAckAt(g, |h|); }
    if i, j, k :| FinAt(h, i, true) && FinAt(h, j, false) && FinalAckAt(h, k) && i < k && j < k {
      assert FinAt(g, i, true) && FinAt(g, j, false) && FinalAckAt(g, k);
    }
    if i, j :| SynAckAt(h, i) && NonSynAckAt(h, j) && i < j {
      assert SynAckAt(g, i) && NonSynAckAt(g, j);
    }
  }

  lemma GrowClosed(h: seq<Packet>, p: Packet)
    requires FinSeen(h, true) && FinSeen(h, false) && p.f.ack && !p.f.fin && !p.f.rst
    ensures BothFinsThenAck(h + [p])
  {
    var i :| FinAt(h, i, true);
    var j :| FinAt(h, j, false);
    assert FinAt(h + [p], i, true) && FinAt(h + [p], j, false) && FinalAckAt(h + [p], |h|);
  }

  lemma GrowHandshake(h: seq<Packet>, p: Packet)
    requires SynAckSeen(h) && p.f.ack && !p.f.syn && !p.f.rst
    ensures SynAckThenAck(h + [p])
  {
    var i :| SynAckAt(h, i);
    assert SynAckAt(h + [p], i) && NonSynAckAt(h + [p], |h|);
  }

  // ------------------------------------------------------------- main results

  /** What every state of a flow says about its whole history: the FIN counters tell exactly whether
      a side ever sent one; Closing needs FINs from both sides and Closed also a later ACK without
      FIN; a complete handshake needs a SYN/ACK and a later ACK without SYN. */
  lemma {:induction false} StateTellsHistory(h: seq<Packet>)
    ensures var c := Run(h);
            && (c.state == None <==> h == [])
            && (c.finFwd > 0 <==> FinSeen(h, true))
            && (c.finRev > 0 <==> FinSeen(h, false))
            && (c.state == SynReceived ==> SynAckSeen(h))
            && (c.state == FinWait ==> FinSeen(h, true) || FinSeen(h, false))
            && (c.state == Closing ==> FinSeen(h, true) && FinSeen(h, false))
            && (c.state == Closed ==> BothFinsThenAck(h))
            && (c.handshake ==> SynAckThenAck(h))
  {
    if h != [] {
      var init, p := h[..|h| - 1], h[|h| - 1];
      assert h == init + [p];
      StateTellsHistory(init);
      Grow(init, p);
      var c := Run(init);
      if c.state == Closing && p.f.ack && !p.f.fin && !p.f.rst {
        GrowClosed(init, p);
      }
      if c.state == SynReceived && p.f.ack && !p.f.syn && !p.f.rst {
        GrowHandshake(init, p);
      }
    }
  }

  /** However often one side repeats its FIN, without the other side's the flow never closes. */
  lemma OneSidedFinNeverCloses(h: seq<Packet>, side: bool)
    requires !FinSeen(h, side)
    ensures Run(h).state != Closing && Run(h).state != Closed
  {
    StateTellsHistory(h);
  }

  /** The terminal states are left exactly by a fresh attempt, and changed only by that or a reset. */
  lemma TerminalExit(h: seq<Packet>, p: Packet)
    requires Terminal(Run(h).state)
    ensures !Terminal(Run(h + [p]).state) <==> p.f.syn && !p.f.ack && !p.f.rst
    ensures !Terminal(Run(h + [p]).state) ==> Run(h + [p]).state == SynSent && !Run(h + [p]).handshake
    ensures Run(h + [p]).state == Closed <==> Run(h).state == Closed && !p.f.rst && !(p.f.syn && !p.f.ack)
  {
    RunSnoc(h, p);
  }

  /** A flow is Reset if and only if some RST has not been followed by a fresh attempt. */
  lemma {:induction false} ResetIffStands(h: seq<Packet>)
    ensures Run(h).state == Reset <==> ResetStands(h)
  {
    if h != [] {
      var init, p := h[..|h| - 1], h[|h| - 1];
      assert h == init + [p];
      ResetIffStands(init);
      ResetStandsSnoc(init, p);
    }
  }

  lemma ResetStandsSnoc(h: seq<Packet>, p: Packet)
    ensures ResetStands(h + [p]) <==> p.f.rst || (ResetStands(h) && !(p.f.syn && !p.f.ack))
  {
    var g := h + [p];
    if p.f.rst {
      assert RstAt(g, |h|);
      assert forall j :: RestartAt(g, j) ==> j < |h|;
    } else {
      if i :| RstAt(h, i) && forall j :: RestartAt(h, j) ==> j < i {
        assert RstAt(g, i);
        assert forall j | RestartAt(g, j) :: j == |h| || RestartAt(h, j);
        if p.f.syn && !p.f.ack {
          assert RestartAt(g, |h|);
        }
      }
      if i :| RstAt(g, i) && forall j :: RestartAt(g, j) ==> j < i {
        assert RstAt(h, i);
        assert forall j | RestartAt(h, j) :: RestartAt(g, j);
        assert p.f.syn && !p.f.ack ==> RestartAt(g, |h|);
      }
    }
  }

  // --------------------------------------------------- the exact state, from the packets

  /** Where a connection stands that begins with this packet: 1 after a SYN, 2 after a SYN/ACK, 3 when joined midway. */
  function Entry(p: Packet): nat {
    if p.f.syn then if p.f.ack then 2 else 1 else 3
  }

  ghost predicate FinBefore(h: seq<Packet>, k: nat, forward: bool) {
    exists j | 0 <= j < k :: FinAt(h, j, forward)
  }

  /** Packet `i` may lead to stage `n` from the one before: 2 a SYN/ACK, 3 an ACK without SYN, 4 a FIN, 5 a FIN of a side
      whose peer sent one before, 6 an ACK without FIN. */
  ghost predicate LeadsTo(h: seq<Packet>, i: nat, n: nat)
    requires i < |h|
  {
    || (n == 2 && h[i].f.syn && h[i].f.ack)
    || (n == 3 && h[i].f.ack && !h[i].f.syn)
    || (n == 4 && h[i].f.fin)
    || (n == 5 && h[i].f.fin && FinBefore(h, i, !h[i].forward))
    || (n == 6 && h[i].f.ack && !h[i].f.fin)
  }

  /** Among packets `b` to `k - 1` of a connection begun at `b` are some that lead to stage `n`, one stage after the other. */
  ghost predicate Climbs(h: seq<Packet>, b: nat, n: nat, k: nat)
    requires k <= |h|
    decreases n
  {
    b < k && (n <= Entry(h[b]) || exists i | b < i < k :: LeadsTo(h, i, n) && Climbs(h, b, n - 1, i))
  }

  ghost predicate ResetIn(h: seq<Packet>, b: nat, k: nat)
    requires k <= |h|
  {
    exists i | b <= i < k :: h[i].f.rst
  }

  /** A connection begun at `b` is over before `k`: reset, or closed stage by stage. */
  ghost predicate Over(h: seq<Packet>, b: nat, k: nat)
    requires k <= |h|
  {
    ResetIn(h, b, k) || Climbs(h, b, 6, k)
  }

  /** A connection begins with the first packet, unless that is a reset, and with every fresh attempt that finds all
      earlier connections over. */
  ghost predicate Begins(h: seq<Packet>, b: nat)
    requires b < |h|
    decreases b
  {
    if b == 0 then !h[0].f.rst
    else Fresh(h[b]) && forall a: nat | a < b && Begins(h, a) :: Over(h, a, b)
  }

  /** The last connection begun among the first `k` packets. */
  ghost predicate Latest(h: seq<Packet>, b: nat, k: nat)
    requires k <= |h|
  {
    b < k && Begins(h, b) && forall a: nat | b < a < k :: !Begins(h, a)
  }

  /** The latest connection was not reset, and got to that stage. */
  ghost predicate Got(h: seq<Packet>, n: nat) {
    exists b: nat :: Latest(h, b, |h|) && !ResetIn(h, b, |h|) && Climbs(h, b, n, |h|)
  }

  /** The latest connection was seen from its SYN or SYN/ACK, and got to the ACK before it was reset, if it was. */
  ghost predicate Shook(h: seq<Packet>, b: nat, k: nat)
    requires k <= |h|
  {
    b < k && Entry(h[b]) <= 2 && exists r: nat | r <= k :: !ResetIn(h, b, r) && Climbs(h, b, 3, r)
  }

  ghost predicate HandshakeSeen(h: seq<Packet>) {
    exists b: nat :: Latest(h, b, |h|) && Shook(h, b, |h|)
  }

  function Stage(s: TcpState): nat {
    match s
    case None => 0
    case SynSent => 1
    case SynReceived => 2
    case Established => 3
    case FinWait => 4
    case Closing => 5
    case Closed => 6
    case Reset => 7
  }

  /** One more packet leads one stage further, or nowhere. */
  lemma ClimbsStep(h: seq<Packet>, b: nat, n: nat, k: nat)
    requires b < k < |h|
    ensures Climbs(h, b, n, k + 1) <==> Climbs(h, b, n, k) || (n > 0 && LeadsTo(h, k, n) && Climbs(h, b, n - 1, k))
  {
    if n > Entry(h[b]) {
      if i: nat :| b < i < k + 1 && LeadsTo(h, i, n) && Climbs(h, b, n - 1, i) {
        assert i < k ==> Climbs(h, b, n, k);
      }
    }
  }

  lemma ClimbsLonger(h: seq<Packet>, b: nat, n: nat, j: nat, k: nat)
    requires j <= k <= |h| && Climbs(h, b, n, j)
    ensures Climbs(h, b, n, k)
  {
  }

  lemma OverLonger(h: seq<Packet>, b: nat, j: nat, k: nat)
    requires j <= k <= |h| && Over(h, b, j)
    ensures Over(h, b, k)
  {
    if Climbs(h, b, 6, j) {
      ClimbsLonger(h, b, 6, j, k);
    }
  }

  /** The state after the first `k` packets, read off the latest connection. */
  ghost predicate StageIs(c: Connection, h: seq<Packet>, b: nat, k: nat)
    requires k <= |h|
  {
    && (c.handshake <==> Shook(h, b, k))
    && if ResetIn(h, b, k) then c.state == Reset
       else 1 <= Stage(c.state) <= 6 && forall n: nat | n <= 6 :: n <= Stage(c.state) <==> Climbs(h, b, n, k)
  }

  /** Before any connection began there is nothing, or resets only. */
  ghost predicate NoneBegun(c: Connection, h: seq<Packet>, k: nat)
    requires k <= |h|
  {
    && (forall b: nat | b < k :: !Begins(h, b))
    && !c.handshake && c.state == if k == 0 then None else Reset
  }

  ghost predicate Described(c: Connection, h: seq<Packet>, k: nat)
    requires k <= |h|
  {
    NoneBegun(c, h, k) || exists b: nat :: Latest(h, b, k) && StageIs(c, h, b, k)
  }

  /** So all earlier connections are over exactly when the state is terminal. */
  lemma AllOverIff(c: Connection, h: seq<Packet>, k: nat)
    requires 0 < k < |h| && Described(c, h, k)
    ensures Begins(h, k) <==> Fresh(h[k]) && Terminal(c.state)
  {
    if b: nat :| Latest(h, b, k) && StageIs(c, h, b, k) {
      assert Over(h, b, k) <==> Terminal(c.state);
      forall a: nat | a < k && a != b && Begins(h, a) ensures Over(h, a, k) {
        assert a < b;
        OverLonger(h, a, b, k);
      }
    }
  }

  lemma ShookStep(h: seq<Packet>, b: nat, k: nat)
    requires b < k < |h|
    ensures Shook(h, b, k + 1) <==> Shook(h, b, k) || (Entry(h[b]) <= 2 && !ResetIn(h, b, k + 1) && Climbs(h, b, 3, k + 1))
  {
    if Shook(h, b, k + 1) && Entry(h[b]) <= 2 {
      var r: nat :| r <= k + 1 && !ResetIn(h, b, r) && Climbs(h, b, 3, r);
      assert r <= k || r == k + 1;
    }
  }

  /** How a packet moves a state that is not terminal is told by whether it leads to the next stage. */
  lemma RungIff(c: Connection, h: seq<Packet>, b: nat, n: nat, k: nat)
    requires b < k < |h| && !h[k].f.rst && 1 <= Stage(c.state) <= 6 && n <= 6
    requires !(c.state == Closed && Fresh(h[k]))
    requires c.finFwd > 0 <==> FinBefore(h, k, true)
    requires c.finRev > 0 <==> FinBefore(h, k, false)
    ensures n <= Stage(Observe(c, h[k]).state) <==>
            n <= Stage(c.state) || (n == Stage(c.state) + 1 && LeadsTo(h, k, n))
  {
    assert FinBefore(h, k, !h[k].forward) <==> (if h[k].forward then c.finRev else c.finFwd) > 0;
  }

  /** One more packet of a connection that goes on. */
  lemma StageMoves(c: Connection, h: seq<Packet>, b: nat, k: nat)
    requires k < |h| && Latest(h, b, k) && StageIs(c, h, b, k) && !(Terminal(c.state) && Fresh(h[k]))
    requires c.finFwd > 0 <==> FinBefore(h, k, true)
    requires c.finRev > 0 <==> FinBefore(h, k, false)
    ensures StageIs(Observe(c, h[k]), h, b, k + 1)
  {
    var d := Observe(c, h[k]);
    assert ResetIn(h, b, k + 1) <==> ResetIn(h, b, k) || h[k].f.rst;
    ShookStep(h, b, k);
    if !ResetIn(h, b, k + 1) {
      var j := k + 1;
      forall n: nat | n <= 6 ensures Climbs(h, b, n, j) <==> n <= Stage(d.state) {
        ClimbsStep(h, b, n, k);
        RungIff(c, h, b, n, k);
      }
      ShookIff(h, b, k);
      ClimbsStep(h, b, 3, k);
    }
  }

  /** Without a reset the handshake is the third stage. */
  lemma ShookIff(h: seq<Packet>, b: nat, k: nat)
    requires b < k <= |h| && !ResetIn(h, b, k)
    ensures Shook(h, b, k) <==> Entry(h[b]) <= 2 && Climbs(h, b, 3, k)
  {
    if Shook(h, b, k) {
      var r: nat :| r <= k && !ResetIn(h, b, r) && Climbs(h, b, 3, r);
      ClimbsLonger(h, b, 3, r, k);
    }
  }

  /** The first packet of a connection. */
  lemma StageStarts(c: Connection, h: seq<Packet>, k: nat)
    requires k < |h| && Begins(h, k) && (if k == 0 then c == NEW else Terminal(c.state))
    ensures StageIs(Observe(c, h[k]), h, k, k + 1)
  {
    assert !ResetIn(h, k, k + 1);
    var j := k + 1;
    assert forall n: nat :: Climbs(h, k, n, j) <==> n <= Entry(h[k]);
    ShookIff(h, k, k + 1);
  }

  lemma {:induction false} StateDescribed(h: seq<Packet>, k: nat)
    requires k <= |h|
    ensures Described(Run(h[..k]), h, k)
  {
    if k > 0 {
      var j := k - 1;
      var c := Run(h[..j]);
      StateDescribed(h, j);
      assert h[..k] == h[..j] + [h[j]];
      RunSnoc(h[..j], h[j]);
      FinsCounted(h, j);
      DescribedStep(c, h, j);
    } else {
      assert NoneBegun(Run(h[..k]), h, k);
    }
  }

  lemma FinsCounted(h: seq<Packet>, k: nat)
    requires k <= |h|
    ensures Run(h[..k]).finFwd > 0 <==> FinBefore(h, k, true)
    ensures Run(h[..k]).finRev > 0 <==> FinBefore(h, k, false)
  {
    StateTellsHistory(h[..k]);
    assert forall d, j | 0 <= j < k :: FinAt(h[..k], j, d) <==> FinAt(h, j, d);
    assert forall d :: FinSeen(h[..k], d) <==> FinBefore(h, k, d);
  }

  lemma DescribedStep(c: Connection, h: seq<Packet>, k: nat)
    requires k < |h| && Described(c, h, k) && (k == 0 ==> c == NEW)
    requires c.finFwd > 0 <==> FinBefore(h, k, true)
    requires c.finRev > 0 <==> FinBefore(h, k, false)
    ensures Described(Observe(c, h[k]), h, k + 1)
  {
    if k > 0 {
      AllOverIff(c, h, k);
    }
    if Begins(h, k) {
      StageStarts(c, h, k);
      assert Latest(h, k, k + 1);
    } else if NoneBegun(c, h, k) {
      assert NoneBegun(Observe(c, h[k]), h, k + 1);
    } else {
      var b: nat :| Latest(h, b, k) && StageIs(c, h, b, k);
      StageMoves(c, h, b, k);
      assert Latest(h, b, k + 1);
    }
  }

  /** The state machine against the packets alone: a live or closed connection stands exactly at the highest stage its
      packets lead to, and the handshake is complete exactly when they led through it. */
  lemma StateIff(h: seq<Packet>)
    ensures Run(h).state == SynSent <==> Got(h, 1) && !Got(h, 2)
    ensures Run(h).state == SynReceived <==> Got(h, 2) && !Got(h, 3)
    ensures Run(h).state == Established <==> Got(h, 3) && !Got(h, 4)
    ensures Run(h).state == FinWait <==> Got(h, 4) && !Got(h, 5)
    ensures Run(h).state == Closing <==> Got(h, 5) && !Got(h, 6)
    ensures Run(h).state == Closed <==> Got(h, 6)
    ensures Run(h).handshake <==> HandshakeSeen(h)
  {
    StateDescribed(h, |h|);
    assert h[..|h|] == h;
    var c := Run(h);
    if b: nat :| Latest(h, b, |h|) && StageIs(c, h, b, |h|) {
      OnlyLatest(h, b);
    }
  }

  lemma OnlyLatest(h: seq<Packet>, b: nat)
    requires Latest(h, b, |h|)
    ensures forall n: nat :: Got(h, n) <==> !ResetIn(h, b, |h|) && Climbs(h, b, n, |h|)
    ensures HandshakeSeen(h) <==> Shook(h, b, |h|)
  {
    forall a: nat | Latest(h, a, |h|) ensures a == b {
    }
  }

  const SYN: Flags := Flags(false, true, false, false)
  const SYN_ACK: Flags := Flags(false, true, false, true)
  const ACK: Flags := Flags(false, false, false, true)
  const FIN: Flags := Flags(true, false, false, true)

  const RST: Flags := Flags(false, false, true, false)

  /** A new handshake opened by one side of a finished tuple, then that side's FIN twice. */
  function Reopening(side: bool): seq<Packet> {
    [Packet(SYN, side), Packet(SYN_ACK, !side), Packet(ACK, side), Packet(FIN, side), Packet(FIN, side)]
  }

  /** The second connection is taken as closing after FINs from one side only, exactly when the other side sent a FIN
      in some earlier connection of the tuple: the FIN counters outlive a restart. */
  lemma ReopenedState(h: seq<Packet>, side: bool)
    requires Terminal(Run(h).state)
    ensures Run(h + Reopening(side)).state == if FinSeen(h, !side) then Closing else FinWait
  {
    StateTellsHistory(h);
    var h1 := h + [Packet(SYN, side)];
    var h2 := h1 + [Packet(SYN_ACK, !side)];
    var h3 := h2 + [Packet(ACK, side)];
    var h4 := h3 + [Packet(FIN, side)];
    RunSnoc(h, Packet(SYN, side));
    RunSnoc(h1, Packet(SYN_ACK, !side));
    RunSnoc(h2, Packet(ACK, side));
    RunSnoc(h3, Packet(FIN, side));
    RunSnoc(h4, Packet(FIN, side));
    assert h + Reopening(side) == h4 + [Packet(FIN, side)];
  }

  /** No FIN from that side. */
  ghost predicate Silent(g: seq<Packet>, side: bool) {
    forall i | 0 <= i < |g| :: !(g[i].f.fin && g[i].forward == side)
  }

  /** After any history: some continuation in which the other side sends no FIN ends up Closing, if and only if the other
      side sent one before. */
  lemma StaleFinClosesIff(h: seq<Packet>, side: bool)
    ensures (exists g :: Silent(g, !side) && Run(h + g).state == Closing) <==> FinSeen(h, !side)
  {
    if FinSeen(h, !side) {
      var reset := h + [Packet(RST, side)];
      RunSnoc(h, Packet(RST, side));
      Grow(h, Packet(RST, side));
      ReopenedState(reset, side);
      var g := [Packet(RST, side)] + Reopening(side);
      assert h + g == reset + Reopening(side);
      assert Silent(g, !side) && Run(h + g).state == Closing;
    }
    if g :| Silent(g, !side) && Run(h + g).state == Closing {
      StateTellsHistory(h + g);
      var i :| FinAt(h + g, i, !side);
      assert i < |h| ==> FinAt(h, i, !side);
      assert i >= |h| ==> (h + g)[i] == g[i - |h|];
    }
  }

  // ------------------------------------------------------------- a connection's life

  /** Packets that change nothing while a connection waits: no flag of interest, and no early ACK where one counts. */
  predicate Quiet(g: seq<Packet>, acks: bool) {
    forall i | 0 <= i < |g| :: !g[i].f.syn && !g[i].f.fin && !g[i].f.rst && (g[i].f.ack ==> acks)
  }

  lemma {:induction false} QuietKeeps(h: seq<Packet>, g: seq<Packet>)
    requires Quiet(g, Run(h).state != SynReceived && Run(h).state != Closing) && Run(h).state != None
    ensures Run(h + g) == Run(h)
    decreases |g|
  {
    if g == [] {
      assert h + g == h;
    } else {
      var init, p := g[..|g| - 1], g[|g| - 1];
      QuietKeeps(h, init);
      RunSnoc(h + init, p);
      assert h + g == (h + init) + [p];
    }
  }

  /** After any history that is empty or terminal: SYN, SYN/ACK and ACK, with quiet packets in between, establish a
      connection with a complete handshake. */
  lemma HandshakeEstablishes(h: seq<Packet>, a: seq<Packet>, b: seq<Packet>, x: bool, y: bool, z: bool)
    requires h == [] || Terminal(Run(h).state)
    requires Quiet(a, true) && Quiet(b, false)
    ensures var c := Run(h + [Packet(SYN, x)] + a + [Packet(SYN_ACK, y)] + b + [Packet(ACK, z)]);
            c.state == Established && c.handshake
  {
    var h1 := h + [Packet(SYN, x)];
    var h2 := h1 + a;
    var h3 := h2 + [Packet(SYN_ACK, y)];
    var h4 := h3 + b;
    RunSnoc(h, Packet(SYN, x));
    QuietKeeps(h1, a);
    RunSnoc(h2, Packet(SYN_ACK, y));
    QuietKeeps(h3, b);
    RunSnoc(h4, Packet(ACK, z));
  }

  /** From there the FINs of both sides, in either order, and then an ACK without FIN close it. */
  lemma FinsClose(h: seq<Packet>, a: seq<Packet>, b: seq<Packet>, c: seq<Packet>, side: bool, last: bool)
    requires Run(h).state == Established && Quiet(a, true) && Quiet(b, true) && Quiet(c, false)
    ensures var d := Run(h + a + [Packet(FIN, side)] + b + [Packet(FIN, !side)] + c + [Packet(ACK, last)]);
            d.state == Closed && d.handshake == Run(h).handshake
  {
    var h1 := h + a;
    var h2 := h1 + [Packet(FIN, side)];
    var h3 := h2 + b;
    var h4 := h3 + [Packet(FIN, !side)];
    var h5 := h4 + c;
    QuietKeeps(h, a);
    RunSnoc(h1, Packet(FIN, side));
    QuietKeeps(h2, b);
    RunSnoc(h3, Packet(FIN, !side));
    QuietKeeps(h4, c);
    RunSnoc(h5, Packet(ACK, last));
  }
}
