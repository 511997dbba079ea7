/** When the retransmission counter is exact, and the guards without which it is not. */
module SequenceExactness {
  import opened Serial
  import opened SequenceTracking
  import opened SequenceTheorems

  /** The lowest position data may have: where the first packet left the direction. */
  function Start(events: seq<Event>): int
    requires events != []
  {
    if events[0].Data? then events[0].pos else events[0].End()
  }

  /** Something already seen ends where `e` starts or starts where `e` ends. */
  ghost predicate TouchesSeen(events: seq<Event>, e: Event)
    requires events != []
  {
    e.pos == Start(events) || exists f :: f in events && f.len > 0 && (f.End() == e.pos || f.pos == e.End())
  }

  /** What the heuristic needs of the next packet: new data not below the start, none on a SYN's or
      FIN's own number, late data touching seen data, room for one more hole before a jump, and
      control packets that do not run ahead. */
  ghost predicate Orderly(base: uint32, init: seq<Event>, t: Tracker, e: Event) {
    init == [] || e in init ||
    match e
    case Data(pos, len) =>
      && Start(init) <= pos
      && (forall f | f in init && f.Control? && f.len > 0 :: SameOrApart(e, f))
      && (e.End() <= Reach(base, t) ==> TouchesSeen(init, e))
      && (Reach(base, t) < pos ==> |t.holes| < 16)
    case Control(pos, len) =>
      if len == 0 then pos <= Reach(base, t) else pos == Reach(base, t)
  }

  ghost predicate OrderlyRun(base: uint32, events: seq<Event>)
    requires forall e | e in events :: InSpan(e)
  {
    events == [] ||
    (OrderlyRun(base, events[..|events| - 1]) &&
     Orderly(base, events[..|events| - 1], Run(base, events[..|events| - 1]), events[|events| - 1]))
  }

  predicate Within(base: uint32, h: Hole, x: int) {
    Lo(base, h) <= x < Hi(base, h)
  }

  ghost predicate SeenAt(events: seq<Event>, x: int) {
    exists e :: e in events && e.Has(x)
  }

  ghost predicate Open(base: uint32, holes: seq<Hole>, x: int) {
    exists h :: h in holes && Within(base, h, x)
  }

  /** Exactly the unseen numbers between the start and the reach are in holes. */
  ghost predicate Tight(base: uint32, events: seq<Event>, t: Tracker)
    requires events != []
  {
    && Start(events) <= Reach(base, t)
    && (forall h | h in t.holes :: Start(events) <= Lo(base, h))
    && (forall x | Start(events) <= x < Reach(base, t) :: SeenAt(events, x) || Open(base, t.holes, x))
    && (forall h, e | h in t.holes && e in events && e.len > 0 :: e.End() <= Lo(base, h) || Hi(base, h) <= e.pos)
  }

  lemma SeenAtGrows(events: seq<Event>, e: Event)
    ensures forall x :: SeenAt(events, x) ==> SeenAt(events + [e], x)
    ensures forall x :: e.Has(x) ==> SeenAt(events + [e], x)
  {
    forall x | SeenAt(events, x) ensures SeenAt(events + [e], x) {
      var f :| f in events && f.Has(x);
      assert f in events + [e];
    }
    assert e in events + [e];
  }

  lemma NewDataUnseen(events: seq<Event>, e: Event)
    requires WellCut(events + [e]) && e.Data? && e !in events && InSpan(e)
    requires forall f | f in events && f.Control? && f.len > 0 :: SameOrApart(e, f)
    ensures forall x | e.Has(x) :: !SeenAt(events, x)
  {
    forall f | f in events && f.len > 0 ensures e.End() <= f.pos || f.End() <= e.pos {
      assert e in events + [e] && f in events + [e];
      assert SameOrApart(e, f);
    }
  }

  /** New data does not run past the end of the hole it starts in, and touching seen data it lies at
      one of its ends. */
  lemma LiesAtEnd(base: uint32, events: seq<Event>, t: Tracker, e: Event, h: Hole)
    requires events != [] && Sound(base, events, t) && Tight(base, events, t) && InSpan(e)
    requires forall f | f in events :: InSpan(f)
    requires forall x | e.Has(x) :: !SeenAt(events, x)
    requires TouchesSeen(events, e) && h in t.holes && Within(base, h, e.pos)
    ensures e.End() <= Hi(base, h)
    ensures e.pos == Lo(base, h) || e.End() == Hi(base, h)
  {
    assert Missing(base, events, Reach(base, t), h);
    var g :| g in events && g.Data? && g.pos == Hi(base, h);
    assert g.Has(g.pos) && SeenAt(events, g.pos);
  }

  /** New data below the reach lies in a hole and is judged late. */
  lemma LateLandsAtEnd(base: uint32, events: seq<Event>, t: Tracker, e: Event) returns (i: nat)
    requires events != [] && Sound(base, events, t) && Tight(base, events, t) && WellCut(events + [e])
    requires Orderly(base, events, t, e) && e.Data? && e !in events && e.End() <= Reach(base, t) && InSpan(e)
    ensures i < |t.holes| && Lo(base, t.holes[i]) <= e.pos && e.End() <= Hi(base, t.holes[i])
    ensures e.pos == Lo(base, t.holes[i]) || e.End() == Hi(base, t.holes[i])
    ensures Judge(t, At(base, e.pos), e.len) == Late(i)
  {
    NewDataUnseen(events, e);
    assert e.Has(e.pos);
    assert Open(base, t.holes, e.pos);
    i :| 0 <= i < |t.holes| && Within(base, t.holes[i], e.pos);
    SeenStaysInSpan(events, e);
    LiesAtEnd(base, events, t, e, t.holes[i]);
    LateVerdict(base, events, t, e, i);
  }

  lemma SeenStaysInSpan(events: seq<Event>, e: Event)
    requires WellCut(events + [e])
    ensures forall f | f in events :: InSpan(f)
  {
    assert forall f | f in events :: f in events + [e];
  }

  lemma LateVerdict(base: uint32, events: seq<Event>, t: Tracker, e: Event, i: nat)
    requires events != [] && Sound(base, events, t) && WellCut(events + [e]) && InSpan(e)
    requires e.Data? && e !in events && e.End() <= Reach(base, t)
    requires i < |t.holes| && Hits(base, e, t.holes[i])
    ensures Judge(t, At(base, e.pos), e.len) == Late(i)
  {
    JudgeByPosition(base, events, t, e);
    if Fingerprint(At(base, e.pos), e.len) in t.recent {
      KnownIsSeen(base, events, t, e);
    }
    forall j | 0 <= j < |t.holes| && j != i ensures !Hits(base, e, t.holes[j]) {
      HitsOnlyOne(base, events, t, e, i, j);
    }
  }

  ghost predicate Other(holes: seq<Hole>, i: nat, g: Hole) {
    exists j :: 0 <= j < |holes| && j != i && holes[j] == g
  }

  /** Replacing hole `i` by at most one hole: what else was open stays open. */
  lemma RemoveOpens(base: uint32, holes: seq<Hole>, i: nat)
    requires i < |holes|
    ensures forall x :: Open(base, holes, x) ==> Open(base, holes[..i] + holes[i + 1..], x) || Within(base, holes[i], x)
    ensures forall g | g in holes[..i] + holes[i + 1..] :: Other(holes, i, g)
  {
    var rest := holes[..i] + holes[i + 1..];
    forall x | Open(base, holes, x) ensures Open(base, rest, x) || Within(base, holes[i], x) {
      var j :| 0 <= j < |holes| && Within(base, holes[j], x);
      if j != i {
        assert rest[if j < i then j else j - 1] == holes[j];
      }
    }
    forall g | g in rest ensures Other(holes, i, g) {
      var k :| 0 <= k < |rest| && rest[k] == g;
      assert holes[if k < i then k else k + 1] == g;
    }
  }

  lemma ReplaceOpens(base: uint32, holes: seq<Hole>, i: nat, g: Hole)
    requires i < |holes|
    ensures forall x :: Open(base, holes, x) ==> Open(base, holes[i := g], x) || Within(base, holes[i], x)
    ensures forall x :: Within(base, g, x) ==> Open(base, holes[i := g], x)
    ensures forall f | f in holes[i := g] :: f == g || Other(holes, i, f)
  {
    var after := holes[i := g];
    assert after[i] == g;
    forall x | Open(base, holes, x) ensures Open(base, after, x) || Within(base, holes[i], x) {
      var j :| 0 <= j < |holes| && Within(base, holes[j], x);
      assert j != i ==> after[j] == holes[j];
    }
    forall f | f in after ensures f == g || Other(holes, i, f) {
      var k :| 0 <= k < |after| && after[k] == f;
      assert k != i ==> holes[k] == f;
    }
  }

  predicate Inside(base: uint32, g: Hole, h: Hole) {
    Lo(base, h) <= Lo(base, g) && Hi(base, g) <= Hi(base, h)
  }

  predicate Apart(base: uint32, g: Hole, e: Event) {
    e.End() <= Lo(base, g) || Hi(base, g) <= e.pos
  }

  /** Cutting a range off one end of a hole leaves exactly the rest open. */
  lemma FillOpens(base: uint32, holes: seq<Hole>, e: Event, i: nat)
    requires InSpan(e) && i < |holes| && Hi(base, holes[i]) < HALF && e.len > 0
    requires Lo(base, holes[i]) <= e.pos && e.End() <= Hi(base, holes[i])
    requires e.pos == Lo(base, holes[i]) || e.End() == Hi(base, holes[i])
    ensures var after := Fill(holes, i, At(base, e.pos), At(base, e.End()));
            && (forall x :: Open(base, holes, x) ==> Open(base, after, x) || e.Has(x))
            && (forall g | g in after :: (Inside(base, g, holes[i]) && Apart(base, g, e)) ||
                                        Other(holes, i, g))
  {
    var h := holes[i];
    Compare(base, e.pos, h.lo);
    Compare(base, e.End(), h.hi);
    if e.pos == Lo(base, h) && e.End() == Hi(base, h) {
      RemoveOpens(base, holes, i);
    } else {
      var g := if e.pos == Lo(base, h) then h.(lo := At(base, e.End())) else h.(hi := At(base, e.pos));
      ReplaceOpens(base, holes, i, g);
      assert forall x :: Within(base, h, x) ==> Within(base, g, x) || e.Has(x);
    }
  }

  lemma LateKeepsTight(base: uint32, events: seq<Event>, t: Tracker, e: Event)
    requires events != [] && Sound(base, events, t) && Tight(base, events, t) && WellCut(events + [e])
    requires Orderly(base, events, t, e) && e.Data? && e !in events && e.End() <= Reach(base, t) && InSpan(e)
    ensures Tight(base, events + [e], Apply(base, t, e))
  {
    var i := LateLandsAtEnd(base, events, t, e);
    var u := Apply(base, t, e);
    AtAdd(base, e.pos, e.len);
    assert u.nextSeq == t.nextSeq && u.holes == Fill(t.holes, i, At(base, e.pos), At(base, e.End()));
    assert Missing(base, events, Reach(base, t), t.holes[i]);
    FillOpens(base, t.holes, e, i);
    forall g | g in u.holes
      ensures Start(events) <= Lo(base, g) && Apart(base, g, e)
      ensures forall f | f in events && f.len > 0 :: Apart(base, g, f)
    {
      if j :| 0 <= j < |t.holes| && j != i && t.holes[j] == g {
        HitsOnlyOne(base, events, t, e, i, j);
      }
    }
    FilledTight(base, events, t, e, u);
  }

  lemma FilledTight(base: uint32, events: seq<Event>, t: Tracker, e: Event, u: Tracker)
    requires events != [] && Tight(base, events, t) && u.nextSeq == t.nextSeq
    requires forall x :: Open(base, t.holes, x) ==> Open(base, u.holes, x) || e.Has(x)
    requires forall g | g in u.holes :: Start(events) <= Lo(base, g) && Apart(base, g, e)
    requires forall g, f | g in u.holes && f in events && f.len > 0 :: Apart(base, g, f)
    ensures Tight(base, events + [e], u)
  {
    SeenAtGrows(events, e);
  }

  lemma JumpKeepsTight(base: uint32, events: seq<Event>, t: Tracker, e: Event)
    requires events != [] && Sound(base, events, t) && Tight(base, events, t) && InSpan(e) && e.Data?
    requires Judge(t, At(base, e.pos), e.len) == Jump && Reach(base, t) < e.pos && |t.holes| < 16
    ensures Tight(base, events + [e], Apply(base, t, e))
  {
    var u := Apply(base, t, e);
    AtAdd(base, e.pos, e.len);
    OffAt(base, e.pos);
    OffAt(base, e.End());
    SeenAtGrows(events, e);
    var h := Hole(t.nextSeq, At(base, e.pos));
    assert u.holes == t.holes + [h];
    assert h in u.holes;
    forall x | Start(events) <= x < e.End() ensures SeenAt(events + [e], x) || Open(base, u.holes, x) {
      if x < Reach(base, t) {
        if g :| g in t.holes && Within(base, g, x) {
          assert g in u.holes;
        }
      } else if x < e.pos {
        assert Within(base, h, x);
      }
    }
    forall g | g in t.holes ensures Apart(base, g, e) {
      assert Missing(base, events, Reach(base, t), g);
    }
  }

  lemma InOrderKeepsTight(base: uint32, events: seq<Event>, t: Tracker, e: Event)
    requires events != [] && Sound(base, events, t) && Tight(base, events, t) && WellCut(events + [e]) && InSpan(e)
    requires if e.Data? then Judge(t, At(base, e.pos), e.len) == InOrder && Reach(base, t) < e.End()
             else e.pos == Reach(base, t)
    requires e.pos <= Reach(base, t)
    ensures Tight(base, events + [e], Apply(base, t, e))
  {
    var u := Apply(base, t, e);
    AtAdd(base, e.pos, e.len);
    OffAt(base, e.End());
    Compare(base, e.End(), t.nextSeq);
    SeenAtGrows(events, e);
    assert u.holes == t.holes && Reach(base, u) == e.End();
    forall g | g in t.holes ensures Apart(base, g, e) {
      assert Missing(base, events, Reach(base, t), g);
      if e.Data? { BeyondHitsNone(base, events, t, e, g); }
    }
  }

  /** A packet that changes neither the reach nor the holes: a repeat, or a pure ACK. */
  lemma StillTight(base: uint32, events: seq<Event>, t: Tracker, e: Event, u: Tracker)
    requires events != [] && Tight(base, events, t) && (e in events || e.len == 0)
    requires u.nextSeq == t.nextSeq && u.holes == t.holes
    ensures Tight(base, events + [e], u)
  {
    SeenAtGrows(events, e);
  }

  lemma StepKeepsTight(base: uint32, events: seq<Event>, t: Tracker, e: Event)
    requires events != [] && Sound(base, events, t) && Tight(base, events, t) && WellCut(events + [e])
    requires Orderly(base, events, t, e) && InSpan(e)
    ensures Tight(base, events + [e], Apply(base, t, e))
    ensures e.Data? && e !in events ==> Apply(base, t, e).retransmits == t.retransmits
  {
    AtAdd(base, e.pos, e.len);
    Compare(base, e.End(), t.nextSeq);
    var n := Reach(base, t);
    if e.Control? {
      if e in events || e.len == 0 {
        assert e.End() <= n;
        StillTight(base, events, t, e, Apply(base, t, e));
      } else {
        InOrderKeepsTight(base, events, t, e);
      }
    } else {
      JudgeByPosition(base, events, t, e);
      if e in events {
        forall h | h in t.holes ensures !Hits(base, e, h) {
          SeenHitsNone(base, events, t, e, h);
        }
        StillTight(base, events, t, e, Apply(base, t, e));
      } else {
        if Fingerprint(At(base, e.pos), e.len) in t.recent {
          KnownIsSeen(base, events, t, e);
        }
        if e.End() <= n {
          var i := LateLandsAtEnd(base, events, t, e);
          LateKeepsTight(base, events, t, e);
        } else if n < e.pos {
          JumpKeepsTight(base, events, t, e);
        } else {
          InOrderKeepsTight(base, events, t, e);
        }
      }
    }
  }

  lemma FirstIsTight(base: uint32, e: Event)
    requires InSpan(e)
    ensures Tight(base, [e], Apply(base, UNTRACKED, e))
  {
    AtAdd(base, e.pos, e.len);
    OffAt(base, e.End());
    assert e in [e];
    assert forall x | e.Has(x) :: SeenAt([e], x);
  }

  /** How far the run is right: what the tracker knows is tight, and the counter exact. */
  ghost predicate ExactSoFar(base: uint32, events: seq<Event>, t: Tracker) {
    && (events != [] ==> Tight(base, events, t))
    && t.retransmits == DataCount(events) - |Distinct(events)|
  }

  lemma StepExact(base: uint32, init: seq<Event>, t: Tracker, e: Event)
    requires WellCut(init + [e]) && (forall f | f in init :: InSpan(f)) && InSpan(e) && t == Run(base, init)
    requires Sound(base, init, t) && ExactSoFar(base, init, t) && Orderly(base, init, t, e)
    ensures ExactSoFar(base, init + [e], Apply(base, t, e))
  {
    assert (init + [e])[..|init|] == init;
    DistinctSnoc(init, e);
    if init == [] {
      assert init + [e] == [e];
      FirstIsTight(base, e);
    } else {
      StepKeepsTight(base, init, t, e);
      if e.Data? && e in init {
        assert forall f | f in init :: f in init + [e];
        NoResendMissed(base, init, e);
      }
    }
  }

  lemma OrderlySnoc(base: uint32, init: seq<Event>, e: Event)
    requires WellCut(init + [e]) && OrderlyRun(base, init + [e])
    ensures WellCut(init) && OrderlyRun(base, init) && Orderly(base, init, Run(base, init), e)
  {
    assert (init + [e])[..|init|] == init;
    assert forall f | f in init :: f in init + [e];
  }

  /** In an orderly run the counter is exact: data segments seen minus distinct data segments. */
  lemma {:induction false} RetransmitsExact(base: uint32, events: seq<Event>)
    requires WellCut(events) && OrderlyRun(base, events)
    ensures events != [] ==> Tight(base, events, Run(base, events))
    ensures Run(base, events).retransmits == DataCount(events) - |Distinct(events)|
  {
    if events != [] {
      var init, e := events[..|events| - 1], events[|events| - 1];
      assert events == init + [e];
      OrderlySnoc(base, init, e);
      RetransmitsExact(base, init);
      RunSound(base, init);
      RunSnoc(base, init, e);
      StepExact(base, init, Run(base, init), e);
    }
  }

  lemma NewIsUnknown(base: uint32, events: seq<Event>, t: Tracker, e: Event)
    requires Sound(base, events, t) && InSpan(e) && e.Data? && e !in events
    ensures Fingerprint(At(base, e.pos), e.len) !in t.recent
  {
    if Fingerprint(At(base, e.pos), e.len) in t.recent {
      KnownIsSeen(base, events, t, e);
    }
  }

  // ------------------------------------------------------- the exact condition

  /** First-time data that the failing branch takes: some history, not beyond the reach, and no tracked hole
      it lands in. */
  ghost predicate Misjudges(base: uint32, init: seq<Event>, t: Tracker, e: Event) {
    && e.Data? && e !in init && init != []
    && e.End() <= Reach(base, t)
    && forall h | h in t.holes :: !Hits(base, e, h)
  }

  /** How many events of the run were new data in that case when they arrived. */
  ghost function Misjudged(base: uint32, events: seq<Event>): nat
    requires forall e | e in events :: InSpan(e)
  {
    if events == [] then 0
    else
      var init, e := events[..|events| - 1], events[|events| - 1];
      Misjudged(base, init) + if Misjudges(base, init, Run(base, init), e) then 1 else 0
  }

  /** One event: the counter grows for a repeat, and for new data that meets no hole. */
  lemma StepCounted(base: uint32, init: seq<Event>, e: Event)
    requires WellCut(init + [e])
    ensures (forall f | f in init :: InSpan(f)) && InSpan(e)
    ensures Apply(base, Run(base, init), e).retransmits == Run(base, init).retransmits
            + (if e.Data? && e in init then 1 else 0)
            + (if Misjudges(base, init, Run(base, init), e) then 1 else 0)
  {
    var t := Run(base, init);
    RunSnoc(base, init, e);
    assert e in init + [e] && forall f | f in init :: f in init + [e];
    RunSound(base, init);
    if e.Data? && e in init {
      NoResendMissed(base, init, e);
    } else if e.Data? {
      NewIsUnknown(base, init, t, e);
      JudgeByPosition(base, init, t, e);
      TrackedRetransmits(t, At(base, e.pos), e.len);
    }
  }

  lemma TrackedRetransmits(t: Tracker, sn: uint32, len: uint32)
    ensures TrackData(t, sn, len).retransmits == t.retransmits + if Judge(t, sn, len) == Resend then 1 else 0
  {
  }

  lemma MisjudgedSnoc(base: uint32, init: seq<Event>, e: Event)
    requires forall f | f in init + [e] :: InSpan(f)
    ensures forall f | f in init :: InSpan(f)
    ensures Misjudged(base, init + [e]) ==
            Misjudged(base, init) + if Misjudges(base, init, Run(base, init), e) then 1 else 0
  {
    RunSnoc(base, init, e);
    assert (init + [e])[..|init|] == init;
  }

  /** In every run the counter is the repeats among the data segments plus the new segments that met no hole. */
  lemma {:induction false} RetransmitsCounted(base: uint32, events: seq<Event>)
    requires WellCut(events)
    ensures Run(base, events).retransmits == DataCount(events) - |Distinct(events)| + Misjudged(base, events)
  {
    if events != [] {
      var init, e := events[..|events| - 1], events[|events| - 1];
      assert events == init + [e];
      RetransmitsCounted(base, init);
      DistinctSnoc(init, e);
      RunSnoc(base, init, e);
      StepCounted(base, init, e);
      MisjudgedSnoc(base, init, e);
    }
  }

  /** Data out of order: beyond the reach, or within it in a tracked hole. */
  ghost predicate Displaced(base: uint32, init: seq<Event>, t: Tracker, e: Event) {
    && e.Data? && init != []
    && (Reach(base, t) < e.pos || (e.End() <= Reach(base, t) && exists h :: h in t.holes && Hits(base, e, h)))
  }

  ghost function DisplacedCount(base: uint32, events: seq<Event>): nat
    requires forall e | e in events :: InSpan(e)
  {
    if events == [] then 0
    else
      var init, e := events[..|events| - 1], events[|events| - 1];
      DisplacedCount(base, init) + if Displaced(base, init, Run(base, init), e) then 1 else 0
  }

  lemma TrackedOutOfOrder(t: Tracker, sn: uint32, len: uint32)
    ensures TrackData(t, sn, len).outOfOrder ==
            t.outOfOrder + if Judge(t, sn, len).Late? || Judge(t, sn, len) == Jump then 1 else 0
  {
  }

  lemma StepDisplaced(base: uint32, init: seq<Event>, e: Event)
    requires WellCut(init + [e])
    ensures (forall f | f in init :: InSpan(f)) && InSpan(e)
    ensures Apply(base, Run(base, init), e).outOfOrder == Run(base, init).outOfOrder
            + if Displaced(base, init, Run(base, init), e) then 1 else 0
  {
    var t := Run(base, init);
    RunSnoc(base, init, e);
    assert e in init + [e] && forall f | f in init :: f in init + [e];
    RunSound(base, init);
    if e.Data? {
      TrackedOutOfOrder(t, At(base, e.pos), e.len);
      JudgeByPosition(base, init, t, e);
      if e in init {
        NoResendMissed(base, init, e);
        forall h | h in t.holes ensures !Hits(base, e, h) {
          SeenHitsNone(base, init, t, e, h);
        }
      } else {
        NewIsUnknown(base, init, t, e);
      }
    }
  }

  /** In every run the other counter is the data that came beyond the reach or landed in a tracked hole. */
  lemma {:induction false} OutOfOrderCounted(base: uint32, events: seq<Event>)
    requires WellCut(events)
    ensures Run(base, events).outOfOrder == DisplacedCount(base, events)
  {
    if events != [] {
      var init, e := events[..|events| - 1], events[|events| - 1];
      assert events == init + [e];
      assert forall f | f in init :: f in events;
      OutOfOrderCounted(base, init);
      RunSnoc(base, init, e);
      StepDisplaced(base, init, e);
    }
  }

  /** The fingerprints of the data of the run, in order. */
  function Prints(base: uint32, events: seq<Event>): seq<nat>
    requires forall e | e in events :: InSpan(e)
  {
    if events == [] then []
    else
      var e := events[|events| - 1];
      assert InSpan(events[|events| - 1]);
      Prints(base, events[..|events| - 1]) + if e.Data? then [Fingerprint(At(base, e.pos), e.len)] else []
  }

  function Last<T>(s: seq<T>, n: nat): seq<T> {
    if |s| <= n then s else s[|s| - n..]
  }

  lemma LastSnoc<T>(s: seq<T>, n: nat, x: T)
    requires n > 0
    ensures Last(s + [x], n) == AppendCapped(Last(s, n), x, n)
  {
  }

  /** Memory is bounded: the last 64 data segments are remembered, and at most 16 holes; and the reach is where the
      furthest packet ended. */
  lemma {:induction false} MemoryIsBounded(base: uint32, events: seq<Event>)
    requires WellCut(events)
    ensures var t := Run(base, events);
            && t.recent == Last(Prints(base, events), 64) && |t.holes| <= 16
            && (events != [] ==> exists e :: e in events && e.End() == Reach(base, t))
  {
    if events != [] {
      var init, e := events[..|events| - 1], events[|events| - 1];
      assert events == init + [e];
      assert forall f | f in init :: f in events;
      MemoryIsBounded(base, init);
      RunSnoc(base, init, e);
      RunSound(base, init);
      StepMemory(base, init, e);
      if e.Data? {
        LastSnoc(Prints(base, init), 64, Fingerprint(At(base, e.pos), e.len));
      }
    }
  }

  lemma DataMemory(t: Tracker, sn: uint32, len: uint32)
    requires |t.holes| <= 16
    ensures var u := TrackData(t, sn, len);
            && |u.holes| <= 16 && u.recent == AppendCapped(t.recent, Fingerprint(sn, len), 64)
            && (u.nextSeq == Add32(sn, len) || (t.seqValid && u.nextSeq == t.nextSeq))
  {
  }

  lemma ControlMemory(t: Tracker, sn: uint32, len: nat)
    ensures var u := TrackControl(t, sn, len);
            u.holes == t.holes && u.recent == t.recent && (u.nextSeq == Add32(sn, len) || (t.seqValid && u.nextSeq == t.nextSeq))
  {
  }

  lemma StepMemory(base: uint32, init: seq<Event>, e: Event)
    requires (forall f | f in init :: InSpan(f)) && InSpan(e) && |Run(base, init).holes| <= 16
    requires Run(base, init).seqValid <==> init != []
    ensures var t, u := Run(base, init), Apply(base, Run(base, init), e);
            && |u.holes| <= 16
            && u.recent == (if e.Data? then AppendCapped(t.recent, Fingerprint(At(base, e.pos), e.len), 64) else t.recent)
            && (Reach(base, u) == e.End() || (init != [] && Reach(base, u) == Reach(base, t)))
  {
    EndReached(base, e);
    if e.Data? {
      DataMemory(Run(base, init), At(base, e.pos), e.len);
    } else {
      ControlMemory(Run(base, init), At(base, e.pos), e.len);
    }
  }

  lemma EndReached(base: uint32, e: Event)
    requires InSpan(e)
    ensures Off(base, Add32(At(base, e.pos), e.len)) == e.End()
  {
    AtAdd(base, e.pos, e.len);
    OffAt(base, e.End());
  }

  /** New data that the run meets at moment `n` is taken for a resend. */
  ghost predicate MisjudgedAt(base: uint32, events: seq<Event>, n: nat)
    requires n < |events| && forall e | e in events :: InSpan(e)
  {
    Misjudges(base, events[..n], Run(base, events[..n]), events[n])
  }

  /** At each moment of the run, new data not beyond the reach lands in a tracked hole. */
  ghost predicate FirstsLand(base: uint32, events: seq<Event>)
    requires forall e | e in events :: InSpan(e)
  {
    forall n: nat | n < |events| :: !MisjudgedAt(base, events, n)
  }

  lemma MisjudgedAtEarlier(base: uint32, init: seq<Event>, e: Event, n: nat)
    requires n < |init| && forall f | f in init + [e] :: InSpan(f)
    ensures forall f | f in init :: InSpan(f)
    ensures MisjudgedAt(base, init + [e], n) <==> MisjudgedAt(base, init, n)
  {
    RunSnoc(base, init, e);
    assert (init + [e])[..n] == init[..n] && (init + [e])[n] == init[n];
  }

  lemma {:induction false} NoneMisjudgedIff(base: uint32, events: seq<Event>)
    requires forall e | e in events :: InSpan(e)
    ensures Misjudged(base, events) == 0 <==> FirstsLand(base, events)
  {
    if events != [] {
      var init, e := events[..|events| - 1], events[|events| - 1];
      assert events == init + [e];
      NoneMisjudgedIff(base, init);
      MisjudgedSnoc(base, init, e);
      forall n: nat | n < |init|
        ensures MisjudgedAt(base, events, n) <==> MisjudgedAt(base, init, n)
      {
        MisjudgedAtEarlier(base, init, e, n);
      }
      assert MisjudgedAt(base, events, |init|) <==> Misjudges(base, init, Run(base, init), e);
    }
  }

  /** So the counter is exact if and only if new data always lands in a tracked hole or beyond the reach. */
  lemma RetransmitsExactIff(base: uint32, events: seq<Event>)
    requires WellCut(events)
    ensures Run(base, events).retransmits == DataCount(events) - |Distinct(events)| <==> FirstsLand(base, events)
  {
    RetransmitsCounted(base, events);
    NoneMisjudgedIff(base, events);
  }

  /** One tracked hole from `lo` to `hi` and a reach of `n`. */
  ghost predicate OneHole(base: uint32, t: Tracker, lo: int, hi: int, n: int) {
    |t.holes| == 1 && Lo(base, t.holes[0]) == lo && Hi(base, t.holes[0]) == hi && Reach(base, t) == n
  }

  lemma JumpLeavesHole(base: uint32, a: int, d: int, l: nat)
    requires 0 < a < d && d + l < HALF && l > 0
    ensures OneHole(base, Run(base, [Data(0, a), Data(d, l)]), a, d, d + l)
  {
    var e0, e1 := Data(0, a), Data(d, l);
    assert [e0, e1][..1] == [e0] && [e0][..0] == [];
    var t1 := Run(base, [e0]);
    assert Run(base, []) == UNTRACKED && t1 == Apply(base, UNTRACKED, e0);
    AtAdd(base, 0, a);
    AtAdd(base, d, l);
    RunSound(base, [e0]);
    OffAt(base, a);
    NewIsUnknown(base, [e0], t1, e1);
    JudgeByPosition(base, [e0], t1, e1);
    OffAt(base, d);
    OffAt(base, d + l);
  }

  /** Late data [b, c) inside the one hole [a, d). */
  lemma LateShrinksHole(base: uint32, events: seq<Event>, t: Tracker, b: int, c: int, a: int, d: int, n: int)
    requires events != [] && Sound(base, events, t) && OneHole(base, t, a, d, n)
    requires 0 <= a <= b < c < d <= n < HALF && Data(b, c - b) !in events
    ensures OneHole(base, Apply(base, t, Data(b, c - b)), if a < b then a else c, if a < b then b else d, n)
  {
    var e, h := Data(b, c - b), t.holes[0];
    assert h in t.holes && Hits(base, e, h);
    AtAdd(base, b, c - b);
    NewIsUnknown(base, events, t, e);
    JudgeByPosition(base, events, t, e);
    Compare(base, b, h.lo);
    Compare(base, c, h.hi);
  }

  /** The guard on late data is needed. After [0, a), a jump to [d, d+l) and late data [b, c) in the
      hole [a, d), the tail [c, d) has never been seen, yet it is judged a resend exactly when the
      late data left a gap in front of itself too. */
  lemma TailMisjudgedIffMiddleFill(base: uint32, a: int, b: int, c: int, d: int, l: nat)
    requires 0 < a <= b < c < d && d + l < HALF && l > 0
    ensures var run := [Data(0, a), Data(d, l), Data(b, c - b)];
            Judge(Run(base, run), At(base, c), d - c) == if a < b then Resend else Late(0)
  {
    var two := [Data(0, a), Data(d, l)];
    JumpLeavesHole(base, a, d, l);
    TailVerdict(base, two, b, c, a, d, d + l);
    assert two + [Data(b, c - b)] == [Data(0, a), Data(d, l), Data(b, c - b)];
  }

  /** The same with any history that left the one hole [a, d). */
  lemma TailVerdict(base: uint32, events: seq<Event>, b: int, c: int, a: int, d: int, n: int)
    requires 0 <= a <= b < c < d <= n < HALF
    requires events != [] && WellCut(events + [Data(b, c - b)]) && Data(b, c - b) !in events && Data(c, d - c) !in events
    requires (forall f | f in events :: InSpan(f)) && OneHole(base, Run(base, events), a, d, n)
    ensures Judge(Run(base, events + [Data(b, c - b)]), At(base, c), d - c) == if a < b then Resend else Late(0)
  {
    var late := Data(b, c - b);
    RunSnoc(base, events, late);
    assert forall f | f in events :: f in events + [late];
    RunSound(base, events);
    LateShrinksHole(base, events, Run(base, events), b, c, a, d, n);
    RunSound(base, events + [late]);
    VerdictBelow(base, events + [late], Data(c, d - c), if a < b then a else c, if a < b then b else d, n);
  }

  lemma RunSnoc(base: uint32, init: seq<Event>, e: Event)
    requires forall f | f in init + [e] :: InSpan(f)
    ensures (forall f | f in init :: InSpan(f)) && InSpan(e)
    ensures Run(base, init + [e]) == Apply(base, Run(base, init), e)
  {
    assert (init + [e])[..|init|] == init && e in init + [e];
    assert forall f | f in init :: f in init + [e];
  }

  /** New data below the reach, with one hole tracked. */
  lemma VerdictBelow(base: uint32, events: seq<Event>, e: Event, lo: int, hi: int, n: int)
    requires events != [] && WellCut(events) && Sound(base, events, Run(base, events))
    requires OneHole(base, Run(base, events), lo, hi, n)
    requires InSpan(e) && e.Data? && e !in events && e.End() <= n
    ensures Judge(Run(base, events), At(base, e.pos), e.len) ==
            if e.pos < hi && lo < e.End() then Late(0) else Resend
  {
    var t := Run(base, events);
    NewIsUnknown(base, events, t, e);
    JudgeByPosition(base, events, t, e);
    assert t.holes[0] in t.holes;
  }
}
