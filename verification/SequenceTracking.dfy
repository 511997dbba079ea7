/** Telling a resend from a late or early delivery, from the sequence numbers of one direction. */
module SequenceTracking {
  import opened Serial

  const RECENT_SEGMENT_WINDOW: nat := 64
  const MAX_TRACKED_HOLES: nat := 16

  datatype Hole = Hole(lo: uint32, hi: uint32)

  datatype Tracker = Tracker(
    seqValid: bool,
    nextSeq: uint32,
    recent: seq<nat>,
    holes: seq<Hole>,
    retransmits: nat,
    outOfOrder: nat)

  const UNTRACKED: Tracker := Tracker(false, 0, [], [], 0, 0)

  /** The (number, length) pair packed in 64 bits. */
  function Fingerprint(sn: uint32, len: uint32): nat {
    sn * WORD + len
  }

  predicate RangesOverlap(aLo: uint32, aHi: uint32, bLo: uint32, bHi: uint32) {
    SeqLt(aLo, bHi) && SeqLt(bLo, aHi)
  }

  /** Index of the first hole that [lo, hi) overlaps, or the number of holes. */
  function FirstOverlap(holes: seq<Hole>, lo: uint32, hi: uint32): (i: nat)
    ensures i <= |holes|
    ensures i < |holes| ==> RangesOverlap(lo, hi, holes[i].lo, holes[i].hi)
    ensures forall j | 0 <= j < i :: !RangesOverlap(lo, hi, holes[j].lo, holes[j].hi)
  {
    if holes == [] then 0
    else if RangesOverlap(lo, hi, holes[0].lo, holes[0].hi) then 0
    else 1 + FirstOverlap(holes[1..], lo, hi)
  }

  /** The holes after [lo, hi) lands in hole `i`: gone, cut from the front, or cut from the back. */
  function Fill(holes: seq<Hole>, i: nat, lo: uint32, hi: uint32): seq<Hole>
    requires i < |holes|
  {
    if SeqLe(holes[i].hi, hi) && SeqLe(lo, holes[i].lo) then holes[..i] + holes[i + 1..]
    else if SeqLe(lo, holes[i].lo) then holes[i := holes[i].(lo := hi)]
    else holes[i := holes[i].(hi := lo)]
  }

  function AppendCapped<T>(s: seq<T>, x: T, cap: nat): seq<T> {
    var t := s + [x];
    if |t| > cap then t[1..] else t
  }

  /** A segment without payload: `consumed` is 1 for a SYN or FIN. */
  function TrackControl(t: Tracker, sn: uint32, consumed: nat): Tracker {
    var end := Add32(sn, consumed);
    if !t.seqValid then t.(seqValid := true, nextSeq := end)
    else if SeqGt(end, t.nextSeq) then t.(nextSeq := end)
    else t
  }

  datatype Verdict = First | Resend | Late(hole: nat) | Jump | InOrder

  /** How a data segment is judged, before anything is updated. */
  function Judge(t: Tracker, sn: uint32, len: uint32): Verdict {
    var end := Add32(sn, len);
    if !t.seqValid then First
    else if Fingerprint(sn, len) in t.recent then Resend
    else if SeqLe(end, t.nextSeq) then
      var i := FirstOverlap(t.holes, sn, end);
      if i < |t.holes| then Late(i) else Resend
    else if SeqGt(sn, t.nextSeq) then Jump
    else InOrder
  }

  function TrackData(t: Tracker, sn: uint32, len: uint32): Tracker {
    var end := Add32(sn, len);
    var u := match Judge(t, sn, len)
      case First => t.(seqValid := true, nextSeq := end)
      case Resend => t.(retransmits := t.retransmits + 1)
      case Late(i) => t.(outOfOrder := t.outOfOrder + 1, holes := if i < |t.holes| then Fill(t.holes, i, sn, end) else t.holes)
      case Jump => t.(outOfOrder := t.outOfOrder + 1, nextSeq := end,
                      holes := AppendCapped(t.holes, Hole(t.nextSeq, sn), MAX_TRACKED_HOLES))
      case InOrder => t.(nextSeq := end);
    u.(recent := AppendCapped(t.recent, Fingerprint(sn, len), RECENT_SEGMENT_WINDOW))
  }
}

/** Runs of one direction, in stream positions: which resends are counted and which counts are right. */
module SequenceTheorems {
  import opened Serial
  import opened SequenceTracking

  /** What one packet of the direction occupies: its payload, or the number a SYN or FIN consumes. */
  datatype Event = Data(pos: int, len: nat) | Control(pos: int, len: nat)
  {
    function End(): int { pos + len }
    predicate Has(x: int) { pos <= x < pos + len }
  }

  /** The run spans less than 2^31 numbers from `base`, which may wrap anywhere in it. */
  predicate InSpan(e: Event) {
    0 <= e.pos && e.End() < HALF && if e.Data? then e.len > 0 else e.len <= 1
  }

  predicate SameOrApart(e: Event, f: Event) {
    e == f || e.End() <= f.pos || f.End() <= e.pos
  }

  ghost predicate WellCut(events: seq<Event>) {
    && (forall e | e in events :: InSpan(e))
    && (forall e, f | e in events && f in events && e.Data? && f.Data? :: SameOrApart(e, f))
  }

  function Apply(base: uint32, t: Tracker, e: Event): Tracker
    requires InSpan(e)
  {
    if e.Data? then TrackData(t, At(base, e.pos), e.len) else TrackControl(t, At(base, e.pos), e.len)
  }

  function Run(base: uint32, events: seq<Event>): Tracker
    requires forall e | e in events :: InSpan(e)
  {
    if events == [] then UNTRACKED
    else Apply(base, Run(base, events[..|events| - 1]), events[|events| - 1])
  }

  // -------------------------------------------------------------- the invariant

  /** Where the tracker expects the direction to continue. */
  function Reach(base: uint32, t: Tracker): int {
    Off(base, t.nextSeq)
  }

  function Lo(base: uint32, h: Hole): int { Off(base, h.lo) }
  function Hi(base: uint32, h: Hole): int { Off(base, h.hi) }

  /** A hole is a non-empty range below the reach that no seen data touches; a seen segment starts
      where it ends. */
  ghost predicate Missing(base: uint32, events: seq<Event>, n: int, h: Hole) {
    && Lo(base, h) < Hi(base, h) <= n
    && (forall e | e in events && e.Data? :: e.End() <= Lo(base, h) || Hi(base, h) <= e.pos)
    && (exists e :: e in events && e.Data? && e.pos == Hi(base, h))
  }

  ghost predicate Sorted(base: uint32, holes: seq<Hole>) {
    forall i, j | 0 <= i < j < |holes| :: Hi(base, holes[i]) <= Lo(base, holes[j])
  }

  ghost predicate Remembers(base: uint32, events: seq<Event>, f: nat) {
    exists e :: e in events && InSpan(e) && e.Data? && f == Fingerprint(At(base, e.pos), e.len)
  }

  ghost predicate Sound(base: uint32, events: seq<Event>, t: Tracker) {
    && (t.seqValid <==> events != [])
    && (if events == [] then t.recent == [] && t.holes == [] else Reach(base, t) < HALF)
    && (forall e | e in events :: e.End() <= Reach(base, t))
    && (forall f | f in t.recent :: Remembers(base, events, f))
    && (forall h | h in t.holes :: Missing(base, events, Reach(base, t), h))
    && Sorted(base, t.holes)
  }

  lemma FingerprintInjective(a: uint32, m: uint32, b: uint32, n: uint32)
    ensures Fingerprint(a, m) == Fingerprint(b, n) <==> a == b && m == n
  {
  }

  lemma SameFingerprint(base: uint32, e: Event, f: Event)
    requires InSpan(e) && InSpan(f) && e.Data? && f.Data?
    requires Fingerprint(At(base, e.pos), e.len) == Fingerprint(At(base, f.pos), f.len)
    ensures e == f
  {
    FingerprintInjective(At(base, e.pos), e.len, At(base, f.pos), f.len);
    SerialOrder(base, e.pos, f.pos);
  }

  /** The wire tests of the tracker, read in positions. */
  lemma Compare(base: uint32, x: int, sn: uint32)
    requires 0 <= x < HALF && Off(base, sn) < HALF
    ensures SeqLt(At(base, x), sn) <==> x < Off(base, sn)
    ensures SeqLt(sn, At(base, x)) <==> Off(base, sn) < x
    ensures SeqLe(At(base, x), sn) <==> x <= Off(base, sn)
    ensures SeqLe(sn, At(base, x)) <==> Off(base, sn) <= x
    ensures SeqGt(At(base, x), sn) <==> x > Off(base, sn)
    ensures Off(base, At(base, x)) == x
  {
    AtOff(base, sn);
    SerialOrder(base, x, Off(base, sn));
    SerialOrder(base, Off(base, sn), x);
    OffAt(base, x);
  }

  predicate Hits(base: uint32, e: Event, h: Hole) {
    e.pos < Hi(base, h) && Lo(base, h) < e.End()
  }

  lemma OverlapByPosition(base: uint32, e: Event, h: Hole)
    requires InSpan(e) && Hi(base, h) < HALF && Lo(base, h) < HALF
    ensures RangesOverlap(At(base, e.pos), At(base, e.End()), h.lo, h.hi) <==> Hits(base, e, h)
  {
    Compare(base, e.pos, h.hi);
    Compare(base, e.End(), h.lo);
  }

  /** The verdict in positions. A segment is judged a resend exactly when its fingerprint is still
      remembered, or it lies below the reach and touches no hole. */
  lemma JudgeByPosition(base: uint32, events: seq<Event>, t: Tracker, e: Event)
    requires Sound(base, events, t) && InSpan(e) && e.Data?
    ensures var v, n := Judge(t, At(base, e.pos), e.len), Reach(base, t);
            var known := Fingerprint(At(base, e.pos), e.len) in t.recent;
            && (v == First <==> events == [])
            && (v == Resend <==> events != [] && (known || (e.End() <= n && forall h | h in t.holes :: !Hits(base, e, h))))
            && (v.Late? ==> events != [] && v.hole < |t.holes| && Hits(base, e, t.holes[v.hole]) && e.End() <= n && !known)
            && (v == Jump <==> events != [] && !known && n < e.pos)
            && (v == InOrder <==> events != [] && !known && e.pos <= n < e.End())
  {
    if events == [] {
      return;
    }
    AtAdd(base, e.pos, e.len);
    Compare(base, e.End(), t.nextSeq);
    Compare(base, e.pos, t.nextSeq);
    forall h | h in t.holes
      ensures RangesOverlap(At(base, e.pos), At(base, e.End()), h.lo, h.hi) <==> Hits(base, e, h)
    {
      assert Missing(base, events, Reach(base, t), h);
      OverlapByPosition(base, e, h);
    }
  }

  // ------------------------------------------------------------------ keeping it

  lemma MissingGrows(base: uint32, events: seq<Event>, n: int, m: int, e: Event, h: Hole)
    requires Missing(base, events, n, h) && n <= m
    requires e.Data? ==> !Hits(base, e, h)
    ensures Missing(base, events + [e], m, h)
  {
    var f :| f in events && f.Data? && f.pos == Hi(base, h);
    assert f in events + [e];
  }

  lemma RecentGrows(base: uint32, events: seq<Event>, t: Tracker, e: Event)
    requires forall f | f in t.recent :: Remembers(base, events, f)
    ensures forall f | f in t.recent :: Remembers(base, events + [e], f)
    ensures InSpan(e) && e.Data? ==> forall f | f in Apply(base, t, e).recent :: Remembers(base, events + [e], f)
  {
    forall f | f in t.recent ensures Remembers(base, events + [e], f) {
      var g :| g in events && InSpan(g) && g.Data? && f == Fingerprint(At(base, g.pos), g.len);
      assert g in events + [e];
    }
    assert e in events + [e];
  }

  /** A new segment touches at most one hole: between two holes there is always seen data. */
  lemma HitsOnlyOne(base: uint32, events: seq<Event>, t: Tracker, e: Event, i: nat, j: nat)
    requires Sound(base, events, t) && WellCut(events + [e]) && e.Data? && e !in events
    requires i < |t.holes| && j < |t.holes| && i != j
    requires Hits(base, e, t.holes[i])
    ensures !Hits(base, e, t.holes[j])
  {
    var a, b := if i < j then i else j, if i < j then j else i;
    assert Missing(base, events, Reach(base, t), t.holes[a]) && Missing(base, events, Reach(base, t), t.holes[b]);
    assert Hi(base, t.holes[a]) <= Lo(base, t.holes[b]);
    var f :| f in events && f.Data? && f.pos == Hi(base, t.holes[a]);
    assert f in events + [e] && e in events + [e] && InSpan(f);
    assert SameOrApart(e, f);
  }

  /** A new segment that ends beyond the reach touches no hole. */
  lemma BeyondHitsNone(base: uint32, events: seq<Event>, t: Tracker, e: Event, h: Hole)
    requires Sound(base, events, t) && WellCut(events + [e]) && e.Data?
    requires h in t.holes && Reach(base, t) < e.End()
    ensures !Hits(base, e, h)
  {
    assert Missing(base, events, Reach(base, t), h);
    var f :| f in events && f.Data? && f.pos == Hi(base, h);
    assert f in events + [e] && e in events + [e] && InSpan(f);
    assert SameOrApart(e, f);
    assert f.End() <= Reach(base, t);
  }

  /** A segment already seen touches no hole. */
  lemma SeenHitsNone(base: uint32, events: seq<Event>, t: Tracker, e: Event, h: Hole)
    requires Sound(base, events, t) && e in events && e.Data? && h in t.holes
    ensures !Hits(base, e, h)
  {
    assert Missing(base, events, Reach(base, t), h);
  }

  lemma KnownIsSeen(base: uint32, events: seq<Event>, t: Tracker, e: Event)
    requires Sound(base, events, t) && InSpan(e) && e.Data?
    requires Fingerprint(At(base, e.pos), e.len) in t.recent
    ensures e in events
  {
    var g :| g in events && InSpan(g) && g.Data? &&
             Fingerprint(At(base, e.pos), e.len) == Fingerprint(At(base, g.pos), g.len);
    SameFingerprint(base, e, g);
  }

  lemma RemoveKeeps(base: uint32, events: seq<Event>, n: int, holes: seq<Hole>, i: nat)
    requires i < |holes| && Sorted(base, holes)
    requires forall j | 0 <= j < |holes| && j != i :: Missing(base, events, n, holes[j])
    ensures Sorted(base, holes[..i] + holes[i + 1..])
    ensures forall h | h in holes[..i] + holes[i + 1..] :: Missing(base, events, n, h)
  {
  }

  lemma ShrinkKeeps(base: uint32, events: seq<Event>, n: int, holes: seq<Hole>, i: nat, g: Hole)
    requires i < |holes| && Sorted(base, holes)
    requires forall j | 0 <= j < |holes| && j != i :: Missing(base, events, n, holes[j])
    requires Missing(base, events, n, g) && Lo(base, holes[i]) <= Lo(base, g) && Hi(base, g) <= Hi(base, holes[i])
    ensures Sorted(base, holes[i := g])
    ensures forall h | h in holes[i := g] :: Missing(base, events, n, h)
  {
  }

  /** The one hole a new segment lands in, after the landing. */
  lemma FillKeeps(base: uint32, events: seq<Event>, t: Tracker, e: Event, i: nat)
    requires Sound(base, events, t) && WellCut(events + [e]) && e.Data? && e !in events
    requires i < |t.holes| && Hits(base, e, t.holes[i]) && e.End() <= Reach(base, t)
    ensures var holes := Fill(t.holes, i, At(base, e.pos), At(base, e.End()));
            && Sorted(base, holes)
            && forall h | h in holes :: Missing(base, events + [e], Reach(base, t), h)
  {
    var h, n, all := t.holes[i], Reach(base, t), events + [e];
    assert Missing(base, events, n, h);
    assert e in all && InSpan(e);
    Compare(base, e.pos, h.lo);
    Compare(base, e.End(), h.hi);
    forall j | 0 <= j < |t.holes| && j != i ensures Missing(base, all, n, t.holes[j]) {
      assert Missing(base, events, n, t.holes[j]);
      HitsOnlyOne(base, events, t, e, i, j);
      MissingGrows(base, events, n, n, e, t.holes[j]);
    }
    if Hi(base, h) <= e.End() && e.pos <= Lo(base, h) {
      RemoveKeeps(base, all, n, t.holes, i);
    } else if e.pos <= Lo(base, h) {
      var f :| f in events && f.Data? && f.pos == Hi(base, h);
      assert f in all;
      ShrinkKeeps(base, all, n, t.holes, i, h.(lo := At(base, e.End())));
    } else {
      ShrinkKeeps(base, all, n, t.holes, i, h.(hi := At(base, e.pos)));
    }
  }

  lemma JumpKeeps(base: uint32, events: seq<Event>, t: Tracker, e: Event)
    requires Sound(base, events, t) && events != [] && WellCut(events + [e]) && e.Data? && Reach(base, t) < e.pos
    ensures var holes := AppendCapped(t.holes, Hole(t.nextSeq, At(base, e.pos)), MAX_TRACKED_HOLES);
            && Sorted(base, holes)
            && forall h | h in holes :: Missing(base, events + [e], e.End(), h)
  {
    assert e in events + [e];
    OffAt(base, e.pos);
    var h := Hole(t.nextSeq, At(base, e.pos));
    assert Missing(base, events + [e], e.End(), h);
    forall g | g in t.holes ensures Missing(base, events + [e], e.End(), g) {
      assert Missing(base, events, Reach(base, t), g);
      BeyondHitsNone(base, events, t, e, g);
      MissingGrows(base, events, Reach(base, t), e.End(), e, g);
    }
    var all := t.holes + [h];
    forall i, j | 0 <= i < j < |all| ensures Hi(base, all[i]) <= Lo(base, all[j]) {
      assert all[i] == t.holes[i];
      assert Missing(base, events, Reach(base, t), t.holes[i]);
    }
  }

  lemma SameHolesKeep(base: uint32, events: seq<Event>, t: Tracker, e: Event, m: int)
    requires Sound(base, events, t) && events != [] && Reach(base, t) <= m
    requires forall h | h in t.holes && e.Data? :: !Hits(base, e, h)
    ensures forall h | h in t.holes :: Missing(base, events + [e], m, h)
  {
    forall h | h in t.holes ensures Missing(base, events + [e], m, h) {
      MissingGrows(base, events, Reach(base, t), m, e, h);
    }
  }

  /** What a data segment leaves of the tracker, verdict by verdict. */
  lemma Applied(base: uint32, t: Tracker, e: Event)
    requires InSpan(e) && e.Data?
    ensures var u, end := Apply(base, t, e), At(base, e.End());
            && u.seqValid
            && u.nextSeq == (match Judge(t, At(base, e.pos), e.len) case Resend => t.nextSeq case Late(_) => t.nextSeq case _ => end)
            && u.holes == match Judge(t, At(base, e.pos), e.len)
               case Late(i) => if i < |t.holes| then Fill(t.holes, i, At(base, e.pos), end) else t.holes
               case Jump => AppendCapped(t.holes, Hole(t.nextSeq, At(base, e.pos)), MAX_TRACKED_HOLES)
               case _ => t.holes
  {
    AtAdd(base, e.pos, e.len);
  }

  lemma SoundByParts(base: uint32, events: seq<Event>, t: Tracker, e: Event, u: Tracker)
    requires Sound(base, events, t) && InSpan(e) && u.seqValid
    requires Reach(base, u) < HALF && e.End() <= Reach(base, u)
    requires events != [] ==> Reach(base, t) <= Reach(base, u)
    requires forall f | f in u.recent :: Remembers(base, events + [e], f)
    requires Sorted(base, u.holes) && forall h | h in u.holes :: Missing(base, events + [e], Reach(base, u), h)
    ensures Sound(base, events + [e], u)
  {
  }

  lemma DataKeepsHoles(base: uint32, events: seq<Event>, t: Tracker, e: Event)
    requires Sound(base, events, t) && WellCut(events + [e]) && InSpan(e) && e.Data? && events != []
    ensures var u := Apply(base, t, e);
            && Reach(base, t) <= Reach(base, u) < HALF && e.End() <= Reach(base, u)
            && Sorted(base, u.holes) && forall h | h in u.holes :: Missing(base, events + [e], Reach(base, u), h)
  {
    JudgeByPosition(base, events, t, e);
    Applied(base, t, e);
    OffAt(base, e.End());
    var v, n := Judge(t, At(base, e.pos), e.len), Reach(base, t);
    if Fingerprint(At(base, e.pos), e.len) in t.recent {
      KnownIsSeen(base, events, t, e);
    }
    match v
    case First =>
    case Late(i) =>
      forall h | h in t.holes && e in events ensures !Hits(base, e, h) {
        SeenHitsNone(base, events, t, e, h);
      }
      FillKeeps(base, events, t, e, i);
    case Jump =>
      JumpKeeps(base, events, t, e);
    case Resend =>
      ResendHitsNone(base, events, t, e);
      SameHolesKeep(base, events, t, e, n);
    case InOrder =>
      forall h | h in t.holes ensures !Hits(base, e, h) {
        BeyondHitsNone(base, events, t, e, h);
      }
      SameHolesKeep(base, events, t, e, e.End());
  }

  lemma ResendHitsNone(base: uint32, events: seq<Event>, t: Tracker, e: Event)
    requires Sound(base, events, t) && InSpan(e) && e.Data? && Judge(t, At(base, e.pos), e.len) == Resend
    ensures e.End() <= Reach(base, t) && forall h | h in t.holes :: !Hits(base, e, h)
  {
    JudgeByPosition(base, events, t, e);
    if Fingerprint(At(base, e.pos), e.len) in t.recent {
      KnownIsSeen(base, events, t, e);
      forall h | h in t.holes ensures !Hits(base, e, h) {
        SeenHitsNone(base, events, t, e, h);
      }
    }
  }

  lemma DataKeepsSound(base: uint32, events: seq<Event>, t: Tracker, e: Event)
    requires Sound(base, events, t) && WellCut(events + [e]) && InSpan(e) && e.Data?
    ensures Sound(base, events + [e], Apply(base, t, e))
  {
    var u := Apply(base, t, e);
    RecentGrows(base, events, t, e);
    Applied(base, t, e);
    if events == [] {
      JudgeByPosition(base, events, t, e);
      OffAt(base, e.End());
    } else {
      DataKeepsHoles(base, events, t, e);
    }
    SoundByParts(base, events, t, e, u);
  }

  lemma ControlKeepsSound(base: uint32, events: seq<Event>, t: Tracker, e: Event)
    requires Sound(base, events, t) && InSpan(e) && e.Control?
    ensures Sound(base, events + [e], Apply(base, t, e))
  {
    AtAdd(base, e.pos, e.len);
    OffAt(base, e.End());
    RecentGrows(base, events, t, e);
    var end := At(base, e.End());
    if events == [] {
      assert Apply(base, t, e) == t.(seqValid := true, nextSeq := end);
    } else {
      Compare(base, e.End(), t.nextSeq);
      var m := if e.End() > Reach(base, t) then e.End() else Reach(base, t);
      SameHolesKeep(base, events, t, e, m);
      assert Apply(base, t, e) == if SeqGt(end, t.nextSeq) then t.(nextSeq := end) else t;
    }
  }

  lemma {:induction false} RunSound(base: uint32, events: seq<Event>)
    requires WellCut(events)
    ensures Sound(base, events, Run(base, events))
  {
    if events != [] {
      var init, e := events[..|events| - 1], events[|events| - 1];
      RunSound(base, init);
      assert events == init + [e];
      if e.Data? {
        DataKeepsSound(base, init, Run(base, init), e);
      } else {
        ControlKeepsSound(base, init, Run(base, init), e);
      }
    }
  }

  // ------------------------------------------------------------- main results

  /** No resend is missed, however long ago the first copy was: every repeat of a data segment of
      the run is judged a retransmission. */
  lemma NoResendMissed(base: uint32, events: seq<Event>, e: Event)
    requires WellCut(events) && e in events && e.Data?
    ensures Judge(Run(base, events), At(base, e.pos), e.len) == Resend
    ensures Apply(base, Run(base, events), e).retransmits == Run(base, events).retransmits + 1
  {
    var t := Run(base, events);
    RunSound(base, events);
    JudgeByPosition(base, events, t, e);
    forall h | h in t.holes ensures !Hits(base, e, h) {
      SeenHitsNone(base, events, t, e, h);
    }
  }

  function DataCount(events: seq<Event>): nat {
    if events == [] then 0
    else DataCount(events[..|events| - 1]) + if events[|events| - 1].Data? then 1 else 0
  }

  function Distinct(events: seq<Event>): set<Event> {
    set e | e in events && e.Data?
  }

  lemma DistinctSnoc(init: seq<Event>, e: Event)
    ensures Distinct(init + [e]) == Distinct(init) + if e.Data? then {e} else {}
    ensures |Distinct(init + [e])| == |Distinct(init)| + if e.Data? && e !in init then 1 else 0
  {
    assert Distinct(init + [e]) == Distinct(init) + if e.Data? then {e} else {};
  }

  /** So the counter is never below the number of data segments that were repeats. */
  lemma {:induction false} RetransmitsAtLeastRepeats(base: uint32, events: seq<Event>)
    requires WellCut(events)
    ensures Run(base, events).retransmits >= DataCount(events) - |Distinct(events)|
  {
    if events != [] {
      var init, e := events[..|events| - 1], events[|events| - 1];
      assert events == init + [e];
      RetransmitsAtLeastRepeats(base, init);
      DistinctSnoc(init, e);
      if e.Data? && e in init {
        NoResendMissed(base, init, e);
      }
    }
  }
}
