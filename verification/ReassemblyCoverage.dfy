/** How far reassembly gets: whatever is accepted is held, across the wrap too; where the numbers ascend, all of the
    longest initial run accepted is delivered, so arrival order and re-segmentation do not matter. */
module ReassemblyCoverage {
  import opened Serial
  import opened Reassembly
  import opened ReassemblySafety
  import MapSum

  predicate In(g: Segment, x: int) {
    g.pos <= x < g.pos + |g.data|
  }

  /** Some pushed segment carried byte `x`. */
  ghost predicate Covered(segs: seq<Segment>, x: int) {
    exists i | 0 <= i < |segs| :: In(segs[i], x)
  }

  function Piece(base: uint32, s: Stream, k: uint32): Segment
    requires k in s.pending
  {
    Segment(Off(base, k), s.pending[k])
  }

  /** The reassembler still has byte `x`, delivered or pending. */
  ghost predicate Has(base: uint32, s: Stream, x: int) {
    x < s.delivered || exists k | k in s.pending :: In(Piece(base, s, k), x)
  }

  /** The run spans at most 2^31 positions; its numbers may wrap anywhere in it. */
  predicate Spanned(g: Segment) {
    0 <= g.pos < HALF && g.pos + |g.data| <= HALF
  }

  /** The numbers of positions 1 to `pos` ascend: they do not wrap, or wrap before the first of them. */
  predicate Ascending(base: uint32, pos: int) {
    base + pos < WORD || base + 1 == WORD
  }

  predicate Unwrapped(base: uint32, g: Segment) {
    Spanned(g) && Ascending(base, g.pos)
  }

  ghost predicate Straight(base: uint32, s: Stream) {
    && s.initialized
    && s.delivered <= HALF
    && s.next == At(base, s.delivered)
    && (forall k | k in s.pending :: s.pending[k] != [] && 0 < Off(base, k) && Spanned(Piece(base, s, k)))
  }

  ghost predicate AllAhead(base: uint32, s: Stream) {
    forall k | k in s.pending :: s.delivered < Off(base, k)
  }

  lemma KeyOrder(base: uint32, s: Stream, k: uint32)
    requires Straight(base, s) && k in s.pending
    ensures SeqGt(k, s.next) <==> s.delivered < Off(base, k)
    ensures Off(base, k) <= s.delivered ==> Sub32(s.next, k) == s.delivered - Off(base, k)
  {
    AtOff(base, k);
    assert Spanned(Piece(base, s, k));
    Difference(base, s.delivered, Off(base, k));
    SerialOrder(base, Off(base, k), s.delivered);
  }

  /** Delivering the bytes from the expected position on moves that position past them. */
  lemma DeliverHas(c: Caps, base: uint32, s: Stream, data: seq<byte>)
    requires Straight(base, s) && s.delivered + |data| <= HALF
    ensures Straight(base, Deliver(c, s, data))
    ensures forall x :: Has(base, Deliver(c, s, data), x) <==> Has(base, s, x) || x < s.delivered + |data|
  {
    var t := Deliver(c, s, data);
    AtAdd(base, s.delivered, |data|);
    assert t.pending == s.pending;
    forall k | k in t.pending ensures Piece(base, t, k) == Piece(base, s, k) {
    }
  }

  lemma ReleaseHas(c: Caps, base: uint32, s: Stream, k: uint32)
    requires Straight(base, s) && k in s.pending && Off(base, k) <= s.delivered
    ensures Straight(base, Release(c, s, k))
    ensures forall x | 0 <= x :: Has(base, Release(c, s, k), x) <==> Has(base, s, x)
  {
    KeyOrder(base, s, k);
    var bytes := s.pending[k];
    var already := Sub32(s.next, k);
    var rest := s.(pending := s.pending - {k}, bufferedBytes := s.bufferedBytes - |bytes|);
    assert Spanned(Piece(base, s, k));
    assert forall j | j in rest.pending :: Piece(base, rest, j) == Piece(base, s, j);
    assert Straight(base, rest);
    forall x | 0 <= x
      ensures Has(base, s, x) <==> Has(base, rest, x) || In(Piece(base, s, k), x)
    {
      if j :| j in s.pending && In(Piece(base, s, j), x) {
        assert j == k || (j in rest.pending && In(Piece(base, rest, j), x));
      }
      if j :| j in rest.pending && In(Piece(base, rest, j), x) {
        assert j in s.pending && In(Piece(base, s, j), x);
      }
    }
    if already < |bytes| {
      DeliverHas(c, base, rest.(overlap := s.overlap + already), bytes[already..]);
      SameHas(base, rest, rest.(overlap := s.overlap + already));
    } else {
      SameHas(base, rest, rest.(overlap := s.overlap + |bytes|));
    }
  }

  /** Counters play no part in what is held. */
  lemma SameHas(base: uint32, s: Stream, t: Stream)
    requires s.pending == t.pending && s.delivered == t.delivered
    ensures forall x :: Has(base, s, x) <==> Has(base, t, x)
    ensures Straight(base, s) && s.next == t.next && s.initialized == t.initialized ==> Straight(base, t)
  {
    assert forall k | k in s.pending :: Piece(base, s, k) == Piece(base, t, k);
  }

  lemma {:induction false} DrainHas(c: Caps, base: uint32, s: Stream)
    requires Straight(base, s)
    ensures Straight(base, Drain(c, s))
    ensures forall x | 0 <= x :: Has(base, Drain(c, s), x) <==> Has(base, s, x)
    decreases |s.pending|
  {
    if s.pending != map[] && !SeqGt(MinKey(s.pending), s.next) {
      var k := MinKey(s.pending);
      KeyOrder(base, s, k);
      ReleaseHas(c, base, s, k);
      DrainHas(c, base, Release(c, s, k));
    }
  }

  lemma HoldHas(c: Caps, base: uint32, s: Stream, g: Segment)
    requires Straight(base, s) && Spanned(g) && g.data != []
    requires s.delivered < g.pos && !Overflows(c, s, g.data)
    ensures var t := Hold(c, s, At(base, g.pos), g.data);
            && Straight(base, t)
            && forall x | 0 <= x :: Has(base, t, x) <==> Has(base, s, x) || In(g, x)
  {
    var sn := At(base, g.pos);
    OffAt(base, g.pos);
    var t := Hold(c, s, sn, g.data);
    forall x | 0 <= x ensures Has(base, t, x) <==> Has(base, s, x) || In(g, x) {
      if j :| j in s.pending && In(Piece(base, s, j), x) {
        assert j in t.pending && In(Piece(base, t, j), x);
      }
      if In(g, x) {
        assert sn in t.pending && In(Piece(base, t, sn), x);
      }
      if j :| j in t.pending && In(Piece(base, t, j), x) {
        assert if j == sn && t.pending[j] == g.data then In(g, x)
               else j in s.pending && In(Piece(base, s, j), x);
      }
    }
    assert forall k | k in t.pending && k != sn :: k in s.pending && Piece(base, t, k) == Piece(base, s, k);
  }

  /** Whether the segment is not refused. */
  ghost predicate Taken(c: Caps, base: uint32, s: Stream, g: Segment) {
    RefusedBytes(c, s, At(base, g.pos), g.data) == 0
  }

  /** One arrival: exactly its bytes are gained, or it was refused. */
  lemma FeedOneHas(c: Caps, base: uint32, s: Stream, g: Segment)
    requires Straight(base, s) && Spanned(g)
    ensures var t := FeedOne(c, base, s, g);
            && Straight(base, t)
            && forall x | 0 <= x :: Has(base, t, x) <==> Has(base, s, x) || (Taken(c, base, s, g) && In(g, x))
  {
    if !Taken(c, base, s, g) {
      SameHas(base, s, FeedOne(c, base, s, g));
    } else if g.data != [] {
      TakenHas(c, base, s, g);
    }
  }

  lemma TakenHas(c: Caps, base: uint32, s: Stream, g: Segment)
    requires Straight(base, s) && Spanned(g) && g.data != [] && Taken(c, base, s, g)
    ensures var t := FeedOne(c, base, s, g);
            && Straight(base, t)
            && forall x | 0 <= x :: Has(base, t, x) <==> Has(base, s, x) || In(g, x)
  {
    ByPosition(c, base, s, g);
    SerialOrder(base, g.pos, s.delivered);
    var already := s.delivered - g.pos;
    if already <= 0 {
      PlaceHas(c, base, s, g);
    } else {
      var t := s.(overlap := s.overlap + if already < |g.data| then already else |g.data|);
      SameHas(base, s, t);
      if already < |g.data| {
        PlaceHas(c, base, t, Segment(s.delivered, g.data[already..]));
      }
    }
  }

  lemma PlaceHas(c: Caps, base: uint32, s: Stream, g: Segment)
    requires Straight(base, s)
    requires s.delivered <= g.pos && g.data != []
    requires if g.pos == s.delivered then g.pos + |g.data| <= HALF else Spanned(g)
    requires g.pos != s.delivered ==> !Overflows(c, s, g.data)
    ensures var t := Place(c, s, At(base, g.pos), g.data);
            && Straight(base, t)
            && forall x | 0 <= x :: Has(base, t, x) <==> Has(base, s, x) || In(g, x)
  {
    SerialOrder(base, g.pos, s.delivered);
    if g.pos == s.delivered {
      DeliverHas(c, base, s, g.data);
      DrainHas(c, base, Deliver(c, s, g.data));
    } else {
      HoldHas(c, base, s, g);
    }
  }

  lemma {:induction false} DrainRemoves(c: Caps, s: Stream)
    ensures forall k | k in Drain(c, s).pending :: k in s.pending && Drain(c, s).pending[k] == s.pending[k]
    decreases |s.pending|
  {
    if s.pending != map[] && !SeqGt(MinKey(s.pending), s.next) {
      DrainRemoves(c, Release(c, s, MinKey(s.pending)));
    }
  }

  ghost predicate NothingRefused(c: Caps, base: uint32, segs: seq<Segment>) {
    Books(c, base, segs).refused == 0
  }

  /** The segments that were not refused. */
  ghost function Accepted(c: Caps, base: uint32, segs: seq<Segment>): seq<Segment> {
    if segs == [] then []
    else
      var init, g := segs[..|segs| - 1], segs[|segs| - 1];
      Accepted(c, base, init) + if Taken(c, base, Feed(c, base, init), g) then [g] else []
  }

  lemma {:induction false} AcceptedArePushed(c: Caps, base: uint32, segs: seq<Segment>)
    ensures forall g | g in Accepted(c, base, segs) :: g in segs
    ensures NothingRefused(c, base, segs) ==> Accepted(c, base, segs) == segs
  {
    if segs != [] {
      AcceptedArePushed(c, base, segs[..|segs| - 1]);
      assert segs == segs[..|segs| - 1] + [segs[|segs| - 1]];
    }
  }

  ghost predicate Complete(base: uint32, s: Stream, segs: seq<Segment>) {
    Straight(base, s) && forall x | 0 <= x :: Has(base, s, x) <==> Covered(segs, x)
  }

  /** Across the wrap too, a byte is delivered or pending if and only if some accepted segment carried it. */
  lemma {:induction false} RunComplete(c: Caps, base: uint32, segs: seq<Segment>)
    requires forall g | g in segs :: Spanned(g)
    ensures Complete(base, Feed(c, base, segs), Accepted(c, base, segs))
  {
    if segs != [] {
      var init, g := segs[..|segs| - 1], segs[|segs| - 1];
      RunComplete(c, base, init);
      FeedOneHas(c, base, Feed(c, base, init), g);
      if Taken(c, base, Feed(c, base, init), g) {
        CoveredSnoc(Accepted(c, base, init), g);
      } else {
        assert Accepted(c, base, segs) == Accepted(c, base, init);
      }
    }
  }

  lemma CoveredSnoc(init: seq<Segment>, g: Segment)
    ensures forall x :: Covered(init + [g], x) <==> Covered(init, x) || In(g, x)
  {
    var all := init + [g];
    forall x ensures Covered(all, x) <==> Covered(init, x) || In(g, x) {
      if i :| 0 <= i < |init| && In(init[i], x) {
        assert In(all[i], x);
      }
      if In(g, x) {
        assert In(all[|init|], x);
      }
    }
  }

  /** `n` is the length of the longest initial run covered by the segments. */
  ghost predicate LongestRun(segs: seq<Segment>, n: nat) {
    (forall x | 0 <= x < n :: Covered(segs, x)) && !Covered(segs, n)
  }

  lemma DeliveredIsCovered(c: Caps, base: uint32, segs: seq<Segment>)
    requires forall g | g in segs :: Spanned(g)
    ensures forall x | 0 <= x < Feed(c, base, segs).delivered :: Covered(Accepted(c, base, segs), x)
  {
    RunComplete(c, base, segs);
    var s := Feed(c, base, segs);
    forall x | 0 <= x < s.delivered ensures Covered(Accepted(c, base, segs), x) {
      assert Has(base, s, x);
    }
  }

  /** Nothing is delivered or pending beyond what was pushed. */
  lemma StaysWithin(c: Caps, base: uint32, segs: seq<Segment>, size: nat)
    requires forall g | g in segs :: Spanned(g) && g.pos + |g.data| <= size
    ensures var s := Feed(c, base, segs);
            Straight(base, s) && s.delivered <= size && forall k | k in s.pending :: Off(base, k) + |s.pending[k]| <= size
  {
    var s, taken := Feed(c, base, segs), Accepted(c, base, segs);
    RunComplete(c, base, segs);
    AcceptedArePushed(c, base, segs);
    assert forall x | Covered(taken, x) :: x < size;
    if s.delivered > 0 {
      assert Has(base, s, s.delivered - 1);
    }
    forall k | k in s.pending ensures Off(base, k) + |s.pending[k]| <= size {
      assert In(Piece(base, s, k), Off(base, k) + |s.pending[k]| - 1);
      assert Has(base, s, Off(base, k) + |s.pending[k]| - 1);
    }
  }

  /** In every run, wrapped or not: all of the longest initial run accepted is delivered if and only if nothing pending
      holds the expected byte. */
  lemma LongestRunIff(c: Caps, base: uint32, segs: seq<Segment>)
    requires forall g | g in segs :: Spanned(g)
    ensures var s := Feed(c, base, segs);
            LongestRun(Accepted(c, base, segs), s.delivered)
            <==> forall k | k in s.pending :: !In(Piece(base, s, k), s.delivered)
  {
    RunComplete(c, base, segs);
    DeliveredIsCovered(c, base, segs);
    var s := Feed(c, base, segs);
    assert Has(base, s, s.delivered) <==> Covered(Accepted(c, base, segs), s.delivered);
  }

  // ------------------------------------------------------ where the numbers ascend

  /** Pending numbers stand in the order of their positions. */
  ghost predicate Rising(base: uint32, s: Stream) {
    forall j, k | j in s.pending && k in s.pending && j < k :: Off(base, j) < Off(base, k)
  }

  lemma {:induction false} DrainAhead(c: Caps, base: uint32, s: Stream)
    requires Straight(base, s) && Rising(base, s)
    ensures AllAhead(base, Drain(c, s))
    decreases |s.pending|
  {
    if s.pending != map[] {
      var k := MinKey(s.pending);
      KeyOrder(base, s, k);
      if !SeqGt(k, s.next) {
        ReleaseHas(c, base, s, k);
        DrainAhead(c, base, Release(c, s, k));
      }
    }
  }

  /** What is pending in a run whose numbers ascend. */
  ghost predicate Climbing(base: uint32, s: Stream) {
    forall k | k in s.pending :: Ascending(base, Off(base, k))
  }

  lemma ClimbingRises(base: uint32, s: Stream)
    requires Straight(base, s) && Climbing(base, s)
    ensures Rising(base, s)
  {
    forall j, k | j in s.pending && k in s.pending && j < k ensures Off(base, j) < Off(base, k) {
      AtOff(base, j);
      AtOff(base, k);
      assert Spanned(Piece(base, s, j)) && Spanned(Piece(base, s, k));
    }
  }

  lemma PlaceAhead(c: Caps, base: uint32, s: Stream, g: Segment)
    requires Straight(base, s) && Climbing(base, s) && AllAhead(base, s)
    requires s.delivered <= g.pos && g.data != []
    requires if g.pos == s.delivered then g.pos + |g.data| <= HALF else Unwrapped(base, g)
    ensures Climbing(base, Place(c, s, At(base, g.pos), g.data)) && AllAhead(base, Place(c, s, At(base, g.pos), g.data))
  {
    SerialOrder(base, g.pos, s.delivered);
    if g.pos == s.delivered {
      var t := Deliver(c, s, g.data);
      DeliverHas(c, base, s, g.data);
      ClimbingRises(base, t);
      DrainAhead(c, base, t);
      DrainRemoves(c, t);
    } else {
      OffAt(base, g.pos);
    }
  }

  lemma FeedOneAhead(c: Caps, base: uint32, s: Stream, g: Segment)
    requires Straight(base, s) && Climbing(base, s) && AllAhead(base, s) && Unwrapped(base, g)
    ensures Climbing(base, FeedOne(c, base, s, g)) && AllAhead(base, FeedOne(c, base, s, g))
  {
    if g.data != [] {
      ByPosition(c, base, s, g);
      var already := s.delivered - g.pos;
      if already <= 0 {
        PlaceAhead(c, base, s, g);
      } else if already < |g.data| {
        PlaceAhead(c, base, s.(overlap := s.overlap + already), Segment(s.delivered, g.data[already..]));
      }
    }
  }

  lemma {:induction false} RunAhead(c: Caps, base: uint32, segs: seq<Segment>)
    requires forall g | g in segs :: Unwrapped(base, g)
    ensures Climbing(base, Feed(c, base, segs)) && AllAhead(base, Feed(c, base, segs))
  {
    if segs != [] {
      var init, g := segs[..|segs| - 1], segs[|segs| - 1];
      RunAhead(c, base, init);
      RunComplete(c, base, init);
      FeedOneAhead(c, base, Feed(c, base, init), g);
    }
  }

  /** The main result: what was delivered is the longest initial run accepted, and whatever is
      pending lies strictly beyond it. */
  lemma DeliversLongestRun(c: Caps, base: uint32, segs: seq<Segment>)
    requires forall g | g in segs :: Unwrapped(base, g)
    ensures LongestRun(Accepted(c, base, segs), Feed(c, base, segs).delivered)
    ensures AllAhead(base, Feed(c, base, segs))
  {
    RunAhead(c, base, segs);
    LongestRunIff(c, base, segs);
  }

  /** Two runs of which the same bytes are accepted deliver the same prefix, however they were cut, ordered,
      overlapped and repeated. */
  lemma ArrivalOrderIrrelevant(c: Caps, base: uint32, truth: Truth, a: seq<Segment>, b: seq<Segment>)
    requires c.prefix <= HALF
    requires forall g | g in a + b :: Unwrapped(base, g) && Agrees(truth, g.pos, g.data)
    requires forall x | 0 <= x :: Covered(Accepted(c, base, a), x) <==> Covered(Accepted(c, base, b), x)
    ensures Feed(c, base, a).delivered == Feed(c, base, b).delivered
    ensures Feed(c, base, a).prefix == Feed(c, base, b).prefix
  {
    assert forall g | g in a || g in b :: g in a + b;
    DeliversLongestRun(c, base, a);
    DeliversLongestRun(c, base, b);
    SpannedIsNear(c, base, a);
    SpannedIsNear(c, base, b);
    PrefixIsTrue(c, base, truth, a);
    PrefixIsTrue(c, base, truth, b);
    var m, n := Feed(c, base, a).delivered, Feed(c, base, b).delivered;
    assert m < n ==> Covered(Accepted(c, base, b), m);
    assert n < m ==> Covered(Accepted(c, base, a), n);
  }

  lemma {:induction false} SpannedIsNear(c: Caps, base: uint32, segs: seq<Segment>)
    requires forall g | g in segs :: Spanned(g)
    ensures NearRun(c, base, segs)
  {
    if segs != [] {
      SpannedIsNear(c, base, segs[..|segs| - 1]);
      RunComplete(c, base, segs[..|segs| - 1]);
      assert Spanned(segs[|segs| - 1]);
    }
  }

  // ------------------------------------------------------------ fitting the caps

  predicate SameOrApart(g: Segment, h: Segment) {
    g == h || g.pos + |g.data| <= h.pos || h.pos + |h.data| <= g.pos
  }

  /** Non-empty pieces of one message of `size` bytes, each cut the same way whenever it is sent. */
  ghost predicate Pieces(segs: seq<Segment>, size: nat) {
    && (forall g | g in segs :: g.data != [] && 0 <= g.pos && g.pos + |g.data| <= size)
    && (forall g, h | g in segs && h in segs :: SameOrApart(g, h))
  }

  ghost predicate HoldsPieces(base: uint32, s: Stream, segs: seq<Segment>) {
    forall k | k in s.pending :: Piece(base, s, k) in segs
  }

  /** Disjoint pending segments within [lo, size) take up at most size - lo bytes. */
  lemma {:induction false} PiecesFit(base: uint32, m: map<uint32, seq<byte>>, lo: nat, size: nat)
    requires lo <= size
    requires forall k | k in m :: m[k] != [] && lo <= Off(base, k) && Off(base, k) + |m[k]| <= size
    requires forall j, k | j in m && k in m && j != k :: SameOrApart(Segment(Off(base, j), m[j]), Segment(Off(base, k), m[k]))
    ensures MapSum.Sum(m, Size) <= size - lo
    decreases size - lo
  {
    if lo < size {
      var k := At(base, lo);
      NoOtherAt(base, m, lo);
      if k in m {
        OffAt(base, lo);
        MapSum.Remove(m, Size, k);
        PiecesFit(base, m - {k}, lo + |m[k]|, size);
      } else {
        PiecesFit(base, m, lo + 1, size);
      }
    } else {
      assert m == map[];
    }
  }

  lemma NoOtherAt(base: uint32, m: map<uint32, seq<byte>>, pos: nat)
    ensures forall j | j in m && Off(base, j) == pos :: j == At(base, pos)
  {
    forall j | j in m && Off(base, j) == pos ensures j == At(base, pos) {
      AtOff(base, j);
    }
  }

  /** Pieces of a message that fits the prefix and half the buffer are never refused, in whatever
      order and however often they arrive; what is pending is always whole pieces. */
  lemma {:induction false} PiecesNeverRefused(c: Caps, base: uint32, segs: seq<Segment>, size: nat)
    requires Pieces(segs, size) && size <= HALF
    requires size <= c.prefix && 2 * size <= c.buffered
    ensures NothingRefused(c, base, segs)
    ensures HoldsPieces(base, Feed(c, base, segs), segs)
  {
    if segs != [] {
      var init, g := segs[..|segs| - 1], segs[|segs| - 1];
      PiecesNeverRefused(c, base, init, size);
      var s := Feed(c, base, init);
      RunComplete(c, base, init);
      Position(c, base, init);
      EveryByteAccounted(c, base, init);
      HeldPiecesFit(base, s, init, size);
      PieceAccepted(c, base, s, g, init, size);
      assert segs == init + [g];
    }
  }

  lemma PieceAccepted(c: Caps, base: uint32, s: Stream, g: Segment, before: seq<Segment>, size: nat)
    requires Straight(base, s) && Placed(c, base, s) && s.bufferedBytes <= size
    requires Spanned(g) && g.data != [] && g.pos + |g.data| <= size
    requires size <= c.prefix && 2 * size <= c.buffered && HoldsPieces(base, s, before)
    ensures RefusedBytes(c, s, At(base, g.pos), g.data) == 0
    ensures HoldsPieces(base, FeedOne(c, base, s, g), before + [g])
  {
    SerialOrder(base, g.pos, s.delivered);
    var t := FeedOne(c, base, s, g);
    if g.pos <= s.delivered {
      DeliverOrDrainKeeps(c, base, s, g);
    } else {
      OffAt(base, g.pos);
    }
    forall k | k in t.pending ensures Piece(base, t, k) in before + [g] {
      if k in s.pending && t.pending[k] == s.pending[k] {
        assert Piece(base, t, k) == Piece(base, s, k);
      } else {
        assert Piece(base, t, k) == g == (before + [g])[|before|];
      }
    }
  }

  lemma HeldPiecesFit(base: uint32, s: Stream, segs: seq<Segment>, size: nat)
    requires Pieces(segs, size) && HoldsPieces(base, s, segs) && Straight(base, s)
    ensures Held(s) <= size
  {
    forall k | k in s.pending ensures Piece(base, s, k) in segs {
    }
    forall j, k | j in s.pending && k in s.pending && j != k
      ensures SameOrApart(Piece(base, s, j), Piece(base, s, k))
    {
    }
    PiecesFit(base, s.pending, 0, size);
  }

  /** However they are cut, segments of a message that fits the prefix are never refused while all that was pushed fits
      the buffer. */
  lemma {:induction false} FewBytesNeverRefused(c: Caps, base: uint32, segs: seq<Segment>, size: nat)
    requires (forall g | g in segs :: Spanned(g) && g.pos + |g.data| <= size) && size <= c.prefix
    requires Books(c, base, segs).pushed <= c.buffered
    ensures NothingRefused(c, base, segs)
  {
    if segs != [] {
      var init, g := segs[..|segs| - 1], segs[|segs| - 1];
      FewBytesNeverRefused(c, base, init, size);
      RunComplete(c, base, init);
      Position(c, base, init);
      EveryByteAccounted(c, base, init);
      assert g in segs;
      SerialOrder(base, g.pos, Feed(c, base, init).delivered);
    }
  }

  lemma DeliverOrDrainKeeps(c: Caps, base: uint32, s: Stream, g: Segment)
    requires s.initialized
    requires SeqLt(At(base, g.pos), s.next) || At(base, g.pos) == s.next
    ensures forall k | k in FeedOne(c, base, s, g).pending ::
              k in s.pending && FeedOne(c, base, s, g).pending[k] == s.pending[k]
  {
    var sn, data := At(base, g.pos), g.data;
    if data != [] && SeqLt(sn, s.next) && Sub32(s.next, sn) < |data| {
      var already := Sub32(s.next, sn);
      DrainRemoves(c, Deliver(c, s.(overlap := s.overlap + already), data[already..]));
    } else if data != [] && sn == s.next {
      DrainRemoves(c, Deliver(c, s, data));
    }
  }

  /** Non-empty segments within the first `n` bytes. */
  ghost predicate Inside(segs: seq<Segment>, n: nat) {
    forall g | g in segs :: g.data != [] && 0 <= g.pos && g.pos + |g.data| <= n
  }

  /** The sum of the first numbers. */
  function Triangle(i: nat): nat {
    if i == 0 then 0 else i + Triangle(i - 1)
  }

  lemma {:induction false} TriangleTwice(i: nat)
    ensures 2 * Triangle(i) == i * (i + 1)
  {
    if i > 0 {
      TriangleTwice(i - 1);
      assert i * (i + 1) == (i - 1) * i + 2 * i;
    }
  }

  /** One segment may be pending at each position, and none reaches beyond the end. */
  lemma {:induction false} PendingFits(base: uint32, m: map<uint32, seq<byte>>, lo: nat, n: nat)
    requires lo <= n && forall k | k in m :: m[k] != [] && lo <= Off(base, k) && Off(base, k) + |m[k]| <= n
    ensures MapSum.Sum(m, Size) <= Triangle(n - lo)
    decreases n - lo
  {
    if lo < n {
      var k := At(base, lo);
      NoOtherAt(base, m, lo);
      if k in m {
        OffAt(base, lo);
        MapSum.Remove(m, Size, k);
        PendingFits(base, m - {k}, lo + 1, n);
      } else {
        PendingFits(base, m, lo + 1, n);
      }
    } else {
      assert m == map[];
    }
  }

  lemma HeldFits(c: Caps, base: uint32, segs: seq<Segment>, n: nat)
    requires Inside(segs, n) && 0 < n <= HALF
    ensures var s := Feed(c, base, segs);
            Placed(c, base, s) && s.delivered <= n && s.bufferedBytes <= Triangle(n - 1)
  {
    StaysWithin(c, base, segs, n);
    Position(c, base, segs);
    EveryByteAccounted(c, base, segs);
    WithinFits(base, Feed(c, base, segs), n);
  }

  lemma WithinFits(base: uint32, s: Stream, n: nat)
    requires 0 < n && Straight(base, s) && forall k | k in s.pending :: Off(base, k) + |s.pending[k]| <= n
    ensures Held(s) <= Triangle(n - 1)
  {
    PendingFits(base, s.pending, 1, n);
  }

  lemma {:induction false} RoomForAll(c: Caps, base: uint32, segs: seq<Segment>, n: nat)
    requires Inside(segs, n) && n <= HALF && n <= c.prefix && (n > 0 ==> Triangle(n - 1) + n - 1 <= c.buffered)
    ensures NothingRefused(c, base, segs)
  {
    if segs != [] {
      var init, g := segs[..|segs| - 1], segs[|segs| - 1];
      assert g in segs && forall h | h in init :: h in segs;
      RoomForAll(c, base, init, n);
      HeldFits(c, base, init, n);
      RoomForOne(c, base, Feed(c, base, init), g, n);
      RefusedSnocIff(c, base, init, g);
      assert segs == init + [g];
    }
  }

  lemma RoomForOne(c: Caps, base: uint32, s: Stream, g: Segment, n: nat)
    requires Placed(c, base, s) && 0 <= g.pos && g.data != [] && g.pos + |g.data| <= n <= HALF && n <= c.prefix
    requires s.delivered <= n && s.bufferedBytes + n - 1 <= c.buffered
    ensures Taken(c, base, s, g)
  {
    SerialOrder(base, g.pos, s.delivered);
  }

  /** The greediest run: from each position but the first, all the rest. */
  function Ladder(n: nat, j: nat): seq<Segment>
    requires j <= n
  {
    if j == 0 then [] else Ladder(n, j - 1) + [Rung(n, j)]
  }

  /** What is held after the first `j` of them. */
  ghost predicate Climbed(base: uint32, s: Stream, n: nat, j: nat) {
    && j < n && s.initialized && s.delivered == 0 && s.next == At(base, 0)
    && s.bufferedBytes + Triangle(n - 1 - j) == Triangle(n - 1)
    && forall k | k in s.pending :: Off(base, k) <= j
  }

  lemma {:induction false} LadderHeld(c: Caps, base: uint32, n: nat, j: nat)
    requires j < n <= HALF && NothingRefused(c, base, Ladder(n, j))
    ensures Climbed(base, Feed(c, base, Ladder(n, j)), n, j)
  {
    if j > 0 {
      assert Ladder(n, j)[..|Ladder(n, j - 1)|] == Ladder(n, j - 1);
      LadderHeld(c, base, n, j - 1);
      RungHeld(c, base, Feed(c, base, Ladder(n, j - 1)), n, j);
    }
  }

  function Rung(n: nat, j: nat): Segment
    requires j <= n
  {
    Segment(j, seq(n - j, _ => 0))
  }

  lemma RungHeld(c: Caps, base: uint32, s: Stream, n: nat, j: nat)
    requires 0 < j < n <= HALF && Climbed(base, s, n, j - 1) && Taken(c, base, s, Rung(n, j))
    ensures Climbed(base, FeedOne(c, base, s, Rung(n, j)), n, j)
  {
    RungAhead(c, base, s, n, j);
    OffAt(base, j);
  }

  lemma RungAhead(c: Caps, base: uint32, s: Stream, n: nat, j: nat)
    requires 0 < j < n <= HALF && s.initialized && s.delivered == 0 && s.next == At(base, 0)
    ensures FeedOne(c, base, s, Rung(n, j)) == Hold(c, s, At(base, j), Rung(n, j).data)
    ensures Taken(c, base, s, Rung(n, j)) <==> !Overflows(c, s, Rung(n, j).data)
  {
    ByPosition(c, base, s, Rung(n, j));
    SerialOrder(base, j, 0);
  }

  lemma {:induction false} LadderInside(n: nat, j: nat)
    requires j < n
    ensures Inside(Ladder(n, j), n)
  {
    if j > 0 {
      LadderInside(n, j - 1);
    }
  }

  /** No run of segments within [0, n) is ever refused a byte. */
  ghost predicate NeverRefuses(c: Caps, base: uint32, n: nat) {
    forall segs: seq<Segment> | Inside(segs, n) :: NothingRefused(c, base, segs)
  }

  /** Whether anything can be refused is told by the length and the cap alone: there must be room for a segment from
      each position but the first to the end, and for the longest of them once more. */
  lemma NeverRefusesIff(c: Caps, base: uint32, n: nat)
    requires n <= HALF && n <= c.prefix
    ensures NeverRefuses(c, base, n) <==> (n - 1) * (n + 2) <= 2 * c.buffered
  {
    if n > 1 {
      TriangleTwice(n - 1);
      assert (n - 1) * (n + 2) == (n - 1) * n + 2 * (n - 1);
      if Triangle(n - 1) + n - 1 > c.buffered {
        LadderRefused(c, base, n);
      }
    }
    if n <= 1 || Triangle(n - 1) + n - 1 <= c.buffered {
      forall segs: seq<Segment> | Inside(segs, n) ensures NothingRefused(c, base, segs) {
        RoomForAll(c, base, segs, n);
      }
    }
  }

  lemma LadderRefused(c: Caps, base: uint32, n: nat)
    requires 1 < n <= HALF && Triangle(n - 1) + n - 1 > c.buffered
    ensures !NeverRefuses(c, base, n)
  {
    var init, g := Ladder(n, n - 1), Rung(n, 1);
    LadderInside(n, n - 1);
    assert Inside(init + [g], n);
    if NothingRefused(c, base, init) {
      LadderHeld(c, base, n, n - 1);
      RungAhead(c, base, Feed(c, base, init), n, 1);
    }
    RefusedSnocIff(c, base, init, g);
  }

  // ------------------------------------------------------------------ the wrap

  /** The shape that stalls: `b` waits behind a gap, `a` further on, then `f` closes the gap. All of them are delivered
      as far as they reach unless the numbers wrap between `b` and `a`, because the queue is ordered by raw number and
      draining stops at its first entry. */
  lemma StallsIff(c: Caps, base: uint32, f: Segment, b: Segment, a: Segment)
    requires f.pos == 0 && f.data != [] && b.pos == |f.data| && b.data != [] && a.data != []
    requires b.pos + |b.data| <= a.pos && a.pos + |a.data| <= HALF
    requires c.prefix > 0 && |b.data| + |a.data| <= c.buffered
    ensures NothingRefused(c, base, [b, a, f])
    ensures !LongestRun([b, a, f], Feed(c, base, [b, a, f]).delivered) <==> base + b.pos < WORD <= base + a.pos
  {
    var segs := [b, a, f];
    var t := StateBeforeGapCloses(c, base, b, a);
    assert segs[..2] == [b, a];
    ThreeUnrefused(c, base, f, b, a);
    AcceptedArePushed(c, base, segs);
    LongestRunIff(c, base, segs);
    GapCloses(c, base, t, f);
    DrainTwo(c, base, Deliver(c, t, f.data), b, a);
    assert Feed(c, base, segs) == Drain(c, Deliver(c, t, f.data));
  }

  lemma GapCloses(c: Caps, base: uint32, t: Stream, f: Segment)
    requires t.initialized && t.delivered == 0 && t.next == At(base, 0) && f.pos == 0 && f.data != []
    ensures var u := Deliver(c, t, f.data);
            && FeedOne(c, base, t, f) == Drain(c, u)
            && u.initialized && u.delivered == |f.data| && u.next == At(base, |f.data|) && u.pending == t.pending
  {
    ByPosition(c, base, t, f);
    AtAdd(base, 0, |f.data|);
  }

  /** Two pending segments, the first of them now in order. */
  ghost predicate TwoWait(base: uint32, s: Stream, b: Segment, a: Segment) {
    && 0 < b.pos && b.data != [] && b.pos + |b.data| <= a.pos && a.data != [] && a.pos + |a.data| <= HALF
    && s.initialized && s.delivered == b.pos && s.next == At(base, b.pos)
    && s.pending == map[At(base, b.pos) := b.data, At(base, a.pos) := a.data]
  }

  lemma TwoKeys(base: uint32, s: Stream, b: Segment, a: Segment)
    requires TwoWait(base, s, b, a)
    ensures var kb, ka := At(base, b.pos), At(base, a.pos);
            && kb != ka && s.pending.Keys == {kb, ka} && s.pending[kb] == b.data && s.pending[ka] == a.data
            && Off(base, kb) == b.pos && Off(base, ka) == a.pos
  {
    SerialOrder(base, a.pos, b.pos);
    OffAt(base, b.pos);
    OffAt(base, a.pos);
  }

  lemma TwoRise(base: uint32, s: Stream, b: Segment, a: Segment)
    requires TwoWait(base, s, b, a) && !(base + b.pos < WORD <= base + a.pos)
    ensures Straight(base, s) && Rising(base, s)
  {
    TwoKeys(base, s, b, a);
  }

  lemma TwoStall(c: Caps, base: uint32, s: Stream, b: Segment, a: Segment)
    requires TwoWait(base, s, b, a) && base + b.pos < WORD <= base + a.pos
    ensures Drain(c, s) == s && In(Piece(base, s, At(base, b.pos)), s.delivered)
  {
    TwoKeys(base, s, b, a);
    SerialOrder(base, a.pos, b.pos);
    DrainStep(c, s, At(base, a.pos));
  }

  lemma DrainTwo(c: Caps, base: uint32, s: Stream, b: Segment, a: Segment)
    requires TwoWait(base, s, b, a)
    ensures var t := Drain(c, s);
            base + b.pos < WORD <= base + a.pos <==> exists k :: k in t.pending && In(Piece(base, t, k), t.delivered)
  {
    if base + b.pos < WORD <= base + a.pos {
      TwoStall(c, base, s, b, a);
      assert At(base, b.pos) in Drain(c, s).pending;
    } else {
      TwoRise(base, s, b, a);
      DrainAhead(c, base, s);
    }
  }

  /** The stream after a first segment that is ahead. */
  function Waiting(base: uint32, b: Segment): Stream {
    Anchored(base).(pending := map[At(base, b.pos) := b.data], bufferedBytes := |b.data|, bufferedSegments := 1)
  }

  lemma FirstWaits(c: Caps, base: uint32, b: Segment)
    requires 0 < b.pos < HALF && b.data != [] && c.prefix > 0 && |b.data| <= c.buffered
    ensures Feed(c, base, [b]) == Waiting(base, b)
    ensures RefusedBytes(c, Anchored(base), At(base, b.pos), b.data) == 0
  {
    assert [b][..0] == [];
    ByPosition(c, base, Anchored(base), b);
    SerialOrder(base, b.pos, 0);
  }

  lemma StateBeforeGapCloses(c: Caps, base: uint32, b: Segment, a: Segment) returns (t: Stream)
    requires 0 < b.pos && b.data != [] && a.data != [] && c.prefix > 0 && |b.data| + |a.data| <= c.buffered
    requires b.pos + |b.data| <= a.pos && a.pos + |a.data| <= HALF
    ensures t == Feed(c, base, [b, a]) && t.initialized && t.delivered == 0 && t.next == At(base, 0) && t.prefix == []
    ensures t.pending == map[At(base, b.pos) := b.data, At(base, a.pos) := a.data]
    ensures At(base, b.pos) != At(base, a.pos)
    ensures RefusedBytes(c, Waiting(base, b), At(base, a.pos), a.data) == 0
  {
    assert [b, a][..1] == [b];
    FirstWaits(c, base, b);
    var s1 := Waiting(base, b);
    ByPosition(c, base, s1, a);
    SerialOrder(base, a.pos, 0);
    SerialOrder(base, a.pos, b.pos);
    t := FeedOne(c, base, s1, a);
  }

  /** Every run of segments within [0, n) delivers all of the longest initial run accepted. */
  ghost predicate AlwaysDrains(c: Caps, base: uint32, n: nat) {
    forall segs: seq<Segment> | Inside(segs, n) :: LongestRun(Accepted(c, base, segs), Feed(c, base, segs).delivered)
  }

  /** So whether draining can stall is told by the initial number and the length alone: every run of `n` bytes drains
      if and only if its numbers do not wrap, or only the first of them comes before the wrap. */
  lemma AlwaysDrainsIff(c: Caps, base: uint32, n: nat)
    requires n <= HALF && c.prefix >= 1 && c.buffered >= 2
    ensures AlwaysDrains(c, base, n) <==> base + n <= WORD || base + 1 == WORD
  {
    if base + n <= WORD || base + 1 == WORD {
      forall segs: seq<Segment> | Inside(segs, n)
        ensures LongestRun(Accepted(c, base, segs), Feed(c, base, segs).delivered)
      {
        DeliversLongestRun(c, base, segs);
      }
    } else {
      var f, b, a := Segment(0, [0]), Segment(1, [0]), Segment(n - 1, [0]);
      StallsIff(c, base, f, b, a);
      AcceptedArePushed(c, base, [b, a, f]);
      assert Inside([b, a, f], n);
    }
  }

  lemma RefusedSnocIff(c: Caps, base: uint32, init: seq<Segment>, g: Segment)
    ensures NothingRefused(c, base, init + [g]) <==> NothingRefused(c, base, init) && Taken(c, base, Feed(c, base, init), g)
  {
    assert (init + [g])[..|init|] == init;
  }

  lemma ThreeUnrefused(c: Caps, base: uint32, f: Segment, b: Segment, a: Segment)
    requires f.pos == 0 && f.data != [] && b.pos == |f.data| && b.data != [] && a.data != []
    requires b.pos + |b.data| <= a.pos && a.pos + |a.data| <= HALF
    requires c.prefix > 0 && |b.data| + |a.data| <= c.buffered
    ensures NothingRefused(c, base, [b, a, f])
  {
    FirstWaits(c, base, b);
    var t := StateBeforeGapCloses(c, base, b, a);
    RefusedSnocIff(c, base, [], b);
    RefusedSnocIff(c, base, [b], a);
    RefusedSnocIff(c, base, [b, a], f);
    assert [] + [b] == [b] && [b] + [a] == [b, a] && [b, a] + [f] == [b, a, f];
  }
}
