/** What a reassembler's prefix is worth: it is always a prefix of the true stream, whatever the
    arrival order, overlaps, repeats and sequence-number wrap; and every byte is accounted for. */
module ReassemblySafety {
  import opened Serial
  import opened Reassembly

  /** A segment at its place in the stream: position 0 is the first byte after the anchor. */
  datatype Segment = Segment(pos: int, data: seq<byte>)

  type Truth = int -> byte

  function Anchored(base: uint32): Stream {
    EMPTY.(initialized := true, next := base)
  }

  ghost function FeedOne(c: Caps, base: uint32, s: Stream, g: Segment): Stream {
    Push(c, s, At(base, g.pos), g.data, false)
  }

  ghost function Feed(c: Caps, base: uint32, segs: seq<Segment>): Stream {
    if segs == [] then Anchored(base)
    else FeedOne(c, base, Feed(c, base, segs[..|segs| - 1]), segs[|segs| - 1])
  }

  /** A SYN anchors the stream behind itself; joining midway, the first segment anchors it. */
  lemma FirstPacketAnchors(c: Caps, sn: uint32, data: seq<byte>)
    ensures Push(c, EMPTY, sn, [], true) == Anchored(Add32(sn, 1))
    ensures Push(c, EMPTY, sn, data, false) == Push(c, Anchored(sn), sn, data, false)
  {
  }

  // ------------------------------------------------------------------ growth

  /** What every step that delivers keeps: nothing already handed out ever changes. */
  ghost predicate Extends(c: Caps, s: Stream, t: Stream) {
    && (s.initialized ==> t.initialized)
    && s.prefix <= t.prefix
    && s.delivered <= t.delivered
    && t.next == Add32(s.next, t.delivered - s.delivered)
    && (|s.prefix| == Least(s.delivered, c.prefix) ==> |t.prefix| == Least(t.delivered, c.prefix))
  }

  function Least(a: int, b: int): int {
    if a < b then a else b
  }

  lemma ExtendsTransitive(c: Caps, s: Stream, t: Stream, u: Stream)
    requires Extends(c, s, t) && Extends(c, t, u)
    ensures Extends(c, s, u)
  {
    AtAdd(s.next, t.delivered - s.delivered, u.delivered - t.delivered);
  }

  lemma ReleaseExtends(c: Caps, s: Stream, k: uint32)
    requires k in s.pending
    ensures Extends(c, s, Release(c, s, k))
  {
    var bytes := s.pending[k];
    var already := Sub32(s.next, k);
    if already < |bytes| {
      DeliverExtends(c, s, bytes[already..]);
    }
  }

  lemma DeliverExtends(c: Caps, s: Stream, data: seq<byte>)
    ensures Extends(c, s, Deliver(c, s, data))
  {
  }

  lemma {:induction false} DrainExtends(c: Caps, s: Stream)
    ensures Extends(c, s, Drain(c, s))
    decreases |s.pending|
  {
    if s.pending != map[] && !SeqGt(MinKey(s.pending), s.next) {
      var t := Release(c, s, MinKey(s.pending));
      ReleaseExtends(c, s, MinKey(s.pending));
      DrainExtends(c, t);
      ExtendsTransitive(c, s, t, Drain(c, t));
    }
  }

  lemma PlaceExtends(c: Caps, s: Stream, sn: uint32, data: seq<byte>)
    ensures Extends(c, s, Place(c, s, sn, data))
  {
    if sn == s.next {
      DeliverExtends(c, s, data);
      DrainExtends(c, Deliver(c, s, data));
      ExtendsTransitive(c, s, Deliver(c, s, data), Drain(c, Deliver(c, s, data)));
    } else {
      HoldExtends(c, s, sn, data);
    }
  }

  lemma HoldExtends(c: Caps, s: Stream, sn: uint32, data: seq<byte>)
    ensures Extends(c, s, Hold(c, s, sn, data))
  {
  }

  lemma PushExtends(c: Caps, s: Stream, sn: uint32, data: seq<byte>, syn: bool)
    requires s.initialized
    ensures Extends(c, s, Push(c, s, sn, data, syn))
  {
    var already := Sub32(s.next, sn);
    if !SeqLt(sn, s.next) {
      PlaceExtends(c, s, sn, data);
    } else if already < |data| {
      PlaceExtends(c, s.(overlap := s.overlap + already), s.next, data[already..]);
    }
  }

  // ---------------------------------------------------------------- truth

  ghost predicate Agrees(truth: Truth, pos: int, data: seq<byte>) {
    forall i | 0 <= i < |data| :: data[i] == truth(pos + i)
  }

  /** The invariant: the prefix is the true stream's, and while it can still grow, so is everything
      pending, at the one position within reach that its key can stand for. */
  ghost predicate Faithful(c: Caps, base: uint32, truth: Truth, s: Stream) {
    && Placed(c, base, s)
    && Agrees(truth, 0, s.prefix)
    && (!Saturated(c, s) ==> forall k | k in s.pending :: PendingTrue(base, truth, s, k))
  }

  ghost predicate PendingTrue(base: uint32, truth: Truth, s: Stream, k: uint32)
    requires k in s.pending
  {
    Off(base, k) < s.delivered + HALF && Agrees(truth, Off(base, k), s.pending[k])
  }

  lemma DeliverFaithful(c: Caps, base: uint32, truth: Truth, s: Stream, data: seq<byte>)
    requires Faithful(c, base, truth, s)
    requires Saturated(c, s) || Agrees(truth, s.delivered, data)
    ensures Faithful(c, base, truth, Deliver(c, s, data))
  {
    AtAdd(base, s.delivered, |data|);
  }

  /** A key that is not ahead and was within reach stands `already` bytes before the expected position. */
  lemma ReachedKey(base: uint32, n: nat, k: uint32)
    requires n < HALF && Off(base, k) < n + HALF && !SeqGt(k, At(base, n))
    ensures Sub32(At(base, n), k) == n - Off(base, k)
  {
    AtOff(base, k);
    Difference(base, n, Off(base, k));
    SerialOrder(base, Off(base, k), n);
  }

  lemma ReleaseFaithful(c: Caps, base: uint32, truth: Truth, s: Stream, k: uint32)
    requires c.prefix <= HALF && Faithful(c, base, truth, s)
    requires k in s.pending && !SeqGt(k, s.next)
    ensures Faithful(c, base, truth, Release(c, s, k))
  {
    var bytes := s.pending[k];
    var already := Sub32(s.next, k);
    var rest := s.(pending := s.pending - {k}, bufferedBytes := s.bufferedBytes - |bytes|);
    if already < |bytes| {
      if !Saturated(c, s) {
        assert PendingTrue(base, truth, s, k);
        ReachedKey(base, s.delivered, k);
        AgreesFrom(truth, Off(base, k), bytes, already);
      }
      rest := rest.(overlap := s.overlap + already);
      SameFaithful(c, base, truth, s, rest);
      DeliverFaithful(c, base, truth, rest, bytes[already..]);
    } else {
      SameFaithful(c, base, truth, s, rest.(overlap := s.overlap + |bytes|));
    }
  }

  lemma AgreesFrom(truth: Truth, pos: int, data: seq<byte>, skip: nat)
    requires Agrees(truth, pos, data) && skip <= |data|
    ensures Agrees(truth, pos + skip, data[skip..])
  {
  }

  /** Dropping pending segments and moving counters keeps the invariant. */
  lemma SameFaithful(c: Caps, base: uint32, truth: Truth, s: Stream, t: Stream)
    requires Faithful(c, base, truth, s)
    requires t.initialized == s.initialized && t.next == s.next && t.prefix == s.prefix && t.delivered == s.delivered
    requires forall k | k in t.pending :: k in s.pending && t.pending[k] == s.pending[k]
    ensures Faithful(c, base, truth, t)
  {
    if !Saturated(c, t) {
      forall k | k in t.pending ensures PendingTrue(base, truth, t, k) {
        assert PendingTrue(base, truth, s, k);
      }
    }
  }

  lemma {:induction false} DrainFaithful(c: Caps, base: uint32, truth: Truth, s: Stream)
    requires c.prefix <= HALF && Faithful(c, base, truth, s)
    ensures Faithful(c, base, truth, Drain(c, s))
    decreases |s.pending|
  {
    if s.pending != map[] && !SeqGt(MinKey(s.pending), s.next) {
      ReleaseFaithful(c, base, truth, s, MinKey(s.pending));
      DrainFaithful(c, base, truth, Release(c, s, MinKey(s.pending)));
    }
  }

  /** Only a segment that can still matter has to be near the expected position. */
  ghost predicate Near(c: Caps, s: Stream, g: Segment) {
    Saturated(c, s) || -HALF <= g.pos - s.delivered < HALF
  }

  /** The tests of push on a segment at `pos` when `d` is expected. */
  lemma TestsByPosition(base: uint32, pos: int, d: int)
    requires -HALF <= pos - d < HALF
    ensures SeqLt(At(base, pos), At(base, d)) <==> pos < d
    ensures pos <= d ==> Sub32(At(base, d), At(base, pos)) == d - pos
  {
    Difference(base, d, pos);
    SerialOrder(base, pos, d);
  }

  lemma PushReady(c: Caps, s: Stream, sn: uint32, data: seq<byte>)
    requires s.initialized && data != []
    ensures Push(c, s, sn, data, false) == Arrive(c, s, sn, data)
  {
  }

  /** What push does, told in stream positions instead of wrapping numbers. */
  lemma ByPosition(c: Caps, base: uint32, s: Stream, g: Segment)
    requires s.initialized && s.next == At(base, s.delivered) && g.data != []
    requires -HALF <= g.pos - s.delivered < HALF
    ensures FeedOne(c, base, s, g) ==
            var already := s.delivered - g.pos;
            if already <= 0 then Place(c, s, At(base, g.pos), g.data)
            else if already >= |g.data| then s.(overlap := s.overlap + |g.data|)
            else Place(c, s.(overlap := s.overlap + already), s.next, g.data[already..])
  {
    TestsByPosition(base, g.pos, s.delivered);
    PushReady(c, s, At(base, g.pos), g.data);
  }

  lemma FeedOneFaithful(c: Caps, base: uint32, truth: Truth, s: Stream, g: Segment)
    requires c.prefix <= HALF && Faithful(c, base, truth, s)
    requires Near(c, s, g) && Agrees(truth, g.pos, g.data)
    ensures Faithful(c, base, truth, FeedOne(c, base, s, g))
  {
    if Saturated(c, s) {
      FeedOneSaturated(c, base, truth, s, g);
    } else if g.data != [] {
      ByPosition(c, base, s, g);
      var already := s.delivered - g.pos;
      if already <= 0 {
        PlaceFaithful(c, base, truth, s, g);
      } else {
        TrimmedFaithful(c, base, truth, s, g, already);
      }
    }
  }

  lemma TrimmedFaithful(c: Caps, base: uint32, truth: Truth, s: Stream, g: Segment, already: nat)
    requires c.prefix <= HALF && Faithful(c, base, truth, s) && Agrees(truth, g.pos, g.data)
    requires already == s.delivered - g.pos
    ensures already >= |g.data| ==> Faithful(c, base, truth, s.(overlap := s.overlap + |g.data|))
    ensures already < |g.data| ==>
            Faithful(c, base, truth, Place(c, s.(overlap := s.overlap + already), s.next, g.data[already..]))
  {
    if already >= |g.data| {
      SameFaithful(c, base, truth, s, s.(overlap := s.overlap + |g.data|));
    } else {
      var t := s.(overlap := s.overlap + already);
      SameFaithful(c, base, truth, s, t);
      AgreesFrom(truth, g.pos, g.data, already);
      PlaceFaithful(c, base, truth, t, Segment(s.delivered, g.data[already..]));
    }
  }

  /** Once the prefix is full nothing can change it. */
  lemma FeedOneSaturated(c: Caps, base: uint32, truth: Truth, s: Stream, g: Segment)
    requires Faithful(c, base, truth, s) && Saturated(c, s)
    ensures Faithful(c, base, truth, FeedOne(c, base, s, g))
  {
    PushExtends(c, s, At(base, g.pos), g.data, false);
    PlacedExtends(c, base, s, FeedOne(c, base, s, g));
  }

  lemma PlaceFaithful(c: Caps, base: uint32, truth: Truth, s: Stream, g: Segment)
    requires c.prefix <= HALF && Faithful(c, base, truth, s)
    requires 0 <= g.pos - s.delivered < HALF && Agrees(truth, g.pos, g.data)
    ensures Faithful(c, base, truth, Place(c, s, At(base, g.pos), g.data))
  {
    SerialOrder(base, g.pos, s.delivered);
    if At(base, g.pos) == s.next {
      DeliverFaithful(c, base, truth, s, g.data);
      DrainFaithful(c, base, truth, Deliver(c, s, g.data));
    } else {
      HoldFaithful(c, base, truth, s, g);
    }
  }

  lemma HoldFaithful(c: Caps, base: uint32, truth: Truth, s: Stream, g: Segment)
    requires c.prefix <= HALF && Faithful(c, base, truth, s)
    requires 0 <= g.pos - s.delivered < HALF && Agrees(truth, g.pos, g.data)
    ensures Faithful(c, base, truth, Hold(c, s, At(base, g.pos), g.data))
  {
    if !Saturated(c, s) {
      var sn := At(base, g.pos);
      OffAt(base, g.pos);
      var t := Hold(c, s, sn, g.data);
      forall k | k in t.pending ensures PendingTrue(base, truth, t, k) {
        assert k in s.pending ==> PendingTrue(base, truth, s, k);
      }
    }
  }

  ghost predicate NearRun(c: Caps, base: uint32, segs: seq<Segment>) {
    segs == [] ||
    (NearRun(c, base, segs[..|segs| - 1]) &&
     Near(c, Feed(c, base, segs[..|segs| - 1]), segs[|segs| - 1]))
  }

  /** Safety over whole runs: the prefix is the first min(delivered, cap) bytes of the true stream. */
  lemma {:induction false} PrefixIsTrue(c: Caps, base: uint32, truth: Truth, segs: seq<Segment>)
    requires c.prefix <= HALF && NearRun(c, base, segs)
    requires forall g | g in segs :: Agrees(truth, g.pos, g.data)
    ensures var s := Feed(c, base, segs);
            && Faithful(c, base, truth, s)
            && s.prefix == seq(Least(s.delivered, c.prefix), i requires 0 <= i => truth(i))
  {
    if segs != [] {
      var init := segs[..|segs| - 1];
      PrefixIsTrue(c, base, truth, init);
      FeedOneFaithful(c, base, truth, Feed(c, base, init), segs[|segs| - 1]);
    }
  }

  /** After any run: the expected number is the anchor plus what was delivered, and the prefix is
      full up to its cap. */
  lemma {:induction false} Position(c: Caps, base: uint32, segs: seq<Segment>)
    ensures Placed(c, base, Feed(c, base, segs))
  {
    if segs != [] {
      var s, g := Feed(c, base, segs[..|segs| - 1]), segs[|segs| - 1];
      Position(c, base, segs[..|segs| - 1]);
      PushExtends(c, s, At(base, g.pos), g.data, false);
      PlacedExtends(c, base, s, FeedOne(c, base, s, g));
    }
  }

  ghost predicate Placed(c: Caps, base: uint32, s: Stream) {
    && s.initialized
    && s.next == At(base, s.delivered)
    && |s.prefix| == Least(s.delivered, c.prefix)
  }

  lemma PlacedExtends(c: Caps, base: uint32, s: Stream, t: Stream)
    requires Placed(c, base, s) && Extends(c, s, t)
    ensures Placed(c, base, t)
  {
    AtAdd(base, s.delivered, t.delivered - s.delivered);
  }

  /** No later arrival rewrites what was already handed out. */
  lemma {:induction false} PrefixOnlyGrows(c: Caps, base: uint32, segs: seq<Segment>, more: seq<Segment>)
    ensures Feed(c, base, segs).prefix <= Feed(c, base, segs + more).prefix
    ensures Feed(c, base, segs).delivered <= Feed(c, base, segs + more).delivered
    decreases |more|
  {
    if more == [] {
      assert segs + more == segs;
    } else {
      var init, g := segs + more[..|more| - 1], more[|more| - 1];
      PrefixOnlyGrows(c, base, segs, more[..|more| - 1]);
      assert (segs + more)[..|segs + more| - 1] == init;
      Position(c, base, init);
      PushExtends(c, Feed(c, base, init), At(base, g.pos), g.data, false);
    }
  }

  // ------------------------------------------------------------- accounting

  /** Bytes of a held segment refused because the buffer or the prefix is full. */
  ghost function RefusedBytes(c: Caps, s: Stream, sn: uint32, data: seq<byte>): nat {
    if SeqLt(sn, s.next) || sn == s.next then 0
    else if Overflows(c, s, data) then |data|
    else 0
  }

  /** Bytes lost because only the longer of two copies under one key is kept. */
  ghost function ShadowedBytes(c: Caps, s: Stream, sn: uint32, data: seq<byte>): nat {
    if SeqLt(sn, s.next) || sn == s.next || Overflows(c, s, data) || sn !in s.pending then 0
    else Least(|s.pending[sn]|, |data|)
  }

  /** Bytes past the cap in the one delivery that fills the prefix; later deliveries are not charged. */
  function CutOff(c: Caps, s: Stream, data: seq<byte>): nat {
    if !Saturated(c, s) && |s.prefix| + |data| > c.prefix then |s.prefix| + |data| - c.prefix else 0
  }

  /** The same for a released segment, trimmed first. */
  function ReleaseCutOff(c: Caps, s: Stream, k: uint32): nat
    requires k in s.pending
  {
    var already := Sub32(s.next, k);
    if already >= |s.pending[k]| then 0 else CutOff(c, s, s.pending[k][already..])
  }

  ghost function DrainCutOff(c: Caps, s: Stream): nat
    decreases |s.pending|
  {
    if s.pending == map[] || SeqGt(MinKey(s.pending), s.next) then 0
    else ReleaseCutOff(c, s, MinKey(s.pending)) + DrainCutOff(c, Release(c, s, MinKey(s.pending)))
  }

  ghost function PlaceCutOff(c: Caps, s: Stream, sn: uint32, data: seq<byte>): nat {
    if sn == s.next then CutOff(c, s, data) + DrainCutOff(c, Deliver(c, s, data)) else 0
  }

  ghost function PushCutOff(c: Caps, s: Stream, sn: uint32, data: seq<byte>): nat {
    if !SeqLt(sn, s.next) then PlaceCutOff(c, s, sn, data)
    else if Sub32(s.next, sn) >= |data| then 0
    else PlaceCutOff(c, s.(overlap := s.overlap + Sub32(s.next, sn)), s.next, data[Sub32(s.next, sn)..])
  }

  ghost function Accounted(s: Stream): int {
    s.delivered + s.overlap + s.bufferedBytes
  }

  /** From s to t, `pushed` bytes came in, of which no counter shows the `shadowed` ones; `discarded` grew by the
      `refused` ones and those `cut` off at the cap, which only filling the prefix can cut. */
  ghost predicate Conserves(c: Caps, s: Stream, t: Stream, pushed: nat, refused: nat, shadowed: nat, cut: nat) {
    && Accounted(t) + refused + shadowed == Accounted(s) + pushed
    && t.discarded == s.discarded + refused + cut
    && (cut > 0 ==> !Saturated(c, s) && Saturated(c, t))
  }

  lemma ReleaseConserves(c: Caps, s: Stream, k: uint32)
    requires k in s.pending
    ensures Conserves(c, s, Release(c, s, k), 0, 0, 0, ReleaseCutOff(c, s, k))
  {
  }

  lemma ConservesTwice(c: Caps, s: Stream, t: Stream, u: Stream, pushed: nat, cut: nat, more: nat)
    requires Conserves(c, s, t, pushed, 0, 0, cut) && Conserves(c, t, u, 0, 0, 0, more)
    requires Saturated(c, t) ==> Saturated(c, u)
    requires Saturated(c, s) ==> Saturated(c, t)
    ensures Conserves(c, s, u, pushed, 0, 0, cut + more)
  {
  }

  lemma {:induction false} DrainConserves(c: Caps, s: Stream)
    ensures Conserves(c, s, Drain(c, s), 0, 0, 0, DrainCutOff(c, s))
    decreases |s.pending|
  {
    if s.pending != map[] && !SeqGt(MinKey(s.pending), s.next) {
      var k := MinKey(s.pending);
      var t := Release(c, s, k);
      ReleaseConserves(c, s, k);
      DrainConserves(c, t);
      ReleaseExtends(c, s, k);
      DrainExtends(c, t);
      ConservesTwice(c, s, t, Drain(c, t), 0, ReleaseCutOff(c, s, k), DrainCutOff(c, t));
    }
  }

  lemma PlaceConserves(c: Caps, s: Stream, sn: uint32, data: seq<byte>)
    requires !SeqLt(sn, s.next)
    ensures Conserves(c, s, Place(c, s, sn, data), |data|, RefusedBytes(c, s, sn, data), ShadowedBytes(c, s, sn, data),
                      PlaceCutOff(c, s, sn, data))
  {
    if sn == s.next {
      var t := Deliver(c, s, data);
      DrainConserves(c, t);
      DrainExtends(c, t);
      ConservesTwice(c, s, t, Drain(c, t), |data|, CutOff(c, s, data), DrainCutOff(c, t));
    }
  }

  /** Conservation in one step, for any state and any segment. */
  lemma PushConserves(c: Caps, s: Stream, sn: uint32, data: seq<byte>)
    requires s.initialized
    ensures Conserves(c, s, Push(c, s, sn, data, false), |data|,
                      RefusedBytes(c, s, sn, data), ShadowedBytes(c, s, sn, data),
                      if data == [] then 0 else PushCutOff(c, s, sn, data))
  {
    if data != [] {
      PushReady(c, s, sn, data);
      if !SeqLt(sn, s.next) {
        PlaceConserves(c, s, sn, data);
      } else if Sub32(s.next, sn) < |data| {
        var already := Sub32(s.next, sn);
        PlaceConserves(c, s.(overlap := s.overlap + already), s.next, data[already..]);
      }
    }
  }

  datatype Ledger = Ledger(pushed: nat, refused: nat, shadowed: nat, cut: nat)

  /** Adds up, outside the reassembler, what was pushed, what its counters do not show and what the cap cut off. */
  ghost function Books(c: Caps, base: uint32, segs: seq<Segment>): Ledger {
    if segs == [] then Ledger(0, 0, 0, 0)
    else
      var b := Books(c, base, segs[..|segs| - 1]);
      var s, g := Feed(c, base, segs[..|segs| - 1]), segs[|segs| - 1];
      Ledger(b.pushed + |g.data|,
             b.refused + RefusedBytes(c, s, At(base, g.pos), g.data),
             b.shadowed + ShadowedBytes(c, s, At(base, g.pos), g.data),
             b.cut + if g.data == [] then 0 else PushCutOff(c, s, At(base, g.pos), g.data))
  }

  /** Every pushed byte is delivered, overlapped, still buffered, refused or shadowed; the buffer never exceeds its cap;
      `discarded` is exactly what was refused and what one delivery had past the cap when it filled the prefix. */
  lemma {:induction false} EveryByteAccounted(c: Caps, base: uint32, segs: seq<Segment>)
    ensures var s, b := Feed(c, base, segs), Books(c, base, segs);
            && b.pushed == s.delivered + s.overlap + s.bufferedBytes + b.refused + b.shadowed
            && s.bufferedBytes == Held(s) <= c.buffered
            && s.discarded == b.refused + b.cut
            && (b.cut > 0 ==> Saturated(c, s))
  {
    if segs == [] {
      assert Held(Anchored(base)) == 0;
    } else {
      var init, g := segs[..|segs| - 1], segs[|segs| - 1];
      EveryByteAccounted(c, base, init);
      Position(c, base, init);
      var s := Feed(c, base, init);
      PushConserves(c, s, At(base, g.pos), g.data);
      PushBounded(c, s, At(base, g.pos), g.data, false);
      PushExtends(c, s, At(base, g.pos), g.data, false);
    }
  }

  /** Whether a push puts a segment aside under a number that none is waiting under. */
  ghost function Shelves(c: Caps, s: Stream, sn: uint32, data: seq<byte>): nat {
    if data == [] || SeqLt(sn, s.next) || sn == s.next || Overflows(c, s, data) || sn in s.pending then 0 else 1
  }

  ghost function Shelved(c: Caps, base: uint32, segs: seq<Segment>): nat {
    if segs == [] then 0
    else
      var init, g := segs[..|segs| - 1], segs[|segs| - 1];
      Shelved(c, base, init) + Shelves(c, Feed(c, base, init), At(base, g.pos), g.data)
  }

  lemma {:induction false} DrainShelvesNone(c: Caps, s: Stream)
    ensures Drain(c, s).bufferedSegments == s.bufferedSegments
    decreases |s.pending|
  {
    if s.pending != map[] && !SeqGt(MinKey(s.pending), s.next) {
      DrainShelvesNone(c, Release(c, s, MinKey(s.pending)));
    }
  }

  lemma PushShelves(c: Caps, s: Stream, sn: uint32, data: seq<byte>)
    requires s.initialized
    ensures Push(c, s, sn, data, false).bufferedSegments == s.bufferedSegments + Shelves(c, s, sn, data)
  {
    if data != [] && SeqLt(sn, s.next) && Sub32(s.next, sn) < |data| {
      var already := Sub32(s.next, sn);
      DrainShelvesNone(c, Deliver(c, s.(overlap := s.overlap + already), data[already..]));
    } else if data != [] && sn == s.next {
      DrainShelvesNone(c, Deliver(c, s, data));
    }
  }

  /** The counter of buffered segments is how many were put aside. */
  lemma {:induction false} ShelvedAreCounted(c: Caps, base: uint32, segs: seq<Segment>)
    ensures Feed(c, base, segs).bufferedSegments == Shelved(c, base, segs)
  {
    if segs != [] {
      var init, g := segs[..|segs| - 1], segs[|segs| - 1];
      ShelvedAreCounted(c, base, init);
      Position(c, base, init);
      PushShelves(c, Feed(c, base, init), At(base, g.pos), g.data);
    }
  }

  // ------------------------------------------------------- payload on a SYN

  /** A SYN's own payload is read one position early, so its first byte is dropped as already
      delivered: all of it gets through exactly when there is none. */
  lemma SynPayloadDeliveredIffEmpty(c: Caps, sn: uint32, data: seq<byte>)
    ensures Push(c, EMPTY, sn, data, true).delivered == |data| <==> data == []
    ensures data != [] && c.prefix >= |data| ==> Push(c, EMPTY, sn, data, true).prefix == data[1..]
  {
    var a := Anchor(EMPTY, sn, true);
    assert Sub32(a.next, sn) == 1;
  }
}
