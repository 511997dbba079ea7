/** Round-trip estimates of one direction: the smoothed statistics and the queue of unacknowledged
    sends. Times are microseconds, estimates milliseconds as reals. */
module RoundTrip {
  import opened Serial

  const MAX_AWAITING_ACK: nat := 256
  const MAX_RTT_MS: real := 60000.0

  function Millis(later: int, earlier: int): real {
    (later - earlier) as real / 1000.0
  }

  datatype Rtt = Rtt(samples: nat, min: real, max: real, last: real, srtt: real)

  const NO_RTT: Rtt := Rtt(0, 0.0, 0.0, 0.0, 0.0)

  predicate Plausible(ms: real) {
    0.0 <= ms <= MAX_RTT_MS
  }

  function AddSample(r: Rtt, ms: real): Rtt {
    if !Plausible(ms) then r
    else if r.samples == 0 then Rtt(1, ms, ms, ms, ms)
    else Rtt(r.samples + 1, if ms < r.min then ms else r.min, if r.max < ms then ms else r.max, ms,
             0.875 * r.srtt + 0.125 * ms)
  }

  class RttStats {
    var samples: nat
    var minMs: real
    var maxMs: real
    var lastMs: real
    var srttMs: real

    ghost function Model(): Rtt
      reads this
    {
      Rtt(samples, minMs, maxMs, lastMs, srttMs)
    }

    constructor ()
      ensures Model() == NO_RTT
    {
      samples, minMs, maxMs, lastMs, srttMs := 0, 0.0, 0.0, 0.0, 0.0;
    }

    method Add(ms: real)
      modifies this
      ensures Model() == AddSample(old(Model()), ms)
    {
      if ms < 0.0 || ms > MAX_RTT_MS {
        return;
      }
      if samples == 0 {
        minMs, maxMs, lastMs, srttMs := ms, ms, ms, ms;
      } else {
        minMs := if ms < minMs then ms else minMs;
        maxMs := if maxMs < ms then ms else maxMs;
        lastMs := ms;
        srttMs := 0.875 * srttMs + 0.125 * ms;
      }
      samples := samples + 1;
    }
  }

  /** A data segment on its way: the number after its last byte, and when it was sent. */
  datatype Sent = Sent(end: uint32, at: int)

  /** How many entries at the front of the queue an acknowledgement covers. */
  function Covered(queue: seq<Sent>, ack: uint32): (k: nat)
    ensures k <= |queue|
    ensures forall i | 0 <= i < k :: SeqLe(queue[i].end, ack)
    ensures k < |queue| ==> !SeqLe(queue[k].end, ack)
  {
    if queue == [] || !SeqLe(queue[0].end, ack) then 0 else 1 + Covered(queue[1..], ack)
  }

  datatype Sender = Sender(queue: seq<Sent>, rtt: Rtt)

  /** A segment with payload is remembered unless it was judged a resend; the oldest gives way. */
  function Remember(s: Sender, end: uint32, len: nat, at: int, resend: bool): Sender {
    if len == 0 || resend then s
    else
      var q := s.queue + [Sent(end, at)];
      s.(queue := if |q| > MAX_AWAITING_ACK then q[1..] else q)
  }

  /** An acknowledgement retires what it covers and times only the first entry. */
  function Acknowledge(s: Sender, ack: uint32, at: int): Sender {
    var k := Covered(s.queue, ack);
    Sender(s.queue[k..], if k == 0 then s.rtt else AddSample(s.rtt, Millis(at, s.queue[0].at)))
  }

  /** SYN to SYN/ACK timing; a negative value means not measured. */
  datatype Handshake = Handshake(synAt: int, synSeen: bool, ms: real)

  const NO_HANDSHAKE: Handshake := Handshake(0, false, -1.0)

  predicate Measures(h: Handshake, syn: bool, ack: bool) {
    syn && ack && h.synSeen && h.ms < 0.0
  }

  function Shake(h: Handshake, syn: bool, ack: bool, at: int): Handshake {
    if syn && !ack then h.(synAt := at, synSeen := true)
    else if Measures(h, syn, ack) then h.(ms := Millis(at, h.synAt))
    else h
  }
}

/** What the estimate is worth, and which sends it is based on. */
module RoundTripTheorems {
  import opened Serial
  import opened RoundTrip

  // ---------------------------------------------------------------- statistics

  function Smooth(r: Rtt, a: seq<real>): Rtt {
    if a == [] then r else AddSample(Smooth(r, a[..|a| - 1]), a[|a| - 1])
  }

  /** The delays that count: from none to a minute. */
  predicate WithinMinute(ms: real) {
    0.0 <= ms <= 60000.0
  }

  function Accepted(a: seq<real>): seq<real> {
    if a == [] then []
    else Accepted(a[..|a| - 1]) + if WithinMinute(a[|a| - 1]) then [a[|a| - 1]] else []
  }

  /** Implausible samples leave no trace, and the statistics are those of the others: their number,
      their least, greatest and last value, and an average between least and greatest. */
  lemma {:induction false} StatisticsOfAccepted(a: seq<real>)
    ensures var r, b := Smooth(NO_RTT, a), Accepted(a);
            && r == Smooth(NO_RTT, b)
            && r.samples == |b|
            && (forall x | x in b :: WithinMinute(x))
            && (b != [] ==>
                 && r.min in b && r.max in b && r.last == b[|b| - 1]
                 && (forall x | x in b :: r.min <= x <= r.max)
                 && 0.0 <= r.min <= r.srtt <= r.max <= 60000.0)
  {
    if a != [] {
      var init, x := a[..|a| - 1], a[|a| - 1];
      StatisticsOfAccepted(init);
      var b := Accepted(init);
      if WithinMinute(x) {
        assert (b + [x])[..|b + [x]| - 1] == b;
      } else {
        assert b + [] == b;
      }
    }
  }

  function Pow(n: nat): real {
    if n == 0 then 1.0 else 0.875 * Pow(n - 1)
  }

  /** The weight of sample `i` among `n`: the first one counts in full, each later one an eighth,
      and each fades by 7/8 with every sample after it. */
  function Weight(n: nat, i: nat): real
    requires i < n
  {
    if i == 0 then Pow(n - 1) else 0.125 * Pow(n - 1 - i)
  }

  function WeightedSum(a: seq<real>, n: nat, upTo: nat): real
    requires upTo <= |a| <= n
  {
    if upTo == 0 then 0.0 else WeightedSum(a, n, upTo - 1) + Weight(n, upTo - 1) * a[upTo - 1]
  }

  lemma {:induction false} WeightedSumFades(a: seq<real>, x: real, upTo: nat)
    requires upTo <= |a|
    ensures WeightedSum(a + [x], |a| + 1, upTo) == 0.875 * WeightedSum(a, |a|, upTo)
  {
    if upTo > 0 {
      WeightedSumFades(a, x, upTo - 1);
      var i := upTo - 1;
      assert (a + [x])[i] == a[i];
      assert Weight(|a| + 1, i) == 0.875 * Weight(|a|, i);
      Associate(0.875, Weight(|a|, i), a[i]);
    }
  }

  lemma Associate(x: real, y: real, z: real)
    ensures (x * y) * z == x * (y * z)
  {
  }

  /** The smoothed value in closed form. */
  lemma {:induction false} SrttClosedForm(a: seq<real>)
    requires a != [] && forall x | x in a :: WithinMinute(x)
    ensures Smooth(NO_RTT, a).samples == |a|
    ensures Smooth(NO_RTT, a).srtt == WeightedSum(a, |a|, |a|)
  {
    var init, x := a[..|a| - 1], a[|a| - 1];
    assert a == init + [x] && x in a;
    if init == [] {
      assert Smooth(NO_RTT, init) == NO_RTT;
      assert WeightedSum(a, 1, 0) == 0.0 && Pow(0) == 1.0;
    } else {
      assert forall y | y in init :: y in a;
      SrttClosedForm(init);
      WeightedSumFades(init, x, |init|);
      assert Pow(0) == 1.0;
    }
  }

  function Abs(x: real): real {
    if x < 0.0 then -x else x
  }

  /** x faded by 7/8, n times over. */
  function Fade(n: nat, x: real): real {
    if n == 0 then x else 0.875 * Fade(n - 1, x)
  }

  /** Samples that settle within d of c pull the estimate there: its distance from c is at most d
      plus the starting distance faded by 7/8 per sample. */
  lemma {:induction false} SrttConverges(r: Rtt, a: seq<real>, c: real, d: real)
    requires r.samples > 0 && forall x | x in a :: WithinMinute(x) && c - d <= x <= c + d
    requires d >= 0.0
    ensures Smooth(r, a).samples == r.samples + |a|
    ensures Abs(Smooth(r, a).srtt - c) <= d + Fade(|a|, Abs(r.srtt - c))
  {
    if a != [] {
      var init, x := a[..|a| - 1], a[|a| - 1];
      assert x in a && forall y | y in init :: y in a;
      SrttConverges(r, init, c, d);
      StepConverges(Smooth(r, init).srtt, x, c, d, Fade(|init|, Abs(r.srtt - c)));
    }
  }

  lemma StepConverges(srtt: real, x: real, c: real, d: real, far: real)
    requires Abs(srtt - c) <= d + far && c - d <= x <= c + d
    ensures Abs(0.875 * srtt + 0.125 * x - c) <= d + 0.875 * far
  {
  }

  // --------------------------------------------------------------------- queue

  /** One packet as far as one sender's queue sees it: a segment of its own, or the peer's ACK. */
  datatype Event =
    | Send(pos: int, len: nat, at: int, resend: bool)
    | Ack(pos: int, at: int)

  function End(e: Event): int {
    if e.Send? then e.pos + e.len else e.pos
  }

  function Apply(base: uint32, s: Sender, e: Event): Sender {
    if e.Send? then Remember(s, At(base, End(e)), e.len, e.at, e.resend)
    else Acknowledge(s, At(base, e.pos), e.at)
  }

  function Run(base: uint32, events: seq<Event>): Sender {
    if events == [] then Sender([], NO_RTT)
    else Apply(base, Run(base, events[..|events| - 1]), events[|events| - 1])
  }

  lemma RunSnoc(base: uint32, init: seq<Event>, e: Event)
    ensures Run(base, init + [e]) == Apply(base, Run(base, init), e)
  {
    assert (init + [e])[..|init|] == init;
  }

  predicate IsNew(e: Event) {
    e.Send? && e.len > 0 && !e.resend
  }

  /** A new data segment joins the queue; the oldest gives way to the 257th and to no other. Anything else leaves it. */
  lemma OldestGivesWay(s: Sender, end: uint32, len: nat, at: int, resend: bool)
    ensures var t, longer := Remember(s, end, len, at, resend), s.queue + [Sent(end, at)];
            && t.rtt == s.rtt
            && t.queue == (if len == 0 || resend then s.queue else if |s.queue| < 256 then longer else longer[1..])
  {
  }

  /** An entry is the trace of a send that carried data and was not judged a resend. */
  ghost predicate Genuine(base: uint32, events: seq<Event>, q: Sent) {
    exists e :: e in events && IsNew(e) && q == Sent(At(base, End(e)), e.at)
  }

  /** The queue never exceeds its cap and holds genuine sends only. */
  lemma {:induction false} QueueIsGenuine(base: uint32, events: seq<Event>)
    ensures |Run(base, events).queue| <= 256
    ensures forall q | q in Run(base, events).queue :: Genuine(base, events, q)
  {
    if events != [] {
      var init, e := events[..|events| - 1], events[|events| - 1];
      QueueIsGenuine(base, init);
      forall q | q in Run(base, events).queue ensures Genuine(base, events, q) {
        if q in Run(base, init).queue {
          assert Genuine(base, init, q);
          var f :| f in init && IsNew(f) && q == Sent(At(base, End(f)), f.at);
          assert f in events;
        } else {
          assert e in events;
        }
      }
    }
  }

  /** The block an acknowledgement removes, whatever the queue. */
  lemma AckRemovesBlock(s: Sender, ack: uint32, at: int)
    ensures var q, k := Acknowledge(s, ack, at).queue, Covered(s.queue, ack);
            && k <= |s.queue| && q == s.queue[k..]
            && (forall i | 0 <= i < k :: SeqLe(s.queue[i].end, ack))
            && (q != [] ==> !SeqLe(q[0].end, ack))
  {
  }

  /** What a delay of `d` microseconds does to the estimate: from none to a minute it is one more sample, the last in
      milliseconds, and weighs one eighth unless it is the first; any other leaves no trace. */
  ghost predicate Took(before: Rtt, after: Rtt, d: int) {
    if 0 <= d <= 60000000 then
      && after.samples == before.samples + 1 && after.last * 1000.0 == d as real
      && after.min == (if before.samples == 0 || after.last < before.min then after.last else before.min)
      && after.max == (if before.samples == 0 || before.max < after.last then after.last else before.max)
      && after.srtt == if before.samples == 0 then after.last else 0.875 * before.srtt + 0.125 * after.last
    else after == before
  }

  lemma TookDelay(before: Rtt, later: int, earlier: int)
    ensures Took(before, AddSample(before, Millis(later, earlier)), later - earlier)
  {
    assert Millis(later, earlier) * 1000.0 == (later - earlier) as real;
  }

  /** An acknowledgement that covers the front entry takes the time since it was sent; any other takes nothing. */
  lemma AckTakesDelay(s: Sender, ack: uint32, at: int)
    ensures var t := Acknowledge(s, ack, at);
            if s.queue != [] && SeqLe(s.queue[0].end, ack) then Took(s.rtt, t.rtt, at - s.queue[0].at) else t == s
  {
    if s.queue != [] && SeqLe(s.queue[0].end, ack) {
      TookDelay(s.rtt, at, s.queue[0].at);
    }
  }

  lemma AckSamples(s: Sender, ack: uint32, at: int)
    ensures var k := Covered(s.queue, ack);
            && (k == 0 ==> Acknowledge(s, ack, at).rtt == s.rtt)
            && (k > 0 ==> k <= |s.queue| && Acknowledge(s, ack, at).rtt == AddSample(s.rtt, Millis(at, s.queue[0].at)))
  {
  }

  /** An acknowledgement removes a block from the front, all of it covered, up to the first entry
      not covered; it takes at most one sample, the age of a genuine send that it covers. */
  lemma AckTimesGenuineSend(base: uint32, events: seq<Event>, ack: uint32, at: int)
    ensures var s := Run(base, events);
            var t := Acknowledge(s, ack, at);
            && |t.queue| <= |s.queue| && t.queue == s.queue[|s.queue| - |t.queue|..]
            && (forall i | 0 <= i < |s.queue| - |t.queue| :: SeqLe(s.queue[i].end, ack))
            && (t.queue != [] ==> !SeqLe(t.queue[0].end, ack))
            && (|t.queue| == |s.queue| ==> t.rtt == s.rtt)
            && (|t.queue| < |s.queue| ==> TimesGenuine(base, events, s.rtt, t.rtt, ack, at))
  {
    QueueIsGenuine(base, events);
    AckRemovesBlock(Run(base, events), ack, at);
    SampleIsGenuine(base, events, Run(base, events), ack, at);
  }

  lemma SampleIsGenuine(base: uint32, events: seq<Event>, s: Sender, ack: uint32, at: int)
    requires forall q | q in s.queue :: Genuine(base, events, q)
    ensures var k, rtt := Covered(s.queue, ack), Acknowledge(s, ack, at).rtt;
            && k <= |s.queue|
            && if k == 0 then rtt == s.rtt else TimesGenuine(base, events, s.rtt, rtt, ack, at)
  {
    AckSamples(s, ack, at);
    if Covered(s.queue, ack) > 0 {
      FirstIsGenuine(base, events, s.queue[0], s.rtt, ack, at);
    }
  }

  /** One sample was taken: the time since a send of new data that the acknowledgement covers. */
  ghost predicate TimesGenuine(base: uint32, events: seq<Event>, before: Rtt, after: Rtt, ack: uint32, at: int) {
    exists e :: e in events && IsNew(e) && SeqLe(At(base, End(e)), ack) && Took(before, after, at - e.at)
  }

  lemma FirstIsGenuine(base: uint32, events: seq<Event>, q: Sent, rtt: Rtt, ack: uint32, at: int)
    requires Genuine(base, events, q) && SeqLe(q.end, ack)
    ensures TimesGenuine(base, events, rtt, AddSample(rtt, Millis(at, q.at)), ack, at)
  {
    var e :| e in events && IsNew(e) && q == Sent(At(base, End(e)), e.at);
    TookDelay(rtt, at, q.at);
  }

  predicate InSpan(e: Event) {
    0 <= e.pos && End(e) < HALF
  }

  /** The sender's new data moves forward only. */
  ghost predicate InOrderSends(events: seq<Event>) {
    forall i, j | 0 <= i < j < |events| && IsNew(events[i]) && IsNew(events[j]) :: End(events[i]) <= End(events[j])
  }

  ghost predicate Ordered(base: uint32, queue: seq<Sent>, limit: int) {
    && (forall q | q in queue :: Off(base, q.end) <= limit)
    && (forall i, j | 0 <= i < j < |queue| :: Off(base, queue[i].end) <= Off(base, queue[j].end))
  }

  /** The latest end of new data so far. */
  ghost predicate Reaches(events: seq<Event>, limit: int) {
    forall e | e in events && IsNew(e) :: End(e) <= limit
  }

  lemma RememberOrdered(base: uint32, s: Sender, e: Event, limit: int)
    requires IsNew(e) && InSpan(e) && Ordered(base, s.queue, End(e)) && End(e) <= limit
    ensures Ordered(base, Apply(base, s, e).queue, limit)
  {
    OffAt(base, End(e));
    var q := s.queue + [Sent(At(base, End(e)), e.at)];
    assert Ordered(base, q, limit) by {
      forall i, j | 0 <= i < j < |q| ensures Off(base, q[i].end) <= Off(base, q[j].end) {
        assert q[i] == s.queue[i] && s.queue[i] in s.queue;
      }
    }
  }

  lemma {:induction false} QueueStaysOrdered(base: uint32, events: seq<Event>, limit: int)
    requires (forall e | e in events :: InSpan(e)) && InOrderSends(events) && Reaches(events, limit)
    ensures Ordered(base, Run(base, events).queue, limit)
  {
    if events != [] {
      var init, e := events[..|events| - 1], events[|events| - 1];
      assert e in events && forall f | f in init :: f in events;
      if IsNew(e) {
        forall f | f in init && IsNew(f) ensures End(f) <= End(e) {
          var i :| 0 <= i < |init| && init[i] == f;
          assert events[i] == f;
        }
        QueueStaysOrdered(base, init, End(e));
        RememberOrdered(base, Run(base, init), e, limit);
      } else {
        QueueStaysOrdered(base, init, limit);
      }
    }
  }

  /** Across the wrap too: from an in-order sender no acknowledged entry survives the ACK, and no
      entry that is not acknowledged is lost by it. */
  lemma AckRetiresExactly(base: uint32, events: seq<Event>, a: Event)
    requires (forall e | e in events :: InSpan(e)) && InOrderSends(events) && a.Ack? && InSpan(a)
    ensures var q, t := Run(base, events).queue, Run(base, events + [a]).queue;
            && |t| <= |q|
            && (forall i | 0 <= i < |q| - |t| :: Off(base, q[i].end) <= a.pos)
            && t == q[|q| - |t|..]
            && (forall s | s in t :: a.pos < Off(base, s.end))
  {
    RunSnoc(base, events, a);
    AckRemovesBlock(Run(base, events), At(base, a.pos), a.at);
    assert forall e | e in events && IsNew(e) :: End(e) <= HALF - 1;
    QueueStaysOrdered(base, events, HALF - 1);
    CoveredExactly(base, Run(base, events).queue, a.pos);
  }

  /** In an ordered queue the covered block at the front is everything up to the position. */
  lemma CoveredExactly(base: uint32, q: seq<Sent>, pos: int)
    requires Ordered(base, q, HALF - 1) && 0 <= pos < HALF
    ensures var k := Covered(q, At(base, pos));
            && (forall i | 0 <= i < k :: Off(base, q[i].end) <= pos)
            && (forall i | k <= i < |q| :: pos < Off(base, q[i].end))
  {
    var k := Covered(q, At(base, pos));
    forall i | 0 <= i < |q| ensures SeqLe(q[i].end, At(base, pos)) <==> Off(base, q[i].end) <= pos {
      assert q[i] in q;
      AtOff(base, q[i].end);
      SerialOrder(base, Off(base, q[i].end), pos);
    }
    if k < |q| {
      assert pos < Off(base, q[k].end);
    }
  }
}
