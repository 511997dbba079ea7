/** Which sends the round-trip samples time, and when that breaks the rule of never timing a segment that was resent
    (section 3 of RFC 6298). */
module KarnRule {
  import opened Serial
  import opened RoundTrip
  import opened RoundTripTheorems

  // -------------------------------------------------------- resends are invisible

  predicate IsResend(e: Event) {
    e.Send? && e.resend
  }

  /** The run without what was judged a resend. */
  function Firsts(events: seq<Event>): seq<Event> {
    if events == [] then []
    else
      var e := events[|events| - 1];
      Firsts(events[..|events| - 1]) + if IsResend(e) then [] else [e]
  }

  /** A sender is the same as if nothing had ever been resent: a resend is not queued, and its time is never used, but
      the original stays queued. */
  lemma {:induction false} ResendsInvisible(base: uint32, events: seq<Event>)
    ensures Run(base, events) == Run(base, Firsts(events))
  {
    if events != [] {
      var init, e := events[..|events| - 1], events[|events| - 1];
      ResendsInvisible(base, init);
      if IsResend(e) {
        assert Firsts(events) == Firsts(init);
      } else {
        RunSnoc(base, Firsts(init), e);
      }
    }
  }

  // ------------------------------------------------------------ what is being timed

  /** The index of the send behind each entry of the queue. */
  function Origins(base: uint32, events: seq<Event>): seq<nat> {
    if events == [] then []
    else
      var init, e := events[..|events| - 1], events[|events| - 1];
      var o := Origins(base, init);
      if IsNew(e) then
        if |o| + 1 > MAX_AWAITING_ACK then (o + [|init|])[1..] else o + [|init|]
      else if e.Ack? then
        var k := Covered(Run(base, init).queue, At(base, e.pos));
        if k <= |o| then o[k..] else []
      else o
  }

  ghost predicate Behind(base: uint32, events: seq<Event>, q: Sent, o: nat) {
    o < |events| && IsNew(events[o]) && q == Sent(At(base, End(events[o])), events[o].at)
  }

  lemma {:induction false} OriginsMatch(base: uint32, events: seq<Event>)
    ensures var q, o := Run(base, events).queue, Origins(base, events);
            && |o| == |q|
            && (forall i | 0 <= i < |q| :: Behind(base, events, q[i], o[i]))
            && (forall i, j | 0 <= i < j < |o| :: o[i] < o[j])
  {
    if events != [] {
      var init, e := events[..|events| - 1], events[|events| - 1];
      var before, o := Run(base, init).queue, Origins(base, init);
      OriginsMatch(base, init);
      forall i | 0 <= i < |before|
        ensures Behind(base, events, before[i], o[i])
      {
        assert Behind(base, init, before[i], o[i]);
      }
      assert IsNew(e) ==> Behind(base, events, Sent(At(base, End(e)), e.at), |init|);
    }
  }

  /** The send at `sent` timed by the acknowledgement at `acked`. */
  datatype Sample = Sample(sent: nat, acked: nat)

  predicate FrontCovered(s: Sender, ack: uint32) {
    s.queue != [] && SeqLe(s.queue[0].end, ack)
  }

  /** The samples taken, in order. */
  function Samples(base: uint32, events: seq<Event>): seq<Sample> {
    if events == [] then []
    else
      var init, e := events[..|events| - 1], events[|events| - 1];
      Samples(base, init) +
      if e.Ack? && FrontCovered(Run(base, init), At(base, e.pos)) && Origins(base, init) != [] then
        [Sample(Origins(base, init)[0], |init|)]
      else []
  }

  /** A sample times a send of new data by a later acknowledgement that covers it. */
  ghost predicate Timed(base: uint32, events: seq<Event>, s: Sample) {
    && s.sent < s.acked < |events|
    && IsNew(events[s.sent]) && events[s.acked].Ack?
    && SeqLe(At(base, End(events[s.sent])), At(base, events[s.acked].pos))
  }

  /** In milliseconds. */
  function Delay(events: seq<Event>, s: Sample): real
    requires s.sent < |events| && s.acked < |events|
  {
    (events[s.acked].at - events[s.sent].at) as real / 1000.0
  }

  predicate Within(events: seq<Event>, samples: seq<Sample>) {
    forall s | s in samples :: s.sent < |events| && s.acked < |events|
  }

  function Delays(events: seq<Event>, samples: seq<Sample>): seq<real>
    requires Within(events, samples)
  {
    if samples == [] then []
    else Delays(events, samples[..|samples| - 1]) + [Delay(events, samples[|samples| - 1])]
  }

  lemma {:induction false} DelaysOfLonger(init: seq<Event>, e: Event, samples: seq<Sample>)
    requires Within(init, samples)
    ensures Delays(init + [e], samples) == Delays(init, samples)
  {
    if samples != [] {
      var rest := samples[..|samples| - 1];
      assert forall s | s in rest :: s in samples;
      assert samples[|samples| - 1] in samples;
      DelaysOfLonger(init, e, rest);
    }
  }

  lemma {:induction false} SamplesAreTimed(base: uint32, events: seq<Event>)
    ensures forall s | s in Samples(base, events) :: Timed(base, events, s)
    ensures Within(events, Samples(base, events))
  {
    if events != [] {
      var init, e := events[..|events| - 1], events[|events| - 1];
      SamplesAreTimed(base, init);
      OriginsMatch(base, init);
      forall s | s in Samples(base, events)
        ensures Timed(base, events, s)
      {
        if s in Samples(base, init) {
          assert Timed(base, init, s);
        } else {
          assert Behind(base, init, Run(base, init).queue[0], s.sent);
        }
      }
    }
  }

  lemma DelaysSnoc(events: seq<Event>, samples: seq<Sample>, s: Sample)
    requires Within(events, samples + [s])
    ensures Within(events, samples) && s.sent < |events| && s.acked < |events|
    ensures Delays(events, samples + [s]) == Delays(events, samples) + [Delay(events, s)]
  {
    assert (samples + [s])[..|samples|] == samples && s in samples + [s];
    assert forall x | x in samples :: x in samples + [s];
  }

  /** What one more acknowledgement does to the estimate. */
  lemma AckEstimate(base: uint32, init: seq<Event>, a: Event)
    requires a.Ack? && FrontCovered(Run(base, init), At(base, a.pos))
    ensures Origins(base, init) != [] && Origins(base, init)[0] < |init|
    ensures Run(base, init + [a]).rtt == AddSample(Run(base, init).rtt, Millis(a.at, init[Origins(base, init)[0]].at))
  {
    OriginsMatch(base, init);
    RunSnoc(base, init, a);
    assert Behind(base, init, Run(base, init).queue[0], Origins(base, init)[0]);
  }

  lemma QuietEstimate(base: uint32, init: seq<Event>, e: Event)
    requires !(e.Ack? && FrontCovered(Run(base, init), At(base, e.pos)))
    ensures Run(base, init + [e]).rtt == Run(base, init).rtt
  {
    RunSnoc(base, init, e);
  }

  /** The estimate is exactly the smoothing of the samples, each of them timing a send of new data: no other delay ever
      enters it. */
  lemma {:induction false} EstimateIsItsSamples(base: uint32, events: seq<Event>)
    ensures Within(events, Samples(base, events)) && forall s | s in Samples(base, events) :: Timed(base, events, s)
    ensures Run(base, events).rtt == Smooth(NO_RTT, Delays(events, Samples(base, events)))
  {
    SamplesAreTimed(base, events);
    if events != [] {
      var init, e := events[..|events| - 1], events[|events| - 1];
      assert events == init + [e];
      EstimateIsItsSamples(base, init);
      EstimateSnoc(base, init, e);
    }
  }

  lemma EstimateSnoc(base: uint32, init: seq<Event>, e: Event)
    requires Within(init, Samples(base, init)) && Within(init + [e], Samples(base, init + [e]))
    requires Run(base, init).rtt == Smooth(NO_RTT, Delays(init, Samples(base, init)))
    ensures Run(base, init + [e]).rtt == Smooth(NO_RTT, Delays(init + [e], Samples(base, init + [e])))
  {
    var before := Samples(base, init);
    DelaysOfLonger(init, e, before);
    SamplesSnoc(base, init, e);
    if e.Ack? && FrontCovered(Run(base, init), At(base, e.pos)) {
      var s := Sample(Origins(base, init)[0], |init|);
      AckEstimate(base, init, e);
      DelaysSnoc(init + [e], before, s);
      SmoothSnoc(NO_RTT, Delays(init + [e], before), Delay(init + [e], s));
    } else {
      QuietEstimate(base, init, e);
      assert before + [] == before;
    }
  }

  lemma SmoothSnoc(r: Rtt, a: seq<real>, x: real)
    ensures Smooth(r, a + [x]) == AddSample(Smooth(r, a), x)
  {
    assert (a + [x])[..|a|] == a;
  }

  // ------------------------------------------------------------------- Karn's rule

  /** The segment sent at `o` was sent again before the end of the run. */
  ghost predicate Resent(events: seq<Event>, o: nat)
    requires o < |events|
  {
    exists j :: o < j < |events| && ResendOf(events[j], events[o])
  }

  predicate ResendOf(e: Event, o: Event) {
    IsResend(e) && o.Send? && e.pos == o.pos && e.len == o.len
  }

  /** A sample that either copy may have caused: its segment was resent before the acknowledgement. */
  ghost predicate Ambiguous(events: seq<Event>, s: Sample) {
    s.sent < s.acked < |events| && Resent(events[..s.acked], s.sent)
  }

  /** No sample is ambiguous. */
  ghost predicate KarnKept(base: uint32, events: seq<Event>) {
    forall s | s in Samples(base, events) :: !Ambiguous(events, s)
  }

  /** The front of the queue is covered, and its segment was resent since it was queued. */
  ghost predicate FrontResent(base: uint32, events: seq<Event>, ack: uint32) {
    && FrontCovered(Run(base, events), ack)
    && Origins(base, events) != [] && Origins(base, events)[0] < |events|
    && Resent(events, Origins(base, events)[0])
  }

  lemma SamplesSnoc(base: uint32, events: seq<Event>, e: Event)
    ensures |Origins(base, events)| == |Run(base, events).queue|
    ensures Samples(base, events + [e]) == Samples(base, events) +
            if e.Ack? && FrontCovered(Run(base, events), At(base, e.pos)) then [Sample(Origins(base, events)[0], |events|)] else []
  {
    assert (events + [e])[..|events|] == events;
    OriginsMatch(base, events);
  }

  /** After any run, an acknowledgement takes an ambiguous sample if and only if the front entry is covered and was
      resent since. */
  lemma AmbiguousIff(base: uint32, events: seq<Event>, a: Event)
    requires a.Ack?
    ensures (exists s :: s in Samples(base, events + [a]) && s.acked == |events| && Ambiguous(events + [a], s))
            <==> FrontResent(base, events, At(base, a.pos))
  {
    var all := events + [a];
    SamplesSnoc(base, events, a);
    SamplesAreTimed(base, events);
    OriginsMatch(base, events);
    assert all[..|events|] == events;
    if FrontResent(base, events, At(base, a.pos)) {
      var s := Sample(Origins(base, events)[0], |events|);
      assert s in Samples(base, all) && Ambiguous(all, s);
    }
  }

  lemma AmbiguousLater(events: seq<Event>, e: Event, s: Sample)
    requires s.acked < |events|
    ensures Ambiguous(events + [e], s) <==> Ambiguous(events, s)
  {
    assert (events + [e])[..s.acked] == events[..s.acked];
  }

  /** So a run keeps Karn's rule if and only if no acknowledgement ever meets a covered front entry whose segment was
      resent before it. */
  lemma {:induction false} KarnKeptIff(base: uint32, events: seq<Event>)
    ensures KarnKept(base, events) <==>
            forall n | 0 <= n < |events| && events[n].Ack? :: !FrontResent(base, events[..n], At(base, events[n].pos))
  {
    if events != [] {
      var init, e := events[..|events| - 1], events[|events| - 1];
      KarnKeptIff(base, init);
      assert events == init + [e];
      assert forall n | 0 <= n < |init| :: events[..n] == init[..n] && events[n] == init[n];
      assert events[..|init|] == init;
      SamplesSnoc(base, init, e);
      SamplesAreTimed(base, init);
      forall s | s in Samples(base, init)
        ensures Ambiguous(events, s) <==> Ambiguous(init, s)
      {
        AmbiguousLater(init, e, s);
      }
      if e.Ack? {
        AmbiguousIff(base, init, e);
      }
      KeptSnoc(base, init, e);
    }
  }

  lemma KeptSnoc(base: uint32, init: seq<Event>, e: Event)
    requires forall s | s in Samples(base, init) :: s.acked < |init| && (Ambiguous(init + [e], s) <==> Ambiguous(init, s))
    ensures KarnKept(base, init + [e]) <==>
            KarnKept(base, init) && !(e.Ack? && FrontResent(base, init, At(base, e.pos)))
  {
    SamplesSnoc(base, init, e);
    if e.Ack? {
      AmbiguousIff(base, init, e);
    }
  }

  /** After any run, resending the segment at the front of the queue and then acknowledging it takes an ambiguous
      sample: the time since the original send, although either copy may have caused the acknowledgement. */
  lemma ResendLeavesOriginalTimed(base: uint32, events: seq<Event>, again: Event, a: Event)
    requires Run(base, events).queue != [] && a.Ack?
    requires var o := Origins(base, events);
             o != [] && o[0] < |events| && ResendOf(again, events[o[0]]) && FrontCovered(Run(base, events), At(base, a.pos))
    ensures var s, all := Sample(Origins(base, events)[0], |events| + 1), events + [again] + [a];
            && s in Samples(base, all) && Ambiguous(all, s)
            && Took(Run(base, events).rtt, Run(base, all).rtt, a.at - events[s.sent].at)
  {
    var o, two, all := Origins(base, events)[0], events + [again], events + [again] + [a];
    OriginsMatch(base, events);
    assert two[..|events|] == events && all[..|two|] == two;
    assert Origins(base, two) == Origins(base, events);
    RunSnoc(base, events, again);
    RunSnoc(base, two, a);
    SamplesSnoc(base, two, a);
    assert Behind(base, events, Run(base, events).queue[0], o);
    AckTakesDelay(Run(base, two), At(base, a.pos), a.at);
    assert ResendOf(two[|events|], two[o]);
  }
}
