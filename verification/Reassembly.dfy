/** A one-way stream reassembler: its state as a value, what each operation does to that, and the class that
    updates it in place. */
module Reassembly {
  import opened Serial
  import MapSum

  const DEFAULT_PREFIX: nat := 8192
  const DEFAULT_BUFFERED: nat := 32768

  datatype Caps = Caps(prefix: nat, buffered: nat)

  datatype Stream = Stream(
    initialized: bool,
    next: uint32,
    prefix: seq<byte>,
    pending: map<uint32, seq<byte>>,
    bufferedBytes: int,
    delivered: nat,
    bufferedSegments: nat,
    overlap: nat,
    discarded: nat)

  const EMPTY: Stream := Stream(false, 0, [], map[], 0, 0, 0, 0, 0)

  predicate Saturated(c: Caps, s: Stream) {
    |s.prefix| >= c.prefix
  }

  /** Only what still fits is kept; a partial fit charges the rest to `discarded`. */
  function Append(c: Caps, s: Stream, data: seq<byte>): Stream {
    if Saturated(c, s) then s
    else
      var take := if c.prefix - |s.prefix| < |data| then c.prefix - |s.prefix| else |data|;
      s.(prefix := s.prefix + data[..take], discarded := s.discarded + (|data| - take))
  }

  function Deliver(c: Caps, s: Stream, data: seq<byte>): Stream {
    Append(c, s, data).(next := Add32(s.next, |data|), delivered := s.delivered + |data|)
  }

  /** The first key of the ordered map: the smallest raw number, whatever the wrap. */
  ghost function MinKey(m: map<uint32, seq<byte>>): uint32
    requires m != map[]
    ensures IsLeast(MinKey(m), m.Keys)
  {
    HasLeast(m.Keys);
    var k :| IsLeast(k, m.Keys);
    k
  }

  predicate IsLeast(k: uint32, keys: set<uint32>) {
    k in keys && forall j | j in keys :: k <= j
  }

  lemma {:induction false} HasLeast(keys: set<uint32>)
    requires keys != {}
    ensures exists k :: IsLeast(k, keys)
    decreases |keys|
  {
    var k :| k in keys;
    var rest := keys - {k};
    if rest == {} {
      assert keys == {k};
      assert IsLeast(k, keys);
    } else {
      HasLeast(rest);
      var l :| IsLeast(l, rest);
      assert keys == rest + {k};
      assert IsLeast(if l < k then l else k, keys);
    }
  }

  /** Removes the pending segment `k`, which is not ahead, and delivers what is new in it. */
  function Release(c: Caps, s: Stream, k: uint32): Stream
    requires k in s.pending
  {
    var bytes := s.pending[k];
    var rest := s.(pending := s.pending - {k}, bufferedBytes := s.bufferedBytes - |bytes|);
    var already := Sub32(s.next, k);
    if already >= |bytes| then rest.(overlap := rest.overlap + |bytes|)
    else Deliver(c, rest.(overlap := rest.overlap + already), bytes[already..])
  }

  ghost function Drain(c: Caps, s: Stream): Stream
    decreases |s.pending|
  {
    if s.pending == map[] then s
    else
      var k := MinKey(s.pending);
      if SeqGt(k, s.next) then s else Drain(c, Release(c, s, k))
  }

  lemma DrainStep(c: Caps, s: Stream, k: uint32)
    requires IsLeast(k, s.pending.Keys)
    ensures Drain(c, s) == if SeqGt(k, s.next) then s else Drain(c, Release(c, s, k))
  {
    assert MinKey(s.pending) <= k <= MinKey(s.pending);
  }

  function Anchor(s: Stream, sn: uint32, syn: bool): Stream {
    if s.initialized then s
    else s.(next := if syn then Add32(sn, 1) else sn, initialized := true)
  }

  predicate Overflows(c: Caps, s: Stream, data: seq<byte>) {
    Saturated(c, s) || s.bufferedBytes + |data| > c.buffered
  }

  /** Keeps a segment that is ahead of what is expected, or refuses it. */
  function Hold(c: Caps, s: Stream, sn: uint32, data: seq<byte>): Stream {
    if Overflows(c, s, data) then s.(discarded := s.discarded + |data|)
    else if sn !in s.pending then
      s.(pending := s.pending[sn := data], bufferedBytes := s.bufferedBytes + |data|,
         bufferedSegments := s.bufferedSegments + 1)
    else if |s.pending[sn]| < |data| then
      s.(pending := s.pending[sn := data],
         bufferedBytes := s.bufferedBytes + (|data| - |s.pending[sn]|))
    else s
  }

  ghost function Arrive(c: Caps, s: Stream, sn: uint32, data: seq<byte>): Stream {
    if SeqLt(sn, s.next) then
      var already := Sub32(s.next, sn);
      if already >= |data| then s.(overlap := s.overlap + |data|)
      else Place(c, s.(overlap := s.overlap + already), s.next, data[already..])
    else Place(c, s, sn, data)
  }

  /** What is left after trimming either continues the stream or is ahead of it. */
  ghost function Place(c: Caps, s: Stream, sn: uint32, data: seq<byte>): Stream {
    if sn == s.next then Drain(c, Deliver(c, s, data)) else Hold(c, s, sn, data)
  }

  /** One call of push. */
  ghost function Push(c: Caps, s: Stream, sn: uint32, data: seq<byte>, syn: bool): Stream {
    var a := Anchor(s, sn, syn);
    if data == [] then a else Arrive(c, a, sn, data)
  }

  function Size(bytes: seq<byte>): nat {
    |bytes|
  }

  ghost function Held(s: Stream): nat {
    MapSum.Sum(s.pending, Size)
  }

  /** The byte count is the size of what is held, and never above the cap. */
  ghost predicate Bounded(c: Caps, s: Stream) {
    && s.bufferedBytes == Held(s) <= c.buffered
    && |s.prefix| <= c.prefix
  }

  lemma ReleaseBounded(c: Caps, s: Stream, k: uint32)
    requires Bounded(c, s) && k in s.pending
    ensures Bounded(c, Release(c, s, k))
    ensures Release(c, s, k).bufferedBytes == s.bufferedBytes - |s.pending[k]|
  {
    MapSum.Remove(s.pending, Size, k);
  }

  lemma {:induction false} DrainBounded(c: Caps, s: Stream)
    requires Bounded(c, s)
    ensures Bounded(c, Drain(c, s))
    decreases |s.pending|
  {
    if s.pending != map[] && !SeqGt(MinKey(s.pending), s.next) {
      ReleaseBounded(c, s, MinKey(s.pending));
      DrainBounded(c, Release(c, s, MinKey(s.pending)));
    }
  }

  lemma HoldBounded(c: Caps, s: Stream, sn: uint32, data: seq<byte>)
    requires Bounded(c, s)
    ensures Bounded(c, Hold(c, s, sn, data))
  {
    MapSum.Put(s.pending, Size, sn, data);
  }

  lemma PushBounded(c: Caps, s: Stream, sn: uint32, data: seq<byte>, syn: bool)
    requires Bounded(c, s)
    ensures Bounded(c, Push(c, s, sn, data, syn))
  {
    var a := Anchor(s, sn, syn);
    HoldBounded(c, a, sn, data);
    if data != [] && SeqLt(sn, a.next) && Sub32(a.next, sn) < |data| {
      var already := Sub32(a.next, sn);
      DrainBounded(c, Deliver(c, a.(overlap := a.overlap + already), data[already..]));
    } else if sn == a.next {
      DrainBounded(c, Deliver(c, a, data));
    }
  }

  class StreamReassembler {
    const maxPrefix: nat
    const maxBuffered: nat
    var initialized: bool
    var next: uint32
    var prefix: seq<byte>
    var pending: map<uint32, seq<byte>>
    var bufferedBytes: nat
    var delivered: nat
    var bufferedSegments: nat
    var overlap: nat
    var discarded: nat

    ghost function Limits(): Caps {
      Caps(maxPrefix, maxBuffered)
    }

    ghost function Model(): Stream
      reads this
    {
      Stream(initialized, next, prefix, pending, bufferedBytes, delivered, bufferedSegments, overlap, discarded)
    }

    ghost predicate Valid()
      reads this
    {
      Bounded(Limits(), Model())
    }

    constructor (maxPrefix: nat := DEFAULT_PREFIX, maxBuffered: nat := DEFAULT_BUFFERED)
      ensures Valid() && Model() == EMPTY
      ensures this.maxPrefix == maxPrefix && this.maxBuffered == maxBuffered
    {
      this.maxPrefix, this.maxBuffered := maxPrefix, maxBuffered;
      initialized, next, prefix, pending, bufferedBytes := false, 0, [], map[], 0;
      delivered, bufferedSegments, overlap, discarded := 0, 0, 0, 0;
    }

    /** Forgets the stream; the lifetime counters stay. */
    method Reset()
      requires Valid()
      modifies this
      ensures Valid()
      ensures Model() == EMPTY.(delivered := old(delivered), bufferedSegments := old(bufferedSegments),
                                overlap := old(overlap), discarded := old(discarded))
    {
      initialized, next, prefix, pending, bufferedBytes := false, 0, [], map[], 0;
    }

    method AppendBytes(data: seq<byte>)
      modifies `prefix, `discarded
      ensures Model() == Append(Limits(), old(Model()), data)
    {
      if |prefix| >= maxPrefix {
        return;
      }
      var room := maxPrefix - |prefix|;
      var take := if room < |data| then room else |data|;
      prefix := prefix + data[..take];
      if take < |data| {
        discarded := discarded + (|data| - take);
      }
    }

    method DeliverBytes(data: seq<byte>)
      requires Valid()
      modifies `prefix, `discarded, `next, `delivered
      ensures Valid() && Model() == Deliver(Limits(), old(Model()), data)
    {
      AppendBytes(data);
      next := Add32(next, |data|);
      delivered := delivered + |data|;
    }

    /** Feeds one segment; returns how many bytes it put in order, its own and those it released. */
    method Feed(sn: uint32, data: seq<byte>, syn: bool) returns (added: nat)
      requires Valid()
      modifies this
      ensures Valid() && Model() == Push(Limits(), old(Model()), sn, data, syn)
      ensures added == delivered - old(delivered)
    {
      if !initialized {
        next := if syn then Add32(sn, 1) else sn;
        initialized := true;
      }
      if |data| == 0 {
        return 0;
      }
      added := Accept(sn, data);
    }

    method Accept(sn: uint32, data: seq<byte>) returns (added: nat)
      requires Valid()
      modifies this
      ensures Valid() && Model() == Arrive(Limits(), old(Model()), sn, data)
      ensures added == delivered - old(delivered)
    {
      var number, bytes := sn, data;
      if SeqLt(number, next) {
        var already := Sub32(next, number);
        overlap := overlap + if already < |bytes| then already else |bytes|;
        if already >= |bytes| {
          return 0;
        }
        bytes := bytes[already..];
        number := next;
      }
      added := PlaceSegment(number, bytes);
    }

    method PlaceSegment(number: uint32, bytes: seq<byte>) returns (added: nat)
      requires Valid()
      modifies this
      ensures Valid() && Model() == Place(Limits(), old(Model()), number, bytes)
      ensures added == delivered - old(delivered)
    {
      if number == next {
        DeliverBytes(bytes);
        var released := DrainPending();
        return |bytes| + released;
      }
      HoldSegment(number, bytes);
      return 0;
    }

    method HoldSegment(number: uint32, bytes: seq<byte>)
      requires Valid()
      modifies this
      ensures Valid() && Model() == Hold(Limits(), old(Model()), number, bytes)
    {
      HoldBounded(Limits(), Model(), number, bytes);
      if |prefix| >= maxPrefix || bufferedBytes + |bytes| > maxBuffered {
        discarded := discarded + |bytes|;
      } else if number !in pending {
        pending := pending[number := bytes];
        bufferedBytes := bufferedBytes + |bytes|;
        bufferedSegments := bufferedSegments + 1;
      } else if |pending[number]| < |bytes| {
        bufferedBytes := bufferedBytes + (|bytes| - |pending[number]|);
        pending := pending[number := bytes];
      }
    }

    method DrainPending() returns (released: nat)
      requires Valid()
      modifies this
      ensures Valid() && Model() == Drain(Limits(), old(Model()))
      ensures released == delivered - old(delivered)
    {
      released := 0;
      ghost var goal := Drain(Limits(), Model());
      while |pending| > 0
        invariant Valid() && Drain(Limits(), Model()) == goal
        invariant released == delivered - old(delivered)
        decreases |pending|
      {
        HasLeast(pending.Keys);
        var number :| number in pending.Keys && IsLeast(number, pending.Keys);
        DrainStep(Limits(), Model(), number);
        if SeqGt(number, next) {
          break;
        }
        var gained := ReleaseSegment(number);
        released := released + gained;
      }
    }

    /** The body of the draining loop, for one segment that is no longer ahead. */
    method ReleaseSegment(number: uint32) returns (gained: nat)
      requires Valid() && number in pending
      modifies this
      ensures Valid() && Model() == Release(Limits(), old(Model()), number)
      ensures gained == delivered - old(delivered)
    {
      ReleaseBounded(Limits(), Model(), number);
      var bytes := pending[number];
      bufferedBytes := bufferedBytes - |bytes|;
      pending := pending - {number};
      var already := Sub32(next, number);
      if already >= |bytes| {
        overlap := overlap + |bytes|;
        return 0;
      }
      overlap := overlap + already;
      gained := |bytes| - already;
      DeliverBytes(bytes[already..]);
    }
  }
}
