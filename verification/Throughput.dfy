/** The ring of one-second throughput buckets, updated in place. */
module Throughput {
  const WINDOW: nat := 90
  const SIZE_T: int := 0x1_0000_0000_0000_0000

  datatype Bucket = Bucket(bytes: nat, packets: nat)
  {
    function Plus(b: Bucket): Bucket { Bucket(bytes + b.bytes, packets + b.packets) }
  }

  const ZERO: Bucket := Bucket(0, 0)

  datatype Ring = Ring(buckets: seq<Bucket>, secs: seq<int>, newest: int)
  {
    predicate Shaped() { |buckets| == WINDOW && |secs| == WINDOW }
  }

  function Empty(): (r: Ring)
    ensures r.Shaped()
  {
    Ring(seq(WINDOW, _ => ZERO), seq(WINDOW, _ => 0), 0)
  }

  /** The slot of a second: the conversion to an unsigned 64-bit size comes before the remainder. */
  function Slot(sec: int): (i: nat)
    ensures i < WINDOW
  {
    (sec % SIZE_T) % WINDOW
  }

  /** What the ring shows for a second. */
  function Shown(r: Ring, sec: int): Bucket
    requires r.Shaped()
  {
    if r.secs[Slot(sec)] == sec then r.buckets[Slot(sec)] else ZERO
  }

  function Put(r: Ring, sec: int, wirelen: nat): (q: Ring)
    requires r.Shaped()
    ensures q.Shaped()
  {
    var i := Slot(sec);
    Ring(r.buckets[i := Shown(r, sec).Plus(Bucket(wirelen, 1))], r.secs[i := sec],
         if sec > r.newest then sec else r.newest)
  }

  /** The buckets of the `k` seconds before the newest, added up. */
  function Completed(r: Ring, k: nat): Bucket
    requires r.Shaped()
  {
    if k == 0 then ZERO else Completed(r, k - 1).Plus(Shown(r, r.newest - k))
  }

  lemma CompletedStep(r: Ring, k: nat, sec: int)
    requires r.Shaped() && sec == r.newest - (k + 1)
    ensures Completed(r, k + 1) == Completed(r, k).Plus(Shown(r, sec))
  {
  }

  function Clamp(seconds: nat): nat {
    if seconds < WINDOW then seconds else WINDOW
  }

  function RecentBitsPerSecond(r: Ring, seconds: nat): real
    requires r.Shaped()
  {
    if seconds == 0 || r.newest == 0 then 0.0
    else Completed(r, Clamp(seconds)).bytes as real * 8.0 / Clamp(seconds) as real
  }

  function RecentPacketsPerSecond(r: Ring, seconds: nat): real
    requires r.Shaped()
  {
    if seconds == 0 || r.newest == 0 then 0.0
    else Completed(r, Clamp(seconds)).packets as real / Clamp(seconds) as real
  }

  /** The last 90 seconds, oldest first. */
  function History(r: Ring): seq<Bucket>
    requires r.Shaped()
  {
    if r.newest == 0 then [] else seq(WINDOW, j requires 0 <= j < WINDOW => Shown(r, r.newest - (WINDOW - 1 - j)))
  }

  class Statistics {
    const ring: array<Bucket>
    const ringSec: array<int>
    var newestSec: int

    ghost predicate Valid()
      reads this
    {
      ring.Length == WINDOW && ringSec.Length == WINDOW
    }

    ghost function Model(): (r: Ring)
      requires Valid()
      reads this, ring, ringSec
      ensures r.Shaped()
    {
      Ring(ring[..], ringSec[..], newestSec)
    }

    constructor ()
      ensures Valid() && Model() == Empty() && fresh(ring) && fresh(ringSec)
    {
      ring := new Bucket[WINDOW](_ => ZERO);
      ringSec := new int[WINDOW](_ => 0);
      newestSec := 0;
    }

    /** Takes over the second's slot, if another second held it. */
    method BucketFor(sec: int) returns (idx: nat)
      requires Valid()
      modifies ring, ringSec, `newestSec
      ensures Valid() && idx == Slot(sec)
      ensures ring[..] == old(ring[..])[idx := Shown(old(Model()), sec)]
      ensures ringSec[..] == old(ringSec[..])[idx := sec]
      ensures newestSec == if sec > old(newestSec) then sec else old(newestSec)
    {
      idx := Slot(sec);
      if ringSec[idx] != sec {
        ringSec[idx] := sec;
        ring[idx] := ZERO;
      }
      if sec > newestSec { newestSec := sec; }
    }

    /** The ring part of counting a packet of second `sec`. */
    method Add(sec: int, wirelen: nat)
      requires Valid()
      modifies ring, ringSec, `newestSec
      ensures Valid() && Model() == Put(old(Model()), sec, wirelen)
    {
      var idx := BucketFor(sec);
      ring[idx] := Bucket(ring[idx].bytes + wirelen, ring[idx].packets + 1);
    }

    /** What a second's slot holds for it. */
    method Look(sec: int) returns (b: Bucket)
      requires Valid()
      ensures b == Shown(Model(), sec)
    {
      var idx := Slot(sec);
      b := if ringSec[idx] == sec then ring[idx] else ZERO;
    }

    method SumCompleted(seconds: nat) returns (total: Bucket)
      requires Valid()
      ensures total == Completed(Model(), seconds)
    {
      total := ZERO;
      ghost var r := Model();
      for i := 1 to seconds + 1
        invariant total == Completed(r, i - 1)
      {
        var sec := newestSec - i;
        var b := Look(sec);
        CompletedStep(r, i - 1, sec);
        total := total.Plus(b);
      }
    }

    /** The second under way is left out of the average. */
    method RecentBps(seconds: nat := 5) returns (rate: real)
      requires Valid()
      ensures rate == RecentBitsPerSecond(Model(), seconds)
    {
      if seconds == 0 || newestSec == 0 {
        return 0.0;
      }
      var total := SumCompleted(Clamp(seconds));
      rate := total.bytes as real * 8.0 / Clamp(seconds) as real;
    }

    method RecentPps(seconds: nat := 5) returns (rate: real)
      requires Valid()
      ensures rate == RecentPacketsPerSecond(Model(), seconds)
    {
      if seconds == 0 || newestSec == 0 {
        return 0.0;
      }
      var total := SumCompleted(Clamp(seconds));
      rate := total.packets as real / Clamp(seconds) as real;
    }

    method ThroughputHistory() returns (out: seq<Bucket>)
      requires Valid()
      ensures out == History(Model())
    {
      out := [];
      if newestSec == 0 {
        return;
      }
      ghost var r := Model();
      for i := 0 to WINDOW
        invariant |out| == i
        invariant forall j | 0 <= j < i :: out[j] == Shown(r, newestSec - (WINDOW - 1 - j))
      {
        var b := Look(newestSec - (WINDOW - 1 - i));
        out := out + [b];
      }
    }
  }
}

/** The ring against the full history of packets. */
module ThroughputTheorems {
  import opened Throughput

  /** A capture time at or after the epoch, as a signed 64-bit count. */
  type Second = s: nat | s < 0x8000_0000_0000_0000

  datatype Sample = Sample(sec: Second, wirelen: nat)

  function Fed(log: seq<Sample>): (r: Ring)
    ensures r.Shaped()
  {
    if log == [] then Empty()
    else Put(Fed(log[..|log| - 1]), log[|log| - 1].sec, log[|log| - 1].wirelen)
  }

  /** All that was ever captured in a second. */
  function Truth(log: seq<Sample>, sec: int): Bucket {
    if log == [] then ZERO
    else
      var p, before := log[|log| - 1], Truth(log[..|log| - 1], sec);
      if p.sec == sec then before.Plus(Bucket(p.wirelen, 1)) else before
  }

  function Newest(log: seq<Sample>): nat {
    if log == [] then 0
    else
      var p, before := log[|log| - 1], Newest(log[..|log| - 1]);
      if p.sec > before then p.sec else before
  }

  /** No packet is 90 seconds or more behind the newest before it. */
  predicate OnTime(log: seq<Sample>) {
    log == [] || (OnTime(log[..|log| - 1]) && log[|log| - 1].sec + 90 > Newest(log[..|log| - 1]))
  }

  /** The ring is right about the last 90 seconds, and holds nothing newer. */
  ghost predicate Faithful(log: seq<Sample>, r: Ring) {
    && r.Shaped() && r.newest == Newest(log)
    && (forall i | 0 <= i < 90 :: 0 <= r.secs[i] <= r.newest)
    && (r.newest > 0 ==> r.secs[Slot(r.newest)] == r.newest)
    && (forall t: int {:trigger Shown(r, t)} | r.newest - 90 < t :: Shown(r, t) == Truth(log, t))
  }

  lemma SmallSlot(s: nat)
    requires s < SIZE_T
    ensures Slot(s) == s % 90
  {
    assert s % SIZE_T == s;
  }

  lemma SlotsApart(s: nat, t: nat)
    requires -90 < s - t < 90 && s != t && s < SIZE_T && t < SIZE_T
    ensures Slot(s) != Slot(t)
  {
    SmallSlot(s);
    SmallSlot(t);
    Remainders(s, t);
  }

  lemma Remainders(s: nat, t: nat)
    requires -90 < s - t < 90 && s != t
    ensures s % 90 != t % 90
  {
  }

  lemma Periodic(x: nat, q: nat)
    ensures (x + 90 * q) % 90 == x % 90
  {
    var d, m := x / 90, x % 90;
    assert x + 90 * q == 90 * (d + q) + m;
  }

  lemma SameSlot(sec: nat, q: nat)
    requires sec + 90 * q < SIZE_T
    ensures Slot(sec + 90 * q) == Slot(sec)
  {
    SmallSlot(sec);
    SmallSlot(sec + 90 * q);
    Periodic(sec, q);
  }

  lemma {:induction false} NothingNewer(log: seq<Sample>, t: int)
    requires t < 0 || t > Newest(log)
    ensures Truth(log, t) == ZERO
  {
    if log != [] {
      NothingNewer(log[..|log| - 1], t);
    }
  }

  lemma {:induction false} NewestIsSecond(log: seq<Sample>)
    ensures Newest(log) < 0x8000_0000_0000_0000
  {
    if log != [] {
      NewestIsSecond(log[..|log| - 1]);
    }
  }

  /** A second other than the packet's, in one window with it, keeps its slot. */
  lemma OthersKeep(r: Ring, sec: Second, wirelen: nat, t: int)
    requires r.Shaped() && (forall i | 0 <= i < 90 :: 0 <= r.secs[i] <= r.newest)
    requires t != sec && -90 < sec - t < 90 && t < SIZE_T
    ensures Shown(Put(r, sec, wirelen), t) == Shown(r, t)
  {
    if t >= 0 {
      SlotsApart(sec, t);
    }
  }

  lemma PutFaithful(log: seq<Sample>, r: Ring, p: Sample)
    requires Faithful(log, r) && p.sec + 90 > r.newest
    ensures Faithful(log + [p], Put(r, p.sec, p.wirelen))
  {
    var q, more := Put(r, p.sec, p.wirelen), log + [p];
    assert more[..|log|] == log;
    NewestIsSecond(log);
    if 0 < r.newest && p.sec < r.newest {
      SlotsApart(p.sec, r.newest);
    }
    forall t: int | q.newest - 90 < t
      ensures Shown(q, t) == Truth(more, t)
    {
      if t > q.newest {
        NothingNewer(more, t);
      } else if t == p.sec {
        assert Shown(r, t) == Truth(log, t);
      } else {
        OthersKeep(r, p.sec, p.wirelen, t);
        assert Shown(r, t) == Truth(log, t);
      }
    }
  }

  lemma {:induction false} FedFaithful(log: seq<Sample>)
    requires OnTime(log)
    ensures Faithful(log, Fed(log))
  {
    if log != [] {
      var init, p := log[..|log| - 1], log[|log| - 1];
      FedFaithful(init);
      assert log == init + [p];
      PutFaithful(init, Fed(init), p);
    }
  }

  // ------------------------------------------------------------- what a log loses

  /** What a rate is made of: bytes, or packets. */
  datatype Unit = Bytes | Packets

  function Amount(b: Bucket, u: Unit): nat {
    if u.Bytes? then b.bytes else b.packets
  }

  function Weight(p: Sample, u: Unit): nat {
    if u.Bytes? then p.wirelen else 1
  }

  /** Seconds a multiple of 90 apart share a slot. */
  ghost predicate Takes(p: Sample, t: int) {
    p.sec != t && (p.sec - t) % 90 == 0
  }

  ghost predicate TakesSlot(p: Sample, t: int) {
    p.sec != t && Slot(p.sec) == Slot(t)
  }

  lemma TakesIff(p: Sample, t: int)
    requires 0 <= t < SIZE_T
    ensures TakesSlot(p, t) <==> Takes(p, t)
  {
    SmallSlot(p.sec);
    SmallSlot(t);
    SameRemainder(p.sec, t);
  }

  lemma SameRemainder(x: nat, y: nat)
    ensures x % 90 == y % 90 <==> (x - y) % 90 == 0
  {
    var a, b := x / 90, y / 90;
    assert x - y == 90 * (a - b) + (x % 90 - y % 90);
  }

  ghost predicate Counts(p: Sample, t: int, u: Unit) {
    p.sec == t && Weight(p, u) > 0
  }

  /** After something was captured in second `t`, a packet of another second took its slot. */
  ghost predicate Overwritten(log: seq<Sample>, t: int, u: Unit) {
    exists i, j :: 0 <= i < j < |log| && Counts(log[i], t, u) && Takes(log[j], t)
  }

  lemma {:induction false} CountedIff(log: seq<Sample>, t: int, u: Unit)
    ensures Amount(Truth(log, t), u) > 0 <==> exists i :: 0 <= i < |log| && Counts(log[i], t, u)
  {
    if log != [] {
      var init, p := log[..|log| - 1], log[|log| - 1];
      CountedIff(init, t, u);
      assert log == init + [p];
      if i :| 0 <= i < |init| && Counts(init[i], t, u) {
        assert Counts(log[i], t, u);
      }
      if p.sec == t && Weight(p, u) > 0 {
        assert Counts(log[|log| - 1], t, u);
      }
    }
  }

  lemma OverwrittenSnoc(init: seq<Sample>, p: Sample, t: int, u: Unit)
    ensures Overwritten(init + [p], t, u) <==> Overwritten(init, t, u) || (Takes(p, t) && Amount(Truth(init, t), u) > 0)
  {
    var log := init + [p];
    CountedIff(init, t, u);
    if i, j :| 0 <= i < j < |log| && Counts(log[i], t, u) && Takes(log[j], t) {
      assert Counts(init[i], t, u);
      assert j < |init| ==> Takes(init[j], t);
    }
    if i, j :| 0 <= i < j < |init| && Counts(init[i], t, u) && Takes(init[j], t) {
      assert Counts(log[i], t, u) && Takes(log[j], t);
    }
    if i :| 0 <= i < |init| && Counts(init[i], t, u) && Takes(p, t) {
      assert Counts(log[i], t, u) && Takes(log[|init|], t);
    }
  }

  lemma PutShows(r: Ring, p: Sample, t: int)
    requires r.Shaped()
    ensures Shown(Put(r, p.sec, p.wirelen), t) ==
            if p.sec == t then Shown(r, t).Plus(Bucket(p.wirelen, 1)) else if TakesSlot(p, t) then ZERO else Shown(r, t)
  {
  }

  /** For any log and any second, the ring shows no more than was captured, and less exactly when that was
      overwritten. */
  lemma {:induction false} ShownIff(log: seq<Sample>, t: int, u: Unit)
    ensures Amount(Shown(Fed(log), t), u) <= Amount(Truth(log, t), u)
    ensures Amount(Shown(Fed(log), t), u) == Amount(Truth(log, t), u) <==> !Overwritten(log, t, u)
  {
    if log != [] {
      var init, p := log[..|log| - 1], log[|log| - 1];
      ShownIff(init, t, u);
      assert log == init + [p];
      OverwrittenSnoc(init, p, t, u);
      PutShows(Fed(init), p, t);
      CountedIff(init, t, u);
      if i :| 0 <= i < |init| && Counts(init[i], t, u) {
        TakesIff(p, t);
      }
    }
  }

  lemma {:induction false} NewestFed(log: seq<Sample>)
    ensures Fed(log).newest == Newest(log)
  {
    if log != [] {
      NewestFed(log[..|log| - 1]);
    }
  }

  // -------------------------------------------------------------- main results

  /** The history shown is what was captured in each of the last 90 seconds. */
  ghost predicate HistoryRight(log: seq<Sample>) {
    && |History(Fed(log))| == 90
    && forall j | 0 <= j < 90 :: History(Fed(log))[j] == Truth(log, Newest(log) - (90 - 1 - j))
  }

  ghost predicate RightAt(log: seq<Sample>, t: int) {
    Shown(Fed(log), t) == Truth(log, t)
  }

  lemma HistoryBySecond(log: seq<Sample>)
    requires Fed(log).newest == Newest(log) > 0
    ensures HistoryRight(log) <==> forall t | Newest(log) - 90 < t <= Newest(log) :: RightAt(log, t)
  {
    var h, n: int := History(Fed(log)), Newest(log);
    if HistoryRight(log) {
      forall t | n - 90 < t <= n
        ensures RightAt(log, t)
      {
        var j := t - n + 90 - 1;
        assert h[j] == Truth(log, t);
      }
    } else {
      var j :| 0 <= j < 90 && h[j] != Truth(log, n - (90 - 1 - j));
      assert !RightAt(log, n - (90 - 1 - j));
    }
  }

  /** For any log, late packets and all: the history is right if and only if no second on show was overwritten. */
  lemma HistoryRightIff(log: seq<Sample>)
    requires Newest(log) > 0
    ensures HistoryRight(log) <==> forall t | Newest(log) - 90 < t <= Newest(log) :: !Overwritten(log, t, Packets)
  {
    NewestFed(log);
    HistoryBySecond(log);
    forall t: int ensures RightAt(log, t) <==> !Overwritten(log, t, Packets) {
      RightAtIff(log, t);
    }
  }

  lemma RightAtIff(log: seq<Sample>, t: int)
    ensures RightAt(log, t) <==> !Overwritten(log, t, Packets)
  {
    ShownIff(log, t, Packets);
    ShownIff(log, t, Bytes);
    if i, j :| 0 <= i < j < |log| && Counts(log[i], t, Bytes) && Takes(log[j], t) {
      assert Counts(log[i], t, Packets);
    }
  }

  lemma HistoryIsTrue(log: seq<Sample>)
    requires OnTime(log) && Newest(log) > 0
    ensures HistoryRight(log)
  {
    FedFaithful(log);
    HistoryBySecond(log);
  }

  /** What was captured in the `k` seconds before the newest. */
  function TrueCompleted(log: seq<Sample>, k: nat): Bucket {
    if k == 0 then ZERO else TrueCompleted(log, k - 1).Plus(Truth(log, Newest(log) - k))
  }

  /** None of the `k` seconds before the newest was overwritten. */
  ghost predicate Kept(log: seq<Sample>, k: nat, u: Unit) {
    forall t | Newest(log) - k <= t < Newest(log) :: !Overwritten(log, t, u)
  }

  lemma KeptStep(log: seq<Sample>, k: nat, u: Unit, sec: int)
    requires sec == Newest(log) - (k + 1)
    ensures Kept(log, k + 1, u) <==> Kept(log, k, u) && !Overwritten(log, sec, u)
  {
  }

  lemma AmountPlus(a: Bucket, b: Bucket, u: Unit)
    ensures Amount(a.Plus(b), u) == Amount(a, u) + Amount(b, u)
  {
  }

  lemma CompletedAdds(r: Ring, k: nat, u: Unit, sec: int)
    requires r.Shaped() && sec == r.newest - (k + 1)
    ensures Amount(Completed(r, k + 1), u) == Amount(Completed(r, k), u) + Amount(Shown(r, sec), u)
  {
    CompletedStep(r, k, sec);
    AmountPlus(Completed(r, k), Shown(r, sec), u);
  }

  lemma TrueAdds(log: seq<Sample>, k: nat, u: Unit, sec: int)
    requires sec == Newest(log) - (k + 1)
    ensures Amount(TrueCompleted(log, k + 1), u) == Amount(TrueCompleted(log, k), u) + Amount(Truth(log, sec), u)
  {
    AmountPlus(TrueCompleted(log, k), Truth(log, sec), u);
  }

  lemma {:induction false} CompletedIff(log: seq<Sample>, k: nat, u: Unit)
    ensures Amount(Completed(Fed(log), k), u) <= Amount(TrueCompleted(log, k), u)
    ensures Amount(Completed(Fed(log), k), u) == Amount(TrueCompleted(log, k), u) <==> Kept(log, k, u)
  {
    if k > 0 {
      var j, sec := k - 1, Newest(log) - k;
      CompletedIff(log, j, u);
      NewestFed(log);
      CompletedAdds(Fed(log), j, u, sec);
      TrueAdds(log, j, u, sec);
      KeptStep(log, j, u, sec);
      ShownIff(log, sec, u);
    }
  }

  /** The rate over the last `k` completed seconds, 90 at most. */
  function Rate(r: Ring, k: nat, u: Unit): real
    requires r.Shaped()
  {
    if u.Bytes? then RecentBitsPerSecond(r, k) else RecentPacketsPerSecond(r, k)
  }

  /** Bytes are shown as bits. */
  function Scale(u: Unit): real {
    if u.Bytes? then 8.0 else 1.0
  }

  function Average(amount: nat, u: Unit, n: nat): real
    requires n > 0
  {
    amount as real * Scale(u) / n as real
  }

  /** The average of what was captured in those seconds. */
  function TrueRate(log: seq<Sample>, k: nat, u: Unit): real
    requires k > 0
  {
    Average(Amount(TrueCompleted(log, Clamp(k)), u), u, Clamp(k))
  }

  lemma RateIs(r: Ring, k: nat, u: Unit)
    requires r.Shaped() && r.newest != 0 && k > 0
    ensures Rate(r, k, u) == Average(Amount(Completed(r, Clamp(k)), u), u, Clamp(k))
  {
  }

  lemma SameAverageIff(x: nat, y: nat, u: Unit, n: nat)
    requires n > 0
    ensures Average(x, u, n) == Average(y, u, n) <==> x == y
  {
    assert Average(x, u, n) * n as real == x as real * Scale(u);
    assert Average(y, u, n) * n as real == y as real * Scale(u);
  }

  /** For any log and any span, either rate is the exact average over the completed seconds if and only if none of them
      was overwritten. */
  lemma RateExactIff(log: seq<Sample>, k: nat, u: Unit)
    requires Newest(log) > 0 && k > 0
    ensures Rate(Fed(log), k, u) == TrueRate(log, k, u) <==> Kept(log, Clamp(k), u)
  {
    NewestFed(log);
    RateIs(Fed(log), k, u);
    CompletedIff(log, Clamp(k), u);
    SameAverageIff(Amount(Completed(Fed(log), Clamp(k)), u), Amount(TrueCompleted(log, Clamp(k)), u), u, Clamp(k));
  }

  // ------------------------------------------------------------------ logs on time

  /** No second in the window of a log on time is overwritten. */
  lemma OnTimeKeeps(log: seq<Sample>, t: int, u: Unit)
    requires OnTime(log) && Newest(log) - 90 < t
    ensures !Overwritten(log, t, u)
  {
    FedFaithful(log);
    assert RightAt(log, t);
    ShownIff(log, t, u);
  }

  /** For up to 89 seconds both rates are exact averages over the completed seconds. */
  lemma RecentRateIsExact(log: seq<Sample>, k: nat, u: Unit)
    requires OnTime(log) && Newest(log) > 0 && 1 <= k < 90
    ensures Rate(Fed(log), k, u) == TrueRate(log, k, u)
  {
    forall t | Newest(log) - Clamp(k) <= t < Newest(log) ensures !Overwritten(log, t, u) {
      OnTimeKeeps(log, t, u);
    }
    RateExactIff(log, k, u);
  }

  /** Asking for 90 seconds or more always misses the oldest one, whose slot the newest second took over: the rate is
      right exactly when nothing was captured in it. */
  lemma NinetySecondRateExactIff(log: seq<Sample>, k: nat, u: Unit)
    requires OnTime(log) && Newest(log) > 0 && k >= 90
    ensures Rate(Fed(log), k, u) == Average(Amount(TrueCompleted(log, 90 - 1), u), u, 90)
    ensures Rate(Fed(log), k, u) == TrueRate(log, k, u) <==> Amount(Truth(log, Newest(log) - 90), u) == 0
  {
    OldestMissed(log, u);
    RateIs(Fed(log), k, u);
    TrueAdds(log, 90 - 1, u, Newest(log) - 90);
    SameAverageIff(Amount(TrueCompleted(log, 90 - 1), u), Amount(TrueCompleted(log, 90), u), u, 90);
  }

  /** What ninety seconds add up to. */
  lemma OldestMissed(log: seq<Sample>, u: Unit)
    requires OnTime(log) && Newest(log) > 0
    ensures Fed(log).newest == Newest(log)
    ensures Amount(Completed(Fed(log), 90), u) == Amount(TrueCompleted(log, 90 - 1), u)
  {
    forall t | Newest(log) - (90 - 1) <= t < Newest(log) ensures !Overwritten(log, t, u) {
      OnTimeKeeps(log, t, u);
    }
    CompletedIff(log, 90 - 1, u);
    FedFaithful(log);
    NewestIsSecond(log);
    OldestGone(Fed(log));
    CompletedAdds(Fed(log), 90 - 1, u, Newest(log) - 90);
  }

  lemma OldestGone(r: Ring)
    requires r.Shaped() && 0 < r.newest < SIZE_T && r.secs[Slot(r.newest)] == r.newest
    requires forall i | 0 <= i < 90 :: 0 <= r.secs[i]
    ensures Shown(r, r.newest - 90) == ZERO
  {
    if r.newest >= 90 {
      SameSlot(r.newest - 90, 1);
    }
  }

  /** The second of the last 90 that shares the slot of `sec`. */
  function Twin(newest: nat, sec: nat): int {
    newest - (newest - sec) % 90
  }

  /** A packet that is too late takes the slot of a second still on show: the history stays right exactly when the
      packet was on time or nothing had been captured in that second. */
  lemma HistoryRightIffOnTime(log: seq<Sample>, p: Sample)
    requires OnTime(log) && Newest(log) > 0
    ensures HistoryRight(log + [p]) <==>
            p.sec + 90 > Newest(log) || Truth(log, Twin(Newest(log), p.sec)) == ZERO
  {
    var more, n := log + [p], Newest(log);
    assert more[..|log|] == log;
    if p.sec + 90 > n {
      HistoryIsTrue(more);
    } else {
      HistoryRightIff(more);
      NewestIsSecond(log);
      forall t | n - 90 < t <= n
        ensures Overwritten(more, t, Packets) <==> t == Twin(n, p.sec) && Truth(log, t).packets > 0
      {
        OverwrittenSnoc(log, p, t, Packets);
        OnTimeKeeps(log, t, Packets);
        TwinTakes(n, p, t);
      }
      EmptyIff(log, Twin(n, p.sec));
    }
  }

  lemma TwinTakes(newest: nat, p: Sample, t: int)
    requires newest < SIZE_T && p.sec + 90 <= newest && newest - 90 < t <= newest
    ensures Takes(p, t) <==> t == Twin(newest, p.sec)
  {
    var q, twin := (newest - p.sec) / 90, Twin(newest, p.sec);
    assert twin == p.sec + 90 * q;
    SameSlot(p.sec, q);
    if t >= 0 && t != twin {
      SlotsApart(twin, t);
    }
    if t >= 0 {
      TakesIff(p, t);
    }
  }

  lemma {:induction false} EmptyIff(log: seq<Sample>, t: int)
    ensures Truth(log, t) == ZERO <==> Truth(log, t).packets == 0
  {
    if log != [] {
      EmptyIff(log[..|log| - 1], t);
    }
  }
}
