/** Rolling query metrics: a ring of time slices that are reset and reused in turn. A ghost
    list of epochs, one per slice ever begun, keeps every event; the contract of `Aggregate`
    says which of them it counts. Times are Unix seconds.
 */
module QueryMetrics {
  import opened Latency

  datatype Event = Query(now: int, elapsed: int, success: bool) | Blocked(now: int)

  datatype Counts = Counts(total: nat, errors: nat, blocked: nat, buckets: Buckets)

  const NONE: Counts := Counts(0, 0, 0, [0, 0, 0, 0, 0, 0, 0, 0])

  function Bump(c: Counts, e: Event): Counts {
    match e
    case Query(_, elapsed, success) =>
      var b := BucketForLatency(elapsed);
      Counts(c.total + 1, if success then c.errors else c.errors + 1, c.blocked, c.buckets[b := c.buckets[b] + 1])
    case Blocked(_) => c.(blocked := c.blocked + 1)
  }

  function Tally(events: seq<Event>): Counts {
    if |events| == 0 then NONE else Bump(Tally(events[..|events| - 1]), events[|events| - 1])
  }

  function Add(a: Counts, b: Counts): Counts {
    Counts(a.total + b.total, a.errors + b.errors, a.blocked + b.blocked,
           seq(BUCKET_COUNT, i requires 0 <= i < BUCKET_COUNT => a.buckets[i] + b.buckets[i]))
  }

  lemma AddNone(a: Counts)
    ensures Add(a, NONE) == a && Add(NONE, a) == a
  {
  }

  lemma AddSwaps(a: Counts, b: Counts, c: Counts)
    ensures Add(a, b) == Add(b, a) && Add(Add(a, b), c) == Add(a, Add(b, c))
  {
  }

  lemma AddBump(a: Counts, b: Counts, e: Event)
    ensures Add(a, Bump(b, e)) == Bump(Add(a, b), e)
  {
  }

  lemma {:induction false} TallyConcat(a: seq<Event>, b: seq<Event>)
    ensures Tally(a + b) == Add(Tally(a), Tally(b))
  {
    if |b| == 0 {
      assert a + b == a;
      AddNone(Tally(a));
    } else {
      var init, last := b[..|b| - 1], b[|b| - 1];
      TallyConcat(a, init);
      assert (a + b)[..|a + b| - 1] == a + init;
      AddBump(Tally(a), Tally(init), last);
    }
  }

  /** In every tally the bucket counts sum to the total, and errors never exceed it. */
  lemma {:induction false} TallyIsConsistent(events: seq<Event>)
    ensures var c := Tally(events); SumTo(c.buckets, BUCKET_COUNT) == c.total && c.errors <= c.total
  {
    if |events| > 0 {
      var init, last := events[..|events| - 1], events[|events| - 1];
      TallyIsConsistent(init);
      if last.Query? {
        var was := Tally(init).buckets;
        SumAfterUpdate(was, BucketForLatency(last.elapsed), was[BucketForLatency(last.elapsed)] + 1, BUCKET_COUNT);
      }
    }
  }

  lemma {:induction false} SumAfterUpdate(buckets: Buckets, b: Bucket, v: nat, n: nat)
    requires n <= BUCKET_COUNT
    ensures SumTo(buckets[b := v], n) == SumTo(buckets, n) + if b < n then v - buckets[b] else 0
  {
    if n > 0 {
      SumAfterUpdate(buckets, b, v, n - 1);
    }
  }

  // ----- slices and epochs -----

  datatype Slice = Slice(start: int, counts: Counts)

  /** The events counted in one slice between two resets. */
  datatype Epoch = Epoch(start: int, events: seq<Event>)

  function SliceOf(e: Epoch): Slice {
    Slice(e.start, Tally(e.events))
  }

  function SlicesOf(es: seq<Epoch>): seq<Slice> {
    seq(|es|, i requires 0 <= i < |es| => SliceOf(es[i]))
  }

  /** All events, in order. */
  function Log(es: seq<Epoch>): seq<Event> {
    if |es| == 0 then [] else Log(es[..|es| - 1]) + es[|es| - 1].events
  }

  lemma {:induction false} LogConcat(a: seq<Epoch>, b: seq<Epoch>)
    ensures Log(a + b) == Log(a) + Log(b)
  {
    if |b| == 0 {
      assert a + b == a;
    } else {
      LogConcat(a, b[..|b| - 1]);
      assert (a + b)[..|a + b| - 1] == a + b[..|b| - 1];
    }
  }

  /** Sum of the slices that start at or after the cutoff. */
  function SumFrom(slices: seq<Slice>, cutoff: int): Counts {
    if |slices| == 0 then NONE
    else
      var init, last := slices[..|slices| - 1], slices[|slices| - 1];
      if last.start < cutoff then SumFrom(init, cutoff) else Add(SumFrom(init, cutoff), last.counts)
  }

  lemma {:induction false} SumConcat(a: seq<Slice>, b: seq<Slice>, cutoff: int)
    ensures SumFrom(a + b, cutoff) == Add(SumFrom(a, cutoff), SumFrom(b, cutoff))
  {
    if |b| == 0 {
      assert a + b == a;
      AddNone(SumFrom(a, cutoff));
    } else {
      var init, last := b[..|b| - 1], b[|b| - 1];
      SumConcat(a, init, cutoff);
      assert (a + b)[..|a + b| - 1] == a + init;
      AddSwaps(SumFrom(a, cutoff), SumFrom(init, cutoff), last.counts);
    }
  }

  /** The order in which the ring is read does not matter. */
  lemma SumOfRotation(slices: seq<Slice>, k: nat, cutoff: int)
    requires k <= |slices|
    ensures SumFrom(slices, cutoff) == SumFrom(slices[k..] + slices[..k], cutoff)
  {
    assert slices == slices[..k] + slices[k..];
    SumConcat(slices[..k], slices[k..], cutoff);
    SumConcat(slices[k..], slices[..k], cutoff);
    AddSwaps(SumFrom(slices[..k], cutoff), SumFrom(slices[k..], cutoff), NONE);
  }

  /** Epochs begin in order, at least L apart, and hold the events of their own L seconds; the
      first n - 1 are the empty slices a new ring starts with. */
  ghost predicate WellTimed(es: seq<Epoch>, n: nat, L: int, clock: int) {
    && 0 < n <= |es| && L > 0 && es[|es| - 1].start <= clock
    && (forall i :: 0 <= i < n - 1 ==> es[i].events == [] && es[i].start <= es[i + 1].start)
    && (forall i :: n - 1 <= i < |es| - 1 ==> es[i].start + L <= es[i + 1].start)
    && (forall i, j :: 0 <= i < |es| && 0 <= j < |es[i].events| ==>
          es[i].start <= es[i].events[j].now < es[i].start + L && es[i].events[j].now <= clock)
  }

  lemma {:induction false} StartsAscend(es: seq<Epoch>, n: nat, L: int, clock: int, i: nat, j: nat)
    requires WellTimed(es, n, L, clock) && i <= j < |es|
    ensures es[i].start <= es[j].start
    ensures i >= n - 1 ==> es[i].start + (j - i) * L <= es[j].start
    decreases j
  {
    if i < j {
      StartsAscend(es, n, L, clock, i, j - 1);
      assert (j - i) * L == (j - 1 - i) * L + L;
    }
  }

  lemma {:induction false} SumOfOld(es: seq<Epoch>, cutoff: int)
    requires forall i :: 0 <= i < |es| ==> es[i].start < cutoff
    ensures SumFrom(SlicesOf(es), cutoff) == NONE
  {
    if |es| > 0 {
      assert SlicesOf(es)[..|es| - 1] == SlicesOf(es[..|es| - 1]);
      SumOfOld(es[..|es| - 1], cutoff);
    }
  }

  lemma {:induction false} SumOfNew(es: seq<Epoch>, cutoff: int)
    requires forall i :: 0 <= i < |es| ==> es[i].start >= cutoff
    ensures SumFrom(SlicesOf(es), cutoff) == Tally(Log(es))
  {
    if |es| > 0 {
      var init := es[..|es| - 1];
      assert SlicesOf(es)[..|es| - 1] == SlicesOf(init);
      SumOfNew(init, cutoff);
      TallyConcat(Log(init), es[|es| - 1].events);
    }
  }

  function FirstFrom(es: seq<Epoch>, cutoff: int): (k: nat)
    ensures k <= |es| && forall i :: 0 <= i < k ==> es[i].start < cutoff
    ensures k < |es| ==> es[k].start >= cutoff
  {
    if |es| == 0 || es[0].start >= cutoff then 0 else 1 + FirstFrom(es[1..], cutoff)
  }

  /** Summing over epochs sorted by start takes a suffix of them. */
  lemma SumIsSuffix(es: seq<Epoch>, cutoff: int) returns (k: nat)
    requires forall i, j :: 0 <= i <= j < |es| ==> es[i].start <= es[j].start
    ensures k <= |es|
    ensures forall i :: 0 <= i < k ==> es[i].start < cutoff
    ensures forall i :: k <= i < |es| ==> es[i].start >= cutoff
    ensures SumFrom(SlicesOf(es), cutoff) == Tally(Log(es[k..]))
  {
    k := FirstFrom(es, cutoff);
    var before, after := SlicesOf(es[..k]), SlicesOf(es[k..]);
    assert SlicesOf(es) == before + after;
    SumConcat(before, after, cutoff);
    SumOfOld(es[..k], cutoff);
    SumOfNew(es[k..], cutoff);
    AddNone(SumFrom(after, cutoff));
  }

  /** Where an event of the log comes from. */
  lemma {:induction false} LogMember(es: seq<Epoch>, x: nat) returns (i: nat, j: nat)
    requires x < |Log(es)|
    ensures i < |es| && j < |es[i].events| && Log(es)[x] == es[i].events[j]
  {
    var init, last := es[..|es| - 1], es[|es| - 1];
    if x < |Log(init)| {
      i, j := LogMember(init, x);
    } else {
      i, j := |es| - 1, x - |Log(init)|;
    }
  }

  lemma AppendEpoch(es: seq<Epoch>, n: nat, L: int, clock: int, now: int)
    requires WellTimed(es, n, L, clock) && clock <= now && es[|es| - 1].start + L <= now
    ensures WellTimed(es + [Epoch(now, [])], n, L, now)
    ensures Log(es + [Epoch(now, [])]) == Log(es)
  {
    var r := es + [Epoch(now, [])];
    assert r[..|es|] == es;
  }

  lemma LaterClock(es: seq<Epoch>, n: nat, L: int, clock: int, now: int)
    requires WellTimed(es, n, L, clock) && clock <= now
    ensures WellTimed(es, n, L, now)
  {
  }

  function WithEvent(es: seq<Epoch>, e: Event): seq<Epoch>
    requires |es| > 0
  {
    var last := es[|es| - 1];
    es[|es| - 1 := Epoch(last.start, last.events + [e])]
  }

  lemma AppendEvent(es: seq<Epoch>, n: nat, L: int, clock: int, e: Event)
    requires WellTimed(es, n, L, clock) && es[|es| - 1].start <= e.now < es[|es| - 1].start + L && clock <= e.now
    ensures WellTimed(WithEvent(es, e), n, L, e.now)
    ensures Log(WithEvent(es, e)) == Log(es) + [e]
  {
    var r := WithEvent(es, e);
    assert r[..|es| - 1] == es[..|es| - 1];
    EventIsTimely(es, n, L, clock, e);
  }

  lemma EventIsTimely(es: seq<Epoch>, n: nat, L: int, clock: int, e: Event)
    requires WellTimed(es, n, L, clock) && es[|es| - 1].start <= e.now < es[|es| - 1].start + L && clock <= e.now
    ensures WellTimed(WithEvent(es, e), n, L, e.now)
  {
    var r := WithEvent(es, e);
    assert forall i :: 0 <= i < |es| ==> r[i].start == es[i].start && (i < |es| - 1 ==> r[i] == es[i]);
  }

  ghost predicate AllBefore(events: seq<Event>, t: int) {
    forall i :: 0 <= i < |events| ==> events[i].now < t
  }

  ghost predicate NoneBefore(events: seq<Event>, t: int) {
    forall i :: 0 <= i < |events| ==> events[i].now >= t
  }

  /** Events before epoch k of the newest n are older than n - 1 slices, events from it on are
      no older than n. */
  lemma EpochsByAge(es: seq<Epoch>, n: nat, L: int, clock: int, now: int, k: nat)
    requires WellTimed(es, n, L, clock) && clock <= now && k <= n
    requires forall i :: |es| - n <= i < |es| - n + k ==> es[i].start < now - n * L
    requires forall i :: |es| - n + k <= i < |es| ==> es[i].start >= now - n * L
    ensures AllBefore(Log(es[..|es| - n + k]), now - (n - 1) * L)
    ensures NoneBefore(Log(es[|es| - n + k..]), now - n * L)
  {
    var m := |es| - n + k;
    assert n * L == (n - 1) * L + L;
    forall x | 0 <= x < |Log(es[..m])|
      ensures Log(es[..m])[x].now < now - (n - 1) * L
    {
      var i, j := LogMember(es[..m], x);
      assert es[i].events[j].now < es[i].start + L;
      if i < |es| - n {
        assert i >= n - 1;
        StartsAscend(es, n, L, clock, i, i + n);
        StartsAscend(es, n, L, clock, i + n, |es| - 1);
      }
    }
    forall x | 0 <= x < |Log(es[m..])|
      ensures Log(es[m..])[x].now >= now - n * L
    {
      var i, j := LogMember(es[m..], x);
      assert es[m + i].start <= es[m + i].events[j].now;
    }
  }

  /** counts is the tally of the newer part of the log, which holds every event of the last
      n - 1 slice lengths and none older than n. */
  ghost predicate CountsRecent(counts: Counts, log: seq<Event>, n: nat, L: int, now: int) {
    exists older, newer :: IsRecentPart(counts, log, n, L, now, older, newer)
  }

  ghost predicate IsRecentPart(counts: Counts, log: seq<Event>, n: nat, L: int, now: int, older: seq<Event>,
                               newer: seq<Event>)
  {
    && log == older + newer && counts == Tally(newer)
    && AllBefore(older, now - (n - 1) * L) && NoneBefore(newer, now - n * L)
  }

  lemma RecentSum(es: seq<Epoch>, n: nat, L: int, clock: int, now: int)
    requires WellTimed(es, n, L, clock) && clock <= now
    ensures CountsRecent(SumFrom(SlicesOf(es[|es| - n..]), now - n * L), Log(es), n, L, now)
  {
    var k := RecentSuffix(es, n, L, clock, now);
    var m := |es| - n + k;
    EpochsByAge(es, n, L, clock, now, k);
    assert es == es[..m] + es[m..];
    LogConcat(es[..m], es[m..]);
    assert IsRecentPart(Tally(Log(es[m..])), Log(es), n, L, now, Log(es[..m]), Log(es[m..]));
  }

  lemma RecentSuffix(es: seq<Epoch>, n: nat, L: int, clock: int, now: int) returns (k: nat)
    requires WellTimed(es, n, L, clock) && clock <= now
    ensures k <= n && SumFrom(SlicesOf(es[|es| - n..]), now - n * L) == Tally(Log(es[|es| - n + k..]))
    ensures forall i :: |es| - n <= i < |es| - n + k ==> es[i].start < now - n * L
    ensures forall i :: |es| - n + k <= i < |es| ==> es[i].start >= now - n * L
  {
    var w := es[|es| - n..];
    forall i, j | 0 <= i <= j < n
      ensures w[i].start <= w[j].start
    {
      StartsAscend(es, n, L, clock, |es| - n + i, |es| - n + j);
    }
    k := SumIsSuffix(w, now - n * L);
    assert w[k..] == es[|es| - n + k..];
    assert forall i :: |es| - n <= i < |es| ==> es[i] == w[i - (|es| - n)];
  }

  // ----- the ring's order -----

  /** The ring read from the slot after the current one, oldest slice first. */
  function Unrolled(ring: seq<Slice>, current: nat): seq<Slice>
    requires current < |ring|
  {
    ring[current + 1..] + ring[..current + 1]
  }

  lemma ReuseOldest(ring: seq<Slice>, current: nat, s: Slice)
    requires current < |ring|
    ensures var next := (current + 1) % |ring|;
            Unrolled(ring[next := s], next) == Unrolled(ring, current)[1..] + [s]
  {
    var next := (current + 1) % |ring|;
    assert next == if current + 1 < |ring| then current + 1 else 0;
  }

  lemma UpdateCurrent(ring: seq<Slice>, current: nat, s: Slice)
    requires current < |ring|
    ensures Unrolled(ring[current := s], current) == Unrolled(ring, current)[|ring| - 1 := s]
    ensures Unrolled(ring, current)[|ring| - 1] == ring[current]
  {
  }

  /** The ring holds the slices of the newest n epochs. */
  ghost predicate HoldsNewest(ring: seq<Slice>, current: nat, es: seq<Epoch>)
    requires current < |ring| <= |es|
  {
    Unrolled(ring, current) == SlicesOf(es[|es| - |ring|..])
  }

  lemma CurrentIsNewest(ring: seq<Slice>, current: nat, es: seq<Epoch>)
    requires current < |ring| <= |es| && HoldsNewest(ring, current, es)
    ensures ring[current] == SliceOf(es[|es| - 1])
  {
    var n := |ring|;
    assert Unrolled(ring, current)[n - 1] == ring[current];
    assert SlicesOf(es[|es| - n..])[n - 1] == SliceOf(es[|es| - 1]);
  }

  lemma ReuseHoldsNewest(ring: seq<Slice>, current: nat, next: nat, es: seq<Epoch>, now: int)
    requires current < |ring| <= |es| && HoldsNewest(ring, current, es) && next == (current + 1) % |ring|
    ensures next < |ring| && HoldsNewest(ring[next := Slice(now, NONE)], next, es + [Epoch(now, [])])
  {
    var n, more := |ring|, es + [Epoch(now, [])];
    ReuseOldest(ring, current, Slice(now, NONE));
    assert more[|more| - n..] == es[|es| - n..][1..] + [Epoch(now, [])];
    assert SlicesOf(more[|more| - n..]) == SlicesOf(es[|es| - n..])[1..] + [Slice(now, NONE)];
  }

  lemma EventHoldsNewest(ring: seq<Slice>, current: nat, es: seq<Epoch>, e: Event)
    requires current < |ring| <= |es| && HoldsNewest(ring, current, es)
    ensures var s := Slice(ring[current].start, Bump(ring[current].counts, e));
            HoldsNewest(ring[current := s], current, WithEvent(es, e))
  {
    var n, r, last := |ring|, WithEvent(es, e), es[|es| - 1];
    var s := Slice(ring[current].start, Bump(ring[current].counts, e));
    CurrentIsNewest(ring, current, es);
    UpdateCurrent(ring, current, s);
    assert (last.events + [e])[..|last.events|] == last.events;
    assert SliceOf(r[|r| - 1]) == s;
    assert SlicesOf(r[|r| - n..]) == SlicesOf(es[|es| - n..])[n - 1 := s];
  }

  /** A new ring: every slot holds an empty slice. */
  ghost function NewEpochs(n: nat, now: int): (es: seq<Epoch>)
    ensures |es| == n && (forall i :: 0 <= i < n ==> es[i] == Epoch(now, [])) && Log(es) == []
  {
    if n == 0 then [] else
      var init := NewEpochs(n - 1, now);
      assert (init + [Epoch(now, [])])[..n - 1] == init;
      init + [Epoch(now, [])]
  }

  lemma NewRing(ring: seq<Slice>, es: seq<Epoch>, now: int)
    requires |es| == |ring| > 0 && forall i :: 0 <= i < |ring| ==>
              ring[i] == Slice(now, NONE) && es[i] == Epoch(now, [])
    ensures HoldsNewest(ring, 0, es)
  {
    assert es[0..] == es;
    assert forall i :: 0 <= i < |ring| ==> SlicesOf(es)[i] == Slice(now, NONE);
  }

  // ----- the ring -----

  class Metrics {
    const slices: array<Slice>
    const sliceSize: int
    const windowSize: int
    var current: nat
    ghost var epochs: seq<Epoch>
    ghost var clock: int

    ghost predicate Valid()
      reads this, slices
    {
      && slices.Length > 0 && windowSize == slices.Length * sliceSize
      && current < slices.Length
      && WellTimed(epochs, slices.Length, sliceSize, clock)
      && HoldsNewest(slices[..], current, epochs)
    }

    constructor (n: nat, sliceSize: int, now: int)
      requires n > 0 && sliceSize > 0
      ensures Valid() && fresh(slices) && slices.Length == n && this.sliceSize == sliceSize
      ensures Log(epochs) == [] && clock == now
    {
      slices := new Slice[n](_ => Slice(now, NONE));
      this.sliceSize, windowSize := sliceSize, n * sliceSize;
      current, clock := 0, now;
      epochs := NewEpochs(n, now);
      new;
      NewRing(slices[..], epochs, now);
    }

    /** The slice that takes events now, after moving on to the next slot if its time is up. */
    method CurrentSlice(now: int) returns (idx: nat)
      requires Valid() && clock <= now
      modifies this, slices
      ensures Valid() && idx == current && clock == now && Log(epochs) == old(Log(epochs))
      ensures epochs[|epochs| - 1].start <= now < epochs[|epochs| - 1].start + sliceSize
    {
      CurrentIsNewest(slices[..], current, epochs);
      idx := current;
      LaterClock(epochs, slices.Length, sliceSize, clock, now);
      if now < slices[idx].start + sliceSize {
        clock := now;
        return;
      }
      Rotate(now);
      idx := current;
    }

    /** Resets the slot after the current one and moves on to it. */
    method Rotate(now: int)
      requires Valid() && clock <= now && epochs[|epochs| - 1].start + sliceSize <= now
      modifies this, slices
      ensures Valid() && clock == now && Log(epochs) == old(Log(epochs)) && epochs[|epochs| - 1].start == now
    {
      AppendEpoch(epochs, slices.Length, sliceSize, clock, now);
      var next := (current + 1) % slices.Length;
      ghost var ring, more := slices[..], epochs + [Epoch(now, [])];
      ReuseHoldsNewest(ring, current, next, epochs, now);
      ghost var reused := ring[next := Slice(now, NONE)];
      assert HoldsNewest(reused, next, more) && more[|more| - 1].start == now;
      slices[next] := Slice(now, NONE);
      assert slices[..] == reused;
      current, clock, epochs := next, now, more;
    }

    /** Counts an event in the current slice. */
    method Count(e: Event)
      requires Valid() && clock <= e.now
      modifies this, slices
      ensures Valid() && clock == e.now && Log(epochs) == old(Log(epochs)) + [e]
    {
      var idx := CurrentSlice(e.now);
      AppendEvent(epochs, slices.Length, sliceSize, clock, e);
      EventHoldsNewest(slices[..], idx, epochs, e);
      var s := Slice(slices[idx].start, Bump(slices[idx].counts, e));
      ghost var bumped := slices[..][idx := s];
      slices[idx] := s;
      assert slices[..] == bumped;
      epochs := WithEvent(epochs, e);
    }

    method Record(elapsed: int, success: bool, now: int)
      requires Valid() && clock <= now
      modifies this, slices
      ensures Valid() && clock == now && Log(epochs) == old(Log(epochs)) + [Query(now, elapsed, success)]
    {
      Count(Query(now, elapsed, success));
    }

    method RecordBlocked(now: int)
      requires Valid() && clock <= now
      modifies this, slices
      ensures Valid() && clock == now && Log(epochs) == old(Log(epochs)) + [Blocked(now)]
    {
      Count(Blocked(now));
    }

    /** Counts every event of the last n - 1 slice lengths, none older than n, none twice. */
    method Aggregate(now: int) returns (out: Counts)
      requires Valid() && clock <= now
      ensures CountsRecent(out, Log(epochs), slices.Length, sliceSize, now)
      ensures SumTo(out.buckets, BUCKET_COUNT) == out.total && out.errors <= out.total
    {
      out := NONE;
      var cutoff := now - windowSize;
      for i := 0 to slices.Length
        invariant out == SumFrom(slices[..i], cutoff)
      {
        assert slices[..i + 1][..i] == slices[..i];
        if slices[i].start < cutoff {
          continue;
        }
        out := Add(out, slices[i].counts);
      }
      assert slices[..slices.Length] == slices[..];
      SumOfRotation(slices[..], current + 1, cutoff);
      RecentSum(epochs, slices.Length, sliceSize, clock, now);
      RecentIsConsistent(out, Log(epochs), slices.Length, sliceSize, now);
    }
  }

  lemma RecentIsConsistent(counts: Counts, log: seq<Event>, n: nat, L: int, now: int)
    requires CountsRecent(counts, log, n, L, now)
    ensures SumTo(counts.buckets, BUCKET_COUNT) == counts.total && counts.errors <= counts.total
  {
    var older, newer :| IsRecentPart(counts, log, n, L, now, older, newer);
    TallyIsConsistent(newer);
  }

}
