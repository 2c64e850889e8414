/** What the metrics count, said of the recorded events themselves: how many are queries,
    failed queries and blocked hits, and how the queries' latencies fall into the buckets.
 */
module QueryCounts {
  import opened Latency
  import opened QueryMetrics

  /** Which of the events are queries, failed queries, and blocked hits. */
  function Queries(events: seq<Event>): set<nat> {
    set i: nat | i < |events| && events[i].Query?
  }

  predicate Failed(e: Event) {
    e.Query? && !e.success
  }

  function Failures(events: seq<Event>): set<nat> {
    set i: nat | i < |events| && Failed(events[i])
  }

  function BlockedHits(events: seq<Event>): set<nat> {
    set i: nat | i < |events| && events[i].Blocked?
  }

  /** How long the queries took, in order. */
  function Latencies(events: seq<Event>): seq<int> {
    if |events| == 0 then []
    else
      var init, last := events[..|events| - 1], events[|events| - 1];
      if last.Query? then Latencies(init) + [last.elapsed] else Latencies(init)
  }

  lemma MoreMembers(all: set<nat>, before: set<nat>, n: nat, member: bool)
    requires all == before + (if member then {n} else {}) && n !in before
    ensures |all| == |before| + if member then 1 else 0
  {
  }

  lemma OneMoreQuery(events: seq<Event>, e: Event)
    ensures |Queries(events + [e])| == |Queries(events)| + if e.Query? then 1 else 0
  {
    assert Queries(events + [e]) == Queries(events) + if e.Query? then {|events|} else {};
    MoreMembers(Queries(events + [e]), Queries(events), |events|, e.Query?);
  }

  lemma OneMoreFailure(events: seq<Event>, e: Event)
    ensures |Failures(events + [e])| == |Failures(events)| + if Failed(e) then 1 else 0
  {
    assert Failures(events + [e]) == Failures(events) + if Failed(e) then {|events|} else {};
    MoreMembers(Failures(events + [e]), Failures(events), |events|, Failed(e));
  }

  lemma OneMoreBlockedHit(events: seq<Event>, e: Event)
    ensures |BlockedHits(events + [e])| == |BlockedHits(events)| + if e.Blocked? then 1 else 0
  {
    assert BlockedHits(events + [e]) == BlockedHits(events) + if e.Blocked? then {|events|} else {};
    MoreMembers(BlockedHits(events + [e]), BlockedHits(events), |events|, e.Blocked?);
  }

  /** The counts are those of the events: the queries, the failed ones, the blocked hits, and
      the queries by the bucket of their latency. */
  ghost predicate CountsOf(c: Counts, events: seq<Event>) {
    && c.total == |Queries(events)| && c.errors == |Failures(events)| && c.blocked == |BlockedHits(events)|
    && c.buckets == Histogram(Latencies(events)) && |Latencies(events)| == |Queries(events)|
  }

  lemma {:induction false} TallyCounts(events: seq<Event>)
    ensures CountsOf(Tally(events), events)
  {
    if |events| > 0 {
      var init, last := events[..|events| - 1], events[|events| - 1];
      TallyCounts(init);
      assert events == init + [last];
      BumpCounts(Tally(init), init, last);
    }
  }

  lemma BumpCounts(c: Counts, events: seq<Event>, e: Event)
    requires CountsOf(c, events)
    ensures CountsOf(Bump(c, e), events + [e])
  {
    OneMoreQuery(events, e);
    OneMoreFailure(events, e);
    OneMoreBlockedHit(events, e);
    assert (events + [e])[..|events|] == events;
    if e.Query? {
      HistogramAppend(Latencies(events), e.elapsed);
    }
  }

  lemma HistogramAppend(ds: seq<int>, d: int)
    ensures var b := BucketForLatency(d); Histogram(ds + [d]) == Histogram(ds)[b := Histogram(ds)[b] + 1]
  {
    assert (ds + [d])[..|ds|] == ds;
  }

  /** Main result: what an aggregate counts is a final part of the recorded events that holds
      every one of the last n - 1 slice lengths and none older than n. */
  lemma AggregateCounts(counts: Counts, log: seq<Event>, n: nat, L: int, now: int)
    requires CountsRecent(counts, log, n, L, now)
    ensures exists k :: 0 <= k <= |log| && CountsOf(counts, log[k..])
                     && AllBefore(log[..k], now - (n - 1) * L) && NoneBefore(log[k..], now - n * L)
  {
    var older, newer :| IsRecentPart(counts, log, n, L, now, older, newer);
    TallyCounts(newer);
    assert log[..|older|] == older && log[|older|..] == newer;
  }

  /** The estimate on such counts brackets the true quantile of the queries counted. */
  lemma EstimateOnCounts(counts: Counts, events: seq<Event>, p: real, estimate: int, d: int)
    requires CountsOf(counts, events) && Queries(events) != {}
    requires 0.0 <= p <= 1.0 && Estimates(counts.buckets, p, estimate)
    requires IsKthSmallest(Latencies(events), Rank(|Queries(events)|, p), d)
    ensures estimate == BucketUpperBound(BucketForLatency(d))
    ensures d < 500 * MS ==>
              d < estimate && (BucketForLatency(d) > 0 ==> BucketUpperBound(BucketForLatency(d) - 1) <= d)
  {
    EstimateBoundsQuantile(Latencies(events), p, estimate, d);
  }
}
