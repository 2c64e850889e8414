/** The infected-device alerter: per client, the times of recent blocked hits, compacted in
    place at every hit and cleared when an alert fires. The specification speaks of all the
    hits of a client, none forgotten. Times are nanoseconds.
 */
module Alerter {
  import opened Options

  const DEFAULT_WINDOW: int := 600_000_000_000

  // ----- the meaning of a client's hits -----

  /** The hits strictly newer than a cutoff, in order. */
  function Newer(hits: seq<int>, cutoff: int): seq<int> {
    if |hits| == 0 then []
    else
      var init, last := hits[..|hits| - 1], hits[|hits| - 1];
      if last > cutoff then Newer(init, cutoff) + [last] else Newer(init, cutoff)
  }

  /** What the alerter keeps of a client after its hits at the given times. */
  function Kept(threshold: int, window: int, times: seq<int>): seq<int>
    decreases |times|, 2
  {
    if |times| == 0 then []
    else if Fires(threshold, window, times) then []
    else Window(threshold, window, times)
  }

  /** The hits counted at the last hit, that one included. */
  function Window(threshold: int, window: int, times: seq<int>): seq<int>
    requires |times| > 0
    decreases |times|, 0
  {
    var now := times[|times| - 1];
    Newer(Kept(threshold, window, times[..|times| - 1]), now - window) + [now]
  }

  /** Whether the last hit fires an alert. */
  predicate Fires(threshold: int, window: int, times: seq<int>)
    requires |times| > 0
    decreases |times|, 1
  {
    |Window(threshold, window, times)| >= threshold
  }

  /** The hits since the last alert, old ones included. */
  function SinceAlert(threshold: int, window: int, times: seq<int>): seq<int> {
    if |times| == 0 || Fires(threshold, window, times) then []
    else SinceAlert(threshold, window, times[..|times| - 1]) + [times[|times| - 1]]
  }

  function Alerts(threshold: int, window: int, times: seq<int>): nat {
    if |times| == 0 then 0
    else Alerts(threshold, window, times[..|times| - 1]) + if Fires(threshold, window, times) then 1 else 0
  }

  ghost predicate Chronological(times: seq<int>) {
    forall i, j :: 0 <= i < j < |times| ==> times[i] <= times[j]
  }

  lemma {:induction false} NewerAgain(hits: seq<int>, early: int, late: int)
    requires early <= late
    ensures Newer(Newer(hits, early), late) == Newer(hits, late)
  {
    if |hits| > 0 {
      var init, last := hits[..|hits| - 1], hits[|hits| - 1];
      NewerAgain(init, early, late);
      if last > early {
        assert (Newer(init, early) + [last])[..|Newer(init, early)|] == Newer(init, early);
      }
    }
  }

  lemma NewerOfAppend(hits: seq<int>, t: int, cutoff: int)
    ensures Newer(hits + [t], cutoff) == Newer(hits, cutoff) + if t > cutoff then [t] else []
  {
    assert (hits + [t])[..|hits|] == hits;
  }

  /** What compaction forgot no later window would have shown. */
  lemma {:induction false} CompactionLosesNothing(threshold: int, window: int, times: seq<int>, cutoff: int)
    requires Chronological(times) && window > 0
    requires |times| > 0 ==> cutoff >= times[|times| - 1] - window
    ensures Newer(Kept(threshold, window, times), cutoff) == Newer(SinceAlert(threshold, window, times), cutoff)
  {
    if |times| > 0 && !Fires(threshold, window, times) {
      var init, now := times[..|times| - 1], times[|times| - 1];
      CompactionLosesNothing(threshold, window, init, cutoff);
      NewerAgain(Kept(threshold, window, init), now - window, cutoff);
      NewerOfAppend(Newer(Kept(threshold, window, init), now - window), now, cutoff);
      NewerOfAppend(SinceAlert(threshold, window, init), now, cutoff);
    }
  }

  /** Main result: a hit fires exactly when it and the hits since the last alert that are newer
      than now - window reach the threshold; those are the hits the window holds. */
  lemma FiresExactly(threshold: int, window: int, times: seq<int>)
    requires |times| > 0 && Chronological(times) && window > 0
    ensures var before, now := times[..|times| - 1], times[|times| - 1];
            var recent := Newer(SinceAlert(threshold, window, before), now - window);
            && Window(threshold, window, times) == recent + [now]
            && (Fires(threshold, window, times) <==> |recent| + 1 >= threshold)
  {
    var before, now := times[..|times| - 1], times[|times| - 1];
    BeforeIsChronological(times);
    CompactionLosesNothing(threshold, window, before, now - window);
    WindowHolds(threshold, window, times, Newer(SinceAlert(threshold, window, before), now - window));
  }

  lemma BeforeIsChronological(times: seq<int>)
    requires |times| > 0 && Chronological(times)
    ensures var before := times[..|times| - 1];
            Chronological(before) && (|before| > 0 ==> before[|before| - 1] <= times[|times| - 1])
  {
  }

  lemma WindowHolds(threshold: int, window: int, times: seq<int>, recent: seq<int>)
    requires |times| > 0
    requires recent == Newer(Kept(threshold, window, times[..|times| - 1]), times[|times| - 1] - window)
    ensures Window(threshold, window, times) == recent + [times[|times| - 1]]
    ensures Fires(threshold, window, times) <==> |recent| + 1 >= threshold
  {
  }

  /** The k-th hit fired the last alert; k is 0 before the first one. */
  ghost predicate LastAlertAt(threshold: int, window: int, times: seq<int>, k: nat) {
    && k <= |times| && (k > 0 ==> Fires(threshold, window, times[..k]))
    && forall m :: k < m <= |times| ==> !Fires(threshold, window, times[..m])
  }

  lemma {:induction false} SinceAlertIsSuffix(threshold: int, window: int, times: seq<int>, k: nat)
    requires LastAlertAt(threshold, window, times, k)
    ensures SinceAlert(threshold, window, times) == times[k..]
    decreases |times|
  {
    assert times[..|times|] == times;
    if k < |times| {
      var init := times[..|times| - 1];
      assert forall m :: 0 <= m <= |init| ==> init[..m] == times[..m];
      SinceAlertIsSuffix(threshold, window, init, k);
      assert times[k..] == init[k..] + [times[|times| - 1]];
    }
  }

  /** The indices from k on of the times newer than a cutoff. */
  ghost function NewerFrom(times: seq<int>, k: nat, cutoff: int): set<nat> {
    set i: nat | k <= i < |times| && times[i] > cutoff
  }

  lemma {:induction false} NewerCounts(times: seq<int>, k: nat, cutoff: int)
    requires k <= |times|
    ensures |Newer(times[k..], cutoff)| == |NewerFrom(times, k, cutoff)|
    decreases |times|
  {
    if k == |times| {
      assert NewerFrom(times, k, cutoff) == {};
    } else {
      var init, last := times[..|times| - 1], |times| - 1;
      NewerCounts(init, k, cutoff);
      assert times[k..] == init[k..] + [times[last]];
      NewerOfAppend(init[k..], times[last], cutoff);
      NewerFromGrows(times, k, cutoff);
    }
  }

  lemma NewerFromGrows(times: seq<int>, k: nat, cutoff: int)
    requires k < |times|
    ensures var last := |times| - 1;
            |NewerFrom(times, k, cutoff)| ==
            |NewerFrom(times[..last], k, cutoff)| + if times[last] > cutoff then 1 else 0
  {
    var last := |times| - 1;
    assert last !in NewerFrom(times[..last], k, cutoff);
    assert NewerFrom(times, k, cutoff) ==
        NewerFrom(times[..last], k, cutoff) + if times[last] > cutoff then {last} else {};
  }

  /** Main result, by counting: a hit fires exactly when at least threshold of the hits after
      the one that fired the last alert are newer than now - window, itself included. */
  lemma FiresByCount(threshold: int, window: int, times: seq<int>, k: nat)
    requires |times| > 0 && Chronological(times) && window > 0
    requires LastAlertAt(threshold, window, times[..|times| - 1], k)
    ensures var now := times[|times| - 1];
            Fires(threshold, window, times) <==>
            |set i: nat | k <= i < |times| && times[i] > now - window| >= threshold
  {
    RecentByCount(threshold, window, times, k);
    var cutoff := times[|times| - 1] - window;
    assert NewerFrom(times, k, cutoff) == set i: nat | k <= i < |times| && times[i] > cutoff;
  }

  lemma SinceAlertCounts(threshold: int, window: int, times: seq<int>, k: nat, cutoff: int)
    requires LastAlertAt(threshold, window, times, k)
    ensures |Newer(SinceAlert(threshold, window, times), cutoff)| == |NewerFrom(times, k, cutoff)|
  {
    SinceAlertIsSuffix(threshold, window, times, k);
    NewerCounts(times, k, cutoff);
  }

  lemma RecentByCount(threshold: int, window: int, times: seq<int>, k: nat)
    requires |times| > 0 && Chronological(times) && window > 0
    requires LastAlertAt(threshold, window, times[..|times| - 1], k)
    ensures Fires(threshold, window, times) <==> |NewerFrom(times, k, times[|times| - 1] - window)| >= threshold
  {
    var before, cutoff := times[..|times| - 1], times[|times| - 1] - window;
    FiresExactly(threshold, window, times);
    SinceAlertCounts(threshold, window, before, k, cutoff);
    NewerFromGrows(times, k, cutoff);
    assert times[|times| - 1] > cutoff;
  }

  lemma {:induction false} NewerIsShorter(hits: seq<int>, cutoff: int)
    ensures |Newer(hits, cutoff)| <= |hits|
  {
    if |hits| > 0 {
      NewerIsShorter(hits[..|hits| - 1], cutoff);
    }
  }

  lemma {:induction false} KeptBelowThreshold(threshold: int, window: int, times: seq<int>)
    requires threshold > 0
    ensures |Kept(threshold, window, times)| < threshold
  {
  }

  /** An alert never counts more hits than the threshold. */
  lemma HitsEqualThreshold(threshold: int, window: int, times: seq<int>)
    requires threshold > 0 && |times| > 0 && Fires(threshold, window, times)
    ensures |Window(threshold, window, times)| == threshold
  {
    var init, now := times[..|times| - 1], times[|times| - 1];
    var kept := Kept(threshold, window, init);
    assert |kept| < threshold by {
      KeptBelowThreshold(threshold, window, init);
    }
    NewerIsShorter(kept, now - window);
    assert |Window(threshold, window, times)| == |Newer(kept, now - window)| + 1;
  }

  /** Alerts are paid for: each one uses up threshold hits of its own. */
  lemma {:induction false} AlertsArePaidFor(threshold: int, window: int, times: seq<int>)
    requires threshold > 0
    ensures Alerts(threshold, window, times) * threshold + |Kept(threshold, window, times)| <= |times|
  {
    if |times| > 0 {
      var init := times[..|times| - 1];
      AlertsArePaidFor(threshold, window, init);
      NewerIsShorter(Kept(threshold, window, init), times[|times| - 1] - window);
      if Fires(threshold, window, times) {
        HitsEqualThreshold(threshold, window, times);
        assert (Alerts(threshold, window, init) + 1) * threshold ==
            Alerts(threshold, window, init) * threshold + threshold;
      }
    }
  }

  lemma {:induction false} NewerOfChronological(hits: seq<int>, cutoff: int, bound: int)
    requires Chronological(hits) && forall i :: 0 <= i < |hits| ==> hits[i] <= bound
    ensures Chronological(Newer(hits, cutoff))
    ensures forall i :: 0 <= i < |Newer(hits, cutoff)| ==> cutoff < Newer(hits, cutoff)[i] <= bound
  {
    if |hits| > 0 {
      NewerOfChronological(hits[..|hits| - 1], cutoff, hits[|hits| - 1]);
    }
  }

  lemma {:induction false} KeptIsChronological(threshold: int, window: int, times: seq<int>, bound: int)
    requires Chronological(times) && forall i :: 0 <= i < |times| ==> times[i] <= bound
    ensures Chronological(Kept(threshold, window, times))
    ensures forall i :: 0 <= i < |Kept(threshold, window, times)| ==> Kept(threshold, window, times)[i] <= bound
  {
    if |times| > 0 {
      var init, now := times[..|times| - 1], times[|times| - 1];
      KeptIsChronological(threshold, window, init, now);
      NewerOfChronological(Kept(threshold, window, init), now - window, now);
    }
  }

  /** The first hit of the window is the oldest hit in it. */
  lemma FirstHitIsOldest(threshold: int, window: int, times: seq<int>)
    requires |times| > 0 && Chronological(times)
    ensures forall i :: 0 <= i < |Window(threshold, window, times)| ==>
              Window(threshold, window, times)[0] <= Window(threshold, window, times)[i]
  {
    var init, now := times[..|times| - 1], times[|times| - 1];
    KeptIsChronological(threshold, window, init, now);
    NewerOfChronological(Kept(threshold, window, init), now - window, now);
  }

  /** One more hit, in terms of what was kept. */
  lemma OneMoreHit(threshold: int, window: int, times: seq<int>, now: int)
    ensures var w := Newer(Kept(threshold, window, times), now - window) + [now];
            && Window(threshold, window, times + [now]) == w
            && (Fires(threshold, window, times + [now]) <==> |w| >= threshold)
            && Kept(threshold, window, times + [now]) == if |w| >= threshold then [] else w
  {
    assert (times + [now])[..|times|] == times;
  }

  /** hits are what is kept of a client's whole history; no hit is later than clock. */
  ghost predicate KeptOf(threshold: int, window: int, times: seq<int>, hits: seq<int>, clock: int) {
    && hits == Kept(threshold, window, times)
    && Chronological(times) && (|times| > 0 ==> times[|times| - 1] <= clock)
  }

  /** What one more hit makes of a client whose hits so far are times, of which hits are kept. */
  lemma HitIsCounted(threshold: int, window: int, times: seq<int>, hits: seq<int>, clock: int, now: int,
                     w: seq<int>)
    requires KeptOf(threshold, window, times, hits, clock) && clock <= now
    requires w == Newer(hits, now - window) + [now]
    ensures var all := times + [now];
            && KeptOf(threshold, window, all, if |w| >= threshold then [] else w, now)
            && Window(threshold, window, all) == w && (Fires(threshold, window, all) <==> |w| >= threshold)
  {
    OneMoreHit(threshold, window, times, now);
    AppendChronological(times, now);
  }

  lemma AppendChronological(times: seq<int>, now: int)
    requires Chronological(times) && (|times| > 0 ==> times[|times| - 1] <= now)
    ensures Chronological(times + [now])
  {
  }

  // ----- one client's counter -----

  class ClientCounter {
    var buf: array<int>
    var len: nat
    ghost var times: seq<int>          // every hit of the client

    ghost predicate Valid()
      reads this
    {
      len <= buf.Length
    }

    ghost function Hits(): seq<int>
      requires Valid()
      reads this, buf
    {
      buf[..len]
    }

    constructor ()
      ensures Valid() && Hits() == [] && times == [] && fresh(buf)
    {
      buf := new int[0];
      len, times := 0, [];
    }

    /** Compacts in place: the kept hits move to the front of the same buffer, in order. */
    method DropOlder(cutoff: int)
      requires Valid()
      modifies this`len, buf
      ensures Valid() && buf == old(buf)
      ensures Hits() == Newer(old(Hits()), cutoff)
    {
      ghost var hits := Hits();
      var kept := 0;
      for i := 0 to len
        invariant kept <= i && len == |hits|
        invariant buf[..kept] == Newer(hits[..i], cutoff)
        invariant buf[i..len] == hits[i..]
      {
        assert hits[..i + 1][..i] == hits[..i];
        assert buf[i] == buf[i..len][0] == hits[i];
        if buf[i] > cutoff {
          buf[kept] := buf[i];
          kept := kept + 1;
          assert buf[..kept] == buf[..kept - 1] + [buf[kept - 1]];
        }
        assert buf[i + 1..len] == hits[i + 1..];
      }
      assert hits[..|hits|] == hits;
      len := kept;
    }

    /** Appends, into the spare room of the buffer or into a larger one. */
    method Append(t: int)
      requires Valid()
      modifies this`buf, this`len, buf
      ensures Valid() && (buf == old(buf) || fresh(buf))
      ensures Hits() == old(Hits()) + [t]
    {
      if len == buf.Length {
        var was := buf;
        buf := new int[2 * len + 1](_ => 0);
        for i := 0 to len
          invariant len == old(len) && fresh(buf) && buf.Length == 2 * len + 1 && was == old(buf)
          invariant was[..] == old(buf[..])
          invariant buf[..i] == was[..i]
        {
          buf[i] := was[i];
          assert buf[..i + 1] == buf[..i] + [was[i]];
        }
      }
      buf[len] := t;
      len := len + 1;
    }

    /** The hits in the buffer are the kept ones. */
    ghost predicate Sound(threshold: int, window: int, clock: int)
      reads this, buf
    {
      Valid() && KeptOf(threshold, window, times, Hits(), clock)
    }

    /** One blocked hit: compact, append, and clear when the threshold is reached. */
    method RecordHit(now: int, threshold: int, window: int, ghost clock: int)
      returns (fired: bool, count: nat, first: int)
      requires Sound(threshold, window, clock) && clock <= now
      modifies this, buf
      ensures Sound(threshold, window, now) && times == old(times) + [now] && (buf == old(buf) || fresh(buf))
      ensures fired <==> Fires(threshold, window, times)
      ensures count == |Window(threshold, window, times)| && first == Window(threshold, window, times)[0]
      ensures fired && threshold > 0 ==> count == threshold
    {
      ghost var hits := Hits();
      ghost var w;
      fired, count, first, w := CountHit(now, now - window, threshold);
      HitIsCounted(threshold, window, times, hits, clock, now, w);
      times := times + [now];
      if fired && threshold > 0 {
        HitsEqualThreshold(threshold, window, times);
      }
      assert Hits() == if fired then [] else w;
    }

    method CountHit(now: int, cutoff: int, threshold: int)
      returns (fired: bool, count: nat, first: int, ghost w: seq<int>)
      requires Valid()
      modifies this`buf, this`len, buf
      ensures Valid() && (buf == old(buf) || fresh(buf))
      ensures w == Newer(old(Hits()), cutoff) + [now]
      ensures (fired <==> |w| >= threshold) && Hits() == (if fired then [] else w)
      ensures count == |w| && first == w[0]
    {
      DropOlder(cutoff);
      Append(now);
      w := Hits();
      assert Hits()[0] == buf[0];
      fired, count, first := len >= threshold, len, buf[0];
      if fired {
        Reset();
      }
    }

    method Reset()
      modifies this`len
      ensures Valid() && Hits() == []
    {
      len := 0;
    }
  }

  // ----- all clients -----

  datatype DeviceInfo = DeviceInfo(ip: string, mac: string, hostname: string)

  datatype Alert = Alert(device: DeviceInfo, hits: nat, threshold: int, firstHit: int, firedAt: int, domain: string)

  /** The device behind a client, by the inventory if it knows it. */
  function Resolve(lookup: string -> Option<DeviceInfo>, clientIp: string): DeviceInfo {
    var d := lookup(clientIp);
    if d.None? then DeviceInfo(clientIp, "", "")
    else if d.value.ip == "" then d.value.(ip := clientIp)
    else d.value
  }

  /** An unknown client is a device of its address alone; of a known one only a missing address
      is filled in. */
  lemma ResolveNamesClient(lookup: string -> Option<DeviceInfo>, clientIp: string)
    ensures var known, r := lookup(clientIp), Resolve(lookup, clientIp);
            && (known.None? ==> r.ip == clientIp && r.mac == "" && r.hostname == "")
            && (known.Some? ==> r.mac == known.value.mac && r.hostname == known.value.hostname)
            && (known.Some? ==> r.ip == if known.value.ip != "" then known.value.ip else clientIp)
  {
  }

  class Alerter {
    const threshold: int
    const window: int
    const lookup: string -> Option<DeviceInfo>
    var counters: map<string, ClientCounter>
    var suspected: map<string, Alert>
    ghost var clock: int

    /** Two clients share neither counter nor buffer. */
    ghost predicate Apart(a: string, b: string)
      reads this, counters.Values
    {
      a in counters && b in counters && a != b ==>
        counters[a] != counters[b] && counters[a].buf != counters[b].buf
    }

    ghost predicate CounterSound(k: string)
      reads this, counters.Values, set c | c in counters.Values :: c.buf
    {
      k in counters ==> counters[k].Sound(threshold, window, clock)
    }

    ghost predicate Valid()
      reads this, counters.Values, set c | c in counters.Values :: c.buf
    {
      window > 0 && (forall k :: CounterSound(k)) && (forall a, b :: Apart(a, b))
    }

    /** Every blocked hit of a client so far. */
    ghost function TimesOf(k: string): seq<int>
      reads this, counters.Values
    {
      if k in counters then counters[k].times else []
    }

    constructor (threshold: int, window: int, lookup: string -> Option<DeviceInfo>)
      ensures Valid() && counters == map[] && suspected == map[] && this.threshold == threshold
      ensures this.window == if window <= 0 then DEFAULT_WINDOW else window
    {
      this.threshold, this.lookup := threshold, lookup;
      this.window := if window <= 0 then DEFAULT_WINDOW else window;
      counters, suspected, clock := map[], map[], 0;
    }

    /** The counter of a client, made on its first hit. */
    method CounterFor(clientIp: string) returns (c: ClientCounter)
      requires Valid()
      modifies this`counters
      ensures Valid() && clientIp in counters && counters[clientIp] == c
      ensures forall k :: TimesOf(k) == old(TimesOf(k))
      ensures forall k :: k in counters ==>
                (k in old(counters) && counters[k] == old(counters)[k])
                    || (fresh(counters[k]) && fresh(counters[k].buf))
    {
      if clientIp in counters {
        return counters[clientIp];
      }
      c := new ClientCounter();
      counters := counters[clientIp := c];
      forall k
        ensures CounterSound(k)
      {
        assert old(CounterSound(k));
      }
      forall a, b
        ensures Apart(a, b)
      {
        assert old(Apart(a, b));
      }
    }

    /** Counts a hit of a client that has a counter; the other counters are apart from it. */
    method Hit(clientIp: string, now: int) returns (fired: bool, count: nat, first: int)
      requires Valid() && clientIp in counters && clock <= now
      modifies this`clock, counters[clientIp], counters[clientIp].buf
      ensures Valid() && clock == now
      ensures TimesOf(clientIp) == old(TimesOf(clientIp)) + [now]
      ensures forall k :: k != clientIp ==> TimesOf(k) == old(TimesOf(k))
      ensures fired <==> Fires(threshold, window, TimesOf(clientIp))
      ensures count == |Window(threshold, window, TimesOf(clientIp))|
      ensures first == Window(threshold, window, TimesOf(clientIp))[0]
      ensures fired && threshold > 0 ==> count == threshold
    {
      assert CounterSound(clientIp);
      fired, count, first := counters[clientIp].RecordHit(now, threshold, window, clock);
      clock := now;
      assert TimesOf(clientIp) == counters[clientIp].times;
      forall k
        ensures CounterSound(k) && (k != clientIp ==> TimesOf(k) == old(TimesOf(k)))
      {
        if k in counters && k != clientIp {
          assert old(CounterSound(k)) && old(Apart(k, clientIp));
          assert counters[k].Sound(threshold, window, old(clock));
        }
      }
      forall a, b
        ensures Apart(a, b)
      {
        assert old(Apart(a, b));
      }
    }

    /** Fires exactly when the client's hits say so; then the alert counts threshold hits, and
        names the oldest of them. */
    method RecordBlocked(clientIp: string, domain: string, now: int) returns (alert: Option<Alert>)
      requires Valid() && clock <= now
      modifies this, counters.Values, set c | c in counters.Values :: c.buf
      ensures Valid()
      ensures threshold <= 0 || clientIp == "" ==>
                alert == None && suspected == old(suspected) && TimesOf(clientIp) == old(TimesOf(clientIp))
      ensures threshold > 0 && clientIp != "" ==>
                && TimesOf(clientIp) == old(TimesOf(clientIp)) + [now] && clock == now
                && (alert.Some? <==> Fires(threshold, window, TimesOf(clientIp)))
      ensures forall k :: k != clientIp ==> TimesOf(k) == old(TimesOf(k))
      ensures alert.Some? ==>
                alert.value == Alert(Resolve(lookup, clientIp), threshold, threshold,
                                     Window(threshold, window, TimesOf(clientIp))[0], now, domain)
      ensures suspected == if alert.Some? then old(suspected)[clientIp := alert.value] else old(suspected)
    {
      if threshold <= 0 || clientIp == "" {
        return None;
      }
      var c := CounterFor(clientIp);
      var fired, count, first := Hit(clientIp, now);
      if !fired {
        return None;
      }
      var a := Alert(Resolve(lookup, clientIp), count, threshold, first, now, domain);
      Suspect(clientIp, a);
      return Some(a);
    }

    method Suspect(clientIp: string, a: Alert)
      requires Valid()
      modifies this`suspected
      ensures Valid() && suspected == old(suspected)[clientIp := a]
      ensures forall k :: TimesOf(k) == old(TimesOf(k))
    {
      suspected := suspected[clientIp := a];
      forall k
        ensures CounterSound(k)
      {
        assert old(CounterSound(k));
      }
      forall a, b
        ensures Apart(a, b)
      {
        assert old(Apart(a, b));
      }
    }
  }
}
