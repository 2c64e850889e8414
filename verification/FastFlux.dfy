/** The fast-flux tracker: per domain, the answer addresses seen within a sliding window.
    It forgets addresses that have left the window and, when full, the domain seen longest
    ago. A ghost history keeps everything observed of a domain since it was last evicted;
    the contract of `Observe` answers from that history.
 */
module FastFlux {
  import opened Options

  type U32 = n: nat | n < 0x1_0000_0000

  const MINUTE: int := 60_000_000_000

  datatype IpRecord = IpRecord(lastSeen: int, ttl: U32)
  datatype DomainEntry = DomainEntry(ips: map<string, IpRecord>, lastSeen: int)

  /** One call: when, the answer addresses, their minimum TTL. */
  datatype Observation = Observation(now: int, ips: set<string>, ttl: U32)

  type History = seq<Observation>

  /** m with the record rec for each of the addresses. */
  function Record(m: map<string, IpRecord>, ips: set<string>, rec: IpRecord): map<string, IpRecord> {
    m + map ip | ip in ips :: rec
  }

  /** The latest sighting of every address ever observed. */
  function Latest(h: History): map<string, IpRecord> {
    if |h| == 0 then map[]
    else
      var o := h[|h| - 1];
      Record(Latest(h[..|h| - 1]), o.ips, IpRecord(o.now, o.ttl))
  }

  /** The addresses whose latest sighting lies within the window. */
  ghost function Recent(h: History, cutoff: int): set<string> {
    set ip | ip in Latest(h) && Latest(h)[ip].lastSeen >= cutoff
  }

  /** Enough distinct recent addresses, and the smallest of their TTLs is low. */
  ghost predicate LooksFastFlux(h: History, cutoff: int, ipThreshold: nat, ttlMax: nat) {
    && |Recent(h, cutoff)| >= ipThreshold
    && exists ip :: ip in Recent(h, cutoff) && Latest(h)[ip].ttl <= ttlMax
  }

  predicate IsLastSighting(h: History, ip: string, i: nat) {
    i < |h| && ip in h[i].ips && forall j :: i < j < |h| ==> ip !in h[j].ips
  }

  lemma {:induction false} LatestAreObserved(h: History, ip: string)
    ensures ip in Latest(h) <==> exists i :: 0 <= i < |h| && ip in h[i].ips
  {
    if |h| > 0 {
      LatestAreObserved(h[..|h| - 1], ip);
      assert forall i :: 0 <= i < |h| - 1 ==> h[..|h| - 1][i] == h[i];
    }
  }

  /** Every address that was observed has the time and TTL it was last observed with. */
  lemma {:induction false} LatestIsLastSighting(h: History, ip: string, i: nat)
    requires IsLastSighting(h, ip, i)
    ensures ip in Latest(h) && Latest(h)[ip] == IpRecord(h[i].now, h[i].ttl)
  {
    if i < |h| - 1 {
      LatestIsLastSighting(h[..|h| - 1], ip, i);
    }
  }

  lemma LastSighting(h: History, ip: string, from: nat) returns (i: nat)
    requires from < |h| && ip in h[from].ips
    ensures from <= i && IsLastSighting(h, ip, i)
  {
    i := from;
    for k := from + 1 to |h|
      invariant from <= i < k && ip in h[i].ips && forall j :: i < j < k ==> ip !in h[j].ips
    {
      if ip in h[k].ips {
        i := k;
      }
    }
  }

  /** The recent addresses are those of the observations from the cutoff on. */
  lemma RecentAreObservedSince(h: History, clock: int, cutoff: int, ip: string)
    requires Chronological(h, clock)
    ensures ip in Recent(h, cutoff) <==> exists i :: 0 <= i < |h| && ip in h[i].ips && h[i].now >= cutoff
  {
    LatestAreObserved(h, ip);
    if ip in Latest(h) {
      var from :| 0 <= from < |h| && ip in h[from].ips;
      var last := LastSighting(h, ip, from);
      LatestIsLastSighting(h, ip, last);
      forall i | 0 <= i < |h| && ip in h[i].ips
        ensures h[i].now <= h[last].now
      {
      }
    }
  }

  lemma {:induction false} PresentAreGiven(ips: seq<Option<string>>, ip: string)
    ensures ip in Present(ips) <==> Some(ip) in ips
  {
    if |ips| > 0 {
      PresentAreGiven(ips[..|ips| - 1], ip);
      assert ips == ips[..|ips| - 1] + [ips[|ips| - 1]];
    }
  }

  /** The observations of one domain come in order of time, none after `clock`. */
  ghost predicate Chronological(h: History, clock: int) {
    && (forall i, j :: 0 <= i < j < |h| ==> h[i].now <= h[j].now)
    && (forall i :: 0 <= i < |h| ==> h[i].now <= clock)
  }

  function Pruned(ips: map<string, IpRecord>, cutoff: int): map<string, IpRecord> {
    map ip | ip in ips && ips[ip].lastSeen >= cutoff :: ips[ip]
  }

  /** The records a tracker keeps that prunes at every observation. */
  function Replay(h: History, window: int): map<string, IpRecord> {
    if |h| == 0 then map[]
    else
      var o := h[|h| - 1];
      Pruned(Record(Replay(h[..|h| - 1], window), o.ips, IpRecord(o.now, o.ttl)), o.now - window)
  }

  /** Main lemma: with a nondecreasing clock, pruning along the way loses nothing: at any
      later cutoff the kept records show an address just when the full history does. */
  lemma {:induction false} PruningLosesNothing(h: History, window: int, clock: int, cutoff: int, ip: string)
    requires Chronological(h, clock) && cutoff >= clock - window
    ensures ip in Replay(h, window) ==> ip in Latest(h) && Latest(h)[ip] == Replay(h, window)[ip]
    ensures ip in Latest(h) && Latest(h)[ip].lastSeen >= cutoff ==> ip in Replay(h, window)
  {
    if |h| > 0 {
      PruningLosesNothing(h[..|h| - 1], window, h[|h| - 1].now, cutoff, ip);
    }
  }

  /** Right after an observation the kept addresses are the recent ones of the full history. */
  lemma KeptAreRecent(h: History, window: int)
    requires |h| > 0 && Chronological(h, h[|h| - 1].now)
    ensures Replay(h, window).Keys == Recent(h, h[|h| - 1].now - window)
    ensures forall ip :: ip in Replay(h, window) ==> Replay(h, window)[ip] == Latest(h)[ip]
  {
    var now := h[|h| - 1].now;
    forall ip
      ensures ip in Replay(h, window) <==> ip in Recent(h, now - window)
      ensures ip in Replay(h, window) ==> Replay(h, window)[ip] == Latest(h)[ip]
    {
      PruningLosesNothing(h, window, now, now - window, ip);
    }
  }

  method Prune(ips: map<string, IpRecord>, cutoff: int) returns (kept: map<string, IpRecord>, minTtl: U32)
    ensures kept == Pruned(ips, cutoff)
    ensures IsMinTtl(kept, minTtl)
  {
    kept, minTtl := ips, 0xFFFF_FFFF;
    var todo := ips.Keys;
    ghost var lowest: Option<string> := None;
    while todo != {}
      invariant todo <= ips.Keys
      invariant forall ip :: ip in kept <==> ip in ips && (ip in todo || ips[ip].lastSeen >= cutoff)
      invariant forall ip :: ip in kept ==> kept[ip] == ips[ip]
      invariant forall ip :: ip in kept && ip !in todo ==> minTtl <= kept[ip].ttl
      invariant lowest == None ==> minTtl == 0xFFFF_FFFF
      invariant lowest.Some? ==> lowest.value in kept && lowest.value !in todo && kept[lowest.value].ttl == minTtl
      decreases |todo|
    {
      var k :| k in todo;
      todo := todo - {k};
      if ips[k].lastSeen < cutoff {
        kept := kept - {k};
      } else if ips[k].ttl < minTtl {
        minTtl, lowest := ips[k].ttl, Some(k);
      }
    }
    if lowest == None && kept != map[] {
      var ip :| ip in kept;
      assert kept[ip].ttl == minTtl;
    }
  }

  function IpsOf(domains: map<string, DomainEntry>, d: string): map<string, IpRecord> {
    if d in domains then domains[d].ips else map[]
  }

  function HistoryOf(history: map<string, History>, d: string): History {
    if d in history then history[d] else []
  }

  /** The addresses of an answer that are present. */
  function Present(ips: seq<Option<string>>): set<string> {
    if |ips| == 0 then {}
    else
      var last := ips[|ips| - 1];
      Present(ips[..|ips| - 1]) + if last.Some? then {last.value} else {}
  }

  lemma RecordOneMore(m: map<string, IpRecord>, ips: set<string>, ip: string, rec: IpRecord)
    ensures Record(m, ips + {ip}, rec) == Record(m, ips, rec)[ip := rec]
  {
  }

  method AddAnswers(was: map<string, IpRecord>, ips: seq<Option<string>>, rec: IpRecord)
    returns (seen: map<string, IpRecord>)
    ensures seen == Record(was, Present(ips), rec)
  {
    seen := was;
    assert Record(was, {}, rec) == was;
    for k := 0 to |ips|
      invariant seen == Record(was, Present(ips[..k]), rec)
    {
      assert ips[..k + 1][..k] == ips[..k];
      if ips[k].Some? {
        RecordOneMore(was, Present(ips[..k]), ips[k].value, rec);
        seen := seen[ips[k].value := rec];
      } else {
        assert Present(ips[..k + 1]) == Present(ips[..k]);
      }
    }
    assert ips[..|ips|] == ips;
  }

  ghost predicate IsMinTtl(kept: map<string, IpRecord>, minTtl: U32) {
    && (forall ip :: ip in kept ==> minTtl <= kept[ip].ttl)
    && (kept != map[] ==> exists ip :: ip in kept && kept[ip].ttl == minTtl)
  }

  /** Enough records with a low minimum TTL is what the history says of its recent part. */
  lemma JudgeRecords(h: History, now: int, window: int, ipThreshold: nat, ttlMax: U32, minTtl: U32)
    requires |h| > 0 && h[|h| - 1].now == now && Chronological(h, now)
    requires ipThreshold > 0 && IsMinTtl(Replay(h, window), minTtl)
    ensures LooksFastFlux(h, now - window, ipThreshold, ttlMax) <==>
            |Replay(h, window)| > 0 && |Replay(h, window)| >= ipThreshold && minTtl <= ttlMax
  {
    var kept := Replay(h, window);
    KeptAreRecent(h, window);
    assert |kept| == |kept.Keys|;
  }

  lemma AppendObservation(h: History, o: Observation, window: int)
    requires Chronological(h, o.now)
    ensures Chronological(h + [o], o.now)
    ensures Replay(h + [o], window) == Pruned(Record(Replay(h, window), o.ips, IpRecord(o.now, o.ttl)), o.now - window)
  {
    assert (h + [o])[..|h|] == h;
  }

  /** Adds the answer to a domain's records and prunes. */
  method RecordAnswer(ips: map<string, IpRecord>, answer: seq<Option<string>>, ttl: U32, now: int, window: int,
                      ghost h: History)
    returns (kept: map<string, IpRecord>, minTtl: U32)
    requires ips == Replay(h, window) && Chronological(h, now)
    ensures var h1 := h + [Observation(now, Present(answer), ttl)];
            kept == Replay(h1, window) && Chronological(h1, now)
    ensures IsMinTtl(kept, minTtl)
  {
    var seen := AddAnswers(ips, answer, IpRecord(now, ttl));
    AppendObservation(h, Observation(now, Present(answer), ttl), window);
    kept, minTtl := Prune(seen, now - window);
  }

  method RecordAndJudge(ips: map<string, IpRecord>, answer: seq<Option<string>>, ttl: U32, now: int, window: int,
                        ipThreshold: nat, ttlMax: U32, ghost h: History)
    returns (kept: map<string, IpRecord>, b: bool)
    requires ips == Replay(h, window) && Chronological(h, now) && ipThreshold > 0
    ensures var h1 := h + [Observation(now, Present(answer), ttl)];
            kept == Replay(h1, window) && Chronological(h1, now)
    ensures b <==> LooksFastFlux(h + [Observation(now, Present(answer), ttl)], now - window, ipThreshold, ttlMax)
  {
    var minTtl;
    kept, minTtl := RecordAnswer(ips, answer, ttl, now, window, h);
    ghost var h1 := h + [Observation(now, Present(answer), ttl)];
    JudgeRecords(h1, now, window, ipThreshold, ttlMax, minTtl);
    b := |kept| > 0 && |kept| >= ipThreshold && minTtl <= ttlMax;
  }

  /** What is stored of a domain is what its history leaves after pruning. */
  ghost predicate Tracked(domains: map<string, DomainEntry>, history: map<string, History>, window: int, clock: int,
                          d: string)
  {
    if d in history then
      var h := history[d];
      && |h| > 0 && Chronological(h, clock) && IpsOf(domains, d) == Replay(h, window)
      && (d in domains ==> domains[d].lastSeen == h[|h| - 1].now)
    else d !in domains
  }

  ghost predicate AllTracked(domains: map<string, DomainEntry>, history: map<string, History>, window: int, clock: int)
  {
    forall d :: Tracked(domains, history, window, clock, d)
  }

  lemma EvictionTracks(domains: map<string, DomainEntry>, history: map<string, History>, window: int, clock: int,
                       d: string)
    requires AllTracked(domains, history, window, clock)
    ensures AllTracked(domains - {d}, history - {d}, window, clock)
  {
    var left, known := domains - {d}, history - {d};
    forall e
      ensures Tracked(left, known, window, clock, e)
    {
      assert Tracked(domains, history, window, clock, e);
    }
  }

  lemma UpdateTracks(domains: map<string, DomainEntry>, history: map<string, History>, window: int, was: int, now: int,
                     d: string, h: History, next: map<string, DomainEntry>)
    requires AllTracked(domains, history, window, was) && was <= now
    requires |h| > 0 && Chronological(h, now) && h[|h| - 1].now == now
    requires IpsOf(next, d) == Replay(h, window) && (d in next ==> next[d].lastSeen == now)
    requires forall e :: e != d ==> (e in next <==> e in domains) && (e in next ==> next[e] == domains[e])
    ensures AllTracked(next, history[d := h], window, now)
  {
    var all := history[d := h];
    forall e
      ensures Tracked(next, all, window, now, e)
    {
      assert Tracked(domains, history, window, was, e);
      if e != d {
        StaysTracked(domains, history, window, was, now, e, next, all);
      }
    }
  }

  lemma StaysTracked(domains: map<string, DomainEntry>, history: map<string, History>, window: int, was: int, now: int,
                     e: string, next: map<string, DomainEntry>, all: map<string, History>)
    requires Tracked(domains, history, window, was, e) && was <= now
    requires (e in next <==> e in domains) && (e in next ==> next[e] == domains[e])
    requires (e in all <==> e in history) && (e in all ==> all[e] == history[e])
    ensures Tracked(next, all, window, now, e)
  {
  }

  class Tracker {
    const window: int
    const ipThreshold: nat
    const ttlMax: U32
    const maxDomains: nat
    var domains: map<string, DomainEntry>
    ghost var history: map<string, History>
    ghost var clock: int                        // time of the latest call

    ghost predicate Valid()
      reads this
    {
      && window > 0 && ipThreshold > 0 && maxDomains > 0
      && |domains| <= maxDomains
      && AllTracked(domains, history, window, clock)
    }

    constructor (ipThreshold: int, ttlMaxSec: int, window: int, maxDomains: int)
      ensures Valid() && history == map[]
      ensures this.ipThreshold == if ipThreshold <= 0 then 8 else ipThreshold
      ensures this.ttlMax == if ttlMaxSec <= 0 then 300 else ttlMaxSec % 0x1_0000_0000
      ensures this.window == if window <= 0 then 5 * MINUTE else window
      ensures this.maxDomains == if maxDomains <= 0 then 4096 else maxDomains
    {
      this.ipThreshold := if ipThreshold <= 0 then 8 else ipThreshold;
      this.ttlMax := if ttlMaxSec <= 0 then 300 else ttlMaxSec % 0x1_0000_0000;
      this.window := if window <= 0 then 5 * MINUTE else window;
      this.maxDomains := if maxDomains <= 0 then 4096 else maxDomains;
      domains, history, clock := map[], map[], 0;
    }

    ghost predicate IsOldest(d: string)
      reads this
    {
      d in domains && forall e :: e in domains ==> domains[d].lastSeen <= domains[e].lastSeen
    }

    /** Finds a domain seen longest ago. */
    method FindOldest() returns (oldestKey: string)
      requires domains != map[]
      ensures IsOldest(oldestKey)
    {
      oldestKey := "";
      var oldest, first := 0, true;
      var todo := domains.Keys;
      while todo != {}
        invariant todo <= domains.Keys
        invariant first ==> todo == domains.Keys
        invariant !first ==> oldestKey in domains && domains[oldestKey].lastSeen == oldest
        invariant !first ==> forall e :: e in domains && e !in todo ==> oldest <= domains[e].lastSeen
        decreases |todo|
      {
        var k :| k in todo;
        todo := todo - {k};
        if first || domains[k].lastSeen < oldest {
          oldest, oldestKey, first := domains[k].lastSeen, k, false;
        }
      }
    }

    method EvictOldest() returns (ghost evicted: string)
      requires domains != map[]
      modifies this
      ensures clock == old(clock)
      ensures old(IsOldest(evicted))
      ensures domains == old(domains) - {evicted} && history == old(history) - {evicted}
    {
      var oldestKey := FindOldest();
      evicted := oldestKey;
      domains := domains - {oldestKey};
      history := history - {oldestKey};
    }

    /** Enforces the domain cap before a new domain comes in. */
    method MakeRoom(domain: string)
      requires Valid()
      modifies this
      ensures Valid() && clock == old(clock)
      ensures domain in domains || |domains| < maxDomains
      ensures domain in old(domains) || |old(domains)| < maxDomains ==>
                domains == old(domains) && history == old(history)
      ensures history != old(history) ==> exists d :: old(IsOldest(d)) && history == old(history) - {d}
    {
      if domain !in domains && |domains| >= maxDomains {
        ghost var evicted := EvictOldest();
        EvictionTracks(old(domains), old(history), window, clock, evicted);
        assert old(domains).Keys == domains.Keys + {evicted};
      }
    }

    method Store(domain: string, kept: map<string, IpRecord>, now: int, ghost h: History)
      requires Valid() && clock <= now && (domain in domains || |domains| < maxDomains)
      requires |h| > 0 && Chronological(h, now) && h[|h| - 1].now == now && kept == Replay(h, window)
      modifies this
      ensures Valid() && clock == now && history == old(history)[domain := h]
    {
      var next := if |kept| == 0 then domains - {domain} else domains[domain := DomainEntry(kept, now)];
      UpdateTracks(domains, history, window, clock, now, domain, h, next);
      assert next.Keys <= domains.Keys + {domain};
      assert |domains.Keys + {domain}| <= maxDomains;
      domains := next;
      history, clock := history[domain := h], now;
    }

    /** An observation of a domain for which there is room. */
    method Track(domain: string, ips: seq<Option<string>>, ttl: U32, now: int) returns (b: bool)
      requires Valid() && clock <= now && (domain in domains || |domains| < maxDomains)
      modifies this
      ensures Valid() && clock == now
      ensures history == old(history)[domain := HistoryOf(old(history), domain) + [Observation(now, Present(ips), ttl)]]
      ensures b <==> LooksFastFlux(HistoryOf(old(history), domain) + [Observation(now, Present(ips), ttl)],
                                   now - window, ipThreshold, ttlMax)
    {
      ghost var h := HistoryOf(history, domain);
      ghost var h1 := h + [Observation(now, Present(ips), ttl)];
      assert Tracked(domains, history, window, clock, domain);
      var kept;
      kept, b := RecordAndJudge(IpsOf(domains, domain), ips, ttl, now, window, ipThreshold, ttlMax, h);
      Store(domain, kept, now, h1);
    }

    /** Answers from the whole history of the domain, this observation included. A new domain
        may cost another one its place, and then only one seen longest ago. */
    method Observe(domain: string, ips: seq<Option<string>>, ttl: U32, now: int) returns (b: bool)
      requires Valid() && clock <= now
      modifies this
      ensures Valid()
      ensures domain == "" || ips == [] ==> !b && domains == old(domains) && history == old(history)
      ensures domain != "" && ips != [] ==>
                && clock == now && domain in history
                && history[domain] == HistoryOf(old(history), domain) + [Observation(now, Present(ips), ttl)]
                && (b <==> LooksFastFlux(history[domain], now - window, ipThreshold, ttlMax))
      ensures forall d :: d in old(history) && d != domain && d !in history ==>
                old(IsOldest(d)) && domain !in old(domains) && old(|domains|) == maxDomains
      ensures forall d, e :: d in old(history) && e in old(history) && d !in history && e !in history ==> d == e
      ensures forall d :: d in old(history) && d != domain && d in history ==> history[d] == old(history)[d]
    {
      if domain == "" || ips == [] {
        return false;
      }
      MakeRoom(domain);
      b := Track(domain, ips, ttl, now);
    }
  }
}
