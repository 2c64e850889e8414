/** The per-client rate limiter: fixed one-second windows that start with a query, and lazy
    eviction of idle clients when many are tracked. The class is proved to decide like a
    limiter that never evicts; the bound on allowed queries is proved for that one.
 */
module RateLimit {
  import opened Options

  const SECOND: int := 1_000_000_000
  const MAX_CLIENTS: nat := 65536
  const IDLE_AFTER: int := 10 * SECOND

  datatype ClientWindow = ClientWindow(windowStart: int, count: int, lastSeen: int)
  datatype Call = Call(client: string, now: int)

  // ----- the limiter that never evicts -----

  /** One client's window after a query, and whether the query may proceed. */
  function Step(perSec: int, state: Option<ClientWindow>, now: int): (ClientWindow, bool) {
    var w := if state.None? then ClientWindow(now, 0, now) else state.value;
    var rolled := if now - w.windowStart >= SECOND then ClientWindow(now, 0, now) else w.(lastSeen := now);
    if rolled.count >= perSec then (rolled, false) else (rolled.(count := rolled.count + 1), true)
  }

  function StateOf(perSec: int, calls: seq<Call>, client: string): Option<ClientWindow> {
    if |calls| == 0 then None
    else
      var init, last := calls[..|calls| - 1], calls[|calls| - 1];
      var was := StateOf(perSec, init, client);
      if last.client == client then Some(Step(perSec, was, last.now).0) else was
  }

  /** The decision on the last call of a run. */
  predicate Decision(perSec: int, calls: seq<Call>)
    requires |calls| > 0
  {
    var last := calls[|calls| - 1];
    perSec <= 0 || Step(perSec, StateOf(perSec, calls[..|calls| - 1], last.client), last.now).1
  }

  ghost predicate Chronological(calls: seq<Call>) {
    forall i, j :: 0 <= i < j < |calls| ==> calls[i].now <= calls[j].now
  }

  /** How many of a client's queries in the second from t on were allowed. */
  function AllowedFrom(perSec: int, calls: seq<Call>, client: string, t: int): nat {
    if |calls| == 0 then 0
    else
      var last := calls[|calls| - 1];
      AllowedFrom(perSec, calls[..|calls| - 1], client, t)
      + if last.client == client && t <= last.now < t + SECOND && Decision(perSec, calls) then 1 else 0
  }

  /** A window opens with an allowed query and never holds more than perSec of them. */
  lemma {:induction false} WindowInvariant(perSec: int, calls: seq<Call>, client: string)
    requires perSec > 0 && Chronological(calls)
    ensures var s := StateOf(perSec, calls, client);
            s.Some? ==> && 1 <= s.value.count <= perSec && s.value.windowStart <= s.value.lastSeen
                        && exists i :: 0 <= i < |calls| && calls[i].now == s.value.lastSeen
  {
    if |calls| > 0 {
      var init := calls[..|calls| - 1];
      WindowInvariant(perSec, init, client);
      var s := StateOf(perSec, init, client);
      if s.Some? {
        var i :| 0 <= i < |init| && init[i].now == s.value.lastSeen;
        assert calls[i].now == s.value.lastSeen;
      }
    }
  }

  /** What the allowed queries from t on can amount to, by where the current window starts. */
  function Ceiling(perSec: int, s: Option<ClientWindow>, t: int): int {
    if s.None? then 0
    else if s.value.windowStart < t then s.value.count - 1
    else if s.value.windowStart < t + SECOND then perSec - 1 + s.value.count
    else 2 * perSec - 1
  }

  lemma {:induction false} NoneAllowedYet(perSec: int, calls: seq<Call>, client: string, t: int)
    requires forall i :: 0 <= i < |calls| ==> calls[i].now < t
    ensures AllowedFrom(perSec, calls, client, t) == 0
  {
    if |calls| > 0 {
      NoneAllowedYet(perSec, calls[..|calls| - 1], client, t);
    }
  }

  lemma {:induction false} AllowedBelowCeiling(perSec: int, calls: seq<Call>, client: string, t: int)
    requires perSec > 0 && Chronological(calls)
    ensures AllowedFrom(perSec, calls, client, t) <= Ceiling(perSec, StateOf(perSec, calls, client), t)
  {
    if |calls| > 0 {
      var init, now := calls[..|calls| - 1], calls[|calls| - 1].now;
      AllowedBelowCeiling(perSec, init, client, t);
      WindowInvariant(perSec, init, client);
      var s := StateOf(perSec, init, client);
      if s.Some? {
        var i :| 0 <= i < |init| && init[i].now == s.value.lastSeen;
        assert calls[i].now <= now;
      }
      if now < t {
        NoneAllowedYet(perSec, calls, client, t);
        WindowInvariant(perSec, calls, client);
      }
    }
  }

  /** Main result: no client has more than 2 * perSec - 1 queries allowed in any one second,
      wherever the second starts. */
  lemma AtMostTwiceLessOne(perSec: int, calls: seq<Call>, client: string, t: int)
    requires perSec > 0 && Chronological(calls)
    ensures AllowedFrom(perSec, calls, client, t) <= 2 * perSec - 1
  {
    AllowedBelowCeiling(perSec, calls, client, t);
    WindowInvariant(perSec, calls, client);
  }

  // ----- no query is denied without cause -----

  /** What a window has counted was allowed in the second from its start. */
  lemma {:induction false} WindowWasAllowed(perSec: int, calls: seq<Call>, client: string)
    requires perSec > 0 && Chronological(calls)
    ensures var s := StateOf(perSec, calls, client);
            s.Some? ==>
              && AllowedFrom(perSec, calls, client, s.value.windowStart) >= s.value.count
              && (forall i :: 0 <= i < |calls| && calls[i].client == client ==> calls[i].now <= s.value.lastSeen)
              && s.value.windowStart <= s.value.lastSeen
  {
    if |calls| > 0 {
      var init, last := calls[..|calls| - 1], calls[|calls| - 1];
      WindowWasAllowed(perSec, init, client);
      WindowInvariant(perSec, init, client);
    }
  }

  /** In the second from t on, as many queries of the client were allowed as may be. */
  predicate FullFrom(perSec: int, calls: seq<Call>, client: string, t: int) {
    AllowedFrom(perSec, calls, client, t) >= perSec
  }

  /** Main result: a query is denied only when perSec queries of its client were already
      allowed within one second that began less than a second ago. */
  lemma DeniedOnlyWhenFull(perSec: int, calls: seq<Call>)
    requires perSec > 0 && |calls| > 0 && Chronological(calls) && !Decision(perSec, calls)
    ensures var init, last := calls[..|calls| - 1], calls[|calls| - 1];
            exists t :: last.now - SECOND < t <= last.now && FullFrom(perSec, init, last.client, t)
  {
    var init, last := calls[..|calls| - 1], calls[|calls| - 1];
    var s := StateOf(perSec, init, last.client);
    WindowWasAllowed(perSec, init, last.client);
    WindowInvariant(perSec, init, last.client);
    assert FullFrom(perSec, init, last.client, s.value.windowStart);
  }

  // ----- the bound is attained -----

  function Burst(client: string, now: int, n: nat): seq<Call> {
    seq(n, _ => Call(client, now))
  }

  /** A burst inside the current window, within its allowance, is allowed in full. */
  lemma {:induction false} BurstIsAllowed(perSec: int, calls: seq<Call>, client: string, now: int, n: nat, t: int)
    requires var s := StateOf(perSec, calls, client);
             s.Some? && now - s.value.windowStart < SECOND && s.value.count + n <= perSec
    requires t <= now < t + SECOND
    ensures var s, r := StateOf(perSec, calls, client), StateOf(perSec, calls + Burst(client, now, n), client);
            r.Some? && r.value.windowStart == s.value.windowStart && r.value.count == s.value.count + n
    ensures AllowedFrom(perSec, calls + Burst(client, now, n), client, t) == AllowedFrom(perSec, calls, client, t) + n
  {
    var run := calls + Burst(client, now, n);
    if n == 0 {
      assert run == calls;
    } else {
      BurstIsAllowed(perSec, calls, client, now, n - 1, t);
      assert run[..|run| - 1] == calls + Burst(client, now, n - 1);
    }
  }

  /** For every rate some run reaches the bound: one query, perSec - 1 at the end of its
      window, and perSec in the next window right after. */
  lemma BoundIsAttained(perSec: int) returns (calls: seq<Call>)
    requires perSec > 0
    ensures Chronological(calls) && AllowedFrom(perSec, calls, "c", 1) == 2 * perSec - 1
  {
    var one := OneThenBurst(perSec);
    var two := one + [Call("c", SECOND)];
    assert two[..|one|] == one;
    BurstIsAllowed(perSec, two, "c", SECOND, perSec - 1, 1);
    calls := two + Burst("c", SECOND, perSec - 1);
  }

  /** One query, and the rest of its window's allowance at the end of the window. */
  lemma OneThenBurst(perSec: int) returns (calls: seq<Call>)
    requires perSec > 0
    ensures Chronological(calls) && forall i :: 0 <= i < |calls| ==> calls[i].now < SECOND
    ensures AllowedFrom(perSec, calls, "c", 1) == perSec - 1
    ensures var s := StateOf(perSec, calls, "c"); s.Some? && s.value.windowStart == 0 && s.value.count == perSec
  {
    var first := [Call("c", 0)];
    assert first[..0] == [];
    BurstIsAllowed(perSec, first, "c", SECOND - 1, perSec - 1, 1);
    calls := first + Burst("c", SECOND - 1, perSec - 1);
  }

  // ----- the limiter that evicts -----

  /** At `clock`: a tracked client's window is the never-evicting limiter's; an untracked
      client is unknown to that one too, or has been idle for at least idleAfter. */
  ghost predicate Agrees(perSec: int, idleAfter: int, clients: map<string, ClientWindow>, calls: seq<Call>,
                         clock: int, c: string)
  {
    var s := StateOf(perSec, calls, c);
    if c in clients then s == Some(clients[c]) else s.None? || clock - s.value.lastSeen >= idleAfter
  }

  /** A client idle for a second starts over, as one never seen does. */
  lemma IdleStartsOver(perSec: int, w: ClientWindow, now: int)
    requires now - w.lastSeen >= SECOND && w.windowStart <= w.lastSeen
    ensures Step(perSec, Some(w), now) == Step(perSec, None, now)
  {
  }

  lemma AgreesAfterCall(perSec: int, idleAfter: int, clients: map<string, ClientWindow>, calls: seq<Call>,
                        clientIp: string, now: int, next: ClientWindow, c: string)
    requires Agrees(perSec, idleAfter, clients, calls, now, c)
    requires next == Step(perSec, StateOf(perSec, calls, clientIp), now).0
    ensures Agrees(perSec, idleAfter, clients[clientIp := next], calls + [Call(clientIp, now)], now, c)
  {
    assert (calls + [Call(clientIp, now)])[..|calls|] == calls;
  }

  class RateLimiter {
    const perSec: int
    const maxClients: nat
    const idleAfter: int
    var clients: map<string, ClientWindow>
    ghost var calls: seq<Call>
    ghost var clock: int

    ghost predicate Valid()
      reads this
    {
      && idleAfter >= SECOND && Chronological(calls)
      && (forall i :: 0 <= i < |calls| ==> calls[i].now <= clock)
      && (perSec > 0 ==> forall c :: Agrees(perSec, idleAfter, clients, calls, clock, c))
    }

    constructor (perSec: int)
      ensures Valid() && calls == [] && this.perSec == perSec
    {
      this.perSec, maxClients, idleAfter := perSec, MAX_CLIENTS, IDLE_AFTER;
      clients, calls, clock := map[], [], 0;
    }

    /** Forgets exactly the clients not seen within idleAfter. */
    method EvictIdle(now: int)
      modifies this`clients
      ensures clients.Keys == set c | c in old(clients) && now - old(clients)[c].lastSeen < idleAfter
      ensures forall c :: c in clients ==> clients[c] == old(clients)[c]
    {
      var todo := clients.Keys;
      while todo != {}
        invariant todo <= old(clients).Keys
        invariant forall c :: c in clients <==>
                  c in old(clients) && (c in todo || now - old(clients)[c].lastSeen < idleAfter)
        invariant forall c :: c in clients ==> clients[c] == old(clients)[c]
        decreases |todo|
      {
        var ip :| ip in todo;
        todo := todo - {ip};
        if now - clients[ip].lastSeen >= idleAfter {
          clients := clients - {ip};
        }
      }
    }

    /** The window a query is counted in, after evicting idle clients if many are tracked. */
    method WindowFor(clientIp: string, now: int) returns (w: ClientWindow)
      requires Valid() && perSec > 0 && clock <= now
      modifies this
      ensures Valid() && clock == now && calls == old(calls)
      ensures Step(perSec, Some(w), now) == Step(perSec, StateOf(perSec, calls, clientIp), now)
    {
      assert Agrees(perSec, idleAfter, clients, calls, clock, clientIp);
      WindowInvariant(perSec, calls, clientIp);
      ghost var was := clock;
      clock := now;
      if clientIp in clients {
        w := clients[clientIp];
      } else {
        w := ClientWindow(now, 0, now);
        if StateOf(perSec, calls, clientIp).Some? {
          IdleStartsOver(perSec, StateOf(perSec, calls, clientIp).value, now);
        }
        if |clients| >= maxClients {
          EvictIdle(now);
        }
      }
      forall c
        ensures Agrees(perSec, idleAfter, clients, calls, now, c)
      {
        assert Agrees(perSec, idleAfter, old(clients), calls, was, c);
      }
    }

    /** Decides as the never-evicting limiter does on the same calls. */
    method Allow(clientIp: string, now: int) returns (r: bool)
      requires Valid() && clock <= now
      modifies this
      ensures Valid() && calls == old(calls) + [Call(clientIp, now)] && clock == now
      ensures r == Decision(perSec, calls)
    {
      ghost var run := calls + [Call(clientIp, now)];
      assert run[..|calls|] == calls;
      if perSec <= 0 {
        calls, clock := run, now;
        return true;
      }
      var w := WindowFor(clientIp, now);
      ghost var full := StateOf(perSec, calls, clientIp);
      if now - w.windowStart >= SECOND {
        w := w.(windowStart := now, count := 0);
      }
      w := w.(lastSeen := now);
      r := w.count < perSec;
      if r {
        w := w.(count := w.count + 1);
      }
      assert (w, r) == Step(perSec, full, now);
      ghost var next := clients[clientIp := w];
      forall c
        ensures Agrees(perSec, idleAfter, next, run, now, c)
      {
        AgreesAfterCall(perSec, idleAfter, clients, calls, clientIp, now, w, c);
      }
      clients := clients[clientIp := w];
      calls := run;
    }
  }
}
