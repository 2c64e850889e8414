/** The compiled policy engine: `BuildSnapshot` turns a policy list into an index, and the
    engine answers from the index. The contracts say that the answers are those of the list.
 */
module PolicyEngine {
  import opened Names
  import opened Options
  import opened PolicySpec
  import opened PolicyTypes
  import opened Schedule

  // ----- multimaps -----

  ghost predicate Holds<K, V>(m: map<K, seq<V>>, k: K, v: V) {
    k in m && v in m[k]
  }

  function Put<K(==, !new), V(!new)>(m: map<K, seq<V>>, k: K, v: V): (r: map<K, seq<V>>)
    ensures forall x, y :: Holds(r, x, y) <==> Holds(m, x, y) || (x == k && y == v)
    ensures r.Keys == m.Keys + {k}
  {
    var was := if k in m then m[k] else [];
    m[k := was + [v]]
  }

  // ----- the index -----

  datatype WildcardRule = WildcardRule(base: string, policy: nat)
  datatype RegexRule = RegexRule(rx: string, policy: nat)

  /** Policies are referred to by their position in `policies`. `added` holds the strings
      put into the Bloom filter. */
  datatype Snapshot = Snapshot(
    policies: seq<Policy>, added: set<string>, exact: map<string, seq<nat>>,
    regexes: seq<RegexRule>, wildcards: seq<WildcardRule>, clientNets: map<string, seq<string>>)

  ghost predicate IndexesExact(ps: seq<Policy>, n: nat, exact: map<string, seq<nat>>)
    requires n <= |ps|
  {
    forall name, i: nat :: Holds(exact, name, i) <==> i < n && NamesExactly(ps[i], name)
  }

  ghost predicate IndexesWildcards(ps: seq<Policy>, n: nat, wildcards: seq<WildcardRule>)
    requires n <= |ps|
  {
    forall base, i: nat :: WildcardRule(base, i) in wildcards <==> i < n && HasWildcard(ps[i], base)
  }

  ghost predicate IndexesRegexes(sys: Platform, ps: seq<Policy>, n: nat, regexes: seq<RegexRule>)
    requires n <= |ps|
  {
    forall rx, i: nat :: RegexRule(rx, i) in regexes <==> i < n && rx in ps[i].regexes && sys.regexCompiles(rx)
  }

  ghost predicate IndexesScopes(sys: Platform, ps: seq<Policy>, n: nat, nets: map<string, seq<string>>)
    requires n <= |ps|
  {
    forall id, net :: Holds(nets, id, net) <==> NetworkUnderId(sys, ps[..n], id, net)
  }

  ghost predicate StoresSchedules(sys: Platform, ps: seq<Policy>, stored: seq<Policy>) {
    && |stored| == |ps|
    && forall i :: 0 <= i < |ps| ==> StoredFrom(sys, ps[i], stored[i])
  }

  ghost predicate StoredFrom(sys: Platform, p: Policy, stored: Policy) {
    stored == p.(sched := stored.sched) && StoredFor(sys, stored.sched, p)
  }

  /** snap is an index of the list ps. */
  ghost predicate Built(sys: Platform, ps: seq<Policy>, snap: Snapshot) {
    && StoresSchedules(sys, ps, snap.policies)
    && IndexesExact(ps, |ps|, snap.exact)
    && IndexesWildcards(ps, |ps|, snap.wildcards)
    && IndexesRegexes(sys, ps, |ps|, snap.regexes)
    && IndexesScopes(sys, ps, |ps|, snap.clientNets)
    && snap.exact.Keys <= snap.added
  }

  // ----- building it -----

  /** Parses every policy's schedule and writes it into the caller's list in place. */
  method CompileSchedules(sys: Platform, policies: array<Policy>)
    modifies policies
    ensures StoresSchedules(sys, old(policies[..]), policies[..])
  {
    for i := 0 to policies.Length
      invariant forall k :: 0 <= k < i ==> StoredFrom(sys, old(policies[k]), policies[k])
      invariant forall k :: i <= k < policies.Length ==> policies[k] == old(policies[k])
    {
      var r := CompileSchedule(sys, policies[i]);
      var cs := if r.Compiled? then r.sched else None;
      policies[i] := policies[i].(sched := cs);
    }
  }

  method IndexDomains(p: Policy, i: nat, exact0: map<string, seq<nat>>, wildcards0: seq<WildcardRule>)
    returns (exact: map<string, seq<nat>>, wildcards: seq<WildcardRule>)
    ensures forall name, j :: Holds(exact, name, j) <==> Holds(exact0, name, j) || (j == i && NamesExactly(p, name))
    ensures forall w :: w in wildcards <==> w in wildcards0 || (w.policy == i && HasWildcard(p, w.base))
  {
    exact, wildcards := exact0, wildcards0;
    for k := 0 to |p.domains|
      invariant forall name, j :: Holds(exact, name, j) <==>
                  Holds(exact0, name, j) || (j == i && NamesExactly(FirstDomains(p, k), name))
      invariant forall w :: w in wildcards <==>
                w in wildcards0 || (w.policy == i && HasWildcard(FirstDomains(p, k), w.base))
    {
      var normalized := Normalize(p.domains[k]);
      OneMoreDomain(p, k);
      if '*' in normalized {
        var base := WildcardBase(normalized);
        if base != "" {
          wildcards := wildcards + [WildcardRule(base, i)];
        }
      } else {
        exact := Put(exact, normalized, i);
      }
    }
    assert FirstDomains(p, |p.domains|) == p;
  }

  ghost function FirstDomains(p: Policy, k: nat): Policy
    requires k <= |p.domains|
  {
    p.(domains := p.domains[..k])
  }

  lemma OneMoreDomain(p: Policy, k: nat)
    requires k < |p.domains|
    ensures var entry := Normalize(p.domains[k]);
            && (forall name :: NamesExactly(FirstDomains(p, k + 1), name) <==>
                  NamesExactly(FirstDomains(p, k), name) || (name == entry && '*' !in entry))
            && (forall base :: HasWildcard(FirstDomains(p, k + 1), base) <==>
                  HasWildcard(FirstDomains(p, k), base) || (base != "" && IsWildcardFor(entry, base)))
  {
    forall name
      ensures NamesExactly(FirstDomains(p, k + 1), name) <==>
                NamesExactly(FirstDomains(p, k), name) || (name == Normalize(p.domains[k]) && '*' !in name)
    {
      OneMoreName(p, k, name);
    }
    forall base
      ensures HasWildcard(FirstDomains(p, k + 1), base) <==>
                HasWildcard(FirstDomains(p, k), base) || (base != "" && IsWildcardFor(Normalize(p.domains[k]), base))
    {
      OneMoreBase(p, k, base);
    }
  }

  lemma OneMoreName(p: Policy, k: nat, name: string)
    requires k < |p.domains|
    ensures NamesExactly(FirstDomains(p, k + 1), name) <==>
              NamesExactly(FirstDomains(p, k), name) || (name == Normalize(p.domains[k]) && '*' !in name)
  {
    var p0, p1 := FirstDomains(p, k), FirstDomains(p, k + 1);
    assert p1.domains[k] == p.domains[k];
    assert forall j :: 0 <= j < k ==> p0.domains[j] == p1.domains[j];
  }

  lemma OneMoreBase(p: Policy, k: nat, base: string)
    requires k < |p.domains|
    ensures HasWildcard(FirstDomains(p, k + 1), base) <==>
              HasWildcard(FirstDomains(p, k), base) || (base != "" && IsWildcardFor(Normalize(p.domains[k]), base))
  {
    var p0, p1 := FirstDomains(p, k), FirstDomains(p, k + 1);
    assert p1.domains[k] == p.domains[k];
    assert forall j :: 0 <= j < k ==> p0.domains[j] == p1.domains[j];
  }

  method IndexRegexes(sys: Platform, p: Policy, i: nat, regexes0: seq<RegexRule>) returns (regexes: seq<RegexRule>)
    ensures forall r :: r in regexes <==>
              r in regexes0 || (r.policy == i && r.rx in p.regexes && sys.regexCompiles(r.rx))
  {
    regexes := regexes0;
    for k := 0 to |p.regexes|
      invariant forall r :: r in regexes <==>
                  r in regexes0 || (r.policy == i && r.rx in p.regexes[..k] && sys.regexCompiles(r.rx))
    {
      assert p.regexes[..k + 1] == p.regexes[..k] + [p.regexes[k]];
      if sys.regexCompiles(p.regexes[k]) {
        regexes := regexes + [RegexRule(p.regexes[k], i)];
      }
    }
    assert p.regexes[..|p.regexes|] == p.regexes;
  }

  method IndexScopes(sys: Platform, p: Policy, nets0: map<string, seq<string>>) returns (nets: map<string, seq<string>>)
    ensures forall id, net :: Holds(nets, id, net) <==> Holds(nets0, id, net) || (id == p.id && HasNetwork(sys, p, net))
  {
    nets := nets0;
    for k := 0 to |p.clientCidrs|
      invariant forall id, net :: Holds(nets, id, net) <==>
                  Holds(nets0, id, net)
                      || (id == p.id && exists j :: 0 <= j < k && sys.parseScope(p.clientCidrs[j]) == Some(net))
    {
      var n := sys.parseScope(p.clientCidrs[k]);
      if n.Some? {
        nets := Put(nets, p.id, n.value);
      }
    }
  }

  lemma OneMorePolicyScope(sys: Platform, ps: seq<Policy>, n: nat)
    requires n < |ps|
    ensures forall id, net :: NetworkUnderId(sys, ps[..n + 1], id, net) <==>
              NetworkUnderId(sys, ps[..n], id, net) || (id == ps[n].id && HasNetwork(sys, ps[n], net))
  {
    var a, b := ps[..n], ps[..n + 1];
    assert b == a + [ps[n]];
    forall id, net
      ensures NetworkUnderId(sys, b, id, net) <==>
                NetworkUnderId(sys, a, id, net) || (id == ps[n].id && HasNetwork(sys, ps[n], net))
    {
      if j :| 0 <= j < |b| && b[j].id == id && HasNetwork(sys, b[j], net) {
        assert j < n ==> a[j] == b[j];
      }
      if j :| 0 <= j < |a| && a[j].id == id && HasNetwork(sys, a[j], net) {
        assert a[j] == b[j];
      }
      assert b[n] == ps[n];
    }
  }

  method FillBloom(ps: seq<Policy>, exactKeys: set<string>) returns (added: set<string>)
    ensures exactKeys <= added
  {
    added := exactKeys;
    for i := 0 to |ps|
      invariant exactKeys <= added
    {
      for k := 0 to |ps[i].domains|
        invariant exactKeys <= added
      {
        added := added + {Normalize(ps[i].domains[k])};
      }
      for k := 0 to |ps[i].regexes|
        invariant exactKeys <= added
      {
        added := added + {ps[i].regexes[k]};
      }
    }
  }

  /** One round of the build loop: the rules and networks of policy i. */
  method IndexPolicy(sys: Platform, ghost ps: seq<Policy>, i: nat, p: Policy, exact0: map<string, seq<nat>>,
                     wildcards0: seq<WildcardRule>, regexes0: seq<RegexRule>, nets0: map<string, seq<string>>)
    returns (exact: map<string, seq<nat>>, wildcards: seq<WildcardRule>,
             regexes: seq<RegexRule>, nets: map<string, seq<string>>)
    requires i < |ps| && StoredFrom(sys, ps[i], p)
    requires IndexesExact(ps, i, exact0) && IndexesWildcards(ps, i, wildcards0)
    requires IndexesRegexes(sys, ps, i, regexes0) && IndexesScopes(sys, ps, i, nets0)
    ensures IndexesExact(ps, i + 1, exact) && IndexesWildcards(ps, i + 1, wildcards)
    ensures IndexesRegexes(sys, ps, i + 1, regexes) && IndexesScopes(sys, ps, i + 1, nets)
  {
    exact, wildcards := IndexDomains(p, i, exact0, wildcards0);
    regexes := IndexRegexes(sys, p, i, regexes0);
    nets := IndexScopes(sys, p, nets0);
    SameCoverage(sys, ps[i], p);
    ExactGrows(ps, i, exact0, exact);
    WildcardsGrow(ps, i, wildcards0, wildcards);
    RegexesGrow(sys, ps, i, regexes0, regexes);
    ScopesGrow(sys, ps, i, nets0, nets);
  }

  lemma ExactGrows(ps: seq<Policy>, i: nat, exact0: map<string, seq<nat>>, exact: map<string, seq<nat>>)
    requires i < |ps| && IndexesExact(ps, i, exact0)
    requires forall name, j :: Holds(exact, name, j) <==>
              Holds(exact0, name, j) || (j == i && NamesExactly(ps[i], name))
    ensures IndexesExact(ps, i + 1, exact)
  {
  }

  lemma WildcardsGrow(ps: seq<Policy>, i: nat, wildcards0: seq<WildcardRule>, wildcards: seq<WildcardRule>)
    requires i < |ps| && IndexesWildcards(ps, i, wildcards0)
    requires forall w :: w in wildcards <==> w in wildcards0 || (w.policy == i && HasWildcard(ps[i], w.base))
    ensures IndexesWildcards(ps, i + 1, wildcards)
  {
  }

  lemma RegexesGrow(sys: Platform, ps: seq<Policy>, i: nat, regexes0: seq<RegexRule>, regexes: seq<RegexRule>)
    requires i < |ps| && IndexesRegexes(sys, ps, i, regexes0)
    requires forall r :: r in regexes <==>
               r in regexes0 || (r.policy == i && r.rx in ps[i].regexes && sys.regexCompiles(r.rx))
    ensures IndexesRegexes(sys, ps, i + 1, regexes)
  {
  }

  lemma ScopesGrow(sys: Platform, ps: seq<Policy>, i: nat, nets0: map<string, seq<string>>,
                   nets: map<string, seq<string>>)
    requires i < |ps| && IndexesScopes(sys, ps, i, nets0)
    requires forall id, net :: Holds(nets, id, net) <==>
              Holds(nets0, id, net) || (id == ps[i].id && HasNetwork(sys, ps[i], net))
    ensures IndexesScopes(sys, ps, i + 1, nets)
  {
    OneMorePolicyScope(sys, ps, i);
  }

  method BuildSnapshot(sys: Platform, policies: array<Policy>) returns (snap: Snapshot)
    modifies policies
    ensures Built(sys, old(policies[..]), snap)
    ensures policies[..] == snap.policies
  {
    ghost var ps := policies[..];
    CompileSchedules(sys, policies);
    var stored := policies[..];
    assert forall i :: 0 <= i < |ps| ==> StoredFrom(sys, ps[i], stored[i]);
    var exact: map<string, seq<nat>>, wildcards: seq<WildcardRule> := map[], [];
    var regexes: seq<RegexRule>, nets: map<string, seq<string>> := [], map[];
    for i := 0 to |stored|
      invariant policies[..] == stored
      invariant IndexesExact(ps, i, exact)
      invariant IndexesWildcards(ps, i, wildcards)
      invariant IndexesRegexes(sys, ps, i, regexes)
      invariant IndexesScopes(sys, ps, i, nets)
    {
      exact, wildcards, regexes, nets := IndexPolicy(sys, ps, i, stored[i], exact, wildcards, regexes, nets);
    }
    assert ps[..|ps|] == ps;
    var added := FillBloom(stored, exact.Keys);
    snap := Snapshot(stored, added, exact, regexes, wildcards, nets);
  }

  /** The stored schedule plays no part in what a policy names or which networks it lists. */
  lemma SameCoverage(sys: Platform, p: Policy, stored: Policy)
    requires stored == p.(sched := stored.sched)
    ensures forall name :: NamesExactly(stored, name) <==> NamesExactly(p, name)
    ensures forall base :: HasWildcard(stored, base) <==> HasWildcard(p, base)
    ensures forall net :: HasNetwork(sys, stored, net) <==> HasNetwork(sys, p, net)
  {
  }

  // ----- reading it -----

  predicate MatchesClient(sys: Platform, snap: Snapshot, p: Policy, client: Option<string>) {
    if |p.clientCidrs| == 0 then true
    else if client.None? then false
    else p.id in snap.clientNets
         && exists net :: net in snap.clientNets[p.id] && sys.networkContains(net, client.value)
  }

  /** What the engine checks of a stored policy, apart from the name. */
  ghost predicate Usable(sys: Platform, snap: Snapshot, i: nat, client: Option<string>, now: Instant) {
    && i < |snap.policies|
    && (snap.policies[i].sched.Some? ==> |snap.policies[i].sched.value.days| == 7)
    && Active(sys, snap.policies[i].sched, now)
    && MatchesClient(sys, snap, snap.policies[i], client)
  }

  ghost predicate SchedulesReadable(snap: Snapshot) {
    forall i :: 0 <= i < |snap.policies| && snap.policies[i].sched.Some? ==> |snap.policies[i].sched.value.days| == 7
  }

  /** A stored policy is usable exactly when the policy it was stored from applies. */
  lemma UsableMeansApplies(sys: Platform, ps: seq<Policy>, snap: Snapshot, i: nat, client: Option<string>, now: Instant)
    requires sys.Sound() && Built(sys, ps, snap) && i < |ps|
    ensures Usable(sys, snap, i, client, now) <==> Applies(sys, ps, ps[i], client, now)
  {
    var p, stored := ps[i], snap.policies[i];
    assert StoredFrom(sys, p, stored);
    ActiveMeansPermitted(sys, stored.sched, p, now);
    assert ps[..|ps|] == ps;
    assert forall net :: Holds(snap.clientNets, p.id, net) <==> NetworkUnderId(sys, ps, p.id, net);
  }

  lemma BuiltIsReadable(sys: Platform, ps: seq<Policy>, snap: Snapshot)
    requires Built(sys, ps, snap)
    ensures SchedulesReadable(snap)
  {
    forall i | 0 <= i < |ps|
      ensures snap.policies[i].sched.Some? ==> |snap.policies[i].sched.value.days| == 7
    {
      assert StoredFrom(sys, ps[i], snap.policies[i]);
    }
  }

  predicate InRange(pols: seq<nat>, n: nat) {
    forall k :: 0 <= k < |pols| ==> pols[k] < n
  }

  method FilterActive(sys: Platform, snap: Snapshot, pols: seq<nat>, now: Instant) returns (out: seq<nat>)
    requires SchedulesReadable(snap) && InRange(pols, |snap.policies|)
    ensures InRange(out, |snap.policies|)
    ensures forall i: nat :: i in out <==> i in pols && Active(sys, snap.policies[i].sched, now)
  {
    var scheduled := false;
    for k := 0 to |pols|
      invariant !scheduled ==> forall j :: 0 <= j < k ==> snap.policies[pols[j]].sched == None
    {
      if snap.policies[pols[k]].sched.Some? {
        scheduled := true;
        break;
      }
    }
    if !scheduled {
      return pols;
    }
    out := [];
    for k := 0 to |pols|
      invariant InRange(out, |snap.policies|)
      invariant forall i: nat :: i in out <==> i in pols[..k] && Active(sys, snap.policies[i].sched, now)
    {
      assert pols[..k + 1] == pols[..k] + [pols[k]];
      if Active(sys, snap.policies[pols[k]].sched, now) {
        out := out + [pols[k]];
      }
    }
    assert pols[..|pols|] == pols;
  }

  method PickHighestPriorityScoped(sys: Platform, snap: Snapshot, pols: seq<nat>, client: Option<string>)
    returns (best: Option<nat>)
    requires InRange(pols, |snap.policies|)
    ensures best.None? ==> forall i :: i in pols ==> !MatchesClient(sys, snap, snap.policies[i], client)
    ensures best.Some? ==> best.value in pols && MatchesClient(sys, snap, snap.policies[best.value], client)
    ensures best.Some? ==> forall i :: i in pols && MatchesClient(sys, snap, snap.policies[i], client) ==>
              !Beats(snap.policies[i], snap.policies[best.value])
  {
    best := None;
    for k := 0 to |pols|
      invariant best.None? ==> forall i :: i in pols[..k] ==> !MatchesClient(sys, snap, snap.policies[i], client)
      invariant best.Some? ==> best.value in pols && MatchesClient(sys, snap, snap.policies[best.value], client)
      invariant best.Some? ==> forall i :: i in pols[..k] && MatchesClient(sys, snap, snap.policies[i], client) ==>
                  !Beats(snap.policies[i], snap.policies[best.value])
    {
      assert pols[..k + 1] == pols[..k] + [pols[k]];
      var i := pols[k];
      var p := snap.policies[i];
      if !MatchesClient(sys, snap, p, client) {
        continue;
      }
      NeverBeatsItself(p);
      if best.None? || p.priority > snap.policies[best.value].priority {
        BetterStaysUnbeaten(snap.policies, pols[..k], best, i);
        best := Some(i);
      } else if p.priority == snap.policies[best.value].priority && LexLess(p.id, snap.policies[best.value].id) {
        BetterStaysUnbeaten(snap.policies, pols[..k], best, i);
        best := Some(i);
      }
    }
    assert pols[..|pols|] == pols;
  }

  lemma NeverBeatsItself(p: Policy)
    ensures !Beats(p, p)
  {
    LexIrreflexive(p.id);
  }

  lemma {:induction false} LexIrreflexive(a: string)
    ensures !LexLess(a, a)
  {
    if a != "" {
      LexIrreflexive(a[1..]);
    }
  }

  /** What does not beat the old best does not beat a new one that does. */
  lemma BetterStaysUnbeaten(ps: seq<Policy>, seen: seq<nat>, best: Option<nat>, i: nat)
    requires i < |ps| && (best.Some? ==> best.value < |ps|) && InRange(seen, |ps|)
    requires best.Some? ==> Beats(ps[i], ps[best.value])
    ensures best.Some? ==> forall j :: j in seen && !Beats(ps[j], ps[best.value]) ==> !Beats(ps[j], ps[i])
  {
    if best.Some? {
      forall j | j in seen && Beats(ps[j], ps[i])
        ensures Beats(ps[j], ps[best.value])
      {
        BeatsTransitive(ps[j], ps[i], ps[best.value]);
      }
    }
  }

  method WildcardCandidates(snap: Snapshot, d: string) returns (out: seq<nat>)
    ensures forall i: nat :: i in out <==> exists base :: WildcardRule(base, i) in snap.wildcards && UnderBase(d, base)
  {
    out := [];
    for k := 0 to |snap.wildcards|
      invariant forall i: nat :: i in out <==>
                exists base :: WildcardRule(base, i) in snap.wildcards[..k] && UnderBase(d, base)
    {
      var w := snap.wildcards[k];
      assert snap.wildcards[..k + 1] == snap.wildcards[..k] + [w];
      assert w == WildcardRule(w.base, w.policy);
      if UnderBase(d, w.base) {
        out := out + [w.policy];
      }
    }
    assert snap.wildcards[..|snap.wildcards|] == snap.wildcards;
  }

  method RegexCandidates(sys: Platform, snap: Snapshot, d: string) returns (out: seq<nat>)
    ensures forall i: nat :: i in out <==> exists rx :: RegexRule(rx, i) in snap.regexes && sys.regexMatches(rx, d)
  {
    out := [];
    for k := 0 to |snap.regexes|
      invariant forall i: nat :: i in out <==>
                exists rx :: RegexRule(rx, i) in snap.regexes[..k] && sys.regexMatches(rx, d)
    {
      var r := snap.regexes[k];
      assert snap.regexes[..k + 1] == snap.regexes[..k] + [r];
      assert r == RegexRule(r.rx, r.policy);
      if sys.regexMatches(r.rx, d) {
        out := out + [r.policy];
      }
    }
    assert snap.regexes[..|snap.regexes|] == snap.regexes;
  }

  /** The policies whose wildcards, then those whose regular expressions, cover d. */
  method DynamicCandidates(sys: Platform, ghost ps: seq<Policy>, snap: Snapshot, d: string) returns (out: seq<nat>)
    requires Built(sys, ps, snap)
    ensures InRange(out, |ps|)
    ensures forall i: nat :: i in out <==> i < |ps| && CoversDynamically(sys, ps[i], d)
  {
    var byWildcard := WildcardCandidates(snap, d);
    var byRegex := RegexCandidates(sys, snap, d);
    out := byWildcard + byRegex;
    forall i: nat
      ensures i in out <==> i < |ps| && CoversDynamically(sys, ps[i], d)
    {
      assert i in out <==> i in byWildcard || i in byRegex;
      assert forall base :: WildcardRule(base, i) in snap.wildcards <==> i < |ps| && HasWildcard(ps[i], base);
      assert forall rx :: RegexRule(rx, i) in snap.regexes <==>
          i < |ps| && rx in ps[i].regexes && sys.regexCompiles(rx);
    }
    forall k | 0 <= k < |out|
      ensures out[k] < |ps|
    {
      assert out[k] in out;
    }
  }

  // ----- the engine -----

  /** The exact index at one name holds the policies that name it; an absent name, or one
      the Bloom filter rules out, is named by none. */
  lemma ExactLookup(sys: Platform, ps: seq<Policy>, snap: Snapshot, name: string)
    requires sys.Sound() && Built(sys, ps, snap)
    ensures name in snap.exact ==> InRange(snap.exact[name], |ps|) && sys.bloomTest(snap.added, name)
    ensures name in snap.exact ==> forall i: nat :: i in snap.exact[name] <==> i < |ps| && NamesExactly(ps[i], name)
    ensures name !in snap.exact ==> forall i: nat :: i < |ps| ==> !NamesExactly(ps[i], name)
  {
    forall i: nat
      ensures name in snap.exact && i in snap.exact[name] <==> i < |ps| && NamesExactly(ps[i], name)
    {
      assert Holds(snap.exact, name, i) <==> i < |ps| && NamesExactly(ps[i], name);
    }
    if name in snap.exact {
      forall k | 0 <= k < |snap.exact[name]|
        ensures snap.exact[name][k] < |ps|
      {
        assert snap.exact[name][k] in snap.exact[name];
      }
    }
  }

  class Engine {
    const sys: Platform
    var snapshot: Snapshot
    ghost var loaded: seq<Policy>

    ghost predicate Valid()
      reads this
    {
      sys.Sound() && Built(sys, loaded, snapshot)
    }

    constructor (sys: Platform)
      requires sys.Sound()
      ensures Valid() && this.sys == sys && loaded == []
    {
      this.sys := sys;
      var none := new Policy[0];
      loaded := none[..];
      var snap := BuildSnapshot(sys, none);
      snapshot := snap;
    }

    /** Replaces the whole list. */
    method LoadPolicies(policies: array<Policy>)
      requires Valid()
      modifies this, policies
      ensures Valid() && loaded == old(policies[..])
    {
      loaded := policies[..];
      var snap := BuildSnapshot(sys, policies);
      snapshot := snap;
    }

    /** Narrows candidates to those that apply and picks the best of them. */
    method BestApplying(pols: seq<nat>, client: Option<string>, now: Instant) returns (best: Option<nat>)
      requires Valid() && InRange(pols, |loaded|)
      ensures best.None? <==> forall i: nat :: i in pols ==> !Applies(sys, loaded, loaded[i], client, now)
      ensures best.Some? ==> best.value in pols && Applies(sys, loaded, loaded[best.value], client, now)
      ensures best.Some? ==> forall i: nat :: i in pols && Applies(sys, loaded, loaded[i], client, now) ==>
                !Beats(loaded[i], loaded[best.value])
    {
      BuiltIsReadable(sys, loaded, snapshot);
      var active := FilterActive(sys, snapshot, pols, now);
      best := PickHighestPriorityScoped(sys, snapshot, active, client);
      forall i: nat | i in pols
        ensures Applies(sys, loaded, loaded[i], client, now) <==>
                i in active && MatchesClient(sys, snapshot, snapshot.policies[i], client)
      {
        UsableMeansApplies(sys, loaded, snapshot, i, client, now);
      }
      forall i: nat, j: nat | i < |loaded| && j < |loaded|
        ensures Beats(snapshot.policies[i], snapshot.policies[j]) <==> Beats(loaded[i], loaded[j])
      {
        assert StoredFrom(sys, loaded[i], snapshot.policies[i]) && StoredFrom(sys, loaded[j], snapshot.policies[j]);
      }
    }

    /** The policy that decides at one level of the exact walk, if any does. */
    method DecideAt(name: string, client: Option<string>, now: Instant) returns (best: Option<nat>)
      requires Valid()
      ensures best.None? <==> ExactRivals(sys, loaded, name, client, now) == {}
      ensures best.Some? ==> IsBest(loaded, ExactRivals(sys, loaded, name, client, now), best.value)
    {
      ExactLookup(sys, loaded, snapshot, name);
      if !sys.bloomTest(snapshot.added, name) || name !in snapshot.exact {
        return None;
      }
      best := BestApplying(snapshot.exact[name], client, now);
      if best.Some? {
        assert best.value in ExactRivals(sys, loaded, name, client, now);
      }
    }

    method MatchDynamic(d: string, client: Option<string>, now: Instant) returns (best: Option<nat>)
      requires Valid()
      ensures best.None? <==> DynamicRivals(sys, loaded, d, client, now) == {}
      ensures best.Some? ==> IsBest(loaded, DynamicRivals(sys, loaded, d, client, now), best.value)
    {
      var candidates := DynamicCandidates(sys, loaded, snapshot, d);
      best := BestApplying(candidates, client, now);
      if best.Some? {
        assert best.value in DynamicRivals(sys, loaded, d, client, now);
      }
    }

    method Evaluate(domain: string, clientIp: string, now: Instant) returns (decision: Decision)
      requires Valid()
      ensures exists w: Option<nat> ::
                && Decides(sys, loaded, Normalize(domain), sys.parseClient(clientIp), now, w)
                && (w.Some? ==> w.value < |loaded|) && Says(loaded, w, decision) && decision == DecisionOf(loaded, w)
    {
      var d := Normalize(domain);
      var client := sys.parseClient(clientIp);
      for i := 0 to |Labels(d)| - 1
        invariant forall k :: 0 <= k < i ==> ExactRivals(sys, loaded, Candidate(d, k), client, now) == {}
      {
        var best := DecideAt(Candidate(d, i), client, now);
        if best.Some? {
          FirstHitDecides(sys, loaded, d, client, now, i, best.value);
          assert StoredFrom(sys, loaded[best.value], snapshot.policies[best.value]);
          DecisionSays(loaded, best);
          return PolicyDecision(snapshot.policies[best.value]);
        }
      }
      NoHitMeansNoLevel(sys, loaded, d, client, now);
      var best := MatchDynamic(d, client, now);
      assert Decides(sys, loaded, d, client, now, best);
      DecisionSays(loaded, best);
      if best.Some? {
        assert StoredFrom(sys, loaded[best.value], snapshot.policies[best.value]);
        return PolicyDecision(snapshot.policies[best.value]);
      }
      return Decision(ActionAllow, "", "", "");
    }

    /** Whether any of the candidates applies and is an ALLOW policy. */
    method HasScopedAllow(pols: seq<nat>, client: Option<string>, now: Instant) returns (b: bool)
      requires Valid() && InRange(pols, |loaded|)
      ensures b <==> exists i: nat ::
                i in pols && IsAllowPolicy(loaded[i]) && Applies(sys, loaded, loaded[i], client, now)
    {
      BuiltIsReadable(sys, loaded, snapshot);
      var active := FilterActive(sys, snapshot, pols, now);
      forall i: nat | i in pols
        ensures Applies(sys, loaded, loaded[i], client, now) <==>
                i in active && MatchesClient(sys, snapshot, snapshot.policies[i], client)
        ensures loaded[i].action == snapshot.policies[i].action
      {
        UsableMeansApplies(sys, loaded, snapshot, i, client, now);
        assert StoredFrom(sys, loaded[i], snapshot.policies[i]);
      }
      for k := 0 to |active|
        invariant forall j :: 0 <= j < k ==>
                    !(MatchesClient(sys, snapshot, snapshot.policies[active[j]], client)
                        && IsAllowPolicy(snapshot.policies[active[j]]))
      {
        var p := snapshot.policies[active[k]];
        if !MatchesClient(sys, snapshot, p, client) {
          continue;
        }
        UpperIgnoresCase(p.action, "ALLOW");
        if Upper(p.action) == "ALLOW" {
          assert active[k] in active;
          return true;
        }
      }
      b := false;
    }

    method IsExplicitlyAllowed(domain: string, clientIp: string, now: Instant) returns (b: bool)
      requires Valid()
      ensures b <==> ExplicitlyAllowed(sys, loaded, Normalize(domain), sys.parseClient(clientIp), now)
    {
      var d := Normalize(domain);
      var client := sys.parseClient(clientIp);
      for i := 0 to |Labels(d)| - 1
        invariant forall k, p :: 0 <= k < i ==> !AllowsAt(sys, loaded, Candidate(d, k), client, now, p)
      {
        var name := Candidate(d, i);
        ExactLookup(sys, loaded, snapshot, name);
        if !sys.bloomTest(snapshot.added, name) || name !in snapshot.exact {
          continue;
        }
        var found := HasScopedAllow(snapshot.exact[name], client, now);
        if found {
          assert Visited(d, name, 0);
          WalkVisitsAncestors(d, name);
          ghost var p: nat :| p in snapshot.exact[name] && IsAllowPolicy(loaded[p])
              && Applies(sys, loaded, loaded[p], client, now);
          assert OnMatchSurface(sys, loaded[p], d);
          return true;
        }
      }
      var dynamic := DynamicCandidates(sys, loaded, snapshot, d);
      b := HasScopedAllow(dynamic, client, now);
      AllowOnlyDynamically(sys, loaded, d, client, now, dynamic);
    }
  }

  ghost predicate AllowsAt(sys: Platform, ps: seq<Policy>, name: string, client: Option<string>, now: Instant, p: nat) {
    p < |ps| && NamesExactly(ps[p], name) && IsAllowPolicy(ps[p]) && Applies(sys, ps, ps[p], client, now)
  }

  /** The first step of the walk with rivals is the deciding level. */
  lemma FirstHitIsDecidingLevel(sys: Platform, ps: seq<Policy>, d: string, client: Option<string>, now: Instant, i: nat)
    requires i < |Labels(d)| - 1 && ExactRivals(sys, ps, Candidate(d, i), client, now) != {}
    requires forall k :: 0 <= k < i ==> ExactRivals(sys, ps, Candidate(d, k), client, now) == {}
    ensures DecidingLevel(sys, ps, d, client, now, Candidate(d, i))
  {
    assert Visited(d, Candidate(d, i), 0);
    WalkVisitsAncestors(d, Candidate(d, i));
    forall longer | IsAncestor(d, longer) && |longer| > |Candidate(d, i)|
      ensures ExactRivals(sys, ps, longer, client, now) == {}
    {
      WalkVisitsAncestors(d, longer);
      var k :| 0 <= k < |Labels(d)| - 1 && Candidate(d, k) == longer;
      if k > i {
        WalkShortens(d, i, k);
      }
    }
  }

  lemma FirstHitDecides(sys: Platform, ps: seq<Policy>, d: string, client: Option<string>, now: Instant, i: nat, w: nat)
    requires i < |Labels(d)| - 1 && IsBest(ps, ExactRivals(sys, ps, Candidate(d, i), client, now), w)
    requires forall k :: 0 <= k < i ==> ExactRivals(sys, ps, Candidate(d, k), client, now) == {}
    ensures Decides(sys, ps, d, client, now, Some(w))
  {
    FirstHitIsDecidingLevel(sys, ps, d, client, now, i);
  }

  lemma NoHitMeansNoLevel(sys: Platform, ps: seq<Policy>, d: string, client: Option<string>, now: Instant)
    requires forall k :: 0 <= k < |Labels(d)| - 1 ==> ExactRivals(sys, ps, Candidate(d, k), client, now) == {}
    ensures NoExactLevel(sys, ps, d, client, now)
  {
    forall name | IsAncestor(d, name)
      ensures ExactRivals(sys, ps, name, client, now) == {}
    {
      WalkVisitsAncestors(d, name);
    }
  }

  /** When no step of the walk allows d, only the dynamic candidates can. */
  lemma AllowOnlyDynamically(sys: Platform, ps: seq<Policy>, d: string, client: Option<string>, now: Instant,
                             dynamic: seq<nat>)
    requires forall k, p :: 0 <= k < |Labels(d)| - 1 ==> !AllowsAt(sys, ps, Candidate(d, k), client, now, p)
    requires forall i: nat :: i in dynamic <==> i < |ps| && CoversDynamically(sys, ps[i], d)
    ensures ExplicitlyAllowed(sys, ps, d, client, now) <==>
            exists i: nat :: i in dynamic && IsAllowPolicy(ps[i]) && Applies(sys, ps, ps[i], client, now)
  {
    if ExplicitlyAllowed(sys, ps, d, client, now) {
      var i :| 0 <= i < |ps| && IsAllowPolicy(ps[i]) && OnMatchSurface(sys, ps[i], d)
          && Applies(sys, ps, ps[i], client, now);
      if !CoversDynamically(sys, ps[i], d) {
        var name :| IsAncestor(d, name) && NamesExactly(ps[i], name);
        WalkVisitsAncestors(d, name);
        var k :| 0 <= k < |Labels(d)| - 1 && Candidate(d, k) == name;
        assert AllowsAt(sys, ps, Candidate(d, k), client, now, i);
      }
    }
    if i: nat :| i in dynamic && IsAllowPolicy(ps[i]) && Applies(sys, ps, ps[i], client, now) {
      assert OnMatchSurface(sys, ps[i], d);
    }
  }
}
