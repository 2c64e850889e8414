/** The plain meaning of a policy list, without any index: which policies cover a name,
    which of them apply to a client at an instant, and which one decides.
 */
module PolicySpec {
  import opened Names
  import opened Options
  import opened PolicyTypes
  import opened Schedule

  // ----- what a policy covers -----

  /** p lists the name itself; an entry holding a star never names anything exactly. */
  predicate NamesExactly(p: Policy, name: string) {
    '*' !in name && exists k :: 0 <= k < |p.domains| && Normalize(p.domains[k]) == name
  }

  /** "*.example.com" to "example.com"; other patterns are not supported. */
  function WildcardBase(pattern: string): string {
    if HasPrefix(pattern, "*.") then pattern[2..] else ""
  }

  predicate HasWildcard(p: Policy, base: string) {
    base != "" && exists k :: 0 <= k < |p.domains| && IsWildcardFor(Normalize(p.domains[k]), base)
  }

  predicate IsWildcardFor(entry: string, base: string) {
    '*' in entry && WildcardBase(entry) == base
  }

  predicate UnderBase(d: string, base: string) {
    d == base || HasSuffix(d, "." + base)
  }

  ghost predicate CoveredByWildcard(p: Policy, d: string) {
    exists base :: HasWildcard(p, base) && UnderBase(d, base)
  }

  /** Entry k of the policy is "*." and a base that is d or a name d lies under. */
  predicate WildcardAt(p: Policy, k: nat, base: string, d: string)
    requires k < |p.domains|
  {
    base != "" && Normalize(p.domains[k]) == "*." + base && (d == base || HasSuffix(d, "." + base))
  }

  /** A wildcard covers its base and every name under it; nothing else is a wildcard. */
  lemma WildcardCoversIff(p: Policy, d: string)
    ensures CoveredByWildcard(p, d) <==> exists k, base :: 0 <= k < |p.domains| && WildcardAt(p, k, base, d)
  {
    if CoveredByWildcard(p, d) {
      var base :| HasWildcard(p, base) && UnderBase(d, base);
      var k :| 0 <= k < |p.domains| && IsWildcardFor(Normalize(p.domains[k]), base);
      WildcardEntry(Normalize(p.domains[k]), base);
      assert WildcardAt(p, k, base, d);
    }
    forall k, base | 0 <= k < |p.domains| && WildcardAt(p, k, base, d)
      ensures CoveredByWildcard(p, d)
    {
      WildcardEntry(Normalize(p.domains[k]), base);
      assert HasWildcard(p, base) && UnderBase(d, base);
    }
  }

  lemma WildcardEntry(entry: string, base: string)
    requires base != ""
    ensures IsWildcardFor(entry, base) <==> entry == "*." + base
  {
    if HasPrefix(entry, "*.") {
      assert entry == "*." + entry[2..];
    }
    if entry == "*." + base {
      assert entry[0] == '*' && entry[2..] == base;
    }
  }

  predicate CoveredByRegex(sys: Platform, p: Policy, d: string) {
    exists rx :: rx in p.regexes && sys.regexCompiles(rx) && sys.regexMatches(rx, d)
  }

  ghost predicate CoversDynamically(sys: Platform, p: Policy, d: string) {
    CoveredByWildcard(p, d) || CoveredByRegex(sys, p, d)
  }

  // ----- whom and when it applies -----

  predicate HasNetwork(sys: Platform, p: Policy, net: string) {
    exists k :: 0 <= k < |p.clientCidrs| && sys.parseScope(p.clientCidrs[k]) == Some(net)
  }

  /** The scope a policy states for itself. */
  ghost predicate InOwnScope(sys: Platform, p: Policy, client: Option<string>) {
    || |p.clientCidrs| == 0
    || (client.Some? && exists net :: HasNetwork(sys, p, net) && sys.networkContains(net, client.value))
  }

  /** The scope the engine gives it: a scoped policy takes on the networks of every policy
      in the list that shares its ID. */
  ghost predicate InScope(sys: Platform, ps: seq<Policy>, p: Policy, client: Option<string>) {
    || |p.clientCidrs| == 0
    || (client.Some? && exists net :: NetworkUnderId(sys, ps, p.id, net) && sys.networkContains(net, client.value))
  }

  ghost predicate NetworkUnderId(sys: Platform, ps: seq<Policy>, id: string, net: string) {
    exists i :: 0 <= i < |ps| && ps[i].id == id && HasNetwork(sys, ps[i], net)
  }

  ghost predicate UniqueIds(ps: seq<Policy>) {
    forall i, j :: 0 <= i < j < |ps| ==> ps[i].id != ps[j].id
  }

  /** Another policy of the list under the same ID, with a scope of its own that holds the
      client. */
  ghost predicate NamesakeHolds(sys: Platform, ps: seq<Policy>, i: nat, j: nat, client: Option<string>)
    requires i < |ps| && j < |ps|
  {
    j != i && ps[j].id == ps[i].id && |ps[j].clientCidrs| > 0 && InOwnScope(sys, ps[j], client)
  }

  /** Exactly how far a policy reaches: to its own scope, and to those of its namesakes. */
  lemma ScopeIsOwnOrNamesakes(sys: Platform, ps: seq<Policy>, i: nat, client: Option<string>)
    requires i < |ps|
    ensures InScope(sys, ps, ps[i], client) <==>
            InOwnScope(sys, ps[i], client) || exists j :: 0 <= j < |ps| && NamesakeHolds(sys, ps, i, j, client)
  {
    var p := ps[i];
    if |p.clientCidrs| > 0 && client.Some? {
      if net :| NetworkUnderId(sys, ps, p.id, net) && sys.networkContains(net, client.value) {
        var j :| 0 <= j < |ps| && ps[j].id == p.id && HasNetwork(sys, ps[j], net);
        assert InOwnScope(sys, ps[j], client);
        assert j != i ==> NamesakeHolds(sys, ps, i, j, client);
      }
      if j :| 0 <= j < |ps| && (j == i || NamesakeHolds(sys, ps, i, j, client)) && InOwnScope(sys, ps[j], client) {
        var net :| HasNetwork(sys, ps[j], net) && sys.networkContains(net, client.value);
        assert NetworkUnderId(sys, ps, p.id, net);
      }
    }
  }

  /** A policy reaches a client outside its own scope if and only if a scoped policy of the
      same ID has that client in its own. */
  lemma SharedIdSharesScope(sys: Platform, ps: seq<Policy>, i: nat, client: Option<string>)
    requires i < |ps|
    ensures InScope(sys, ps, ps[i], client) && !InOwnScope(sys, ps[i], client) <==>
            !InOwnScope(sys, ps[i], client) && exists j :: 0 <= j < |ps| && NamesakeHolds(sys, ps, i, j, client)
  {
    ScopeIsOwnOrNamesakes(sys, ps, i, client);
  }

  /** With distinct IDs that never happens: a policy's scope is its own. */
  lemma UniqueIdsKeepScopesApart(sys: Platform, ps: seq<Policy>, i: nat, client: Option<string>)
    requires UniqueIds(ps) && i < |ps|
    ensures InScope(sys, ps, ps[i], client) <==> InOwnScope(sys, ps[i], client)
  {
    ScopeIsOwnOrNamesakes(sys, ps, i, client);
  }

  /** A platform on which scope entries are host addresses. */
  function HostsOnly(): Platform {
    Platform(_ => false, (_, _) => false, (added, s) => s in added, e => Some(e), (net, client) => net == client,
             raw => Some(raw), _ => false, (_, _) => 0, (_, _) => 0, (_, _) => 0)
  }

  function HostPolicy(id: string, host: string): Policy {
    Policy(id, "", "", true, 0, "BLOCK", ["ads.example"], [], [], "", "", "", [host], None)
  }

  /** It does happen: of two policies named "kids", each for one host, the first reaches the
      other's host. */
  lemma SharedIdWitness()
    ensures var ps := [HostPolicy("kids", "192.0.2.10"), HostPolicy("kids", "192.0.2.20")];
            && HostsOnly().Sound() && InScope(HostsOnly(), ps, ps[0], Some("192.0.2.20"))
            && !InOwnScope(HostsOnly(), ps[0], Some("192.0.2.20"))
  {
    var sys, ps := HostsOnly(), [HostPolicy("kids", "192.0.2.10"), HostPolicy("kids", "192.0.2.20")];
    assert ps[1].clientCidrs[0] == "192.0.2.20";
    assert HasNetwork(sys, ps[1], "192.0.2.20");
    assert NamesakeHolds(sys, ps, 0, 1, Some("192.0.2.20"));
    ScopeIsOwnOrNamesakes(sys, ps, 0, Some("192.0.2.20"));
    assert ps[0].clientCidrs[0] == "192.0.2.10";
    assert "192.0.2.10"[8] != "192.0.2.20"[8];
  }

  ghost predicate Applies(sys: Platform, ps: seq<Policy>, p: Policy, client: Option<string>, now: Instant) {
    PermittedAt(sys, p, now) && InScope(sys, ps, p, client)
  }

  // ----- which policy decides -----

  predicate LexLess(a: string, b: string) {
    if b == "" then false
    else if a == "" then true
    else if a[0] != b[0] then a[0] < b[0]
    else LexLess(a[1..], b[1..])
  }

  lemma {:induction false} LexTransitive(a: string, b: string, c: string)
    requires LexLess(a, b) && LexLess(b, c)
    ensures LexLess(a, c)
  {
    if a != "" && a[0] == b[0] && b[0] == c[0] {
      LexTransitive(a[1..], b[1..], c[1..]);
    }
  }

  lemma {:induction false} LexTotal(a: string, b: string)
    ensures a == b || LexLess(a, b) || LexLess(b, a)
  {
    if a != "" && b != "" && a[0] == b[0] {
      LexTotal(a[1..], b[1..]);
      assert a == [a[0]] + a[1..] && b == [b[0]] + b[1..];
    }
  }

  /** q takes precedence over p: higher priority, or the same and a smaller ID. */
  predicate Beats(q: Policy, p: Policy) {
    q.priority > p.priority || (q.priority == p.priority && LexLess(q.id, p.id))
  }

  lemma BeatsTransitive(r: Policy, q: Policy, p: Policy)
    requires Beats(r, q) && Beats(q, p)
    ensures Beats(r, p)
  {
    if r.priority == p.priority {
      LexTransitive(r.id, q.id, p.id);
    }
  }

  /** The dictionary order: a is a proper beginning of b, or smaller at the first difference. */
  predicate Precedes(a: string, b: string) {
    exists k :: 0 <= k <= |a| && k <= |b| && a[..k] == b[..k] && SmallerAt(a, b, k)
  }

  predicate SmallerAt(a: string, b: string, k: nat)
    requires k <= |a| && k <= |b|
  {
    if k == |a| then k < |b| else k < |b| && a[k] < b[k]
  }

  lemma SamePrefix(a: string, b: string, k: nat)
    requires k <= |a| && k <= |b| && a[..k] == b[..k]
    ensures k > 0 ==> a[0] == b[0] && a[1..][..k - 1] == b[1..][..k - 1]
  {
    if k > 0 {
      assert a[..k][0] == b[..k][0];
      assert a[1..][..k - 1] == a[..k][1..] && b[1..][..k - 1] == b[..k][1..];
    }
  }

  lemma {:induction false} LexLessIsDictionaryOrder(a: string, b: string)
    ensures LexLess(a, b) <==> Precedes(a, b)
  {
    if a == "" || b == "" || a[0] != b[0] {
      if LexLess(a, b) {
        assert a[..0] == b[..0] && SmallerAt(a, b, 0);
      }
      if k :| 0 <= k <= |a| && k <= |b| && a[..k] == b[..k] && SmallerAt(a, b, k) {
        SamePrefix(a, b, k);
      }
    } else {
      LexLessIsDictionaryOrder(a[1..], b[1..]);
      if k :| 0 <= k <= |a[1..]| && k <= |b[1..]| && a[1..][..k] == b[1..][..k] && SmallerAt(a[1..], b[1..], k) {
        assert a[..k + 1] == [a[0]] + a[1..][..k] && b[..k + 1] == [b[0]] + b[1..][..k];
        assert SmallerAt(a, b, k + 1);
      }
      if k :| 0 <= k <= |a| && k <= |b| && a[..k] == b[..k] && SmallerAt(a, b, k) {
        assert k > 0;
        SamePrefix(a, b, k);
        assert SmallerAt(a[1..], b[1..], k - 1);
      }
    }
  }

  ghost predicate IsBest(ps: seq<Policy>, rivals: set<nat>, i: nat)
    requires forall j :: j in rivals ==> j < |ps|
  {
    i in rivals && forall j :: j in rivals ==> !Beats(ps[j], ps[i])
  }

  /** The best of the rivals has the highest priority, and of those with it the first ID. */
  lemma BestHasTopPriority(ps: seq<Policy>, rivals: set<nat>, i: nat, j: nat)
    requires (forall k :: k in rivals ==> k < |ps|) && IsBest(ps, rivals, i) && j in rivals
    ensures ps[j].priority <= ps[i].priority
    ensures ps[j].priority == ps[i].priority ==> !Precedes(ps[j].id, ps[i].id)
  {
    LexLessIsDictionaryOrder(ps[j].id, ps[i].id);
  }

  lemma BestIsUnique(ps: seq<Policy>, rivals: set<nat>, i: nat, j: nat)
    requires UniqueIds(ps) && (forall k :: k in rivals ==> k < |ps|)
    requires IsBest(ps, rivals, i) && IsBest(ps, rivals, j)
    ensures i == j
  {
    LexTotal(ps[i].id, ps[j].id);
  }

  ghost function ExactRivals(sys: Platform, ps: seq<Policy>, name: string, client: Option<string>,
                             now: Instant): (r: set<nat>)
  {
    set i: nat | i < |ps| && NamesExactly(ps[i], name) && Applies(sys, ps, ps[i], client, now)
  }

  ghost function DynamicRivals(sys: Platform, ps: seq<Policy>, d: string, client: Option<string>,
                               now: Instant): set<nat>
  {
    set i: nat | i < |ps| && CoversDynamically(sys, ps[i], d) && Applies(sys, ps, ps[i], client, now)
  }

  /** The level at which the exact rules decide: the longest ancestor of d that some
      applying policy names. */
  ghost predicate DecidingLevel(sys: Platform, ps: seq<Policy>, d: string, client: Option<string>, now: Instant,
                                name: string)
  {
    && IsAncestor(d, name) && ExactRivals(sys, ps, name, client, now) != {}
    && forall longer :: IsAncestor(d, longer) && |longer| > |name| ==> ExactRivals(sys, ps, longer, client, now) == {}
  }

  ghost predicate NoExactLevel(sys: Platform, ps: seq<Policy>, d: string, client: Option<string>, now: Instant) {
    forall name :: IsAncestor(d, name) ==> ExactRivals(sys, ps, name, client, now) == {}
  }

  /** w is the policy that decides the normalised name d, or none when the default does. */
  ghost predicate Decides(sys: Platform, ps: seq<Policy>, d: string, client: Option<string>, now: Instant,
                          w: Option<nat>)
  {
    if NoExactLevel(sys, ps, d, client, now) then
      var rivals := DynamicRivals(sys, ps, d, client, now);
      if rivals == {} then w == None else w.Some? && IsBest(ps, rivals, w.value)
    else
      w.Some? && exists name :: DecidingLevel(sys, ps, d, client, now, name)
                             && IsBest(ps, ExactRivals(sys, ps, name, client, now), w.value)
  }

  lemma SameLengthAncestorsAreEqual(d: string, e: string, f: string)
    requires IsAncestor(d, e) && IsAncestor(d, f) && |e| == |f|
    ensures e == f
  {
    assert d[|d| - |e|..] == e by {
      if d != e { assert d[|d| - |e|..] == ("." + e)[1..]; }
    }
    assert d[|d| - |f|..] == f by {
      if d != f { assert d[|d| - |f|..] == ("." + f)[1..]; }
    }
  }

  /** With distinct IDs the deciding policy is determined. */
  lemma DecidesIsFunctional(sys: Platform, ps: seq<Policy>, d: string, client: Option<string>, now: Instant,
                            v: Option<nat>, w: Option<nat>)
    requires UniqueIds(ps)
    requires Decides(sys, ps, d, client, now, v) && Decides(sys, ps, d, client, now, w)
    ensures v == w
  {
    if NoExactLevel(sys, ps, d, client, now) {
      if v.Some? {
        BestIsUnique(ps, DynamicRivals(sys, ps, d, client, now), v.value, w.value);
      }
    } else {
      var m :| DecidingLevel(sys, ps, d, client, now, m) && IsBest(ps, ExactRivals(sys, ps, m, client, now), v.value);
      var n :| DecidingLevel(sys, ps, d, client, now, n) && IsBest(ps, ExactRivals(sys, ps, n, client, now), w.value);
      SameLengthAncestorsAreEqual(d, m, n);
      BestIsUnique(ps, ExactRivals(sys, ps, m, client, now), v.value, w.value);
    }
  }

  // ----- decisions -----

  function UpperChar(c: char): char {
    if 'a' <= c <= 'z' then c - 32 as char else c
  }

  function Upper(s: string): string {
    if s == "" then "" else [UpperChar(s[0])] + Upper(s[1..])
  }

  function PolicyDecision(p: Policy): Decision {
    var act := if Upper(p.action) == "BLOCK" then ActionDeny
               else if Upper(p.action) == "REDIRECT" then ActionRedirect
               else ActionAllow;
    Decision(act, p.id, p.category, p.redirect)
  }

  function DecisionOf(ps: seq<Policy>, w: Option<nat>): Decision
    requires w.Some? ==> w.value < |ps|
  {
    if w.None? then Decision(ActionAllow, "", "", "") else PolicyDecision(ps[w.value])
  }

  /** The policy says "ALLOW", in any case. */
  predicate IsAllowPolicy(p: Policy) {
    SameIgnoringCase(p.action, "ALLOW")
  }

  predicate IsCapitals(word: string) {
    forall i :: 0 <= i < |word| ==> 'A' <= word[i] <= 'Z'
  }

  lemma {:induction false} UpperIgnoresCase(s: string, word: string)
    requires IsCapitals(word)
    ensures Upper(s) == word <==> SameIgnoringCase(s, word)
  {
    if s != "" && word != "" {
      UpperIgnoresCase(s[1..], word[1..]);
      assert word == [word[0]] + word[1..];
      assert Upper(s)[1..] == Upper(s[1..]);
    }
  }

  predicate Blocks(p: Policy) {
    SameIgnoringCase(p.action, "BLOCK")
  }

  predicate Redirects(p: Policy) {
    SameIgnoringCase(p.action, "REDIRECT")
  }

  /** The decision is the policy's own: denied when it says "BLOCK" in any case, redirected
      when it says "REDIRECT", allowed whatever else it says; its ID, category and address. */
  predicate SaysAs(d: Decision, p: Policy) {
    && d.policyId == p.id && d.category == p.category && d.redirectIp == p.redirect
    && (d.action == ActionDeny <==> Blocks(p)) && (d.action == ActionRedirect <==> Redirects(p))
  }

  lemma PolicyDecisionSays(p: Policy)
    ensures SaysAs(PolicyDecision(p), p)
  {
    UpperIgnoresCase(p.action, "BLOCK");
    UpperIgnoresCase(p.action, "REDIRECT");
  }

  lemma DecisionSays(ps: seq<Policy>, w: Option<nat>)
    requires w.Some? ==> w.value < |ps|
    ensures Says(ps, w, DecisionOf(ps, w))
  {
    if w.Some? {
      PolicyDecisionSays(ps[w.value]);
    }
  }

  /** What the deciding policy makes of a query; without one it is allowed under no ID. */
  predicate Says(ps: seq<Policy>, w: Option<nat>, d: Decision)
    requires w.Some? ==> w.value < |ps|
  {
    if w.Some? then SaysAs(d, ps[w.value]) else d == Decision(ActionAllow, "", "", "")
  }

  /** p covers d somewhere on the match surface: by naming it or a parent, by a wildcard, or
      by a regular expression. */
  ghost predicate OnMatchSurface(sys: Platform, p: Policy, d: string) {
    (exists name :: IsAncestor(d, name) && NamesExactly(p, name)) || CoversDynamically(sys, p, d)
  }

  ghost predicate ExplicitlyAllowed(sys: Platform, ps: seq<Policy>, d: string, client: Option<string>, now: Instant) {
    exists i :: 0 <= i < |ps| && IsAllowPolicy(ps[i]) && OnMatchSurface(sys, ps[i], d)
             && Applies(sys, ps, ps[i], client, now)
  }

  /** Whenever the deciding policy is an ALLOW policy, the name is explicitly allowed. */
  lemma AllowWinnerIsExplicit(sys: Platform, ps: seq<Policy>, d: string, client: Option<string>, now: Instant,
                              w: Option<nat>)
    requires Decides(sys, ps, d, client, now, w) && w.Some?
    ensures w.value < |ps|
    ensures IsAllowPolicy(ps[w.value]) ==> ExplicitlyAllowed(sys, ps, d, client, now)
  {
    if NoExactLevel(sys, ps, d, client, now) {
      assert w.value in DynamicRivals(sys, ps, d, client, now);
    } else {
      var name :| DecidingLevel(sys, ps, d, client, now, name)
          && IsBest(ps, ExactRivals(sys, ps, name, client, now), w.value);
      assert IsAncestor(d, name) && NamesExactly(ps[w.value], name);
    }
  }

  /** No further policy, whatever its priority and action, takes an explicit allow back. */
  lemma MorePoliciesKeepExplicitAllow(sys: Platform, ps: seq<Policy>, more: seq<Policy>, d: string,
                                      client: Option<string>, now: Instant)
    requires ExplicitlyAllowed(sys, ps, d, client, now)
    ensures ExplicitlyAllowed(sys, ps + more, d, client, now)
  {
    var i :| 0 <= i < |ps| && IsAllowPolicy(ps[i]) && OnMatchSurface(sys, ps[i], d)
        && Applies(sys, ps, ps[i], client, now);
    var all := ps + more;
    assert all[i] == ps[i];
    if |ps[i].clientCidrs| > 0 {
      var net :| NetworkUnderId(sys, ps, ps[i].id, net) && sys.networkContains(net, client.value);
      var k :| 0 <= k < |ps| && ps[k].id == ps[i].id && HasNetwork(sys, ps[k], net);
      assert all[k] == ps[k];
      assert NetworkUnderId(sys, all, ps[i].id, net);
    }
  }
}
