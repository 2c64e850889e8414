/** Laws of the query pipeline in the terms of its inputs: which name is checked, what a
    deciding policy does, why a query was blocked, and what is logged of a forwarded one.
 */
module PipelineLaws {
  import opened AnswerCache
  import opened Dns
  import opened Names
  import opened Options
  import opened PipelineSpec
  import opened PolicySpec
  import opened PolicyTypes

  // ----- the name that is checked -----

  /** The question spells the name, in any case and with or without the root's dot. */
  predicate Asks(q: Question, name: string) {
    Spells(q.name, name)
  }

  ghost predicate EndsInTwoLabelSuffix(name: string) {
    exists t :: t in LOCAL_SUFFIXES && '.' in t && HasSuffix(name, "." + t)
  }

  /** The last label is a local suffix, and at least two labels come before it. */
  ghost predicate EndsInOneLabelSuffix(name: string) {
    exists e, t :: IsOneLabelSuffixed(name, e, t)
  }

  predicate IsOneLabelSuffixed(name: string, e: string, t: string) {
    t in LOCAL_SUFFIXES && '.' !in t && '.' in e && name == e + "." + t
  }

  /** A local suffix of two labels is dropped. */
  lemma TwoLabelSuffixIsDropped(q: Question, e: string, s: string)
    requires s in LOCAL_SUFFIXES && '.' in s && Asks(q, e + "." + s)
    ensures CheckedName(q) == e
  {
    SpelledName(q.name, e + "." + s);
    StripTwo(e, s);
  }

  /** Otherwise a local suffix of one label is dropped, if it leaves at least two labels. */
  lemma OneLabelSuffixIsDropped(q: Question, e: string, s: string)
    requires Asks(q, e + "." + s) && IsOneLabelSuffixed(e + "." + s, e, s) && !EndsInTwoLabelSuffix(e + "." + s)
    ensures CheckedName(q) == e
  {
    SpelledName(q.name, e + "." + s);
    StripOne(e, s);
  }

  /** Every other name is checked as it is asked. */
  lemma OtherNamesAreKept(q: Question, name: string)
    requires Asks(q, name) && !EndsInTwoLabelSuffix(name) && !EndsInOneLabelSuffix(name)
    ensures CheckedName(q) == name
  {
    SpelledName(q.name, name);
    StripNothing(name);
  }

  lemma TwoLabels(s: string)
    requires s in LOCAL_SUFFIXES && '.' in s
    ensures |Labels(s)| == 2
  {
    if s == "domain.name" {
      TwoParts("domain", "name");
      assert "domain" + ['.'] + "name" == s;
    } else {
      TwoParts("fritz", "box");
      assert "fritz" + ['.'] + "box" == s;
    }
  }

  lemma TwoParts(x: string, y: string)
    requires '.' !in x && '.' !in y
    ensures |Labels(x + ['.'] + y)| == 2
  {
    SplitAtFirst(x, '.', y);
    SplitAtFirst(y, '.', "");
  }

  lemma StripTwo(e: string, s: string)
    requires s in LOCAL_SUFFIXES && '.' in s
    ensures StripSearchDomain(e + "." + s) == e
  {
    var parts, n := Labels(e) + Labels(s), |Labels(e)| + 2;
    SplitConcat(e, '.', s);
    assert e + ['.'] + s == e + "." + s;
    TwoLabels(s);
    assert parts[n - 2..] == Labels(s) && parts[..n - 2] == Labels(e);
    JoinOfSplit(s, '.');
    JoinOfSplit(e, '.');
  }

  /** A name of three labels or more ends in its last two, joined. */
  lemma EndsInLastTwo(d: string)
    requires |Labels(d)| >= 3
    ensures var parts := Labels(d);
            var u := Join(parts[|parts| - 2..], '.');
            '.' in u && HasSuffix(d, "." + u)
  {
    var parts := Labels(d);
    var n := |parts|;
    var first, u := Join(parts[..n - 2], '.'), Join(parts[n - 2..], '.');
    assert parts == parts[..n - 2] + parts[n - 2..];
    JoinConcat(parts[..n - 2], parts[n - 2..], '.');
    JoinOfSplit(d, '.');
    assert d == first + ("." + u);
    assert parts[n - 2..] == [parts[n - 2]] + [parts[n - 1]];
    JoinConcat([parts[n - 2]], [parts[n - 1]], '.');
    assert u[|parts[n - 2]|] == '.';
  }

  lemma LastTwoMakeSuffix(d: string)
    requires |Labels(d)| >= 3 && Join(Labels(d)[|Labels(d)| - 2..], '.') in LOCAL_SUFFIXES
    ensures EndsInTwoLabelSuffix(d)
  {
    EndsInLastTwo(d);
  }

  /** A name of two labels or more is all but its last label, and the last. */
  lemma LastLabelApart(d: string)
    requires |Labels(d)| >= 2
    ensures var parts := Labels(d);
            d == Join(parts[..|parts| - 1], '.') + "." + parts[|parts| - 1] && '.' !in parts[|parts| - 1]
    ensures |Labels(d)| >= 3 ==> '.' in Join(Labels(d)[..|Labels(d)| - 1], '.')
  {
    var parts := Labels(d);
    var n := |parts|;
    assert parts == parts[..n - 1] + [parts[n - 1]];
    JoinConcat(parts[..n - 1], [parts[n - 1]], '.');
    JoinOfSplit(d, '.');
    SplitMembersHaveNone(d, '.');
    if n >= 3 {
      var init := parts[..n - 1];
      assert init == [init[0]] + init[1..];
      JoinConcat([init[0]], init[1..], '.');
      assert Join(init, '.')[|init[0]|] == '.';
    }
  }

  lemma LastMakesSuffix(d: string)
    requires |Labels(d)| >= 3 && Labels(d)[|Labels(d)| - 1] in LOCAL_SUFFIXES
    ensures EndsInOneLabelSuffix(d)
  {
    LastLabelApart(d);
    var parts := Labels(d);
    assert IsOneLabelSuffixed(d, Join(parts[..|parts| - 1], '.'), parts[|parts| - 1]);
  }

  lemma LabelsOfSuffixed(e: string, s: string)
    requires '.' in e && '.' !in s
    ensures Labels(e + "." + s) == Labels(e) + [s] && |Labels(e)| >= 2
  {
    SplitConcat(e, '.', s);
    assert e + ['.'] + s == e + "." + s;
    SplitAtFirst(s, '.', "");
    SplitCount(e, '.');
  }

  lemma StripOne(e: string, s: string)
    requires IsOneLabelSuffixed(e + "." + s, e, s) && !EndsInTwoLabelSuffix(e + "." + s)
    ensures StripSearchDomain(e + "." + s) == e
  {
    var d, parts := e + "." + s, Labels(e) + [s];
    LabelsOfSuffixed(e, s);
    if Join(parts[|parts| - 2..], '.') in LOCAL_SUFFIXES {
      LastTwoMakeSuffix(d);
    }
    assert parts[..|parts| - 1] == Labels(e);
    JoinOfSplit(e, '.');
  }

  lemma StripNothing(d: string)
    requires !EndsInTwoLabelSuffix(d) && !EndsInOneLabelSuffix(d)
    ensures StripSearchDomain(d) == d
  {
    var parts := Labels(d);
    var n := |parts|;
    if n >= 3 && Join(parts[n - 2..], '.') in LOCAL_SUFFIXES {
      LastTwoMakeSuffix(d);
    } else if n >= 3 && parts[n - 1] in LOCAL_SUFFIXES {
      LastMakesSuffix(d);
    }
  }

  /** The top-level label of the name is one of the abused ones. */
  lemma AbusedTldIff(c: Config, name: string)
    ensures IsAbusedTld(c, name) <==> exists tld :: IsLastLabel(name, tld) && Lower(tld) in c.abusedTlds
  {
    var parts := Labels(name);
    var last := parts[|parts| - 1];
    SplitMembersHaveNone(name, '.');
    if |parts| >= 2 {
      LastLabelApart(name);
    } else {
      JoinOfSplit(name, '.');
    }
    assert IsLastLabel(name, last);
    forall tld | IsLastLabel(name, tld)
      ensures tld == last
    {
      LastLabelIsUnique(name, tld, last);
    }
  }

  predicate IsLastLabel(name: string, tld: string) {
    '.' !in tld && (name == tld || HasSuffix(name, "." + tld))
  }

  lemma EndsInLabel(name: string, tld: string)
    requires IsLastLabel(name, tld)
    ensures |tld| <= |name| && name[|name| - |tld|..] == tld
    ensures |tld| < |name| ==> name[|name| - |tld| - 1] == '.'
    ensures forall k :: |name| - |tld| <= k < |name| ==> name[k] != '.'
  {
    if name != tld {
      assert ("." + tld)[1..] == tld;
    }
    assert forall k :: |name| - |tld| <= k < |name| ==> name[k] == tld[k - |name| + |tld|];
  }

  lemma LastLabelIsNotLonger(name: string, x: string, y: string)
    requires IsLastLabel(name, x) && IsLastLabel(name, y)
    ensures |y| <= |x|
  {
    EndsInLabel(name, x);
    EndsInLabel(name, y);
  }

  lemma LastLabelIsUnique(name: string, x: string, y: string)
    requires IsLastLabel(name, x) && IsLastLabel(name, y)
    ensures x == y
  {
    LastLabelIsNotLonger(name, x, y);
    LastLabelIsNotLonger(name, y, x);
    EndsInLabel(name, x);
    EndsInLabel(name, y);
  }

  // ----- what a deciding policy does -----

  /** Nothing asked before the policies decides the query. */
  predicate ReachesPolicies(c: Config, inp: Inputs) {
    inp.blocklist != Listed(true) && !(inp.nrdListed && c.nrdBlock) && !inp.policyFails
  }

  /** A policy that says "BLOCK" is answered by the sinkhole and never forwarded, and the block
      is counted and logged under the policy's ID. */
  lemma BlockPolicySinks(c: Config, q: Question, client: string, inp: Inputs, cached: Recency, allowed: bool,
                         d: Decision, ps: seq<Policy>, w: nat)
    requires w < |ps| && Says(ps, Some(w), d) && Blocks(ps[w]) && ReachesPolicies(c, inp)
    ensures var e := OutcomeOf(c, q, client, inp, cached, allowed, d);
            && e.response.Sinkhole? && !e.forwarded && e.counted
            && e.record.action == Block && e.record.reason == ps[w].id
  {
    VerdictIsFirstRule(c, CheckedName(q), inp, allowed, d);
  }

  /** A policy that says "REDIRECT" is answered with its own address, if that is one. */
  lemma RedirectPolicyAnswers(c: Config, q: Question, client: string, inp: Inputs, cached: Recency, allowed: bool,
                              d: Decision, ps: seq<Policy>, w: nat)
    requires w < |ps| && Says(ps, Some(w), d) && Redirects(ps[w]) && ReachesPolicies(c, inp)
    ensures !Blocks(ps[w])
    ensures var e := OutcomeOf(c, q, client, inp, cached, allowed, d);
            && (inp.redirectParses ==> e.response == RedirectTo(ps[w].redirect))
            && (!inp.redirectParses ==> e.response == ServFail) && !e.forwarded && !e.counted
            && e.record.action == Redirect && e.record.reason == "redirect:" + ps[w].id
  {
    VerdictIsFirstRule(c, CheckedName(q), inp, allowed, d);
  }

  // ----- answers and records -----

  /** Every record names the checked name and the client. */
  lemma RecordNamesQuery(c: Config, q: Question, client: string, inp: Inputs, cached: Recency, allowed: bool,
                         d: Decision)
    ensures var r := OutcomeOf(c, q, client, inp, cached, allowed, d).record;
            r.domain == CheckedName(q) && r.client == client
  {
    VerdictIsFirstRule(c, CheckedName(q), inp, allowed, d);
  }

  /** Every sinkhole is of the family asked for and carries its record if the name parses. */
  lemma SinkholeIsOfFamily(c: Config, q: Question, client: string, inp: Inputs, cached: Recency, allowed: bool,
                           d: Decision)
    ensures var r := OutcomeOf(c, q, client, inp, cached, allowed, d).response;
            r.Sinkhole? ==> (r.v6 <==> q.qtype == 28) && (r.hasRecord <==> inp.nameParses)
  {
  }

  /** A query is answered by SafeSearch exactly when it is enabled for the name, a policy allows
      the name, no earlier rule objects, and the name parses; then with the name's target. */
  lemma SafeSearchIff(c: Config, q: Question, client: string, inp: Inputs, cached: Recency, allowed: bool, d: Decision)
    ensures var name, r := CheckedName(q), OutcomeOf(c, q, client, inp, cached, allowed, d).response;
            && (r.SafeSearchTo? <==>
                  && ReachesPolicies(c, inp) && d.action == ActionAllow && !IsThreat(c, inp.threat)
                  && !(d.policyId == "" && IsAbusedTld(c, name))
                  && c.safeSearch && name in c.safeSearchTargets && inp.nameParses)
            && (r.SafeSearchTo? ==> r.target == c.safeSearchTargets[name])
  {
    VerdictIsFirstRule(c, CheckedName(q), inp, allowed, d);
  }

  /** Every way a query that is not forwarded gets blocked, by the reason it is logged with. */
  lemma WhyBlocked(c: Config, q: Question, client: string, inp: Inputs, cached: Recency, allowed: bool, d: Decision)
    ensures var e := OutcomeOf(c, q, client, inp, cached, allowed, d);
            e.record.action == Block && !e.forwarded ==>
              || (inp.blocklist == Listed(true) && !allowed && e.record.reason == "blocklist")
              || (inp.nrdListed && c.nrdBlock && e.record.reason == "nrd")
              || (d.action == ActionDeny && e.record.reason == d.policyId)
              || (IsThreat(c, inp.threat) && e.record.reason == "threat:" + inp.threat.detection)
              || (d.policyId == "" && IsAbusedTld(c, CheckedName(q)) && e.record.reason == "abused-tld")
              || (inp.nodNew && c.nodBlock && e.record.reason == "nod")
              || (inp.threat.block && e.record.reason == e.record.threat.detection)
  {
    VerdictIsFirstRule(c, CheckedName(q), inp, allowed, d);
  }

  predicate HasAddress(answer: seq<Record>) {
    exists k :: 0 <= k < |answer| && answer[k].data.Address?
  }

  predicate AllInternal(c: Config, answer: seq<Record>) {
    forall k :: 0 <= k < |answer| ==> IsInternalAddress(c, answer[k])
  }

  /** An A or AAAA query is answered by internal addresses and nothing else. */
  predicate IsRebind(c: Config, q: Question, inp: Inputs) {
    && c.rebindProtection && inp.exchange.Answered? && (q.qtype == 1 || q.qtype == 28)
    && inp.exchange.msg.answer != [] && AllInternal(c, inp.exchange.msg.answer)
  }

  /** The answer's location is looked at unless nothing of the answer is left. */
  predicate IsSuspectPlace(c: Config, q: Question, inp: Inputs) {
    c.geo && inp.exchange.Answered? && inp.geo.matched && !IsRebind(c, q, inp)
  }

  predicate IsFlux(c: Config, inp: Inputs) {
    c.fastFlux && inp.exchange.Answered? && HasAddress(inp.exchange.msg.answer) && inp.fastFluxTrips
  }

  lemma RebindIff(c: Config, q: Question, inp: Inputs)
    ensures RebindEmpties(c, q, inp) <==> IsRebind(c, q, inp)
    ensures GeoMatches(c, q, inp) <==> IsSuspectPlace(c, q, inp)
    ensures FluxFlags(c, inp) <==> IsFlux(c, inp)
  {
    if inp.exchange.Answered? {
      KeepsNoneIff(c, inp.exchange.msg.answer);
    }
  }

  lemma KeepsNoneIff(c: Config, answer: seq<Record>)
    ensures KeepPublic(c, answer) == [] <==> AllInternal(c, answer)
  {
    var kept := KeepPublic(c, answer);
    if kept != [] {
      KeptIffPublic(c, answer, kept[0]);
      assert kept[0] in kept;
    }
    forall k | 0 <= k < |answer|
      ensures answer[k] in kept <==> !IsInternalAddress(c, answer[k])
    {
      KeptIffPublic(c, answer, answer[k]);
    }
  }

  /** A forwarded query is answered by the sinkhole exactly when its answer was nothing but
      internal addresses, or its location is to be blocked. */
  lemma ForwardedIsSunkIff(c: Config, q: Question, client: string, inp: Inputs, cached: Recency, allowed: bool,
                           d: Decision)
    requires OutcomeOf(c, q, client, inp, cached, allowed, d).forwarded
    ensures OutcomeOf(c, q, client, inp, cached, allowed, d).response.Sinkhole? <==>
            IsRebind(c, q, inp) || (c.geo && inp.exchange.Answered? && inp.geo.matched && inp.geo.block)
  {
    VerdictIsFirstRule(c, CheckedName(q), inp, allowed, d);
    RebindIff(c, q, inp);
  }

  /** A forwarded name that is not blocklisted is logged as a block exactly for a blocking GeoIP
      match, and otherwise flagged exactly when some detector found something: the threat
      score, the newly-observed ledger, the feed, or the answer. Exactly then it has a reason
      other than none, the detector's name. */
  lemma ForwardedIsFlaggedIff(c: Config, q: Question, client: string, inp: Inputs, cached: Recency, allowed: bool,
                              d: Decision)
    requires inp.blocklist != Listed(true) && OutcomeOf(c, q, client, inp, cached, allowed, d).forwarded
    ensures var r := OutcomeOf(c, q, client, inp, cached, allowed, d).record;
            var early := inp.threat.suspicious || inp.nodNew || inp.nrdListed;
            var found := early || IsFlux(c, inp) || IsSuspectPlace(c, q, inp);
            && (r.action == Block <==> IsSuspectPlace(c, q, inp) && inp.geo.block)
            && (r.action == Flagged <==> found && r.action != Block) && (r.action == Allow <==> !found)
            && r.reason == (if found then r.threat.detection else "") && (r.threat.suspicious <==> found)
  {
    RebindIff(c, q, inp);
    VerdictIsFirstRule(c, CheckedName(q), inp, allowed, d);
  }

  /** The detection a forwarded name is logged with, by the first detector that found something. */
  lemma FirstDetectorIsNamed(c: Config, q: Question, client: string, inp: Inputs, cached: Recency, allowed: bool,
                             d: Decision)
    requires inp.blocklist != Listed(true) && OutcomeOf(c, q, client, inp, cached, allowed, d).forwarded
    ensures var r, named := OutcomeOf(c, q, client, inp, cached, allowed, d).record, inp.threat.detection != "";
            var unseen := !inp.threat.suspicious && !inp.nodNew;
            && (inp.threat.suspicious && named ==> r.threat.detection == inp.threat.detection)
            && (inp.nodNew && !named ==> r.threat.detection == "nod")
            && (unseen && inp.nrdListed ==> r.threat.detection == "nrd")
            && (unseen && !inp.nrdListed && IsFlux(c, inp) ==> r.threat.detection == "fast-flux")
            && (unseen && !inp.nrdListed && !IsFlux(c, inp) && IsSuspectPlace(c, q, inp) && !named ==>
                  r.threat.detection == "geoip")
  {
    RebindIff(c, q, inp);
    VerdictIsFirstRule(c, CheckedName(q), inp, allowed, d);
  }

  /** The reason given with it: the score's own if it has one, otherwise that of the first
      detector that found something. */
  lemma FirstDetectorGivesReason(c: Config, q: Question, client: string, inp: Inputs, cached: Recency, allowed: bool,
                                 d: Decision)
    requires inp.blocklist != Listed(true) && OutcomeOf(c, q, client, inp, cached, allowed, d).forwarded
    ensures var r, given := OutcomeOf(c, q, client, inp, cached, allowed, d).record.threat, inp.threat.reason != "";
            var unseen := !inp.threat.suspicious && !inp.nodNew;
            && (!unseen && given ==> r.reason == inp.threat.reason)
            && (inp.nodNew && !given ==> r.reason == "newly observed domain (first seen within NOD window)")
            && (unseen && inp.nrdListed ==> r.reason == "newly-registered domain (on NRD feed)")
            && (unseen && !inp.nrdListed && IsFlux(c, inp) ==> r.reason == "fast-flux: distinct-IP churn with low TTL")
            && (unseen && !inp.nrdListed && !IsFlux(c, inp) && IsSuspectPlace(c, q, inp) ==>
                  r.reason == if given then inp.threat.reason else inp.geo.reason)
  {
    VerdictIsFirstRule(c, CheckedName(q), inp, allowed, d);
    RebindIff(c, q, inp);
  }

  /** Every record keeps the score, except that a forwarded name without one gets 0.6 when the
      location of its answer is suspicious; and it keeps whether the detectors are to block. */
  lemma ScoreIsKept(c: Config, q: Question, client: string, inp: Inputs, cached: Recency, allowed: bool, d: Decision)
    ensures var e := OutcomeOf(c, q, client, inp, cached, allowed, d);
            var placed := e.forwarded && inp.blocklist != Listed(true) && IsSuspectPlace(c, q, inp);
            && e.record.threat.score == (if placed && inp.threat.score == 0.0 then 0.6 else inp.threat.score)
            && e.record.threat.block == inp.threat.block
            && (!e.forwarded && inp.threat.reason != "" ==> e.record.threat.reason == inp.threat.reason)
  {
    VerdictIsFirstRule(c, CheckedName(q), inp, allowed, d);
    RebindIff(c, q, inp);
  }

  /** What is logged when an ALLOW policy overrides the blocklist, and when the policies fail. */
  lemma OverridesAndFailuresAreLogged(c: Config, q: Question, client: string, inp: Inputs, cached: Recency,
                                      allowed: bool, d: Decision)
    ensures var e := OutcomeOf(c, q, client, inp, cached, allowed, d);
            && (inp.blocklist == Listed(true) && allowed ==>
                  e.record.action == Allow && e.record.reason == "allow-override" && e.record.threat == inp.threat)
            && (inp.blocklist != Listed(true) && !(inp.nrdListed && c.nrdBlock) && inp.policyFails ==>
                  e.record.action == Error && e.record.reason == "" && e.response == ServFail && !e.forwarded)
            && (e.response.SafeSearchTo? ==> e.record.action == Allow && e.record.reason == "")
  {
    VerdictIsFirstRule(c, CheckedName(q), inp, allowed, d);
  }

  /** How a forwarded query is answered: without filters as the upstream did; after a failure
      from the cache, every record under the stale TTL, or with SERVFAIL. */
  lemma ForwardedIsAnswered(c: Config, q: Question, client: string, inp: Inputs, cached: Recency, allowed: bool,
                            d: Decision)
    requires OutcomeOf(c, q, client, inp, cached, allowed, d).forwarded
    ensures var r := OutcomeOf(c, q, client, inp, cached, allowed, d).response;
            && (inp.exchange.Answered? && !c.rebindProtection && !c.geo ==> r == Upstream(inp.exchange.msg.answer))
            && (r.StaleAnswer? ==> c.serveStale && !inp.exchange.Answered?)
            && (r.StaleAnswer? ==> forall k :: 0 <= k < |r.answer| ==> r.answer[k].ttl == 30)
            && (r == ServFail ==> !inp.exchange.Answered?) && (inp.exchange.Failed? ==> !r.Upstream? && !r.Sinkhole?)
  {
    VerdictIsFirstRule(c, CheckedName(q), inp, allowed, d);
  }

  /** Rebind filtering keeps the order: it filters the parts of an answer one after the other. */
  lemma {:induction false} KeepPublicConcat(c: Config, a: seq<Record>, b: seq<Record>)
    ensures KeepPublic(c, a + b) == KeepPublic(c, a) + KeepPublic(c, b)
  {
    if |b| == 0 {
      assert a + b == a;
    } else {
      KeepPublicConcat(c, a, b[..|b| - 1]);
      assert (a + b)[..|a + b| - 1] == a + b[..|b| - 1];
    }
  }
}
