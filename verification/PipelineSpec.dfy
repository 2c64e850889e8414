/** What the query pipeline does with one DNS query, as a specification: the detectors'
    answers, the rules in order of precedence, the effect of each, and what follows for the
    answer and the log record. The detectors it consults (rate limiter, blocklist, threat
    scoring, feeds, upstream, GeoIP) answer through `Inputs`, so every statement holds
    whatever they answer. What a call does to the outside is appended to a journal.
 */
module PipelineSpec {
  import opened AnswerCache
  import opened Dns
  import opened Names
  import opened Options
  import opened PolicySpec
  import opened PolicyTypes

  // ----- messages -----

  datatype Exchange = Failed | NilResponse | Answered(success: bool, msg: Message)

  /** A sinkhole carries its 0.0.0.0 or :: record unless the queried name does not parse. */
  datatype Response =
    | Refused
    | ServFail
    | Sinkhole(v6: bool, hasRecord: bool)
    | RedirectTo(ip: string)
    | SafeSearchTo(target: string)
    | StaleAnswer(answer: seq<Record>)
    | Upstream(answer: seq<Record>)

  datatype LogAction = Allow | Block | Redirect | Error | Flagged

  datatype Threat = Threat(suspicious: bool, score: real, detection: string, reason: string, block: bool)

  datatype LogRecord = LogRecord(domain: string, client: string, action: LogAction, reason: string, threat: Threat)

  // ----- configuration and detectors -----

  datatype Config = Config(
    threatBlockThreshold: real, threatDryRun: bool, abusedTlds: set<string>,
    safeSearch: bool, safeSearchTargets: map<string, string>,
    nodBlock: bool, nrdBlock: bool, serveStale: bool, fastFlux: bool, rebindProtection: bool, geo: bool,
    isInternal: string -> bool, cacheMax: nat, staleFor: int)

  datatype BlocklistAnswer = LookupFailed | Listed(blocked: bool)

  datatype GeoAnswer = GeoAnswer(matched: bool, block: bool, reason: string)

  /** What the detectors, the upstream and the clock answer if they are asked during the call. */
  datatype Inputs = Inputs(
    now: Instant, accepting: bool, rateAllows: bool, threat: Threat, blocklist: BlocklistAnswer,
    nrdListed: bool, policyFails: bool, nodNew: bool,
    exchange: Exchange, fastFluxTrips: bool, geo: GeoAnswer,
    nameParses: bool, redirectParses: bool)

  // ----- names -----

  const LOCAL_SUFFIXES: set<string> := {
    "lan", "local", "home", "internal", "localdomain", "domain.name", "hgu_lan",
    "fritz.box", "mynetwork", "belkin", "router", "gateway", "dlink"}

  function StripSearchDomain(domain: string): string {
    var parts := Labels(domain);
    var n := |parts|;
    if n < 3 then domain
    else if Join(parts[n - 2..], '.') in LOCAL_SUFFIXES then Join(parts[..n - 2], '.')
    else if parts[n - 1] in LOCAL_SUFFIXES then Join(parts[..n - 1], '.')
    else domain
  }

  /** The name all checks use. */
  function CheckedName(q: Question): string {
    StripSearchDomain(DropTrailingDot(Lower(q.name)))
  }

  predicate IsAbusedTld(c: Config, domain: string) {
    var parts := Labels(domain);
    Lower(parts[|parts| - 1]) in c.abusedTlds
  }

  // ----- threats -----

  datatype ThreatAction = NoThreat | BlockThreat | DryRun

  function ThreatDecision(c: Config, t: Threat): ThreatAction {
    if !(c.threatBlockThreshold > 0.0 && t.suspicious && t.score >= c.threatBlockThreshold) then NoThreat
    else if c.threatDryRun then DryRun
    else BlockThreat
  }

  function EnrichThreat(t: Threat, reason: string): Threat {
    Threat(true, if t.score == 0.0 then 0.6 else t.score,
           if t.detection == "" then "geoip" else t.detection,
           if t.reason == "" then reason else t.reason, t.block)
  }

  const NOD_REASON := "newly observed domain (first seen within NOD window)"
  const NRD_REASON := "newly-registered domain (on NRD feed)"
  const FLUX_REASON := "fast-flux: distinct-IP churn with low TTL"

  function WithNod(t: Threat, nodNew: bool): Threat {
    if !nodNew then t
    else Threat(true, t.score, if t.detection == "" then "nod" else t.detection,
                if t.reason == "" then NOD_REASON else t.reason, t.block)
  }

  function Marked(t: Threat, detection: string, reason: string): Threat {
    t.(suspicious := true, detection := detection, reason := reason)
  }

  // ----- rebind filtering -----

  predicate IsInternalAddress(c: Config, rr: Record) {
    rr.data.Address? && c.isInternal(rr.data.ip)
  }

  predicate HoldsInternal(c: Config, answer: seq<Record>) {
    exists rr :: rr in answer && IsInternalAddress(c, rr)
  }

  function KeepPublic(c: Config, answers: seq<Record>): seq<Record> {
    if |answers| == 0 then []
    else
      var init, last := answers[..|answers| - 1], answers[|answers| - 1];
      if IsInternalAddress(c, last) then KeepPublic(c, init) else KeepPublic(c, init) + [last]
  }

  method FilterRebind(c: Config, answers: seq<Record>) returns (kept: seq<Record>, dropped: nat)
    ensures kept == KeepPublic(c, answers) && dropped == |answers| - |kept|
  {
    kept, dropped := [], 0;
    for i := 0 to |answers|
      invariant kept == KeepPublic(c, answers[..i]) && dropped == i - |kept|
    {
      assert answers[..i + 1][..i] == answers[..i];
      if IsInternalAddress(c, answers[i]) {
        dropped := dropped + 1;
      } else {
        kept := kept + [answers[i]];
      }
    }
    assert answers[..|answers|] == answers;
  }

  /** Exactly the records that are no internal address survive. */
  lemma {:induction false} KeptIffPublic(c: Config, answers: seq<Record>, rr: Record)
    ensures rr in KeepPublic(c, answers) <==> rr in answers && !IsInternalAddress(c, rr)
    ensures |KeepPublic(c, answers)| <= |answers|
    ensures |KeepPublic(c, answers)| == |answers| ==> KeepPublic(c, answers) == answers
  {
    if |answers| > 0 {
      var init := answers[..|answers| - 1];
      KeptIffPublic(c, init, rr);
      assert answers == init + [answers[|answers| - 1]];
    }
  }

  // ----- what becomes of an upstream answer -----

  function SinkholeFor(q: Question, inp: Inputs): Response {
    Sinkhole(q.qtype == TYPE_AAAA, inp.nameParses)
  }

  /** Rebind protection drops every record of an address answer. */
  predicate RebindEmpties(c: Config, q: Question, inp: Inputs) {
    && inp.exchange.Answered? && c.rebindProtection && q.qtype in {TYPE_A, TYPE_AAAA}
    && inp.exchange.msg.answer != [] && KeepPublic(c, inp.exchange.msg.answer) == []
  }

  predicate GeoMatches(c: Config, q: Question, inp: Inputs) {
    c.geo && inp.exchange.Answered? && !RebindEmpties(c, q, inp) && inp.geo.matched
  }

  /** A filter replaces the upstream answer by the sinkhole. */
  predicate FilterSinks(c: Config, q: Question, inp: Inputs) {
    RebindEmpties(c, q, inp) || (GeoMatches(c, q, inp) && inp.geo.block)
  }

  predicate FluxFlags(c: Config, inp: Inputs) {
    && c.fastFlux && inp.exchange.Answered? && inp.fastFluxTrips
    && exists k :: 0 <= k < |inp.exchange.msg.answer| && inp.exchange.msg.answer[k].data.Address?
  }

  const STALE_TTL: nat := 30

  function Stamped(answer: seq<Record>, ttl: nat): (r: seq<Record>)
    ensures |r| == |answer| && forall k :: 0 <= k < |r| ==> r[k] == answer[k].(ttl := ttl)
  {
    seq(|answer|, k requires 0 <= k < |answer| => answer[k].(ttl := ttl))
  }

  /** What the cache has for a failed exchange. */
  function Fallback(c: Config, q: Question, inp: Inputs, cached: Recency): Option<Item> {
    if c.serveStale then StaleHit(c.staleFor, cached, CacheKey(q), inp.now) else None
  }

  /** How a forwarded query is answered, given what is in the cache. */
  function AnswerFor(c: Config, q: Question, inp: Inputs, cached: Recency): Response {
    if FilterSinks(c, q, inp) then SinkholeFor(q, inp)
    else if inp.exchange.Answered? then
      Upstream(if c.rebindProtection then KeepPublic(c, inp.exchange.msg.answer) else inp.exchange.msg.answer)
    else if Fallback(c, q, inp, cached).Some? then
      StaleAnswer(Stamped(Fallback(c, q, inp, cached).value.msg.answer, STALE_TTL))
    else ServFail
  }

  /** The call a forwarded query makes to the cache, if any. A successful answer is put into it
      as it came, before any filter. */
  function CacheCall(c: Config, q: Question, inp: Inputs): Option<Op> {
    if !c.serveStale then None
    else if !inp.exchange.Answered? then Some(GetStaleOp(CacheKey(q), inp.now))
    else if inp.exchange.success then Some(PutOp(CacheKey(q), inp.exchange.msg, inp.now))
    else None
  }

  function CacheAfter(c: Config, q: Question, inp: Inputs, cached: Recency): Recency {
    var op := CacheCall(c, q, inp);
    if op.None? then cached else Apply(c.cacheMax, c.staleFor, cached, op.value)
  }

  // ----- which rule decides a query -----

  datatype Verdict =
    | Override
    | Blocked(reason: string, threat: Threat, counted: bool)
    | PolicyError
    | Redirected(id: string, ip: string)
    | SafeSearch(target: string)
    | Forwarded

  datatype Rule = Rule(applies: bool, verdict: Verdict)

  predicate IsListed(inp: Inputs) {
    inp.blocklist.Listed? && inp.blocklist.blocked
  }

  predicate IsSafeSearched(c: Config, domain: string) {
    c.safeSearch && domain in c.safeSearchTargets
  }

  predicate DetectorBlocks(inp: Inputs) {
    (inp.threat.suspicious || inp.nodNew) && inp.threat.block
  }

  /** The rules in their order of precedence; each is stated without regard to the others. */
  function Precedence(c: Config, domain: string, inp: Inputs, allowed: bool, d: Decision): (rules: seq<Rule>)
    ensures |rules| == 12 && rules[11] == Rule(true, Forwarded)
  {
    [ Rule(IsListed(inp) && allowed, Override),
      Rule(IsListed(inp), Blocked("blocklist", inp.threat, true)),
      Rule(inp.nrdListed && c.nrdBlock, Blocked("nrd", inp.threat, false)),
      Rule(inp.policyFails, PolicyError),
      Rule(d.action == ActionDeny, Blocked(d.policyId, inp.threat, true)),
      Rule(d.action == ActionRedirect, Redirected(d.policyId, d.redirectIp)),
      Rule(ThreatDecision(c, inp.threat) == BlockThreat, Blocked("threat:" + inp.threat.detection, inp.threat, false)),
      Rule(d.policyId == "" && IsAbusedTld(c, domain), Blocked("abused-tld", inp.threat, false)),
      Rule(IsSafeSearched(c, domain),
          SafeSearch(if IsSafeSearched(c, domain) then c.safeSearchTargets[domain] else "")),
      Rule(inp.nodNew && c.nodBlock, Blocked("nod", inp.threat, false)),
      Rule(DetectorBlocks(inp),
          Blocked(WithNod(inp.threat, inp.nodNew).detection, WithNod(inp.threat, inp.nodNew), false)),
      Rule(true, Forwarded) ]
  }

  function First(rules: seq<Rule>): Verdict
    requires |rules| > 0
  {
    if rules[0].applies || |rules| == 1 then rules[0].verdict else First(rules[1..])
  }

  lemma {:induction false} FirstAt(rules: seq<Rule>, k: nat)
    requires k < |rules| && rules[k].applies && forall j :: 0 <= j < k ==> !rules[j].applies
    ensures First(rules) == rules[k].verdict
  {
    if k > 0 {
      FirstAt(rules[1..], k - 1);
    }
  }

  /** The rule that decides a query, found by cases. */
  function VerdictOf(c: Config, domain: string, inp: Inputs, allowed: bool, d: Decision): Verdict {
    if IsListed(inp) then
      if allowed then Override else Blocked("blocklist", inp.threat, true)
    else if inp.nrdListed && c.nrdBlock then Blocked("nrd", inp.threat, false)
    else if inp.policyFails then PolicyError
    else match d.action
      case ActionDeny => Blocked(d.policyId, inp.threat, true)
      case ActionRedirect => Redirected(d.policyId, d.redirectIp)
      case ActionAllow => AllowPathVerdict(c, domain, inp, d)
  }

  function AllowPathVerdict(c: Config, domain: string, inp: Inputs, d: Decision): Verdict {
    if ThreatDecision(c, inp.threat) == BlockThreat then
      Blocked("threat:" + inp.threat.detection, inp.threat, false)
    else if d.policyId == "" && IsAbusedTld(c, domain) then Blocked("abused-tld", inp.threat, false)
    else if IsSafeSearched(c, domain) then SafeSearch(c.safeSearchTargets[domain])
    else DetectorVerdict(c, inp)
  }

  function DetectorVerdict(c: Config, inp: Inputs): Verdict {
    if inp.nodNew && c.nodBlock then Blocked("nod", inp.threat, false)
    else if DetectorBlocks(inp) then
      Blocked(WithNod(inp.threat, inp.nodNew).detection, WithNod(inp.threat, inp.nodNew), false)
    else Forwarded
  }

  /** The cases pick the first rule that applies. */
  lemma VerdictIsFirstRule(c: Config, domain: string, inp: Inputs, allowed: bool, d: Decision)
    ensures VerdictOf(c, domain, inp, allowed, d) == First(Precedence(c, domain, inp, allowed, d))
  {
    var rules := Precedence(c, domain, inp, allowed, d);
    FirstAt(rules,
            if rules[0].applies then 0 else if rules[1].applies then 1 else if rules[2].applies then 2
            else if rules[3].applies then 3 else if rules[4].applies then 4 else if rules[5].applies then 5
            else if rules[6].applies then 6 else if rules[7].applies then 7 else if rules[8].applies then 8
            else if rules[9].applies then 9 else if rules[10].applies then 10 else 11);
  }

  // ----- what a decided query does -----

  /** The threat a forwarded query is logged with: whatever made the name suspicious first. */
  function FinalThreat(c: Config, q: Question, inp: Inputs): Threat {
    var t := WithNod(inp.threat, inp.nodNew);
    var u := if t.suspicious then t
             else if inp.nrdListed then Marked(t, "nrd", NRD_REASON)
             else if FluxFlags(c, inp) then Marked(t, "fast-flux", FLUX_REASON)
             else t;
    if GeoMatches(c, q, inp) then EnrichThreat(u, inp.geo.reason) else u
  }

  function FinalAction(c: Config, q: Question, inp: Inputs): LogAction {
    if GeoMatches(c, q, inp) && inp.geo.block then Block
    else if FinalThreat(c, q, inp).suspicious then Flagged
    else Allow
  }

  function FinalRecord(c: Config, q: Question, client: string, inp: Inputs): LogRecord {
    var t := FinalThreat(c, q, inp);
    LogRecord(CheckedName(q), client, FinalAction(c, q, inp), if t.suspicious then t.detection else "", t)
  }

  datatype Effect = Effect(response: Response, record: LogRecord, forwarded: bool, counted: bool, success: bool)

  function EffectOf(c: Config, q: Question, client: string, inp: Inputs, cached: Recency, v: Verdict): Effect {
    var name := CheckedName(q);
    match v
    case Override =>
      Effect(AnswerFor(c, q, inp, cached), LogRecord(name, client, Allow, "allow-override", inp.threat), true,
          false, true)
    case Blocked(reason, threat, counted) =>
      Effect(SinkholeFor(q, inp), LogRecord(name, client, Block, reason, threat), false, counted, true)
    case PolicyError =>
      Effect(ServFail, LogRecord(name, client, Error, "", inp.threat), false, false, false)
    case Redirected(id, ip) =>
      Effect(if inp.redirectParses then RedirectTo(ip) else ServFail,
             LogRecord(name, client, Redirect, "redirect:" + id, inp.threat), false, false, true)
    case SafeSearch(target) =>
      Effect(if inp.nameParses then SafeSearchTo(target) else ServFail,
             LogRecord(name, client, Allow, "", inp.threat), false, false, true)
    case Forwarded =>
      Effect(AnswerFor(c, q, inp, cached), FinalRecord(c, q, client, inp), true, false, true)
  }

  /** What the outside has seen: WriteMsg calls, log records, upstream exchanges, the
      contents of the answer cache, blocked hits, and the metrics' outcomes. */
  datatype Journal = Journal(
    written: seq<Response>, records: seq<LogRecord>, forwards: nat, cached: Recency,
    blockedHits: nat, outcomes: seq<bool>)

  const NOTHING := Journal([], [], 0, [], 0, [])

  /** Everything an effect does except the outcome, which is recorded as the call returns. */
  function Done(c: Config, q: Question, inp: Inputs, j: Journal, e: Effect): Journal {
    Journal(j.written + [e.response], j.records + [e.record],
            if e.forwarded then j.forwards + 1 else j.forwards,
            if e.forwarded then CacheAfter(c, q, inp, j.cached) else j.cached,
            if e.counted then j.blockedHits + 1 else j.blockedHits, j.outcomes)
  }

  predicate PassesGates(inp: Inputs) {
    inp.accepting && inp.rateAllows
  }

  /** What a query past the gates does: the effect of the first rule that applies. */
  function OutcomeOf(c: Config, q: Question, client: string, inp: Inputs, cached: Recency, allowed: bool,
                     d: Decision): Effect
  {
    EffectOf(c, q, client, inp, cached, First(Precedence(c, CheckedName(q), inp, allowed, d)))
  }

  /** The metrics' outcome is recorded last. */
  function Returned(j: Journal, success: bool): Journal {
    j.(outcomes := j.outcomes + [success])
  }

  /** One call: the question, the client, what was answered, and what the policies say. */
  datatype Step = Step(q: Option<Question>, client: string, inp: Inputs, allowed: bool, d: Decision)

  predicate IsAnswered(s: Step) {
    s.q.Some? && PassesGates(s.inp)
  }

  function EffectOfStep(c: Config, cached: Recency, s: Step): Effect
    requires IsAnswered(s)
  {
    OutcomeOf(c, s.q.value, s.client, s.inp, cached, s.allowed, s.d)
  }

  /** What a call does: nothing without a question; one refusal and no record at the gates;
      otherwise one answer, one record and one outcome. */
  function After(c: Config, j: Journal, s: Step): Journal {
    if s.q.None? then j
    else if !PassesGates(s.inp) then j.(written := j.written + [Refused])
    else
      var e := EffectOfStep(c, j.cached, s);
      Returned(Done(c, s.q.value, s.inp, j, e), e.success)
  }

  /** Every question is answered once, and exactly those past the gates are logged and measured,
      once each. */
  lemma AnswersOnce(c: Config, j: Journal, s: Step)
    ensures var r, questions, answered := After(c, j, s), if s.q.Some? then 1 else 0, if IsAnswered(s) then 1 else 0;
            && j.written <= r.written && |r.written| == |j.written| + questions
            && j.records <= r.records && |r.records| == |j.records| + answered
            && j.outcomes <= r.outcomes && |r.outcomes| == |j.outcomes| + answered
  {
  }

  lemma AfterAnswered(c: Config, j: Journal, s: Step)
    requires IsAnswered(s)
    ensures var v := VerdictOf(c, CheckedName(s.q.value), s.inp, s.allowed, s.d);
            var e := EffectOf(c, s.q.value, s.client, s.inp, j.cached, v);
            After(c, j, s) == Returned(Done(c, s.q.value, s.inp, j, e), e.success)
  {
    VerdictIsFirstRule(c, CheckedName(s.q.value), s.inp, s.allowed, s.d);
  }

  // ----- what the pipeline guarantees about a query -----

  /** A block record means the sinkhole was the answer. The converse fails exactly when a
      filter sank an upstream answer that is logged as something else: always for a rebind,
      and for GeoIP when the name was let through over the blocklist. */
  lemma SinkholeIffBlocked(c: Config, q: Question, client: string, inp: Inputs, cached: Recency, allowed: bool,
                           d: Decision)
    ensures var e := OutcomeOf(c, q, client, inp, cached, allowed, d);
            && (e.record.action == Block ==> e.response == SinkholeFor(q, inp))
            && (e.response.Sinkhole? && e.record.action != Block <==>
                e.forwarded && (RebindEmpties(c, q, inp) || (IsListed(inp) && FilterSinks(c, q, inp))))
  {
    VerdictIsFirstRule(c, CheckedName(q), inp, allowed, d);
  }

  /** A blocklisted name is forwarded exactly when it is explicitly allowed; otherwise it is
      logged and counted as a blocklist block. */
  lemma BlocklistedIsForwardedIff(c: Config, q: Question, client: string, inp: Inputs, cached: Recency, allowed: bool,
                                  d: Decision)
    requires inp.blocklist == Listed(true)
    ensures var e := OutcomeOf(c, q, client, inp, cached, allowed, d);
            && (e.forwarded <==> allowed)
            && (!allowed ==> e.record.action == Block && e.record.reason == "blocklist" && e.counted)
  {
    VerdictIsFirstRule(c, CheckedName(q), inp, allowed, d);
  }

  /** With the policies themselves: whenever the deciding policy is an ALLOW policy, no
      blocklist, feed or detector keeps a blocklisted name from being forwarded. */
  lemma AllowWinnerIsForwarded(c: Config, q: Question, client: string, inp: Inputs, cached: Recency, d: Decision,
                               sys: Platform, ps: seq<Policy>, now: Instant, w: nat)
    requires IsListed(inp) && w < |ps| && IsAllowPolicy(ps[w])
    requires Decides(sys, ps, Normalize(CheckedName(q)), sys.parseClient(client), now, Some(w))
    ensures var allowed := ExplicitlyAllowed(sys, ps, Normalize(CheckedName(q)), sys.parseClient(client), now);
            OutcomeOf(c, q, client, inp, cached, allowed, d).forwarded
  {
    AllowWinnerIsExplicit(sys, ps, Normalize(CheckedName(q)), sys.parseClient(client), now, Some(w));
    BlocklistedIsForwardedIff(c, q, client, inp, cached, true, d);
  }

  /** Enforcement is on, for real, and the score reaches the threshold. */
  predicate IsThreat(c: Config, t: Threat) {
    c.threatBlockThreshold > 0.0 && !c.threatDryRun && t.suspicious && t.score >= c.threatBlockThreshold
  }

  /** Exactly when a name that is not blocklisted reaches the upstream: no feed, policy or
      detector objects, whichever of them would have been asked first. An ALLOW policy keeps
      the abused-TLD rule away and nothing else. */
  lemma UnlistedIsForwardedIff(c: Config, q: Question, client: string, inp: Inputs, cached: Recency, allowed: bool,
                               d: Decision)
    requires inp.blocklist != Listed(true)
    ensures OutcomeOf(c, q, client, inp, cached, allowed, d).forwarded <==>
            && d.action == ActionAllow && !inp.policyFails
            && !(inp.nrdListed && c.nrdBlock) && !(inp.nodNew && c.nodBlock)
            && !IsThreat(c, inp.threat) && !((inp.threat.suspicious || inp.nodNew) && inp.threat.block)
            && !(d.policyId == "" && IsAbusedTld(c, CheckedName(q)))
            && !(c.safeSearch && CheckedName(q) in c.safeSearchTargets)
  {
    VerdictIsFirstRule(c, CheckedName(q), inp, allowed, d);
  }

  /** Blocked hits are counted for the blocklist and for policy denials alone, and only a
      failing policy engine makes a call unsuccessful. */
  lemma CountedIff(c: Config, q: Question, client: string, inp: Inputs, cached: Recency, allowed: bool, d: Decision)
    ensures var e := OutcomeOf(c, q, client, inp, cached, allowed, d);
            var decided := !IsListed(inp) && !(inp.nrdListed && c.nrdBlock);
            && (e.counted <==> (IsListed(inp) && !allowed) || (decided && !inp.policyFails && d.action == ActionDeny))
            && (e.success <==> !(decided && inp.policyFails)) && (!e.success ==> e.response == ServFail)
  {
    VerdictIsFirstRule(c, CheckedName(q), inp, allowed, d);
  }

  /** With rebind protection an upstream answer holds exactly the upstream's records that are
      no internal address. */
  lemma UpstreamAnswersArePublic(c: Config, q: Question, client: string, inp: Inputs, cached: Recency, allowed: bool,
                                 d: Decision, rr: Record)
    requires c.rebindProtection && OutcomeOf(c, q, client, inp, cached, allowed, d).response.Upstream?
    ensures inp.exchange.Answered?
    ensures rr in OutcomeOf(c, q, client, inp, cached, allowed, d).response.answer <==>
            rr in inp.exchange.msg.answer && !IsInternalAddress(c, rr)
  {
    VerdictIsFirstRule(c, CheckedName(q), inp, allowed, d);
    KeptIffPublic(c, inp.exchange.msg.answer, rr);
  }

  /** The records of an answer that came from an upstream, now or earlier. */
  function Given(r: Response): seq<Record> {
    match r
    case StaleAnswer(answer) => answer
    case Upstream(answer) => answer
    case _ => []
  }

  lemma StampedHoldsInternal(c: Config, answer: seq<Record>, ttl: nat)
    ensures HoldsInternal(c, Stamped(answer, ttl)) <==> HoldsInternal(c, answer)
  {
    var r := Stamped(answer, ttl);
    if rr :| rr in r && IsInternalAddress(c, rr) {
      var k :| 0 <= k < |r| && r[k] == rr;
      assert answer[k] in answer && IsInternalAddress(c, answer[k]);
    }
    if rr :| rr in answer && IsInternalAddress(c, rr) {
      var k :| 0 <= k < |answer| && answer[k] == rr;
      assert r[k] in r && IsInternalAddress(c, r[k]);
    }
  }

  lemma KeptHoldsNoInternal(c: Config, answer: seq<Record>)
    ensures !HoldsInternal(c, KeepPublic(c, answer))
  {
    forall rr | rr in KeepPublic(c, answer)
      ensures !IsInternalAddress(c, rr)
    {
      KeptIffPublic(c, answer, rr);
    }
  }

  /** Main result: with rebind protection a response holds an internal address exactly when a
      forwarded query fails and the cache has an answer with one for it. */
  lemma InternalAddressIff(c: Config, q: Question, client: string, inp: Inputs, cached: Recency, allowed: bool,
                           d: Decision)
    requires c.rebindProtection
    ensures var e := OutcomeOf(c, q, client, inp, cached, allowed, d);
            HoldsInternal(c, Given(e.response)) <==>
            && e.forwarded && !inp.exchange.Answered?
            && Fallback(c, q, inp, cached).Some? && HoldsInternal(c, Fallback(c, q, inp, cached).value.msg.answer)
  {
    VerdictIsFirstRule(c, CheckedName(q), inp, allowed, d);
    if inp.exchange.Answered? {
      KeptHoldsNoInternal(c, inp.exchange.msg.answer);
    } else if Fallback(c, q, inp, cached).Some? {
      StampedHoldsInternal(c, Fallback(c, q, inp, cached).value.msg.answer, STALE_TTL);
    }
  }

  // ----- the journal's invariant -----

  function CountBlocks(records: seq<LogRecord>): nat {
    if |records| == 0 then 0
    else CountBlocks(records[..|records| - 1]) + if records[|records| - 1].action == Block then 1 else 0
  }

  function CountSinkholes(written: seq<Response>): nat {
    if |written| == 0 then 0
    else CountSinkholes(written[..|written| - 1]) + if written[|written| - 1].Sinkhole? then 1 else 0
  }

  function CountRefusals(written: seq<Response>): nat {
    if |written| == 0 then 0
    else CountRefusals(written[..|written| - 1]) + if written[|written| - 1] == Refused then 1 else 0
  }

  /** Every answered query was logged once and measured once, every refused one neither;
      every record logged as a block, and every blocked hit, has its sinkhole. */
  predicate Reconciles(j: Journal) {
    && |j.outcomes| == |j.records| && |j.written| == |j.records| + CountRefusals(j.written)
    && j.blockedHits <= CountBlocks(j.records) <= CountSinkholes(j.written)
    && j.forwards <= |j.records|
  }

  lemma RefusalReconciles(j: Journal)
    requires Reconciles(j)
    ensures Reconciles(j.(written := j.written + [Refused]))
  {
    assert (j.written + [Refused])[..|j.written|] == j.written;
  }

  /** No effect answers with a refusal, and none logs or counts a block without the sinkhole. */
  predicate IsBlockedWithSinkhole(e: Effect) {
    e.response != Refused && (e.counted ==> e.record.action == Block)
        && (e.record.action == Block ==> e.response.Sinkhole?)
  }

  lemma EffectsAreConsistent(c: Config, q: Question, client: string, inp: Inputs, cached: Recency, v: Verdict)
    ensures IsBlockedWithSinkhole(EffectOf(c, q, client, inp, cached, v))
  {
  }

  lemma EffectReconciles(c: Config, q: Question, inp: Inputs, j: Journal, e: Effect)
    requires Reconciles(j) && IsBlockedWithSinkhole(e)
    ensures Reconciles(Returned(Done(c, q, inp, j, e), e.success))
  {
    assert (j.written + [e.response])[..|j.written|] == j.written;
    assert (j.records + [e.record])[..|j.records|] == j.records;
  }

  lemma AfterReconciles(c: Config, j: Journal, s: Step)
    requires Reconciles(j)
    ensures Reconciles(After(c, j, s))
  {
    if IsAnswered(s) {
      var e := EffectOfStep(c, j.cached, s);
      EffectsAreConsistent(c, s.q.value, s.client, s.inp, j.cached,
                           First(Precedence(c, CheckedName(s.q.value), s.inp, s.allowed, s.d)));
      EffectReconciles(c, s.q.value, s.inp, j, e);
    } else if s.q.Some? {
      RefusalReconciles(j);
    }
  }
}
