/** The query pipeline: one call decides, answers and logs one DNS query. Policies are decided
    by the policy engine; the answer cache is its recency sequence, which the class
    `AnswerCache.Cache` implements. The specification of the call is in `PipelineSpec`.
 */
module Pipeline {
  import opened AnswerCache
  import opened Dns
  import opened Names
  import opened Options
  import opened PipelineRuns
  import opened PipelineSpec
  import PolicyEngine
  import opened PolicySpec
  import opened PolicyTypes

  datatype ForwardOutcome = ForwardOutcome(fastFlux: bool, geoMatched: bool, geoBlocked: bool, geoReason: string)

  const NO_OUTCOME := ForwardOutcome(false, false, false, "")

  class Engine {
    const config: Config
    const policies: PolicyEngine.Engine
    var out: Journal
    ghost var steps: seq<Step>            // the calls so far

    ghost predicate Valid()
      reads this, policies
    {
      policies.Valid() && out == Played(config, steps) && Reconciles(out)
    }

    constructor (config: Config, policies: PolicyEngine.Engine)
      requires policies.Valid()
      ensures Valid() && this.config == config && this.policies == policies && out == NOTHING && steps == []
    {
      this.config, this.policies, out, steps := config, policies, NOTHING, [];
    }

    method WriteMsg(r: Response)
      modifies this`out
      ensures out == old(out).(written := old(out).written + [r])
    {
      out := out.(written := out.written + [r]);
    }

    method RespondBlocked(q: Question, inp: Inputs)
      modifies this`out
      ensures out == old(out).(written := old(out).written + [SinkholeFor(q, inp)])
    {
      WriteMsg(Sinkhole(q.qtype == TYPE_AAAA, inp.nameParses));
    }

    method RespondRedirect(inp: Inputs, ip: string)
      modifies this`out
      ensures out == old(out).(written := old(out).written + [if inp.redirectParses then RedirectTo(ip) else ServFail])
    {
      if !inp.redirectParses {
        WriteMsg(ServFail);
        return;
      }
      WriteMsg(RedirectTo(ip));
    }

    method RespondSafeSearch(inp: Inputs, target: string)
      modifies this`out
      ensures var r := if inp.nameParses then SafeSearchTo(target) else ServFail;
              out == old(out).(written := old(out).written + [r])
    {
      if !inp.nameParses {
        WriteMsg(ServFail);
        return;
      }
      WriteMsg(SafeSearchTo(target));
    }

    method LogQuery(domain: string, client: string, action: LogAction, reason: string, t: Threat)
      modifies this`out
      ensures out == old(out).(records := old(out).records + [LogRecord(domain, client, action, reason, t)])
    {
      out := out.(records := out.records + [LogRecord(domain, client, action, reason, t)]);
    }

    method RecordBlocked()
      modifies this`out
      ensures out == old(out).(blockedHits := old(out).blockedHits + 1)
    {
      out := out.(blockedHits := out.blockedHits + 1);
    }

    /** Filters an upstream answer and writes it or the sinkhole. */
    method WriteFiltered(q: Question, inp: Inputs, flux: bool) returns (o: ForwardOutcome)
      requires inp.exchange.Answered?
      modifies this`out
      ensures out == old(out).(written := old(out).written + [AnswerFor(config, q, inp, [])])
      ensures o.fastFlux == flux
      ensures o.geoMatched == GeoMatches(config, q, inp) && o.geoBlocked == (o.geoMatched && inp.geo.block)
      ensures o.geoMatched ==> o.geoReason == inp.geo.reason
    {
      o := NO_OUTCOME.(fastFlux := flux);
      var answer := inp.exchange.msg.answer;
      if config.rebindProtection {
        var kept, dropped := FilterRebind(config, answer);
        KeptIffPublic(config, answer, Record(OtherData(""), 0));
        if dropped > 0 {
          answer := kept;
          if |kept| == 0 && (q.qtype == TYPE_A || q.qtype == TYPE_AAAA) {
            RespondBlocked(q, inp);
            return;
          }
        }
      }
      if config.geo && inp.geo.matched {
        o := o.(geoMatched := true, geoReason := inp.geo.reason);
        if inp.geo.block {
          o := o.(geoBlocked := true);
          RespondBlocked(q, inp);
          return;
        }
      }
      WriteMsg(Upstream(answer));
    }

    /** The exchange failed: answer from the cache if that is allowed and it can. */
    method AnswerStale(q: Question, inp: Inputs)
      requires !inp.exchange.Answered?
      modifies this`out
      ensures out == old(out).(written := old(out).written + [AnswerFor(config, q, inp, old(out).cached)],
                               cached := CacheAfter(config, q, inp, old(out).cached))
    {
      if config.serveStale {
        var key := CacheKey(q);
        var hit := StaleHit(config.staleFor, out.cached, key, inp.now);
        out := out.(cached := AfterGetStale(config.staleFor, out.cached, key, inp.now));
        if hit.Some? {
          WriteMsg(StaleAnswer(Stamped(hit.value.msg.answer, STALE_TTL)));
          return;
        }
      }
      WriteMsg(ServFail);
    }

    /** Forwards once and writes once. */
    method ForwardUpstream(q: Question, inp: Inputs) returns (o: ForwardOutcome)
      modifies this`out
      ensures out == old(out).(written := old(out).written + [AnswerFor(config, q, inp, old(out).cached)],
                               forwards := old(out).forwards + 1,
                               cached := CacheAfter(config, q, inp, old(out).cached))
      ensures o.fastFlux == FluxFlags(config, inp)
      ensures o.geoMatched == GeoMatches(config, q, inp) && o.geoBlocked == (o.geoMatched && inp.geo.block)
      ensures o.geoMatched ==> o.geoReason == inp.geo.reason
    {
      out := out.(forwards := out.forwards + 1);
      if !inp.exchange.Answered? {
        AnswerStale(q, inp);
        return NO_OUTCOME;
      }
      if config.serveStale && inp.exchange.success {
        out := out.(cached := AfterPut(config.cacheMax, out.cached, CacheKey(q), inp.exchange.msg, inp.now));
      }
      var answer := inp.exchange.msg.answer;
      var flux := config.fastFlux && (exists k :: 0 <= k < |answer| && answer[k].data.Address?) && inp.fastFluxTrips;
      o := WriteFiltered(q, inp, flux);
    }

    ghost predicate Allowed(q: Question, client: string, now: Instant)
      reads policies
    {
      ExplicitlyAllowed(policies.sys, policies.loaded, Normalize(CheckedName(q)), policies.sys.parseClient(client), now)
    }

    /** A blocklisted name: an explicit ALLOW policy overrides the blocklist. */
    method HandleListed(q: Question, client: string, inp: Inputs) returns (success: bool)
      requires policies.Valid()
      modifies this`out
      ensures var v := if old(Allowed(q, client, inp.now)) then Override else Blocked("blocklist", inp.threat, true);
              var e := EffectOf(config, q, client, inp, old(out).cached, v);
              out == Done(config, q, inp, old(out), e) && success == e.success
    {
      var allowed := policies.IsExplicitlyAllowed(CheckedName(q), client, inp.now);
      SettleListed(q, client, inp, allowed);
      success := true;
    }

    method SettleListed(q: Question, client: string, inp: Inputs, allowed: bool)
      modifies this`out
      ensures var v := if allowed then Override else Blocked("blocklist", inp.threat, true);
              out == Done(config, q, inp, old(out), EffectOf(config, q, client, inp, old(out).cached, v))
    {
      var domain := CheckedName(q);
      if allowed {
        LogQuery(domain, client, Allow, "allow-override", inp.threat);
        var _ := ForwardUpstream(q, inp);
        return;
      }
      LogQuery(domain, client, Block, "blocklist", inp.threat);
      RecordBlocked();
      RespondBlocked(q, inp);
    }

    /** What the detectors made of a forwarded query, those before it and those that saw the
        answer. */
    method Label(q: Question, inp: Inputs, o: ForwardOutcome)
      returns (action: LogAction, reason: string, threat: Threat)
      requires o.fastFlux == FluxFlags(config, inp)
      requires o.geoMatched == GeoMatches(config, q, inp) && o.geoBlocked == (o.geoMatched && inp.geo.block)
      requires o.geoMatched ==> o.geoReason == inp.geo.reason
      ensures forall client ::
                LogRecord(CheckedName(q), client, action, reason, threat) == FinalRecord(config, q, client, inp)
    {
      threat := WithNod(inp.threat, inp.nodNew);
      action, reason := Allow, "";
      if threat.suspicious {
        action, reason := Flagged, threat.detection;
      } else if inp.nrdListed {
        threat := Marked(threat, "nrd", NRD_REASON);
        action, reason := Flagged, threat.detection;
      }
      if o.fastFlux {
        action := Flagged;
        if !threat.suspicious {
          threat := Marked(threat, "fast-flux", FLUX_REASON);
        }
        reason := threat.detection;
      }
      if o.geoMatched {
        threat := EnrichThreat(threat, o.geoReason);
        reason := threat.detection;
        action := if o.geoBlocked then Block else Flagged;
      }
    }

    /** The end of the allow path: forward, then log what the detectors made of it. */
    method ForwardAndLog(q: Question, client: string, inp: Inputs)
      modifies this`out
      ensures out == Done(config, q, inp, old(out), EffectOf(config, q, client, inp, old(out).cached, Forwarded))
    {
      var outcome := ForwardUpstream(q, inp);
      var action, reason, threat := Label(q, inp, outcome);
      assert LogRecord(CheckedName(q), client, action, reason, threat) == FinalRecord(config, q, client, inp);
      LogQuery(CheckedName(q), client, action, reason, threat);
    }

    method BlockWith(q: Question, client: string, inp: Inputs, reason: string, threat: Threat)
      modifies this`out
      ensures out == Done(config, q, inp, old(out),
                EffectOf(config, q, client, inp, old(out).cached, Blocked(reason, threat, false)))
    {
      LogQuery(CheckedName(q), client, Block, reason, threat);
      RespondBlocked(q, inp);
    }

    /** The allow path: later detectors may still block, answer or flag the query. */
    method HandleAllowed(q: Question, client: string, inp: Inputs, d: Decision)
      modifies this`out
      ensures out == Done(config, q, inp, old(out), EffectOf(config, q, client, inp, old(out).cached,
                                                             AllowPathVerdict(config, CheckedName(q), inp, d)))
    {
      var domain := CheckedName(q);
      if ThreatDecision(config, inp.threat) == BlockThreat {
        BlockWith(q, client, inp, "threat:" + inp.threat.detection, inp.threat);
        return;
      }
      if d.policyId == "" && IsAbusedTld(config, domain) {
        BlockWith(q, client, inp, "abused-tld", inp.threat);
        return;
      }
      if config.safeSearch && domain in config.safeSearchTargets {
        LogQuery(domain, client, Allow, "", inp.threat);
        RespondSafeSearch(inp, config.safeSearchTargets[domain]);
        return;
      }
      HandleObserved(q, client, inp);
    }

    /** The allow path's last detectors: newly observed domains, and detectors set to block. */
    method HandleObserved(q: Question, client: string, inp: Inputs)
      modifies this`out
      ensures out == Done(config, q, inp, old(out),
                          EffectOf(config, q, client, inp, old(out).cached, DetectorVerdict(config, inp)))
    {
      if inp.nodNew && config.nodBlock {
        BlockWith(q, client, inp, "nod", inp.threat);
        return;
      }
      var threat := WithNod(inp.threat, inp.nodNew);
      if threat.suspicious && threat.block {
        BlockWith(q, client, inp, threat.detection, threat);
        return;
      }
      ForwardAndLog(q, client, inp);
    }

    /** A name that is not blocklisted, under the policies' decision. */
    method HandleDecided(q: Question, client: string, inp: Inputs, ghost allowed: bool, d: Decision)
      returns (success: bool)
      requires !IsListed(inp) && !(inp.nrdListed && config.nrdBlock)
      modifies this`out
      ensures var e := EffectOf(config, q, client, inp, old(out).cached,
                                VerdictOf(config, CheckedName(q), inp, allowed, d));
              out == Done(config, q, inp, old(out), e) && success == e.success
    {
      var domain := CheckedName(q);
      if inp.policyFails {
        LogQuery(domain, client, Error, "", inp.threat);
        WriteMsg(ServFail);
        return false;
      }
      match d.action {
        case ActionDeny =>
          LogQuery(domain, client, Block, d.policyId, inp.threat);
          RecordBlocked();
          RespondBlocked(q, inp);
        case ActionRedirect =>
          LogQuery(domain, client, Redirect, "redirect:" + d.policyId, inp.threat);
          RespondRedirect(inp, d.redirectIp);
        case ActionAllow =>
          HandleAllowed(q, client, inp, d);
      }
      success := true;
    }

    /** d is a decision of the loaded policies on the query. */
    ghost predicate IsDecision(q: Question, client: string, now: Instant, d: Decision)
      reads policies
    {
      var name, ip := Normalize(CheckedName(q)), policies.sys.parseClient(client);
      exists w: Option<nat> ::
        && Decides(policies.sys, policies.loaded, name, ip, now, w)
        && (w.Some? ==> w.value < |policies.loaded|) && Says(policies.loaded, w, d)
    }

    /** Blocklist, feed and policies, in that order. */
    method Answer(q: Question, client: string, inp: Inputs) returns (ghost d: Decision, success: bool)
      requires policies.Valid()
      modifies this`out
      ensures var e := EffectOf(config, q, client, inp, old(out).cached,
                                VerdictOf(config, CheckedName(q), inp, old(Allowed(q, client, inp.now)), d));
              out == Done(config, q, inp, old(out), e) && success == e.success
      ensures IsListed(inp) || (inp.nrdListed && config.nrdBlock) || old(IsDecision(q, client, inp.now, d))
    {
      d := Decision(ActionAllow, "", "", "");
      if inp.blocklist.Listed? && inp.blocklist.blocked {
        success := HandleListed(q, client, inp);
        return;
      }
      if inp.nrdListed && config.nrdBlock {
        BlockWith(q, client, inp, "nrd", inp.threat);
        success := true;
        return;
      }
      var decision := Decide(q, client, inp.now);
      d := decision;
      success := HandleDecided(q, client, inp, old(Allowed(q, client, inp.now)), decision);
    }

    method Decide(q: Question, client: string, now: Instant) returns (d: Decision)
      requires policies.Valid()
      ensures old(IsDecision(q, client, now, d))
    {
      d := policies.Evaluate(CheckedName(q), client, now);
    }

    /** The whole call. q is the first question of the message, if there is one. The policies
        are asked for a decision unless the blocklist or the feed decides. */
    method ProcessDNSQuery(q: Option<Question>, client: string, inp: Inputs) returns (ghost d: Decision)
      requires Valid()
      modifies this
      ensures Valid()
      ensures var allowed := q.Some? && old(Allowed(q.value, client, inp.now));
              && out == After(config, old(out), Step(q, client, inp, allowed, d))
              && steps == old(steps) + [Step(q, client, inp, allowed, d)]
      ensures q.Some? && PassesGates(inp) ==>
                IsListed(inp) || (inp.nrdListed && config.nrdBlock) || old(IsDecision(q.value, client, inp.now, d))
    {
      d := Decision(ActionAllow, "", "", "");
      ghost var was, allowed := out, q.Some? && Allowed(q.value, client, inp.now);
      if q.Some? {
        if !inp.accepting || !inp.rateAllows {
          WriteMsg(Refused);
        } else {
          d := AnswerAndMeasure(q.value, client, inp);
        }
      }
      ghost var step := Step(q, client, inp, allowed, d);
      AfterReconciles(config, was, step);
      assert (steps + [step])[..|steps|] == steps;
      steps := steps + [step];
    }

    /** The outcome is recorded as the call returns. */
    method AnswerAndMeasure(q: Question, client: string, inp: Inputs) returns (ghost d: Decision)
      requires policies.Valid() && PassesGates(inp)
      modifies this`out
      ensures out == After(config, old(out), Step(Some(q), client, inp, old(Allowed(q, client, inp.now)), d))
      ensures IsListed(inp) || (inp.nrdListed && config.nrdBlock) || old(IsDecision(q, client, inp.now, d))
    {
      ghost var was, allowed := out, Allowed(q, client, inp.now);
      var success;
      d, success := Answer(q, client, inp);
      AfterAnswered(config, was, Step(Some(q), client, inp, allowed, d));
      out := out.(outcomes := out.outcomes + [success]);
    }
  }
}
