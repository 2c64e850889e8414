/** Runs of queries through the pipeline: which calls fill the cache, and what the stale
    answers of later calls are.
 */
module PipelineRuns {
  import opened AnswerCache
  import opened Dns
  import opened Names
  import opened Options
  import opened PipelineSpec
  import opened PolicyTypes

  function Played(c: Config, steps: seq<Step>): Journal {
    if |steps| == 0 then NOTHING else After(c, Played(c, steps[..|steps| - 1]), steps[|steps| - 1])
  }

  predicate IsForwarded(c: Config, s: Step) {
    IsAnswered(s) && EffectOfStep(c, [], s).forwarded
  }

  /** The calls a run makes to the cache. */
  function CallsOf(c: Config, steps: seq<Step>): seq<Op> {
    if |steps| == 0 then []
    else
      var s := steps[|steps| - 1];
      CallsOf(c, steps[..|steps| - 1]) + CallOf(c, s)
  }

  function CallOf(c: Config, s: Step): seq<Op> {
    if IsForwarded(c, s) && CacheCall(c, s.q.value, s.inp).Some? then [CacheCall(c, s.q.value, s.inp).value] else []
  }

  /** Whether a call is forwarded does not depend on the cache. */
  lemma ForwardedAnyway(c: Config, cached: Recency, s: Step)
    requires IsAnswered(s)
    ensures EffectOfStep(c, cached, s).forwarded == IsForwarded(c, s)
  {
  }

  /** After a run the cache is in the state its calls leave it in. */
  lemma {:induction false} CacheIsRunOfCalls(c: Config, steps: seq<Step>)
    ensures Played(c, steps).cached == Run(c.cacheMax, c.staleFor, CallsOf(c, steps))
  {
    if |steps| > 0 {
      var init, s := steps[..|steps| - 1], steps[|steps| - 1];
      CacheIsRunOfCalls(c, init);
      CacheAfterCall(c, Played(c, init), s);
      var calls, call := CallsOf(c, init), CallOf(c, s);
      assert call == [] ==> calls + call == calls;
      assert call != [] ==> (calls + call)[..|calls|] == calls && call == [call[0]];
    }
  }

  lemma CacheAfterCall(c: Config, j: Journal, s: Step)
    ensures After(c, j, s).cached ==
            if CallOf(c, s) == [] then j.cached else Apply(c.cacheMax, c.staleFor, j.cached, CallOf(c, s)[0])
  {
    if IsAnswered(s) {
      ForwardedAnyway(c, j.cached, s);
    }
  }

  /** The call is forwarded and brings an answer the cache takes, under the key. */
  predicate Stores(c: Config, s: Step, key: string) {
    && IsForwarded(c, s) && CacheKey(s.q.value) == key
    && c.serveStale && s.inp.exchange.Answered? && s.inp.exchange.success && MinTtl(s.inp.exchange.msg.answer) > 0
  }

  /** The latest of a list of flags that is set; -1 if none is. */
  function LatestOf(flags: seq<bool>): (k: int)
    ensures -1 <= k < |flags| && (k >= 0 ==> flags[k])
    ensures forall i :: k < i < |flags| ==> !flags[i]
  {
    if |flags| == 0 then -1
    else if flags[|flags| - 1] then |flags| - 1
    else LatestOf(flags[..|flags| - 1])
  }

  function StoreFlags(c: Config, steps: seq<Step>, key: string): seq<bool> {
    seq(|steps|, i requires 0 <= i < |steps| => Stores(c, steps[i], key))
  }

  /** The latest call that stores an answer under the key; -1 if none does. */
  function LatestStore(c: Config, steps: seq<Step>, key: string): (k: int)
    ensures -1 <= k < |steps| && (k >= 0 ==> Stores(c, steps[k], key))
    ensures forall i :: k < i < |steps| ==> !StoreFlags(c, steps, key)[i]
  {
    LatestOf(StoreFlags(c, steps, key))
  }

  lemma LatestStoreStep(c: Config, steps: seq<Step>, key: string)
    requires |steps| > 0
    ensures LatestStore(c, steps, key) ==
            if Stores(c, steps[|steps| - 1], key) then |steps| - 1 else LatestStore(c, steps[..|steps| - 1], key)
  {
    assert StoreFlags(c, steps, key)[..|steps| - 1] == StoreFlags(c, steps[..|steps| - 1], key);
  }

  /** The latest effective Put for a key is the one of the latest call that stores under it. */
  lemma {:induction false} LatestPutIsLatestStore(c: Config, steps: seq<Step>, key: string)
    ensures var ops, k := CallsOf(c, steps), LatestStore(c, steps, key);
            if k < 0 then LastPut(ops, key) < 0
            else
              && LastPut(ops, key) >= 0
              && ops[LastPut(ops, key)] == PutOp(key, steps[k].inp.exchange.msg, steps[k].inp.now)
  {
    if |steps| > 0 {
      var init, s := steps[..|steps| - 1], steps[|steps| - 1];
      LatestPutIsLatestStore(c, init, key);
      LatestStoreStep(c, steps, key);
      OneMoreCall(c, CallsOf(c, init), s, key);
    }
  }

  lemma OneMoreCall(c: Config, ops: seq<Op>, s: Step, key: string)
    ensures var more := ops + CallOf(c, s);
            if Stores(c, s, key) then
              LastPut(more, key) == |ops| && more[|ops|] == PutOp(key, s.inp.exchange.msg, s.inp.now)
            else LastPut(more, key) == LastPut(ops, key)
  {
    var more := ops + CallOf(c, s);
    assert more[..|ops|] == ops;
    if CallOf(c, s) == [] {
      assert more == ops;
    }
  }

  /** Main result: over every run, what the cache has for a failed exchange is the answer of
      the latest call that stored one under the question's key, no later than its smallest
      TTL plus the retention time allows. */
  lemma FallbackIsLatestStore(c: Config, steps: seq<Step>, q: Question, inp: Inputs)
    requires c.cacheMax > 0
    ensures var hit, k := Fallback(c, q, inp, Played(c, steps).cached), LatestStore(c, steps, CacheKey(q));
            hit.Some? ==>
              && k >= 0 && hit.value.msg == steps[k].inp.exchange.msg
              && inp.now <= ExpiresAt(MinTtl(steps[k].inp.exchange.msg.answer), steps[k].inp.now) + c.staleFor
  {
    var key, ops := CacheKey(q), CallsOf(c, steps);
    CacheIsRunOfCalls(c, steps);
    if Fallback(c, q, inp, Played(c, steps).cached).Some? {
      StaleHitIsLatestPut(c.cacheMax, c.staleFor, ops, key, inp.now);
      LatestPutIsLatestStore(c, steps, key);
    }
  }

  /** So over every run, with rebind protection, a stale reply holds an internal address exactly
      when the latest exchange stored under its key does, and nothing else ever holds one. */
  lemma CleanRunIff(c: Config, steps: seq<Step>, s: Step)
    requires c.rebindProtection && c.cacheMax > 0 && IsAnswered(s)
    ensures var cached, k := Played(c, steps).cached, LatestStore(c, steps, CacheKey(s.q.value));
            var r := EffectOfStep(c, cached, s).response;
            && (r.StaleAnswer? ==> k >= 0)
            && (HoldsInternal(c, Given(r)) <==>
                  r.StaleAnswer? && k >= 0 && HoldsInternal(c, steps[k].inp.exchange.msg.answer))
  {
    var q, cached := s.q.value, Played(c, steps).cached;
    InternalAddressIff(c, q, s.client, s.inp, cached, s.allowed, s.d);
    FallbackIsLatestStore(c, steps, q, s.inp);
    StaleMeansFallback(c, q, s.client, s.inp, cached, s.allowed, s.d);
  }

  /** That happens: in every run, an answer that rebind protection sank and the cache took is
      the answer of the next call for the key, if its exchange fails while the cache retains
      it; and it holds an internal address. */
  lemma SunkAnswerComesBackStale(c: Config, steps: seq<Step>, s: Step, later: Step)
    requires c.cacheMax > 0 && IsAnswered(s) && RebindEmpties(c, s.q.value, s.inp) && Stores(c, s, CacheKey(s.q.value))
    requires IsAnswered(later) && CacheKey(later.q.value) == CacheKey(s.q.value)
    requires IsForwarded(c, later) && !later.inp.exchange.Answered?
    requires later.inp.now <= ExpiresAt(MinTtl(s.inp.exchange.msg.answer), s.inp.now) + c.staleFor
    ensures EffectOfStep(c, Played(c, steps).cached, s).response == SinkholeFor(s.q.value, s.inp)
    ensures var cached := Played(c, steps + [s]).cached;
            EffectOfStep(c, cached, later).response == StaleAnswer(Stamped(s.inp.exchange.msg.answer, STALE_TTL))
    ensures HoldsInternal(c, s.inp.exchange.msg.answer)
  {
    var cached, answer := Played(c, steps).cached, s.inp.exchange.msg.answer;
    SinkIsAnswered(c, cached, s);
    assert (steps + [s])[..|steps|] == steps;
    StoreIsFound(c, Played(c, steps), s, later.q.value, later.inp);
    FailureIsAnsweredFrom(c, After(c, Played(c, steps), s).cached, later);
    KeptIffPublic(c, answer, answer[0]);
    assert answer[0] in answer;
  }

  lemma SinkIsAnswered(c: Config, cached: Recency, s: Step)
    requires IsForwarded(c, s) && RebindEmpties(c, s.q.value, s.inp)
    ensures EffectOfStep(c, cached, s).response == SinkholeFor(s.q.value, s.inp)
  {
  }

  lemma FailureIsAnsweredFrom(c: Config, cached: Recency, s: Step)
    requires IsForwarded(c, s) && !s.inp.exchange.Answered?
    requires Fallback(c, s.q.value, s.inp, cached).Some?
    ensures EffectOfStep(c, cached, s).response ==
            StaleAnswer(Stamped(Fallback(c, s.q.value, s.inp, cached).value.msg.answer, STALE_TTL))
  {
  }

  lemma StoreIsFound(c: Config, j: Journal, s: Step, q: Question, inp: Inputs)
    requires c.cacheMax > 0 && Stores(c, s, CacheKey(q))
    requires inp.now <= ExpiresAt(MinTtl(s.inp.exchange.msg.answer), s.inp.now) + c.staleFor
    ensures var hit := Fallback(c, q, inp, After(c, j, s).cached); hit.Some? && hit.value.msg == s.inp.exchange.msg
  {
    CacheAfterCall(c, j, s);
    PutIsFound(c.cacheMax, j.cached, CacheKey(q), s.inp.exchange.msg, s.inp.now);
  }

  lemma PutIsFound(max: nat, items: Recency, key: string, msg: Message, now: int)
    requires max > 0 && MinTtl(msg.answer) > 0
    ensures Lookup(AfterPut(max, items, key, msg, now), key) == Some(Item(key, msg, ExpiresAt(MinTtl(msg.answer), now)))
  {
  }

  lemma StaleMeansFallback(c: Config, q: Question, client: string, inp: Inputs, cached: Recency, allowed: bool,
                           d: Decision)
    ensures var e := OutcomeOf(c, q, client, inp, cached, allowed, d);
            e.response.StaleAnswer? <==> e.forwarded && !inp.exchange.Answered? && Fallback(c, q, inp, cached).Some?
  {
    VerdictIsFirstRule(c, CheckedName(q), inp, allowed, d);
  }
}
