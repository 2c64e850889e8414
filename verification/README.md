# HydraDNS filtering core: model and proofs

HydraDNS is a filtering DNS dataplane. Its I/O is thin; what it decides is decided by a set of
stateful algorithms: a policy list compiled into an index, bounded time-windowed structures that
throw data away, two protocols between concurrent parties, a few loops with a mathematical
meaning, and the query pipeline that ties them together. This project models those algorithms in
the form the code gives them (objects with fields are classes, loops are loops, the two protocols
are state machines over their atomic steps) and proves what they are for.

`dafny verify dfyconfig.toml` checks everything. There is one module per file (`Options` and `Dns` hold
the optional value and the message types that several share):

| module | models | main results |
|---|---|---|
| `Names`, `Nrd` | domain strings, the label walk, the newly-registered-domain set | the split/join walk looks up exactly the string suffixes with two labels or more |
| `PolicyTypes`, `Schedule`, `PolicySpec`, `PolicyEngine` | `internal/policy` | the compiled index answers as the plain policy list, for evaluation and for the explicit-allow question |
| `EditDistance`, `Typosquat` | the typosquat check | the rolling three-row loop computes the minimum cost of an alignment; how far the triangle inequality can fail |
| `AnswerCache`, `StaleReply` | the serve-stale LRU cache | the list and map refine a recency sequence; over every run an entry is the latest one stored, and only the least recently used or a too-old one leaves |
| `QueueProtocol` | query-log writer and event exporter | conservation and exactly-once in every interleaving; the drain after Close terminates with nothing left |
| `FastFlux` | fast-flux tracker | pruning never changes an answer |
| `RateLimit` | per-client rate limiter | eviction is unobservable; at most `2 * perSec - 1` queries in any second, and that bound is reached; denied only when `perSec` were allowed within the last second |
| `Latency`, `QueryMetrics`, `QueryCounts` | latency buckets, percentile estimate, metrics ring | which events an aggregate counts and what it counts of them, and how the estimate brackets the true quantile |
| `TcpPool` | the pool's TCP slots | exclusive slots in every interleaving; clean releases use the pool up |
| `PipelineSpec`, `Pipeline`, `PipelineRuns`, `PipelineLaws` | `ProcessDNSQuery` and `forwardUpstream` | one answer and one log record per query, decided by a precedence table; what each record says about the answer; over every run, where a stale answer comes from and when it holds an internal address; which name is checked, and what a policy, a feed or a detector makes of it |
| `Alerter` | infected-device alerter | an alert fires exactly when the client's whole history says so |
| `HighAvailability` | active-standby hysteresis | liveness is the kind of the most recently completed streak of the whole trace |
| `Decimal`, `Syslog` | the RFC 5424 line | a reader of the grammar gets back every value |

## How the statements are built

*A specification beside every algorithm.* Policies are specified over the list itself
(`PolicySpec.Decides`), the edit distance over alignments, the cache over a plain recency sequence
and then over all runs of operations, the detectors over the whole history of a client or domain
kept in ghost state, the ring over every event ever recorded, the pipeline over a table of rules in
order of precedence, each stated without regard to the others. The methods are proved to meet the
specification; the lemmas are about the specification. Beside each step function that code and
specification share stands a law in the terms of the inputs alone: the action a policy's text names,
the name a question spells, the queries that fill a second, the events an aggregate counts, the last
sighting of an address, the answer stored last, the hits since the last alert, the fields of a line.

*Time* is a parameter of every call, and calls on one object come one after the other. Where the
code needs a clock that never runs backwards, the object remembers the time of the latest call and
the next one must not be earlier.

*Libraries and I/O* are parameters: functions for regular expressions, the Bloom filter, address
and network parsing and the timezone database (`PolicyTypes.Platform`; of the Bloom filter only
that added strings test positive is used), tables for confusables and public suffixes
(`Typosquat.Tables`), and the answers of detectors, blocklist and upstream (`PipelineSpec.Inputs`).

## Where the code and its comments part

The model follows the code. These are proved, not only observed:

- Cleanly released TCP slots stay in use. `releaseTCPConn(idx, false)` changes nothing
  (internal/dnsengine/connections.go:196-212), although its comment says the connection goes back to
  the pool. A release frees its slot if and only if there was an error (`TcpPool.StrandedAfter`). So no
  connection is ever handed out twice, an open pool sees at most `maxConns` clean releases in its life,
  and after that many it is exhausted for good (`NoConnectionIsReused`, `CleanReleasesExhaustThePool`,
  `SequentialUseExhausts`).
- A protected brand can be flagged although the comment at internal/threat/detector.go:395-396 says the exact
  brand never is: `Typosquat.ExactBrandIsFlaggedIff` says exactly when, `ExactBrandCanBeFlagged`
  gives the watchlists.
- A reply from a stale entry gives every record the stale TTL, also the records whose own TTL was
  smaller; the comment at internal/dnsengine/cache.go:34-35 speaks of clamping (`StaleReply.Reply`).

## Properties that fail, and exactly when

- The rate limiter's windows start with a query, so a second can hold more than `perSec` allowed
  queries: up to `2 * perSec - 1`, and never more (`RateLimit.AtMostTwiceLessOne`, `BoundIsAttained`).
- A sinkhole answer is not always logged as a block: a rebind sinkhole never is, and a GeoIP
  sinkhole is not when an ALLOW policy had overridden the blocklist. `PipelineSpec.SinkholeIffBlocked`
  is an equivalence.
- Rebind protection does not reach stale answers, because the cache is filled before the filters. A
  response holds an internal address if and only if a forwarded query fails and the cache has an
  answer with one for it (`PipelineSpec.InternalAddressIff`); over every run that answer is the one of
  the latest call that stored under the key, so the response is clean exactly when that call's
  exchange was (`PipelineRuns.CleanRunIff`). `SunkAnswerComesBackStale` gives the runs in which it happens.
- Policies that share an ID share their client scopes: a policy reaches a client outside its own
  scope if and only if a scoped policy of the same ID has that client in its own
  (`PolicySpec.SharedIdSharesScope`, with `SharedIdWitness`); so with distinct IDs each keeps its own
  (`UniqueIdsKeepScopesApart`). The `Enabled` field is never consulted.
- Normalising a name twice is the same as normalising it once exactly when the trimmed name does not
  end in a dot after a dot or a space (`Names.NormalizeIsIdempotentIff`, with
  `NormalizeIsNotIdempotent`); the code normalises each side once.
- The edit distance is not a metric (`EditDistance.OsaTriangleFails`). The triangle inequality fails by
  at most the number of swaps on the way (`TriangleUpToSwaps`), holds when neither step reverses a
  pair of neighbours (`TriangleWithoutReversedPairs`), and never fails by more than a factor of two
  (`TriangleWithinTwice`).
- A syslog line is read back as it was written if and only if no header field holds a space
  (`Syslog.LineRoundTrip`).

## Model

| member | source | states |
|---|---|---|
| Names.JoinOfSplit | internal/policy/engine.go:68-70 | joining the labels of any name on dots gives the name back |
| Names.SplitConcat | internal/policy/engine.go:68-70 | the labels of two names joined by a dot are those of the one followed by those of the other |
| Names.SpelledName | internal/dnsengine/engine.go:516-519 | lower-casing and dropping one dot gives a name exactly when the text spells it, which has no capitals, in any case and with or without the root's dot |
| Names.NormalizeIff | internal/nrd/set.go:64-66 | normalising drops the white space around a text, its case and the root's dot, and nothing else |
| Names.WalkVisitsAncestors | internal/policy/engine.go:68-70 | the names the walk looks up are exactly the name itself and the names it lies under, each with at least two labels: the single last label is never looked up |
| Names.WalkShortens | internal/policy/engine.go:68-70 | the walk goes from longer names to shorter ones, so the first hit is the longest |
| Names.NormalizeIsIdempotentIff | internal/nrd/set.go:64-66 | for every string, normalising twice is the same as once if and only if the trimmed text does not end in a dot after a dot or a space |
| Names.NormalizeIsNotIdempotent | internal/nrd/set.go:64-66 | a witness: "a.." normalises to "a.", which normalises to "a" |
| Nrd.Set.constructor | internal/nrd/set.go:23-31 | the stored set is the set of non-empty normalised entries |
| Nrd.Set.Contains | internal/nrd/set.go:44-61 | true if and only if a stored entry of at least two labels is the normalised name or a parent of it |
| Nrd.IsListed | internal/nrd/set.go:23-61 | from raw feed to answer: listed if and only if some feed entry, normalised once, is the normalised name or a parent of it with at least two labels |
| Schedule.ClockTimesAreRead | internal/policy/schedule.go:45-60 | every pair of digit strings around a colon is read as the minute of the day it names, padded or not, and refused beyond 23 hours or 59 minutes |
| Schedule.DaysByName | internal/policy/schedule.go:14-22 | a key names a day exactly when it is in the day's row of the table of names |
| Schedule.MarkDays | internal/policy/schedule.go:80-91 | the day loop succeeds when no name is unknown, and then marks exactly the named days |
| Schedule.CompileSchedule | internal/policy/schedule.go:66-117 | malformed exactly when the policy has a schedule that is not well formed, none exactly when it has none, otherwise the parsed form says what the text says |
| Schedule.WindowOnTheCircle | internal/policy/schedule.go:133-147 | membership of the half-open stretch of the 24-hour circle is the two comparisons of the code, for windows within a day and across midnight |
| Schedule.ActiveMeansPermitted | internal/policy/schedule.go:123-150 | the stored schedule is active at an instant if and only if the policy's text permits that instant; a malformed schedule permits always |
| PolicySpec.ScopeIsOwnOrNamesakes | internal/policy/snapshot.go:91-95 | a client is in the scope the engine gives a policy exactly when it is in the policy's own or in that of another scoped policy with the same ID |
| PolicySpec.UniqueIdsKeepScopesApart | internal/policy/snapshot.go:91-95 | with distinct IDs the networks kept under a policy's ID are its own |
| PolicySpec.SharedIdSharesScope | internal/policy/snapshot.go:91-95 | a policy reaches a client outside its own scope if and only if another scoped policy of the same ID has that client in its own |
| PolicySpec.SharedIdWitness | internal/policy/scope.go:67-71 | two policies named alike, each for one host: the first reaches the other's host |
| PolicySpec.WildcardCoversIff | internal/policy/engine.go:112-117 | a policy covers a name by wildcard exactly when one of its normalised entries is "*." and a base that the name is or ends in after a dot |
| PolicySpec.LexLessIsDictionaryOrder | internal/policy/engine.go:163-165 | the order of IDs is the dictionary order: the first difference decides, a proper prefix comes first |
| PolicySpec.BestHasTopPriority | internal/policy/engine.go:155-169 | the best of the rivals has the highest priority of all, and no rival of that priority has an ID before it |
| PolicySpec.BestIsUnique | internal/policy/engine.go:155-169 | priority, then smallest ID, leaves one best policy when IDs are distinct |
| PolicySpec.DecidesIsFunctional | internal/policy/engine.go:60-104 | the list meaning (longest named ancestor, then priority, then ID; else dynamic rules; else default) determines the deciding policy |
| PolicySpec.UpperIgnoresCase | internal/policy/engine.go:238 | upper-casing gives a word in capitals exactly when the text is that word up to case, character by character |
| PolicySpec.PolicyDecisionSays | internal/policy/engine.go:233-254 | a policy denies exactly when its action is "BLOCK" in any case, redirects exactly when it is "REDIRECT", allows otherwise, and gives its own ID, category and address |
| PolicySpec.DecisionSays | internal/policy/engine.go:92-104 | the decision is what the deciding policy's own fields say, or the default allow under no ID |
| PolicySpec.AllowWinnerIsExplicit | internal/policy/engine.go:184-217 | whenever the deciding policy is an ALLOW policy the name is explicitly allowed |
| PolicySpec.MorePoliciesKeepExplicitAllow | internal/policy/engine.go:169-183 | no further policy, of whatever priority, takes an explicit allow back |
| PolicyEngine.CompileSchedules | internal/policy/snapshot.go:48-58 | every policy of the caller's list gets its parsed schedule written in place, and nothing else of it changes |
| PolicyEngine.IndexDomains | internal/policy/snapshot.go:63-74 | a policy's entries add exactly its exact names and its wildcard bases to the index |
| PolicyEngine.IndexRegexes | internal/policy/snapshot.go:75-85 | exactly the expressions that compile become rules |
| PolicyEngine.IndexScopes | internal/policy/snapshot.go:86-95 | exactly the scope entries that parse are added, under the policy's ID |
| PolicyEngine.FillBloom | internal/policy/snapshot.go:98-118 | every exact key is added to the Bloom filter |
| PolicyEngine.BuildSnapshot | internal/policy/snapshot.go:41-127 | for any list, each index of the snapshot holds exactly what the list says |
| PolicyEngine.FilterActive | internal/policy/engine.go:132-151 | keeps exactly the policies active at the instant, the unscheduled fast path included |
| PolicyEngine.PickHighestPriorityScoped | internal/policy/engine.go:155-169 | returns an in-scope candidate that no in-scope candidate beats, or none when none is in scope |
| PolicyEngine.WildcardCandidates | internal/policy/engine.go:112-117 | exactly the wildcard rules whose base is the name or a parent of it |
| PolicyEngine.RegexCandidates | internal/policy/engine.go:118-122 | exactly the rules whose expression matches |
| PolicyEngine.DynamicCandidates | internal/policy/engine.go:111-122 | on a built snapshot, exactly the policies of the list that cover the name by wildcard or expression |
| PolicyEngine.UsableMeansApplies | internal/policy/scope.go:57-73 | a stored policy that is active and matches the client is one that applies according to the list |
| PolicyEngine.ExactLookup | internal/policy/engine.go:71-77 | the exact index at a name holds the policies naming it, and a name the Bloom filter rules out is named by none |
| PolicyEngine.Engine.constructor | internal/policy/engine.go:25-32 | a new engine holds the index of the empty list |
| PolicyEngine.Engine.LoadPolicies | internal/policy/engine.go:35-39 | replaces the whole list by the given one |
| PolicyEngine.Engine.DecideAt | internal/policy/engine.go:71-94 | at one level of the walk: the best applying policy that names it, or none when none applies |
| PolicyEngine.Engine.MatchDynamic | internal/policy/engine.go:111-127 | the best applying policy that covers the name by wildcard or expression, or none |
| PolicyEngine.Engine.Evaluate | internal/policy/engine.go:60-104 | main result: for every list, name, client and instant some policy, or none, decides according to the list alone; the answer denies exactly when that policy's action is "BLOCK" in any case and redirects exactly when it is "REDIRECT", under its ID, category and address; without one it is the default allow |
| PolicyEngine.Engine.HasScopedAllow | internal/policy/engine.go:221-231 | true if and only if one of the candidates applies and is an ALLOW policy |
| PolicyEngine.Engine.IsExplicitlyAllowed | internal/policy/engine.go:184-217 | main result: true if and only if some applying ALLOW policy of the list covers the name anywhere on the match surface |
| PolicyEngine.FirstHitDecides | internal/policy/engine.go:69-95 | the first step of the walk at which some policy applies is the longest ancestor with one, so its best policy decides |
| PolicyEngine.AllowOnlyDynamically | internal/policy/engine.go:190-216 | when no step of the walk allows the name, it is explicitly allowed if and only if a dynamic candidate allows it |
| EditDistance.FittingColumnBound | internal/threat/detector.go:478-483 | ending an alignment with any column costs at least what the recurrence says |
| EditDistance.DistIsLowerBound | internal/threat/detector.go:453-455 | no alignment of two prefixes is cheaper than the recurrence |
| EditDistance.DistIsAttained | internal/threat/detector.go:453-455 | some alignment of two prefixes costs what the recurrence says |
| EditDistance.OsaIsMinimumAlignmentCost | internal/threat/detector.go:453-455 | main result: the distance is the minimum cost over all alignments built from kept, changed, added, dropped and swapped characters |
| EditDistance.OsaSymmetric | internal/threat/detector.go:456-488 | the distance is symmetric |
| EditDistance.OsaZeroIffEqual | internal/threat/detector.go:435-436 | the distance is zero exactly on equal strings |
| EditDistance.OsaLengthBounds | internal/threat/detector.go:459-464 | the distance lies between the length difference and the longer length |
| EditDistance.OsaTriangleFails | internal/threat/detector.go:453-455 | the triangle inequality fails: "ca", "ac", "abc" |
| EditDistance.TriangleUpToSwaps | internal/threat/detector.go:479-483 | for any two alignments by way of a middle string, the distance is at most their costs plus their numbers of swaps |
| EditDistance.TriangleWithoutReversedPairs | internal/threat/detector.go:479-483 | the triangle inequality holds whenever neither step has two distinct neighbours in reversed order |
| EditDistance.TriangleWithinTwice | internal/threat/detector.go:456-488 | for all strings a detour is at least half the distance |
| EditDistance.FillRow | internal/threat/detector.go:473-484 | the inner loop computes row i of the recurrence's table from the two rows before it |
| EditDistance.DamerauLevenshtein | internal/threat/detector.go:456-488 | main result: the loop over three rotating rows returns the distance, for all strings |
| Typosquat.BrandsAreRegistrable | internal/threat/detector.go:372-390 | every watchlist brand has a label and a suffix and is the domain made of them |
| Typosquat.RootDotIsIgnored | internal/threat/detector.go:356 | the root's dot makes no difference to the registrable parts |
| Typosquat.OneLabelHasNone | internal/threat/detector.go:357-360 | a name without a dot has no registrable label |
| Typosquat.PartsOfTwo | internal/threat/detector.go:361-367 | of two labels the first is registrable, in its own case, under the second, lower-cased, two-level suffix or not |
| Typosquat.PartsOfMore | internal/threat/detector.go:361-367 | with more labels in front: if the last two are a known suffix, the label before them is registrable under both, otherwise the last but one under the last |
| Typosquat.LastLabelIsAfterLastDot | internal/threat/detector.go:364 | the label before them is what follows the last dot of the front, or all of it |
| Typosquat.SubjectIsLowered | internal/threat/detector.go:407-415 | what is compared are the parts of the decoded name, lower-cased and joined by a dot, and the skeleton of the label in its own case |
| Typosquat.CheckTyposquat | internal/threat/detector.go:397-441 | reports the first brand the name resembles, with the right reason and distance, and is clean exactly when it resembles none or is not comparable |
| Typosquat.ExactBrandIsFlaggedIff | internal/threat/detector.go:392-438 | an exact brand is never its own lookalike, and is reported exactly when another brand lies within the distance of its skeleton |
| Typosquat.ExactBrandCanBeFlagged | internal/threat/detector.go:395-396 | for every plain name, when the watchlist protects it and the name with one more letter, the name itself resembles a protected brand |
| AnswerCache.CacheKeyIdentifies | internal/dnsengine/cache.go:88-96 | two questions share a key if and only if lowercased name, type and class agree, bars in names notwithstanding |
| AnswerCache.MinTtl | internal/dnsengine/cache.go:98-113 | the smallest TTL of the answer, 0 for an empty one |
| AnswerCache.ComputeMinTtl | internal/dnsengine/cache.go:100-113 | the loop computes it |
| AnswerCache.Cache.constructor | internal/dnsengine/cache.go:71-84 | an empty cache with the defaults for non-positive bounds |
| AnswerCache.Cache.MoveToFront | internal/dnsengine/cache.go:132-133 | moves one element to the front and keeps list and map in bijection |
| AnswerCache.Cache.EvictOldest | internal/dnsengine/cache.go:143-150 | drops the last element of the list from list and map |
| AnswerCache.Cache.Refresh | internal/dnsengine/cache.go:131-134 | replaces an element's entry in place and promotes it |
| AnswerCache.Cache.Insert | internal/dnsengine/cache.go:136-140 | a new element in front; over the bound the last one goes |
| AnswerCache.Cache.Put | internal/dnsengine/cache.go:119-141 | refines the abstract Put: answers of zero TTL are ignored, a known key is replaced and promoted, a new one goes in front |
| AnswerCache.Cache.Get | internal/dnsengine/cache.go:153-167 | refines the abstract fresh lookup: only a hit promotes, an expired entry stays where it is |
| AnswerCache.Cache.GetStale | internal/dnsengine/cache.go:172-188 | refines the abstract stale lookup: a hit promotes, an entry past its retention is removed |
| AnswerCache.RecencyOrder | internal/dnsengine/cache.go:61-69 | main result: after every run of operations the cache is within its bound and lists distinct keys from most to least recently stored or returned |
| AnswerCache.OverflowDropsLeastRecentlyUsed | internal/dnsengine/cache.go:136-140 | the entry an insertion into a full cache drops was used less recently than each one that stays |
| AnswerCache.KeyLeavesOneStep | internal/dnsengine/cache.go:119-188 | in one step a key leaves only as too old or as the last of a full list |
| AnswerCache.KeyLeavesOnlyTwoWays | internal/dnsengine/cache.go:119-188 | over every run, a key leaves only when a stale lookup finds it past its retention, or when another key comes into a full cache in which all others were used more recently |
| AnswerCache.ItemsAreLatestPuts | internal/dnsengine/cache.go:119-188 | over every run, each entry is the one its key's latest effective Put stored |
| AnswerCache.StaleHitIsLatestPut | internal/dnsengine/cache.go:169-188 | over every run, a stale hit returns the message of the latest effective Put for the key, no later than its time plus minimum TTL plus retention |
| AnswerCache.HitIff | internal/dnsengine/cache.go:115-188 | over every run, a key in the cache is hit exactly while the smallest TTL, in seconds, of the answer stored last under it has not run out since it was stored, by a stale lookup for the retention time longer; that answer is returned |
| AnswerCache.NothingStoredIsMissed | internal/dnsengine/cache.go:119-188 | over every run, a key under which nothing was stored is not in the cache |
| AnswerCache.FreshHitIsStaleHit | internal/dnsengine/cache.go:152-188 | a fresh hit implies the same stale hit at the same instant |
| StaleReply.SetTtl | internal/dnsengine/cache.go:46-52 | sets the TTL of every present record in place |
| StaleReply.Reply | internal/dnsengine/cache.go:36-43 | a reply has fresh copies of the records with the given TTL, whatever theirs was |
| QueueProtocol.NextKeepsInv | internal/dnsengine/querylog_writer.go:79-131 | every step of submitters, workers and Close keeps the protocol's invariant |
| QueueProtocol.RunKeepsInv | internal/dnsengine/querylog_writer.go:79-131 | so does every interleaving |
| QueueProtocol.Conservation | internal/dnsengine/querylog_writer.go:79-131 | main result: in every interleaving, submitted = dropped + queued + in flight + finished, each entry in exactly one of these places once |
| QueueProtocol.DropsOnlyWhenFull | internal/dnsengine/querylog_writer.go:83-95 | an entry is dropped exactly by a Submit that finds the queue full |
| QueueProtocol.DrainStepsDecrease | internal/dnsengine/querylog_writer.go:106-131 | once closed, every step leaves strictly less to do |
| QueueProtocol.DrainNeverBlocks | internal/dnsengine/querylog_writer.go:113-116 | a closed state has no step left exactly when it is drained |
| QueueProtocol.DrainTerminates | internal/dnsengine/querylog_writer.go:106-117 | main result: from a closed state at most Rank steps remain, none of which takes in or drops an entry |
| QueueProtocol.DrainedIsComplete | internal/dnsengine/querylog_writer.go:106-131 | when no step is left, exactly the entries not dropped are finished, once each, with every stage done once |
| QueueProtocol.SingleWorkerDeliversInOrder | internal/dnsengine/export.go:138-147 | the exporter's one worker hands every sink the accepted events in submission order |
| FastFlux.PruningLosesNothing | internal/dnsengine/fastflux.go:118-130 | for every history and later cutoff, the kept records show an address exactly when the full history does |
| FastFlux.KeptAreRecent | internal/dnsengine/fastflux.go:118-130 | after an observation the kept addresses are those whose latest sighting lies in the window, with their latest TTLs |
| FastFlux.LatestIsLastSighting | internal/dnsengine/fastflux.go:110-115 | an observed address has the time and TTL of the last observation that holds it |
| FastFlux.RecentAreObservedSince | internal/dnsengine/fastflux.go:118-130 | the recent addresses are exactly those of the observations at or after the cutoff |
| FastFlux.PresentAreGiven | internal/dnsengine/fastflux.go:110-113 | the addresses recorded are those of the answer that are present |
| FastFlux.Prune | internal/dnsengine/fastflux.go:120-130 | one pass removes exactly the records before the cutoff and finds the minimum TTL of the rest |
| FastFlux.AddAnswers | internal/dnsengine/fastflux.go:110-115 | every present address of the answer is recorded with this time and TTL |
| FastFlux.JudgeRecords | internal/dnsengine/fastflux.go:132-138 | the test on the kept records is the test on the full history |
| FastFlux.RecordAndJudge | internal/dnsengine/fastflux.go:110-138 | one domain's part of an observation, answered from its full history |
| FastFlux.Tracker.constructor | internal/dnsengine/fastflux.go:57-84 | an empty tracker with the defaults for non-positive settings, the TTL bound truncated to 32 bits |
| FastFlux.Tracker.EvictOldest | internal/dnsengine/fastflux.go:143-155 | removes one domain that was seen longest ago |
| FastFlux.Tracker.MakeRoom | internal/dnsengine/fastflux.go:100-108 | room for a new domain costs at most one other, one seen longest ago |
| FastFlux.Tracker.Observe | internal/dnsengine/fastflux.go:90-139 | main result: answers exactly as one that kept every observation of the domain since its entry was made; the number of domains stays bounded, at most one other domain makes room, one seen longest ago, and no other domain's history changes |
| RateLimit.WindowInvariant | internal/dnsengine/ratelimit.go:65-85 | over every run a window opens with an allowed query and never holds more than perSec |
| RateLimit.AllowedBelowCeiling | internal/dnsengine/ratelimit.go:74-85 | the allowed queries from any instant on are bounded by where the current window starts |
| RateLimit.AtMostTwiceLessOne | internal/dnsengine/ratelimit.go:74-85 | main result: no client has more than 2 * perSec - 1 queries allowed in any half-open second |
| RateLimit.WindowWasAllowed | internal/dnsengine/ratelimit.go:74-85 | over every run, what a window has counted was allowed from its start on |
| RateLimit.DeniedOnlyWhenFull | internal/dnsengine/ratelimit.go:74-85 | main result: a query is denied only if perSec queries of its client were already allowed in a second that began less than a second ago |
| RateLimit.BurstIsAllowed | internal/dnsengine/ratelimit.go:74-85 | a burst within the window's allowance is allowed in full |
| RateLimit.BoundIsAttained | internal/dnsengine/ratelimit.go:74-85 | for every rate some run reaches the bound |
| RateLimit.IdleStartsOver | internal/dnsengine/ratelimit.go:65-78 | a client idle for a second is treated as one never seen |
| RateLimit.RateLimiter.constructor | internal/dnsengine/ratelimit.go:42-50 | a new limiter has seen no calls |
| RateLimit.RateLimiter.EvictIdle | internal/dnsengine/ratelimit.go:92-98 | forgets exactly the clients idle for idleAfter |
| RateLimit.RateLimiter.WindowFor | internal/dnsengine/ratelimit.go:65-72 | the window a query is counted in leads to the same step as the never-evicting limiter's, evictions notwithstanding |
| RateLimit.RateLimiter.Allow | internal/dnsengine/ratelimit.go:55-86 | main result: decides every call as a limiter that never evicts, which the bounds above and DeniedOnlyWhenFull speak of |
| Latency.BucketBoundsLatency | internal/metrics/buckets.go:38-64 | a latency lies between the bound of the bucket before and the bound of its own, the last bucket excepted |
| Latency.RankIsLeast | internal/metrics/query_metrics.go:172-175 | the target rank is the least positive integer that is at least p times the total |
| Latency.EstimatePercentile | internal/metrics/query_metrics.go:163-186 | returns the bound of the bucket that holds the target rank, 0 without counts, the last bound beyond the largest |
| Latency.FindBucket | internal/metrics/query_metrics.go:177-183 | the cumulative loop stops at the one bucket holding the rank |
| Latency.RanksAreOrdered | internal/metrics/query_metrics.go:177-183 | higher ranks lie in higher buckets, so a rank lies in one bucket |
| Latency.QuantileBucket | internal/metrics/query_metrics.go:163-186 | the bucket of the k-th smallest recorded latency is the one holding rank k |
| Latency.EstimateBoundsQuantile | internal/metrics/query_metrics.go:163-186 | main result: the estimate is the bound of the bucket of the ceil(p*n)-th smallest latency; below 500 ms that latency is strictly under it and at least the bound before |
| Latency.EstimateMonotone | internal/metrics/query_metrics.go:172-185 | the estimate grows with p |
| Latency.QuantileExists | internal/metrics/query_metrics.go:172-175 | the quantile the estimate speaks of exists |
| QueryMetrics.TallyIsConsistent | internal/metrics/query_metrics.go:107-125 | in every tally the bucket counts sum to the total and errors never exceed it |
| QueryCounts.TallyCounts | internal/metrics/query_metrics.go:107-125 | for every list of events the tally counts the queries, those without success, and the blocked hits, as sizes of sets of positions, and its buckets are the histogram of the queries' latencies |
| QueryCounts.AggregateCounts | internal/metrics/query_metrics.go:138-161 | main result: what an aggregate counts are the queries, failures, blocked hits and latencies of a final part of the recorded events, with every one of the last n-1 slice lengths and none older than n |
| QueryCounts.EstimateOnCounts | internal/metrics/query_metrics.go:163-186 | the estimate on such counts brackets the true quantile of the latencies of the queries counted |
| QueryMetrics.SumOfRotation | internal/metrics/query_metrics.go:144-158 | the order in which the ring is read does not matter |
| QueryMetrics.SumIsSuffix | internal/metrics/query_metrics.go:144-158 | skipping slices before the cutoff sums the tally of a suffix of all events |
| QueryMetrics.EpochsByAge | internal/metrics/query_metrics.go:141-149 | events left out are older than n-1 slices, events counted are no older than n |
| QueryMetrics.ReuseHoldsNewest | internal/metrics/query_metrics.go:93-104 | after reusing the oldest slot the ring holds the newest n slices |
| QueryMetrics.Metrics.constructor | internal/metrics/query_metrics.go:57-80 | a ring of empty slices that all start now |
| QueryMetrics.Metrics.CurrentSlice | internal/metrics/query_metrics.go:82-105 | the slice that takes events now has not run out; rotation loses no recorded event of the newest n slices |
| QueryMetrics.Metrics.Rotate | internal/metrics/query_metrics.go:93-104 | resets the next slot and moves on to it |
| QueryMetrics.Metrics.Record | internal/metrics/query_metrics.go:107-117 | adds exactly this query to the recorded events |
| QueryMetrics.Metrics.RecordBlocked | internal/metrics/query_metrics.go:122-125 | adds exactly this blocked event |
| QueryMetrics.Metrics.Aggregate | internal/metrics/query_metrics.go:138-161 | main result: over every run the counts are the tally of a final part of all recorded events, which holds every one of the last n-1 slice lengths and none older than n, none twice; buckets sum to the total and errors never exceed it |
| TcpPool.SearchIsComplete | internal/dnsengine/connections.go:158-162 | the round-robin search finds no slot exactly when all are in use |
| TcpPool.ReserveIsRoundRobin | internal/dnsengine/connections.go:151-169 | refused exactly when closed, exhausted exactly when open with all slots in use; otherwise the slot taken is free, every slot from next up and around to it is in use, the slot after it is next, and nothing else changes |
| TcpPool.CloseLeavesNoConnection | internal/dnsengine/connections.go:124-146 | in every interleaving, closing leaves no connection in any slot, and reserved are exactly the slots some caller is dialling for |
| TcpPool.UpstreamPool.constructor | internal/dnsengine/connections.go:92-117 | an open pool of free, unconnected slots |
| TcpPool.UpstreamPool.Reserve | internal/dnsengine/connections.go:151-173 | the locked stretch before the dial: closed, exhausted, an existing connection, or a reserved slot to dial |
| TcpPool.UpstreamPool.DialFailed | internal/dnsengine/connections.go:174-178 | the slot becomes free again |
| TcpPool.UpstreamPool.Dialed | internal/dnsengine/connections.go:179-183 | the slot gets the connection, also when the pool was closed meanwhile |
| TcpPool.UpstreamPool.Release | internal/dnsengine/connections.go:196-212 | after an error the slot is emptied and freed; otherwise, and out of range, nothing changes |
| TcpPool.UpstreamPool.Close | internal/dnsengine/connections.go:124-146 | connected slots are emptied and freed; closing again changes nothing |
| TcpPool.NextKeepsInv | internal/dnsengine/connections.go:124-212 | every step of every caller keeps the slot invariant |
| TcpPool.ReachableHasInv | internal/dnsengine/connections.go:124-212 | every reachable state has it, and strands one slot per clean release while open |
| TcpPool.SlotsAreExclusive | internal/dnsengine/connections.go:164-183 | main result: in every interleaving no two callers dial or hold one slot, before and after Close; while open a reserved slot without connection is exactly one being dialled |
| TcpPool.StrandedAfter | internal/dnsengine/connections.go:205-211 | a release frees its slot if and only if there was an error; a clean one strands it, and no other step changes which slots are stranded |
| TcpPool.NoConnectionIsReused | internal/dnsengine/connections.go:167-169 | in every reachable state the search hands out no existing connection |
| TcpPool.CleanReleasesExhaustThePool | internal/dnsengine/connections.go:194-212 | main result: an open pool sees at most maxConns clean releases, and after that many every further get fails |
| TcpPool.SequentialUseExhausts | internal/dnsengine/connections.go:151-212 | a single caller that gets and cleanly releases one connection after another reaches that limit |
| PipelineSpec.FilterRebind | internal/dnsengine/engine.go:375-395 | the loop keeps the public records in order and counts the rest |
| PipelineSpec.KeptIffPublic | internal/dnsengine/engine.go:370-374 | exactly the records that are no internal address survive; when as many survive as came, the answer is unchanged |
| PipelineSpec.FirstAt | internal/dnsengine/engine.go:638-825 | the first rule that applies decides |
| PipelineSpec.VerdictIsFirstRule | internal/dnsengine/engine.go:638-825 | the nested branches choose the first applicable rule of the precedence table |
| PipelineSpec.AnswersOnce | internal/dnsengine/engine.go:594-826 | every question is answered once; exactly those past the gates are logged and measured, once each |
| PipelineSpec.AfterReconciles | internal/dnsengine/engine.go:594-826 | every call keeps: one record and one outcome per answered query, one refusal per refused one, blocked hits at most block records at most sinkholes |
| PipelineSpec.SinkholeIffBlocked | internal/dnsengine/engine.go:485-508 | a block record means the sinkhole was the answer; the converse fails exactly for rebind sinkholes and for filtered answers of overridden blocklist hits |
| PipelineSpec.BlocklistedIsForwardedIff | internal/dnsengine/engine.go:640-672 | a blocklisted name is forwarded exactly when explicitly allowed, else logged and counted as a blocklist block |
| PipelineSpec.AllowWinnerIsForwarded | internal/dnsengine/engine.go:645-662 | whenever an ALLOW policy decides a blocklisted name, it is forwarded, whatever feeds and detectors say |
| PipelineSpec.UnlistedIsForwardedIff | internal/dnsengine/engine.go:674-800 | a name that is not blocklisted is forwarded exactly when no feed, policy or detector objects |
| PipelineSpec.CountedIff | internal/dnsengine/engine.go:664-711 | hits are counted for the blocklist and policy denials alone; only a failing policy engine makes a call unsuccessful |
| PipelineSpec.UpstreamAnswersArePublic | internal/dnsengine/engine.go:475-491 | with rebind protection an upstream answer holds exactly the upstream's records that are no internal address |
| PipelineSpec.InternalAddressIff | internal/dnsengine/engine.go:441-491 | main result: with rebind protection a response holds an internal address if and only if a forwarded query fails and the cache has an answer with one for it |
| PipelineRuns.CacheIsRunOfCalls | internal/dnsengine/engine.go:451-466 | over every run of queries the cache is in the state its own run of operations leaves it in, eviction and retention included |
| PipelineRuns.FallbackIsLatestStore | internal/dnsengine/engine.go:451-466 | main result: over every run, what the cache has for a failed exchange is the answer of the latest call that stored one under the question's key, within its smallest TTL plus the retention time |
| PipelineRuns.CleanRunIff | internal/dnsengine/engine.go:441-491 | over every run with rebind protection, a response holds an internal address if and only if it is a stale answer and the exchange of the latest call stored under its key does |
| PipelineRuns.SunkAnswerComesBackStale | internal/dnsengine/engine.go:441-466 | it happens: after every run, an answer that was sunk and cached is the stale answer of a failed exchange for the key while it is retained, and holds an internal address |
| PipelineLaws.TwoLabelSuffixIsDropped | internal/dnsengine/engine.go:536-558 | a question for e, a dot and a local suffix of two labels, in any case and with or without the root's dot, is checked as e |
| PipelineLaws.OneLabelSuffixIsDropped | internal/dnsengine/engine.go:536-561 | otherwise one for e, a dot and a local suffix of one label is checked as e, if e has at least two labels |
| PipelineLaws.OtherNamesAreKept | internal/dnsengine/engine.go:546-564 | every other name is checked as it is asked, without case and root's dot |
| PipelineLaws.AbusedTldIff | internal/dnsengine/engine.go:272-284 | the abused-TLD rule looks at what follows the last dot, in any case |
| PipelineLaws.BlockPolicySinks | internal/dnsengine/engine.go:701-708 | a name that neither blocklist nor feed decides and a "BLOCK" policy does is answered by the sinkhole, never forwarded, counted, and logged as a block under that policy's ID |
| PipelineLaws.RedirectPolicyAnswers | internal/dnsengine/engine.go:710-713 | such a name that a "REDIRECT" policy decides is answered with that policy's own address, never forwarded, and logged under its ID |
| PipelineLaws.RecordNamesQuery | internal/dnsengine/engine.go:627-826 | every log record names the checked name and the client |
| PipelineLaws.SinkholeIsOfFamily | internal/dnsengine/engine.go:330-352 | every sinkhole is an AAAA one exactly for AAAA questions |
| PipelineLaws.SafeSearchIff | internal/dnsengine/engine.go:744-754 | answered by SafeSearch, with the name's target, exactly when it has one, a policy decision allows the name and no earlier rule objects |
| PipelineLaws.WhyBlocked | internal/dnsengine/engine.go:640-825 | whatever is blocked without being forwarded is logged with the reason of a rule whose condition holds |
| PipelineLaws.ForwardedIsSunkIff | internal/dnsengine/engine.go:475-508 | a forwarded query gets the sinkhole exactly when the answer to an address question is internal addresses and nothing else, or its location is to be blocked |
| PipelineLaws.ForwardedIsFlaggedIff | internal/dnsengine/engine.go:766-822 | a forwarded name is logged as a block exactly for a blocking location, else flagged exactly when the score, the ledger, the feed or the answer shows something, else allowed |
| PipelineLaws.FirstDetectorIsNamed | internal/dnsengine/engine.go:766-822 | the detection it is logged with is the one of the first detector that found something |
| PipelineLaws.FirstDetectorGivesReason | internal/dnsengine/engine.go:766-822 | and the reason is the score's own if it has one, otherwise the first detector's |
| PipelineLaws.ScoreIsKept | internal/dnsengine/engine.go:640-825 | every record keeps the score, except that a name without one gets 0.6 for a suspicious location; and whether detectors are to block |
| PipelineLaws.OverridesAndFailuresAreLogged | internal/dnsengine/engine.go:645-699 | an overridden blocklist hit is logged as allowed under "allow-override", a failing policy engine as an error without reason, a SafeSearch answer as allowed |
| PipelineLaws.ForwardedIsAnswered | internal/dnsengine/engine.go:431-513 | without filters the upstream's answer is passed on; stale answers only after a failed exchange with serve-stale on, every record with 30 seconds |
| PipelineLaws.KeepPublicConcat | internal/dnsengine/engine.go:375-395 | rebind filtering works record by record, in order |
| Pipeline.Engine.constructor | internal/dnsengine/engine.go:189-268 | a new engine over a policy engine has answered, logged and cached nothing |
| Pipeline.Engine.RespondBlocked | internal/dnsengine/engine.go:330-352 | writes one sinkhole answer, of the family asked for |
| Pipeline.Engine.RespondRedirect | internal/dnsengine/engine.go:354-368 | writes one redirect, or SERVFAIL when the record does not parse |
| Pipeline.Engine.RespondSafeSearch | internal/dnsengine/engine.go:400-415 | writes one CNAME to the safe target, or SERVFAIL |
| Pipeline.Engine.WriteFiltered | internal/dnsengine/engine.go:478-513 | one write: the sinkhole when a filter sinks the answer, otherwise what the filters leave of it |
| Pipeline.Engine.AnswerStale | internal/dnsengine/engine.go:441-462 | one write for a failed exchange: the cache's answer under the stale TTL if it is allowed and retained, otherwise SERVFAIL |
| Pipeline.Engine.ForwardUpstream | internal/dnsengine/engine.go:431-514 | one exchange and one write; the cache takes a successful answer unfiltered and answers a failed exchange, as the LRU cache's operations say |
| Pipeline.Engine.HandleListed | internal/dnsengine/engine.go:640-672 | a blocklisted name is forwarded if and only if the loaded policies explicitly allow it |
| Pipeline.Engine.Label | internal/dnsengine/engine.go:766-822 | the action, reason and threat logged for a forwarded query: block for a blocking GeoIP match, else flagged exactly when some detector fired, with the first one's reason |
| Pipeline.Engine.ForwardAndLog | internal/dnsengine/engine.go:766-824 | forwards once, and logs once what the detectors made of the answer |
| Pipeline.Engine.HandleAllowed | internal/dnsengine/engine.go:715-824 | the allow path has the effect of its first applicable rule |
| Pipeline.Engine.HandleObserved | internal/dnsengine/engine.go:755-824 | so have its last detectors |
| Pipeline.Engine.HandleDecided | internal/dnsengine/engine.go:692-825 | so has a query under a policy decision, the failing policy engine included |
| Pipeline.Engine.Answer | internal/dnsengine/engine.go:638-825 | past the gates: blocklist, feed and policies with their real decision |
| Pipeline.Engine.ProcessDNSQuery | internal/dnsengine/engine.go:594-826 | main result: no question, nothing happens; a gate refuses, one REFUSED and no record; otherwise one answer, one record and one outcome, those of the first applicable rule under the policies' own decision; over every run of calls the journal is the one the specification plays, and stays reconciled |
| Alerter.CompactionLosesNothing | internal/alert/alert.go:171-178 | what compaction forgets no later window would have shown |
| Alerter.FiresExactly | internal/alert/alert.go:171-183 | main result: a hit fires exactly when it and the hits since the last alert newer than now - window reach the threshold; those are the hits kept, in order |
| Alerter.SinceAlertIsSuffix | internal/alert/alert.go:180-195 | the hits since the last alert are all hits after the one that fired it |
| Alerter.FiresByCount | internal/alert/alert.go:171-183 | main result by counting: a hit fires exactly when at least threshold of the hits after the last firing one are newer than now - window, itself included |
| Alerter.HitsEqualThreshold | internal/alert/alert.go:187-194 | an alert always counts exactly the threshold |
| Alerter.FirstHitIsOldest | internal/alert/alert.go:191 | the first hit of an alert is the oldest of them |
| Alerter.AlertsArePaidFor | internal/alert/alert.go:180-195 | alerts times threshold, plus the hits still kept, never exceed the hits recorded |
| Alerter.ClientCounter.DropOlder | internal/alert/alert.go:171-177 | compaction in the same buffer keeps exactly the newer hits, in order |
| Alerter.ClientCounter.Append | internal/alert/alert.go:178 | appends, into spare room or a larger buffer |
| Alerter.ClientCounter.RecordHit | internal/alert/alert.go:171-195 | one hit, in terms of all hits the client ever had |
| Alerter.Alerter.constructor | internal/alert/alert.go:118-132 | no client known, the default window for a non-positive one |
| Alerter.Alerter.CounterFor | internal/alert/alert.go:166-170 | finds or makes the client's counter and touches no other |
| Alerter.ResolveNamesClient | internal/alert/alert.go:210-222 | an unknown client is a device of its address alone; of a known one only a missing address is filled in |
| Alerter.Alerter.RecordBlocked | internal/alert/alert.go:157-208 | fires exactly when the client's hits say so, with threshold hits and the oldest of them; other clients are untouched; nothing happens when disabled or without a client |
| HighAvailability.PeerUpIsMostRecentStreak | internal/ha/manager.go:106-131 | main result: for every trace, liveness is the kind of the most recently completed streak, up if none |
| HighAvailability.PeerDownIff | internal/ha/manager.go:106-131 | the peer is down exactly when the most recently completed streak is one of failures |
| HighAvailability.FlipEndsStreak | internal/ha/manager.go:111-131 | liveness flips only at the end of a full streak of the new kind |
| HighAvailability.FlipsAreApart | internal/ha/manager.go:111-131 | promotion to demotion takes at least RecoveryThreshold ticks, demotion to promotion at least FailureThreshold |
| HighAvailability.StreakDecides | internal/ha/manager.go:111-127 | comparing a counter with its threshold decides whether a streak is complete |
| HighAvailability.Manager.constructor | internal/ha/manager.go:62-84 | a new manager has seen nothing; thresholds default to three |
| HighAvailability.Manager.Tick | internal/ha/manager.go:87-135 | after every tick: a primary, and a node with high availability off, is active whatever the peer does; an enabled backup is active exactly when the most recently completed streak of the whole trace is one of failures; the transition time moves exactly when the state does |
| HighAvailability.Manager.ShouldTakeOver | internal/ha/manager.go:179-183 | a backup takes over exactly when its peer is down |
| Decimal.NumeralRoundTrip | internal/dnsengine/cache.go:92-94 | reading a printed number gives it back |
| Syslog.ValueRoundTrip | internal/dnsengine/export.go:299-308 | reading an escaped value up to its closing quote gives the value back, whatever follows |
| Syslog.EscapeIsInjective | internal/dnsengine/export.go:302-308 | distinct values have distinct escaped forms |
| Syslog.EscapedHasNothingBare | internal/dnsengine/export.go:299-308 | no quote or closing bracket is bare, and every backslash escapes something |
| Syslog.ParamsRoundTrip | internal/dnsengine/export.go:270-280 | reading rendered parameters gives back their names and values |
| Syslog.EventElementRoundTrip | internal/dnsengine/export.go:261-290 | main result: for arbitrary strings a reader of the SD-ELEMENT recovers all seven values |
| Syslog.LineRoundTrip | internal/dnsengine/export.go:261-290 | main result: a reader of the whole line recovers priority, header, element and message if and only if no header field holds a space; the priority is local0 and the action's severity |
| Syslog.LineSays | internal/dnsengine/export.go:244-308 | field by field what a reader learns: version 1, the timestamp, host, application and process or a dash for each missing one, DNSQUERY, seven named raw values under hydradns@32473, the message text, and priority 131, 132, 133 or 134 by the action |

## Left out

- Sockets, TLS, DoT, DoH, HTTP, gRPC, the web handlers, logging and metrics export: I/O. An exchange, a write, a save and a dial are outcomes that may be anything.
- GORM and SQLite repositories, configuration import and export: their behaviour is that of an ORM that is not part of this model.
- Regular expressions, Bloom hashing and sizing, address and CIDR parsing, timezones, MaxMind lookups, punycode, confusable tables and the infrastructure allowlist: functions the statements hold for, whatever they are. The Bloom filter is the set of strings added to it under a test without false negatives.
- Letter case and white space beyond ASCII.
- Entropy, DGA, length and subdomain scores: a threat result is an input, its score a real number.
- The 64-bit counters and times are integers that do not overflow; EstimatePercentile's float product is computed over the reals.
- Threat detection on a nil detector, a nil blocklist, a nil feed or ledger: the same as one that never reports. The pipeline's policy engine is present, as the engine requires past the blocklist.
- The real policy engine never returns an error; the pipeline's error branch is modelled all the same, as an input.
- Latency.EstimatePercentile: takes p from 0 up; the conversion of a negative product to an unsigned integer is left to the platform by Go.
- Constructor errors (an upstream address that does not resolve, a pool without connections, an incomplete high-availability configuration): the objects here are those that were built.
- Concurrent calls on one rate limiter, alerter, tracker or metrics ring: they are taken one after the other, with times in that order. The code reads the clock before it takes the lock at internal/dnsengine/ratelimit.go:60 and internal/alert/alert.go:162, and the ring rotates without a lock.
- The queue's channel and the workers' goroutines are steps of a state machine on values, not a class; submitting after Close, which panics, is not a step.
- A snapshot refers to policies by their position in the list instead of by pointer, so a caller that changes the list after LoadPolicies is not modelled.
- Cached messages are values; that a reply's records are copies is modelled in StaleReply apart from the cache, and the extra section and the message ID are not.
- The pipeline holds its cache as the recency sequence of AnswerCache and applies that module's operations to it; the class Cache is proved to carry them out, and is not itself a field of the engine. Journal entries of different kinds have no order among each other.
- TriangleWithoutReversedPairs: goes one way; a reversed pair need not break the inequality, and by how much one can is TriangleUpToSwaps.
- Rate limiter, newly-registered-domain set, tracker, alerter and metrics ring enter the pipeline as inputs and journal entries, not as the objects of their own modules.
- The alert sink callback, the query-log drop counter in the metrics, and the sparing log lines.
- FillBloom: states only that exact keys are added, which is all that lookups need; the wildcard and expression texts are added too.
- Conservation: assumes nothing about fairness; that a worker eventually takes its step is the scheduler's part.
- The newly-observed-domain ledger, 0x20 case handling, watchdog, disk and blocklist health, fleet and inventory merge: easier relatives of what is here.
- License signing, certificates, passwords and tokens: cryptography.
