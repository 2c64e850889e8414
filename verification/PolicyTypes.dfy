/** The policy engine's data. What the engine takes from libraries it cannot see (regular
    expressions, the Bloom filter, address parsing, the timezone database) is a `Platform`
    of functions, the same for every call.
 */
module PolicyTypes {
  import opened Options

  type Weekday = d: nat | d < 7
  type Instant = int

  /** A parsed schedule; no schedule at all is None. */
  datatype CompiledSchedule = CompiledSchedule(
    zone: string, days: seq<bool>, hasDays: bool, startMin: nat, endMin: nat, hasWindow: bool)

  datatype Policy = Policy(
    id: string, category: string, redirect: string, enabled: bool, priority: int, action: string,
    domains: seq<string>, regexes: seq<string>,
    scheduleDays: seq<string>, startTime: string, endTime: string, timezone: string,
    clientCidrs: seq<string>, sched: Option<CompiledSchedule>)

  datatype Action = ActionAllow | ActionDeny | ActionRedirect

  datatype Decision = Decision(action: Action, policyId: string, category: string, redirectIp: string)

  datatype Platform = Platform(
    regexCompiles: string -> bool,
    regexMatches: (string, string) -> bool,
    bloomTest: (set<string>, string) -> bool,      // strings added so far, string tested
    parseScope: string -> Option<string>,          // a scope entry to a network
    networkContains: (string, string) -> bool,     // network, client address
    parseClient: string -> Option<string>,         // a raw remote address to an address
    zoneExists: string -> bool,
    localWeekday: (string, Instant) -> Weekday,
    localHour: (string, Instant) -> nat,
    localMinute: (string, Instant) -> nat)
  {
    /** Added strings always test positive; other strings may. Local times are times of day. */
    ghost predicate Sound() {
      && (forall added, s :: s in added ==> bloomTest(added, s))
      && (forall z, t :: localHour(z, t) < 24)
      && (forall z, t :: localMinute(z, t) < 60)
    }
  }
}
