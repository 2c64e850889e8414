/** Policy schedules: parsing the day names, the "HH:MM" window and the zone of a policy,
    and deciding whether the schedule permits the policy at an instant.
 */
module Schedule {
  import opened Decimal
  import opened Names
  import opened Options
  import opened PolicyTypes

  const MINUTES_PER_DAY := 1440

  // ----- "HH:MM" -----

  /** A decimal integer with an optional sign. Values too wide for a machine word are far
      outside every range checked here, so they are rejected either way. */
  function Atoi(s: string): Option<int> {
    var signed := s != "" && (s[0] == '-' || s[0] == '+');
    var digits := if signed then s[1..] else s;
    if digits == "" || !AllDigits(digits) then None
    else if signed && s[0] == '-' then Some(0 - DigitsValue(digits) as int)
    else Some(DigitsValue(digits))
  }

  function ParseHHMM(s: string): (r: Option<nat>)
    ensures r.Some? ==> r.value < MINUTES_PER_DAY
  {
    MinuteOf(Split(TrimSpace(s), ':'))
  }

  function MinuteOf(parts: seq<string>): (r: Option<nat>)
    ensures r.Some? ==> r.value < MINUTES_PER_DAY
  {
    if |parts| != 2 then None
    else
      var h, m := Atoi(TrimSpace(parts[0])), Atoi(TrimSpace(parts[1]));
      if h.None? || h.value < 0 || h.value > 23 then None
      else if m.None? || m.value < 0 || m.value > 59 then None
      else Some(h.value * 60 + m.value)
  }

  lemma DigitsAreTrimmed(a: string)
    requires AllDigits(a) && a != ""
    ensures TrimSpace(a) == a && Atoi(a) == Some(DigitsValue(a)) && ':' !in a
  {
    assert IsDigit(a[0]) && IsDigit(a[|a| - 1]);
    TrimSpaceTrims(a);
  }

  /** Hours and minutes in digits, padded or not, are read as the minute of the day they name;
      other numbers of hours or minutes are refused. */
  lemma ClockTimesAreRead(a: string, b: string)
    requires AllDigits(a) && a != "" && AllDigits(b) && b != ""
    ensures ParseHHMM(a + ":" + b) ==
            if DigitsValue(a) <= 23 && DigitsValue(b) <= 59 then Some(60 * DigitsValue(a) + DigitsValue(b)) else None
  {
    DigitsAreTrimmed(a);
    DigitsAreTrimmed(b);
    PartsOfClockTime(a, b);
    MinuteOfDigits(a, b);
  }

  lemma MinuteOfDigits(a: string, b: string)
    requires AllDigits(a) && a != "" && AllDigits(b) && b != ""
    ensures MinuteOf([a, b]) ==
            if DigitsValue(a) <= 23 && DigitsValue(b) <= 59 then Some(60 * DigitsValue(a) + DigitsValue(b)) else None
  {
    DigitsAreTrimmed(a);
    DigitsAreTrimmed(b);
    var h, m := Atoi(a), Atoi(b);
    assert h == Some(DigitsValue(a)) && m == Some(DigitsValue(b));
  }

  lemma PartsOfClockTime(a: string, b: string)
    requires AllDigits(a) && a != "" && AllDigits(b) && b != "" && ':' !in a && ':' !in b
    ensures Split(TrimSpace(a + ":" + b), ':') == [a, b]
  {
    var s := a + [':'] + b;
    assert s[0] == a[0] && IsDigit(a[0]);
    assert s[|s| - 1] == b[|b| - 1] && IsDigit(b[|b| - 1]);
    TrimSpaceTrims(s);
    SplitAtFirst(a, ':', b);
    SplitAtFirst(b, ':', "");
  }

  // ----- day names -----

  function DayNamed(key: string): Option<Weekday> {
    if key == "sun" || key == "sunday" then Some(0)
    else if key == "mon" || key == "monday" then Some(1)
    else if key == "tue" || key == "tues" || key == "tuesday" then Some(2)
    else if key == "wed" || key == "weds" || key == "wednesday" then Some(3)
    else if key == "thu" || key == "thur" || key == "thurs" || key == "thursday" then Some(4)
    else if key == "fri" || key == "friday" then Some(5)
    else if key == "sat" || key == "saturday" then Some(6)
    else None
  }

  /** The names of each day, Sunday first. */
  const DAY_NAMES: seq<set<string>> := [
    {"sun", "sunday"},
    {"mon", "monday"},
    {"tue", "tues", "tuesday"},
    {"wed", "weds", "wednesday"},
    {"thu", "thur", "thurs", "thursday"},
    {"fri", "friday"},
    {"sat", "saturday"}]

  lemma DaysByName(key: string, w: Weekday)
    ensures DayNamed(key) == Some(w) <==> key in DAY_NAMES[w]
  {
  }

  datatype DayToken = Blank | Day(weekday: Weekday) | Unknown

  function ParseDay(token: string): DayToken {
    var key := Lower(TrimSpace(token));
    if key == "" then Blank
    else if DayNamed(key).Some? then Day(DayNamed(key).value)
    else Unknown
  }

  function DayTokens(p: Policy): seq<DayToken> {
    seq(|p.scheduleDays|, k requires 0 <= k < |p.scheduleDays| => ParseDay(p.scheduleDays[k]))
  }

  // ----- the meaning of a policy's schedule text -----

  predicate HasSchedule(p: Policy) {
    TrimSpace(p.startTime) != "" || TrimSpace(p.endTime) != "" || |p.scheduleDays| > 0
  }

  predicate NamesDay(p: Policy, w: Weekday) {
    Day(w) in DayTokens(p)
  }

  predicate RestrictsDays(p: Policy) {
    exists t :: t in DayTokens(p) && t != Blank
  }

  predicate DaysWellFormed(p: Policy) {
    Unknown !in DayTokens(p)
  }

  predicate HasWindow(p: Policy) {
    TrimSpace(p.startTime) != ""
  }

  predicate WindowWellFormed(p: Policy) {
    var start, end := TrimSpace(p.startTime), TrimSpace(p.endTime);
    && ((start == "") == (end == ""))
    && (start != "" ==> ParseHHMM(start).Some? && ParseHHMM(end).Some? && ParseHHMM(start) != ParseHHMM(end))
  }

  predicate ZoneWellFormed(sys: Platform, p: Policy) {
    TrimSpace(p.timezone) != "" ==> sys.zoneExists(TrimSpace(p.timezone))
  }

  predicate WellFormed(sys: Platform, p: Policy) {
    ZoneWellFormed(sys, p) && DaysWellFormed(p) && WindowWellFormed(p)
  }

  function ZoneOf(p: Policy): string {
    if TrimSpace(p.timezone) != "" then TrimSpace(p.timezone) else "UTC"
  }

  function MinuteOfDay(sys: Platform, zone: string, now: Instant): nat {
    sys.localHour(zone, now) * 60 + sys.localMinute(zone, now)
  }

  /** The window is a stretch of the 24-hour circle: start is in it, end is not. */
  predicate InWindow(minute: nat, start: nat, end: nat) {
    (minute - start) % MINUTES_PER_DAY < (end - start) % MINUTES_PER_DAY
  }

  /** The schedule permits the policy: no schedule, or a malformed one, always does. */
  predicate PermittedAt(sys: Platform, p: Policy, now: Instant) {
    HasSchedule(p) && WellFormed(sys, p) ==>
      && (RestrictsDays(p) ==> NamesDay(p, sys.localWeekday(ZoneOf(p), now)))
      && (HasWindow(p) ==>
            InWindow(MinuteOfDay(sys, ZoneOf(p), now),
                     ParseHHMM(TrimSpace(p.startTime)).value, ParseHHMM(TrimSpace(p.endTime)).value))
  }

  // ----- compilation and evaluation -----

  datatype CompileResult = Compiled(sched: Option<CompiledSchedule>) | Malformed

  /** cs says in parsed form what the text of p says. */
  ghost predicate Describes(cs: CompiledSchedule, p: Policy) {
    && cs.zone == ZoneOf(p)
    && |cs.days| == 7 && (forall w: Weekday :: cs.days[w] <==> NamesDay(p, w))
    && (cs.hasDays <==> RestrictsDays(p))
    && (cs.hasWindow <==> HasWindow(p))
    && (cs.hasWindow ==> ParseHHMM(TrimSpace(p.startTime)) == Some(cs.startMin))
    && (cs.hasWindow ==> ParseHHMM(TrimSpace(p.endTime)) == Some(cs.endMin))
  }

  /** The day loop of the compilation; it stops at the first unknown name. */
  method MarkDays(tokens: seq<DayToken>) returns (ok: bool, days: seq<bool>, hasDays: bool)
    ensures ok <==> Unknown !in tokens
    ensures |days| == 7
    ensures ok ==> (forall w: Weekday :: days[w] <==> Day(w) in tokens)
    ensures ok ==> (hasDays <==> exists t :: t in tokens && t != Blank)
  {
    days, hasDays := seq(7, _ => false), false;
    for k := 0 to |tokens|
      invariant |days| == 7
      invariant forall w: Weekday :: days[w] <==> Day(w) in tokens[..k]
      invariant hasDays <==> exists t :: t in tokens[..k] && t != Blank
      invariant Unknown !in tokens[..k]
    {
      assert tokens[..k + 1] == tokens[..k] + [tokens[k]];
      match tokens[k] {
        case Blank =>
        case Unknown =>
          return false, days, hasDays;
        case Day(w) =>
          days, hasDays := days[w := true], true;
          assert Day(w) in tokens[..k + 1];
      }
    }
    assert tokens[..|tokens|] == tokens;
    ok := true;
  }

  method CompileSchedule(sys: Platform, p: Policy) returns (r: CompileResult)
    ensures r == Malformed <==> HasSchedule(p) && !WellFormed(sys, p)
    ensures r == Compiled(None) <==> !HasSchedule(p)
    ensures r.Compiled? && r.sched.Some? ==> Describes(r.sched.value, p)
  {
    if !HasSchedule(p) {
      return Compiled(None);
    }
    var zone := "UTC";
    var tz := TrimSpace(p.timezone);
    if tz != "" {
      if !sys.zoneExists(tz) {
        return Malformed;
      }
      zone := tz;
    }
    var ok, days, hasDays := MarkDays(DayTokens(p));
    if !ok {
      return Malformed;
    }
    var start, end := TrimSpace(p.startTime), TrimSpace(p.endTime);
    if (start == "") != (end == "") {
      return Malformed;
    }
    if start == "" {
      return Compiled(Some(CompiledSchedule(zone, days, hasDays, 0, 0, false)));
    }
    var sm, em := ParseHHMM(start), ParseHHMM(end);
    if sm.None? || em.None? || sm == em {
      return Malformed;
    }
    return Compiled(Some(CompiledSchedule(zone, days, hasDays, sm.value, em.value, true)));
  }

  function Active(sys: Platform, sched: Option<CompiledSchedule>, now: Instant): bool
    requires sched.Some? ==> |sched.value.days| == 7
  {
    if sched.None? then true
    else
      var s := sched.value;
      if s.hasDays && !s.days[sys.localWeekday(s.zone, now)] then false
      else if s.hasWindow then
        var cur := MinuteOfDay(sys, s.zone, now);
        if s.startMin <= s.endMin then !(cur < s.startMin || cur >= s.endMin)
        else !(cur < s.startMin && cur >= s.endMin)
      else true
  }

  lemma WindowOnTheCircle(cur: nat, start: nat, end: nat)
    requires cur < MINUTES_PER_DAY && start < MINUTES_PER_DAY && end < MINUTES_PER_DAY
    ensures start <= end ==> (InWindow(cur, start, end) <==> start <= cur < end)
    ensures start > end ==> (InWindow(cur, start, end) <==> start <= cur || cur < end)
  {
    assert (cur - start) % MINUTES_PER_DAY == if cur >= start then cur - start else cur - start + MINUTES_PER_DAY;
    assert (end - start) % MINUTES_PER_DAY == if end >= start then end - start else end - start + MINUTES_PER_DAY;
  }

  /** What buildSnapshot stores for p: its parsed schedule, or none when there is none or
      when the text is malformed. */
  ghost predicate StoredFor(sys: Platform, sched: Option<CompiledSchedule>, p: Policy) {
    match sched
    case None => !HasSchedule(p) || !WellFormed(sys, p)
    case Some(cs) => HasSchedule(p) && WellFormed(sys, p) && Describes(cs, p)
  }

  /** Evaluating the stored schedule decides what the policy's text means, windows that
      cross midnight included. */
  lemma ActiveMeansPermitted(sys: Platform, sched: Option<CompiledSchedule>, p: Policy, now: Instant)
    requires sys.Sound() && StoredFor(sys, sched, p)
    ensures sched.Some? ==> |sched.value.days| == 7
    ensures Active(sys, sched, now) <==> PermittedAt(sys, p, now)
  {
    if sched.Some? && sched.value.hasWindow {
      var cs := sched.value;
      assert sys.localHour(cs.zone, now) < 24 && sys.localMinute(cs.zone, now) < 60;
      WindowOnTheCircle(MinuteOfDay(sys, cs.zone, now), cs.startMin, cs.endMin);
    }
  }
}
