/** The active-standby manager: peer liveness with hysteresis. The class keeps two counters;
    the specification speaks of the whole trace of peer observations.
 */
module HighAvailability {

  datatype Role = Primary | Backup
  datatype NodeState = Active | Standby

  /** Consecutive observations before the peer counts as down, and as up again. */
  datatype Thresholds = Thresholds(failure: nat, recovery: nat)
  {
    predicate Positive() {
      failure > 0 && recovery > 0
    }
  }

  // ----- the meaning of a trace -----

  /** The trace ends in n equal observations. */
  predicate EndsIn(trace: seq<bool>, n: nat, observation: bool) {
    n <= |trace| && forall i :: |trace| - n <= i < |trace| ==> trace[i] == observation
  }

  /** A streak of the given kind is complete at the end of the trace. */
  predicate Completes(t: Thresholds, trace: seq<bool>, up: bool) {
    EndsIn(trace, if up then t.recovery else t.failure, up)
  }

  /** The kind of the streak completed most recently, at position k. */
  ghost predicate MostRecentStreak(t: Thresholds, trace: seq<bool>, k: nat, up: bool) {
    && 0 < k <= |trace| && Completes(t, trace[..k], up)
    && forall j, kind :: k < j <= |trace| ==> !Completes(t, trace[..j], kind)
  }

  ghost predicate NoStreak(t: Thresholds, trace: seq<bool>) {
    forall j, kind :: 0 < j <= |trace| ==> !Completes(t, trace[..j], kind)
  }

  /** Liveness by recursion on the trace: a completed streak decides, otherwise nothing changes. */
  function PeerUp(t: Thresholds, trace: seq<bool>): bool {
    if |trace| == 0 then true
    else if Completes(t, trace, trace[|trace| - 1]) then trace[|trace| - 1]
    else PeerUp(t, trace[..|trace| - 1])
  }

  /** Only a streak of the kind of the last observation can be complete. */
  lemma CompletesLastKind(t: Thresholds, trace: seq<bool>, kind: bool)
    requires t.Positive() && |trace| > 0 && Completes(t, trace, kind)
    ensures kind == trace[|trace| - 1]
  {
  }

  /** Main result: liveness is the kind of the most recently completed streak, up if none. */
  lemma {:induction false} PeerUpIsMostRecentStreak(t: Thresholds, trace: seq<bool>)
    requires t.Positive()
    ensures NoStreak(t, trace) ==> PeerUp(t, trace)
    ensures forall k, kind :: MostRecentStreak(t, trace, k, kind) ==> PeerUp(t, trace) == kind
    ensures !NoStreak(t, trace) ==> exists k, kind :: MostRecentStreak(t, trace, k, kind)
  {
    if |trace| > 0 {
      var init, last := trace[..|trace| - 1], trace[|trace| - 1];
      assert trace[..|trace|] == trace;
      if Completes(t, trace, last) {
        assert MostRecentStreak(t, trace, |trace|, last);
        forall k, kind | MostRecentStreak(t, trace, k, kind)
          ensures kind == last
        {
          assert k == |trace|;
          CompletesLastKind(t, trace, kind);
        }
      } else {
        PeerUpIsMostRecentStreak(t, init);
        NothingNew(t, trace);
        if !NoStreak(t, trace) {
          var k, kind :| MostRecentStreak(t, init, k, kind);
          assert MostRecentStreak(t, trace, k, kind);
        }
      }
    }
  }

  /** When the last observation completes no streak, the trace and the one before it have the
      same streaks. */
  lemma NothingNew(t: Thresholds, trace: seq<bool>)
    requires t.Positive() && |trace| > 0 && !Completes(t, trace, trace[|trace| - 1])
    ensures NoStreak(t, trace) <==> NoStreak(t, trace[..|trace| - 1])
    ensures forall k, kind :: MostRecentStreak(t, trace, k, kind) <==>
              MostRecentStreak(t, trace[..|trace| - 1], k, kind)
  {
    var init := trace[..|trace| - 1];
    assert trace[..|trace|] == trace;
    forall kind
      ensures !Completes(t, trace, kind)
    {
      if Completes(t, trace, kind) {
        CompletesLastKind(t, trace, kind);
      }
    }
    forall j | 0 <= j <= |init|
      ensures init[..j] == trace[..j]
    {
    }
  }

  // ----- how fast liveness can flip -----

  /** Liveness changes value exactly at position i of the trace. */
  predicate FlipsTo(t: Thresholds, trace: seq<bool>, i: nat, up: bool) {
    0 < i <= |trace| && PeerUp(t, trace[..i]) == up && PeerUp(t, trace[..i - 1]) == !up
  }

  lemma FlipEndsStreak(t: Thresholds, trace: seq<bool>, i: nat, up: bool)
    requires t.Positive() && FlipsTo(t, trace, i, up)
    ensures trace[i - 1] == up && Completes(t, trace[..i], up)
  {
    assert trace[..i][..i - 1] == trace[..i - 1];
  }

  /** Main result: after a flip at i, the flip back at j takes at least a full streak of the
      other kind: RecoveryThreshold ticks from promotion to demotion, FailureThreshold ticks
      from demotion to promotion. */
  lemma FlipsAreApart(t: Thresholds, trace: seq<bool>, i: nat, j: nat, up: bool)
    requires t.Positive() && i < j && FlipsTo(t, trace, i, !up) && FlipsTo(t, trace, j, up)
    ensures j - i >= if up then t.recovery else t.failure
  {
    FlipEndsStreak(t, trace, i, !up);
    FlipEndsStreak(t, trace, j, up);
    assert trace[..j][i - 1] == !up;
  }

  /** The peer is down exactly when the most recent streak is one of failures. */
  lemma PeerDownIff(t: Thresholds, trace: seq<bool>)
    requires t.Positive()
    ensures !PeerUp(t, trace) <==> exists k :: MostRecentStreak(t, trace, k, false)
  {
    PeerUpIsMostRecentStreak(t, trace);
  }

  // ----- the manager -----

  function Desired(enabled: bool, role: Role, peerUp: bool): NodeState {
    if !enabled || role == Primary then Active else if peerUp then Standby else Active
  }

  class Manager {
    const enabled: bool
    const role: Role
    const thresholds: Thresholds
    var state: NodeState
    var peerUp: bool
    var consecFailures: nat
    var consecSuccesses: nat
    var lastTransition: int
    ghost var trace: seq<bool>          // the observations so far; none are taken when disabled

    /** The counters measure the streak the trace ends in, and no longer one. */
    ghost predicate Valid()
      reads this
    {
      && thresholds.Positive()
      && CountsStreak(trace, consecFailures, false) && CountsStreak(trace, consecSuccesses, true)
      && peerUp == PeerUp(thresholds, trace)
      && state == Desired(enabled, role, peerUp)
    }

    constructor (enabled: bool, role: Role, failureThreshold: int, recoveryThreshold: int, now: int)
      ensures Valid() && trace == [] && this.enabled == enabled && this.role == role && lastTransition == now
      ensures thresholds == Thresholds(if failureThreshold <= 0 then 3 else failureThreshold,
                                       if recoveryThreshold <= 0 then 3 else recoveryThreshold)
    {
      this.enabled, this.role := enabled, role;
      thresholds := Thresholds(if failureThreshold <= 0 then 3 else failureThreshold,
                               if recoveryThreshold <= 0 then 3 else recoveryThreshold);
      peerUp, consecFailures, consecSuccesses, trace := true, 0, 0, [];
      state := Desired(enabled, role, true);
      lastTransition := now;
    }

    /** Takes one observation. The state afterwards is that of the whole trace: active for a
        primary, and for a backup just when the peer is down. */
    method Tick(peerHealthy: bool, now: int) returns (s: NodeState)
      requires Valid()
      modifies this
      ensures Valid() && s == state
      ensures trace == if enabled then old(trace) + [peerHealthy] else old(trace)
      ensures s == Desired(enabled, role, PeerUp(thresholds, trace))
      ensures !enabled || role == Primary ==> s == Active
      ensures enabled && role == Backup ==> (s == Active <==> exists k :: MostRecentStreak(thresholds, trace, k, false))
      ensures lastTransition == if state != old(state) then now else old(lastTransition)
    {
      if !enabled {
        return Active;
      }
      PeerDownIff(thresholds, trace + [peerHealthy]);
      ghost var longer := trace + [peerHealthy];
      assert longer[..|trace|] == trace;
      if peerHealthy {
        consecSuccesses := consecSuccesses + 1;
        consecFailures := 0;
        StreakGrows(trace, old(consecSuccesses), true);
        if !peerUp && consecSuccesses >= thresholds.recovery {
          peerUp := true;
        }
      } else {
        consecFailures := consecFailures + 1;
        consecSuccesses := 0;
        StreakGrows(trace, old(consecFailures), false);
        if peerUp && consecFailures >= thresholds.failure {
          peerUp := false;
        }
      }
      StreakDecides(thresholds, longer, if peerHealthy then consecSuccesses else consecFailures, peerHealthy);
      trace := longer;
      var next := Desired(enabled, role, peerUp);
      if next != state {
        state, lastTransition := next, now;
      }
      return state;
    }

    /** A backup takes over exactly when its peer is down. */
    method ShouldTakeOver() returns (b: bool)
      requires Valid()
      ensures b <==> enabled && role == Backup && !PeerUp(thresholds, trace)
    {
      b := enabled && role == Backup && state == Active;
    }
  }

  ghost predicate CountsStreak(trace: seq<bool>, n: nat, observation: bool) {
    EndsIn(trace, n, observation) && (n < |trace| ==> trace[|trace| - n - 1] != observation)
  }

  lemma StreakGrows(trace: seq<bool>, n: nat, observation: bool)
    requires CountsStreak(trace, n, observation)
    ensures CountsStreak(trace + [observation], n + 1, observation)
    ensures CountsStreak(trace + [observation], 0, !observation)
  {
  }

  /** A streak is complete when its counter has reached the threshold. */
  lemma StreakDecides(t: Thresholds, trace: seq<bool>, n: nat, observation: bool)
    requires |trace| > 0 && CountsStreak(trace, n, observation)
    ensures Completes(t, trace, observation) <==> n >= if observation then t.recovery else t.failure
  {
    var k := if observation then t.recovery else t.failure;
    if n < k <= |trace| {
      assert trace[|trace| - n - 1] != observation;
    }
  }
}
