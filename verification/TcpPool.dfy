/** The upstream pool's TCP slots. Each stretch of code that holds the lock is one method of
    the class and one step of a state machine; dialling happens between steps, with the slot
    reserved and the lock released. The lemmas hold in every interleaving of any callers.
 */
module TcpPool {
  import opened Options

  type Conn = nat

  // ----- the slots -----

  datatype Slots = Slots(conns: seq<Option<Conn>>, inUse: seq<bool>, next: nat, closed: bool)
  {
    ghost predicate WellFormed() {
      |conns| == |inUse| > 0 && next < |conns|
    }
  }

  datatype Reservation = PoolClosed | Exhausted | Reuse(idx: nat, conn: Conn) | Dial(idx: nat)

  /** The slot the round-robin search looks at j-th. */
  function Nth(s: Slots, j: nat): nat
    requires s.WellFormed()
  {
    (s.next + j) % |s.inUse|
  }

  /** The first free slot in round-robin order from the j-th on. */
  function FreeSlot(s: Slots, j: nat): (f: Option<nat>)
    requires s.WellFormed() && j <= |s.inUse|
    ensures f.Some? ==> f.value < |s.inUse| && !s.inUse[f.value]
    decreases |s.inUse| - j
  {
    if j == |s.inUse| then None
    else if !s.inUse[Nth(s, j)] then Some(Nth(s, j))
    else FreeSlot(s, j + 1)
  }

  lemma {:induction false} SearchLooksEverywhere(s: Slots, j: nat, k: nat)
    requires s.WellFormed() && j <= k < |s.inUse| && FreeSlot(s, j) == None
    ensures s.inUse[Nth(s, k)]
    decreases k - j
  {
    if j < k {
      SearchLooksEverywhere(s, j + 1, k);
    }
  }

  /** The search misses no slot: it finds none only when all are in use. */
  lemma SearchIsComplete(s: Slots)
    requires s.WellFormed()
    ensures FreeSlot(s, 0) == None <==> forall i :: 0 <= i < |s.inUse| ==> s.inUse[i]
  {
    var n := |s.inUse|;
    if FreeSlot(s, 0) == None {
      forall i | 0 <= i < n
        ensures s.inUse[i]
      {
        var k := if i >= s.next then i - s.next else i - s.next + n;
        RoundRobin(s.next, k, n);
        SearchLooksEverywhere(s, 0, k);
      }
    }
  }

  lemma RoundRobin(next: nat, k: nat, n: nat)
    requires next < n && k < n
    ensures (next + k) % n == if next + k < n then next + k else next + k - n
  {
    if next + k >= n {
      assert (next + k) % n == (next + k - n) % n;
    }
  }

  function AfterReserve(s: Slots): (Slots, Reservation)
    requires s.WellFormed()
  {
    var f := FreeSlot(s, 0);
    if s.closed then (s, PoolClosed)
    else if f.None? then (s, Exhausted)
    else
      var t := s.(inUse := s.inUse[f.value := true], next := (f.value + 1) % |s.inUse|);
      (t, if s.conns[f.value].Some? then Reuse(f.value, s.conns[f.value].value) else Dial(f.value))
  }

  function AfterDialFailed(s: Slots, idx: nat): Slots
    requires s.WellFormed() && idx < |s.inUse|
  {
    s.(inUse := s.inUse[idx := false])
  }

  function AfterDialed(s: Slots, idx: nat, conn: Conn): Slots
    requires s.WellFormed() && idx < |s.inUse|
  {
    s.(conns := s.conns[idx := Some(conn)])
  }

  /** Only a release after an error gives the slot back; a clean one changes nothing. */
  function AfterRelease(s: Slots, idx: int, hadErr: bool): Slots
    requires s.WellFormed()
  {
    if idx < 0 || idx >= |s.conns| || !hadErr then s
    else s.(conns := s.conns[idx := None], inUse := s.inUse[idx := false])
  }

  function AfterClose(s: Slots): Slots
    requires s.WellFormed()
  {
    if s.closed then s
    else Slots(seq(|s.conns|, _ => None),
               seq(|s.inUse|, i requires 0 <= i < |s.inUse| => s.inUse[i] && s.conns[i].None?), s.next, true)
  }

  // ----- the code under the lock -----

  class UpstreamPool {
    const conns: array<Option<Conn>>
    const inUse: array<bool>
    var next: nat
    var closed: bool

    ghost predicate Valid()
      reads this
    {
      conns.Length == inUse.Length > 0 && next < conns.Length
    }

    ghost function State(): (s: Slots)
      requires Valid()
      reads this, conns, inUse
      ensures s.WellFormed()
    {
      Slots(conns[..], inUse[..], next, closed)
    }

    constructor (maxConns: nat)
      requires maxConns >= 1
      ensures Valid() && fresh(conns) && fresh(inUse)
      ensures State() == Slots(seq(maxConns, _ => None), seq(maxConns, _ => false), 0, false)
    {
      conns := new Option<Conn>[maxConns](_ => None);
      inUse := new bool[maxConns](_ => false);
      next, closed := 0, false;
    }

    method FindFree() returns (f: Option<nat>)
      requires Valid()
      ensures f == FreeSlot(State(), 0)
    {
      ghost var s := State();
      for i := 0 to conns.Length
        invariant FreeSlot(s, 0) == FreeSlot(s, i)
      {
        var idx := (next + i) % conns.Length;
        if !inUse[idx] {
          return Some(idx);
        }
      }
      return None;
    }

    /** The first half of getTCPConn, up to returning or unlocking for the dial. */
    method Reserve() returns (r: Reservation)
      requires Valid()
      modifies this`next, inUse
      ensures Valid() && (State(), r) == AfterReserve(old(State()))
    {
      if closed {
        return PoolClosed;
      }
      var f := FindFree();
      if f.None? {
        return Exhausted;
      }
      var idx := f.value;
      inUse[idx] := true;
      next := (idx + 1) % conns.Length;
      if conns[idx].Some? {
        return Reuse(idx, conns[idx].value);
      }
      return Dial(idx);
    }

    /** The second half, relocked after the dial. */
    method DialFailed(idx: nat)
      requires Valid() && idx < inUse.Length
      modifies inUse
      ensures Valid() && State() == AfterDialFailed(old(State()), idx)
    {
      inUse[idx] := false;
    }

    method Dialed(idx: nat, conn: Conn)
      requires Valid() && idx < conns.Length
      modifies conns
      ensures Valid() && State() == AfterDialed(old(State()), idx, conn)
    {
      conns[idx] := Some(conn);
    }

    method Release(idx: int, hadErr: bool)
      requires Valid()
      modifies conns, inUse
      ensures Valid() && State() == AfterRelease(old(State()), idx, hadErr)
    {
      if idx < 0 || idx >= conns.Length {
        return;
      }
      if hadErr {
        if conns[idx].Some? {
          conns[idx] := None;
        }
        inUse[idx] := false;
      }
    }

    method Close()
      requires Valid()
      modifies this`closed, conns, inUse
      ensures Valid() && State() == AfterClose(old(State()))
    {
      if closed {
        return;
      }
      closed := true;
      for i := 0 to conns.Length
        invariant Valid() && closed
        invariant forall j :: 0 <= j < i ==> conns[j] == None && inUse[j] == (old(inUse[j]) && old(conns[j]) == None)
        invariant forall j :: i <= j < conns.Length ==> conns[j] == old(conns[j]) && inUse[j] == old(inUse[j])
      {
        if conns[i].Some? {
          conns[i] := None;
          inUse[i] := false;
        }
      }
    }
  }

  // ----- interleavings -----

  /** What a caller of getTCPConn is doing. A caller releases once per connection it got. */
  datatype Phase = Idle | Dialing(idx: nat) | Holding(idx: nat)

  /** clean counts the releases without error by callers that held a slot. */
  datatype State = State(slots: Slots, callers: seq<Phase>, clean: nat)

  datatype Action =
    | Get(c: nat)
    | DialFails(c: nat)                  // an error, or a connection that is not TCP
    | DialSucceeds(c: nat, conn: Conn)
    | Release(c: nat, hadErr: bool)
    | ClosePool

  function Init(maxConns: nat, callers: nat): State {
    State(Slots(seq(maxConns, _ => None), seq(maxConns, _ => false), 0, false), seq(callers, _ => Idle), 0)
  }

  ghost predicate Enabled(s: State, a: Action) {
    match a
    case Get(c) => c < |s.callers| && s.callers[c].Idle?
    case DialFails(c) => c < |s.callers| && s.callers[c].Dialing?
    case DialSucceeds(c, _) => c < |s.callers| && s.callers[c].Dialing?
    case Release(c, _) => c < |s.callers| && s.callers[c].Holding?
    case ClosePool => true
  }

  ghost predicate Bounded(s: State) {
    && s.slots.WellFormed()
    && forall c :: 0 <= c < |s.callers| && !s.callers[c].Idle? ==> s.callers[c].idx < |s.slots.conns|
  }

  ghost function Next(s: State, a: Action): State
    requires Bounded(s) && Enabled(s, a)
  {
    match a
    case Get(c) =>
      var (t, r) := AfterReserve(s.slots);
      var phase := match r
        case Reuse(idx, _) => Holding(idx)
        case Dial(idx) => Dialing(idx)
        case _ => Idle;
      s.(slots := t, callers := s.callers[c := phase])
    case DialFails(c) =>
      s.(slots := AfterDialFailed(s.slots, s.callers[c].idx), callers := s.callers[c := Idle])
    case DialSucceeds(c, conn) =>
      var idx := s.callers[c].idx;
      s.(slots := AfterDialed(s.slots, idx, conn), callers := s.callers[c := Holding(idx)])
    case Release(c, hadErr) =>
      State(AfterRelease(s.slots, s.callers[c].idx, hadErr), s.callers[c := Idle],
          if hadErr then s.clean else s.clean + 1)
    case ClosePool =>
      s.(slots := AfterClose(s.slots))
  }

  /** No two callers dial or hold the same slot. */
  ghost predicate Exclusive(s: State) {
    forall c, d :: 0 <= c < d < |s.callers| && !s.callers[c].Idle? && !s.callers[d].Idle? ==>
      s.callers[c].idx != s.callers[d].idx
  }

  ghost predicate IsDialed(s: State, i: nat) {
    Dialing(i) in s.callers
  }

  ghost predicate IsHeld(s: State, i: nat) {
    Holding(i) in s.callers
  }

  /** While the pool is open: a reserved slot without a connection is one being dialled; a
      slot with a connection is reserved; the slots callers have are as their phase says. */
  ghost predicate SlotSound(s: State, i: nat)
    requires Bounded(s) && i < |s.slots.conns|
  {
    && (s.slots.inUse[i] && s.slots.conns[i].None? <==> IsDialed(s, i))
    && (s.slots.conns[i].Some? ==> s.slots.inUse[i])
    && (IsHeld(s, i) ==> s.slots.conns[i].Some?)
  }

  ghost predicate Inv(s: State) {
    && Bounded(s) && Exclusive(s)
    && (!s.slots.closed ==> forall i :: 0 <= i < |s.slots.conns| ==> SlotSound(s, i))
  }

  lemma InitHasInv(maxConns: nat, callers: nat)
    requires maxConns >= 1
    ensures Inv(Init(maxConns, callers))
  {
  }

  lemma NextIsBounded(s: State, a: Action)
    requires Bounded(s) && Enabled(s, a)
    ensures Bounded(Next(s, a)) && |Next(s, a).callers| == |s.callers|
    ensures |Next(s, a).slots.conns| == |s.slots.conns|
  {
  }

  /** A free slot of an open pool is in nobody's hands. */
  lemma FreeSlotIsNobodys(s: State, i: nat, d: nat)
    requires Inv(s) && !s.slots.closed && i < |s.slots.conns| && !s.slots.inUse[i] && d < |s.callers|
    ensures s.callers[d].Idle? || s.callers[d].idx != i
  {
    assert SlotSound(s, i);
    assert s.callers[d] == Dialing(i) ==> IsDialed(s, i);
    assert s.callers[d] == Holding(i) ==> IsHeld(s, i);
  }

  lemma NextIsExclusive(s: State, a: Action)
    requires Inv(s) && Enabled(s, a)
    ensures Exclusive(Next(s, a))
  {
    if a.Get? && !s.slots.closed && FreeSlot(s.slots, 0).Some? {
      forall d | 0 <= d < |s.callers|
        ensures s.callers[d].Idle? || s.callers[d].idx != FreeSlot(s.slots, 0).value
      {
        FreeSlotIsNobodys(s, FreeSlot(s.slots, 0).value, d);
      }
    }
  }

  /** Who is in which phase after one caller's phase changes. */
  lemma PhaseAfter(s: State, c: nat, phase: Phase, x: Phase)
    requires Exclusive(s) && c < |s.callers| && !x.Idle?
    ensures x in s.callers[c := phase] <==> x == phase || (x in s.callers && x != s.callers[c])
  {
    var r := s.callers[c := phase];
    if d :| 0 <= d < |s.callers| && s.callers[d] == x && d != c {
      assert r[d] == x;
    }
    assert r[c] == phase;
  }

  lemma NextIsSlotSound(s: State, a: Action, i: nat)
    requires Inv(s) && Enabled(s, a) && i < |s.slots.conns|
    ensures Bounded(Next(s, a)) && |Next(s, a).slots.conns| == |s.slots.conns|
    ensures !Next(s, a).slots.closed ==> SlotSound(Next(s, a), i)
  {
    NextIsBounded(s, a);
    if !s.slots.closed && !a.ClosePool? {
      var t := Next(s, a);
      assert SlotSound(s, i);
      PhaseAfter(s, a.c, t.callers[a.c], Dialing(i));
      PhaseAfter(s, a.c, t.callers[a.c], Holding(i));
      assert s.callers[a.c] in s.callers;
      if !s.callers[a.c].Idle? {
        NotBoth(s, a.c, i);
      }
    }
  }

  /** A slot is not dialled and held at once. */
  lemma NotBoth(s: State, c: nat, i: nat)
    requires Exclusive(s) && c < |s.callers|
    ensures !(Dialing(i) in s.callers && Holding(i) in s.callers)
  {
    if d :| 0 <= d < |s.callers| && s.callers[d] == Dialing(i) {
      assert forall e :: 0 <= e < |s.callers| && s.callers[e] == Holding(i) ==> e < d || d < e;
    }
  }

  lemma NextKeepsInv(s: State, a: Action)
    requires Inv(s) && Enabled(s, a)
    ensures Inv(Next(s, a))
  {
    NextIsBounded(s, a);
    NextIsExclusive(s, a);
    forall i | 0 <= i < |s.slots.conns| && !Next(s, a).slots.closed
      ensures SlotSound(Next(s, a), i)
    {
      NextIsSlotSound(s, a, i);
    }
  }

  // ----- what a clean release leaves behind -----

  /** Reserved, connected, and in nobody's hands. */
  ghost predicate Stranded(s: State, i: nat)
    requires Bounded(s) && i < |s.slots.conns|
  {
    s.slots.inUse[i] && s.slots.conns[i].Some? && !IsHeld(s, i)
  }

  ghost function StrandedSlots(s: State): set<nat>
    requires Bounded(s)
  {
    set i: nat | i < |s.slots.conns| && Stranded(s, i)
  }

  /** While the pool is open, a release strands the slot if it was clean and frees it if not;
      no other step changes which slots are stranded. */
  lemma StrandedAfter(s: State, a: Action)
    requires Inv(s) && Enabled(s, a) && !Next(s, a).slots.closed
    ensures Inv(Next(s, a))
    ensures StrandedSlots(Next(s, a)) ==
            StrandedSlots(s) + if a.Release? && !a.hadErr then {s.callers[a.c].idx} else {}
    ensures a.Release? ==> s.callers[a.c].idx !in StrandedSlots(s)
    ensures a.Release? ==> (!Next(s, a).slots.inUse[s.callers[a.c].idx] <==> a.hadErr)
  {
    NextKeepsInv(s, a);
    var t := Next(s, a);
    assert s.callers[a.c] in s.callers;
    forall i: nat | i < |s.slots.conns|
      ensures i in StrandedSlots(t) <==> i in StrandedSlots(s) || (a.Release? && !a.hadErr && i == s.callers[a.c].idx)
      ensures a.Release? && i == s.callers[a.c].idx ==> i !in StrandedSlots(s) && s.slots.inUse[i]
    {
      assert SlotSound(s, i) && SlotSound(t, i);
      PhaseAfter(s, a.c, t.callers[a.c], Holding(i));
    }
  }

  datatype Outcome = Stuck | At(s: State)

  ghost function Run(s: State, actions: seq<Action>): Outcome {
    if |actions| == 0 then At(s)
    else
      var a := actions[|actions| - 1];
      match Run(s, actions[..|actions| - 1])
      case Stuck => Stuck
      case At(t) => if Bounded(t) && Enabled(t, a) then At(Next(t, a)) else Stuck
  }

  ghost predicate Reachable(s: State, maxConns: nat, callers: nat, actions: seq<Action>) {
    maxConns >= 1 && Run(Init(maxConns, callers), actions) == At(s)
  }

  lemma {:induction false} ReachableHasInv(s: State, maxConns: nat, callers: nat, actions: seq<Action>)
    requires Reachable(s, maxConns, callers, actions)
    ensures Inv(s) && |s.slots.conns| == maxConns
    ensures !s.slots.closed ==> |StrandedSlots(s)| == s.clean
    decreases |actions|
  {
    if |actions| == 0 {
      InitHasInv(maxConns, callers);
      assert StrandedSlots(s) == {};
    } else {
      var init, a := actions[..|actions| - 1], actions[|actions| - 1];
      var t := Run(Init(maxConns, callers), init).s;
      ReachableHasInv(t, maxConns, callers, init);
      NextKeepsInv(t, a);
      NextIsBounded(t, a);
      if !s.slots.closed {
        StrandedAfter(t, a);
      }
    }
  }

  /** Main result: in every interleaving no two callers dial or hold the same slot, before and
      after Close; while the pool is open a reserved slot without a connection is exactly one
      that some caller is dialling. */
  lemma SlotsAreExclusive(s: State, maxConns: nat, callers: nat, actions: seq<Action>)
    requires Reachable(s, maxConns, callers, actions)
    ensures forall c, d :: 0 <= c < d < |s.callers| && !s.callers[c].Idle? && !s.callers[d].Idle? ==>
              s.callers[c].idx != s.callers[d].idx
    ensures !s.slots.closed ==>
              |s.slots.inUse| == |s.slots.conns| == maxConns &&
              forall i :: 0 <= i < maxConns ==>
                  (s.slots.inUse[i] && s.slots.conns[i].None? <==> Dialing(i) in s.callers)
  {
    ReachableHasInv(s, maxConns, callers, actions);
    if !s.slots.closed {
      forall i | 0 <= i < maxConns
        ensures s.slots.inUse[i] && s.slots.conns[i].None? <==> Dialing(i) in s.callers
      {
        assert SlotSound(s, i);
      }
    }
  }

  /** The search for a slot never comes upon a free one that has a connection: while the pool
      is open no connection is ever handed out a second time. */
  lemma NoConnectionIsReused(s: State, maxConns: nat, callers: nat, actions: seq<Action>)
    requires Reachable(s, maxConns, callers, actions)
    ensures s.slots.WellFormed() && !AfterReserve(s.slots).1.Reuse?
  {
    ReachableHasInv(s, maxConns, callers, actions);
    var f := FreeSlot(s.slots, 0);
    if !s.slots.closed && f.Some? {
      assert SlotSound(s, f.value);
    }
  }

  /** Main result: an open pool of maxConns slots sees at most maxConns releases without an
      error in its whole life, and once it has seen that many it is exhausted for good. */
  lemma CleanReleasesExhaustThePool(s: State, maxConns: nat, callers: nat, actions: seq<Action>)
    requires Reachable(s, maxConns, callers, actions) && !s.slots.closed
    ensures s.clean <= maxConns && s.slots.WellFormed()
    ensures s.clean == maxConns ==> AfterReserve(s.slots) == (s.slots, Exhausted)
  {
    ReachableHasInv(s, maxConns, callers, actions);
    var stranded, all := StrandedSlots(s), UpTo(maxConns);
    assert stranded <= all;
    SubsetCardinality(stranded, all);
    if s.clean == maxConns {
      forall i: nat | i < maxConns
        ensures s.slots.inUse[i]
      {
        assert i in all;
      }
      SearchIsComplete(s.slots);
    }
  }

  ghost function UpTo(n: nat): (r: set<nat>)
    ensures |r| == n && forall i: nat :: i in r <==> i < n
  {
    if n == 0 then {} else UpTo(n - 1) + {n - 1}
  }

  lemma {:induction false} SubsetCardinality(a: set<nat>, b: set<nat>)
    requires a <= b
    ensures |a| <= |b| && (|a| == |b| ==> a == b)
    decreases |a|
  {
    if a != {} {
      var x :| x in a;
      SubsetCardinality(a - {x}, b - {x});
      assert a == (a - {x}) + {x} && b == (b - {x}) + {x};
    } else {
      assert |b| == 0 ==> b == {};
    }
  }

  function Rounds(k: nat): seq<Action> {
    if k == 0 then [] else Rounds(k - 1) + [Get(0), DialSucceeds(0, 0), Release(0, false)]
  }

  /** With its one caller idle, a pool with fewer stranded slots than slots has a free one. */
  lemma IdlePoolHasFreeSlot(s: State)
    requires Inv(s) && !s.slots.closed && s.callers == [Idle] && |StrandedSlots(s)| < |s.slots.conns|
    ensures FreeSlot(s.slots, 0).Some?
  {
    if FreeSlot(s.slots, 0) == None {
      SearchIsComplete(s.slots);
      forall i | i in UpTo(|s.slots.conns|)
        ensures i in StrandedSlots(s)
      {
        assert SlotSound(s, i);
      }
      SubsetCardinality(UpTo(|s.slots.conns|), StrandedSlots(s));
    }
  }

  lemma RunAppends(s: State, actions: seq<Action>, a: Action)
    ensures Run(s, actions + [a]) ==
            match Run(s, actions)
            case Stuck => Stuck
            case At(t) => if Bounded(t) && Enabled(t, a) then At(Next(t, a)) else Stuck
  {
    assert (actions + [a])[..|actions|] == actions;
  }

  /** One round of a single caller: it gets a slot, dials, and releases without an error. */
  lemma Round(start: State, done: seq<Action>, t: State) returns (s: State)
    requires Run(start, done) == At(t) && Inv(t) && !t.slots.closed && t.callers == [Idle]
    requires FreeSlot(t.slots, 0).Some? && !AfterReserve(t.slots).1.Reuse?
    ensures Run(start, done + [Get(0)] + [DialSucceeds(0, 0)] + [Release(0, false)]) == At(s)
    ensures !s.slots.closed && s.clean == t.clean + 1 && s.callers == [Idle]
  {
    var t1 := Next(t, Get(0));
    NextIsBounded(t, Get(0));
    RunAppends(start, done, Get(0));
    var t2 := Next(t1, DialSucceeds(0, 0));
    NextIsBounded(t1, DialSucceeds(0, 0));
    RunAppends(start, done + [Get(0)], DialSucceeds(0, 0));
    s := Next(t2, Release(0, false));
    RunAppends(start, done + [Get(0)] + [DialSucceeds(0, 0)], Release(0, false));
    assert s.callers == [Idle];
  }

  /** The limit is reached: a single caller that gets, dials and cleanly releases one slot
      after another uses the pool up in maxConns rounds. */
  lemma {:induction false} SequentialUseExhausts(maxConns: nat, k: nat) returns (s: State)
    requires maxConns >= 1 && k <= maxConns
    ensures Reachable(s, maxConns, 1, Rounds(k)) && !s.slots.closed && s.clean == k && s.callers == [Idle]
  {
    var start := Init(maxConns, 1);
    if k == 0 {
      s := start;
    } else {
      var t := SequentialUseExhausts(maxConns, k - 1);
      var done := Rounds(k - 1);
      ReachableHasInv(t, maxConns, 1, done);
      IdlePoolHasFreeSlot(t);
      NoConnectionIsReused(t, maxConns, 1, done);
      s := Round(start, done, t);
      assert Rounds(k) == done + [Get(0)] + [DialSucceeds(0, 0)] + [Release(0, false)];
    }
  }

  // ----- what the code under the lock does, slot by slot -----

  /** Slot i lies on the way from next to idx, going up and around. */
  predicate OnTheWay(s: Slots, i: nat, idx: nat) {
    if s.next <= idx then s.next <= i < idx else i >= s.next || i < idx
  }

  /** The slot looked at k-th, counting up from next and on from 0 past the last. */
  function Turn(s: Slots, k: nat): (i: nat)
    requires s.WellFormed() && k < |s.inUse|
    ensures i < |s.inUse|
  {
    if s.next + k < |s.inUse| then s.next + k else s.next + k - |s.inUse|
  }

  lemma NthIsTurn(s: Slots, k: nat)
    requires s.WellFormed() && k < |s.inUse|
    ensures Nth(s, k) == Turn(s, k)
  {
    RoundRobin(s.next, k, |s.inUse|);
  }

  /** The slot the search finds is the j-th it looks at, and those before are in use. */
  lemma {:induction false} FoundAt(s: Slots, from: nat) returns (j: nat)
    requires s.WellFormed() && from <= |s.inUse| && FreeSlot(s, from).Some?
    ensures from <= j < |s.inUse| && FreeSlot(s, from) == Some(Turn(s, j))
    ensures forall m :: from <= m < j ==> s.inUse[Turn(s, m)]
    decreases |s.inUse| - from
  {
    NthIsTurn(s, from);
    if !s.inUse[Turn(s, from)] {
      j := from;
    } else {
      j := FoundAt(s, from + 1);
    }
  }

  lemma WayIsInUse(s: Slots, idx: nat, i: nat)
    requires s.WellFormed() && FreeSlot(s, 0) == Some(idx) && i < |s.inUse| && OnTheWay(s, i, idx)
    ensures s.inUse[i]
  {
    var j := FoundAt(s, 0);
    var m := if i >= s.next then i - s.next else i - s.next + |s.inUse|;
    assert Turn(s, m) == i;
  }

  /** A closed pool refuses, and an open one only if all slots are in use. Otherwise the first
      free slot from next on, going up and around, is taken and nothing else; the following
      slot is the next to be looked at first. */
  lemma ReserveIsRoundRobin(s: Slots)
    requires s.WellFormed()
    ensures var (t, r) := AfterReserve(s);
            && (r == PoolClosed <==> s.closed)
            && (r == Exhausted <==> !s.closed && forall i :: 0 <= i < |s.inUse| ==> s.inUse[i])
            && (r == PoolClosed || r == Exhausted ==> t == s)
    ensures var (t, r) := AfterReserve(s);
            r != PoolClosed && r != Exhausted ==>
              && r.idx < |s.inUse| && !s.inUse[r.idx]
              && (forall i :: 0 <= i < |s.inUse| && OnTheWay(s, i, r.idx) ==> s.inUse[i])
              && t == Slots(s.conns, s.inUse[r.idx := true], if r.idx + 1 == |s.inUse| then 0 else r.idx + 1, false)
              && r == if s.conns[r.idx].Some? then Reuse(r.idx, s.conns[r.idx].value) else Dial(r.idx)
  {
    SearchIsComplete(s);
    var f := FreeSlot(s, 0);
    if !s.closed && f.Some? {
      forall i | 0 <= i < |s.inUse| && OnTheWay(s, i, f.value)
        ensures s.inUse[i]
      {
        WayIsInUse(s, f.value, i);
      }
      RoundRobin(f.value, if |s.inUse| == 1 then 0 else 1, |s.inUse|);
    }
  }

  /** In every interleaving, closing the pool leaves no connection in any slot, and reserved
      are exactly the slots some caller is still dialling for. */
  lemma CloseLeavesNoConnection(s: State, maxConns: nat, callers: nat, actions: seq<Action>)
    requires Reachable(s, maxConns, callers, actions) && !s.slots.closed
    ensures s.slots.WellFormed()
    ensures var t := AfterClose(s.slots);
            && t.closed && |t.conns| == |t.inUse| == maxConns
            && forall i :: 0 <= i < maxConns ==> t.conns[i] == None && (t.inUse[i] <==> Dialing(i) in s.callers)
  {
    ReachableHasInv(s, maxConns, callers, actions);
    forall i | 0 <= i < maxConns
      ensures s.slots.inUse[i] && s.slots.conns[i].None? <==> Dialing(i) in s.callers
    {
      assert SlotSound(s, i);
    }
  }
}
