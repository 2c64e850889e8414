/** The drop-on-full queue shared by the query-log writer and the event exporter, as a state
    machine over atomic steps: producers submit, workers take entries, carry out the stages
    of each (save and count for a log row; one send per sink for an event) and go on until
    the closed queue is empty. Entries are numbered in submission order.
 */
module QueueProtocol {
  datatype Worker = Idle | Busy(entry: nat, done: nat) | Exited

  datatype State = State(
    queue: seq<nat>, workers: seq<Worker>, closed: bool,
    submitted: nat, dropped: seq<nat>, finished: seq<nat>,
    delivered: seq<seq<nat>>)          // per stage, the entries it has been carried out for

  datatype Config = Config(capacity: nat, workers: nat, stages: nat)

  datatype Action = Submit | Take(w: nat) | Perform(w: nat) | Finish(w: nat) | Exit(w: nat) | Close

  function Init(c: Config): State {
    State([], seq(c.workers, _ => Idle), false, 0, [], [], seq(c.stages, _ => []))
  }

  /** Submitting after Close panics in the original, so it is not a step. */
  predicate Enabled(c: Config, s: State, a: Action) {
    match a
    case Submit => !s.closed
    case Take(w) => w < |s.workers| && s.workers[w] == Idle && s.queue != []
    case Perform(w) => w < |s.workers| && s.workers[w].Busy? && s.workers[w].done < |s.delivered|
    case Finish(w) => w < |s.workers| && s.workers[w].Busy? && s.workers[w].done == |s.delivered|
    case Exit(w) => w < |s.workers| && s.workers[w] == Idle && s.closed && s.queue == []
    case Close => !s.closed
  }

  function Next(c: Config, s: State, a: Action): State
    requires Enabled(c, s, a)
  {
    match a
    case Submit =>
      if |s.queue| < c.capacity
      then s.(queue := s.queue + [s.submitted], submitted := s.submitted + 1)
      else s.(dropped := s.dropped + [s.submitted], submitted := s.submitted + 1)
    case Take(w) =>
      s.(queue := s.queue[1..], workers := s.workers[w := Busy(s.queue[0], 0)])
    case Perform(w) =>
      var Busy(e, k) := s.workers[w];
      s.(workers := s.workers[w := Busy(e, k + 1)], delivered := s.delivered[k := s.delivered[k] + [e]])
    case Finish(w) =>
      s.(workers := s.workers[w := Idle], finished := s.finished + [s.workers[w].entry])
    case Exit(w) =>
      s.(workers := s.workers[w := Exited])
    case Close =>
      s.(closed := true)
  }

  /** States reached by running a list of actions; Stuck when one of them is not enabled. */
  datatype Outcome = Stuck | At(s: State)

  function Run(c: Config, s: State, actions: seq<Action>): Outcome {
    if |actions| == 0 then At(s)
    else
      match Run(c, s, actions[..|actions| - 1])
      case Stuck => Stuck
      case At(t) => if Enabled(c, t, actions[|actions| - 1]) then At(Next(c, t, actions[|actions| - 1])) else Stuck
  }

  // ----- conservation -----

  function Times(s: seq<nat>, e: nat): nat {
    multiset(s)[e]
  }

  function HeldBy(w: Worker, k: nat, e: nat): nat {
    if w.Busy? && w.done >= k && w.entry == e then 1 else 0
  }

  /** How often e is in a worker's hands with at least k stages done. */
  function InFlight(ws: seq<Worker>, k: nat, e: nat): nat {
    if |ws| == 0 then 0 else InFlight(ws[..|ws| - 1], k, e) + HeldBy(ws[|ws| - 1], k, e)
  }

  function BusyWorkers(ws: seq<Worker>): nat {
    if |ws| == 0 then 0 else BusyWorkers(ws[..|ws| - 1]) + if ws[|ws| - 1].Busy? then 1 else 0
  }

  lemma {:induction false} WorkerUpdate(ws: seq<Worker>, i: nat, w: Worker, k: nat, e: nat)
    requires i < |ws|
    ensures InFlight(ws[i := w], k, e) + HeldBy(ws[i], k, e) == InFlight(ws, k, e) + HeldBy(w, k, e)
    ensures BusyWorkers(ws[i := w]) + (if ws[i].Busy? then 1 else 0) == BusyWorkers(ws) + if w.Busy? then 1 else 0
  {
    var n := |ws| - 1;
    if i == n {
      assert ws[i := w][..n] == ws[..n];
    } else {
      WorkerUpdate(ws[..n], i, w, k, e);
      assert ws[i := w][..n] == ws[..n][i := w];
    }
  }

  /** A submitted entry is in one place, once; one not yet submitted is nowhere. */
  ghost predicate ConservesEntry(s: State, e: nat) {
    Times(s.dropped, e) + Times(s.queue, e) + InFlight(s.workers, 0, e) + Times(s.finished, e)
    == if e < s.submitted then 1 else 0
  }

  ghost predicate ConservesCount(s: State) {
    s.submitted == |s.dropped| + |s.queue| + BusyWorkers(s.workers) + |s.finished|
  }

  /** Stage k has been carried out for e as often as e is finished or in flight past it. */
  ghost predicate DeliversOnce(s: State, k: nat, e: nat)
    requires k < |s.delivered|
  {
    Times(s.delivered[k], e) == Times(s.finished, e) + InFlight(s.workers, k + 1, e)
  }

  ghost predicate WorkersSound(c: Config, s: State) {
    && |s.workers| == c.workers && |s.delivered| == c.stages && |s.queue| <= c.capacity
    && (forall i :: 0 <= i < |s.workers| && s.workers[i].Busy? ==> s.workers[i].done <= c.stages)
    && (forall i :: 0 <= i < |s.workers| && s.workers[i] == Exited ==> s.closed && s.queue == [])
  }

  ghost predicate Inv(c: Config, s: State) {
    && WorkersSound(c, s) && ConservesCount(s)
    && (forall e :: ConservesEntry(s, e))
    && (forall k, e :: 0 <= k < c.stages ==> DeliversOnce(s, k, e))
  }

  lemma {:induction false} InitialInFlight(n: nat, k: nat, e: nat)
    ensures InFlight(seq(n, _ => Idle), k, e) == 0
    ensures BusyWorkers(seq(n, _ => Idle)) == 0
  {
    if n > 0 {
      InitialInFlight(n - 1, k, e);
      assert seq(n, _ => Idle)[..n - 1] == seq(n - 1, _ => Idle);
    }
  }

  lemma InitHasInv(c: Config)
    ensures Inv(c, Init(c))
  {
    var s := Init(c);
    forall e
      ensures ConservesEntry(s, e)
    {
      InitialInFlight(c.workers, 0, e);
    }
    forall k, e | 0 <= k < c.stages
      ensures DeliversOnce(s, k, e)
    {
      InitialInFlight(c.workers, k + 1, e);
    }
    InitialInFlight(c.workers, 0, 0);
  }

  lemma NextConserves(c: Config, s: State, a: Action, e: nat)
    requires ConservesEntry(s, e) && ConservesCount(s) && Enabled(c, s, a)
    ensures ConservesEntry(Next(c, s, a), e) && ConservesCount(Next(c, s, a))
  {
    match a
    case Submit => SubmitConserves(c, s, e);
    case Close =>
    case Take(w) => TakeConserves(c, s, w, e);
    case _ => WorkConserves(c, s, a, e);
  }

  lemma SubmitConserves(c: Config, s: State, e: nat)
    requires ConservesEntry(s, e) && ConservesCount(s) && Enabled(c, s, Submit)
    ensures ConservesEntry(Next(c, s, Submit), e) && ConservesCount(Next(c, s, Submit))
  {
    TimesAppend(s.queue, s.submitted, e);
    TimesAppend(s.dropped, s.submitted, e);
  }

  lemma TimesAppend(s: seq<nat>, x: nat, e: nat)
    ensures Times(s + [x], e) == Times(s, e) + if x == e then 1 else 0
  {
  }

  lemma TakeConserves(c: Config, s: State, w: nat, e: nat)
    requires ConservesEntry(s, e) && ConservesCount(s) && Enabled(c, s, Take(w))
    ensures ConservesEntry(Next(c, s, Take(w)), e) && ConservesCount(Next(c, s, Take(w)))
  {
    WorkerUpdate(s.workers, w, Busy(s.queue[0], 0), 0, e);
    assert s.queue == [s.queue[0]] + s.queue[1..];
    assert Times(s.queue, e) == Times(s.queue[1..], e) + if s.queue[0] == e then 1 else 0;
  }

  lemma WorkConserves(c: Config, s: State, a: Action, e: nat)
    requires ConservesEntry(s, e) && ConservesCount(s) && Enabled(c, s, a) && (a.Perform? || a.Finish? || a.Exit?)
    ensures ConservesEntry(Next(c, s, a), e) && ConservesCount(Next(c, s, a))
  {
    WorkerUpdate(s.workers, a.w, Next(c, s, a).workers[a.w], 0, e);
    if a.Finish? {
      TimesAppend(s.finished, s.workers[a.w].entry, e);
    }
  }

  lemma NextDeliversOnce(c: Config, s: State, a: Action, k: nat, e: nat)
    requires Enabled(c, s, a) && k < |s.delivered| && DeliversOnce(s, k, e) && WorkersSound(c, s)
    ensures DeliversOnce(Next(c, s, a), k, e)
  {
    var t := Next(c, s, a);
    if !a.Submit? && !a.Close? {
      WorkerUpdate(s.workers, a.w, t.workers[a.w], k + 1, e);
    }
  }

  lemma NextKeepsWorkersSound(c: Config, s: State, a: Action)
    requires WorkersSound(c, s) && Enabled(c, s, a)
    ensures WorkersSound(c, Next(c, s, a))
  {
  }

  lemma NextKeepsInv(c: Config, s: State, a: Action)
    requires Inv(c, s) && Enabled(c, s, a)
    ensures Inv(c, Next(c, s, a))
  {
    var t := Next(c, s, a);
    NextKeepsWorkersSound(c, s, a);
    forall e
      ensures ConservesEntry(t, e) && ConservesCount(t)
    {
      assert ConservesEntry(s, e);
      NextConserves(c, s, a, e);
    }
    assert ConservesEntry(t, 0);
    forall k, e | 0 <= k < c.stages
      ensures DeliversOnce(t, k, e)
    {
      assert DeliversOnce(s, k, e);
      NextDeliversOnce(c, s, a, k, e);
    }
  }

  /** Every state of every interleaving satisfies the invariant. */
  lemma {:induction false} RunKeepsInv(c: Config, s: State, actions: seq<Action>)
    requires Inv(c, s)
    ensures var r := Run(c, s, actions); r.At? ==> Inv(c, r.s)
  {
    if |actions| > 0 {
      var init := actions[..|actions| - 1];
      RunKeepsInv(c, s, init);
      var r := Run(c, s, init);
      if r.At? && Enabled(c, r.s, actions[|actions| - 1]) {
        NextKeepsInv(c, r.s, actions[|actions| - 1]);
      }
    }
  }

  /** Main result: in every interleaving the submitted entries are exactly the dropped, queued,
      in-flight and finished ones, and no entry is in two of these places or in one twice. */
  lemma Conservation(c: Config, actions: seq<Action>, e: nat)
    ensures var r := Run(c, Init(c), actions);
            r.At? ==>
              var s := r.s;
              && s.submitted == |s.dropped| + |s.queue| + BusyWorkers(s.workers) + |s.finished|
              && Times(s.dropped, e) + Times(s.queue, e) + InFlight(s.workers, 0, e) + Times(s.finished, e)
                 == (if e < s.submitted then 1 else 0)
  {
    InitHasInv(c);
    RunKeepsInv(c, Init(c), actions);
    var r := Run(c, Init(c), actions);
    assert r.At? ==> ConservesEntry(r.s, e);
  }

  /** An entry is dropped only by a Submit that finds the queue full. */
  lemma DropsOnlyWhenFull(c: Config, s: State, a: Action)
    requires Inv(c, s) && Enabled(c, s, a)
    ensures Next(c, s, a).dropped != s.dropped <==> a.Submit? && |s.queue| == c.capacity
    ensures a.Submit? ==> s.submitted in Next(c, s, a).dropped || s.submitted in Next(c, s, a).queue
  {
    if a.Submit? && |s.queue| == c.capacity {
      assert |Next(c, s, a).dropped| == |s.dropped| + 1;
    }
  }

  // ----- the drain after Close -----

  function Weight(c: Config, w: Worker): nat {
    match w
    case Idle => 1
    case Busy(_, k) => if k <= c.stages then c.stages - k + 2 else 0
    case Exited => 0
  }

  function WorkerWeight(c: Config, ws: seq<Worker>): nat {
    if |ws| == 0 then 0 else WorkerWeight(c, ws[..|ws| - 1]) + Weight(c, ws[|ws| - 1])
  }

  /** What is left to do once no more entries can come. */
  function Rank(c: Config, s: State): nat {
    |s.queue| * (c.stages + 3) + WorkerWeight(c, s.workers)
  }

  lemma {:induction false} WorkerWeightUpdate(c: Config, ws: seq<Worker>, i: nat, w: Worker)
    requires i < |ws|
    ensures WorkerWeight(c, ws[i := w]) + Weight(c, ws[i]) == WorkerWeight(c, ws) + Weight(c, w)
  {
    var n := |ws| - 1;
    if i == n {
      assert ws[i := w][..n] == ws[..n];
    } else {
      WorkerWeightUpdate(c, ws[..n], i, w);
      assert ws[i := w][..n] == ws[..n][i := w];
    }
  }

  /** Once closed, every step makes progress. */
  lemma DrainStepsDecrease(c: Config, s: State, a: Action)
    requires Inv(c, s) && s.closed && Enabled(c, s, a)
    ensures Next(c, s, a).closed && Rank(c, Next(c, s, a)) < Rank(c, s)
  {
    var t := Next(c, s, a);
    WorkerWeightUpdate(c, s.workers, a.w, t.workers[a.w]);
    if a.Take? {
      assert |s.queue| * (c.stages + 3) == |t.queue| * (c.stages + 3) + (c.stages + 3);
    }
  }

  predicate Drained(s: State) {
    s.queue == [] && forall i :: 0 <= i < |s.workers| ==> s.workers[i] == Exited
  }

  lemma SomeWorkerCanStep(c: Config, s: State, i: nat) returns (a: Action)
    requires Inv(c, s) && s.closed && i < |s.workers| && s.workers[i] != Exited
    ensures Enabled(c, s, a)
  {
    a := if s.workers[i].Busy? then if s.workers[i].done < c.stages then Perform(i) else Finish(i)
         else if s.queue == [] then Exit(i) else Take(i);
  }

  /** No closed state is stuck before it is drained, so Close's wait ends. */
  lemma DrainNeverBlocks(c: Config, s: State)
    requires Inv(c, s) && s.closed && c.workers > 0
    ensures Drained(s) <==> forall a :: !Enabled(c, s, a)
  {
    if !Drained(s) {
      assert s.workers[0] == Exited ==> s.queue == [];
      var i :| 0 <= i < |s.workers| && s.workers[i] != Exited;
      var a := SomeWorkerCanStep(c, s, i);
    }
  }

  lemma {:induction false} NothingHeld(ws: seq<Worker>, k: nat, e: nat)
    requires forall i :: 0 <= i < |ws| ==> ws[i] == Exited
    ensures InFlight(ws, k, e) == 0 && BusyWorkers(ws) == 0
  {
    if |ws| > 0 {
      NothingHeld(ws[..|ws| - 1], k, e);
    }
  }

  /** Main result: from any reachable closed state at most Rank steps remain, so the drain
      terminates; it neither takes in nor drops entries. */
  lemma {:induction false} DrainTerminates(c: Config, s: State, actions: seq<Action>)
    requires Inv(c, s) && s.closed && Run(c, s, actions).At?
    ensures var t := Run(c, s, actions).s;
            && Inv(c, t) && t.closed && t.submitted == s.submitted && t.dropped == s.dropped
            && |actions| + Rank(c, t) <= Rank(c, s)
  {
    if |actions| > 0 {
      var init, a := actions[..|actions| - 1], actions[|actions| - 1];
      DrainTerminates(c, s, init);
      DrainStepsDecrease(c, Run(c, s, init).s, a);
      NextKeepsInv(c, Run(c, s, init).s, a);
    }
  }

  /** When no step is left, every entry that was not dropped has been finished exactly once,
      with every stage carried out for it exactly once. */
  lemma DrainedIsComplete(c: Config, t: State, e: nat)
    requires Inv(c, t) && t.closed && c.workers > 0 && forall a :: !Enabled(c, t, a)
    ensures t.queue == [] && BusyWorkers(t.workers) == 0
    ensures |t.finished| == t.submitted - |t.dropped|
    ensures Times(t.finished, e) == if e < t.submitted && e !in t.dropped then 1 else 0
    ensures forall k :: 0 <= k < c.stages ==> Times(t.delivered[k], e) == Times(t.finished, e)
  {
    DrainNeverBlocks(c, t);
    NothingHeld(t.workers, 0, e);
    assert ConservesEntry(t, e);
    forall k | 0 <= k < c.stages
      ensures Times(t.delivered[k], e) == Times(t.finished, e)
    {
      assert DeliversOnce(t, k, e);
      NothingHeld(t.workers, k + 1, e);
    }
  }

  // ----- order -----

  predicate Ascending(s: seq<nat>) {
    forall i, j :: 0 <= i < j < |s| ==> s[i] < s[j]
  }

  function Hand(w: Worker, k: nat): seq<nat> {
    if w.Busy? && w.done >= k then [w.entry] else []
  }

  /** With one worker, finished, in-flight and queued entries line up in submission order. */
  ghost predicate InOrder(s: State)
    requires |s.workers| == 1
  {
    && Ascending(Line(s)) && (forall i :: 0 <= i < |Line(s)| ==> Line(s)[i] < s.submitted)
    && forall k :: 0 <= k < |s.delivered| ==> DeliveredInStep(s, k)
  }

  /** A stage has been carried out for what is finished and for what is in hand past it. */
  ghost predicate DeliveredInStep(s: State, k: nat)
    requires |s.workers| == 1 && k < |s.delivered|
  {
    s.delivered[k] == s.finished + Hand(s.workers[0], k + 1)
  }

  lemma NextDeliversInStep(c: Config, s: State, a: Action, k: nat)
    requires |s.workers| == 1 && Enabled(c, s, a) && k < |s.delivered| && DeliveredInStep(s, k)
    ensures |Next(c, s, a).workers| == 1 && |Next(c, s, a).delivered| == |s.delivered|
              && DeliveredInStep(Next(c, s, a), k)
  {
  }

  lemma NextKeepsOrder(c: Config, s: State, a: Action)
    requires |s.workers| == 1 && InOrder(s) && Enabled(c, s, a)
    ensures |Next(c, s, a).workers| == 1 && InOrder(Next(c, s, a))
  {
    var t := Next(c, s, a);
    LineIsKept(c, s, a);
    if a.Submit? {
      AscendingAppend(Line(s), s.submitted);
    }
    forall k | 0 <= k < |t.delivered|
      ensures DeliveredInStep(t, k)
    {
      NextDeliversInStep(c, s, a, k);
    }
  }

  /** The entries that are not dropped, in the order in which they go through. */
  function Line(s: State): seq<nat>
    requires |s.workers| == 1
  {
    s.finished + Hand(s.workers[0], 0) + s.queue
  }

  lemma LineIsKept(c: Config, s: State, a: Action)
    requires |s.workers| == 1 && Enabled(c, s, a)
    ensures |Next(c, s, a).workers| == 1
    ensures Line(Next(c, s, a)) == if a.Submit? && |s.queue| < c.capacity then Line(s) + [s.submitted] else Line(s)
  {
    if a.Take? {
      assert s.queue == [s.queue[0]] + s.queue[1..];
    }
  }

  lemma AscendingAppend(line: seq<nat>, e: nat)
    requires Ascending(line) && forall i :: 0 <= i < |line| ==> line[i] < e
    ensures Ascending(line + [e])
  {
  }

  /** The exporter's single worker hands every sink the accepted events in submission order. */
  lemma {:induction false} SingleWorkerDeliversInOrder(c: Config, actions: seq<Action>)
    requires c.workers == 1
    ensures var r := Run(c, Init(c), actions);
            r.At? ==> |r.s.workers| == 1 && InOrder(r.s) && forall k :: 0 <= k < |r.s.delivered| ==>
                Ascending(r.s.delivered[k])
  {
    if |actions| > 0 {
      var init := actions[..|actions| - 1];
      SingleWorkerDeliversInOrder(c, init);
      var r := Run(c, Init(c), init);
      if r.At? && Enabled(c, r.s, actions[|actions| - 1]) {
        NextKeepsOrder(c, r.s, actions[|actions| - 1]);
      }
    }
    var r := Run(c, Init(c), actions);
    if r.At? {
      var all := r.s.finished + Hand(r.s.workers[0], 0) + r.s.queue;
      forall k | 0 <= k < |r.s.delivered|
        ensures Ascending(r.s.delivered[k])
      {
        assert DeliveredInStep(r.s, k);
        assert r.s.delivered[k] <= all;
      }
    }
  }
}
