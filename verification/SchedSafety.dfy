/**
 What holds in every reachable state of the scheduler protocol, for both policies, every queue
 size and every interleaving: semaphore conservation, the meaning of each worker's permit, and
 the exact circumstances under which the shared counter can be trusted.
 */
module SchedSafety {
  import opened Sequences
  import opened SchedProtocol

  function Bit(b: bool): nat { if b then 1 else 0 }

  /** Between taking its permit and leaving the running list. */
  predicate Active(pc: WorkerPc) {
    pc.Working? || pc.Leaving? || pc.Loading? || pc.Storing? || pc.Releasing?
  }

  /** Between leaving the running list and posting the scheduler's semaphore. */
  predicate Handing(pc: WorkerPc) {
    pc.Dequeuing? || pc.Requeuing? || pc.Posting?
  }

  predicate Busy(pc: WorkerPc) { Active(pc) || Handing(pc) }

  /** Has not yet taken itself off the count of remaining workers. */
  predicate Unfinished(c: Config, pc: WorkerPc) {
    match pc
    case Releasing(i) => i < c.iterations
    case Dequeuing(i) => i < c.iterations
    case Requeuing(i) => i < c.iterations
    case Posting(i) => i < c.iterations
    case Finished => false
    case _ => true
  }

  predicate InRange(c: Config, pc: WorkerPc) {
    match pc
    case Waiting(i) => i <= c.iterations
    case Working(i) => i <= c.iterations
    case Releasing(i) => i <= c.iterations
    case Dequeuing(i) => c.policy.RoundRobin? && i <= c.iterations
    case Requeuing(i) => c.policy.RoundRobin? && i <= c.iterations
    case Posting(i) => i <= c.iterations
    case _ => true
  }

  function CountHanding(ws: seq<WorkerPc>): nat {
    if ws == [] then 0 else CountHanding(ws[..|ws| - 1]) + Bit(Handing(ws[|ws| - 1]))
  }

  function CountUnfinished(c: Config, ws: seq<WorkerPc>): nat {
    if ws == [] then 0 else CountUnfinished(c, ws[..|ws| - 1]) + Bit(Unfinished(c, ws[|ws| - 1]))
  }

  lemma {:induction false} CountUpdate(c: Config, ws: seq<WorkerPc>, w: nat, pc: WorkerPc)
    requires w < |ws|
    ensures CountHanding(ws[w := pc]) + Bit(Handing(ws[w])) == CountHanding(ws) + Bit(Handing(pc))
    ensures CountUnfinished(c, ws[w := pc]) + Bit(Unfinished(c, ws[w]))
         == CountUnfinished(c, ws) + Bit(Unfinished(c, pc))
  {
    var n := |ws| - 1;
    if w == n {
      assert ws[w := pc][..n] == ws[..n];
    } else {
      CountUpdate(c, ws[..n], w, pc);
      assert ws[w := pc][..n] == ws[..n][w := pc];
    }
  }

  /** A count is positive exactly when some worker is counted. */
  lemma {:induction false} CountWitness(c: Config, ws: seq<WorkerPc>)
    ensures CountHanding(ws) > 0 <==> exists w :: 0 <= w < |ws| && Handing(ws[w])
    ensures CountUnfinished(c, ws) > 0 <==> exists w :: 0 <= w < |ws| && Unfinished(c, ws[w])
  {
    if ws != [] {
      var n := |ws| - 1;
      CountWitness(c, ws[..n]);
      assert forall w :: 0 <= w < n ==> ws[..n][w] == ws[w];
    }
  }

  lemma {:induction false} CountInitial(c: Config, n: nat)
    ensures CountHanding(seq(n, _ => Entering)) == 0
    ensures CountUnfinished(c, seq(n, _ => Entering)) == n
  {
    if n > 0 {
      CountInitial(c, n - 1);
      assert seq(n, _ => Entering)[..n - 1] == seq(n - 1, _ => Entering);
    }
  }

  // ---- the invariant -----------------------------------------------------------------------

  /** A worker's place on the running list stands for exactly one of: its unused permit, its own
      activity, or the scheduler being about to post its permit. */
  ghost predicate PermitOf(s: State, w: nat)
    requires w < |s.worker| == |s.permits|
  {
    && s.permits[w] + Bit(Active(s.worker[w])) + Bit(s.sched == Waking(w)) == Bit(w in s.running)
    && (s.sched == Inserting(w) ==> w !in s.running)
  }

  ghost predicate PermitInv(c: Config, s: State)
  {
    && |s.permits| == |s.worker| == c.workers
    && Distinct(s.running)
    && (forall w :: 0 <= w < c.workers ==> PermitOf(s, w))
  }

  /** Free slots, running workers and hand-overs add up to what the semaphore was created with,
      plus one while the scheduler has put a worker on the list and not yet waited for it. */
  ghost predicate Conserved(c: Config, s: State) {
    s.slots + |s.running| + CountHanding(s.worker) + 1
      == c.queueSize + Bit(s.sched.Waking? || s.sched.Blocking?)
  }

  /** The counter never runs ahead of the workers. */
  ghost predicate CounterInv(c: Config, s: State) {
    && (s.started ==> s.remaining >= CountUnfinished(c, s.worker))
    && (forall w :: 0 <= w < |s.worker| && s.worker[w].Storing? ==>
          s.started && s.worker[w].v >= CountUnfinished(c, s.worker))
    && (s.sched.Stopped? ==> CountUnfinished(c, s.worker) == 0)
  }

  /** Nothing happens before the main thread has set the counter. */
  ghost predicate StartInv(c: Config, s: State) {
    && (!s.started ==> s.queue == [] && s.entered == [] && s.sched.AwaitingQueue?)
    && (forall w :: 0 <= w < |s.worker| ==>
          InRange(c, s.worker[w]) && (!s.started ==> s.worker[w].Entering?))
  }

  ghost predicate Inv(c: Config, s: State) {
    && Typed(c, s)
    && StartInv(c, s)
    && PermitInv(c, s)
    && Conserved(c, s)
    && CounterInv(c, s)
  }

  lemma InitInv(c: Config)
    requires c.queueSize >= 1
    ensures Inv(c, Init(c))
  {
    CountInitial(c, c.workers);
  }

  lemma StartStep(c: Config, s: State, l: Label)
    requires Typed(c, s) && StartInv(c, s) && Enabled(c, s, l)
    ensures StartInv(c, Apply(c, s, l))
  {
    hide RemoveFirst, IndexOf;
  }

  lemma PermitOfStep(c: Config, s: State, w: nat)
    requires Typed(c, s) && PermitInv(c, s) && w < c.workers && WorkerEnabled(s, w)
    ensures PermitOf(WorkerStep(c, s, w), w)
  {
    assert PermitOf(s, w);
    RemoveFirstDistinct(s.running, w);
  }

  lemma PermitOtherWorker(c: Config, s: State, w: nat, x: nat)
    requires Typed(c, s) && PermitInv(c, s) && w < c.workers && WorkerEnabled(s, w) && x < c.workers && x != w
    ensures PermitOf(WorkerStep(c, s, w), x)
  {
    assert PermitOf(s, x);
    RemoveFirstMembers(s.running, w);
  }

  lemma PermitWorkerStep(c: Config, s: State, w: nat)
    requires Typed(c, s) && PermitInv(c, s) && w < c.workers && WorkerEnabled(s, w)
    ensures PermitInv(c, WorkerStep(c, s, w))
  {
    RemoveFirstDistinct(s.running, w);
    var t := WorkerStep(c, s, w);
    forall x | 0 <= x < c.workers ensures PermitOf(t, x) {
      if x == w { PermitOfStep(c, s, w); } else { PermitOtherWorker(c, s, w, x); }
    }
  }

  lemma PermitSchedStep(c: Config, s: State, l: Label)
    requires Typed(c, s) && PermitInv(c, s) && Enabled(c, s, l) && !l.Worker?
    ensures PermitInv(c, Apply(c, s, l))
  {
    TypedStep(c, s, l);
    var t := Apply(c, s, l);
    if s.sched.Inserting? && l.Sched? {
      assert PermitOf(s, s.sched.w);
    }
    forall x | 0 <= x < c.workers ensures PermitOf(t, x) {
      assert PermitOf(s, x);
    }
  }

  lemma ConservedWorkerStep(c: Config, s: State, w: nat)
    requires Inv(c, s) && w < c.workers && WorkerEnabled(s, w)
    ensures Conserved(c, WorkerStep(c, s, w))
  {
    assert PermitOf(s, w);
    CountUpdate(c, s.worker, w, WorkerStep(c, s, w).worker[w]);
  }

  lemma CounterWorkerStep(c: Config, s: State, w: nat)
    requires Inv(c, s) && w < c.workers && WorkerEnabled(s, w)
    ensures CounterInv(c, WorkerStep(c, s, w))
  {
    CountUpdate(c, s.worker, w, WorkerStep(c, s, w).worker[w]);
  }

  lemma InvStep(c: Config, s: State, l: Label)
    requires Inv(c, s) && Enabled(c, s, l)
    ensures Inv(c, Apply(c, s, l))
  {
    TypedStep(c, s, l);
    StartStep(c, s, l);
    if l.Worker? {
      PermitWorkerStep(c, s, l.w);
      ConservedWorkerStep(c, s, l.w);
      CounterWorkerStep(c, s, l.w);
    } else {
      PermitSchedStep(c, s, l);
      if l.Main? { UnfinishedBound(c, s.worker); }
    }
  }

  lemma {:induction false} UnfinishedBound(c: Config, ws: seq<WorkerPc>)
    ensures CountUnfinished(c, ws) <= |ws|
  {
    if ws != [] { UnfinishedBound(c, ws[..|ws| - 1]); }
  }

  lemma {:induction false} InvReaches(c: Config, s: State, ls: seq<Label>, t: State)
    requires Inv(c, s) && Reaches(c, s, ls, t)
    ensures Inv(c, t)
    decreases |ls|
  {
    if ls != [] {
      InvStep(c, s, ls[0]);
      InvReaches(c, Apply(c, s, ls[0]), ls[1..], t);
    }
  }

  // ---- results for every queue size -----------------------------------------------------------

  /** Every reachable state: the semaphore's permits, the running workers and the hand-overs are
      conserved; no more than `queueSize` workers are on the running list, none of them twice; each
      worker holds at most one permit; and the scheduler only stops once every worker has taken
      itself off the count. */
  lemma Safety(c: Config, ls: seq<Label>, s: State)
    requires c.queueSize >= 1 && Reaches(c, Init(c), ls, s)
    ensures Inv(c, s)
    ensures |s.running| <= c.queueSize && Distinct(s.running)
    ensures forall w :: 0 <= w < c.workers ==>
              s.permits[w] <= 1 && (s.permits[w] == 1 || Active(s.worker[w]) ==> w in s.running)
    ensures s.sched.Stopped? ==> forall w :: 0 <= w < c.workers ==> !Unfinished(c, s.worker[w])
  {
    InitInv(c);
    InvReaches(c, Init(c), ls, s);
    forall w | 0 <= w < c.workers
      ensures s.permits[w] <= 1 && (s.permits[w] == 1 || Active(s.worker[w]) ==> w in s.running)
    {
      assert PermitOf(s, w);
    }
    CountWitness(c, s.worker);
  }

  // ---- a queue of size one: mutual exclusion ---------------------------------------------------

  lemma {:induction false} TwoHanding(ws: seq<WorkerPc>, v: nat, w: nat)
    requires v < w < |ws| && Handing(ws[v]) && Handing(ws[w])
    ensures CountHanding(ws) >= 2
  {
    var n := |ws| - 1;
    if w == n {
      CountWitness(Config(Fifo, 0, 0, 1), ws[..n]);
      assert Handing(ws[..n][v]);
    } else {
      TwoHanding(ws[..n], v, w);
    }
  }

  lemma TwoMembers(s: seq<nat>, v: nat, w: nat)
    requires v in s && w in s && v != w
    ensures |s| >= 2
  {
  }

  /** The one turn a queue of size one hands out: it is with `w` from the moment the scheduler has
      put `w` on the running list until `w` posts the scheduler's semaphore. */
  ghost predicate Holds(s: State, w: nat)
    requires w < |s.worker| == |s.permits|
  {
    s.sched == Waking(w) || s.permits[w] > 0 || Busy(s.worker[w])
  }

  lemma HolderPlace(c: Config, s: State, w: nat)
    requires Inv(c, s) && c.queueSize == 1 && w < c.workers && Holds(s, w)
    ensures s.slots == 0 && (s.sched == Waking(w) || s.sched.Blocking?)
    ensures if Handing(s.worker[w]) then s.running == [] else s.running == [w] && CountHanding(s.worker) == 0
  {
    CountWitness(c, s.worker);
    assert PermitOf(s, w);
    if s.sched.Waking? {
      assert PermitOf(s, s.sched.w);
      if s.sched.w != w && w in s.running { TwoMembers(s.running, s.sched.w, w); }
    }
  }

  /** With a queue of size one at most one worker has the turn, and while one has it the scheduler
      is waking it or waiting for it. So the scheduler and the workers never touch the counter at
      the same time, and neither do two workers. */
  lemma Exclusive(c: Config, s: State, v: nat, w: nat)
    requires Inv(c, s) && c.queueSize == 1 && v < c.workers && w < c.workers
    requires Holds(s, v) && Holds(s, w)
    ensures v == w && (s.sched == Waking(w) || s.sched.Blocking?)
  {
    HolderPlace(c, s, v);
    HolderPlace(c, s, w);
    CountWitness(c, s.worker);
    if Handing(s.worker[v]) && v < w { TwoHanding(s.worker, v, w); }
    if Handing(s.worker[v]) && w < v { TwoHanding(s.worker, w, v); }
    assert s.running == [v] && s.running == [w] ==> s.running[0] == v && s.running[0] == w;
  }

  /** A scheduler that is blocked is blocked on a worker that has the turn. */
  lemma HolderExists(c: Config, s: State) returns (w: nat)
    requires Inv(c, s) && c.queueSize == 1 && s.sched.Blocking? && s.slots == 0
    ensures w < c.workers && Holds(s, w)
  {
    CountWitness(c, s.worker);
    if s.running != [] {
      w := s.running[0];
      assert w in s.running && PermitOf(s, w);
    } else {
      w :| w < |s.worker| && Handing(s.worker[w]);
    }
  }

  /** No update of the counter is lost. */
  ghost predicate CounterExact(c: Config, s: State) {
    && (s.started ==> s.remaining == CountUnfinished(c, s.worker))
    && (forall w :: 0 <= w < |s.worker| && s.worker[w].Storing? ==> s.worker[w].v == s.remaining)
  }

  lemma CounterExactStep(c: Config, s: State, l: Label)
    requires Inv(c, s) && (c.queueSize == 1 || c.workers <= 1) && CounterExact(c, s) && Enabled(c, s, l)
    ensures CounterExact(c, Apply(c, s, l))
  {
    hide RemoveFirst, IndexOf;
    if l.Worker? {
      CountUpdate(c, s.worker, l.w, WorkerStep(c, s, l.w).worker[l.w]);
      forall x | 0 <= x < c.workers && s.worker[x].Storing? && s.worker[l.w].Storing? ensures x == l.w {
        if c.queueSize == 1 { Exclusive(c, s, x, l.w); }
      }
    } else if l.Main? {
      assert s.worker == seq(c.workers, _ => Entering);
      CountInitial(c, c.workers);
    }
  }

  lemma {:induction false} CounterExactReaches(c: Config, s: State, ls: seq<Label>, t: State)
    requires Inv(c, s) && (c.queueSize == 1 || c.workers <= 1)
    requires CounterExact(c, s) && Reaches(c, s, ls, t)
    ensures Inv(c, t) && CounterExact(c, t)
    decreases |ls|
  {
    if ls != [] {
      InvStep(c, s, ls[0]);
      CounterExactStep(c, s, ls[0]);
      CounterExactReaches(c, Apply(c, s, ls[0]), ls[1..], t);
    }
  }
}
