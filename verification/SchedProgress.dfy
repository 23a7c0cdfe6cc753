/**
 A measure on the work left in the scheduler protocol. Every step drops it, except the two with
 which the scheduler looks around and finds nobody to wake.
 */
module SchedProgress {
  import opened Sequences
  import opened SchedProtocol
  import opened SchedSafety

  /** An upper bound on the steps a worker still has to take. */
  function StepsLeft(c: Config, pc: WorkerPc): nat
    requires InRange(c, pc)
  {
    match pc
    case Entering => 10 * c.iterations + 11
    case Waiting(i) => 10 * (c.iterations - i) + 10
    case Working(i) => 10 * (c.iterations - i) + 9
    case Leaving => 8
    case Loading => 7
    case Storing(_) => 6
    case Releasing(i) => 10 * (c.iterations - i) + 5
    case Dequeuing(i) => 10 * (c.iterations - i) + 4
    case Requeuing(i) => 10 * (c.iterations - i) + 3
    case Posting(i) => 10 * (c.iterations - i) + 2
    case Finished => 0
  }

  ghost predicate AllInRange(c: Config, ws: seq<WorkerPc>) {
    forall w :: 0 <= w < |ws| ==> InRange(c, ws[w])
  }

  function AllStepsLeft(c: Config, ws: seq<WorkerPc>): nat
    requires AllInRange(c, ws)
  {
    if ws == [] then 0
    else
      assert InRange(c, ws[|ws| - 1]);
      AllStepsLeft(c, ws[..|ws| - 1]) + StepsLeft(c, ws[|ws| - 1])
  }

  lemma {:induction false} StepsUpdate(c: Config, ws: seq<WorkerPc>, w: nat, pc: WorkerPc)
    requires AllInRange(c, ws) && w < |ws| && InRange(c, pc)
    ensures AllInRange(c, ws[w := pc])
    ensures AllStepsLeft(c, ws[w := pc]) + StepsLeft(c, ws[w]) == AllStepsLeft(c, ws) + StepsLeft(c, pc)
  {
    var n := |ws| - 1;
    if w == n {
      assert ws[w := pc][..n] == ws[..n];
    } else {
      StepsUpdate(c, ws[..n], w, pc);
      assert ws[w := pc][..n] == ws[..n][w := pc];
    }
  }

  function Rank(pc: SchedPc): nat {
    match pc
    case AwaitingQueue => 6
    case Testing => 5
    case Peeking => 4
    case Checking(_) => 3
    case Inserting(_) => 2
    case Waking(_) => 1
    case Blocking => 0
    case Stopped => 0
  }

  function Measure(c: Config, s: State): nat
    requires AllInRange(c, s.worker)
  {
    10 * AllStepsLeft(c, s.worker) + 6 * s.slots + Rank(s.sched) + Bit(!s.started)
  }

  /** An enabled step that is not a fruitless look at the queue. */
  ghost predicate Productive(c: Config, s: State, l: Label)
    requires |s.permits| == |s.worker| == c.workers
  {
    && Enabled(c, s, l)
    && !l.Advance?
    && !(l.Sched? && s.sched.Peeking? && s.queue == [])
  }

  lemma WorkerStepsDrop(c: Config, s: State, w: nat)
    requires w < |s.worker| == |s.permits| && WorkerEnabled(s, w) && InRange(c, s.worker[w])
    ensures var t := WorkerStep(c, s, w);
      && InRange(c, t.worker[w])
      && t.worker == s.worker[w := t.worker[w]]
      && StepsLeft(c, t.worker[w]) + (t.slots - s.slots) < StepsLeft(c, s.worker[w])
      && s.slots <= t.slots && t.sched == s.sched && t.started == s.started
  {
  }

  /** For both policies, every queue size and every state: a productive step drops the measure. */
  lemma MeasureDrops(c: Config, s: State, l: Label)
    requires Typed(c, s) && AllInRange(c, s.worker) && Productive(c, s, l)
    ensures AllInRange(c, Apply(c, s, l).worker)
    ensures Measure(c, Apply(c, s, l)) < Measure(c, s)
  {
    if l.Worker? {
      WorkerStepsDrop(c, s, l.w);
      StepsUpdate(c, s.worker, l.w, WorkerStep(c, s, l.w).worker[l.w]);
    } else if l.Sched? {
      SchedRankDrops(c, s);
    }
  }

  lemma SchedRankDrops(c: Config, s: State)
    requires Typed(c, s) && SchedEnabled(s) && !(s.sched.Peeking? && s.queue == [])
    ensures var t := SchedStep(s);
      && 6 * t.slots + Rank(t.sched) < 6 * s.slots + Rank(s.sched)
      && t.worker == s.worker && t.started == s.started
  {
  }

  ghost predicate AllProductive(c: Config, s: State, ls: seq<Label>)
    decreases |ls|
  {
    && Typed(c, s)
    && (ls != [] ==> Productive(c, s, ls[0]) && AllProductive(c, Apply(c, s, ls[0]), ls[1..]))
  }

  /** No schedule of productive steps is longer than the measure of the state it starts from. */
  lemma {:induction false} ProductiveBounded(c: Config, s: State, ls: seq<Label>, t: State)
    requires AllInRange(c, s.worker) && Reaches(c, s, ls, t) && AllProductive(c, s, ls)
    ensures AllInRange(c, t.worker) && |ls| + Measure(c, t) <= Measure(c, s)
    decreases |ls|
  {
    if ls != [] {
      MeasureDrops(c, s, ls[0]);
      ProductiveBounded(c, Apply(c, s, ls[0]), ls[1..], t);
    }
  }

  // ---- every schedule, fruitless looks included ---------------------------------------------------

  function WorkerSteps(ls: seq<Label>): nat {
    if ls == [] then 0 else Bit(ls[0].Worker?) + WorkerSteps(ls[1..])
  }

  /** In no schedule do the workers take more steps than they had left. */
  lemma {:induction false} WorkerStepsBounded(c: Config, s: State, ls: seq<Label>, t: State)
    requires AllInRange(c, s.worker) && Reaches(c, s, ls, t)
    ensures AllInRange(c, t.worker) && WorkerSteps(ls) + AllStepsLeft(c, t.worker) <= AllStepsLeft(c, s.worker)
    decreases |ls|
  {
    if ls != [] {
      var u := Apply(c, s, ls[0]);
      if ls[0].Worker? {
        WorkerStepsDrop(c, s, ls[0].w);
        StepsUpdate(c, s.worker, ls[0].w, u.worker[ls[0].w]);
      }
      WorkerStepsBounded(c, u, ls[1..], t);
    }
  }

  /** How often a worker has posted the scheduler's semaphore. */
  function Posts(c: Config, pc: WorkerPc): nat {
    match pc
    case Entering => 0
    case Waiting(i) => i
    case Working(i) => i
    case Releasing(i) => i
    case Dequeuing(i) => i
    case Requeuing(i) => i
    case Posting(i) => i
    case Finished => c.iterations + 1
    case _ => c.iterations
  }

  function AllPosts(c: Config, ws: seq<WorkerPc>): nat {
    if ws == [] then 0 else AllPosts(c, ws[..|ws| - 1]) + Posts(c, ws[|ws| - 1])
  }

  lemma {:induction false} PostsUpdate(c: Config, ws: seq<WorkerPc>, w: nat, pc: WorkerPc)
    requires w < |ws|
    ensures AllPosts(c, ws[w := pc]) + Posts(c, ws[w]) == AllPosts(c, ws) + Posts(c, pc)
  {
    var n := |ws| - 1;
    if w == n {
      assert ws[w := pc][..n] == ws[..n];
    } else {
      PostsUpdate(c, ws[..n], w, pc);
      assert ws[w := pc][..n] == ws[..n][w := pc];
    }
  }

  lemma {:induction false} PostsBound(c: Config, ws: seq<WorkerPc>)
    requires AllInRange(c, ws)
    ensures AllPosts(c, ws) <= |ws| * (c.iterations + 1)
  {
    if ws != [] {
      var n := |ws| - 1;
      PostsBound(c, ws[..n]);
      assert InRange(c, ws[n]) && Posts(c, ws[n]) <= c.iterations + 1;
      assert |ws| * (c.iterations + 1) == n * (c.iterations + 1) + (c.iterations + 1);
    }
  }

  lemma {:induction false} PostsNone(c: Config, n: nat)
    ensures AllPosts(c, seq(n, _ => Entering)) == 0
  {
    if n > 0 {
      PostsNone(c, n - 1);
      assert seq(n, _ => Entering)[..n - 1] == seq(n - 1, _ => Entering);
    }
  }

  /** Every wake has used a permit of the scheduler's semaphore or is about to. */
  ghost predicate WakesPaid(c: Config, s: State) {
    |s.wakes| + s.slots + 1 == c.queueSize + AllPosts(c, s.worker) + Bit(s.sched.Waking? || s.sched.Blocking?)
  }

  lemma WakesPaidStep(c: Config, s: State, l: Label)
    requires Typed(c, s) && AllInRange(c, s.worker) && WakesPaid(c, s) && Enabled(c, s, l)
    ensures WakesPaid(c, Apply(c, s, l))
  {
    hide RemoveFirst, IndexOf, AllBelow, AllPosts;
    if l.Worker? {
      assert InRange(c, s.worker[l.w]);
      PostsUpdate(c, s.worker, l.w, WorkerStep(c, s, l.w).worker[l.w]);
    }
  }

  lemma {:induction false} WakesPaidReaches(c: Config, s: State, ls: seq<Label>, t: State)
    requires Inv(c, s) && WakesPaid(c, s) && Reaches(c, s, ls, t)
    ensures Inv(c, t) && WakesPaid(c, t)
    decreases |ls|
  {
    if ls != [] {
      WakesPaidStep(c, s, ls[0]);
      InvStep(c, s, ls[0]);
      WakesPaidReaches(c, Apply(c, s, ls[0]), ls[1..], t);
    }
  }

  /** So in every schedule of either policy, with a queue of any size, the scheduler wakes workers no more
      often than `workers * (iterations + 1) + queueSize` times. */
  lemma WakesBounded(c: Config, ls: seq<Label>, s: State)
    requires c.queueSize >= 1 && Reaches(c, Init(c), ls, s)
    ensures WakesPaid(c, s) && |s.wakes| <= c.workers * (c.iterations + 1) + c.queueSize
  {
    InitInv(c);
    PostsNone(c, c.workers);
    WakesPaidReaches(c, Init(c), ls, s);
    PostsBound(c, s.worker);
  }
}
