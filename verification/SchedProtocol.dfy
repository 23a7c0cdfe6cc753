/**
 The scheduler protocol as a labelled transition system: one scheduler thread, `workers`
 worker threads and the main thread that starts them. Every step is one semaphore operation,
 one list operation made under the list's own lock, or one access to the shared counter.
 */
module SchedProtocol {
  import opened Sequences

  datatype Policy = Fifo | RoundRobin

  datatype Config = Config(policy: Policy, workers: nat, iterations: nat, queueSize: nat)

  /** Where a worker is in `worker_proc`. A pass `i < iterations` is loop `i`; the pass
      `i == iterations` is the one in which the worker exits. */
  datatype WorkerPc =
    | Entering            // about to join the queue
    | Waiting(i: nat)     // wait_for_cpu
    | Working(i: nat)     // about to report loop i, or its exit
    | Leaving             // leave_sched_queue
    | Loading             // reads num_workers_remaining ...
    | Storing(v: int)     // ... and writes it back, one less
    | Releasing(i: nat)   // release_cpu: leaves the running list
    | Dequeuing(i: nat)   // round robin only: leaves the queue
    | Requeuing(i: nat)   // round robin only: joins the queue again
    | Posting(i: nat)     // posts the scheduler's semaphore
    | Finished

  /** Where the scheduler is in `sched_proc` and the operations it calls. */
  datatype SchedPc =
    | AwaitingQueue       // spins until the queue is not empty
    | Testing             // reads num_workers_remaining
    | Peeking             // next_worker: reads the head of the queue
    | Checking(w: nat)    // next_worker: is w in the running list?
    | Inserting(w: nat)   // wake_up_worker: puts w on the running list
    | Waking(w: nat)      // wake_up_worker: posts w's semaphore
    | Blocking            // wait_for_worker
    | Stopped

  datatype Event = Event(worker: nat, i: nat)

  /** The last three fields only record history: the order of entry, the workers woken, and
      what the workers reported. */
  datatype State = State(
    started: bool,
    remaining: int,
    queue: seq<nat>,
    running: seq<nat>,
    slots: nat,
    permits: seq<nat>,
    worker: seq<WorkerPc>,
    sched: SchedPc,
    entered: seq<nat>,
    wakes: seq<nat>,
    log: seq<Event>)

  /** `Advance` is the unlocked read of the next list element inside `next_worker`. */
  datatype Label = Main | Worker(w: nat) | Sched | Advance(next: Option<nat>)

  ghost predicate AllBelow(s: seq<nat>, n: nat) {
    forall i :: 0 <= i < |s| ==> s[i] < n
  }

  ghost predicate Typed(c: Config, s: State) {
    && |s.permits| == |s.worker| == c.workers
    && AllBelow(s.queue, c.workers) && AllBelow(s.running, c.workers) && AllBelow(s.entered, c.workers)
    && (s.sched.Checking? || s.sched.Inserting? || s.sched.Waking? ==> s.sched.w < c.workers)
  }

  function Init(c: Config): State {
    State(false, 0, [], [], if c.queueSize == 0 then 0 else c.queueSize - 1, seq(c.workers, _ => 0),
          seq(c.workers, _ => Entering), AwaitingQueue, [], [], [])
  }

  predicate WorkerEnabled(s: State, w: nat)
    requires w < |s.worker| == |s.permits|
  {
    match s.worker[w]
    case Entering => s.started
    case Waiting(_) => s.permits[w] > 0
    case Finished => false
    case _ => true
  }

  predicate SchedEnabled(s: State) {
    match s.sched
    case AwaitingQueue => s.queue != []
    case Checking(w) => w !in s.running
    case Blocking => s.slots > 0
    case Stopped => false
    case _ => true
  }

  /** The element after `w` may have been unlinked since it was read, and then the walk can land
      anywhere. Under FIFO an element stays linked for as long as its worker is queued. */
  predicate AdvanceEnabled(c: Config, s: State, next: Option<nat>) {
    && s.sched.Checking?
    && s.sched.w in s.running
    && (next.Some? ==> next.value < c.workers)
    && (c.policy.Fifo? && s.sched.w in s.queue ==> next == Successor(s.queue, s.sched.w))
  }

  predicate Enabled(c: Config, s: State, l: Label)
    requires |s.permits| == |s.worker| == c.workers
  {
    match l
    case Main => !s.started
    case Worker(w) => w < c.workers && WorkerEnabled(s, w)
    case Sched => SchedEnabled(s)
    case Advance(next) => AdvanceEnabled(c, s, next)
  }

  /** One step of worker `w`. */
  function WorkerStep(c: Config, s: State, w: nat): State
    requires w < |s.worker| == |s.permits| && WorkerEnabled(s, w)
  {
    match s.worker[w]
    case Entering =>
      s.(queue := s.queue + [w], entered := s.entered + [w], worker := s.worker[w := Waiting(0)])
    case Waiting(i) =>
      s.(permits := s.permits[w := s.permits[w] - 1], worker := s.worker[w := Working(i)])
    case Working(i) =>
      s.(log := s.log + [Event(w, i)],
         worker := s.worker[w := if i < c.iterations then Releasing(i) else Leaving])
    case Leaving =>
      s.(queue := RemoveFirst(s.queue, w), worker := s.worker[w := Loading])
    case Loading =>
      s.(worker := s.worker[w := Storing(s.remaining)])
    case Storing(v) =>
      s.(remaining := v - 1, worker := s.worker[w := Releasing(c.iterations)])
    case Releasing(i) =>
      s.(running := RemoveFirst(s.running, w),
         worker := s.worker[w := if c.policy.Fifo? then Posting(i) else Dequeuing(i)])
    case Dequeuing(i) =>
      s.(queue := RemoveFirst(s.queue, w), worker := s.worker[w := Requeuing(i)])
    case Requeuing(i) =>
      s.(queue := s.queue + [w], worker := s.worker[w := Posting(i)])
    case Posting(i) =>
      s.(slots := s.slots + 1,
         worker := s.worker[w := if i < c.iterations then Waiting(i + 1) else Finished])
  }

  /** One step of the scheduler. Once the queue has been seen non-empty, `wait_for_queue` returns
      at once, so an empty queue sends the scheduler back to its loop test. */
  function SchedStep(s: State): State
    requires SchedEnabled(s)
    requires s.sched.Waking? ==> s.sched.w < |s.permits|
  {
    match s.sched
    case AwaitingQueue => s.(sched := Testing)
    case Testing => s.(sched := if s.remaining > 0 then Peeking else Stopped)
    case Peeking => s.(sched := if s.queue == [] then Testing else Checking(s.queue[0]))
    case Checking(w) => s.(sched := Inserting(w))
    case Inserting(w) => s.(running := s.running + [w], wakes := s.wakes + [w], sched := Waking(w))
    case Waking(w) => s.(permits := s.permits[w := s.permits[w] + 1], sched := Blocking)
    case Blocking => s.(slots := s.slots - 1, sched := Testing)
  }

  function Apply(c: Config, s: State, l: Label): State
    requires |s.permits| == |s.worker| == c.workers
    requires s.sched.Waking? ==> s.sched.w < c.workers
    requires Enabled(c, s, l)
  {
    match l
    case Main => s.(started := true, remaining := c.workers)
    case Worker(w) => WorkerStep(c, s, w)
    case Sched => SchedStep(s)
    case Advance(next) => s.(sched := if next.Some? then Checking(next.value) else Testing)
  }

  /** The schedule `ls` leads from `s` to `t`. */
  ghost predicate Reaches(c: Config, s: State, ls: seq<Label>, t: State)
    decreases |ls|
  {
    && Typed(c, s)
    && if ls == [] then s == t
       else Enabled(c, s, ls[0]) && Reaches(c, Apply(c, s, ls[0]), ls[1..], t)
  }

  lemma RemoveBelow(s: seq<nat>, w: nat, n: nat)
    requires AllBelow(s, n)
    ensures AllBelow(RemoveFirst(s, w), n)
  {
  }

  lemma TypedStep(c: Config, s: State, l: Label)
    requires Typed(c, s) && Enabled(c, s, l)
    ensures Typed(c, Apply(c, s, l))
  {
    hide RemoveFirst, IndexOf, Successor;
    if l.Worker? {
      RemoveBelow(s.queue, l.w, c.workers);
      RemoveBelow(s.running, l.w, c.workers);
    }
  }

  lemma {:induction false} ReachesTyped(c: Config, s: State, ls: seq<Label>, t: State)
    requires Reaches(c, s, ls, t)
    ensures Typed(c, t)
    decreases |ls|
  {
    if ls != [] {
      ReachesTyped(c, Apply(c, s, ls[0]), ls[1..], t);
    }
  }

  lemma {:induction false} Extend(c: Config, s: State, ls: seq<Label>, t: State, l: Label)
    requires Reaches(c, s, ls, t) && Typed(c, t) && Enabled(c, t, l)
    ensures Reaches(c, s, ls + [l], Apply(c, t, l))
    decreases |ls|
  {
    if ls == [] {
      TypedStep(c, s, l);
    } else {
      Extend(c, Apply(c, s, ls[0]), ls[1..], t, l);
      assert (ls + [l])[1..] == ls[1..] + [l];
    }
  }

  lemma {:induction false} Compose(c: Config, s: State, ls: seq<Label>, t: State, ms: seq<Label>, u: State)
    requires Reaches(c, s, ls, t) && Reaches(c, t, ms, u)
    ensures Reaches(c, s, ls + ms, u)
    decreases |ls|
  {
    if ls == [] {
      assert ls + ms == ms;
    } else {
      Compose(c, Apply(c, s, ls[0]), ls[1..], t, ms, u);
      assert (ls + ms)[1..] == ls[1..] + ms;
    }
  }
}
