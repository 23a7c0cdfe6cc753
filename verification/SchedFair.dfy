/**
 Infinite runs. With a queue of size one, exactly when does every fair run stop the scheduler? A run
 is fair when no thread is passed over for ever: again and again each thread takes a step or cannot.
 */
module SchedFair {
  import opened Sequences
  import opened SchedProtocol
  import opened SchedSafety
  import opened SchedProgress
  import opened SchedTurns
  import Fifo = SchedFifo
  import Ring = SchedRoundRobin

  datatype Thread = MainThread | WorkerThread(w: nat) | SchedThread

  /** Who takes the step. */
  function Mover(l: Label): Thread {
    match l
    case Main => MainThread
    case Worker(w) => WorkerThread(w)
    case _ => SchedThread
  }

  ghost predicate CanMove(c: Config, s: State, p: Thread)
    requires Typed(c, s)
  {
    exists l :: Enabled(c, s, l) && Mover(l) == p
  }

  /** At moment `n` one step is taken, or none. */
  ghost predicate RunAt(c: Config, st: nat -> State, ls: nat -> Option<Label>, n: nat) {
    && Typed(c, st(n))
    && if ls(n).None? then st(n + 1) == st(n)
       else Enabled(c, st(n), ls(n).value) && st(n + 1) == Apply(c, st(n), ls(n).value)
  }

  ghost predicate Turn(c: Config, st: nat -> State, ls: nat -> Option<Label>, p: Thread, n: nat) {
    Typed(c, st(n)) && CanMove(c, st(n), p) ==> ls(n).Some? && Mover(ls(n).value) == p
  }

  ghost predicate Attended(c: Config, st: nat -> State, ls: nat -> Option<Label>, p: Thread, n: nat) {
    exists m: nat :: n <= m && Turn(c, st, ls, p, m)
  }

  ghost predicate FairRun(c: Config, s: State, st: nat -> State, ls: nat -> Option<Label>) {
    && st(0) == s
    && (forall n: nat :: RunAt(c, st, ls, n))
    && (forall p, n: nat :: Attended(c, st, ls, p, n))
  }

  ghost predicate Stops(st: nat -> State) {
    exists n: nat :: st(n).sched.Stopped?
  }

  ghost predicate AlwaysStops(c: Config, s: State) {
    forall st: nat -> State, ls: nat -> Option<Label> :: FairRun(c, s, st, ls) ==> Stops(st)
  }

  // ---- what a run does to the work left ---------------------------------------------------------

  /** The measure of `SchedProgress`, in which a look around counts the same before and after. */
  function Work(c: Config, s: State): nat
    requires AllInRange(c, s.worker)
  {
    10 * AllStepsLeft(c, s.worker) + 6 * s.slots + Rank(if s.sched.Peeking? then Testing else s.sched) + Bit(!s.started)
  }

  /** Looking around and finding nothing to do yet. */
  ghost predicate Idle(s: State, l: Label) {
    l.Sched? && ((s.sched.Testing? && s.remaining > 0) || (s.sched.Peeking? && s.queue == []))
  }

  lemma WorkStep(c: Config, s: State, l: Label)
    requires Typed(c, s) && AllInRange(c, s.worker) && Enabled(c, s, l) && !l.Advance?
    ensures AllInRange(c, Apply(c, s, l).worker)
    ensures Work(c, Apply(c, s, l)) <= Work(c, s)
    ensures !Idle(s, l) ==> Work(c, Apply(c, s, l)) < Work(c, s)
  {
    if l.Worker? {
      WorkerStepsDrop(c, s, l.w);
      StepsUpdate(c, s.worker, l.w, WorkerStep(c, s, l.w).worker[l.w]);
    }
  }

  /** The scheduler is never walking the queue past a running worker, and something can be done
      until it has stopped. */
  ghost predicate Lively(c: Config, s: State) {
    && Typed(c, s) && AllInRange(c, s.worker)
    && (s.sched.Checking? ==> s.sched.w !in s.running)
    && (s.sched.Stopped? || exists l :: Productive(c, s, l))
  }

  ghost predicate LivelyRun(c: Config, st: nat -> State, ls: nat -> Option<Label>) {
    && (forall n: nat :: RunAt(c, st, ls, n) && Lively(c, st(n)))
    && (forall p, n: nat :: Attended(c, st, ls, p, n))
  }

  lemma RunNext(c: Config, st: nat -> State, ls: nat -> Option<Label>, n: nat)
    requires LivelyRun(c, st, ls)
    ensures RunAt(c, st, ls, n) && Lively(c, st(n)) && Lively(c, st(n + 1))
  {
    hide RunAt, Lively;
    assert Lively(c, st(n));
  }

  lemma RunTurn(c: Config, st: nat -> State, ls: nat -> Option<Label>, p: Thread, n: nat) returns (m: nat)
    requires LivelyRun(c, st, ls)
    ensures n <= m && Turn(c, st, ls, p, m)
  {
    hide RunAt, Lively, Turn;
    assert Attended(c, st, ls, p, n);
    m :| n <= m && Turn(c, st, ls, p, m);
  }

  lemma RunWork(c: Config, st: nat -> State, ls: nat -> Option<Label>, n: nat)
    requires LivelyRun(c, st, ls)
    ensures AllInRange(c, st(n).worker) && AllInRange(c, st(n + 1).worker)
    ensures Work(c, st(n + 1)) <= Work(c, st(n))
    ensures ls(n).Some? && !Idle(st(n), ls(n).value) ==> Work(c, st(n + 1)) < Work(c, st(n))
  {
    hide LivelyRun, WorkerStep, Work, AllInRange;
    RunNext(c, st, ls, n);
    if ls(n).Some? { WorkStep(c, st(n), ls(n).value); }
  }

  /** Only the scheduler can lose the ability to go on without going on. */
  lemma HoldOn(c: Config, s: State, l: Label, p: Thread)
    requires Typed(c, s) && Enabled(c, s, l) && CanMove(c, s, p) && !p.SchedThread? && Mover(l) != p
    ensures Typed(c, Apply(c, s, l)) && CanMove(c, Apply(c, s, l), p)
  {
    TypedStep(c, s, l);
    var t := Apply(c, s, l);
    if p.MainThread? {
      assert Enabled(c, t, Main);
    } else {
      assert Enabled(c, s, Worker(p.w));
      assert Enabled(c, t, Worker(p.w));
    }
  }

  /** A thread other than the scheduler that can go on gets to do so. */
  lemma ThreadFalls(c: Config, st: nat -> State, ls: nat -> Option<Label>, n: nat, p: Thread) returns (m: nat)
    requires LivelyRun(c, st, ls) && Typed(c, st(n)) && CanMove(c, st(n), p) && !p.SchedThread?
    ensures n < m && AllInRange(c, st(n).worker) && AllInRange(c, st(m).worker) && Work(c, st(m)) < Work(c, st(n))
  {
    hide LivelyRun, Work, CanMove, Typed, AllInRange, Apply, Enabled, Productive;
    var end := RunTurn(c, st, ls, p, n);
    RunNext(c, st, ls, n);
    m := n;
    while !(ls(m).Some? && Mover(ls(m).value) == p)
      invariant n <= m <= end && Typed(c, st(m)) && CanMove(c, st(m), p)
      invariant AllInRange(c, st(n).worker) && AllInRange(c, st(m).worker) && Work(c, st(m)) <= Work(c, st(n))
      decreases end - m
    {
      RunWork(c, st, ls, m);
      RunNext(c, st, ls, m);
      if ls(m).Some? { HoldOn(c, st(m), ls(m).value, p); }
      m := m + 1;
    }
    RunWork(c, st, ls, m);
    m := m + 1;
  }

  ghost predicate OnlySched(c: Config, s: State)
    requires Typed(c, s)
  {
    forall p :: CanMove(c, s, p) ==> p.SchedThread?
  }

  /** When only the scheduler can go on, it does: it gets something done, or it is about to look at
      the queue. */
  lemma SchedFalls(c: Config, st: nat -> State, ls: nat -> Option<Label>, n: nat) returns (m: nat)
    requires LivelyRun(c, st, ls) && Lively(c, st(n)) && !st(n).sched.Stopped? && OnlySched(c, st(n))
    ensures n < m && AllInRange(c, st(m).worker) && Work(c, st(m)) <= Work(c, st(n))
    ensures Work(c, st(m)) < Work(c, st(n)) || (st(n).sched.Testing? && st(m).sched.Peeking?)
  {
    var s := st(n);
    hide LivelyRun, Work, WorkerStep, Typed, AllInRange, CanMove, Productive;
    SchedMoves(c, s);
    var end := RunTurn(c, st, ls, SchedThread, n);
    m := n;
    while ls(m).None?
      invariant n <= m <= end && st(m) == s
      decreases end - m
    {
      RunNext(c, st, ls, m);
      m := m + 1;
    }
    RunNext(c, st, ls, m);
    MoverCan(c, s, ls(m).value);
    RunWork(c, st, ls, m);
    m := m + 1;
  }

  lemma MoverCan(c: Config, s: State, l: Label)
    requires Typed(c, s) && Enabled(c, s, l)
    ensures CanMove(c, s, Mover(l))
  {
  }

  lemma SchedMoves(c: Config, s: State)
    requires Lively(c, s) && !s.sched.Stopped? && OnlySched(c, s)
    ensures CanMove(c, s, SchedThread) && !(s.sched.Peeking? && s.queue == [])
  {
    var l :| Productive(c, s, l);
    assert CanMove(c, s, Mover(l));
  }

  /** Until the scheduler has stopped, the work left falls. */
  lemma {:induction false} Falls(c: Config, st: nat -> State, ls: nat -> Option<Label>, n: nat) returns (m: nat)
    requires LivelyRun(c, st, ls) && Lively(c, st(n)) && !st(n).sched.Stopped?
    ensures n < m && AllInRange(c, st(m).worker) && Work(c, st(m)) < Work(c, st(n))
    decreases Bit(st(n).sched.Testing?)
  {
    hide LivelyRun, Work, CanMove, AllInRange, Typed, Productive;
    if p :| CanMove(c, st(n), p) && !p.SchedThread? {
      m := ThreadFalls(c, st, ls, n, p);
    } else {
      m := SchedFalls(c, st, ls, n);
      if Work(c, st(m)) == Work(c, st(n)) {
        RunNext(c, st, ls, m);
        m := Falls(c, st, ls, m);
      }
    }
  }

  lemma {:induction false} Ends(c: Config, st: nat -> State, ls: nat -> Option<Label>, n: nat)
    requires LivelyRun(c, st, ls) && Lively(c, st(n))
    ensures Stops(st)
    decreases Work(c, st(n))
  {
    if !st(n).sched.Stopped? {
      var m := Falls(c, st, ls, n);
      RunNext(c, st, ls, m);
      Ends(c, st, ls, m);
    }
  }

  // ---- runs and schedules ---------------------------------------------------------------------------

  /** The states a schedule goes through. */
  lemma {:induction false} Trace(c: Config, s: State, ls: seq<Label>, t: State) returns (ss: seq<State>)
    requires Reaches(c, s, ls, t)
    ensures |ss| == |ls| + 1 && ss[0] == s && ss[|ls|] == t && Typed(c, t)
    ensures forall k :: 0 <= k < |ls| ==> Typed(c, ss[k]) && Enabled(c, ss[k], ls[k]) && ss[k + 1] == Apply(c, ss[k], ls[k])
    decreases |ls|
  {
    if ls == [] {
      ss := [s];
    } else {
      hide Apply, Enabled;
      var rest := Trace(c, Apply(c, s, ls[0]), ls[1..], t);
      ss := [s] + rest;
    }
  }

  ghost predicate Quiet(c: Config, s: State) {
    Typed(c, s) && forall l :: !Enabled(c, s, l)
  }

  ghost predicate HasFairRun(c: Config, s: State) {
    exists st: nat -> State, ls: nat -> Option<Label> :: FairRun(c, s, st, ls)
  }

  /** Every state of a run is one that some schedule leads to. */
  lemma {:induction false} RunReaches(c: Config, st: nat -> State, ls: nat -> Option<Label>, n: nat) returns (ms: seq<Label>)
    requires forall k: nat :: RunAt(c, st, ls, k)
    ensures Reaches(c, st(0), ms, st(n))
  {
    hide Apply, Enabled;
    assert RunAt(c, st, ls, 0);
    ms := [];
    if n > 0 {
      ms := RunReaches(c, st, ls, n - 1);
      assert RunAt(c, st, ls, n - 1);
      if ls(n - 1).Some? {
        Extend(c, st(0), ms, st(n - 1), ls(n - 1).value);
        ms := ms + [ls(n - 1).value];
      }
    }
  }

  /** A schedule after which no thread can move is a fair run. */
  lemma QuietRun(c: Config, s: State, ms: seq<Label>, t: State)
    requires Reaches(c, s, ms, t) && Quiet(c, t)
    ensures HasFairRun(c, s) && (!t.sched.Stopped? ==> !AlwaysStops(c, s))
  {
    hide Apply, Enabled;
    var ss := Trace(c, s, ms, t);
    var st: nat -> State := (n: nat) => if n < |ss| then ss[n] else t;
    var ls: nat -> Option<Label> := (n: nat) => if n < |ms| then Some(ms[n]) else None;
    forall n: nat ensures RunAt(c, st, ls, n) { }
    forall p, n: nat ensures Attended(c, st, ls, p, n) {
      assert Turn(c, st, ls, p, n + |ms|);
    }
    assert FairRun(c, s, st, ls);
    if !t.sched.Stopped? {
      forall n: nat ensures !st(n).sched.Stopped? {
        if n < |ms| { StoppedLast(c, ss, ms, n); }
      }
    }
  }

  /** Once stopped, the scheduler stays so. */
  lemma {:induction false} StoppedLast(c: Config, ss: seq<State>, ms: seq<Label>, n: nat)
    requires |ss| == |ms| + 1 && n <= |ms| && !ss[|ms|].sched.Stopped?
    requires forall k :: 0 <= k < |ms| ==> Typed(c, ss[k]) && Enabled(c, ss[k], ms[k]) && ss[k + 1] == Apply(c, ss[k], ms[k])
    ensures !ss[n].sched.Stopped?
    decreases |ms| - n
  {
    if n < |ms| {
      StoppedLast(c, ss, ms, n + 1);
      assert ss[n + 1] == Apply(c, ss[n], ms[n]);
    }
  }

  // ---- FIFO -------------------------------------------------------------------------------------------

  ghost predicate FifoAt(c: Config, s: State) {
    TurnInv(c, s) && Fifo.FifoInv(c, s)
  }

  lemma FifoLively(c: Config, s: State)
    requires FifoAt(c, s) && c.policy.Fifo? && c.queueSize == 1 && c.workers >= 1
    ensures Lively(c, s)
  {
    assert s.sched.Checking? ==> |s.running| == 0;
    if !s.sched.Stopped? { var l := Fifo.FifoProgress(c, s); }
  }

  lemma FifoAtStep(c: Config, s: State, l: Label)
    requires FifoAt(c, s) && c.policy.Fifo? && c.queueSize == 1 && Enabled(c, s, l)
    ensures FifoAt(c, Apply(c, s, l))
  {
    hide Apply, WakesInv, PollInv, CounterExact, Fifo.FifoInv;
    TurnStep(c, s, l);
    Fifo.FifoStep(c, s, l);
  }

  lemma {:induction false} FifoRun(c: Config, st: nat -> State, ls: nat -> Option<Label>, n: nat)
    requires c.policy.Fifo? && c.queueSize == 1 && FifoAt(c, st(0)) && forall k: nat :: RunAt(c, st, ls, k)
    ensures FifoAt(c, st(n))
  {
    hide Apply, Enabled, FifoAt;
    if n > 0 {
      FifoRun(c, st, ls, n - 1);
      assert RunAt(c, st, ls, n - 1);
      if ls(n - 1).Some? { FifoAtStep(c, st(n - 1), ls(n - 1).value); }
    }
  }

  lemma FifoStops(c: Config, s: State)
    requires c.policy.Fifo? && c.queueSize == 1 && FifoAt(c, s) && c.workers >= 1
    ensures HasFairRun(c, s) && AlwaysStops(c, s)
  {
    FifoHasRun(c, s);
    hide TurnInv, HasFairRun;
    forall st: nat -> State, ls: nat -> Option<Label> | FairRun(c, s, st, ls) ensures Stops(st) {
      forall n: nat ensures RunAt(c, st, ls, n) && Lively(c, st(n)) {
        FifoRun(c, st, ls, n);
        FifoLively(c, st(n));
      }
      Ends(c, st, ls, 0);
    }
  }

  lemma FifoHasRun(c: Config, s: State)
    requires c.policy.Fifo? && c.queueSize == 1 && FifoAt(c, s) && c.workers >= 1
    ensures HasFairRun(c, s)
  {
    hide HasFairRun;
    var ms, t := Fifo.FifoCompletes(c, s);
    Fifo.FifoReaches(c, s, ms, t);
    StoppedQuiet(c, t);
    QuietRun(c, s, ms, t);
  }

  /** With a queue of size one nobody is left when the scheduler has stopped. */
  lemma StoppedQuiet(c: Config, s: State)
    requires TurnInv(c, s) && c.queueSize == 1 && s.sched.Stopped?
    ensures Quiet(c, s)
  {
    CountWitness(c, s.worker);
    forall l ensures !Enabled(c, s, l) {
      if l.Worker? && l.w < c.workers && Holds(s, l.w) { HolderPlace(c, s, l.w); }
    }
  }

  lemma NobodyStops(c: Config, ls: seq<Label>, s: State)
    requires c.workers == 0 && Reaches(c, Init(c), ls, s)
    ensures HasFairRun(c, s) && !AlwaysStops(c, s)
  {
    Fifo.NobodyComes(c, Init(c), ls, s);
    ReachesTyped(c, Init(c), ls, s);
    if s.started {
      QuietRun(c, s, [], s);
    } else {
      var t := Apply(c, s, Main);
      TypedStep(c, s, Main);
      assert Reaches(c, t, [Main][1..], t);
      QuietRun(c, s, [Main], t);
    }
  }

  /** FIFO with a queue of size one: from every reachable state, every fair run stops the scheduler if
      and only if there is a worker. */
  lemma FifoStopsIff(c: Config, ls: seq<Label>, s: State)
    requires c.policy.Fifo? && c.queueSize == 1 && Reaches(c, Init(c), ls, s)
    ensures HasFairRun(c, s) && (AlwaysStops(c, s) <==> c.workers >= 1)
  {
    TurnStart(c);
    Fifo.FifoStart(c);
    Fifo.FifoReaches(c, Init(c), ls, s);
    if c.workers >= 1 { FifoStops(c, s); } else { NobodyStops(c, ls, s); }
  }

  // ---- round robin ------------------------------------------------------------------------------------

  /** All the workers are in the ring. */
  ghost predicate RingAt(c: Config, s: State) {
    TurnInv(c, s) && |s.entered| == c.workers >= 1 && exists r, p :: Ring.RingInv(c, s, r, p)
  }

  lemma RingLively(c: Config, s: State)
    requires RingAt(c, s) && c.policy.RoundRobin? && c.queueSize == 1
    ensures Lively(c, s)
  {
    hide Ring.RingInv;
    var r, p :| Ring.RingInv(c, s, r, p);
    assert s.sched.Checking? ==> |s.running| == 0;
    assert Typed(c, s) && AllInRange(c, s.worker);
    if !s.sched.Stopped? {
      Ring.NoJam(c, s, r, p);
      var l := Ring.RingProgress(c, s, r, p);
    }
  }

  lemma RingAtStep(c: Config, s: State, l: Label)
    requires RingAt(c, s) && c.policy.RoundRobin? && c.queueSize == 1 && Enabled(c, s, l)
    ensures RingAt(c, Apply(c, s, l))
  {
    hide TurnInv;
    var r, p :| Ring.RingInv(c, s, r, p);
    Ring.NobodyLeft(c, s);
    assert TurnInv(c, Apply(c, s, l)) by { TurnStep(c, s, l); }
    RingOn(c, s, l, r, p);
  }

  lemma RingOn(c: Config, s: State, l: Label, r: nat, p: nat)
    requires TurnInv(c, s) && c.policy.RoundRobin? && c.queueSize == 1 && Ring.RingInv(c, s, r, p)
    requires Enabled(c, s, l) && !Ring.Enters(s, l)
    ensures Apply(c, s, l).entered == s.entered && exists r', p' :: Ring.RingInv(c, Apply(c, s, l), r', p')
  {
    hide Apply, Ring.RingInv;
    var r', p' := Ring.RingStep(c, s, l, r, p);
    Ring.EnteredFrame(c, s, l);
  }

  lemma {:induction false} RingRun(c: Config, st: nat -> State, ls: nat -> Option<Label>, n: nat)
    requires c.policy.RoundRobin? && c.queueSize == 1 && RingAt(c, st(0)) && forall k: nat :: RunAt(c, st, ls, k)
    ensures RingAt(c, st(n))
  {
    hide Apply, Enabled, RingAt;
    if n > 0 {
      RingRun(c, st, ls, n - 1);
      assert RunAt(c, st, ls, n - 1);
      if ls(n - 1).Some? { RingAtStep(c, st(n - 1), ls(n - 1).value); }
    }
  }

  lemma RingHasRun(c: Config, s: State)
    requires c.policy.RoundRobin? && c.queueSize == 1 && RingAt(c, s)
    ensures HasFairRun(c, s)
  {
    hide HasFairRun, Ring.RingInv, TurnInv;
    var r, p :| Ring.RingInv(c, s, r, p);
    assert s.entered != [];
    var ms, t;
    ms, t, r, p := Ring.RingDrive(c, s, r, p);
    if !t.sched.Stopped? { Ring.NoJam(c, t, r, p); }
    StoppedQuiet(c, t);
    QuietRun(c, s, ms, t);
  }

  lemma RingStops(c: Config, s: State)
    requires c.policy.RoundRobin? && c.queueSize == 1 && RingAt(c, s)
    ensures HasFairRun(c, s) && AlwaysStops(c, s)
  {
    RingHasRun(c, s);
    hide RingAt, HasFairRun;
    forall st: nat -> State, ls: nat -> Option<Label> | FairRun(c, s, st, ls) ensures Stops(st) {
      forall n: nat ensures RunAt(c, st, ls, n) && Lively(c, st(n)) {
        RingRun(c, st, ls, n);
        RingLively(c, st(n));
      }
      Ends(c, st, ls, 0);
    }
  }

  /** Round robin with a queue of size one, from any reachable state in which somebody has entered and
      nobody has been back to the end of the queue: every fair run stops the scheduler if and only if
      all the workers have entered. */
  lemma RoundRobinStopsIff(c: Config, ls: seq<Label>, s: State)
    requires c.policy.RoundRobin? && c.queueSize == 1 && Reaches(c, Init(c), ls, s)
    requires Ring.NoneRequeued(c, s) && s.entered != []
    ensures HasFairRun(c, s) && (AlwaysStops(c, s) <==> |s.entered| == c.workers)
  {
    hide TurnInv, AlwaysStops, HasFairRun, Ring.RingInv;
    Ring.RingReady(c, ls, s);
    if |s.entered| == c.workers {
      RingStops(c, s);
    } else {
      FewerEntered(c, s);
      var ms, t := Ring.LateDeadlock(c, s);
      QuietRun(c, s, ms, t);
    }
  }

  lemma FewerEntered(c: Config, s: State)
    requires Ring.RingInv(c, s, 0, 0)
    ensures |s.entered| <= c.workers
  {
    Pigeonhole(s.entered, c.workers);
  }
}
