/**
 The FIFO policy with a queue of size one: every interleaving runs the workers to completion in
 the order in which they entered the queue, and no interleaving gets stuck.
 */
module SchedFifo {
  import opened Sequences
  import opened SchedProtocol
  import opened SchedSafety
  import opened SchedProgress
  import opened SchedTurns

  /** The first `i` reports of worker `w`. */
  function Reports(w: nat, i: nat): seq<Event> {
    seq(i, k requires 0 <= k < i => Event(w, k))
  }

  /** The reports of the workers `ws` run one after the other, each through all its loops and exit. */
  function InOrder(c: Config, ws: seq<nat>): seq<Event> {
    if ws == [] then [] else InOrder(c, ws[..|ws| - 1]) + Reports(ws[|ws| - 1], c.iterations + 1)
  }

  /** How many reports a worker has made. */
  function Reported(c: Config, pc: WorkerPc): nat {
    match pc
    case Entering => 0
    case Waiting(i) => i
    case Working(i) => i
    case Releasing(i) => i + 1
    case Dequeuing(i) => i + 1
    case Requeuing(i) => i + 1
    case Posting(i) => i + 1
    case _ => c.iterations + 1
  }

  predicate HasLeft(c: Config, pc: WorkerPc) {
    pc.Loading? || !Unfinished(c, pc) || pc.Storing?
  }

  /** Position `j` of the entry order, when the first `d` workers have left the queue. */
  ghost predicate PlaceOk(c: Config, d: nat, j: nat, pc: WorkerPc, permits: nat) {
    && !pc.Entering?
    && (j < d <==> HasLeft(c, pc))
    && (j != d ==> permits == 0)
    && (j > d ==> pc == Waiting(0))
  }

  ghost predicate PlacesOk(c: Config, entered: seq<nat>, d: nat, worker: seq<WorkerPc>, permits: seq<nat>)
    requires |worker| == |permits| == c.workers && AllBelow(entered, c.workers)
  {
    forall j {:trigger entered[j]} :: 0 <= j < |entered| ==>
      PlaceOk(c, d, j, worker[entered[j]], permits[entered[j]])
  }

  function HeadReports(c: Config, queue: seq<nat>, worker: seq<WorkerPc>): seq<Event>
    requires queue != [] ==> queue[0] < |worker|
  {
    if queue == [] then [] else Reports(queue[0], Reported(c, worker[queue[0]]))
  }

  ghost predicate HeadChosen(queue: seq<nat>, sched: SchedPc) {
    sched.Checking? || sched.Inserting? || sched.Waking? ==> queue != [] && sched.w == queue[0]
  }

  function Gone(s: State): nat {
    if |s.queue| <= |s.entered| then |s.entered| - |s.queue| else 0
  }

  ghost predicate FifoInv(c: Config, s: State) {
    && Typed(c, s)
    && EnteredOk(c, s.entered, s.worker, s.permits)
    && |s.queue| <= |s.entered|
    && s.queue == s.entered[Gone(s)..]
    && PlacesOk(c, s.entered, Gone(s), s.worker, s.permits)
    && HeadChosen(s.queue, s.sched)
    && s.log == InOrder(c, s.entered[..Gone(s)]) + HeadReports(c, s.queue, s.worker)
  }

  lemma FifoSchedStep(c: Config, s: State, l: Label)
    requires Inv(c, s) && c.policy.Fifo? && c.queueSize == 1
    requires FifoInv(c, s) && Enabled(c, s, l) && !l.Worker?
    ensures FifoInv(c, Apply(c, s, l))
  {
    assert s.sched.Checking? ==> |s.running| == 0;
    if l.Sched? {
      if s.sched.Waking? { FifoWake(c, s); } else { FifoLook(c, s); }
    }
  }

  lemma FifoLook(c: Config, s: State)
    requires Inv(c, s) && FifoInv(c, s) && SchedEnabled(s) && !s.sched.Waking?
    ensures FifoInv(c, SchedStep(s))
  {
    hide Distinct;
    TypedStep(c, s, Sched);
    var t := SchedStep(s);
    assert t.entered == s.entered && t.queue == s.queue && t.worker == s.worker && t.permits == s.permits;
  }

  lemma FifoWake(c: Config, s: State)
    requires FifoInv(c, s) && s.sched.Waking?
    ensures FifoInv(c, SchedStep(s))
  {
    TypedStep(c, s, Sched);
    var t := SchedStep(s);
    assert s.queue[0] == s.entered[Gone(s)];
    assert EnteredOk(c, t.entered, t.worker, t.permits);
    assert PlacesOk(c, t.entered, Gone(t), t.worker, t.permits);
  }

  /** The place of a worker that can take a step other than entering: the head of the queue, or
      already out of it. */
  lemma FifoPlace(c: Config, s: State, w: nat) returns (j: nat)
    requires FifoInv(c, s) && w < c.workers && WorkerEnabled(s, w) && !s.worker[w].Entering?
    ensures j < |s.entered| && s.entered[j] == w && j <= Gone(s)
    ensures PlaceOk(c, Gone(s), j, s.worker[w], s.permits[w])
    ensures j == Gone(s) ==> s.queue == [w] + s.queue[1..]
  {
    j := IndexOf(s.entered, w);
  }

  /** One worker's new program counter and permits fit its place; the others keep theirs. */
  lemma PlacesUpdate(c: Config, s: State, d: nat, j: nat, pc: WorkerPc, permits: nat)
    requires Typed(c, s) && EnteredOk(c, s.entered, s.worker, s.permits) && PlacesOk(c, s.entered, d, s.worker, s.permits)
    requires j < |s.entered| && s.entered[j] < c.workers && PlaceOk(c, d, j, pc, permits)
    ensures var w := s.entered[j];
      && EnteredOk(c, s.entered, s.worker[w := pc], s.permits[w := permits])
      && PlacesOk(c, s.entered, d, s.worker[w := pc], s.permits[w := permits])
  {
  }

  lemma FifoEnter(c: Config, s: State, w: nat)
    requires FifoInv(c, s) && w < c.workers && s.worker[w].Entering? && s.started
    ensures FifoInv(c, WorkerStep(c, s, w))
  {
    hide WorkerStep;
    TypedStep(c, s, Worker(w));
    EnterShape(c, s, w);
    var t := WorkerStep(c, s, w);
    assert t.entered[..Gone(t)] == s.entered[..Gone(s)];
    EnteredMore(c, s.entered, s.worker, s.permits, w);
    FifoEnterPlaces(c, s, w);
    if s.queue == [] {
      assert t.queue[0] == w && Reports(w, 0) == [];
    } else {
      assert s.queue[0] == s.entered[Gone(s)];
    }
  }

  lemma FifoEnterPlaces(c: Config, s: State, w: nat)
    requires FifoInv(c, s) && w < c.workers && s.worker[w].Entering?
    ensures PlacesOk(c, s.entered + [w], Gone(s), s.worker[w := Waiting(0)], s.permits)
  {
    assert w !in s.entered && s.permits[w] == 0;
  }

  lemma InOrderExtend(c: Config, ws: seq<nat>, w: nat)
    ensures InOrder(c, ws + [w]) == InOrder(c, ws) + Reports(w, c.iterations + 1)
  {
    assert (ws + [w])[..|ws|] == ws;
  }

  lemma FifoLeave(c: Config, s: State, w: nat)
    requires Inv(c, s) && c.queueSize == 1 && FifoInv(c, s) && w < c.workers && s.worker[w].Leaving?
    ensures FifoInv(c, WorkerStep(c, s, w))
  {
    hide WorkerStep;
    TypedStep(c, s, Worker(w));
    LeaveShape(c, s, w);
    var t := WorkerStep(c, s, w);
    var j := FifoPlace(c, s, w);
    assert t.queue == s.queue[1..] && Gone(t) == j + 1 by { RemoveHead(w, s.queue[1..]); }
    assert s.permits[w] == 0 && !s.sched.Waking? by { HolderPlace(c, s, w); assert PermitOf(s, w); }
    assert s.sched.Blocking? by { HolderPlace(c, s, w); }
    FifoLeavePlaces(c, s, j);
    FifoLeaveReports(c, s, j);
  }

  lemma FifoLeavePlaces(c: Config, s: State, j: nat)
    requires FifoInv(c, s) && j == Gone(s) < |s.entered|
    requires s.entered[j] < c.workers && s.worker[s.entered[j]].Leaving? && s.permits[s.entered[j]] == 0
    ensures EnteredOk(c, s.entered, s.worker[s.entered[j] := Loading], s.permits)
    ensures PlacesOk(c, s.entered, j + 1, s.worker[s.entered[j] := Loading], s.permits)
  {
  }

  lemma FifoLeaveReports(c: Config, s: State, j: nat)
    requires FifoInv(c, s) && j == Gone(s) < |s.entered|
    requires s.entered[j] < c.workers && s.worker[s.entered[j]].Leaving?
    ensures var worker := s.worker[s.entered[j] := Loading];
      && (s.queue[1..] != [] ==> s.queue[1] < c.workers)
      && s.log == InOrder(c, s.entered[..j + 1]) + HeadReports(c, s.queue[1..], worker)
  {
    hide Distinct;
    InOrderExtend(c, s.entered[..j], s.entered[j]);
    assert s.entered[..j + 1] == s.entered[..j] + [s.entered[j]];
    assert s.queue[0] == s.entered[j];
    if s.queue[1..] != [] {
      assert s.queue[1] == s.entered[j + 1];
      assert Reports(s.queue[1], 0) == [];
    }
  }

  /** What a worker's step leaves alone, unless it enters or leaves the queue. */
  lemma RunFrame(c: Config, s: State, w: nat)
    requires Inv(c, s) && w < c.workers && WorkerEnabled(s, w) && !s.worker[w].Entering? && !s.worker[w].Leaving?
    ensures var t := WorkerStep(c, s, w);
      && t.entered == s.entered && t.sched == s.sched && (c.policy.Fifo? ==> t.queue == s.queue)
      && t.worker == s.worker[w := t.worker[w]] && t.permits == s.permits[w := t.permits[w]]
  {
    assert InRange(c, s.worker[w]);
  }

  lemma RunPlace(c: Config, s: State, w: nat, d: nat, j: nat)
    requires Inv(c, s) && c.policy.Fifo? && w < c.workers && WorkerEnabled(s, w)
    requires !s.worker[w].Entering? && !s.worker[w].Leaving? && j <= d && PlaceOk(c, d, j, s.worker[w], s.permits[w])
    ensures var t := WorkerStep(c, s, w); PlaceOk(c, d, j, t.worker[w], t.permits[w])
  {
    assert PermitOf(s, w);
    assert InRange(c, s.worker[w]);
  }

  lemma FifoRun(c: Config, s: State, w: nat)
    requires Inv(c, s) && c.policy.Fifo? && FifoInv(c, s)
    requires w < c.workers && WorkerEnabled(s, w) && !s.worker[w].Entering? && !s.worker[w].Leaving?
    ensures FifoInv(c, WorkerStep(c, s, w))
  {
    hide Distinct;
    TypedStep(c, s, Worker(w));
    var t := WorkerStep(c, s, w);
    var j := FifoPlace(c, s, w);
    RunFrame(c, s, w);
    RunPlace(c, s, w, Gone(s), j);
    PlacesUpdate(c, s, Gone(s), j, t.worker[w], t.permits[w]);
    FifoRunReports(c, s, w, j);
  }

  lemma FifoRunReports(c: Config, s: State, w: nat, j: nat)
    requires Inv(c, s) && FifoInv(c, s) && c.policy.Fifo? && w < c.workers && WorkerEnabled(s, w)
    requires !s.worker[w].Entering? && !s.worker[w].Leaving?
    requires j < |s.entered| && s.entered[j] == w && j <= Gone(s) && PlaceOk(c, Gone(s), j, s.worker[w], s.permits[w])
    ensures var t := WorkerStep(c, s, w);
      t.log == InOrder(c, s.entered[..Gone(s)]) + HeadReports(c, s.queue, t.worker)
  {
    hide Distinct;
    if j == Gone(s) {
      assert s.queue[0] == w;
      if s.worker[w].Working? {
        var i := s.worker[w].i;
        assert Reports(w, i + 1) == Reports(w, i) + [Event(w, i)];
      }
    } else {
      assert s.queue != [] ==> s.queue[0] == s.entered[Gone(s)];
    }
  }

  lemma FifoStep(c: Config, s: State, l: Label)
    requires Inv(c, s) && c.policy.Fifo? && c.queueSize == 1 && FifoInv(c, s) && Enabled(c, s, l)
    ensures Inv(c, Apply(c, s, l)) && FifoInv(c, Apply(c, s, l))
  {
    InvStep(c, s, l);
    match l
    case Worker(w) =>
      if s.worker[w].Entering? {
        FifoEnter(c, s, w);
      } else if s.worker[w].Leaving? {
        FifoLeave(c, s, w);
      } else {
        FifoRun(c, s, w);
      }
    case _ => FifoSchedStep(c, s, l);
  }

  lemma {:induction false} FifoReaches(c: Config, s: State, ls: seq<Label>, t: State)
    requires TurnInv(c, s) && FifoInv(c, s) && c.policy.Fifo? && c.queueSize == 1 && Reaches(c, s, ls, t)
    ensures TurnInv(c, t) && FifoInv(c, t)
    decreases |ls|
  {
    if ls != [] {
      FifoStep(c, s, ls[0]);
      TurnStep(c, s, ls[0]);
      FifoReaches(c, Apply(c, s, ls[0]), ls[1..], t);
    }
  }

  /** Report number `b` of the `a`-th worker stands `a` whole runs and `b` reports into the log. */
  lemma {:induction false} InOrderAt(c: Config, ws: seq<nat>, a: nat, b: nat)
    requires a < |ws| && b <= c.iterations
    ensures Slot(c, a, b) < |InOrder(c, ws)| && InOrder(c, ws)[Slot(c, a, b)] == Event(ws[a], b)
  {
    var n := |ws| - 1;
    InOrderLength(c, ws);
    InOrderLength(c, ws[..n]);
    if a < n {
      InOrderAt(c, ws[..n], a, b);
    } else {
      CellOrder(c.iterations + 1, a, a, b);
    }
  }

  lemma {:induction false} InOrderLength(c: Config, ws: seq<nat>)
    ensures |InOrder(c, ws)| == Slot(c, |ws|, 0)
  {
    if ws != [] { InOrderLength(c, ws[..|ws| - 1]); }
  }

  /** Where report `b` of the `a`-th worker stands when workers report one after the other. */
  function Slot(c: Config, a: nat, b: nat): nat {
    Cell(c.iterations + 1, a, b)
  }

  /** The log of every reachable state is a prefix of the reports of the workers run one after the
      other in the order of entry. */
  lemma FifoPrefix(c: Config, s: State)
    requires Inv(c, s) && FifoInv(c, s)
    ensures s.log <= InOrder(c, s.entered)
  {
    hide Distinct;
    var d := Gone(s);
    if s.queue == [] {
      assert s.entered[..d] == s.entered;
    } else {
      assert s.queue[0] == s.entered[d];
      var pc := s.worker[s.queue[0]];
      assert InRange(c, pc) && Reported(c, pc) <= c.iterations + 1;
      PartialPrefix(c, s.entered, d, Reported(c, pc));
    }
  }

  lemma PartialPrefix(c: Config, ws: seq<nat>, d: nat, i: nat)
    requires d < |ws| && i <= c.iterations + 1
    ensures InOrder(c, ws[..d]) + Reports(ws[d], i) <= InOrder(c, ws)
  {
    InOrderExtend(c, ws[..d], ws[d]);
    assert ws[..d + 1] == ws[..d] + [ws[d]];
    assert Reports(ws[d], i) <= Reports(ws[d], c.iterations + 1);
    InOrderMonotone(c, ws, d + 1);
  }

  lemma {:induction false} InOrderMonotone(c: Config, ws: seq<nat>, d: nat)
    requires d <= |ws|
    ensures InOrder(c, ws[..d]) <= InOrder(c, ws)
  {
    if d == |ws| {
      assert ws[..d] == ws;
    } else {
      InOrderMonotone(c, ws[..|ws| - 1], d);
      assert ws[..|ws| - 1][..d] == ws[..d];
    }
  }

  lemma PrefixAt(c: Config, ws: seq<nat>, log: seq<Event>, a: nat, b: nat)
    requires log <= InOrder(c, ws) && b <= c.iterations && Slot(c, a, b) < |log|
    ensures a < |ws| && log[Slot(c, a, b)] == Event(ws[a], b)
  {
    RowBound(c, ws, a, b);
    InOrderAt(c, ws, a, b);
  }

  lemma RowBound(c: Config, ws: seq<nat>, a: nat, b: nat)
    requires Slot(c, a, b) < |InOrder(c, ws)|
    ensures a < |ws|
  {
    InOrderLength(c, ws);
    CellBound(c.iterations + 1, a, b, |ws|);
  }

  /** FIFO with a queue of size one, in every interleaving: the reports run through the workers in
      the order in which they entered, each doing loops 0, 1, ... and its exit without a break. When
      the scheduler stops, every worker has been through, and it took exactly one wake a report. */
  lemma FifoOrder(c: Config, ls: seq<Label>, s: State)
    requires c.policy.Fifo? && c.queueSize == 1 && Reaches(c, Init(c), ls, s)
    ensures Distinct(s.entered)
    ensures forall a: nat, b: nat :: b <= c.iterations && Slot(c, a, b) < |s.log| ==>
              a < |s.entered| && s.log[Slot(c, a, b)] == Event(s.entered[a], b)
    ensures s.sched.Stopped? ==>
              |s.entered| == c.workers && s.log == InOrder(c, s.entered) && |s.wakes| == c.workers * (c.iterations + 1)
  {
    hide TurnInv, FifoInv, InOrder, Slot, Distinct;
    TurnStart(c);
    FifoStart(c);
    FifoReaches(c, Init(c), ls, s);
    FifoFacts(c, s);
    forall a: nat, b: nat | b <= c.iterations && Slot(c, a, b) < |s.log|
      ensures a < |s.entered| && s.log[Slot(c, a, b)] == Event(s.entered[a], b)
    {
      PrefixAt(c, s.entered, s.log, a, b);
    }
    if s.sched.Stopped? { FifoStopped(c, s); }
  }

  lemma FifoStart(c: Config)
    ensures FifoInv(c, Init(c))
  {
    var s := Init(c);
    assert Gone(s) == 0 && s.queue == s.entered[0..] == [];
    assert InOrder(c, s.entered[..0]) == [];
  }

  lemma FifoFacts(c: Config, s: State)
    requires TurnInv(c, s) && FifoInv(c, s)
    ensures Distinct(s.entered) && s.log <= InOrder(c, s.entered)
  {
    FifoPrefix(c, s);
  }

  lemma HeadStays(c: Config, s: State)
    requires FifoInv(c, s) && s.queue != []
    ensures s.queue[0] < c.workers && !HasLeft(c, s.worker[s.queue[0]])
  {
    assert s.queue[0] == s.entered[Gone(s)];
  }

  lemma FifoStopped(c: Config, s: State)
    requires Inv(c, s) && FifoInv(c, s) && WakesInv(c, s) && c.queueSize == 1 && s.sched.Stopped?
    ensures |s.entered| == c.workers && s.log == InOrder(c, s.entered)
    ensures |s.wakes| == c.workers * (c.iterations + 1)
  {
    CountWitness(c, s.worker);
    forall w | 0 <= w < c.workers ensures s.worker[w].Finished? && w in s.entered && !Dispatched(s, w) {
      if Holds(s, w) { HolderPlace(c, s, w); }
    }
    AllPresent(s.entered, c.workers);
    if s.queue != [] { HeadStays(c, s); }
    assert s.entered[..Gone(s)] == s.entered;
    InOrderLength(c, s.entered);
    CellValue(c.iterations + 1, c.workers, 0);
  }

  /** FIFO with a queue of size one never gets stuck: with at least one worker, every reachable
      state in which the scheduler has not stopped has a productive step. */
  lemma FifoProgress(c: Config, s: State) returns (l: Label)
    requires TurnInv(c, s) && FifoInv(c, s) && c.policy.Fifo? && c.queueSize == 1
    requires c.workers >= 1 && !s.sched.Stopped?
    ensures Productive(c, s, l)
  {
    if !s.started {
      l := Main;
    } else if (s.sched.AwaitingQueue? || s.sched.Peeking?) && s.queue == [] {
      var w := FifoNewcomer(c, s);
      l := Worker(w);
    } else if s.sched.Blocking? && s.slots == 0 {
      var w := HolderExists(c, s);
      l := Worker(w);
      FifoHolderMoves(c, s, w);
    } else {
      l := Sched;
      assert s.sched.Checking? ==> |s.running| == 0;
    }
  }

  lemma FifoNewcomer(c: Config, s: State) returns (w: nat)
    requires TurnInv(c, s) && FifoInv(c, s) && c.queueSize == 1 && c.workers >= 1 && s.started
    requires (s.sched.AwaitingQueue? || s.sched.Peeking?) && s.queue == []
    ensures w < c.workers && s.worker[w].Entering?
  {
    forall x | 0 <= x < c.workers ensures !Dispatched(s, x) {
      if Dispatched(s, x) { HolderPlace(c, s, x); }
    }
    if s.sched.AwaitingQueue? {
      w := 0;
      InOrderLength(c, s.entered);
      assert |s.wakes| == |s.log| == 0 && s.entered[..Gone(s)] == s.entered;
      CellValue(c.iterations + 1, |s.entered|, 0);
      assert |s.entered| * (c.iterations + 1) >= |s.entered|;
      assert w !in s.entered;
    } else {
      CountWitness(c, s.worker);
      w :| 0 <= w < c.workers && Unfinished(c, s.worker[w]);
      if w in s.entered {
        var j := IndexOf(s.entered, w);
        assert HasLeft(c, s.worker[w]);
        HolderPlace(c, s, w);
      }
    }
  }

  lemma FifoHolderMoves(c: Config, s: State, w: nat)
    requires Inv(c, s) && FifoInv(c, s) && w < c.workers && Holds(s, w) && s.sched.Blocking?
    ensures WorkerEnabled(s, w) && !s.worker[w].Entering?
  {
    if !Busy(s.worker[w]) {
      assert w in s.entered;
      var j := IndexOf(s.entered, w);
      assert PlaceOk(c, Gone(s), j, s.worker[w], s.permits[w]);
    }
  }

  lemma {:induction false} FifoCompletes(c: Config, s: State) returns (ls: seq<Label>, t: State)
    requires TurnInv(c, s) && FifoInv(c, s) && c.policy.Fifo? && c.queueSize == 1 && c.workers >= 1
    ensures Reaches(c, s, ls, t) && t.sched.Stopped?
    decreases Measure(c, s)
  {
    if s.sched.Stopped? {
      ls, t := [], s;
    } else {
      var l := FifoProgress(c, s);
      MeasureDrops(c, s, l);
      FifoStep(c, s, l);
      TurnStep(c, s, l);
      var rest;
      rest, t := FifoCompletes(c, Apply(c, s, l));
      ls := [l] + rest;
      assert ls[1..] == rest;
    }
  }

  ghost predicate CanStop(c: Config, s: State) {
    exists ms, t :: Reaches(c, s, ms, t) && t.sched.Stopped?
  }

  lemma FifoCanStop(c: Config, s: State)
    requires TurnInv(c, s) && FifoInv(c, s) && c.policy.Fifo? && c.queueSize == 1 && c.workers >= 1
    ensures CanStop(c, s)
  {
    var ms, t := FifoCompletes(c, s);
  }

  lemma FifoCannotStop(c: Config, ls: seq<Label>, s: State)
    requires c.workers == 0 && Reaches(c, Init(c), ls, s)
    ensures !CanStop(c, s)
  {
    NobodyComes(c, Init(c), ls, s);
    if CanStop(c, s) {
      var ms, t :| Reaches(c, s, ms, t) && t.sched.Stopped?;
      NobodyComes(c, s, ms, t);
    }
  }

  /** FIFO with a queue of size one: from every reachable state the scheduler can be brought to
      stop exactly when there is at least one worker. Without workers it spins for ever. */
  lemma FifoFinishes(c: Config, ls: seq<Label>, s: State)
    requires c.policy.Fifo? && c.queueSize == 1 && Reaches(c, Init(c), ls, s)
    ensures CanStop(c, s) <==> c.workers >= 1
  {
    TurnStart(c);
    FifoReaches(c, Init(c), ls, s);
    if c.workers >= 1 { FifoCanStop(c, s); } else { FifoCannotStop(c, ls, s); }
  }

  lemma {:induction false} NobodyComes(c: Config, s: State, ls: seq<Label>, t: State)
    requires c.workers == 0 && s.sched.AwaitingQueue? && s.queue == [] && Reaches(c, s, ls, t)
    ensures t.sched.AwaitingQueue? && t.queue == []
    decreases |ls|
  {
    if ls != [] { NobodyComes(c, Apply(c, s, ls[0]), ls[1..], t); }
  }
}
