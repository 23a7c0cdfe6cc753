/**
 The round-robin policy with a queue of size one. It is exact when every worker has entered the
 queue before the first one goes back to its end; otherwise a worker that has exited can be woken
 again, and then the scheduler waits for ever.
 */
module SchedRoundRobin {
  import opened Sequences
  import opened SchedProtocol
  import opened SchedSafety
  import opened SchedProgress
  import opened SchedTurns

  /** Report `r` of each worker of `ws`, in order. */
  function Round(ws: seq<nat>, r: nat): seq<Event> {
    seq(|ws|, x requires 0 <= x < |ws| => Event(ws[x], r))
  }

  /** Rounds 0 up to `r` of the ring `ws`. */
  function Rounds(ws: seq<nat>, r: nat): seq<Event> {
    if r == 0 then [] else Rounds(ws, r - 1) + Round(ws, r - 1)
  }

  function Rotation(ring: seq<nat>, p: nat): seq<nat>
    requires p <= |ring|
  {
    ring[p..] + ring[..p]
  }

  /** Has completed `m` passes and holds no turn, up to posting the scheduler's semaphore. */
  predicate Completed(c: Config, m: nat, pc: WorkerPc) {
    || pc == (if m <= c.iterations then Waiting(m) else Finished)
    || (m > 0 && pc == Posting(m - 1))
  }

  /** Is in the middle of pass `r`. */
  predicate InPass(c: Config, r: nat, pc: WorkerPc) {
    && r <= c.iterations
    && (|| pc == Working(r)
        || pc == Releasing(r)
        || pc == Dequeuing(r)
        || pc == Requeuing(r)
        || (r == c.iterations && (pc.Leaving? || pc.Loading? || pc.Storing?)))
  }

  /** Off the queue for the moment. */
  predicate Unlinked(c: Config, pc: WorkerPc) {
    match pc
    case Loading => true
    case Storing(_) => true
    case Releasing(i) => i == c.iterations
    case Dequeuing(i) => i == c.iterations
    case Requeuing(_) => true
    case _ => false
  }

  ghost predicate PlaceOk(c: Config, r: nat, p: nat, x: nat, pc: WorkerPc, permits: nat) {
    && (x < p ==> Completed(c, r + 1, pc))
    && (x == p ==> Completed(c, r, pc) || InPass(c, r, pc))
    && (x > p ==> Completed(c, r, pc))
    && (x != p ==> permits == 0)
  }

  ghost predicate PlacesOk(c: Config, ring: seq<nat>, r: nat, p: nat, worker: seq<WorkerPc>, permits: seq<nat>)
    requires |worker| == |permits| == c.workers && AllBelow(ring, c.workers)
  {
    forall x {:trigger ring[x]} :: 0 <= x < |ring| ==>
      PlaceOk(c, r, p, x, worker[ring[x]], permits[ring[x]])
  }

  ghost predicate QueueOk(c: Config, ring: seq<nat>, p: nat, queue: seq<nat>, pc: WorkerPc)
    requires p < |ring|
  {
    queue == if Unlinked(c, pc) then Rotation(ring, p)[1..] else Rotation(ring, p)
  }

  ghost predicate LogOk(c: Config, ring: seq<nat>, r: nat, p: nat, log: seq<Event>, pc: WorkerPc)
    requires p < |ring|
  {
    log == Rounds(ring, r) + Round(ring[..p], r)
           + (if InPass(c, r, pc) && !pc.Working? then [Event(ring[p], r)] else [])
  }

  ghost predicate CurrentChosen(sched: SchedPc, w: nat) {
    sched.Checking? || sched.Inserting? || sched.Waking? ==> sched.w == w
  }

  /** The ring, in order of entry, has completed `r` rounds and `p` turns of the next. */
  ghost predicate RingInv(c: Config, s: State, r: nat, p: nat) {
    && Typed(c, s)
    && EnteredOk(c, s.entered, s.worker, s.permits)
    && PlacesOk(c, s.entered, r, p, s.worker, s.permits)
    && r <= c.iterations + 1 && (r == c.iterations + 1 ==> p == 0)
    && if s.entered == [] then
         r == p == 0 && s.queue == [] && s.log == []
         && !s.sched.Checking? && !s.sched.Inserting? && !s.sched.Waking?
       else
         && p < |s.entered|
         && s.entered[p] < c.workers
         && QueueOk(c, s.entered, p, s.queue, s.worker[s.entered[p]])
         && LogOk(c, s.entered, r, p, s.log, s.worker[s.entered[p]])
         && CurrentChosen(s.sched, s.entered[p])
  }

  predicate Enters(s: State, l: Label) {
    l.Worker? && l.w < |s.worker| && s.worker[l.w].Entering?
  }

  lemma RingSchedStep(c: Config, s: State, l: Label, r: nat, p: nat)
    requires Inv(c, s) && c.queueSize == 1 && RingInv(c, s, r, p) && Enabled(c, s, l) && !l.Worker?
    ensures RingInv(c, Apply(c, s, l), r, p)
  {
    hide Distinct;
    TypedStep(c, s, l);
    if l.Sched? && s.sched.Waking? {
      RingWake(c, s, r, p);
    } else if l.Sched? && s.sched.Peeking? && s.entered != [] {
      Quiet(c, s, s.entered[p]);
      assert Rotation(s.entered, p)[0] == s.entered[p];
    }
  }

  lemma Quiet(c: Config, s: State, w: nat)
    requires Inv(c, s) && c.queueSize == 1 && !s.sched.Waking? && !s.sched.Blocking? && w < c.workers
    ensures !Busy(s.worker[w]) && s.permits[w] == 0
  {
    if Holds(s, w) { HolderPlace(c, s, w); }
  }

  lemma RingWake(c: Config, s: State, r: nat, p: nat)
    requires RingInv(c, s, r, p) && s.sched.Waking?
    ensures RingInv(c, SchedStep(s), r, p)
  {
    TypedStep(c, s, Sched);
    var t := SchedStep(s);
    assert EnteredOk(c, t.entered, t.worker, t.permits);
    assert PlacesOk(c, t.entered, r, p, t.worker, t.permits);
  }

  /** Entering is harmless until the first worker goes back to the end of the queue. */
  lemma RingEnter(c: Config, s: State, w: nat)
    requires RingInv(c, s, 0, 0) && w < c.workers && s.worker[w].Entering? && s.started
    ensures RingInv(c, WorkerStep(c, s, w), 0, 0)
  {
    hide Distinct, WorkerStep;
    TypedStep(c, s, Worker(w));
    EnterShape(c, s, w);
    var t := WorkerStep(c, s, w);
    EnteredMore(c, s.entered, s.worker, s.permits, w);
    assert PlacesOk(c, t.entered, 0, 0, t.worker, t.permits);
    assert Rotation(t.entered, 0) == t.entered;
    assert t.entered[..0] == [];
    if s.entered != [] {
      assert Rotation(s.entered, 0) == s.entered;
      assert t.entered[0] == s.entered[0];
      assert s.entered[..0] == [];
    }
  }

  /** Where in the ring a worker is. */
  lemma RingAt(c: Config, s: State, r: nat, p: nat, w: nat) returns (x: nat)
    requires RingInv(c, s, r, p) && w < c.workers && !s.worker[w].Entering?
    ensures x < |s.entered| && s.entered[x] == w && PlaceOk(c, r, p, x, s.worker[w], s.permits[w])
  {
    x := IndexOf(s.entered, w);
  }

  /** A worker that can take a step other than entering and is not posting has the turn. */
  lemma RingPlace(c: Config, s: State, r: nat, p: nat, w: nat) returns (x: nat)
    requires RingInv(c, s, r, p) && w < c.workers && WorkerEnabled(s, w) && !s.worker[w].Entering?
    ensures x < |s.entered| && s.entered[x] == w && PlaceOk(c, r, p, x, s.worker[w], s.permits[w])
    ensures !s.worker[w].Posting? ==> x == p
  {
    x := RingAt(c, s, r, p, w);
  }

  /** One worker's new program counter and permits fit its place; the others keep theirs. */
  lemma PlacesUpdate(c: Config, s: State, r: nat, p: nat, x: nat, pc: WorkerPc, permits: nat)
    requires Typed(c, s) && EnteredOk(c, s.entered, s.worker, s.permits) && PlacesOk(c, s.entered, r, p, s.worker, s.permits)
    requires x < |s.entered| && s.entered[x] < c.workers && !pc.Entering? && PlaceOk(c, r, p, x, pc, permits)
    ensures var w := s.entered[x];
      && EnteredOk(c, s.entered, s.worker[w := pc], s.permits[w := permits])
      && PlacesOk(c, s.entered, r, p, s.worker[w := pc], s.permits[w := permits])
  {
  }

  /** Posting ends a worker's turn without moving the ring on. */
  lemma RingPost(c: Config, s: State, r: nat, p: nat, w: nat)
    requires Inv(c, s) && RingInv(c, s, r, p) && w < c.workers && s.worker[w].Posting?
    ensures RingInv(c, WorkerStep(c, s, w), r, p)
  {
    hide WorkerStep, Distinct, Rounds, Round, Rotation;
    TypedStep(c, s, Worker(w));
    PostShape(c, s, w);
    assert InRange(c, s.worker[w]);
    var x := RingPlace(c, s, r, p, w);
    PlacesUpdate(c, s, r, p, x, WorkerStep(c, s, w).worker[w], s.permits[w]);
    assert s.permits[w := s.permits[w]] == s.permits;
  }

  /** The steps of a turn up to going back to the end of the queue. */
  lemma RingTurn(c: Config, s: State, r: nat, p: nat, w: nat)
    requires Inv(c, s) && c.policy.RoundRobin? && c.queueSize == 1 && RingInv(c, s, r, p)
    requires w < c.workers && WorkerEnabled(s, w)
    requires !s.worker[w].Entering? && !s.worker[w].Posting? && !s.worker[w].Requeuing?
    ensures RingInv(c, WorkerStep(c, s, w), r, p)
  {
    hide Distinct, WorkerStep, Rounds, Round, Rotation;
    TypedStep(c, s, Worker(w));
    var t := WorkerStep(c, s, w);
    var x := RingPlace(c, s, r, p, w);
    TurnPc(c, s, r, w);
    PlacesUpdate(c, s, r, p, x, t.worker[w], t.permits[w]);
    TurnQueue(c, s, r, p, w);
    TurnLog(c, s, r, p, w);
  }

  lemma TurnLog(c: Config, s: State, r: nat, p: nat, w: nat)
    requires RingInv(c, s, r, p) && c.policy.RoundRobin? && p < |s.entered| && s.entered[p] == w
    requires w < c.workers && WorkerEnabled(s, w)
    requires !s.worker[w].Entering? && !s.worker[w].Posting? && !s.worker[w].Requeuing?
    requires Completed(c, r, s.worker[w]) || InPass(c, r, s.worker[w])
    ensures LogOk(c, s.entered, r, p, WorkerStep(c, s, w).log, WorkerStep(c, s, w).worker[w])
  {
    hide Distinct, PlacesOk, Rounds, Round, Rotation;
    TurnPc(c, s, r, w);
    var done := Rounds(s.entered, r) + Round(s.entered[..p], r);
    assert done + [] == done;
  }

  lemma TurnPc(c: Config, s: State, r: nat, w: nat)
    requires Typed(c, s) && c.policy.RoundRobin? && w < c.workers && WorkerEnabled(s, w)
    requires !s.worker[w].Entering? && !s.worker[w].Posting? && !s.worker[w].Requeuing?
    requires Completed(c, r, s.worker[w]) || InPass(c, r, s.worker[w])
    ensures var t := WorkerStep(c, s, w);
      && InPass(c, r, t.worker[w])
      && t.entered == s.entered && t.sched == s.sched
      && t.worker == s.worker[w := t.worker[w]] && t.permits == s.permits[w := t.permits[w]]
      && t.log == s.log + (if s.worker[w].Working? then [Event(w, r)] else [])
  {
  }

  lemma TurnQueue(c: Config, s: State, r: nat, p: nat, w: nat)
    requires Inv(c, s) && c.policy.RoundRobin? && RingInv(c, s, r, p)
    requires p < |s.entered| && s.entered[p] == w && w < c.workers && WorkerEnabled(s, w)
    requires !s.worker[w].Entering? && !s.worker[w].Posting? && !s.worker[w].Requeuing?
    ensures QueueOk(c, s.entered, p, WorkerStep(c, s, w).queue, WorkerStep(c, s, w).worker[w])
  {
    var q := Rotation(s.entered, p);
    RemoveRotation(s.entered, p);
    UnlinkedStep(c, s, w);
  }

  lemma UnlinkedStep(c: Config, s: State, w: nat)
    requires Inv(c, s) && c.policy.RoundRobin? && w < c.workers && WorkerEnabled(s, w)
    requires !s.worker[w].Entering? && !s.worker[w].Posting? && !s.worker[w].Requeuing?
    ensures var t := WorkerStep(c, s, w);
      if s.worker[w].Leaving? || s.worker[w].Dequeuing? then
        t.queue == RemoveFirst(s.queue, w) && Unlinked(c, t.worker[w])
      else
        t.queue == s.queue && (Unlinked(c, t.worker[w]) <==> Unlinked(c, s.worker[w]))
  {
    assert InRange(c, s.worker[w]);
  }

  lemma RemoveRotation(ring: seq<nat>, p: nat)
    requires Distinct(ring) && p < |ring|
    ensures RemoveFirst(Rotation(ring, p), ring[p]) == Rotation(ring, p)[1..]
    ensures RemoveFirst(Rotation(ring, p)[1..], ring[p]) == Rotation(ring, p)[1..]
  {
    var q := Rotation(ring, p);
    assert q == [ring[p]] + q[1..];
    RemoveHead(ring[p], q[1..]);
    RotationTail(ring, p);
  }

  lemma RotationTail(ring: seq<nat>, p: nat)
    requires Distinct(ring) && p < |ring|
    ensures ring[p] !in Rotation(ring, p)[1..]
    ensures Rotation(ring, p)[1..] + [ring[p]] == if p + 1 < |ring| then Rotation(ring, p + 1) else Rotation(ring, 0)
  {
    assert Rotation(ring, p)[1..] == ring[p + 1..] + ring[..p];
  }

  /** Going back to the end of the queue passes the turn on. */
  lemma RingAdvance(c: Config, s: State, r: nat, p: nat, w: nat) returns (r': nat, p': nat)
    requires Inv(c, s) && c.policy.RoundRobin? && c.queueSize == 1 && RingInv(c, s, r, p)
    requires w < c.workers && s.worker[w].Requeuing?
    ensures RingInv(c, WorkerStep(c, s, w), r', p')
  {
    hide WorkerStep, Distinct, Rounds, Round, Rotation, Inv;
    RequeuingCurrent(c, s, r, p, w);
    r', p' := if p + 1 < |s.entered| then r else r + 1, if p + 1 < |s.entered| then p + 1 else 0;
    TypedStep(c, s, Worker(w)) by { assert Enabled(c, s, Worker(w)); }
    RequeueShape(c, s, w);
    AdvancePlaces(c, s, r, p, r', p');
    AdvanceQueue(c, s, r, p, p');
    AdvanceLog(c, s, r, p, r', p');
  }

  lemma RequeuingCurrent(c: Config, s: State, r: nat, p: nat, w: nat)
    requires Inv(c, s) && c.queueSize == 1 && RingInv(c, s, r, p) && w < c.workers && s.worker[w].Requeuing?
    ensures p < |s.entered| && s.entered[p] == w && r <= c.iterations && s.worker[w] == Requeuing(r)
    ensures s.permits[w] == 0 && s.sched.Blocking?
  {
    var x := RingPlace(c, s, r, p, w);
    HolderPlace(c, s, w);
    assert PermitOf(s, w);
  }

  lemma AdvanceQueue(c: Config, s: State, r: nat, p: nat, p': nat)
    requires RingInv(c, s, r, p) && p < |s.entered| && s.worker[s.entered[p]].Requeuing?
    requires p' == if p + 1 < |s.entered| then p + 1 else 0
    ensures s.queue + [s.entered[p]] == Rotation(s.entered, p')
  {
    hide Distinct;
    RotationTail(s.entered, p);
  }

  lemma AdvanceLog(c: Config, s: State, r: nat, p: nat, r': nat, p': nat)
    requires RingInv(c, s, r, p) && p < |s.entered| && r <= c.iterations
    requires s.worker[s.entered[p]] == Requeuing(r)
    requires if p + 1 < |s.entered| then r' == r && p' == p + 1 else r' == r + 1 && p' == 0
    ensures s.log == Rounds(s.entered, r') + Round(s.entered[..p'], r')
  {
    hide Distinct;
    var ring := s.entered;
    assert Round(ring[..p], r) + [Event(ring[p], r)] == Round(ring[..p + 1], r);
    if p + 1 == |ring| {
      assert ring[..p + 1] == ring && Round(ring[..0], r') == [];
    }
  }

  lemma AdvancePlaces(c: Config, s: State, r: nat, p: nat, r': nat, p': nat)
    requires RingInv(c, s, r, p) && p < |s.entered| && r <= c.iterations && s.permits[s.entered[p]] == 0
    requires s.worker[s.entered[p]] == Requeuing(r)
    requires if p + 1 < |s.entered| then r' == r && p' == p + 1 else r' == r + 1 && p' == 0
    ensures var worker := s.worker[s.entered[p] := Posting(r)];
      && EnteredOk(c, s.entered, worker, s.permits)
      && PlacesOk(c, s.entered, r', p', worker, s.permits)
      && p' < |s.entered| && s.entered[p'] < c.workers
      && Completed(c, r', worker[s.entered[p']])
  {
    EnteredSame(c, s.entered, s.worker, s.permits, s.entered[p], Posting(r));
  }

  lemma RingStep(c: Config, s: State, l: Label, r: nat, p: nat) returns (r': nat, p': nat)
    requires Inv(c, s) && c.policy.RoundRobin? && c.queueSize == 1 && RingInv(c, s, r, p) && Enabled(c, s, l)
    requires Enters(s, l) ==> r == p == 0
    ensures RingInv(c, Apply(c, s, l), r', p')
    ensures !(l.Worker? && s.worker[l.w].Requeuing?) ==> r' == r && p' == p
  {
    r', p' := r, p;
    match l
    case Worker(w) =>
      if s.worker[w].Entering? {
        RingEnter(c, s, w);
      } else if s.worker[w].Posting? {
        RingPost(c, s, r, p, w);
      } else if s.worker[w].Requeuing? {
        r', p' := RingAdvance(c, s, r, p, w);
      } else {
        RingTurn(c, s, r, p, w);
      }
    case _ => RingSchedStep(c, s, l, r, p);
  }

  // ---- where the ring starts ----------------------------------------------------------------------

  /** The worker has been back to the end of the queue at least once. */
  predicate HasRequeued(c: Config, pc: WorkerPc) {
    match pc
    case Entering => false
    case Waiting(i) => i > 0
    case Working(i) => i > 0
    case Releasing(i) => i > 0
    case Dequeuing(i) => i > 0
    case Requeuing(i) => i > 0
    case Posting(_) => true
    case Finished => true
    case _ => c.iterations > 0
  }

  ghost predicate NoneRequeued(c: Config, s: State) {
    forall w :: 0 <= w < |s.worker| ==> !HasRequeued(c, s.worker[w])
  }

  /** Whoever has requeued keeps that behind them. */
  lemma RequeuedStays(c: Config, s: State, l: Label)
    requires Inv(c, s) && Enabled(c, s, l) && NoneRequeued(c, Apply(c, s, l))
    ensures NoneRequeued(c, s)
    ensures !(l.Worker? && s.worker[l.w].Requeuing?)
  {
    match l
    case Worker(w) =>
      var t := WorkerStep(c, s, w);
      assert !HasRequeued(c, t.worker[w]);
      assert InRange(c, s.worker[w]);
      forall x | 0 <= x < |s.worker| ensures !HasRequeued(c, s.worker[x]) {
        assert x != w ==> t.worker[x] == s.worker[x];
      }
    case _ =>
  }

  /** As long as nobody has been back to the end of the queue, newcomers can still join the ring. */
  lemma {:induction false} RingForms(c: Config, s: State, ls: seq<Label>, t: State)
    requires TurnInv(c, s) && c.policy.RoundRobin? && c.queueSize == 1 && Reaches(c, s, ls, t)
    requires NoneRequeued(c, s) ==> RingInv(c, s, 0, 0)
    requires NoneRequeued(c, t)
    ensures TurnInv(c, t) && RingInv(c, t, 0, 0)
    decreases |ls|
  {
    if ls != [] {
      var u := Apply(c, s, ls[0]);
      TurnStep(c, s, ls[0]);
      if NoneRequeued(c, u) {
        RequeuedStays(c, s, ls[0]);
        var r, p := RingStep(c, s, ls[0], 0, 0);
      }
      RingForms(c, u, ls[1..], t);
    }
  }

  lemma RingReady(c: Config, ls: seq<Label>, s: State)
    requires c.policy.RoundRobin? && c.queueSize == 1 && Reaches(c, Init(c), ls, s) && NoneRequeued(c, s)
    ensures TurnInv(c, s) && RingInv(c, s, 0, 0)
  {
    TurnStart(c);
    RingForms(c, Init(c), ls, s);
  }

  // ---- exactness ----------------------------------------------------------------------------------

  /** Wakes and reports go round all the workers in the order of entry: report `a` of every worker
      comes before report `a + 1` of any. */
  ghost predicate Exact(c: Config, s: State) {
    && (forall a: nat, x: nat :: x < c.workers && Cell(c.workers, a, x) < |s.wakes| ==>
          x < |s.entered| && s.wakes[Cell(c.workers, a, x)] == s.entered[x])
    && (forall a: nat, x: nat :: x < c.workers && Cell(c.workers, a, x) < |s.log| ==>
          x < |s.entered| && s.log[Cell(c.workers, a, x)] == Event(s.entered[x], a))
  }

  lemma {:induction false} RoundsAt(ring: seq<nat>, r: nat, a: nat, x: nat)
    requires a < r && x < |ring|
    ensures Cell(|ring|, a, x) < |Rounds(ring, r)| && Rounds(ring, r)[Cell(|ring|, a, x)] == Event(ring[x], a)
  {
    RoundsLength(ring, r);
    RoundsLength(ring, r - 1);
    if a < r - 1 {
      RoundsAt(ring, r - 1, a, x);
    } else {
      CellOrder(|ring|, a, a, x);
    }
  }

  lemma {:induction false} RoundsLength(ring: seq<nat>, r: nat)
    ensures |Rounds(ring, r)| == Cell(|ring|, r, 0)
  {
    if r > 0 { RoundsLength(ring, r - 1); }
  }

  /** The reports, and the wakes, run along the rounds of the ring. */
  lemma RingPrefix(c: Config, s: State, r: nat, p: nat)
    requires TurnInv(c, s) && c.queueSize == 1 && RingInv(c, s, r, p)
    ensures s.log <= Rounds(s.entered, r + 1) && s.wakes <= Workers(Rounds(s.entered, r + 1))
  {
    hide Distinct, Rounds, Round, Rotation, Inv, PlacesOk, CounterExact, PollInv;
    if s.entered != [] {
      NextTurn(s.entered, r, p);
      if x :| 0 <= x < c.workers && Dispatched(s, x) {
        DispatchedCurrent(c, s, r, p, x);
        assert s.wakes == Workers(s.log) + [s.entered[p]] == Workers(s.log + [Event(s.entered[p], r)]);
      } else {
        assert s.wakes == Workers(s.log);
      }
    } else {
      forall x | 0 <= x < c.workers ensures !Dispatched(s, x) {
        assert x !in s.entered;
      }
    }
  }

  lemma NextTurn(ring: seq<nat>, r: nat, p: nat)
    requires p < |ring|
    ensures Rounds(ring, r) + Round(ring[..p], r) + [Event(ring[p], r)] <= Rounds(ring, r + 1)
  {
    assert Round(ring[..p], r) + [Event(ring[p], r)] <= Round(ring, r);
    assert Rounds(ring, r) + Round(ring[..p], r) + [Event(ring[p], r)]
        == Rounds(ring, r) + (Round(ring[..p], r) + [Event(ring[p], r)]);
  }

  /** Only the worker whose turn it is can have been woken, and it has not reported yet. */
  lemma DispatchedCurrent(c: Config, s: State, r: nat, p: nat, x: nat)
    requires Inv(c, s) && c.queueSize == 1 && RingInv(c, s, r, p) && s.entered != []
    requires x < c.workers && Dispatched(s, x)
    ensures x == s.entered[p] && (s.worker[x] == Working(r) || Completed(c, r, s.worker[x]))
    ensures s.log == Rounds(s.entered, r) + Round(s.entered[..p], r)
  {
    hide Distinct;
    HolderPlace(c, s, x);
    assert PermitOf(s, x);
    var k := RingAt(c, s, r, p, if s.sched == Waking(x) then s.entered[p] else x);
  }

  lemma PrefixExact(c: Config, s: State, r: nat)
    requires |s.entered| == c.workers
    requires s.log <= Rounds(s.entered, r) && s.wakes <= Workers(Rounds(s.entered, r))
    ensures Exact(c, s)
  {
    var n := c.workers;
    RoundsLength(s.entered, r);
    forall a: nat, x: nat | x < n && Cell(n, a, x) < |s.wakes|
      ensures s.wakes[Cell(n, a, x)] == s.entered[x]
    {
      CellBound(n, a, x, r);
      RoundsAt(s.entered, r, a, x);
    }
    forall a: nat, x: nat | x < n && Cell(n, a, x) < |s.log|
      ensures s.log[Cell(n, a, x)] == Event(s.entered[x], a)
    {
      CellBound(n, a, x, r);
      RoundsAt(s.entered, r, a, x);
    }
  }

  /** Once all workers are in the ring, no step can break it. */
  lemma {:induction false} RingReaches(c: Config, s: State, ls: seq<Label>, t: State, r: nat, p: nat)
    returns (r': nat, p': nat)
    requires TurnInv(c, s) && c.policy.RoundRobin? && c.queueSize == 1
    requires RingInv(c, s, r, p) && |s.entered| == c.workers && Reaches(c, s, ls, t)
    ensures TurnInv(c, t) && RingInv(c, t, r', p') && t.entered == s.entered
    decreases |ls|
  {
    r', p' := r, p;
    if ls != [] {
      NobodyLeft(c, s);
      var u := Apply(c, s, ls[0]);
      r', p' := RingStep(c, s, ls[0], r, p);
      TurnStep(c, s, ls[0]);
      EnteredFrame(c, s, ls[0]);
      r', p' := RingReaches(c, u, ls[1..], t, r', p');
    }
  }

  lemma EnteredFrame(c: Config, s: State, l: Label)
    requires |s.worker| == |s.permits| == c.workers && Enabled(c, s, l) && !Enters(s, l)
    requires s.sched.Waking? ==> s.sched.w < c.workers
    ensures Apply(c, s, l).entered == s.entered
  {
  }

  lemma NobodyLeft(c: Config, s: State)
    requires Typed(c, s) && EnteredOk(c, s.entered, s.worker, s.permits) && |s.entered| == c.workers
    ensures forall w :: 0 <= w < c.workers ==> w in s.entered && !s.worker[w].Entering?
  {
    forall w | 0 <= w < c.workers ensures w in s.entered {
      if w !in s.entered { MissingOne(s.entered, c.workers, w); }
    }
  }

  lemma MissingOne(s: seq<nat>, n: nat, w: nat)
    requires Distinct(s) && AllBelow(s, n) && w < n && w !in s
    ensures |s| < n
  {
    var t := s + [w];
    Pigeonhole(t, n);
  }

  /** Round robin with a queue of size one, from any reachable state in which every worker is in
      the queue and none has yet gone back to its end: in every continuation, loop `r` of every
      worker comes, in the order of entry, before any loop `r + 1`, the exits come last in the same
      order, and the scheduler stops after exactly one wake for each report. */
  lemma RoundRobinExact(c: Config, ls: seq<Label>, s: State, ms: seq<Label>, t: State)
    requires c.policy.RoundRobin? && c.queueSize == 1 && Reaches(c, Init(c), ls, s)
    requires NoneRequeued(c, s) && |s.entered| == c.workers && Reaches(c, s, ms, t)
    ensures Exact(c, t)
    ensures t.sched.Stopped? ==> |t.log| == |t.wakes| == c.workers * (c.iterations + 1)
  {
    RingReady(c, ls, s);
    var r, p := RingReaches(c, s, ms, t, 0, 0);
    RingExact(c, t, r, p);
    if t.sched.Stopped? { RingStopped(c, t, r, p); }
  }

  lemma RingExact(c: Config, s: State, r: nat, p: nat)
    requires TurnInv(c, s) && c.queueSize == 1 && RingInv(c, s, r, p) && |s.entered| == c.workers
    ensures Exact(c, s)
  {
    hide RingInv, TurnInv, Exact;
    RingPrefix(c, s, r, p);
    PrefixExact(c, s, r + 1);
  }

  lemma RingStopped(c: Config, s: State, r: nat, p: nat)
    requires TurnInv(c, s) && c.queueSize == 1 && RingInv(c, s, r, p)
    requires |s.entered| == c.workers && s.sched.Stopped?
    ensures |s.log| == |s.wakes| == c.workers * (c.iterations + 1)
  {
    hide Distinct;
    CountWitness(c, s.worker);
    forall w | 0 <= w < c.workers ensures s.worker[w].Finished? && !Dispatched(s, w) && !s.worker[w].Entering? {
      Quiet(c, s, w);
      NobodyLeft(c, s);
    }
    if s.entered != [] {
      assert PlaceOk(c, r, p, p, s.worker[s.entered[p]], s.permits[s.entered[p]]);
      assert s.entered[..p] == [];
      RoundsLength(s.entered, r);
    }
    CellValue(c.workers, c.iterations + 1, 0);
  }

  // ---- progress, and how it ends ------------------------------------------------------------------

  /** The scheduler has woken a worker that has already exited, and waits for it. */
  ghost predicate Jammed(c: Config, s: State, w: nat)
    requires Typed(c, s) && w < c.workers
  {
    s.sched.Blocking? && s.slots == 0 && s.permits[w] > 0 && s.worker[w].Finished?
  }

  /** Unless the scheduler has stopped or is jammed, a step of the workers in the ring or of the
      scheduler makes progress. */
  lemma RingProgress(c: Config, s: State, r: nat, p: nat) returns (l: Label)
    requires TurnInv(c, s) && c.queueSize == 1 && RingInv(c, s, r, p)
    requires s.entered != [] && !s.sched.Stopped? && !Jammed(c, s, s.entered[p])
    ensures Productive(c, s, l) && !Enters(s, l)
  {
    if s.sched.Blocking? && s.slots == 0 {
      var w := HolderExists(c, s);
      l := Worker(w);
      RingHolderMoves(c, s, r, p, w);
    } else {
      l := Sched;
      assert s.sched.Checking? ==> |s.running| == 0;
      if s.sched.AwaitingQueue? || s.sched.Peeking? { Quiet(c, s, s.entered[p]); }
    }
  }

  lemma RingHolderMoves(c: Config, s: State, r: nat, p: nat, w: nat)
    requires TurnInv(c, s) && RingInv(c, s, r, p) && s.entered != [] && w < c.workers && Holds(s, w)
    requires s.sched.Blocking? && s.slots == 0 && !Jammed(c, s, s.entered[p])
    ensures WorkerEnabled(s, w) && !s.worker[w].Entering?
  {
    hide Distinct, Rounds, Round, Rotation, Conserved, CounterInv, CounterExact, WakesInv, PollInv;
    if !Busy(s.worker[w]) {
      assert s.permits[w] > 0;
      var x := RingAt(c, s, r, p, w);
    }
  }

  /** Running the ring alone, without newcomers, ends with the scheduler stopped or jammed. */
  lemma {:induction false} RingDrive(c: Config, s: State, r: nat, p: nat)
    returns (ls: seq<Label>, t: State, r': nat, p': nat)
    requires TurnInv(c, s) && c.policy.RoundRobin? && c.queueSize == 1
    requires RingInv(c, s, r, p) && s.entered != []
    ensures Reaches(c, s, ls, t) && TurnInv(c, t) && RingInv(c, t, r', p') && t.entered == s.entered
    ensures t.sched.Stopped? || Jammed(c, t, t.entered[p'])
    decreases Measure(c, s)
  {
    ls, t, r', p' := [], s, r, p;
    if !s.sched.Stopped? && !Jammed(c, s, s.entered[p]) {
      var l := RingProgress(c, s, r, p);
      r', p' := RingStep(c, s, l, r, p);
      TurnStep(c, s, l);
      EnteredFrame(c, s, l);
      MeasureDrops(c, s, l);
      ls, t, r', p' := RingDrive(c, Apply(c, s, l), r', p');
      ls := [l] + ls;
      assert ls[1..] == ls[1..];
    }
  }

  lemma JamPlace(c: Config, s: State, r: nat, p: nat)
    requires RingInv(c, s, r, p) && s.entered != [] && s.worker[s.entered[p]].Finished?
    ensures p == 0 && r == c.iterations + 1
    ensures forall x :: 0 <= x < |s.entered| ==> !Unfinished(c, s.worker[s.entered[x]])
  {
    assert PlaceOk(c, r, p, p, s.worker[s.entered[p]], s.permits[s.entered[p]]);
    forall x | 0 <= x < |s.entered| ensures !Unfinished(c, s.worker[s.entered[x]]) {
      assert PlaceOk(c, r, p, x, s.worker[s.entered[x]], s.permits[s.entered[x]]);
    }
  }

  lemma NoJam(c: Config, s: State, r: nat, p: nat)
    requires TurnInv(c, s) && RingInv(c, s, r, p) && |s.entered| == c.workers >= 1
    ensures !Jammed(c, s, s.entered[p])
  {
    if s.worker[s.entered[p]].Finished? {
      JamPlace(c, s, r, p);
      CountWitness(c, s.worker);
      NobodyLeft(c, s);
      forall w | 0 <= w < c.workers ensures !Unfinished(c, s.worker[w]) {
        assert s.entered[IndexOf(s.entered, w)] == w;
      }
      assert s.started && s.remaining == 0;
    }
  }

  /** With all workers in the ring the scheduler never jams, so it can always be brought to stop. */
  lemma RoundRobinFinishes(c: Config, ls: seq<Label>, s: State, ms: seq<Label>, t: State)
    returns (ns: seq<Label>, u: State)
    requires c.policy.RoundRobin? && c.queueSize == 1 && Reaches(c, Init(c), ls, s)
    requires NoneRequeued(c, s) && |s.entered| == c.workers >= 1 && Reaches(c, s, ms, t)
    ensures Reaches(c, t, ns, u) && u.sched.Stopped?
  {
    RingReady(c, ls, s);
    var r, p := RingReaches(c, s, ms, t, 0, 0);
    ns, u, r, p := RingDrive(c, t, r, p);
    if !u.sched.Stopped? {
      NoJam(c, u, r, p);
    }
  }

  /** Nothing can move, though the scheduler is not done. */
  ghost predicate Stuck(c: Config, s: State) {
    && Typed(c, s)
    && s.remaining > 0 && !s.sched.Stopped?
    && (forall l :: !Enabled(c, s, l))
  }

  /** The workers that have not entered yet can still do so, and then nothing moves any more. */
  lemma {:induction false} JamFills(c: Config, s: State, w: nat) returns (ls: seq<Label>, t: State)
    requires TurnInv(c, s) && c.queueSize == 1 && s.started && w < c.workers && Jammed(c, s, w)
    requires EnteredOk(c, s.entered, s.worker, s.permits)
    ensures Reaches(c, s, ls, t) && TurnInv(c, t) && Jammed(c, t, w)
    ensures s.entered <= t.entered && t.wakes == s.wakes && Distinct(t.entered)
    ensures Stuck(c, t)
    decreases Measure(c, s)
  {
    hide Distinct;
    if x :| 0 <= x < c.workers && s.worker[x].Entering? {
      var l := Worker(x);
      MeasureDrops(c, s, l);
      TurnStep(c, s, l);
      EnteredMore(c, s.entered, s.worker, s.permits, x);
      var rest;
      rest, t := JamFills(c, Apply(c, s, l), w);
      ls := [l] + rest;
      assert ls[1..] == rest;
    } else {
      ls, t := [], s;
      forall l ensures !Enabled(c, s, l) {
        if l.Worker? && l.w < c.workers && WorkerEnabled(s, l.w) { Exclusive(c, s, w, l.w); }
      }
    }
  }

  lemma JamReached(c: Config, s: State) returns (ls: seq<Label>, t: State)
    requires TurnInv(c, s) && c.policy.RoundRobin? && c.queueSize == 1 && RingInv(c, s, 0, 0)
    requires 0 < |s.entered| < c.workers
    ensures Reaches(c, s, ls, t) && TurnInv(c, t) && t.entered == s.entered
    ensures Jammed(c, t, t.entered[0]) && EnteredOk(c, t.entered, t.worker, t.permits)
    ensures |t.wakes| > |t.entered| && t.wakes[|t.entered|] == t.entered[0]
  {
    hide Distinct, Rounds, Round, Rotation, Cell;
    var r, p;
    ls, t, r, p := RingDrive(c, s, 0, 0);
    var w := SomeoneOut(c, t);
    assert !t.sched.Stopped? by { CountWitness(c, t.worker); }
    JamPlace(c, t, r, p);
    JamWakes(c, t, r);
  }

  /** When a worker is still missing, the scheduler can go round without it, wake the first worker
      out of order, and end up waiting for ever for one that has exited. */
  lemma LateDeadlock(c: Config, s: State) returns (ls: seq<Label>, t: State)
    requires TurnInv(c, s) && c.policy.RoundRobin? && c.queueSize == 1 && RingInv(c, s, 0, 0)
    requires 0 < |s.entered| < c.workers
    ensures Reaches(c, s, ls, t) && !Exact(c, t)
    ensures Stuck(c, t)
  {
    var u, ms;
    ls, u := JamReached(c, s);
    assert u.started;
    ms, t := JamFills(c, u, u.entered[0]);
    Compose(c, s, ls, u, ms, t);
    ls := ls + ms;
    JamInexact(c, t, u.entered);
  }

  lemma JamInexact(c: Config, s: State, ring: seq<nat>)
    requires Distinct(s.entered) && ring <= s.entered && 0 < |ring| < c.workers
    requires |ring| < |s.wakes| && s.wakes[|ring|] == ring[0]
    ensures !Exact(c, s)
  {
    assert Cell(c.workers, 0, |ring|) == |ring|;
  }

  lemma SomeoneOut(c: Config, s: State) returns (w: nat)
    requires Typed(c, s) && EnteredOk(c, s.entered, s.worker, s.permits) && |s.entered| < c.workers
    ensures w < c.workers && s.worker[w].Entering?
  {
    if forall x :: 0 <= x < c.workers ==> x in s.entered { AllPresent(s.entered, c.workers); }
    w :| 0 <= w < c.workers && w !in s.entered;
  }

  lemma JamWakes(c: Config, s: State, r: nat)
    requires TurnInv(c, s) && c.queueSize == 1 && RingInv(c, s, r, 0) && s.entered != []
    requires r == c.iterations + 1 && Jammed(c, s, s.entered[0])
    ensures |s.wakes| > |s.entered| && s.wakes[|s.entered|] == s.entered[0]
  {
    JamWakesLength(c, s, r);
    RingPrefix(c, s, r, 0);
    SecondRound(s.entered, r, s.wakes);
  }

  lemma JamWakesLength(c: Config, s: State, r: nat)
    requires TurnInv(c, s) && c.queueSize == 1 && RingInv(c, s, r, 0) && s.entered != []
    requires r == c.iterations + 1 && Jammed(c, s, s.entered[0])
    ensures |s.wakes| == Cell(|s.entered|, r, 0) + 1
  {
    DispatchedCurrent(c, s, r, 0, s.entered[0]);
    WakesLength(c, s, s.entered[0]);
    WholeRounds(s.entered, r, s.log);
  }

  lemma WakesLength(c: Config, s: State, w: nat)
    requires Typed(c, s) && WakesInv(c, s) && w < c.workers && Dispatched(s, w)
    ensures |s.wakes| == |s.log| + 1
  {
  }

  lemma WholeRounds(ring: seq<nat>, r: nat, log: seq<Event>)
    requires log == Rounds(ring, r) + Round(ring[..0], r)
    ensures |log| == Cell(|ring|, r, 0)
  {
    RoundsLength(ring, r);
  }

  lemma SecondRound(ring: seq<nat>, r: nat, wakes: seq<nat>)
    requires ring != [] && r > 0 && |wakes| == Cell(|ring|, r, 0) + 1 && wakes <= Workers(Rounds(ring, r + 1))
    ensures |wakes| > |ring| && wakes[|ring|] == ring[0]
  {
    var k := |ring|;
    assert Cell(k, 1, 0) == k by { CellValue(k, 1, 0); }
    CellOrder(k, 1, r, 0);
    var all := Rounds(ring, r + 1);
    assert k < |all| && all[k] == Event(ring[0], 1) by { RoundsAt(ring, r + 1, 1, 0); }
    assert Workers(all)[k] == ring[0];
  }

  ghost predicate AlwaysExact(c: Config, s: State) {
    forall ms, t :: Reaches(c, s, ms, t) ==> Exact(c, t)
  }

  ghost predicate NeverStuck(c: Config, s: State) {
    forall ms, t :: Reaches(c, s, ms, t) ==> !Stuck(c, t)
  }

  /** The exact condition. Take any reachable state in which somebody has entered and nobody has
      been back to the end of the queue: round robin is exact in every continuation if and only if
      all the workers have entered, and just then no continuation gets stuck. */
  lemma RoundRobinExactIff(c: Config, ls: seq<Label>, s: State)
    requires c.policy.RoundRobin? && c.queueSize == 1 && Reaches(c, Init(c), ls, s)
    requires NoneRequeued(c, s) && s.entered != []
    ensures AlwaysExact(c, s) <==> |s.entered| == c.workers
    ensures NeverStuck(c, s) <==> |s.entered| == c.workers
  {
    RingReady(c, ls, s);
    if |s.entered| == c.workers {
      forall ms, t | Reaches(c, s, ms, t) ensures Exact(c, t) && !Stuck(c, t) {
        RoundRobinExact(c, ls, s, ms, t);
        var ns, u := RoundRobinFinishes(c, ls, s, ms, t);
        assert ns != [] ==> Enabled(c, t, ns[0]);
      }
    } else {
      Pigeonhole(s.entered, c.workers);
      var ms, t := LateDeadlock(c, s);
    }
  }
}
