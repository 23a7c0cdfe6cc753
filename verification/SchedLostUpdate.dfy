/**
 The counter of remaining workers is not protected by a lock of its own. With a queue of size one
 the turn protects it; with a larger queue two workers can decrement it at the same time, an
 update is lost, and then the scheduler never stops.
 */
module SchedLostUpdate {
  import opened Sequences
  import opened SchedProtocol
  import opened SchedSafety
  import opened SchedProgress

  /** The counter says how many workers have not yet taken themselves off it. */
  ghost predicate Honest(c: Config, s: State) {
    s.started ==> s.remaining == CountUnfinished(c, s.worker)
  }

  /** The counter is too high, and every decrement under way will leave it too high. */
  ghost predicate Excess(c: Config, s: State) {
    && s.started && s.remaining > CountUnfinished(c, s.worker) && !s.sched.Stopped?
    && (forall w :: 0 <= w < |s.worker| && s.worker[w].Storing? ==> s.worker[w].v > CountUnfinished(c, s.worker))
  }

  lemma ExcessStep(c: Config, s: State, l: Label)
    requires Typed(c, s) && Excess(c, s) && Enabled(c, s, l) && AllInRange(c, s.worker)
    ensures Excess(c, Apply(c, s, l))
  {
    if l.Worker? {
      assert InRange(c, s.worker[l.w]);
      CountUpdate(c, s.worker, l.w, WorkerStep(c, s, l.w).worker[l.w]);
    }
  }

  /** A counter that is too high stays too high, so the scheduler never stops. */
  lemma {:induction false} ExcessForever(c: Config, s: State, ls: seq<Label>, t: State)
    requires Inv(c, s) && Excess(c, s) && Reaches(c, s, ls, t)
    ensures Excess(c, t)
    decreases |ls|
  {
    if ls != [] {
      ExcessStep(c, s, ls[0]);
      InvStep(c, s, ls[0]);
      ExcessForever(c, Apply(c, s, ls[0]), ls[1..], t);
    }
  }

  // ---- a schedule that brings workers 0 and 1 to decrement the counter together ----------------

  /** In the queue no longer, or, under round robin, not at the moment. */
  predicate Out(pc: WorkerPc) { pc.Loading? || pc.Storing? || pc.Requeuing? }

  predicate Idle(s: State, w: nat)
    requires w < |s.worker| == |s.permits|
  {
    s.permits[w] == 0 && (s.worker[w].Waiting? || s.worker[w].Storing?)
  }

  /** Workers 0 and 1 have entered, and nobody else has; neither has changed the counter yet. The
      scheduler moves only when both are idle. */
  ghost predicate PairInv(c: Config, s: State) {
    && Inv(c, s) && c.workers >= 2
    && s.started && s.remaining == c.workers && !s.sched.Stopped?
    && (forall w :: 2 <= w < c.workers ==> s.worker[w].Entering? && s.permits[w] == 0)
    && (forall w :: 0 <= w < 2 ==> PairWorker(c, s, w))
    && PairQueue(s.queue, Out(s.worker[0]), Out(s.worker[1]))
    && (!s.sched.Blocking? ==> Idle(s, 0) && Idle(s, 1))
    && (s.sched.Checking? || s.sched.Inserting? || s.sched.Waking? ==>
          s.sched.w < 2 && s.worker[s.sched.w].Waiting?)
  }

  ghost predicate PairWorker(c: Config, s: State, w: nat)
    requires w < |s.worker|
  {
    && Unfinished(c, s.worker[w]) && !s.worker[w].Entering?
    && (s.worker[w].Storing? ==> s.worker[w].v == c.workers)
  }

  predicate Together(s: State)
    requires |s.worker| >= 2
  {
    s.worker[0].Storing? && s.worker[1].Storing?
  }

  /** The next step of the schedule: a worker's, if one can move before its write, otherwise the
      scheduler's. */
  lemma PairProgress(c: Config, s: State) returns (l: Label)
    requires PairInv(c, s) && c.queueSize >= 2 && !Together(s)
    ensures Productive(c, s, l)
    ensures l == Sched || (l.Worker? && l.w < 2 && !s.worker[l.w].Storing?)
    ensures l == Sched ==> Idle(s, 0) && Idle(s, 1)
  {
    assert PairWorker(c, s, 0) && PairWorker(c, s, 1);
    assert PermitOf(s, 0) && PermitOf(s, 1);
    if !Idle(s, 0) {
      l := Worker(0);
    } else if !Idle(s, 1) {
      l := Worker(1);
    } else {
      l := Sched;
      if s.sched.Blocking? { PairSlots(c, s); }
    }
  }

  lemma PairSlots(c: Config, s: State)
    requires PairInv(c, s) && c.queueSize >= 2 && !Together(s) && s.sched.Blocking?
    requires Idle(s, 0) && Idle(s, 1)
    ensures s.slots > 0
  {
    CountWitness(c, s.worker);
    forall x | x in s.running ensures x < 2 && s.worker[x].Storing? {
      assert PermitOf(s, x);
    }
    AtMostOne(s.running, if s.worker[0].Storing? then 0 else 1);
  }

  lemma AtMostOne(s: seq<nat>, x: nat)
    requires Distinct(s) && forall y :: y in s ==> y == x
    ensures |s| <= 1
  {
    if |s| >= 2 {
      ElementIs(s, x, 0);
      ElementIs(s, x, 1);
    }
  }

  lemma ElementIs(s: seq<nat>, x: nat, i: nat)
    requires i < |s| && forall y :: y in s ==> y == x
    ensures s[i] == x
  {
    assert s[i] in s;
  }

  lemma PairSchedStep(c: Config, s: State)
    requires PairInv(c, s) && !Together(s) && Productive(c, s, Sched)
    requires Idle(s, 0) && Idle(s, 1)
    ensures PairInv(c, SchedStep(s))
  {
    InvStep(c, s, Sched);
    assert PairWorker(c, s, 0) && PairWorker(c, s, 1);
    var t := SchedStep(s);
    assert PairWorker(c, t, 0) && PairWorker(c, t, 1);
  }

  lemma PairWorkerStep(c: Config, s: State, w: nat)
    requires PairInv(c, s) && w < 2 && WorkerEnabled(s, w) && !s.worker[w].Storing?
    requires !Idle(s, w)
    ensures PairInv(c, WorkerStep(c, s, w))
  {
    InvStep(c, s, Worker(w));
    var t := WorkerStep(c, s, w);
    PairPc(c, s, w);
    forall x | 0 <= x < 2 ensures PairWorker(c, t, x) {
      assert PairWorker(c, s, x);
      assert x != w ==> t.worker[x] == s.worker[x];
    }
    PairRequeue(s.queue, Out(s.worker[0]), Out(s.worker[1]), w);
  }

  /** Workers 0 and 1 are queued once each, unless they are out. */
  ghost predicate PairQueue(queue: seq<nat>, out0: bool, out1: bool) {
    && Distinct(queue) && AllBelow(queue, 2)
    && (0 in queue <==> !out0) && (1 in queue <==> !out1)
  }

  lemma PairRequeue(queue: seq<nat>, out0: bool, out1: bool, w: nat)
    requires w < 2 && PairQueue(queue, out0, out1)
    ensures PairQueue(RemoveFirst(queue, w), out0 || w == 0, out1 || w == 1)
    ensures (if w == 0 then out0 else out1) ==> PairQueue(queue + [w], out0 && w != 0, out1 && w != 1)
  {
    RemoveFirstDistinct(queue, w);
    RemoveBelow(queue, w, 2);
  }

  lemma PairPc(c: Config, s: State, w: nat)
    requires PairInv(c, s) && w < 2 && WorkerEnabled(s, w) && !s.worker[w].Storing?
    ensures var t := WorkerStep(c, s, w);
      && PairWorker(c, t, w)
      && t.worker == s.worker[w := t.worker[w]]
      && (forall x :: 0 <= x < c.workers && x != w ==> t.permits[x] == s.permits[x])
      && (Out(t.worker[w]) <==>
            s.worker[w].Leaving? || s.worker[w].Dequeuing? || (Out(s.worker[w]) && !s.worker[w].Requeuing?))
      && t.queue == (if s.worker[w].Leaving? || s.worker[w].Dequeuing? then RemoveFirst(s.queue, w)
                     else if s.worker[w].Requeuing? then s.queue + [w] else s.queue)
      && t.remaining == s.remaining && t.started && t.sched == s.sched
  {
    assert PairWorker(c, s, w);
    assert InRange(c, s.worker[w]);
  }

  lemma {:induction false} PairDrive(c: Config, s: State) returns (ls: seq<Label>, t: State)
    requires PairInv(c, s) && c.queueSize >= 2
    ensures Reaches(c, s, ls, t) && PairInv(c, t) && Together(t)
    decreases Measure(c, s)
  {
    if Together(s) {
      ls, t := [], s;
    } else {
      var l := PairProgress(c, s);
      MeasureDrops(c, s, l);
      if l == Sched { PairSchedStep(c, s); } else { PairWorkerStep(c, s, l.w); }
      var rest;
      rest, t := PairDrive(c, Apply(c, s, l));
      ls := [l] + rest;
      assert ls[1..] == rest;
    }
  }

  lemma PairOpens(c: Config, t: State)
    requires Inv(c, t) && c.workers >= 2 && t.started && t.remaining == c.workers && t.sched.AwaitingQueue?
    requires t.queue == [0, 1] && t.permits == seq(c.workers, _ => 0)
    requires t.worker == seq(c.workers, _ => Entering)[0 := Waiting(0)][1 := Waiting(0)]
    ensures PairInv(c, t)
  {
    assert t.queue[0] == 0 && t.queue[1] == 1;
    assert PairWorker(c, t, 0) && PairWorker(c, t, 1);
  }

  /** The opening of the schedule: start, then workers 0 and 1 enter. */
  lemma PairStart(c: Config) returns (ls: seq<Label>, t: State)
    requires c.queueSize >= 2 && c.workers >= 2
    ensures Reaches(c, Init(c), ls, t) && PairInv(c, t)
  {
    hide PairInv;
    var s0 := Init(c);
    InitInv(c);
    var s1 := Apply(c, s0, Main);
    var s2 := Apply(c, s1, Worker(0));
    t := Apply(c, s2, Worker(1));
    assert t.queue == [0, 1];
    Then(c, s0, Main);
    Then(c, s1, Worker(0));
    Then(c, s2, Worker(1));
    Compose(c, s0, [Main], s1, [Worker(0)], s2);
    Compose(c, s0, [Main] + [Worker(0)], s2, [Worker(1)], t);
    ls := [Main] + [Worker(0)] + [Worker(1)];
    PairOpens(c, t);
  }

  /** A single step. */
  lemma Then(c: Config, s: State, l: Label)
    requires Inv(c, s) && Enabled(c, s, l)
    ensures Reaches(c, s, [l], Apply(c, s, l)) && Inv(c, Apply(c, s, l))
  {
    InvStep(c, s, l);
    assert [l][1..] == [];
  }

  lemma {:induction false} AllUnfinished(c: Config, ws: seq<WorkerPc>)
    requires forall w :: 0 <= w < |ws| ==> Unfinished(c, ws[w])
    ensures CountUnfinished(c, ws) == |ws|
  {
    if ws != [] { AllUnfinished(c, ws[..|ws| - 1]); }
  }

  lemma Write(c: Config, s: State, w: nat)
    requires Inv(c, s) && w < c.workers && s.worker[w].Storing?
    ensures var t := Apply(c, s, Worker(w));
      && Inv(c, t) && t.remaining == s.worker[w].v - 1 && t.started == s.started && t.sched == s.sched
      && t.worker == s.worker[w := Releasing(c.iterations)]
      && CountUnfinished(c, t.worker) + 1 == CountUnfinished(c, s.worker)
  {
    InvStep(c, s, Worker(w));
    CountUpdate(c, s.worker, w, Releasing(c.iterations));
  }

  /** Both writes put back the same number. */
  lemma WriteBoth(c: Config, s: State) returns (t: State)
    requires PairInv(c, s) && Together(s)
    ensures Reaches(c, s, [Worker(0), Worker(1)], t) && Inv(c, t) && Excess(c, t) && !Honest(c, t)
  {
    hide Distinct;
    forall w | 0 <= w < c.workers ensures Unfinished(c, s.worker[w]) {
      if w < 2 { assert PairWorker(c, s, w); }
    }
    assert PairWorker(c, s, 0) && PairWorker(c, s, 1);
    AllUnfinished(c, s.worker);
    Write(c, s, 0);
    var u := Apply(c, s, Worker(0));
    Write(c, u, 1);
    t := Apply(c, u, Worker(1));
    assert Reaches(c, t, [], t);
    assert Reaches(c, u, [Worker(1)], t) by { assert [Worker(1)][1..] == []; }
    assert [Worker(0), Worker(1)][1..] == [Worker(1)];
  }

  /** Under either policy, with a queue of two or more and at least two workers, an update of the
      counter can be lost; from then on it is too high. */
  lemma LostUpdate(c: Config) returns (ls: seq<Label>, t: State)
    requires c.queueSize >= 2 && c.workers >= 2
    ensures Reaches(c, Init(c), ls, t) && Inv(c, t) && Excess(c, t) && !Honest(c, t)
  {
    var s, u, ms;
    ls, s := PairStart(c);
    ms, u := PairDrive(c, s);
    t := WriteBoth(c, u);
    Compose(c, Init(c), ls, s, ms, u);
    Compose(c, Init(c), ls + ms, u, [Worker(0), Worker(1)], t);
    ls := ls + ms + [Worker(0), Worker(1)];
  }

  ghost predicate AlwaysHonest(c: Config) {
    forall ls, s :: Reaches(c, Init(c), ls, s) ==> Honest(c, s)
  }

  /** The exact condition, for both policies: the counter can be relied on in every reachable state if and
      only if the queue has size one or there is at most one worker. */
  lemma CounterIff(c: Config)
    requires c.queueSize >= 1
    ensures AlwaysHonest(c) <==> c.queueSize == 1 || c.workers <= 1
  {
    if c.queueSize == 1 || c.workers <= 1 {
      InitInv(c);
      forall ls, s | Reaches(c, Init(c), ls, s) ensures Honest(c, s) {
        CounterExactReaches(c, Init(c), ls, s);
      }
    } else {
      var ls, s := LostUpdate(c);
    }
  }

  /** And where it cannot, the program can hang: a state is reachable from which no schedule at all
      lets the scheduler stop. */
  lemma Hang(c: Config) returns (ls: seq<Label>, s: State)
    requires c.queueSize >= 2 && c.workers >= 2
    ensures Reaches(c, Init(c), ls, s)
    ensures forall ms, t :: Reaches(c, s, ms, t) ==> !t.sched.Stopped?
  {
    ls, s := LostUpdate(c);
    forall ms, t | Reaches(c, s, ms, t) ensures !t.sched.Stopped? {
      ExcessForever(c, s, ms, t);
    }
  }
}
