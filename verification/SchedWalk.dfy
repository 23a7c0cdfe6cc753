/**
 The walk along the queue in `next_worker`, step by step, under FIFO and for a queue of any size: in
 what order workers are woken for the first time.
 */
module SchedWalk {
  import opened Sequences
  import opened SchedProtocol
  import opened SchedSafety

  /** `v` has entered before `w`. */
  predicate Ahead(entered: seq<nat>, v: nat, w: nat) {
    IndexOf(entered, v) < IndexOf(entered, w)
  }

  ghost predicate InEntryOrder(queue: seq<nat>, entered: seq<nat>) {
    && (forall a :: 0 <= a < |queue| ==> queue[a] in entered)
    && (forall a, b :: 0 <= a < b < |queue| ==> Ahead(entered, queue[a], queue[b]))
  }

  /** Everybody who has entered before `w` has been woken. */
  ghost predicate WokenUpTo(entered: seq<nat>, wakes: seq<nat>, w: nat) {
    w in entered && forall v :: v in entered && Ahead(entered, v, w) ==> v in wakes
  }

  ghost predicate WalkInv(c: Config, s: State) {
    && |s.worker| == c.workers && Distinct(s.entered)
    && (forall w :: 0 <= w < c.workers ==> (w in s.entered <==> !s.worker[w].Entering?))
    && InEntryOrder(s.queue, s.entered)
    && (forall w :: w in s.entered && w !in s.queue ==> w in s.wakes)
    && (forall w :: w in s.running ==> w in s.wakes)
    && (forall w :: w in s.wakes ==> WokenUpTo(s.entered, s.wakes, w))
    && (s.sched.Checking? || s.sched.Inserting? ==> WokenUpTo(s.entered, s.wakes, s.sched.w))
  }

  // ---- one step of the walk -----------------------------------------------------------------------

  /** From a worker that is still queued the walk goes to the one right behind, and gives up exactly at
      the last. */
  lemma FifoWalk(c: Config, s: State, next: Option<nat>, k: nat)
    requires Typed(c, s) && c.policy.Fifo? && Enabled(c, s, Advance(next))
    requires k < |s.queue| && s.queue[k] == s.sched.w && s.sched.w !in s.queue[..k]
    ensures Apply(c, s, Advance(next)) == s.(sched := if k + 1 < |s.queue| then Checking(s.queue[k + 1]) else Testing)
  {
    IndexOfIs(s.queue, s.sched.w, k);
  }

  /** When nothing is left to be done while the scheduler looks for a worker in vain, it stops right after. */
  lemma LookStops(c: Config, s: State, l: Label)
    requires Typed(c, s) && Enabled(c, s, l) && s.remaining <= 0
    requires (l == Sched && s.sched.Peeking? && s.queue == []) || l == Advance(None)
    ensures Reaches(c, s, [l, Sched], s.(sched := Stopped))
  {
    TypedStep(c, s, l);
    assert [l, Sched][1..] == [Sched] && [Sched][1..] == [];
  }

  lemma AheadMore(entered: seq<nat>, w: nat, u: nat, v: nat)
    requires w !in entered && u in entered
    ensures IndexOf(entered + [w], w) == |entered|
    ensures Ahead(entered + [w], v, u) <==> Ahead(entered, v, u) && v in entered
    ensures Ahead(entered + [w], u, w)
  {
    var more := entered + [w];
    assert more[..|entered|] == entered;
    IndexOfIs(more, w, |entered|);
    IndexSame(entered, w, u);
    if v in entered { IndexSame(entered, w, v); }
  }

  lemma IndexSame(entered: seq<nat>, w: nat, v: nat)
    requires v in entered
    ensures IndexOf(entered + [w], v) == IndexOf(entered, v)
  {
    var i := IndexOf(entered, v);
    assert (entered + [w])[..i] == entered[..i];
    IndexOfIs(entered + [w], v, i);
  }

  lemma UpToMore(entered: seq<nat>, wakes: seq<nat>, w: nat, u: nat)
    requires w !in entered && WokenUpTo(entered, wakes, u)
    ensures WokenUpTo(entered + [w], wakes, u)
  {
    forall v | v in entered + [w] && Ahead(entered + [w], v, u) ensures v in wakes {
      AheadMore(entered, w, u, v);
    }
  }

  lemma OrderMore(queue: seq<nat>, entered: seq<nat>, w: nat)
    requires InEntryOrder(queue, entered) && w !in entered
    ensures InEntryOrder(queue + [w], entered + [w])
  {
    var q, e := queue + [w], entered + [w];
    forall a, b | 0 <= a < b < |q| ensures Ahead(e, q[a], q[b]) {
      AheadMore(entered, w, q[a], q[a]);
      if b < |queue| { AheadMore(entered, w, q[b], q[a]); }
    }
  }

  /** Leaving the queue keeps the order of the others. */
  lemma OrderLess(queue: seq<nat>, entered: seq<nat>, w: nat)
    requires InEntryOrder(queue, entered)
    ensures InEntryOrder(RemoveFirst(queue, w), entered)
    ensures forall v :: v in queue && v != w ==> v in RemoveFirst(queue, w)
  {
    RemoveFirstMembers(queue, w);
  }

  // ---- the invariant ------------------------------------------------------------------------------

  lemma WalkEnter(c: Config, s: State, w: nat)
    requires WalkInv(c, s) && |s.permits| == c.workers && w < c.workers && s.worker[w].Entering? && s.started
    ensures WalkInv(c, WorkerStep(c, s, w))
  {
    hide Distinct, Ahead, InEntryOrder, WokenUpTo;
    assert w !in s.entered;
    var t := WorkerStep(c, s, w);
    OrderMore(s.queue, s.entered, w);
    DistinctMore(s.entered, w);
    forall u | u in s.wakes ensures WokenUpTo(t.entered, t.wakes, u) { UpToMore(s.entered, s.wakes, w, u); }
    if s.sched.Checking? || s.sched.Inserting? { UpToMore(s.entered, s.wakes, w, s.sched.w); }
  }

  lemma DistinctMore(s: seq<nat>, w: nat)
    requires Distinct(s) && w !in s
    ensures Distinct(s + [w])
  {
  }

  lemma WalkWorker(c: Config, s: State, w: nat)
    requires Inv(c, s) && WalkInv(c, s) && c.policy.Fifo? && w < c.workers && WorkerEnabled(s, w) && !s.worker[w].Entering?
    ensures WalkInv(c, WorkerStep(c, s, w))
  {
    hide Distinct, Ahead, InEntryOrder, WokenUpTo, RemoveFirst;
    assert InRange(c, s.worker[w]);
    if s.worker[w].Leaving? {
      assert PermitOf(s, w);
      OrderLess(s.queue, s.entered, w);
    } else if s.worker[w].Releasing? {
      RemoveFirstMembers(s.running, w);
    }
  }

  /** The head of the queue, and whoever is behind a queued worker that is running, is next in the order
      of entry among those not woken. */
  lemma NextUp(s: State, k: nat)
    requires InEntryOrder(s.queue, s.entered) && k < |s.queue|
    requires forall w :: w in s.entered && w !in s.queue ==> w in s.wakes
    requires forall a :: 0 <= a < k ==> s.queue[a] in s.wakes
    ensures WokenUpTo(s.entered, s.wakes, s.queue[k])
  {
    forall v | v in s.entered && Ahead(s.entered, v, s.queue[k]) ensures v in s.wakes {
      if v in s.queue {
        var a :| 0 <= a < |s.queue| && s.queue[a] == v;
      }
    }
  }

  lemma WalkAdvance(c: Config, s: State, next: Option<nat>)
    requires Typed(c, s) && WalkInv(c, s) && c.policy.Fifo? && Enabled(c, s, Advance(next)) && s.sched.w in s.queue
    ensures WalkInv(c, Apply(c, s, Advance(next)))
  {
    hide Distinct, WokenUpTo, InEntryOrder, Ahead, Typed;
    var k := IndexOf(s.queue, s.sched.w);
    FifoWalk(c, s, next, k);
    if k + 1 < |s.queue| {
      WokenBehind(s, k);
      NextUp(s, k + 1);
    }
  }

  lemma WokenBehind(s: State, k: nat)
    requires InEntryOrder(s.queue, s.entered) && k < |s.queue|
    requires WokenUpTo(s.entered, s.wakes, s.queue[k]) && s.queue[k] in s.wakes
    ensures forall a :: 0 <= a <= k ==> s.queue[a] in s.wakes
  {
  }

  lemma WalkInsert(entered: seq<nat>, wakes: seq<nat>, w: nat, u: nat)
    requires WokenUpTo(entered, wakes, u)
    ensures WokenUpTo(entered, wakes + [w], u)
  {
  }

  lemma WalkSched(c: Config, s: State)
    requires Typed(c, s) && WalkInv(c, s) && SchedEnabled(s)
    ensures WalkInv(c, SchedStep(s))
  {
    hide Distinct, InEntryOrder, WokenUpTo;
    if s.sched.Peeking? && s.queue != [] {
      NextUp(s, 0);
    } else if s.sched.Inserting? {
      var w := s.sched.w;
      forall u | u in s.wakes + [w] ensures WokenUpTo(s.entered, s.wakes + [w], u) {
        WalkInsert(s.entered, s.wakes, w, u);
      }
    }
  }

  lemma WalkStep(c: Config, s: State, l: Label)
    requires Inv(c, s) && WalkInv(c, s) && c.policy.Fifo? && Enabled(c, s, l)
    requires l.Advance? ==> s.sched.w in s.queue
    ensures WalkInv(c, Apply(c, s, l))
  {
    hide WalkInv, WorkerStep, SchedStep;
    match l
    case Main => assert WalkInv(c, Apply(c, s, l)) by { MainWalks(c, s); }
    case Worker(w) => if s.worker[w].Entering? { WalkEnter(c, s, w); } else { WalkWorker(c, s, w); }
    case Sched => WalkSched(c, s);
    case Advance(next) => WalkAdvance(c, s, next);
  }

  lemma MainWalks(c: Config, s: State)
    requires WalkInv(c, s)
    ensures WalkInv(c, s.(started := true, remaining := c.workers))
  {
  }

  /** No step of the walk starts at a worker that is out of the queue. */
  ghost predicate WalksQueued(c: Config, s: State, ls: seq<Label>)
    decreases |ls|
  {
    ls != [] ==>
      && Typed(c, s) && Enabled(c, s, ls[0])
      && (ls[0].Advance? ==> s.sched.w in s.queue)
      && WalksQueued(c, Apply(c, s, ls[0]), ls[1..])
  }

  lemma {:induction false} WalkReaches(c: Config, s: State, ls: seq<Label>, t: State)
    requires Inv(c, s) && WalkInv(c, s) && c.policy.Fifo? && Reaches(c, s, ls, t) && WalksQueued(c, s, ls)
    ensures Inv(c, t) && WalkInv(c, t)
    decreases |ls|
  {
    hide Inv, WalkInv;
    if ls != [] {
      InvStep(c, s, ls[0]);
      WalkStep(c, s, ls[0]);
      WalkReaches(c, Apply(c, s, ls[0]), ls[1..], t);
    }
  }

  /** FIFO, a queue of any size, every schedule in which the walk does not start from a worker that has left
      the queue: only workers that have entered are woken, and nobody is woken for the first time before
      everybody who has entered earlier. */
  lemma FifoWakes(c: Config, ls: seq<Label>, s: State)
    requires c.policy.Fifo? && c.queueSize >= 1 && Reaches(c, Init(c), ls, s) && WalksQueued(c, Init(c), ls)
    ensures forall w :: w in s.wakes ==> w in s.entered
    ensures forall i, j :: 0 <= i < j < |s.entered| && s.entered[j] in s.wakes ==> s.entered[i] in s.wakes
  {
    InitInv(c);
    WalkReaches(c, Init(c), ls, s);
    forall i, j | 0 <= i < j < |s.entered| && s.entered[j] in s.wakes ensures s.entered[i] in s.wakes {
      IndexAt(s.entered, i);
      IndexAt(s.entered, j);
      assert WokenUpTo(s.entered, s.wakes, s.entered[j]);
    }
  }

  lemma IndexAt(e: seq<nat>, i: nat)
    requires Distinct(e) && i < |e|
    ensures IndexOf(e, e[i]) == i
  {
    IndexOfIs(e, e[i], i);
  }
}
