/**
 What a queue of size one makes of wakes and reports, under either policy.
 */
module SchedTurns {
  import opened Sequences
  import opened SchedProtocol
  import opened SchedSafety

  function Workers(log: seq<Event>): seq<nat> {
    seq(|log|, j requires 0 <= j < |log| => log[j].worker)
  }

  /** `w` has been woken and has not yet reported. */
  ghost predicate Dispatched(s: State, w: nat)
    requires w < |s.worker| == |s.permits|
  {
    s.sched == Waking(w) || s.permits[w] > 0 || s.worker[w].Working?
  }

  /** Every wake is answered by one report, in the same order. */
  ghost predicate WakesInv(c: Config, s: State)
    requires Typed(c, s)
  {
    && (forall w :: 0 <= w < c.workers && Dispatched(s, w) ==> s.wakes == Workers(s.log) + [w])
    && ((forall w :: 0 <= w < c.workers ==> !Dispatched(s, w)) ==> s.wakes == Workers(s.log))
  }

  lemma WakesWorkerStep(c: Config, s: State, w: nat)
    requires Inv(c, s) && c.queueSize == 1 && WakesInv(c, s) && w < c.workers && WorkerEnabled(s, w)
    ensures Typed(c, WorkerStep(c, s, w)) && WakesInv(c, WorkerStep(c, s, w))
  {
    var t := WorkerStep(c, s, w);
    TypedStep(c, s, Worker(w));
    assert forall x :: 0 <= x < c.workers && x != w ==> (Dispatched(t, x) <==> Dispatched(s, x));
    if Dispatched(s, w) && s.worker[w].Working? {
      assert Workers(t.log) == Workers(s.log) + [w];
      forall x | 0 <= x < c.workers ensures !Dispatched(t, x) {
        assert PermitOf(s, w);
        if Dispatched(s, x) { Exclusive(c, s, x, w); }
      }
    } else {
      assert PermitOf(s, w);
      assert Dispatched(t, w) <==> Dispatched(s, w);
    }
  }

  lemma WakesSchedStep(c: Config, s: State, l: Label)
    requires Inv(c, s) && c.queueSize == 1 && WakesInv(c, s) && Enabled(c, s, l) && !l.Worker?
    ensures Typed(c, Apply(c, s, l)) && WakesInv(c, Apply(c, s, l))
  {
    var t := Apply(c, s, l);
    TypedStep(c, s, l);
    if s.sched.Inserting? && l.Sched? {
      forall x | 0 <= x < c.workers ensures !Dispatched(s, x) {
        if Dispatched(s, x) { HolderPlace(c, s, x); }
      }
      forall x | 0 <= x < c.workers ensures Dispatched(t, x) <==> x == s.sched.w {
        assert !Dispatched(s, x);
      }
      assert Dispatched(t, s.sched.w);
    } else {
      assert forall x :: 0 <= x < c.workers ==> (Dispatched(t, x) <==> Dispatched(s, x));
    }
  }

  lemma WakesStep(c: Config, s: State, l: Label)
    requires Inv(c, s) && c.queueSize == 1 && WakesInv(c, s) && Enabled(c, s, l)
    ensures Typed(c, Apply(c, s, l)) && WakesInv(c, Apply(c, s, l))
  {
    match l
    case Worker(w) => WakesWorkerStep(c, s, w);
    case _ => WakesSchedStep(c, s, l);
  }

  /** The scheduler looks for a worker only while some remain, and has woken nobody before its
      first look. */
  ghost predicate PollInv(s: State) {
    && (s.sched.Peeking? || s.sched.Checking? || s.sched.Inserting? || s.sched.Waking? ==> s.remaining > 0)
    && (forall w :: 0 <= w < |s.permits| && s.permits[w] > 0 ==> s.remaining > 0)
    && (s.sched.AwaitingQueue? ==> s.wakes == [])
  }

  lemma PollStep(c: Config, s: State, l: Label)
    requires Inv(c, s) && c.queueSize == 1 && PollInv(s) && Enabled(c, s, l)
    ensures PollInv(Apply(c, s, l))
  {
    match l
    case Worker(w) =>
      if s.worker[w].Storing? {
        HolderPlace(c, s, w);
        assert PermitOf(s, w);
        forall x | 0 <= x < c.workers ensures s.permits[x] == 0 {
          if s.permits[x] > 0 { Exclusive(c, s, x, w); }
        }
      }
    case _ =>
  }

  /** Exactly the workers past their first step have entered, each once. */
  ghost predicate EnteredOk(c: Config, entered: seq<nat>, worker: seq<WorkerPc>, permits: seq<nat>)
    requires |worker| == |permits| == c.workers
  {
    && Distinct(entered)
    && (forall w :: 0 <= w < c.workers ==>
          (w in entered <==> !worker[w].Entering?) && (w !in entered ==> permits[w] == 0))
  }

  lemma EnteredMore(c: Config, entered: seq<nat>, worker: seq<WorkerPc>, permits: seq<nat>, w: nat)
    requires |worker| == |permits| == c.workers && w < c.workers
    requires EnteredOk(c, entered, worker, permits) && worker[w].Entering?
    ensures w !in entered
    ensures EnteredOk(c, entered + [w], worker[w := Waiting(0)], permits)
  {
    var more := entered + [w];
    forall i, j | 0 <= i < j < |more| ensures more[i] != more[j] {
      if j == |entered| { assert more[i] in entered; }
    }
  }

  lemma EnteredSame(c: Config, entered: seq<nat>, worker: seq<WorkerPc>, permits: seq<nat>, w: nat, pc: WorkerPc)
    requires |worker| == |permits| == c.workers && w < c.workers
    requires EnteredOk(c, entered, worker, permits) && !worker[w].Entering? && !pc.Entering?
    ensures w in entered && EnteredOk(c, entered, worker[w := pc], permits)
  {
  }

  lemma EnterShape(c: Config, s: State, w: nat)
    requires w < |s.worker| == |s.permits| && s.worker[w].Entering? && s.started
    ensures WorkerStep(c, s, w)
         == s.(queue := s.queue + [w], entered := s.entered + [w], worker := s.worker[w := Waiting(0)])
  {
  }

  lemma LeaveShape(c: Config, s: State, w: nat)
    requires w < |s.worker| == |s.permits| && s.worker[w].Leaving?
    ensures WorkerStep(c, s, w) == s.(queue := RemoveFirst(s.queue, w), worker := s.worker[w := Loading])
  {
  }

  lemma RequeueShape(c: Config, s: State, w: nat)
    requires w < |s.worker| == |s.permits| && s.worker[w].Requeuing?
    ensures WorkerStep(c, s, w) == s.(queue := s.queue + [w], worker := s.worker[w := Posting(s.worker[w].i)])
  {
  }

  lemma PostShape(c: Config, s: State, w: nat)
    requires w < |s.worker| == |s.permits| && s.worker[w].Posting?
    ensures var i := s.worker[w].i;
      WorkerStep(c, s, w)
        == s.(slots := s.slots + 1, worker := s.worker[w := if i < c.iterations then Waiting(i + 1) else Finished])
  {
  }

  /** Distinct numbers below `n` that leave none out are `n` in number. */
  lemma {:induction false} AllPresent(s: seq<nat>, n: nat)
    requires Distinct(s) && AllBelow(s, n) && forall w :: 0 <= w < n ==> w in s
    ensures |s| == n
  {
    if n == 0 {
      Pigeonhole(s, n);
    } else {
      var r := RemoveFirst(s, n - 1);
      RemoveFirstDistinct(s, n - 1);
      AllPresent(r, n - 1);
    }
  }

  /** Where item `x` of row `a` stands when rows have `n` items. */
  function Cell(n: nat, a: nat, x: nat): nat {
    if a == 0 then x else n + Cell(n, a - 1, x)
  }

  lemma {:induction false} CellValue(n: nat, a: nat, x: nat)
    ensures Cell(n, a, x) == a * n + x
  {
    if a > 0 { CellValue(n, a - 1, x); }
  }

  lemma {:induction false} CellOrder(n: nat, a: nat, b: nat, x: nat)
    requires a <= b
    ensures Cell(n, a, 0) <= Cell(n, b, x)
    ensures Cell(n, a, x) == Cell(n, a, 0) + x
  {
    if a > 0 { CellOrder(n, a - 1, b - 1, x); }
  }

  /** What lies inside the first `r` rows belongs to a row before `r`. */
  lemma CellBound(n: nat, a: nat, x: nat, r: nat)
    requires Cell(n, a, x) < Cell(n, r, 0)
    ensures a < r
  {
    if r <= a { CellOrder(n, r, a, x); }
  }

  /** Everything a queue of size one guarantees under both policies. */
  ghost predicate TurnInv(c: Config, s: State) {
    Inv(c, s) && WakesInv(c, s) && PollInv(s) && CounterExact(c, s)
  }

  lemma TurnStart(c: Config)
    requires c.queueSize >= 1
    ensures TurnInv(c, Init(c))
  {
    InitInv(c);
    assert forall w :: 0 <= w < c.workers ==> !Dispatched(Init(c), w);
  }

  lemma TurnStep(c: Config, s: State, l: Label)
    requires TurnInv(c, s) && c.queueSize == 1 && Enabled(c, s, l)
    ensures TurnInv(c, Apply(c, s, l))
  {
    InvStep(c, s, l);
    WakesStep(c, s, l);
    PollStep(c, s, l);
    CounterExactStep(c, s, l);
  }

  lemma {:induction false} TurnReaches(c: Config, s: State, ls: seq<Label>, t: State)
    requires TurnInv(c, s) && c.queueSize == 1 && Reaches(c, s, ls, t)
    ensures TurnInv(c, t)
    decreases |ls|
  {
    if ls != [] {
      TurnStep(c, s, ls[0]);
      TurnReaches(c, Apply(c, s, ls[0]), ls[1..], t);
    }
  }
}
