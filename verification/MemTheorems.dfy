/**
 What the allocator's operations mean: which block each strategy chooses, what every run keeps,
 why frees commute and undo allocations, and how the block list relates to the pool's bytes.
 */
module MemTheorems {
  import opened Sequences
  import opened MemBlocks

  // ---- the operations ---------------------------------------------------------------------

  /** Block `i` is the one the strategy takes for `r` bytes. Next fit looks no further than the
      first free block from the cursor on, whatever its size. */
  ghost predicate Chosen(st: Strategy, h: Heap, r: int, i: nat) {
    var bs := h.blocks;
    && i < |bs|
    && match st
       case First => Fits(bs[i], r) && forall j :: 0 <= j < i ==> !Fits(bs[j], r)
       case Best => Fits(bs[i], r) && forall j :: 0 <= j < |bs| && Fits(bs[j], r) ==>
                      bs[i].size < bs[j].size || (bs[i].size == bs[j].size && i <= j)
       case Worst => Fits(bs[i], r) && forall j :: 0 <= j < |bs| && Fits(bs[j], r) ==>
                      bs[i].size > bs[j].size || (bs[i].size == bs[j].size && i <= j)
       case Next => h.cursor <= i && !bs[i].alloc && forall j :: h.cursor <= j < i ==> bs[j].alloc
  }

  /** Where next fit leaves the cursor after allocating block `i`: at the next free block, going
      round, or at the head when there is none. */
  ghost predicate CursorAfter(bs: seq<Block>, i: nat, k: nat) {
    || (i < k < |bs| && !bs[k].alloc && forall j :: i < j < k ==> bs[j].alloc)
    || (k < i && k < |bs| && !bs[k].alloc && (forall j :: i < j < |bs| ==> bs[j].alloc) && forall j :: 0 <= j < k ==> bs[j].alloc)
    || (k == 0 && forall j :: 0 <= j < |bs| && j != i ==> bs[j].alloc)
  }

  /** Taking block `i` for `r` bytes. */
  ghost predicate Takes(st: Strategy, h: Heap, r: int, i: nat, h': Heap) {
    && Chosen(st, h, r, i)
    && h'.blocks == Place(h.blocks, i, r)
    && if st.Next? then CursorAfter(h'.blocks, i, h'.cursor) else h'.cursor == h.cursor
  }

  ghost predicate Mallocs(st: Strategy, h: Heap, r: int, h': Heap, res: Option<int>) {
    if res.Some? then exists i: nat :: Takes(st, h, r, i, h') && h.blocks[i].ptr == res.value
    else h' == h && forall i: nat :: !Chosen(st, h, r, i)
  }

  /** The first block that starts at `p`, or the length of the list when there is none. */
  function Find(bs: seq<Block>, p: int): (i: nat)
    ensures i <= |bs| && (i < |bs| ==> bs[i].ptr == p)
    ensures forall j :: 0 <= j < i ==> bs[j].ptr != p
  {
    if bs == [] || bs[0].ptr == p then 0 else
      var r := Find(bs[1..], p);
      assert forall j :: 1 <= j < r + 1 ==> bs[j] == bs[1..][j - 1];
      r + 1
  }

  lemma FindIs(bs: seq<Block>, p: int, k: nat)
    requires k <= |bs| && (forall j :: 0 <= j < k ==> bs[j].ptr != p) && (k < |bs| ==> bs[k].ptr == p)
    ensures Find(bs, p) == k
  {
  }

  /** Where the cursor is after the blocks from `lo` up to `hi` have become one. */
  function MovedCursor(cursor: nat, lo: nat, hi: nat): nat
    requires lo < hi
  {
    if cursor <= lo then cursor else if cursor < hi then lo else cursor - (hi - lo - 1)
  }

  lemma CursorOne(cursor: nat, lo: nat)
    ensures MovedCursor(cursor, lo, lo + 1) == cursor
  {
  }

  lemma CursorStep(cursor: nat, lo: nat, hi: nat)
    requires lo < hi
    ensures var c := MovedCursor(cursor, lo, hi);
      MovedCursor(cursor, lo, hi + 1) == if c <= lo then c else c - 1
  {
  }

  function Freed(h: Heap, p: int): Heap {
    var bs, i := h.blocks, Find(h.blocks, p);
    if i == |bs| then h
    else Heap(Release(bs, i), MovedCursor(h.cursor, RunStart(bs, i), RunEnd(bs, i)))
  }

  // ---- what every operation keeps -----------------------------------------------------------

  /** The shape, and the cursor: under next fit it points at a free block or at the head, under the
      other strategies it stays at the head. */
  ghost predicate Wf(st: Strategy, h: Heap, total: int) {
    && Shape(h.blocks, total)
    && h.cursor < |h.blocks|
    && (if st.Next? then h.blocks[h.cursor].alloc ==> h.cursor == 0 else h.cursor == 0)
  }

  lemma InitialWf(st: Strategy, total: int)
    requires total >= 1
    ensures Wf(st, Initial(total), total)
  {
    TilesOne(0, total);
  }

  lemma TilesOne(lo: int, hi: int)
    requires lo < hi
    ensures Tiles([Block(lo, hi - lo, false)], lo, hi)
  {
    assert Tiles([Block(lo, hi - lo, false)][1..], hi, hi);
  }

  /** Taking a block keeps everything exactly when the block is large enough. The first three
      strategies only choose such blocks; next fit does not look. */
  lemma TakeWf(st: Strategy, h: Heap, r: int, i: nat, h': Heap, total: int)
    requires Wf(st, h, total) && r >= 1 && Takes(st, h, r, i, h')
    ensures Wf(st, h', total) <==> r <= h.blocks[i].size
    ensures !st.Next? ==> r <= h.blocks[i].size
  {
    PlaceShape(h.blocks, total, i, r);
    assert |h'.blocks| > i;
  }

  /** Next fit on a pool of 100 bytes with none in use, asked for 200: it reports success and the
      list no longer tiles the pool. */
  lemma NextOverruns()
    ensures exists h' :: Takes(Next, Initial(100), 200, 0, h') && !Shape(h'.blocks, 100)
  {
    var h := Initial(100);
    var h' := Heap([Block(0, 200, true), Block(200, -100, false)], 1);
    assert Place(h.blocks, 0, 200) == h'.blocks;
    InitialWf(Next, 100);
    PlaceShape(h.blocks, 100, 0, 200);
    assert Takes(Next, h, 200, 0, h');
  }

  /** Next fit's search stays inside the list exactly when some block is free. */
  lemma NextFinds(h: Heap, r: int, total: int)
    requires Wf(Next, h, total)
    ensures (exists i: nat :: Chosen(Next, h, r, i)) <==> (exists j :: 0 <= j < |h.blocks| && !h.blocks[j].alloc)
  {
    if j :| 0 <= j < |h.blocks| && !h.blocks[j].alloc {
      var i := h.cursor;
      while i < |h.blocks| && h.blocks[i].alloc
        invariant h.cursor <= i <= |h.blocks|
        invariant forall k :: h.cursor <= k < i ==> h.blocks[k].alloc
      {
        i := i + 1;
      }
      assert Chosen(Next, h, r, i);
    } else {
      forall i: nat ensures !Chosen(Next, h, r, i) { }
    }
  }

  lemma FreeWf(st: Strategy, h: Heap, p: int, total: int)
    requires Wf(st, h, total)
    ensures Wf(st, Freed(h, p), total)
  {
    var bs, i := h.blocks, Find(h.blocks, p);
    if i < |bs| {
      ReleaseShape(bs, total, i);
      ReleaseCursor(bs, i, h.cursor);
    }
  }

  lemma ReleaseCursor(bs: seq<Block>, i: nat, cursor: nat)
    requires i < |bs| && cursor < |bs|
    ensures var k := MovedCursor(cursor, RunStart(bs, i), RunEnd(bs, i));
      && k < |Release(bs, i)|
      && (cursor == 0 ==> k == 0)
      && (Release(bs, i)[k].alloc ==> bs[cursor].alloc)
  {
    hide RunStart, RunEnd;
  }

  datatype Op = Malloc(r: int) | Free(p: int)

  /** One call. The caller asks for at least one byte; under next fit the first free block from the
      cursor on must exist and be large enough. */
  ghost predicate Step(st: Strategy, h: Heap, op: Op, h': Heap) {
    match op
    case Free(p) => h' == Freed(h, p)
    case Malloc(r) =>
      && r >= 1
      && (exists res :: Mallocs(st, h, r, h', res))
      && (st.Next? ==> exists i: nat :: Chosen(Next, h, r, i) && r <= h.blocks[i].size)
  }

  /** Every run of calls, from a new pool on, keeps the list a coalesced tiling of the pool. */
  lemma {:induction false} RunWf(st: Strategy, total: int, ops: seq<Op>, hs: seq<Heap>)
    requires total >= 1 && |hs| == |ops| + 1 && hs[0] == Initial(total)
    requires forall k :: 0 <= k < |ops| ==> Step(st, hs[k], ops[k], hs[k + 1])
    ensures Wf(st, hs[|ops|], total)
  {
    if ops == [] {
      InitialWf(st, total);
    } else {
      var n := |ops| - 1;
      RunWf(st, total, ops[..n], hs[..n + 1]);
      StepWf(st, hs[n], ops[n], hs[n + 1], total);
    }
  }

  /** A strategy never leaves a choice. */
  lemma ChosenUnique(st: Strategy, h: Heap, r: int, i: nat, j: nat)
    requires Chosen(st, h, r, i) && Chosen(st, h, r, j)
    ensures i == j
  {
  }

  lemma StepWf(st: Strategy, h: Heap, op: Op, h': Heap, total: int)
    requires Wf(st, h, total) && Step(st, h, op, h')
    ensures Wf(st, h', total)
  {
    match op
    case Free(p) => FreeWf(st, h, p, total);
    case Malloc(r) =>
      var res :| Mallocs(st, h, r, h', res);
      if res.Some? { MallocWf(st, h, r, h', res, total); }
  }

  lemma MallocWf(st: Strategy, h: Heap, r: int, h': Heap, res: Option<int>, total: int)
    requires Wf(st, h, total) && r >= 1 && res.Some? && Mallocs(st, h, r, h', res)
    requires st.Next? ==> exists i: nat :: Chosen(Next, h, r, i) && r <= h.blocks[i].size
    ensures Wf(st, h', total)
  {
    hide Wf;
    var i: nat :| Takes(st, h, r, i, h') && h.blocks[i].ptr == res.value;
    if st.Next? {
      var j: nat :| Chosen(Next, h, r, j) && r <= h.blocks[j].size;
      ChosenUnique(Next, h, r, i, j);
    }
    TakeWf(st, h, r, i, h', total);
  }

  // ---- frees and live allocations ----------------------------------------------------------------

  ghost function LiveExcept(bs: seq<Block>, p: int): set<Block> {
    set b | b in Live(bs) && b.ptr != p
  }

  lemma SamePtr(bs: seq<Block>, total: int, i: nat, b: Block)
    requires Tiles(bs, 0, total) && i < |bs| && b in bs && b.ptr == bs[i].ptr
    ensures b == bs[i]
  {
    var j :| 0 <= j < |bs| && bs[j] == b;
    if i < j { TilesDisjoint(bs, 0, total, i, j); } else if j < i { TilesDisjoint(bs, 0, total, j, i); }
  }

  /** Whatever address is freed, exactly the live allocation that starts there goes away. */
  lemma FreedLive(h: Heap, p: int, total: int)
    requires Tiles(h.blocks, 0, total)
    ensures Live(Freed(h, p).blocks) == LiveExcept(h.blocks, p)
  {
    var bs, i := h.blocks, Find(h.blocks, p);
    if i < |bs| {
      ReleaseLive(bs, total, i);
      forall b | b in Live(bs) && b.ptr == p ensures b == bs[i] { SamePtr(bs, total, i, b); }
    }
  }

  /** Frees commute, whatever the two addresses are: the block list is the same in either order. */
  lemma FreesCommute(h: Heap, p: int, q: int, total: int)
    requires Shape(h.blocks, total)
    ensures Freed(Freed(h, p), q).blocks == Freed(Freed(h, q), p).blocks
  {
    hide Freed;
    FreedShape(h, p, total);
    FreedShape(h, q, total);
    FreedShape(Freed(h, p), q, total);
    FreedShape(Freed(h, q), p, total);
    FreedLive(h, p, total);
    FreedLive(h, q, total);
    FreedLive(Freed(h, p), q, total);
    FreedLive(Freed(h, q), p, total);
    assert LiveExcept(Freed(h, p).blocks, q) == LiveExcept(Freed(h, q).blocks, p);
    Canonical(Freed(Freed(h, p), q).blocks, Freed(Freed(h, q), p).blocks, 0, total);
  }

  lemma FreedShape(h: Heap, p: int, total: int)
    requires Shape(h.blocks, total)
    ensures Shape(Freed(h, p).blocks, total)
  {
    if Find(h.blocks, p) < |h.blocks| { ReleaseShape(h.blocks, total, Find(h.blocks, p)); }
  }

  function FreedAll(h: Heap, ps: seq<int>): Heap
    decreases |ps|
  {
    if ps == [] then h else FreedAll(Freed(h, ps[0]), ps[1..])
  }

  /** Freeing every live allocation, in any order and among any other addresses, gives back the one
      free block the pool started with. */
  lemma {:induction false} FreeAll(h: Heap, ps: seq<int>, total: int)
    requires total >= 1 && Shape(h.blocks, total) && forall b :: b in Live(h.blocks) ==> b.ptr in ps
    ensures FreedAll(h, ps).blocks == Initial(total).blocks
    decreases |ps|
  {
    if ps == [] {
      InitialWf(First, total);
      assert Live(h.blocks) == {} == Live(Initial(total).blocks);
      Canonical(h.blocks, Initial(total).blocks, 0, total);
    } else {
      hide Freed;
      FreedShape(h, ps[0], total);
      FreedLive(h, ps[0], total);
      FreeAll(Freed(h, ps[0]), ps[1..], total);
    }
  }

  /** Freeing what was just allocated restores the exact list of blocks. */
  lemma RoundTrip(st: Strategy, h: Heap, r: int, i: nat, h': Heap, total: int)
    requires Wf(st, h, total) && r >= 1 && Takes(st, h, r, i, h') && r <= h.blocks[i].size
    ensures Freed(h', h.blocks[i].ptr).blocks == h.blocks
  {
    hide Freed;
    var p := h.blocks[i].ptr;
    TakeWf(st, h, r, i, h', total);
    PlaceLive(h.blocks, total, i, r);
    FreedShape(h', p, total);
    FreedLive(h', p, total);
    forall b | b in Live(h.blocks) ensures b.ptr != p {
      if b.ptr == p { SamePtr(h.blocks, total, i, b); }
    }
    assert LiveExcept(h'.blocks, p) == Live(h.blocks);
    Canonical(Freed(h', p).blocks, h.blocks, 0, total);
  }

  /** Freeing an address at which nothing live starts changes nothing at all. */
  lemma FreeUnknown(h: Heap, p: int, total: int)
    requires Shape(h.blocks, total) && h.cursor < |h.blocks|
    requires forall b :: b in Live(h.blocks) ==> b.ptr != p
    ensures Freed(h, p) == h
  {
    var bs, i := h.blocks, Find(h.blocks, p);
    if i < |bs| {
      FreedShape(h, p, total);
      FreedLive(h, p, total);
      assert LiveExcept(bs, p) == Live(bs);
      Canonical(Freed(h, p).blocks, bs, 0, total);
      assert bs[i] in bs;
      LoneRun(bs, i);
    }
  }

  lemma {:induction false} CoalescedAt(bs: seq<Block>, i: nat)
    requires Coalesced(bs) && i + 1 < |bs|
    ensures bs[i].alloc || bs[i + 1].alloc
  {
    if i > 0 { CoalescedAt(bs[1..], i - 1); }
  }

  lemma LoneRun(bs: seq<Block>, i: nat)
    requires Coalesced(bs) && i < |bs| && !bs[i].alloc
    ensures RunStart(bs, i) == i && RunEnd(bs, i) == i + 1
  {
    if i > 0 { CoalescedAt(bs, i - 1); }
    if i + 1 < |bs| { CoalescedAt(bs, i); }
  }

  // ---- the pool's bytes -------------------------------------------------------------------------

  /** Byte `x` of the pool is free. */
  ghost predicate FreeByte(bs: seq<Block>, x: int) {
    exists i :: 0 <= i < |bs| && InFree(bs[i], x)
  }

  predicate InFree(b: Block, x: int) {
    !b.alloc && b.ptr <= x < b.ptr + b.size
  }

  /** The `n` bytes from `a` on are free. */
  ghost predicate FreeRun(bs: seq<Block>, a: int, n: int) {
    forall x :: a <= x < a + n ==> FreeByte(bs, x)
  }

  lemma TilesNext(bs: seq<Block>, lo: int, hi: int, i: nat)
    requires Tiles(bs, lo, hi) && i < |bs|
    ensures bs[i].ptr + bs[i].size == if i + 1 < |bs| then bs[i + 1].ptr else hi
  {
    TilesAt(bs, lo, hi, i);
  }

  /** A run of free bytes lies inside one free block. */
  lemma {:induction false} RunInBlock(bs: seq<Block>, total: int, a: int, n: int) returns (i: nat)
    requires Shape(bs, total) && n >= 1 && FreeRun(bs, a, n)
    ensures i < |bs| && !bs[i].alloc && bs[i].ptr <= a && a + n <= bs[i].ptr + bs[i].size
    decreases n
  {
    if n == 1 {
      assert FreeByte(bs, a);
      i :| 0 <= i < |bs| && InFree(bs[i], a);
    } else {
      i := RunInBlock(bs, total, a, n - 1);
      var y := a + n - 1;
      assert FreeByte(bs, y);
      var j: nat :| 0 <= j < |bs| && InFree(bs[j], y);
      FreeNeighbour(bs, total, i, j, y);
    }
  }

  /** The byte after a free block is not free. */
  lemma FreeNeighbour(bs: seq<Block>, total: int, i: nat, j: nat, y: int)
    requires Shape(bs, total) && i < |bs| && j < |bs| && !bs[i].alloc && InFree(bs[j], y)
    requires bs[i].ptr <= y <= bs[i].ptr + bs[i].size
    ensures i == j
  {
    TilesNext(bs, 0, total, i);
    if i < j {
      TilesDisjoint(bs, 0, total, i, j);
      CoalescedAt(bs, i);
      if i + 1 < j { TilesAt(bs, 0, total, i + 1); TilesDisjoint(bs, 0, total, i + 1, j); }
    } else if j < i {
      TilesDisjoint(bs, 0, total, j, i);
    }
  }

  /** A maximal run of free bytes. */
  ghost predicate Hole(bs: seq<Block>, a: int, n: int) {
    n >= 1 && FreeRun(bs, a, n) && !FreeByte(bs, a - 1) && !FreeByte(bs, a + n)
  }

  /** The holes in the pool are exactly the free blocks of the list. */
  lemma HoleIff(bs: seq<Block>, total: int, a: int, n: int)
    requires Shape(bs, total)
    ensures Hole(bs, a, n) <==> Block(a, n, false) in bs
  {
    if Hole(bs, a, n) {
      var i := RunInBlock(bs, total, a, n);
      HoleEdge(bs, a, n, i);
      assert bs[i] in bs;
    }
    if Block(a, n, false) in bs {
      var i: nat :| i < |bs| && bs[i] == Block(a, n, false);
      TilesAt(bs, 0, total, i);
      BlockHole(bs, total, i);
    }
  }

  lemma HoleEdge(bs: seq<Block>, a: int, n: int, i: nat)
    requires Hole(bs, a, n) && i < |bs| && !bs[i].alloc && bs[i].ptr <= a && a + n <= bs[i].ptr + bs[i].size
    ensures bs[i] == Block(a, n, false)
  {
    assert !InFree(bs[i], a - 1) && !InFree(bs[i], a + n);
  }

  lemma BlockHole(bs: seq<Block>, total: int, i: nat)
    requires Shape(bs, total) && i < |bs| && !bs[i].alloc && bs[i].size > 0
    ensures Hole(bs, bs[i].ptr, bs[i].size)
  {
    var a, n := bs[i].ptr, bs[i].size;
    forall x | a <= x < a + n ensures FreeByte(bs, x) { assert InFree(bs[i], x); }
    if FreeByte(bs, a + n) {
      var j: nat :| 0 <= j < |bs| && InFree(bs[j], a + n);
      FreeNeighbour(bs, total, i, j, a + n);
    }
    if FreeByte(bs, a - 1) {
      var j: nat :| 0 <= j < |bs| && InFree(bs[j], a - 1);
      BeforeHole(bs, total, i, j);
    }
  }

  lemma BeforeHole(bs: seq<Block>, total: int, i: nat, j: nat)
    requires Shape(bs, total) && i < |bs| && j < |bs| && !bs[i].alloc && bs[i].size > 0
    ensures !InFree(bs[j], bs[i].ptr - 1)
  {
    if InFree(bs[j], bs[i].ptr - 1) {
      TilesNext(bs, 0, total, j);
      if i < j { TilesDisjoint(bs, 0, total, i, j); }
      FreeNeighbour(bs, total, j, i, bs[i].ptr);
    }
  }

  // ---- which requests succeed, and where ------------------------------------------------------------

  /** If some block fits, the strategy finds one. */
  lemma ChoiceExists(st: Strategy, h: Heap, r: int, j: nat) returns (i: nat)
    requires !st.Next? && j < |h.blocks| && Fits(h.blocks[j], r)
    ensures Chosen(st, h, r, i)
  {
    var bs := h.blocks;
    i := j;
    var k := 0;
    while k < |bs|
      invariant 0 <= k <= |bs| && i < |bs| && Fits(bs[i], r)
      invariant forall x :: 0 <= x < k && Fits(bs[x], r) ==>
                  match st
                  case Best => bs[i].size < bs[x].size || (bs[i].size == bs[x].size && i <= x)
                  case Worst => bs[i].size > bs[x].size || (bs[i].size == bs[x].size && i <= x)
                  case _ => i <= x
    {
      var better := match st
        case Best => bs[k].size < bs[i].size || (bs[k].size == bs[i].size && k < i)
        case Worst => bs[k].size > bs[i].size || (bs[k].size == bs[i].size && k < i)
        case _ => k < i;
      if Fits(bs[k], r) && better { i := k; }
      k := k + 1;
    }
  }

  /** First, best and worst fit succeed exactly when the pool has that many free bytes in a row. */
  lemma SucceedsIff(st: Strategy, h: Heap, r: int, total: int)
    requires !st.Next? && Shape(h.blocks, total) && r >= 1
    ensures (exists i: nat :: Chosen(st, h, r, i)) <==> (exists a :: FreeRun(h.blocks, a, r))
  {
    if i: nat :| Chosen(st, h, r, i) {
      TilesAt(h.blocks, 0, total, i);
      BlockHole(h.blocks, total, i);
      var a := h.blocks[i].ptr;
      assert FreeRun(h.blocks, a, r);
    }
    if a :| FreeRun(h.blocks, a, r) {
      var j := RunInBlock(h.blocks, total, a, r);
      var i := ChoiceExists(st, h, r, j);
    }
  }

  /** Hole `(a, n)` is preferred to hole `(b, m)`: lowest address first, smallest first or largest
      first, the lowest address breaking ties. */
  predicate Preferred(st: Strategy, a: int, n: int, b: int, m: int)
    requires !st.Next?
  {
    match st
    case First => a <= b
    case Best => n < m || (n == m && a <= b)
    case Worst => n > m || (n == m && a <= b)
  }

  /** The chosen block is a hole of the pool that is large enough, and is preferred to every other
      such hole. */
  lemma Placement(st: Strategy, h: Heap, r: int, i: nat, total: int)
    requires !st.Next? && Shape(h.blocks, total) && r >= 1 && Chosen(st, h, r, i)
    ensures var b := h.blocks[i];
      && Hole(h.blocks, b.ptr, b.size) && b.size >= r
      && forall a, n :: Hole(h.blocks, a, n) && n >= r ==> Preferred(st, b.ptr, b.size, a, n)
  {
    var bs := h.blocks;
    TilesAt(bs, 0, total, i);
    BlockHole(bs, total, i);
    forall a, n | Hole(bs, a, n) && n >= r ensures Preferred(st, bs[i].ptr, bs[i].size, a, n) {
      HoleIff(bs, total, a, n);
      var j: nat :| j < |bs| && bs[j] == Block(a, n, false);
      assert Fits(bs[j], r);
      if i < j { TilesDisjoint(bs, 0, total, i, j); } else if j < i { TilesDisjoint(bs, 0, total, j, i); }
    }
  }

  /** First fit even returns the lowest address at which that many free bytes start. */
  lemma FirstLowest(h: Heap, r: int, i: nat, a: int, total: int)
    requires Shape(h.blocks, total) && r >= 1 && Chosen(First, h, r, i) && FreeRun(h.blocks, a, r)
    ensures h.blocks[i].ptr <= a
  {
    var j := RunInBlock(h.blocks, total, a, r);
    assert Fits(h.blocks[j], r);
    if i < j { TilesDisjoint(h.blocks, 0, total, i, j); }
  }

  // ---- statistics -----------------------------------------------------------------------------------

  /** What the statistics functions compute over the list, from its head on. */
  function CountHoles(bs: seq<Block>): nat {
    if bs == [] then 0 else CountHoles(bs[..|bs| - 1]) + (if bs[|bs| - 1].alloc then 0 else 1)
  }

  function AllocatedBytes(bs: seq<Block>): int {
    if bs == [] then 0
    else AllocatedBytes(bs[..|bs| - 1]) + (if bs[|bs| - 1].alloc then bs[|bs| - 1].size else 0)
  }

  function FreeBytes(bs: seq<Block>): int {
    if bs == [] then 0
    else FreeBytes(bs[..|bs| - 1]) + (if bs[|bs| - 1].alloc then 0 else bs[|bs| - 1].size)
  }

  function LargestFree(bs: seq<Block>): int {
    if bs == [] then 0
    else
      var m := LargestFree(bs[..|bs| - 1]);
      var b := bs[|bs| - 1];
      if !b.alloc && b.size > m then b.size else m
  }

  function CountSmall(bs: seq<Block>, k: int): nat {
    if bs == [] then 0
    else CountSmall(bs[..|bs| - 1], k) + (if !bs[|bs| - 1].alloc && bs[|bs| - 1].size <= k then 1 else 0)
  }

  lemma {:induction false} LargestIs(bs: seq<Block>)
    ensures LargestFree(bs) >= 0
    ensures forall b :: b in bs && !b.alloc ==> b.size <= LargestFree(bs)
    ensures LargestFree(bs) > 0 ==> exists i :: 0 <= i < |bs| && !bs[i].alloc && bs[i].size == LargestFree(bs)
  {
    if bs != [] {
      var n := |bs| - 1;
      LargestIs(bs[..n]);
      assert bs == bs[..n] + [bs[n]];
      if LargestFree(bs[..n]) > 0 {
        var i :| 0 <= i < n && !bs[..n][i].alloc && bs[..n][i].size == LargestFree(bs[..n]);
        assert bs[i] == bs[..n][i];
      }
    }
  }

  /** `mem_largest_free` is the length of the longest run of free bytes. */
  lemma LargestIff(bs: seq<Block>, total: int, n: int)
    requires Shape(bs, total) && n >= 1
    ensures n <= LargestFree(bs) <==> exists a :: FreeRun(bs, a, n)
  {
    LargestIs(bs);
    if n <= LargestFree(bs) {
      var i: nat :| 0 <= i < |bs| && !bs[i].alloc && bs[i].size == LargestFree(bs);
      BlockHole(bs, total, i);
      var a := bs[i].ptr;
      assert FreeRun(bs, a, n);
    }
    if a :| FreeRun(bs, a, n) {
      var i := RunInBlock(bs, total, a, n);
      assert bs[i] in bs;
    }
  }

  ghost function AllocatedSet(bs: seq<Block>, lo: int, hi: int): set<int> {
    set x | lo <= x < hi && !FreeByte(bs, x)
  }

  ghost function FreeSet(bs: seq<Block>, lo: int, hi: int): set<int> {
    set x | lo <= x < hi && FreeByte(bs, x)
  }

  /** Where a maximal run of free bytes begins. */
  ghost predicate HoleStart(bs: seq<Block>, x: int) {
    FreeByte(bs, x) && !FreeByte(bs, x - 1)
  }

  ghost function HoleStarts(bs: seq<Block>, lo: int, hi: int): set<int> {
    set x | lo <= x < hi && HoleStart(bs, x)
  }

  ghost function Range(lo: int, hi: int): set<int>
    decreases hi - lo
  {
    if lo < hi then Range(lo, hi - 1) + {hi - 1} else {}
  }

  lemma {:induction false} RangeSize(lo: int, hi: int)
    requires lo <= hi
    ensures |Range(lo, hi)| == hi - lo
    ensures forall x :: x in Range(lo, hi) <==> lo <= x < hi
    decreases hi - lo
  {
    if lo < hi { RangeSize(lo, hi - 1); }
  }

  lemma BytesSets(bs: seq<Block>, total: int)
    requires Tiles(bs, 0, total) && bs != []
    ensures var n := |bs| - 1; var mid := bs[n].ptr;
      && FreeSet(bs, 0, total) == FreeSet(bs[..n], 0, mid) + (if bs[n].alloc then {} else Range(mid, total))
      && AllocatedSet(bs, 0, total) == AllocatedSet(bs[..n], 0, mid) + (if bs[n].alloc then Range(mid, total) else {})
  {
    hide FreeByte, Tiles, Range;
    var n := |bs| - 1;
    var mid := bs[n].ptr;
    BytesLast(bs, total);
    RangeSize(mid, total);
    forall x ensures x in FreeSet(bs, 0, total) <==>
                       x in FreeSet(bs[..n], 0, mid) || (!bs[n].alloc && x in Range(mid, total))
    {
    }
    forall x ensures x in AllocatedSet(bs, 0, total) <==>
                       x in AllocatedSet(bs[..n], 0, mid) || (bs[n].alloc && x in Range(mid, total))
    {
    }
  }

  /** `mem_free` counts the free bytes of the pool, `mem_allocated` the others, and together they
      make up the pool. */
  lemma {:induction false} BytesCounted(bs: seq<Block>, total: int)
    requires Tiles(bs, 0, total)
    ensures FreeBytes(bs) == |FreeSet(bs, 0, total)| && AllocatedBytes(bs) == |AllocatedSet(bs, 0, total)|
    ensures FreeBytes(bs) + AllocatedBytes(bs) == total
  {
    if bs == [] {
      assert FreeSet(bs, 0, 0) == {} == AllocatedSet(bs, 0, 0);
    } else {
      hide FreeByte;
      var n := |bs| - 1;
      var mid := bs[n].ptr;
      TilesAt(bs, 0, total, n);
      TilesNext(bs, 0, total, n);
      BytesCounted(bs[..n], mid);
      BytesSets(bs, total);
      RangeSize(mid, total);
      Disjoint(FreeSet(bs[..n], 0, mid), Range(mid, total));
      Disjoint(AllocatedSet(bs[..n], 0, mid), Range(mid, total));
    }
  }

  lemma Disjoint(a: set<int>, b: set<int>)
    requires a !! b
    ensures |a + b| == |a| + |b|
    ensures a + {} == a
  {
  }

  /** The last block decides its own bytes and no others. */
  lemma BytesLast(bs: seq<Block>, total: int)
    requires Tiles(bs, 0, total) && bs != []
    ensures var n := |bs| - 1; var mid := bs[n].ptr;
      && 0 <= mid < total
      && (forall x :: x < mid ==> (FreeByte(bs, x) <==> FreeByte(bs[..n], x)))
      && (forall x :: mid <= x < total ==> (FreeByte(bs, x) <==> !bs[n].alloc))
  {
    var n := |bs| - 1;
    var mid := bs[n].ptr;
    TilesAt(bs, 0, total, n);
    TilesOrder(bs[..n], 0, mid);
    TilesNext(bs, 0, total, n);
    assert forall i :: 0 <= i < n ==> bs[..n][i] == bs[i] && bs[i] in bs[..n];
    forall x | x < mid ensures FreeByte(bs, x) <==> FreeByte(bs[..n], x) {
      if FreeByte(bs, x) {
        var i :| 0 <= i < |bs| && InFree(bs[i], x);
        assert InFree(bs[..n][i], x);
      }
      if FreeByte(bs[..n], x) {
        var i :| 0 <= i < n && InFree(bs[..n][i], x);
        assert InFree(bs[i], x);
      }
    }
    forall x | mid <= x < total ensures FreeByte(bs, x) <==> !bs[n].alloc {
      if !bs[n].alloc { assert InFree(bs[n], x); }
    }
  }

  lemma HolesLast(bs: seq<Block>, total: int)
    requires Shape(bs, total) && bs != []
    ensures var n := |bs| - 1; var mid := bs[n].ptr;
      && Shape(bs[..n], mid)
      && HoleStarts(bs, 0, total) == HoleStarts(bs[..n], 0, mid) + (if bs[n].alloc then {} else {mid})
  {
    var n := |bs| - 1;
    assert bs == bs[..n] + [bs[n]];
    TilesAt(bs, 0, total, n);
    CoalescedAppend(bs[..n], [bs[n]]);
    BytesLast(bs, total);
    if !bs[n].alloc { BlockHole(bs, total, n); }
    hide Tiles, Coalesced;
    HolesLastSets(bs, total);
  }

  lemma HolesLastSets(bs: seq<Block>, total: int)
    requires bs != [] && 0 <= bs[|bs| - 1].ptr < total
    requires var n := |bs| - 1; var mid := bs[n].ptr;
      && (forall x :: x < mid ==> (FreeByte(bs, x) <==> FreeByte(bs[..n], x)))
      && (forall x :: mid <= x < total ==> (FreeByte(bs, x) <==> !bs[n].alloc))
      && (!bs[n].alloc ==> !FreeByte(bs, mid - 1))
    ensures var n := |bs| - 1; var mid := bs[n].ptr;
      HoleStarts(bs, 0, total) == HoleStarts(bs[..n], 0, mid) + (if bs[n].alloc then {} else {mid})
  {
    hide FreeByte;
    var n := |bs| - 1;
    var mid := bs[n].ptr;
    forall x ensures x in HoleStarts(bs, 0, total) <==>
                       x in HoleStarts(bs[..n], 0, mid) + (if bs[n].alloc then {} else {mid})
    {
      assert x <= mid ==> (FreeByte(bs, x - 1) <==> FreeByte(bs[..n], x - 1));
    }
  }

  /** `mem_holes` counts the maximal runs of free bytes. */
  lemma {:induction false} HolesCounted(bs: seq<Block>, total: int)
    requires Shape(bs, total)
    ensures CountHoles(bs) == |HoleStarts(bs, 0, total)|
  {
    if bs == [] {
      assert HoleStarts(bs, 0, 0) == {};
    } else {
      hide HoleStart, Tiles, Coalesced;
      var n := |bs| - 1;
      HolesLast(bs, total);
      HolesCounted(bs[..n], bs[n].ptr);
      Disjoint(HoleStarts(bs[..n], 0, bs[n].ptr), {bs[n].ptr});
    }
  }

  /** There is at most one hole more than there are live allocations. */
  lemma {:induction false} HolesBound(bs: seq<Block>, total: int)
    requires Shape(bs, total)
    ensures CountHoles(bs) <= |Live(bs)| + (if bs != [] && !bs[|bs| - 1].alloc then 1 else 0)
  {
    if bs != [] {
      var n := |bs| - 1;
      HolesLast(bs, total);
      HolesBound(bs[..n], bs[n].ptr);
      LiveLast(bs, total);
      if n > 0 { CoalescedAt(bs, n - 1); }
    }
  }

  lemma LiveLast(bs: seq<Block>, total: int)
    requires Tiles(bs, 0, total) && bs != []
    ensures var n := |bs| - 1; |Live(bs)| == |Live(bs[..n])| + (if bs[n].alloc then 1 else 0)
  {
    var n := |bs| - 1;
    assert bs == bs[..n] + [bs[n]];
    TilesAt(bs, 0, total, n);
    TilesOrder(bs[..n], 0, bs[n].ptr);
    LiveAppend(bs[..n], [bs[n]]);
    assert bs[n] !in bs[..n];
    assert Live([bs[n]]) == if bs[n].alloc then {bs[n]} else {};
  }

  /** `mem_small_free(k)` leaves no hole out exactly when no hole is larger than `k`. */
  lemma {:induction false} SmallIff(bs: seq<Block>, k: int)
    requires k >= 0
    ensures CountSmall(bs, k) <= CountHoles(bs)
    ensures CountSmall(bs, k) == CountHoles(bs) <==> k >= LargestFree(bs)
  {
    if bs != [] { SmallIff(bs[..|bs| - 1], k); }
  }

  /** The free blocks of at most `k` bytes. */
  ghost function SmallFree(bs: seq<Block>, k: int): set<Block> {
    set b | b in bs && !b.alloc && b.size <= k
  }

  lemma {:induction false} SmallCount(bs: seq<Block>, lo: int, hi: int, k: int)
    requires Tiles(bs, lo, hi)
    ensures CountSmall(bs, k) == |SmallFree(bs, k)|
  {
    if bs != [] {
      hide Tiles, SmallFree;
      var n := |bs| - 1;
      TilesAt(bs, lo, hi, n);
      TilesOrder(bs[..n], lo, bs[n].ptr);
      SmallCount(bs[..n], lo, bs[n].ptr, k);
      SmallLast(bs[..n], bs[n], k);
      assert bs == bs[..n] + [bs[n]];
    } else {
      assert SmallFree(bs, k) == {};
    }
  }

  lemma SmallLast(bs: seq<Block>, b: Block, k: int)
    requires b !in bs
    ensures |SmallFree(bs + [b], k)| == |SmallFree(bs, k)| + (if !b.alloc && b.size <= k then 1 else 0)
  {
    assert SmallFree(bs + [b], k) == SmallFree(bs, k) + (if !b.alloc && b.size <= k then {b} else {});
  }

  /** `mem_small_free(k)` counts the maximal runs of free bytes that are no longer than `k`. */
  lemma SmallCounted(bs: seq<Block>, total: int, k: int)
    requires Shape(bs, total)
    ensures CountSmall(bs, k) == |SmallFree(bs, k)|
    ensures forall a, n :: Block(a, n, false) in SmallFree(bs, k) <==> Hole(bs, a, n) && n <= k
  {
    SmallCount(bs, 0, total, k);
    forall a, n ensures Block(a, n, false) in SmallFree(bs, k) <==> Hole(bs, a, n) && n <= k {
      HoleIff(bs, total, a, n);
    }
  }

  /** The free blocks of fewer than `k` bytes, which is what `mem_small_free` is said to count. */
  function CountBelow(bs: seq<Block>, k: int): nat {
    if bs == [] then 0
    else CountBelow(bs[..|bs| - 1], k) + (if !bs[|bs| - 1].alloc && bs[|bs| - 1].size < k then 1 else 0)
  }

  /** It does so exactly when no hole in the pool has just `k` bytes. */
  lemma SmallStrictIff(bs: seq<Block>, total: int, k: int)
    requires Shape(bs, total)
    ensures CountSmall(bs, k) == CountBelow(bs, k) <==> forall a :: !Hole(bs, a, k)
  {
    SmallSplit(bs, k);
    if a :| Hole(bs, a, k) {
      HoleIff(bs, total, a, k);
    } else {
      forall a ensures Block(a, k, false) !in bs { HoleIff(bs, total, a, k); }
    }
  }

  lemma {:induction false} SmallSplit(bs: seq<Block>, k: int)
    ensures CountSmall(bs, k) >= CountBelow(bs, k)
    ensures CountSmall(bs, k) == CountBelow(bs, k) <==> forall b :: b in bs && !b.alloc ==> b.size != k
  {
    if bs != [] {
      var n := |bs| - 1;
      SmallSplit(bs[..n], k);
      assert bs == bs[..n] + [bs[n]];
    }
  }

  /** A new pool of 100 bytes: one free block is counted as smaller than 100. */
  lemma SmallCountsEqual()
    ensures CountSmall(Initial(100).blocks, 100) == 1 && CountBelow(Initial(100).blocks, 100) == 0
  {
    var bs := Initial(100).blocks;
    assert bs[..|bs| - 1] == [];
  }
}
