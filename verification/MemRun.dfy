/**
 The allocator as its callers see it: the regions in use, and the address from which next fit goes on.
 Every run of calls on the heap list is a run of it, each call has one outcome only, and the list is in
 order throughout.
 */
module MemRun {
  import opened Sequences
  import opened MemBlocks
  import opened MemTheorems
  import opened MemAllocator

  /** The regions in use, and the address of the block the roving cursor is at. */
  datatype View = View(live: set<Block>, at: int)

  ghost function ViewOf(h: Heap): View
    requires h.cursor < |h.blocks|
  {
    View(Live(h.blocks), h.blocks[h.cursor].ptr)
  }

  /** The `r` bytes from `a` on are in the pool, and no region in use has any of them. */
  ghost predicate Room(live: set<Block>, total: int, a: int, r: int) {
    && 0 <= a && a + r <= total
    && forall b :: b in live ==> b.ptr + b.size <= a || a + r <= b.ptr
  }

  ghost predicate NoRoom(live: set<Block>, total: int, r: int) {
    forall a :: !Room(live, total, a, r)
  }

  /** Room that can be extended on neither side. */
  ghost predicate Gap(live: set<Block>, total: int, a: int, n: int) {
    n >= 1 && Room(live, total, a, n) && !Room(live, total, a - 1, n + 1) && !Room(live, total, a, n + 1)
  }

  ghost predicate GapAt(live: set<Block>, total: int, a: int) {
    exists n :: Gap(live, total, a, n)
  }

  /** The first gap from address `from` on is at `a`. */
  ghost predicate FirstGap(live: set<Block>, total: int, from: int, a: int) {
    from <= a && GapAt(live, total, a) && forall b :: from <= b && GapAt(live, total, b) ==> a <= b
  }

  /** The gap at `p`, of `n` bytes, is the one the strategy takes: next fit the first from where it is
      on, the others the one they prefer among those that are large enough. */
  ghost predicate Picks(st: Strategy, total: int, v: View, r: int, p: int, n: int) {
    && Gap(v.live, total, p, n)
    && if st.Next? then FirstGap(v.live, total, v.at, p)
       else n >= r && forall b, m :: Gap(v.live, total, b, m) && m >= r ==> Preferred(st, p, n, b, m)
  }

  /** Going round from address `from`, the first gap is at `at`; or there is none, and that is the start. */
  ghost predicate GoesOn(live: set<Block>, total: int, from: int, at: int) {
    if exists b :: from <= b && GapAt(live, total, b) then FirstGap(live, total, from, at)
    else if exists b :: GapAt(live, total, b) then FirstGap(live, total, 0, at)
    else at == 0
  }

  /** The region in use or the gap that begins at `at` has address `a`. */
  ghost predicate Holds(live: set<Block>, total: int, at: int, a: int) {
    at <= a && ((exists n :: Gap(live, total, at, n) && a < at + n) || exists b :: b in live && b.ptr == at && a < at + b.size)
  }

  /** What one call does, and what it returns. A request is turned down only when the pool has no room for
      it anywhere. Next fit goes on from behind what it has allocated; a free leaves it where it is, at
      the region or gap that now has its address. */
  ghost predicate Called(st: Strategy, total: int, v: View, op: Op, v': View, res: Option<int>) {
    match op
    case Free(p) =>
      res == None && v'.live == (set b | b in v.live && b.ptr != p) && Holds(v'.live, total, v'.at, v.at)
    case Malloc(r) =>
      if res.Some? then
        && (exists n :: n >= r && Picks(st, total, v, r, res.value, n))
        && v'.live == v.live + {Block(res.value, r, true)}
        && if st.Next? then GoesOn(v'.live, total, res.value + r, v'.at) else v'.at == v.at
      else NoRoom(v.live, total, r) && v' == v
  }

  /** A request for at least one byte, and under next fit one that the first gap from where it is on can
      hold. */
  ghost predicate Serves(st: Strategy, total: int, v: View, op: Op) {
    op.Malloc? ==> op.r >= 1 && (st.Next? ==> exists p, n :: Picks(st, total, v, op.r, p, n) && op.r <= n)
  }

  // ---- gaps and blocks ----------------------------------------------------------------------------

  /** Every byte of the pool is in some block. */
  lemma {:induction false} ByteInBlock(bs: seq<Block>, lo: int, hi: int, x: int) returns (i: nat)
    requires Tiles(bs, lo, hi) && lo <= x < hi
    ensures i < |bs| && bs[i].ptr <= x < bs[i].ptr + bs[i].size
  {
    if x < lo + bs[0].size {
      i := 0;
    } else {
      i := ByteInBlock(bs[1..], lo + bs[0].size, hi, x);
      i := i + 1;
    }
  }

  /** Room among the regions in use is a run of free bytes. */
  lemma RoomIff(bs: seq<Block>, total: int, a: int, r: int)
    requires Shape(bs, total) && r >= 1
    ensures Room(Live(bs), total, a, r) <==> FreeRun(bs, a, r)
  {
    if Room(Live(bs), total, a, r) {
      forall x | a <= x < a + r ensures FreeByte(bs, x) {
        var i := ByteInBlock(bs, 0, total, x);
        assert bs[i] in bs;
        assert InFree(bs[i], x);
      }
    }
    if FreeRun(bs, a, r) {
      var i := RunInBlock(bs, total, a, r);
      InBlockRoom(bs, total, i, a, r);
    }
  }

  lemma InBlockRoom(bs: seq<Block>, total: int, i: nat, a: int, r: int)
    requires Tiles(bs, 0, total) && i < |bs| && !bs[i].alloc
    requires bs[i].ptr <= a && a + r <= bs[i].ptr + bs[i].size
    ensures Room(Live(bs), total, a, r)
  {
    TilesOrder(bs, 0, total);
    assert bs[i] in bs;
    forall b | b in Live(bs) ensures b.ptr + b.size <= a || a + r <= b.ptr {
      var j: nat :| j < |bs| && bs[j] == b;
      if i < j { TilesDisjoint(bs, 0, total, i, j); } else { TilesDisjoint(bs, 0, total, j, i); }
    }
  }

  /** The gaps are the free blocks. */
  lemma GapIff(bs: seq<Block>, total: int, a: int, n: int)
    requires Shape(bs, total)
    ensures Gap(Live(bs), total, a, n) <==> Block(a, n, false) in bs
  {
    hide Room, Live, FreeByte, Shape;
    HoleIff(bs, total, a, n);
    if n >= 1 {
      RoomIff(bs, total, a, n);
      RoomIff(bs, total, a - 1, n + 1);
      RoomIff(bs, total, a, n + 1);
      assert FreeRun(bs, a - 1, n + 1) ==> FreeByte(bs, a - 1) && FreeByte(bs, a - 1 + 1);
    }
  }

  lemma GapAtIff(bs: seq<Block>, total: int, a: int)
    requires Shape(bs, total)
    ensures GapAt(Live(bs), total, a) <==> exists i: nat :: FreeAt(bs, i, a)
  {
    hide Gap, Shape, Live;
    if n :| Gap(Live(bs), total, a, n) {
      GapIff(bs, total, a, n);
      var i: nat :| i < |bs| && bs[i] == Block(a, n, false);
      assert FreeAt(bs, i, a);
    }
    if i: nat :| FreeAt(bs, i, a) {
      assert bs[i] in bs;
      GapIff(bs, total, a, bs[i].size);
    }
  }

  ghost predicate FreeAt(bs: seq<Block>, i: nat, a: int) {
    i < |bs| && !bs[i].alloc && bs[i].ptr == a
  }

  /** Addresses grow along the list. */
  lemma PtrOrder(bs: seq<Block>, total: int, i: nat, j: nat)
    requires Tiles(bs, 0, total) && i < |bs| && j < |bs|
    ensures bs[i].size > 0
    ensures i < j <==> bs[i].ptr < bs[j].ptr
    ensures i < j <==> bs[i].ptr + bs[i].size <= bs[j].ptr
  {
    TilesOrder(bs, 0, total);
    assert bs[i] in bs && bs[j] in bs;
    if i < j { TilesDisjoint(bs, 0, total, i, j); } else if j < i { TilesDisjoint(bs, 0, total, j, i); }
  }

  /** The first gap from `from` on is at block `k`. */
  lemma FirstGapIs(bs: seq<Block>, total: int, from: int, k: nat)
    requires Shape(bs, total) && k < |bs| && !bs[k].alloc && from <= bs[k].ptr
    requires forall j: nat :: j < k && from <= bs[j].ptr ==> bs[j].alloc
    ensures FirstGap(Live(bs), total, from, bs[k].ptr)
  {
    hide Live, GapAt, Coalesced, Tiles;
    assert FreeAt(bs, k, bs[k].ptr);
    GapAtIff(bs, total, bs[k].ptr);
    forall b | from <= b && GapAt(Live(bs), total, b) ensures bs[k].ptr <= b {
      GapAtIff(bs, total, b);
      var j: nat :| FreeAt(bs, j, b);
      PtrOrder(bs, total, j, k);
    }
  }

  lemma NoGaps(bs: seq<Block>, total: int, from: int)
    requires Shape(bs, total) && forall j: nat :: j < |bs| && from <= bs[j].ptr ==> bs[j].alloc
    ensures !exists b :: from <= b && GapAt(Live(bs), total, b)
  {
    hide Live, GapAt, Shape;
    forall b | from <= b ensures !GapAt(Live(bs), total, b) {
      GapAtIff(bs, total, b);
    }
  }

  // ---- one call -----------------------------------------------------------------------------------

  ghost predicate Does(st: Strategy, h: Heap, op: Op, h': Heap, res: Option<int>) {
    match op
    case Free(p) => h' == Freed(h, p) && res == None
    case Malloc(r) => Mallocs(st, h, r, h', res)
  }

  /** Next fit chooses the first gap from its cursor on. */
  lemma NextPicks(h: Heap, r: int, i: nat, total: int)
    requires Wf(Next, h, total) && Chosen(Next, h, r, i)
    ensures Picks(Next, total, ViewOf(h), r, h.blocks[i].ptr, h.blocks[i].size)
  {
    hide Tiles, Coalesced, Live, Gap, GapAt;
    var bs := h.blocks;
    PtrOrder(bs, total, h.cursor, i);
    assert bs[i] in bs;
    GapIff(bs, total, bs[i].ptr, bs[i].size);
    forall j: nat | j < i && bs[h.cursor].ptr <= bs[j].ptr ensures bs[j].alloc {
      PtrOrder(bs, total, j, h.cursor);
    }
    FirstGapIs(bs, total, bs[h.cursor].ptr, i);
  }

  lemma SizedPicks(st: Strategy, h: Heap, r: int, i: nat, total: int)
    requires !st.Next? && Wf(st, h, total) && r >= 1 && Chosen(st, h, r, i)
    ensures Picks(st, total, ViewOf(h), r, h.blocks[i].ptr, h.blocks[i].size)
  {
    hide Shape, Live, Gap, Hole, Preferred;
    var bs := h.blocks;
    assert bs[i] in bs;
    GapIff(bs, total, bs[i].ptr, bs[i].size);
    Placement(st, h, r, i, total);
    forall b, m | Gap(Live(bs), total, b, m) && m >= r ensures Preferred(st, bs[i].ptr, bs[i].size, b, m) {
      GapIff(bs, total, b, m);
      HoleIff(bs, total, b, m);
    }
  }

  /** What is served on the list is what is served among the gaps. */
  lemma ServesIff(h: Heap, r: int, total: int)
    requires Wf(Next, h, total)
    ensures (exists i: nat :: Chosen(Next, h, r, i) && r <= h.blocks[i].size)
       <==> (exists p, n :: Picks(Next, total, ViewOf(h), r, p, n) && r <= n)
  {
    hide Live, Picks, Tiles, Coalesced;
    var bs := h.blocks;
    if i: nat :| Chosen(Next, h, r, i) && r <= bs[i].size {
      NextPicks(h, r, i, total);
    }
    if p, n :| Picks(Next, total, ViewOf(h), r, p, n) && r <= n {
      var i := PickChosen(h, r, p, n, total);
    }
  }

  /** Next fit's pick is the block it chooses. */
  lemma PickChosen(h: Heap, r: int, p: int, n: int, total: int) returns (i: nat)
    requires Wf(Next, h, total) && Picks(Next, total, ViewOf(h), r, p, n)
    ensures Chosen(Next, h, r, i) && h.blocks[i] == Block(p, n, false)
  {
    hide Live, Gap, GapAt, Tiles, Coalesced;
    var bs := h.blocks;
    GapIff(bs, total, p, n);
    var j: nat :| j < |bs| && bs[j] == Block(p, n, false);
    NextFinds(h, r, total);
    i :| Chosen(Next, h, r, i);
    NextPicks(h, r, i, total);
    assert bs[i].ptr == p;
    SamePtr(bs, total, i, bs[j]);
  }

  lemma MallocCalled(st: Strategy, h: Heap, r: int, h': Heap, res: Option<int>, total: int)
    requires Wf(st, h, total) && Wf(st, h', total) && Serves(st, total, ViewOf(h), Malloc(r)) && Mallocs(st, h, r, h', res)
    ensures Called(st, total, ViewOf(h), Malloc(r), ViewOf(h'), res)
  {
    hide Room, Live, Place, CursorAfter, Picks, GoesOn, Tiles, Coalesced;
    var bs := h.blocks;
    if res.Some? {
      var i: nat :| Takes(st, h, r, i, h') && bs[i].ptr == res.value;
      TakesFitting(st, h, r, i, h', total);
      PlaceLive(bs, total, i, r);
      if st.Next? {
        NextPicks(h, r, i, total);
        CursorGoesOn(h, r, i, h', total);
      } else {
        SizedPicks(st, h, r, i, total);
        HeadStays(bs, h'.blocks, total);
      }
    } else {
      if st.Next? { ServesIff(h, r, total); }
      SucceedsIff(st, h, r, total);
      forall a ensures !Room(Live(bs), total, a, r) { RoomIff(bs, total, a, r); }
    }
  }

  lemma HeadStays(bs: seq<Block>, bs': seq<Block>, total: int)
    requires Tiles(bs, 0, total) && Tiles(bs', 0, total) && bs != [] && bs' != []
    ensures bs[0].ptr == bs'[0].ptr == 0
  {
  }

  lemma TakesFitting(st: Strategy, h: Heap, r: int, i: nat, h': Heap, total: int)
    requires Wf(st, h, total) && Takes(st, h, r, i, h') && Serves(st, total, ViewOf(h), Malloc(r))
    ensures i < |h.blocks| && !h.blocks[i].alloc && r <= h.blocks[i].size
  {
    hide Picks, Shape, Live;
    if st.Next? {
      ServesIff(h, r, total);
      var j: nat :| Chosen(Next, h, r, j) && r <= h.blocks[j].size;
      ChosenUnique(Next, h, r, i, j);
    }
  }

  /** Where the block taken is in the new list. */
  lemma TakenBlock(bs: seq<Block>, i: nat, r: int)
    requires i < |bs|
    ensures i < |Place(bs, i, r)| && Place(bs, i, r)[i] == Block(bs[i].ptr, r, true)
  {
  }

  /** After an allocation next fit goes on with the first gap behind it, going round. */
  lemma CursorGoesOn(h: Heap, r: int, i: nat, h': Heap, total: int)
    requires Wf(Next, h', total) && i < |h.blocks| && r >= 1
    requires h'.blocks == Place(h.blocks, i, r) && CursorAfter(h'.blocks, i, h'.cursor)
    ensures GoesOn(Live(h'.blocks), total, h.blocks[i].ptr + r, h'.blocks[h'.cursor].ptr)
  {
    hide Place, Live, GapAt, FirstGap, Tiles, Coalesced;
    TakenBlock(h.blocks, i, r);
    RoundFrom(h'.blocks, i, h'.cursor, total);
  }

  lemma RoundFrom(bs: seq<Block>, i: nat, k: nat, total: int)
    requires Shape(bs, total) && i < |bs| && bs[i].alloc && k < |bs| && CursorAfter(bs, i, k)
    ensures GoesOn(Live(bs), total, bs[i].ptr + bs[i].size, bs[k].ptr)
  {
    hide Live, GapAt, Coalesced, FirstGap;
    var from := bs[i].ptr + bs[i].size;
    forall j: nat | j < |bs| ensures i < j <==> from <= bs[j].ptr { PtrOrder(bs, total, i, j); }
    hide Tiles;
    if i < k && !bs[k].alloc {
      FirstGapIs(bs, total, from, k);
      Found(Live(bs), total, from, bs[k].ptr);
    } else {
      assert k < i || k == 0;
      NoGaps(bs, total, from);
      if !bs[k].alloc {
        PtrOrder(bs, total, 0, k);
        HeadStays(bs, bs, total);
        FirstGapIs(bs, total, 0, k);
        Found(Live(bs), total, 0, bs[k].ptr);
      } else {
        NoneFree(bs, total);
        HeadStays(bs, bs, total);
      }
    }
  }

  lemma NoneFree(bs: seq<Block>, total: int)
    requires Shape(bs, total) && forall j :: 0 <= j < |bs| ==> bs[j].alloc
    ensures !exists b :: GapAt(Live(bs), total, b)
  {
    hide Live, GapAt, Shape;
    forall b ensures !GapAt(Live(bs), total, b) {
      GapAtIff(bs, total, b);
    }
  }

  lemma Found(live: set<Block>, total: int, from: int, a: int)
    requires FirstGap(live, total, from, a)
    ensures exists b :: from <= b && GapAt(live, total, b)
    ensures exists b :: GapAt(live, total, b)
  {
  }

  /** A free leaves the cursor at the block that has its address. */
  lemma FreeHolds(h: Heap, p: int, total: int)
    requires Shape(h.blocks, total) && h.cursor < |h.blocks|
    ensures var h' := Freed(h, p); var a := h.blocks[h.cursor].ptr;
      h'.cursor < |h'.blocks| && h'.blocks[h'.cursor].ptr <= a < h'.blocks[h'.cursor].ptr + h'.blocks[h'.cursor].size
  {
    hide RunStart, RunEnd, Joined;
    var bs, i := h.blocks, Find(h.blocks, p);
    PtrOrder(bs, total, h.cursor, h.cursor);
    if i < |bs| {
      ReleaseShape(bs, total, i);
      MergedHolds(bs, total, RunStart(bs, i), RunEnd(bs, i), h.cursor);
    }
  }

  lemma MergedHolds(bs: seq<Block>, total: int, lo: nat, hi: nat, c: nat)
    requires Tiles(bs, 0, total) && lo < hi <= |bs| && c < |bs| && Tiles(Merged(bs, lo, hi), 0, total)
    ensures var m, k, a := Merged(bs, lo, hi), MovedCursor(c, lo, hi), bs[c].ptr;
      k < |m| && m[k].ptr <= a < m[k].ptr + m[k].size
  {
    var m := Merged(bs, lo, hi);
    PtrOrder(bs, total, c, c);
    if lo <= c < hi {
      PtrOrder(bs, total, lo, c);
      TilesNext(m, 0, total, lo);
      if hi < |bs| {
        PtrOrder(bs, total, c, hi);
      } else {
        TilesOrder(bs, 0, total);
        assert bs[c] in bs;
      }
    }
  }

  lemma FreeCalled(st: Strategy, h: Heap, p: int, total: int)
    requires Wf(st, h, total) && Wf(st, Freed(h, p), total)
    ensures Called(st, total, ViewOf(h), Free(p), ViewOf(Freed(h, p)), None)
  {
    hide Freed, Live, Tiles, Coalesced, Gap;
    var h' := Freed(h, p);
    FreedLive(h, p, total);
    FreeHolds(h, p, total);
    var b := h'.blocks[h'.cursor];
    if b.alloc {
      InLive(h'.blocks, h'.cursor);
    } else {
      assert b in h'.blocks;
      GapIff(h'.blocks, total, b.ptr, b.size);
    }
  }

  lemma InLive(bs: seq<Block>, k: nat)
    requires k < |bs| && bs[k].alloc
    ensures bs[k] in Live(bs)
  {
  }

  /** A call on the list is one on the regions in use, and it keeps the list in order. */
  lemma DoesCalled(st: Strategy, h: Heap, op: Op, h': Heap, res: Option<int>, total: int)
    requires Wf(st, h, total) && Serves(st, total, ViewOf(h), op) && Does(st, h, op, h', res)
    ensures Step(st, h, op, h') && Wf(st, h', total)
    ensures Called(st, total, ViewOf(h), op, ViewOf(h'), res)
  {
    hide Shape, Called, Chosen, Mallocs, Freed, Picks, Live;
    if op.Malloc? && st.Next? { ServesIff(h, op.r, total); }
    StepWf(st, h, op, h', total);
    assert Called(st, total, ViewOf(h), op, ViewOf(h'), res) by {
      match op
      case Free(p) => FreeCalled(st, h, p, total);
      case Malloc(r) => MallocCalled(st, h, r, h', res, total);
    }
  }

  /** The regions in use determine the list. */
  lemma LiveDetermines(st: Strategy, h: Heap, k: Heap, total: int)
    requires Wf(st, h, total) && Wf(st, k, total) && Live(h.blocks) == Live(k.blocks)
    ensures h.blocks == k.blocks
  {
    Canonical(h.blocks, k.blocks, 0, total);
  }
  // ---- what the caller can rely on ----------------------------------------------------------------

  /** The regions lie in the pool and do not overlap. */
  ghost predicate Apart(live: set<Block>, total: int) {
    && (forall b :: b in live ==> 0 <= b.ptr && b.size > 0 && b.ptr + b.size <= total)
    && (forall b, d :: b in live && d in live && b != d ==> b.ptr + b.size <= d.ptr || d.ptr + d.size <= b.ptr)
  }

  lemma LiveApart(bs: seq<Block>, total: int)
    requires Tiles(bs, 0, total)
    ensures Apart(Live(bs), total)
  {
    TilesOrder(bs, 0, total);
    forall b, d | b in Live(bs) && d in Live(bs) && b != d ensures b.ptr + b.size <= d.ptr || d.ptr + d.size <= b.ptr {
      LiveDisjoint(bs, total, b, d);
    }
  }

  lemma GapsApart(live: set<Block>, total: int, x: int, n: int, y: int, m: int, a: int)
    requires Apart(live, total) && Gap(live, total, x, n) && Gap(live, total, y, m)
    requires x <= a < x + n && y <= a < y + m
    ensures x == y
  {
    if x < y { GapsLap(live, total, x, n, y, m, a); } else if y < x { GapsLap(live, total, y, m, x, n, a); }
  }

  lemma GapsLap(live: set<Block>, total: int, x: int, n: int, y: int, m: int, a: int)
    requires Apart(live, total) && Room(live, total, x, n) && Room(live, total, y, m)
    requires x < y <= a < x + n && a < y + m
    ensures !Gap(live, total, y, m)
  {
    assert Room(live, total, y - 1, m + 1);
  }

  lemma HoldsOne(live: set<Block>, total: int, x: int, y: int, a: int)
    requires Apart(live, total) && Holds(live, total, x, a) && Holds(live, total, y, a)
    ensures x == y
  {
    hide Gap;
    if n :| Gap(live, total, x, n) && a < x + n {
      GapFree(live, total, x, n);
      if m :| Gap(live, total, y, m) && a < y + m { GapsApart(live, total, x, n, y, m, a); }
    } else if m :| Gap(live, total, y, m) && a < y + m {
      GapFree(live, total, y, m);
    }
  }

  lemma GapFree(live: set<Block>, total: int, a: int, n: int)
    requires Gap(live, total, a, n)
    ensures forall b :: b in live ==> b.ptr + b.size <= a || a + n <= b.ptr
  {
  }

  /** A call has one outcome only. */
  lemma CalledOne(st: Strategy, total: int, v: View, op: Op, v1: View, res1: Option<int>, v2: View, res2: Option<int>)
    requires Called(st, total, v, op, v1, res1) && Called(st, total, v, op, v2, res2)
    requires Apart(v1.live, total) && (op.Malloc? ==> op.r >= 1)
    ensures v1 == v2 && res1 == res2
  {
    hide Apart, GapAt, Holds, Room, Gap;
    match op
    case Free(p) => HoldsOne(v1.live, total, v1.at, v2.at, v.at);
    case Malloc(r) =>
      if res1.Some? { PicksRoom(st, total, v, r, res1.value); }
      if res2.Some? { PicksRoom(st, total, v, r, res2.value); }
  }

  lemma PicksRoom(st: Strategy, total: int, v: View, r: int, p: int)
    requires r >= 1 && exists n :: n >= r && Picks(st, total, v, r, p, n)
    ensures Room(v.live, total, p, r)
  {
  }

  /** Right after an allocation at `p` next fit serves a request at or above the end of that, whenever there
      is a gap at all; it takes the first such gap, and only otherwise the first of the pool. */
  lemma NextRoves(total: int, v: View, r: int, v1: View, p: int, q: int, v2: View, p2: int)
    requires Called(Next, total, v, Malloc(r), v1, Some(p)) && Called(Next, total, v1, Malloc(q), v2, Some(p2))
    ensures if exists b :: p + r <= b && GapAt(v1.live, total, b) then FirstGap(v1.live, total, p + r, p2)
            else FirstGap(v1.live, total, 0, p2)
  {
    hide Gap;
    var n :| n >= q && Picks(Next, total, v1, q, p2, n);
    assert Gap(v1.live, total, p2, n);
    assert GapAt(v1.live, total, p2);
  }

  // ---- runs ---------------------------------------------------------------------------------------

  ghost predicate Served(st: Strategy, total: int, v: View, ops: seq<Op>)
    decreases |ops|
  {
    ops != [] ==>
      && Serves(st, total, v, ops[0])
      && forall v', res :: Called(st, total, v, ops[0], v', res) ==> Served(st, total, v', ops[1..])
  }

  /** First, best and worst fit serve every run of requests for at least one byte. */
  lemma {:induction false} SizedServed(st: Strategy, total: int, v: View, ops: seq<Op>)
    requires !st.Next? && forall k :: 0 <= k < |ops| && ops[k].Malloc? ==> ops[k].r >= 1
    ensures Served(st, total, v, ops)
    decreases |ops|
  {
    hide Called;
    if ops != [] {
      forall v', res | Called(st, total, v, ops[0], v', res) ensures Served(st, total, v', ops[1..]) {
        SizedServed(st, total, v', ops[1..]);
      }
    }
  }

  /** The run as its caller sees it. */
  ghost predicate Runs(st: Strategy, total: int, views: seq<View>, ops: seq<Op>, results: seq<Option<int>>) {
    && |views| == |ops| + 1 && |results| == |ops|
    && forall k :: 0 <= k < |ops| ==> Called(st, total, views[k], ops[k], views[k + 1], results[k])
  }

  lemma RunsMore(st: Strategy, total: int, views: seq<View>, ops: seq<Op>, results: seq<Option<int>>, op: Op, v: View, res: Option<int>)
    requires Runs(st, total, views, ops, results) && Called(st, total, views[|ops|], op, v, res)
    ensures Runs(st, total, views + [v], ops + [op], results + [res])
  {
    hide Called;
  }

  method Call(a: Allocator, op: Op) returns (res: Option<int>)
    requires a.Linked() && Wf(a.strategy, a.heap, a.poolSize) && Serves(a.strategy, a.poolSize, ViewOf(a.heap), op)
    modifies a`nodes, a`heap, a`cursor, a.nodes
    ensures a.Linked() && Wf(a.strategy, a.heap, a.poolSize)
    ensures Called(a.strategy, a.poolSize, old(ViewOf(a.heap)), op, ViewOf(a.heap), res)
    ensures forall i :: 0 <= i < |a.nodes| ==> a.nodes[i] in old(a.nodes) || fresh(a.nodes[i])
  {
    hide Shape, Called, Chosen, Mallocs, Freed, Live, Picks;
    if op.Malloc? && a.strategy.Next? { ServesIff(a.heap, op.r, a.poolSize); }
    match op {
      case Malloc(r) => res := a.Malloc(r);
      case Free(p) => a.Free(p); res := None;
    }
    DoesCalled(a.strategy, old(a.heap), op, a.heap, res, a.poolSize);
    forall i | 0 <= i < |a.nodes| ensures a.nodes[i] in old(a.nodes) || fresh(a.nodes[i]) {
      assert a.nodes[i] in a.nodes;
    }
  }

  /** Every run of calls that are served is a run on the regions in use; the list stays linked, and a
      coalesced tiling of the pool. With nothing in use it is one free block again. */
  method Run(a: Allocator, ops: seq<Op>) returns (results: seq<Option<int>>, ghost views: seq<View>)
    requires a.Linked() && Wf(a.strategy, a.heap, a.poolSize) && Served(a.strategy, a.poolSize, ViewOf(a.heap), ops)
    modifies a`nodes, a`heap, a`cursor, a.nodes
    ensures a.Linked() && Wf(a.strategy, a.heap, a.poolSize)
    ensures Runs(a.strategy, a.poolSize, views, ops, results)
    ensures views[0] == old(ViewOf(a.heap)) && views[|ops|] == ViewOf(a.heap)
    ensures Live(a.heap.blocks) == {} ==> a.heap.blocks == Initial(a.poolSize).blocks
    ensures forall i :: 0 <= i < |a.nodes| ==> a.nodes[i] in old(a.nodes) || fresh(a.nodes[i])
  {
    hide Shape, Called, Live, Serves;
    results, views := [], [ViewOf(a.heap)];
    for k := 0 to |ops|
      invariant a.Linked() && Wf(a.strategy, a.heap, a.poolSize)
      invariant Served(a.strategy, a.poolSize, ViewOf(a.heap), ops[k..])
      invariant Runs(a.strategy, a.poolSize, views, ops[..k], results)
      invariant views[0] == old(ViewOf(a.heap)) && views[k] == ViewOf(a.heap)
      invariant forall i :: 0 <= i < |a.nodes| ==> a.nodes[i] in old(a.nodes) || fresh(a.nodes[i])
    {
      assert ops[k..][1..] == ops[k + 1..] && ops[..k + 1] == ops[..k] + [ops[k]];
      var res := Call(a, ops[k]);
      RunsMore(a.strategy, a.poolSize, views, ops[..k], results, ops[k], ViewOf(a.heap), res);
      results, views := results + [res], views + [ViewOf(a.heap)];
    }
    assert ops[..|ops|] == ops;
    if Live(a.heap.blocks) == {} { NothingLive(a.strategy, a.heap, a.poolSize); }
  }

  lemma NothingLive(st: Strategy, h: Heap, total: int)
    requires Wf(st, h, total) && Live(h.blocks) == {}
    ensures h.blocks == Initial(total).blocks
  {
    TilesOrder(h.blocks, 0, total);
    FreeAll(h, [], total);
  }

  /** The same for a run on a new pool, with nothing in use at first. */
  method FreshRun(strategy: Strategy, size: int, ops: seq<Op>)
    returns (a: Allocator, results: seq<Option<int>>, ghost views: seq<View>)
    requires size >= 1 && Served(strategy, size, View({}, 0), ops)
    ensures fresh(a) && a.Linked() && a.strategy == strategy && a.poolSize == size && Wf(strategy, a.heap, size)
    ensures Runs(strategy, size, views, ops, results) && views[0] == View({}, 0) && views[|ops|] == ViewOf(a.heap)
    ensures views[|ops|].live == {} ==> a.heap.blocks == Initial(size).blocks
  {
    hide Shape, Served, Runs;
    a := new Allocator(strategy, size);
    forall i | 0 <= i < |a.nodes| ensures fresh(a.nodes[i]) {
      assert a.nodes[i] in a.nodes;
    }
    InitialWf(strategy, size);
    assert ViewOf(a.heap) == View({}, 0);
    results, views := Run(a, ops);
  }

  // ---- a run --------------------------------------------------------------------------------------

  /** Behind the last region is one gap. */
  lemma TailGap(live: set<Block>, total: int, a: int)
    requires 0 <= a < total && forall b :: b in live ==> b.size > 0 && b.ptr + b.size <= a
    requires a == 0 || exists b :: b in live && b.ptr + b.size == a
    ensures Gap(live, total, a, total - a) && FirstGap(live, total, a, a)
  {
  }

  lemma TailServes(live: set<Block>, total: int, a: int, r: int)
    requires 1 <= r < total - a && Gap(live, total, a, total - a) && FirstGap(live, total, a, a)
    ensures Serves(Next, total, View(live, a), Malloc(r))
  {
    assert Picks(Next, total, View(live, a), r, a, total - a);
  }

  lemma TailTaken(live: set<Block>, total: int, a: int, r: int, v: View, res: Option<int>)
    requires 1 <= r < total - a && Gap(live, total, a, total - a) && FirstGap(live, total, a, a)
    requires Called(Next, total, View(live, a), Malloc(r), v, res)
    requires FirstGap(live + {Block(a, r, true)}, total, a + r, a + r)
    ensures res == Some(a) && v == View(live + {Block(a, r, true)}, a + r)
  {
    hide GapAt;
    assert Room(live, total, a, r);
  }

  /** Next fit goes on behind the regions in use. */
  method Rove(a: Allocator, ghost live: set<Block>, ghost from: int) returns (res: Option<int>)
    requires a.Linked() && Wf(Next, a.heap, 100) && a.strategy == Next && a.poolSize == 100
    requires ViewOf(a.heap) == View(live, from) && 0 <= from <= 80
    requires forall b :: b in live ==> b.size > 0 && b.ptr + b.size <= from
    requires from == 0 || exists b :: b in live && b.ptr + b.size == from
    modifies a`nodes, a`heap, a`cursor, a.nodes
    ensures a.Linked() && Wf(Next, a.heap, 100)
    ensures res == Some(from) && ViewOf(a.heap) == View(live + {Block(from, 10, true)}, from + 10)
    ensures forall i :: 0 <= i < |a.nodes| ==> a.nodes[i] in old(a.nodes) || fresh(a.nodes[i])
  {
    hide Shape, Called, Serves, Gap, FirstGap, Live;
    TailGap(live, 100, from);
    TailServes(live, 100, from, 10);
    res := Call(a, Malloc(10));
    TailGap(live + {Block(from, 10, true)}, 100, from + 10);
    TailTaken(live, 100, from, 10, ViewOf(a.heap), res);
  }

  /** Next fit roves: in a pool of 100 bytes it allocates at 0 and at 10; with 0 free again it goes on at 20,
      and then at 30. */
  method RovingRun() returns (results: seq<Option<int>>)
    ensures results == [Some(0), Some(10), None, Some(20), Some(30)]
  {
    hide Shape, Live, Initial;
    var a := new Allocator(Next, 100);
    forall i | 0 <= i < |a.nodes| ensures fresh(a.nodes[i]) {
      assert a.nodes[i] in a.nodes;
    }
    InitialWf(Next, 100);
    NothingUsed(100);
    var r0, r1, r2 := FirstFreed(a);
    var r3 := Rove(a, {Block(10, 10, true)}, 20);
    var r4 := Rove(a, {Block(10, 10, true), Block(20, 10, true)}, 30);
    results := [r0, r1, r2, r3, r4];
  }

  method FirstFreed(a: Allocator) returns (r0: Option<int>, r1: Option<int>, r2: Option<int>)
    requires a.Linked() && Wf(Next, a.heap, 100) && a.strategy == Next && a.poolSize == 100
    requires ViewOf(a.heap) == View({}, 0)
    modifies a`nodes, a`heap, a`cursor, a.nodes
    ensures a.Linked() && Wf(Next, a.heap, 100) && ViewOf(a.heap) == View({Block(10, 10, true)}, 20)
    ensures r0 == Some(0) && r1 == Some(10) && r2 == None
    ensures forall i :: 0 <= i < |a.nodes| ==> a.nodes[i] in old(a.nodes) || fresh(a.nodes[i])
  {
    hide Shape, Called, Serves, Live, Apart;
    r0 := Rove(a, {}, 0);
    r1 := Rove(a, {Block(0, 10, true)}, 10);
    ghost var v := ViewOf(a.heap);
    ServesFree(Next, 100, v, 0);
    r2 := Call(a, Free(0));
    LiveApart(a.heap.blocks, 100) by { TilesOf(Next, a.heap, 100); }
    FreedTail(v, ViewOf(a.heap), r2);
  }

  lemma TilesOf(st: Strategy, h: Heap, total: int)
    requires Wf(st, h, total)
    ensures Tiles(h.blocks, 0, total)
  {
  }

  lemma NothingUsed(total: int)
    ensures ViewOf(Initial(total)) == View({}, 0)
  {
  }

  lemma ServesFree(st: Strategy, total: int, v: View, p: int)
    ensures Serves(st, total, v, Free(p))
  {
  }

  lemma FreedTail(v: View, v': View, res: Option<int>)
    requires v == View({Block(0, 10, true), Block(10, 10, true)}, 20) && Called(Next, 100, v, Free(0), v', res)
    requires Apart(v'.live, 100)
    ensures res == None && v' == View({Block(10, 10, true)}, 20)
  {
    var live := {Block(10, 10, true)};
    assert v'.live == live;
    TailGap(live, 100, 20);
    assert Holds(live, 100, 20, 20);
    HoldsOne(live, 100, v'.at, 20, 20);
  }
}
