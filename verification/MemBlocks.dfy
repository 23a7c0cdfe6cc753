/**
 The allocator's block list as a value: what tiling, coalescing, placing and freeing mean.
 Addresses are offsets into the pool.
 */
module MemBlocks {

  datatype Strategy = Best | Worst | First | Next

  datatype Block = Block(ptr: int, size: int, alloc: bool)

  /** The block list and the position of the roving cursor in it. */
  datatype Heap = Heap(blocks: seq<Block>, cursor: nat)

  /** The blocks lie end to end from `lo` to `hi`, none of them empty. */
  ghost predicate Tiles(bs: seq<Block>, lo: int, hi: int) {
    if bs == [] then lo == hi
    else bs[0].ptr == lo && bs[0].size > 0 && Tiles(bs[1..], lo + bs[0].size, hi)
  }

  /** No two neighbours are both free. */
  ghost predicate Coalesced(bs: seq<Block>) {
    |bs| >= 2 ==> (bs[0].alloc || bs[1].alloc) && Coalesced(bs[1..])
  }

  ghost predicate Shape(bs: seq<Block>, total: int) {
    Tiles(bs, 0, total) && Coalesced(bs)
  }

  /** The live allocations. */
  ghost function Live(bs: seq<Block>): set<Block> {
    set b | b in bs && b.alloc
  }

  predicate Fits(b: Block, r: int) {
    !b.alloc && b.size >= r
  }

  function Initial(total: int): Heap {
    Heap([Block(0, total, false)], 0)
  }

  // ---- tiling -----------------------------------------------------------------------------

  lemma {:induction false} TilesOrder(bs: seq<Block>, lo: int, hi: int)
    requires Tiles(bs, lo, hi)
    ensures lo <= hi && (bs != [] ==> lo < hi)
    ensures forall b :: b in bs ==> lo <= b.ptr && b.size > 0 && b.ptr + b.size <= hi
  {
    if bs != [] {
      TilesOrder(bs[1..], lo + bs[0].size, hi);
      assert forall b :: b in bs ==> b == bs[0] || b in bs[1..];
    }
  }

  lemma {:induction false} TilesAppend(a: seq<Block>, b: seq<Block>, lo: int, mid: int, hi: int)
    requires Tiles(a, lo, mid) && Tiles(b, mid, hi)
    ensures Tiles(a + b, lo, hi)
  {
    if a == [] {
      assert a + b == b;
    } else {
      TilesAppend(a[1..], b, lo + a[0].size, mid, hi);
      assert (a + b)[1..] == a[1..] + b;
    }
  }

  lemma {:induction false} TilesSplit(a: seq<Block>, b: seq<Block>, lo: int, hi: int) returns (mid: int)
    requires Tiles(a + b, lo, hi)
    ensures Tiles(a, lo, mid) && Tiles(b, mid, hi)
    ensures b != [] ==> mid == b[0].ptr
  {
    if a == [] {
      assert a + b == b;
      mid := lo;
    } else {
      assert (a + b)[1..] == a[1..] + b;
      mid := TilesSplit(a[1..], b, lo + a[0].size, hi);
    }
  }

  /** An address belongs to at most one block. */
  lemma TilesAt(bs: seq<Block>, lo: int, hi: int, i: nat)
    requires Tiles(bs, lo, hi) && i < |bs|
    ensures Tiles(bs[..i], lo, bs[i].ptr) && bs[i].size > 0 && Tiles(bs[i + 1..], bs[i].ptr + bs[i].size, hi)
  {
    assert bs == bs[..i] + bs[i..];
    var mid := TilesSplit(bs[..i], bs[i..], lo, hi);
    assert bs[i..][1..] == bs[i + 1..];
  }

  lemma TilesDisjoint(bs: seq<Block>, lo: int, hi: int, i: nat, j: nat)
    requires Tiles(bs, lo, hi) && i < j < |bs|
    ensures bs[i].ptr + bs[i].size <= bs[j].ptr && bs[i].ptr < bs[j].ptr
  {
    TilesAt(bs, lo, hi, j);
    TilesOrder(bs[..j], lo, bs[j].ptr);
    assert bs[..j][i] in bs[..j];
  }

  /** Live regions lie inside the pool and do not overlap. */
  lemma LiveDisjoint(bs: seq<Block>, total: int, a: Block, b: Block)
    requires Tiles(bs, 0, total) && a in Live(bs) && b in Live(bs) && a != b
    ensures 0 <= a.ptr && a.ptr + a.size <= total
    ensures a.ptr + a.size <= b.ptr || b.ptr + b.size <= a.ptr
  {
    TilesOrder(bs, 0, total);
    var i :| 0 <= i < |bs| && bs[i] == a;
    var j :| 0 <= j < |bs| && bs[j] == b;
    if i < j { TilesDisjoint(bs, 0, total, i, j); } else { TilesDisjoint(bs, 0, total, j, i); }
  }

  // ---- coalescing -------------------------------------------------------------------------

  lemma {:induction false} CoalescedAppend(a: seq<Block>, b: seq<Block>)
    ensures Coalesced(a + b) <==>
              Coalesced(a) && Coalesced(b) && (a != [] && b != [] ==> a[|a| - 1].alloc || b[0].alloc)
  {
    if a == [] {
      assert a + b == b;
    } else if |a| == 1 {
      assert (a + b)[1..] == b;
    } else {
      CoalescedAppend(a[1..], b);
      assert (a + b)[1..] == a[1..] + b;
    }
  }

  // ---- canonical form ---------------------------------------------------------------------

  /** A coalesced tiling is determined by its ends and its live allocations alone. */
  lemma {:induction false} Canonical(a: seq<Block>, b: seq<Block>, lo: int, hi: int)
    requires Tiles(a, lo, hi) && Tiles(b, lo, hi) && Coalesced(a) && Coalesced(b)
    requires Live(a) == Live(b)
    ensures a == b
  {
    TilesOrder(a, lo, hi);
    TilesOrder(b, lo, hi);
    if a != [] && b != [] {
      SameHead(a, b, lo, hi);
      SameHead(b, a, lo, hi);
      assert a[0] == b[0];
      LiveTail(a, lo, hi);
      LiveTail(b, lo, hi);
      Canonical(a[1..], b[1..], lo + a[0].size, hi);
      assert a == [a[0]] + a[1..] && b == [b[0]] + b[1..];
    }
  }

  lemma LiveTail(bs: seq<Block>, lo: int, hi: int)
    requires Tiles(bs, lo, hi) && bs != []
    ensures Live(bs[1..]) == Live(bs) - {bs[0]}
  {
    TilesOrder(bs[1..], lo + bs[0].size, hi);
    assert bs == [bs[0]] + bs[1..];
    assert bs[0] !in bs[1..];
  }

  lemma SameHead(a: seq<Block>, b: seq<Block>, lo: int, hi: int)
    requires a != [] && b != [] && Tiles(a, lo, hi) && Tiles(b, lo, hi) && Coalesced(a) && Coalesced(b)
    requires Live(a) == Live(b)
    ensures a[0].alloc ==> a[0] == b[0]
    ensures !a[0].alloc && !b[0].alloc ==> a[0].size >= b[0].size
  {
    TilesOrder(b[1..], lo + b[0].size, hi);
    assert b == [b[0]] + b[1..];
    if a[0].alloc {
      assert a[0] in Live(b);
    } else if |a| >= 2 {
      var x := a[1];
      assert a[1..][0] == x && x in Live(a);
      assert x in b;
    }
  }

  // ---- placing ----------------------------------------------------------------------------

  /** Takes `r` bytes from the start of block `i`; what is left over stays free. There is no check
      that the block is large enough. */
  function Place(bs: seq<Block>, i: nat, r: int): seq<Block>
    requires i < |bs|
  {
    var b := bs[i];
    if b.size == r then bs[i := b.(alloc := true)]
    else bs[..i] + [Block(b.ptr, r, true), Block(b.ptr + r, b.size - r, false)] + bs[i + 1..]
  }

  lemma PlaceAt(bs: seq<Block>, i: nat, r: int)
    requires i < |bs| && bs[i].size != r
    ensures var bs' := Place(bs, i, r);
      && |bs'| == |bs| + 1
      && bs'[i] == Block(bs[i].ptr, r, true) && bs'[i + 1] == Block(bs[i].ptr + r, bs[i].size - r, false)
      && (forall k :: 0 <= k < i ==> bs'[k] == bs[k])
      && (forall k :: i + 1 < k < |bs'| ==> bs'[k] == bs[k - 1])
  {
  }

  /** Placing keeps the shape exactly when the block is large enough. */
  lemma PlaceShape(bs: seq<Block>, total: int, i: nat, r: int)
    requires Shape(bs, total) && i < |bs| && !bs[i].alloc && r >= 1
    ensures Shape(Place(bs, i, r), total) <==> r <= bs[i].size
  {
    var pre, b, post := bs[..i], bs[i], bs[i + 1..];
    var mid := if b.size == r then [b.(alloc := true)]
               else [Block(b.ptr, r, true), Block(b.ptr + r, b.size - r, false)];
    var bs' := Place(bs, i, r);
    assert bs' == pre + (mid + post);
    TilesAt(bs, 0, total, i);
    assert bs == pre + ([b] + post);
    CoalescedAppend(pre, [b] + post);
    CoalescedAppend([b], post);
    if r <= b.size {
      assert Tiles(mid, b.ptr, b.ptr + b.size);
      TilesAppend(mid, post, b.ptr, b.ptr + b.size, total);
      TilesAppend(pre, mid + post, 0, b.ptr, total);
      CoalescedAppend(mid, post);
      CoalescedAppend(pre, mid + post);
    } else {
      assert bs'[i + 1] == mid[1];
      NotTiled(bs', total, i + 1);
    }
  }

  lemma NotTiled(bs: seq<Block>, total: int, i: nat)
    requires i < |bs| && bs[i].size <= 0
    ensures !Tiles(bs, 0, total)
  {
    if Tiles(bs, 0, total) { TilesAt(bs, 0, total, i); }
  }

  lemma PlaceLive(bs: seq<Block>, total: int, i: nat, r: int)
    requires Tiles(bs, 0, total) && i < |bs| && !bs[i].alloc && 1 <= r <= bs[i].size
    ensures Live(Place(bs, i, r)) == Live(bs) + {Block(bs[i].ptr, r, true)}
    ensures Block(bs[i].ptr, r, true) !in Live(bs)
  {
    var pre, b, post := bs[..i], bs[i], bs[i + 1..];
    assert bs == pre + [b] + post;
    if b.size == r {
      assert Place(bs, i, r) == pre + [b.(alloc := true)] + post;
    }
    forall x | x in Live(bs) ensures x.ptr != b.ptr {
      var j :| 0 <= j < |bs| && bs[j] == x;
      if i < j { TilesDisjoint(bs, 0, total, i, j); } else { TilesDisjoint(bs, 0, total, j, i); }
    }
  }

  // ---- freeing ----------------------------------------------------------------------------

  /** The first block of the free run that block `i` belongs to once it is free. */
  function RunStart(bs: seq<Block>, i: nat): (lo: nat)
    requires i < |bs|
    ensures lo <= i
    ensures forall k :: lo <= k < i ==> !bs[k].alloc
    ensures lo == 0 || bs[lo - 1].alloc
  {
    if i > 0 && !bs[i - 1].alloc then RunStart(bs, i - 1) else i
  }

  /** The end of the free run that block `i` belongs to once it is free. */
  function RunEnd(bs: seq<Block>, i: nat): (hi: nat)
    requires i < |bs|
    ensures i < hi <= |bs|
    ensures forall k :: i < k < hi ==> !bs[k].alloc
    ensures hi == |bs| || bs[hi].alloc
    decreases |bs| - i
  {
    if i + 1 < |bs| && !bs[i + 1].alloc then RunEnd(bs, i + 1) else i + 1
  }

  function Sizes(bs: seq<Block>): int {
    if bs == [] then 0 else Sizes(bs[..|bs| - 1]) + bs[|bs| - 1].size
  }

  /** The one free block that takes the place of a run. */
  function Joined(run: seq<Block>): Block
    requires run != []
  {
    Block(run[0].ptr, Sizes(run), false)
  }

  /** Block `k` after it has taken over the bytes of the block behind it. */
  function AbsorbNext(bs: seq<Block>, k: nat): seq<Block>
    requires k + 1 < |bs|
  {
    bs[..k] + [bs[k].(size := bs[k].size + bs[k + 1].size)] + bs[k + 2..]
  }

  lemma AbsorbAt(bs: seq<Block>, k: nat)
    requires k + 1 < |bs|
    ensures var bs' := AbsorbNext(bs, k);
      && |bs'| == |bs| - 1
      && bs'[k] == bs[k].(size := bs[k].size + bs[k + 1].size)
      && (forall i :: 0 <= i < k ==> bs'[i] == bs[i])
      && (forall i :: k < i < |bs'| ==> bs'[i] == bs[i + 1])
  {
  }

  /** The blocks from `lo` up to `hi` as one free block. */
  function Merged(bs: seq<Block>, lo: nat, hi: nat): seq<Block>
    requires lo < hi <= |bs|
  {
    bs[..lo] + ([Joined(bs[lo..hi])] + bs[hi..])
  }

  /** Absorbing one block after another builds up the merged run. */
  lemma MergedStep(bs: seq<Block>, lo: nat, hi: nat)
    requires lo < hi < |bs|
    ensures AbsorbNext(Merged(bs, lo, hi), lo) == Merged(bs, lo, hi + 1)
  {
    var run, more := bs[lo..hi], bs[lo..hi + 1];
    assert more == run + [bs[hi]];
    assert Sizes(more) == Sizes(run) + bs[hi].size by { assert more[..|more| - 1] == run; }
    assert Merged(bs, lo, hi)[lo + 2..] == bs[hi + 1..];
  }

  lemma MergedOne(bs: seq<Block>, lo: nat)
    requires lo < |bs| && !bs[lo].alloc
    ensures Merged(bs, lo, lo + 1) == bs
  {
    assert Sizes([bs[lo]]) == bs[lo].size by { assert [bs[lo]][..0] == []; }
    assert bs[lo..lo + 1] == [bs[lo]];
  }

  lemma MergedNext(bs: seq<Block>, lo: nat, hi: nat)
    requires lo < hi <= |bs|
    ensures var m := Merged(bs, lo, hi);
      && |m| == |bs| - (hi - lo - 1) && !m[lo].alloc
      && (lo + 1 < |m| <==> hi < |bs|)
      && (hi < |bs| ==> m[lo + 1] == bs[hi])
  {
  }

  /** Frees block `i` and joins the run it is part of into one block. */
  function Release(bs: seq<Block>, i: nat): seq<Block>
    requires i < |bs|
  {
    Merged(bs, RunStart(bs, i), RunEnd(bs, i))
  }

  lemma {:induction false} TilesSizes(bs: seq<Block>, lo: int, hi: int)
    requires Tiles(bs, lo, hi)
    ensures Sizes(bs) == hi - lo
  {
    if bs != [] {
      var n := |bs| - 1;
      TilesAt(bs, lo, hi, n);
      TilesSizes(bs[..n], lo, bs[n].ptr);
    }
  }

  lemma JoinTiles(pre: seq<Block>, run: seq<Block>, post: seq<Block>, total: int)
    requires Tiles(pre + (run + post), 0, total) && run != []
    ensures Tiles(pre + ([Joined(run)] + post), 0, total)
  {
    var m := TilesSplit(pre, run + post, 0, total);
    var n := TilesSplit(run, post, m, total);
    TilesSizes(run, m, n);
    TilesOrder(run, m, n);
    TilesAppend([Joined(run)], post, m, n, total);
    TilesAppend(pre, [Joined(run)] + post, 0, m, total);
  }

  lemma JoinCoalesced(pre: seq<Block>, run: seq<Block>, post: seq<Block>)
    requires Coalesced(pre + (run + post)) && run != []
    requires (pre != [] ==> pre[|pre| - 1].alloc) && (post != [] ==> post[0].alloc)
    ensures Coalesced(pre + ([Joined(run)] + post))
  {
    CoalescedAppend(pre, run + post);
    CoalescedAppend(run, post);
    CoalescedAppend([Joined(run)], post);
    CoalescedAppend(pre, [Joined(run)] + post);
  }

  lemma LiveAppend(a: seq<Block>, b: seq<Block>)
    ensures Live(a + b) == Live(a) + Live(b)
  {
  }

  lemma JoinLive(pre: seq<Block>, run: seq<Block>, post: seq<Block>, b: Block)
    requires b in run && (forall x :: x in run && x != b ==> !x.alloc) && b !in pre && b !in post
    ensures Live(pre + ([Joined(run)] + post)) == Live(pre + (run + post)) - {b}
  {
    LiveAppend(pre, run + post);
    LiveAppend(run, post);
    LiveAppend(pre, [Joined(run)] + post);
    LiveAppend([Joined(run)], post);
    assert Live([Joined(run)]) == {} && Live(run) <= {b};
  }

  lemma Cut(bs: seq<Block>, lo: nat, hi: nat)
    requires lo <= hi <= |bs|
    ensures bs == bs[..lo] + (bs[lo..hi] + bs[hi..])
  {
  }

  lemma ReleaseShape(bs: seq<Block>, total: int, i: nat)
    requires Shape(bs, total) && i < |bs|
    ensures Shape(Release(bs, i), total)
  {
    hide Joined, RunStart, RunEnd;
    var lo, hi := RunStart(bs, i), RunEnd(bs, i);
    Cut(bs, lo, hi);
    JoinTiles(bs[..lo], bs[lo..hi], bs[hi..], total);
    JoinCoalesced(bs[..lo], bs[lo..hi], bs[hi..]);
  }

  lemma RunFree(bs: seq<Block>, i: nat, lo: nat, hi: nat)
    requires lo <= i < hi <= |bs| && forall k :: lo <= k < hi && k != i ==> !bs[k].alloc
    ensures bs[i] in bs[lo..hi] && forall x :: x in bs[lo..hi] && x != bs[i] ==> !x.alloc
  {
    assert bs[lo..hi][i - lo] == bs[i];
  }

  lemma OnlyOnce(bs: seq<Block>, total: int, i: nat, lo: nat, hi: nat)
    requires Tiles(bs, 0, total) && lo <= i < hi <= |bs|
    ensures bs[i] !in bs[..lo] && bs[i] !in bs[hi..]
  {
    forall k | 0 <= k < |bs| && k != i ensures bs[k] != bs[i] {
      if k < i { TilesDisjoint(bs, 0, total, k, i); } else { TilesDisjoint(bs, 0, total, i, k); }
    }
  }

  lemma ReleaseLive(bs: seq<Block>, total: int, i: nat)
    requires Tiles(bs, 0, total) && i < |bs|
    ensures Live(Release(bs, i)) == Live(bs) - {bs[i]}
  {
    hide Joined, RunStart, RunEnd, Tiles, Live;
    var lo, hi := RunStart(bs, i), RunEnd(bs, i);
    RunFree(bs, i, lo, hi);
    OnlyOnce(bs, total, i, lo, hi);
    Cut(bs, lo, hi);
    JoinLive(bs[..lo], bs[lo..hi], bs[hi..], bs[i]);
  }

  /** Where a free run begins and ends does not depend on the flag of the block it grows from. */
  lemma {:induction false} RunStartIs(bs: seq<Block>, i: nat, lo: nat)
    requires lo <= i < |bs| && (forall k :: lo <= k < i ==> !bs[k].alloc) && (lo == 0 || bs[lo - 1].alloc)
    ensures RunStart(bs, i) == lo
  {
    if lo < i { RunStartIs(bs, i - 1, lo); }
  }

  lemma {:induction false} RunEndIs(bs: seq<Block>, i: nat, hi: nat)
    requires i < hi <= |bs| && (forall k :: i < k < hi ==> !bs[k].alloc) && (hi == |bs| || bs[hi].alloc)
    ensures RunEnd(bs, i) == hi
    decreases |bs| - i
  {
    if i + 1 < hi { RunEndIs(bs, i + 1, hi); }
  }

  lemma {:induction false} SizesFlag(bs: seq<Block>, i: nat, flag: bool)
    requires i < |bs|
    ensures Sizes(bs[i := bs[i].(alloc := flag)]) == Sizes(bs)
  {
    var n := |bs| - 1;
    if i == n {
      assert bs[i := bs[i].(alloc := flag)][..n] == bs[..n];
    } else {
      SizesFlag(bs[..n], i, flag);
      assert bs[i := bs[i].(alloc := flag)][..n] == bs[..n][i := bs[i].(alloc := flag)];
    }
  }

  lemma ReleaseFlag(bs: seq<Block>, i: nat, flag: bool)
    requires i < |bs|
    ensures var bs' := bs[i := bs[i].(alloc := flag)];
      && RunStart(bs', i) == RunStart(bs, i) && RunEnd(bs', i) == RunEnd(bs, i)
      && Release(bs', i) == Release(bs, i)
  {
    var bs' := bs[i := bs[i].(alloc := flag)];
    var lo, hi := RunStart(bs, i), RunEnd(bs, i);
    RunStartIs(bs', i, lo);
    RunEndIs(bs', i, hi);
    SizesFlag(bs[lo..hi], i - lo, flag);
    assert bs'[lo..hi] == bs[lo..hi][i - lo := bs[i].(alloc := flag)];
    assert bs'[..lo] == bs[..lo] && bs'[hi..] == bs[hi..];
  }

  /** A run that starts where `i`'s run starts and stops before a block in use is `i`'s run. */
  lemma RunReaches(bs: seq<Block>, i: nat, hi: nat)
    requires i < |bs| && RunStart(bs, i) < hi <= |bs| && !bs[i].alloc
    requires (forall k :: RunStart(bs, i) <= k < hi ==> !bs[k].alloc) && (hi == |bs| || bs[hi].alloc)
    ensures RunEnd(bs, i) == hi
  {
    RunEndIs(bs, i, hi);
  }
}
