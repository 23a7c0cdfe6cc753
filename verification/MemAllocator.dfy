/**
 The allocator itself: a doubly linked list of nodes on the heap, split and merged in place, proved
 to do to its list of blocks what the operations on values say.
 */
module MemAllocator {
  import opened Sequences
  import opened MemBlocks
  import opened MemTheorems

  class Node {
    var prev: Node?
    var next: Node?
    var size: int
    var alloc: bool
    var ptr: int

    constructor (ptr: int, size: int)
      ensures prev == null && next == null && this.size == size && !alloc && this.ptr == ptr
    {
      prev, next := null, null;
      this.size := size;
      alloc := false;
      this.ptr := ptr;
    }
  }

  class Allocator {
    var strategy: Strategy
    var poolSize: int
    var head: Node
    var cursor: Node
    ghost var nodes: seq<Node>   // the list, from head on
    ghost var heap: Heap         // the blocks it stands for, and where the cursor is

    /** Node `i` is linked to its neighbours. */
    ghost predicate LinkAt(i: nat)
      requires i < |nodes|
      reads this, nodes
    {
      && nodes[i].prev == (if i > 0 then nodes[i - 1] else null)
      && nodes[i].next == (if i + 1 < |nodes| then nodes[i + 1] else null)
    }

    ghost predicate Chain()
      reads this, nodes
    {
      && 0 < |nodes| && head == nodes[0]
      && Distinct(nodes)
      && (forall i :: 0 <= i < |nodes| ==> LinkAt(i))
    }

    ghost predicate Linked()
      reads this, nodes
    {
      && Chain()
      && |heap.blocks| == |nodes|
      && heap.cursor < |nodes| && cursor == nodes[heap.cursor]
      && (!strategy.Next? ==> heap.cursor == 0)
      && (forall i :: 0 <= i < |nodes| ==> heap.blocks[i] == BlockOf(nodes[i]))
    }

    /** Changes to sizes and flags leave the chain alone. */
    twostate lemma ChainKept()
      requires old(Chain()) && nodes == old(nodes) && head == old(head)
      requires forall i :: 0 <= i < |nodes| ==>
                 nodes[i].prev == old(nodes[i].prev) && nodes[i].next == old(nodes[i].next)
      ensures Chain()
    {
      forall i | 0 <= i < |nodes| ensures LinkAt(i) {
        assert old(LinkAt(i));
      }
    }

    static function BlockOf(n: Node): Block
      reads n
    {
      Block(n.ptr, n.size, n.alloc)
    }

    /** `initmem`: one free block that is the whole pool. */
    constructor (strategy: Strategy, size: int)
      ensures Linked() && heap == Initial(size)
      ensures this.strategy == strategy && poolSize == size && forall n :: n in nodes ==> fresh(n)
    {
      var n := new Node(0, size);
      this.strategy, poolSize := strategy, size;
      head, cursor := n, n;
      nodes, heap := [n], Initial(size);
    }

    /** Calling `initmem` again drops the old list. */
    method InitMem(strategy: Strategy, size: int)
      modifies this
      ensures Linked() && heap == Initial(size)
      ensures this.strategy == strategy && poolSize == size && forall n :: n in nodes ==> fresh(n)
    {
      var n := new Node(0, size);
      this.strategy, poolSize := strategy, size;
      head, cursor := n, n;
      nodes, heap := [n], Initial(size);
    }

    // ---- searching -------------------------------------------------------------------------

    /** The node after node `i`, or null at the end. */
    ghost function NodeOrNull(i: nat): Node?
      reads this
    {
      if i < |nodes| then nodes[i] else null
    }

    method FindFirst(r: int) returns (n: Node?, ghost at: nat)
      requires Linked() && strategy.First?
      ensures n != null ==> at < |nodes| && n == nodes[at] && Chosen(First, heap, r, at)
      ensures n == null ==> forall i: nat :: !Chosen(First, heap, r, i)
    {
      n, at := head, 0;
      while n != null
        invariant at <= |nodes| && n == NodeOrNull(at)
        invariant forall j :: 0 <= j < at ==> !Fits(heap.blocks[j], r)
        decreases |nodes| - at
      {
        assert LinkAt(at);
        if n.size >= r && !n.alloc { break; }
        n, at := n.next, at + 1;
      }
    }

    method FindBest(r: int) returns (n: Node?, ghost at: nat)
      requires Linked() && strategy.Best?
      ensures n != null ==> at < |nodes| && n == nodes[at] && Chosen(Best, heap, r, at)
      ensures n == null ==> forall i: nat :: !Chosen(Best, heap, r, i)
    {
      var tmp: Node? := head;
      ghost var k := 0;
      n, at := null, 0;
      while tmp != null
        invariant k <= |nodes| && tmp == NodeOrNull(k)
        invariant n == null ==> forall j :: 0 <= j < k ==> !Fits(heap.blocks[j], r)
        invariant n != null ==> at < k && n == nodes[at] && Fits(heap.blocks[at], r)
        invariant n != null ==> forall j :: 0 <= j < k && Fits(heap.blocks[j], r) ==>
                    heap.blocks[at].size < heap.blocks[j].size || (heap.blocks[at].size == heap.blocks[j].size && at <= j)
        decreases |nodes| - k
      {
        assert LinkAt(k);
        assert n != null ==> LinkAt(at);
        if !tmp.alloc && tmp.size >= r && (n == null || tmp.size < n.size) {
          n, at := tmp, k;
        }
        tmp, k := tmp.next, k + 1;
      }
    }

    method FindWorst(r: int) returns (n: Node?, ghost at: nat)
      requires Linked() && strategy.Worst?
      ensures n != null ==> at < |nodes| && n == nodes[at] && Chosen(Worst, heap, r, at)
      ensures n == null ==> forall i: nat :: !Chosen(Worst, heap, r, i)
    {
      var tmp: Node? := head;
      ghost var k := 0;
      n, at := null, 0;
      while tmp != null
        invariant k <= |nodes| && tmp == NodeOrNull(k)
        invariant n == null ==> forall j :: 0 <= j < k ==> !Fits(heap.blocks[j], r)
        invariant n != null ==> at < k && n == nodes[at] && Fits(heap.blocks[at], r)
        invariant n != null ==> forall j :: 0 <= j < k && Fits(heap.blocks[j], r) ==>
                    heap.blocks[at].size > heap.blocks[j].size || (heap.blocks[at].size == heap.blocks[j].size && at <= j)
        decreases |nodes| - k
      {
        assert LinkAt(k);
        assert n != null ==> LinkAt(at);
        if !tmp.alloc && tmp.size >= r && (n == null || tmp.size > n.size) {
          n, at := tmp, k;
        }
        tmp, k := tmp.next, k + 1;
      }
    }

    /** Next fit moves the cursor to the first free block. It does not stop at the end of the list,
        so there has to be one. */
    method FindNext(r: int) returns (n: Node, ghost at: nat)
      requires Linked() && strategy.Next? && exists i: nat :: Chosen(Next, heap, r, i)
      modifies this`cursor, this`heap
      ensures Linked() && heap == Heap(old(heap.blocks), at)
      ensures at < |nodes| && n == nodes[at] && Chosen(Next, old(heap), r, at)
    {
      ghost var goal: nat :| Chosen(Next, heap, r, goal);
      while cursor.alloc
        invariant Linked() && heap.blocks == old(heap.blocks)
        invariant old(heap.cursor) <= heap.cursor <= goal
        invariant forall j :: old(heap.cursor) <= j < heap.cursor ==> heap.blocks[j].alloc
        decreases goal - heap.cursor
      {
        assert LinkAt(heap.cursor);
        ghost var k := heap.cursor + 1;
        cursor := cursor.next;
        heap := Heap(heap.blocks, k);
        assert forall i :: 0 <= i < |nodes| ==> old(LinkAt(i)) ==> LinkAt(i);
      }
      assert LinkAt(heap.cursor);
      n, at := cursor, heap.cursor;
    }

    // ---- allocating ------------------------------------------------------------------------

    /** Allocates node `n`, splitting off what it does not need into a new node behind it. */
    method Carve(n: Node, ghost at: nat, r: int)
      requires Linked() && at < |nodes| && n == nodes[at] && heap.cursor <= at
      modifies this`nodes, this`heap, nodes
      ensures Linked() && heap == Heap(Place(old(heap.blocks), at, r), old(heap.cursor))
      ensures forall x :: x in nodes ==> x in old(nodes) || fresh(x)
      ensures at < |nodes| && n == nodes[at] && n.alloc && n.ptr == old(n.ptr)
    {
      if n.size == r {
        n.alloc := true;
        heap := Heap(Place(heap.blocks, at, r), heap.cursor);
        ChainKept();
      } else {
        Split(n, at, r);
      }
    }

    method Split(n: Node, ghost at: nat, r: int)
      requires Linked() && at < |nodes| && n == nodes[at] && heap.cursor <= at && n.size != r
      modifies this`nodes, this`heap, nodes
      ensures Linked() && heap == Heap(Place(old(heap.blocks), at, r), old(heap.cursor))
      ensures nodes[..at + 1] == old(nodes[..at + 1]) && nodes[at + 2..] == old(nodes[at + 1..])
      ensures at + 1 < |nodes| && fresh(nodes[at + 1])
    {
      hide Place, Distinct, LinkAt;
      ghost var olds := nodes;
      var rest := new Node(n.ptr + r, n.size - r);
      SpliceAfter(n, at, rest);
      forall i | 0 <= i <= at ensures BlockOf(nodes[i]) == heap.blocks[i] {
        SplitNode(olds, at, rest, nodes, i);
      }
      forall i | at + 1 < i < |nodes| ensures BlockOf(nodes[i]) == heap.blocks[i - 1] {
        SplitNode(olds, at, rest, nodes, i);
      }
      Shrink(n, at, r);
    }

    /** The node behind `n` has what `n` does not need; `n` gives it up. */
    method Shrink(n: Node, ghost at: nat, r: int)
      requires Chain() && |heap.blocks| + 1 == |nodes| && at < |heap.blocks| && n == nodes[at] && n.size != r
      requires heap.cursor <= at && cursor == nodes[heap.cursor] && (!strategy.Next? ==> heap.cursor == 0)
      requires BlockOf(nodes[at + 1]) == Block(n.ptr + r, n.size - r, false)
      requires forall i :: 0 <= i <= at ==> BlockOf(nodes[i]) == heap.blocks[i]
      requires forall i :: at + 1 < i < |nodes| ==> BlockOf(nodes[i]) == heap.blocks[i - 1]
      modifies n`size, n`alloc, this`heap
      ensures Linked() && heap == Heap(Place(old(heap.blocks), at, r), old(heap.cursor))
    {
      hide Place, LinkAt, Distinct;
      assert BlockOf(nodes[at]) == heap.blocks[at];
      PlaceAt(heap.blocks, at, r);
      n.alloc := true;
      n.size := r;
      forall i | 0 <= i < |nodes| && i != at ensures nodes[i] != n {
        DistinctAt(nodes, i, at);
      }
      heap := Heap(Place(heap.blocks, at, r), heap.cursor);
      ChainKept();
    }

    static lemma DistinctAt(ns: seq<Node>, i: nat, j: nat)
      requires Distinct(ns) && i < |ns| && j < |ns| && i != j
      ensures ns[i] != ns[j]
    {
    }

    static lemma SplitNode(olds: seq<Node>, at: nat, m: Node, news: seq<Node>, i: nat)
      requires at < |olds| && news == olds[..at + 1] + [m] + olds[at + 1..] && i < |news|
      requires Distinct(news)
      ensures i <= at ==> news[i] == olds[i]
      ensures i == at + 1 ==> news[i] == m
      ensures i > at + 1 ==> news[i] == olds[i - 1]
      ensures i != at ==> news[i] != news[at]
    {
    }

    /** Links the new node `m` in behind `n`. */
    method SpliceAfter(n: Node, ghost at: nat, m: Node)
      requires Chain() && at < |nodes| && n == nodes[at] && m !in nodes
      modifies this`nodes, nodes, m
      ensures Chain() && nodes == old(nodes[..at + 1]) + [m] + old(nodes[at + 1..])
      ensures forall x: Node {:trigger x.size} {:trigger x.alloc} {:trigger x.ptr} :: x in nodes ==>
                x.size == old(x.size) && x.alloc == old(x.alloc) && x.ptr == old(x.ptr)
    {
      assert LinkAt(at);
      assert at + 1 < |nodes| ==> LinkAt(at + 1);
      m.next := n.next;
      if m.next != null {
        m.next.prev := m;
      }
      m.prev := n;
      n.next := m;
      nodes := nodes[..at + 1] + [m] + nodes[at + 1..];
      forall i | 0 <= i < |nodes| ensures LinkAt(i) {
        assert i > at + 1 ==> old(LinkAt(i - 1));
        assert i <= at ==> old(LinkAt(i));
      }
    }

    /** Moves the cursor on from the block just allocated, going round the list. */
    method AdvanceCursor(n: Node, ghost at: nat)
      requires Linked() && strategy.Next? && at < |nodes| && n == nodes[at] && n.alloc
      modifies this`cursor, this`heap
      ensures Linked() && heap.blocks == old(heap.blocks) && CursorAfter(heap.blocks, at, heap.cursor)
    {
      var nx := n.next;
      ghost var k: nat := at + 1;
      ghost var wrapped := false;
      assert LinkAt(at);
      while nx == null || (nx.alloc && nx != n)
        invariant if wrapped then k <= at && nx == nodes[k] else at < k <= |nodes| && nx == NodeOrNull(k)
        invariant forall j :: at < j < |nodes| && (wrapped || j < k) ==> heap.blocks[j].alloc
        invariant wrapped ==> forall j :: 0 <= j < k ==> heap.blocks[j].alloc
        decreases if wrapped then at - k else |nodes| + 1 + at + (|nodes| - k)
      {
        if nx == null {
          nx := head;
          k, wrapped := 0, true;
        } else {
          assert LinkAt(k);
          nx := nx.next;
          k := k + 1;
        }
      }
      label found:
      if nx == n {
        cursor := head;
        heap := Heap(heap.blocks, 0);
      } else {
        cursor := nx;
        heap := Heap(heap.blocks, k);
      }
      ChainKept@found();
    }

    /** `mymalloc`. Next fit runs off the list when no block is free. */
    method Malloc(requested: int) returns (res: Option<int>)
      requires Linked() && requested >= 1
      requires strategy.Next? ==> exists i: nat :: Chosen(Next, heap, requested, i)
      modifies this`nodes, this`heap, this`cursor, nodes
      ensures Linked() && Mallocs(strategy, old(heap), requested, heap, res)
      ensures forall x :: x in nodes ==> x in old(nodes) || fresh(x)
    {
      hide Chosen, Place, CursorAfter, LinkAt, Distinct;
      var toUse: Node?;
      ghost var at: nat;
      match strategy {
        case First => toUse, at := FindFirst(requested);
        case Best => toUse, at := FindBest(requested);
        case Worst => toUse, at := FindWorst(requested);
        case Next => toUse, at := FindNext(requested);
      }
      if toUse == null {
        return None;
      }
      Carve(toUse, at, requested);
      if strategy == Next {
        AdvanceCursor(toUse, at);
      }
      res := Some(toUse.ptr);
      assert Takes(strategy, old(heap), requested, at, heap);
    }

    // ---- freeing ---------------------------------------------------------------------------

    /** Takes the node behind `n` out of the chain. */
    method Unlink(n: Node, ghost at: nat)
      requires Chain() && at + 1 < |nodes| && n == nodes[at]
      modifies this`nodes, nodes
      ensures Chain() && nodes == old(nodes[..at + 1]) + old(nodes[at + 2..])
      ensures forall x: Node {:trigger x.size} {:trigger x.alloc} {:trigger x.ptr} :: x in nodes ==>
                x.size == old(x.size) && x.alloc == old(x.alloc) && x.ptr == old(x.ptr)
    {
      assert LinkAt(at) && LinkAt(at + 1);
      assert at + 2 < |nodes| ==> LinkAt(at + 2);
      var tmp := n.next;
      n.next := tmp.next;
      if tmp.next != null {
        tmp.next.prev := n;
      }
      nodes := nodes[..at + 1] + nodes[at + 2..];
      forall i | 0 <= i < |nodes| ensures LinkAt(i) {
        assert i > at ==> old(LinkAt(i + 1));
        assert i <= at ==> old(LinkAt(i));
      }
    }

    static lemma JoinNode(olds: seq<Node>, at: nat, news: seq<Node>, i: nat)
      requires at + 1 < |olds| && news == olds[..at + 1] + olds[at + 2..] && i < |news|
      requires Distinct(olds)
      ensures i <= at ==> news[i] == olds[i]
      ensures i > at ==> news[i] == olds[i + 1]
      ensures i != at ==> news[i] != olds[at]
    {
    }

    /** Takes the node behind `n` out of the list and gives its bytes to `n`. */
    method Absorb(n: Node, ghost at: nat)
      requires Linked() && at + 1 < |nodes| && n == nodes[at]
      modifies this`nodes, this`heap, this`cursor, nodes
      ensures Linked() && nodes == old(nodes[..at + 1]) + old(nodes[at + 2..])
      ensures heap.blocks == old(AbsorbNext(heap.blocks, at))
      ensures heap.cursor == if old(heap.cursor) <= at then old(heap.cursor) else old(heap.cursor) - 1
    {
      hide AbsorbNext, LinkAt, Distinct;
      ghost var olds, c := nodes, heap.cursor;
      NextIs(at);
      NodesDiffer(nodes, at + 1);
      if cursor == n.next {
        cursor := n;
      }
      ChainKept();
      label moved:
      GiveBytes(n, at);
      AbsorbAt(heap.blocks, at);
      JoinNode(olds, at, nodes, if c <= at then c else c - 1);
      label given:
      heap := Heap(AbsorbNext(heap.blocks, at), if c <= at then c else c - 1);
      ChainKept@given();
    }

    method GiveBytes(n: Node, ghost at: nat)
      requires Chain() && at + 1 < |nodes| == |heap.blocks| && n == nodes[at]
      requires forall i :: 0 <= i < |nodes| ==> heap.blocks[i] == BlockOf(nodes[i])
      modifies this`nodes, nodes
      ensures Chain() && nodes == old(nodes[..at + 1]) + old(nodes[at + 2..])
      ensures forall i :: 0 <= i < |nodes| ==> BlockOf(nodes[i]) == AbsorbNext(heap.blocks, at)[i]
    {
      hide AbsorbNext, LinkAt, Distinct;
      ghost var olds := nodes;
      NextIs(at);
      var tmp := n.next;
      n.size := n.size + tmp.size;
      ChainKept();
      Unlink(n, at);
      AbsorbAt(heap.blocks, at);
      forall i | 0 <= i < |nodes| ensures BlockOf(nodes[i]) == AbsorbNext(heap.blocks, at)[i] {
        JoinNode(olds, at, nodes, i);
      }
    }

    lemma NextIs(i: nat)
      requires Chain() && i < |nodes|
      ensures nodes[i].next == (if i + 1 < |nodes| then nodes[i + 1] else null)
      ensures nodes[i].prev == (if i > 0 then nodes[i - 1] else null)
    {
      assert LinkAt(i);
    }

    /** The first node of the free run that ends at `n`. */
    method RunHead(n: Node, ghost at: nat) returns (block: Node, ghost lo: nat)
      requires Linked() && at < |nodes| && n == nodes[at] && !n.alloc
      ensures block == nodes[RunStart(heap.blocks, at)] && lo == RunStart(heap.blocks, at)
    {
      block, lo := n, at;
      NextIs(lo);
      while block.prev != null && !block.prev.alloc
        invariant lo <= at && block == nodes[lo]
        invariant block.prev == if lo > 0 then nodes[lo - 1] else null
        invariant forall k :: lo <= k <= at ==> !heap.blocks[k].alloc
        decreases lo
      {
        block := block.prev;
        lo := lo - 1;
        NextIs(lo);
      }
      RunStartIs(heap.blocks, at, lo);
    }

    /** `merge_blocks`: walks back to the start of the free run around `n` and absorbs the run. */
    method MergeBlocks(n: Node, ghost at: nat)
      requires Linked() && at < |nodes| && n == nodes[at]
      modifies this`nodes, this`heap, this`cursor, nodes
      ensures Linked()
      ensures heap == if old(n.alloc) then old(heap) else old(Heap(Release(heap.blocks, at),
                MovedCursor(heap.cursor, RunStart(heap.blocks, at), RunEnd(heap.blocks, at))))
      ensures forall x :: x in nodes ==> x in old(nodes)
    {
      if n.alloc {
        return;
      }
      hide LinkAt, Distinct, RunStart, RunEnd, Merged, MovedCursor;
      var block;
      ghost var lo, hi;
      block, lo := RunHead(n, at);
      hi := AbsorbRun(block, lo);
      RunReaches(old(heap.blocks), at, hi);
    }

    /** Absorbs free blocks into `block` until the next one is in use or the list ends. */
    method AbsorbRun(block: Node, ghost lo: nat) returns (ghost hi: nat)
      requires Linked() && lo < |nodes| && block == nodes[lo] && !block.alloc
      modifies this`nodes, this`heap, this`cursor, nodes
      ensures Linked() && lo < hi <= old(|heap.blocks|)
      ensures heap == old(Heap(Merged(heap.blocks, lo, hi), MovedCursor(heap.cursor, lo, hi)))
      ensures forall k :: lo <= k < hi ==> !old(heap.blocks)[k].alloc
      ensures hi == old(|heap.blocks|) || old(heap.blocks)[hi].alloc
      ensures forall x :: x in nodes ==> x in old(nodes)
    {
      hide Chain, LinkAt, Distinct, AbsorbNext, Joined, Merged, MovedCursor;
      ghost var bs, c := heap.blocks, heap.cursor;
      hi := lo + 1;
      MergedOne(bs, lo);
      CursorOne(c, lo);
      NextIs(lo);
      while block.next != null && !block.next.alloc
        invariant Linked() && lo < |nodes| && block == nodes[lo]
        invariant lo < hi <= |bs| && heap == Heap(Merged(bs, lo, hi), MovedCursor(c, lo, hi))
        invariant forall k :: lo <= k < hi ==> !bs[k].alloc
        invariant block.next == if lo + 1 < |nodes| then nodes[lo + 1] else null
        invariant forall i :: 0 <= i < |nodes| ==> nodes[i] in old(nodes)
        decreases |bs| - hi
      {
        MergedNext(bs, lo, hi);
        MergedStep(bs, lo, hi);
        CursorStep(c, lo, hi);
        Absorb(block, lo);
        hi := hi + 1;
        NextIs(lo);
      }
      MergedNext(bs, lo, hi);
    }

    /** The first node that starts at `p`. */
    method FindPtr(p: int) returns (n: Node?, ghost at: nat)
      requires Linked()
      ensures n == NodeOrNull(Find(heap.blocks, p)) && at == Find(heap.blocks, p)
    {
      n, at := head, 0;
      while n != null
        invariant at <= |nodes| && n == NodeOrNull(at)
        invariant forall j :: 0 <= j < at ==> heap.blocks[j].ptr != p
        decreases |nodes| - at
      {
        NextIs(at);
        if n.ptr == p { break; }
        n, at := n.next, at + 1;
      }
      FindIs(heap.blocks, p, at);
    }

    /** `myfree`: frees the block that starts at `p`, if one does. */
    method Free(p: int)
      requires Linked()
      modifies this`nodes, this`heap, this`cursor, nodes
      ensures Linked() && heap == Freed(old(heap), p)
      ensures forall x :: x in nodes ==> x in old(nodes)
    {
      hide LinkAt, Distinct, Release, RunStart, RunEnd, Find;
      var tmp;
      ghost var k;
      tmp, k := FindPtr(p);
      if tmp != null {
        ReleaseFlag(heap.blocks, k, false);
        tmp.alloc := false;
        heap := Heap(heap.blocks[k := heap.blocks[k].(alloc := false)], heap.cursor);
        ChainKept();
        NodesDiffer(nodes, k);
        MergeBlocks(tmp, k);
      }
    }

    static lemma NodesDiffer(ns: seq<Node>, k: nat)
      requires Distinct(ns) && k < |ns|
      ensures forall i :: 0 <= i < |ns| && i != k ==> ns[i] != ns[k]
    {
    }

    // ---- statistics ------------------------------------------------------------------------

    method MemHoles() returns (holes: nat)
      requires Linked()
      ensures holes == CountHoles(heap.blocks)
    {
      holes := 0;
      var tmp: Node? := head;
      ghost var k: nat := 0;
      while tmp != null
        invariant k <= |nodes| && tmp == NodeOrNull(k)
        invariant holes == CountHoles(heap.blocks[..k])
        decreases |nodes| - k
      {
        NextIs(k);
        assert heap.blocks[..k + 1][..k] == heap.blocks[..k];
        if !tmp.alloc { holes := holes + 1; }
        tmp, k := tmp.next, k + 1;
      }
      assert heap.blocks[..k] == heap.blocks;
    }

    method MemAllocated() returns (bytes: int)
      requires Linked()
      ensures bytes == AllocatedBytes(heap.blocks)
    {
      bytes := 0;
      var tmp: Node? := head;
      ghost var k: nat := 0;
      while tmp != null
        invariant k <= |nodes| && tmp == NodeOrNull(k)
        invariant bytes == AllocatedBytes(heap.blocks[..k])
        decreases |nodes| - k
      {
        NextIs(k);
        assert heap.blocks[..k + 1][..k] == heap.blocks[..k];
        if tmp.alloc { bytes := bytes + tmp.size; }
        tmp, k := tmp.next, k + 1;
      }
      assert heap.blocks[..k] == heap.blocks;
    }

    method MemFree() returns (bytes: int)
      requires Linked()
      ensures bytes == FreeBytes(heap.blocks)
    {
      bytes := 0;
      var tmp: Node? := head;
      ghost var k: nat := 0;
      while tmp != null
        invariant k <= |nodes| && tmp == NodeOrNull(k)
        invariant bytes == FreeBytes(heap.blocks[..k])
        decreases |nodes| - k
      {
        NextIs(k);
        assert heap.blocks[..k + 1][..k] == heap.blocks[..k];
        if !tmp.alloc { bytes := bytes + tmp.size; }
        tmp, k := tmp.next, k + 1;
      }
      assert heap.blocks[..k] == heap.blocks;
    }

    method MemLargestFree() returns (bytes: int)
      requires Linked()
      ensures bytes == LargestFree(heap.blocks)
    {
      bytes := 0;
      var tmp: Node? := head;
      ghost var k: nat := 0;
      while tmp != null
        invariant k <= |nodes| && tmp == NodeOrNull(k)
        invariant bytes == LargestFree(heap.blocks[..k])
        decreases |nodes| - k
      {
        NextIs(k);
        assert heap.blocks[..k + 1][..k] == heap.blocks[..k];
        if !tmp.alloc && tmp.size > bytes { bytes := tmp.size; }
        tmp, k := tmp.next, k + 1;
      }
      assert heap.blocks[..k] == heap.blocks;
    }

    method MemSmallFree(size: int) returns (count: nat)
      requires Linked()
      ensures count == CountSmall(heap.blocks, size)
    {
      count := 0;
      var tmp: Node? := head;
      ghost var k: nat := 0;
      while tmp != null
        invariant k <= |nodes| && tmp == NodeOrNull(k)
        invariant count == CountSmall(heap.blocks[..k], size)
        decreases |nodes| - k
      {
        NextIs(k);
        assert heap.blocks[..k + 1][..k] == heap.blocks[..k];
        if !tmp.alloc && tmp.size <= size { count := count + 1; }
        tmp, k := tmp.next, k + 1;
      }
      assert heap.blocks[..k] == heap.blocks;
    }

    /** Tells of an address whether a live allocation starts there; an address inside one does not
        count. */
    method MemIsAlloc(p: int) returns (alloc: bool)
      requires Linked() && Tiles(heap.blocks, 0, poolSize)
      ensures alloc <==> exists b :: b in Live(heap.blocks) && b.ptr == p
    {
      var tmp;
      ghost var k;
      tmp, k := FindPtr(p);
      if tmp == null {
        return false;
      }
      forall b | b in heap.blocks && b.ptr == p ensures b == heap.blocks[k] {
        SamePtr(heap.blocks, poolSize, k, b);
      }
      assert heap.blocks[k] in heap.blocks;
      return tmp.alloc;
    }
  }
}
