/**
 The file system's tables as values: what a file's bytes are, which blocks belong to whom, and how
 the metadata is laid out on the disk.
 */
module FsModel {
  import opened Sequences

  const BLOCK_SIZE := 4096
  const DISK_BLOCKS := 8192
  const DATA_BLOCKS := 4096   // half of the disk: blocks 4096 and up hold file data
  const NUM_FILES := 64
  const OPEN_FILES := 32
  const NAMELEN := 15

  type Byte = b: int | 0 <= b < 256

  /** `file_meta`: one slot of the file table. */
  datatype Meta = Meta(inUse: Byte, name: seq<Byte>, numBlocks: int, sizeLast: int, blocks: seq<int>) {
    predicate Live() { inUse != 0 }
  }

  /** `descriptor`: `file` is -1 when it is not open. */
  datatype Descriptor = Descriptor(file: int, cursor: int)

  /** The file and the position in its block list that a data block belongs to. */
  datatype Place = Place(file: nat, index: nat)

  type Disk = seq<seq<Byte>>

  // ---- shapes -------------------------------------------------------------------------------

  ghost predicate DiskOk(disk: Disk) {
    |disk| == DISK_BLOCKS && forall b :: 0 <= b < DISK_BLOCKS ==> |disk[b]| == BLOCK_SIZE
  }

  ghost predicate MetaSized(m: Meta) {
    |m.name| == NAMELEN && |m.blocks| == DATA_BLOCKS
  }

  /** The block list: in range, every entry a data block. */
  ghost predicate ListOk(m: Meta) {
    && MetaSized(m)
    && 0 <= m.numBlocks <= DATA_BLOCKS
    && (forall k :: 0 <= k < m.numBlocks ==> DATA_BLOCKS <= m.blocks[k] < DISK_BLOCKS)
  }

  /** The size fields: the last block is never empty and never overfull. */
  ghost predicate SizeOk(m: Meta) {
    if m.numBlocks == 0 then m.sizeLast == 0 else 1 <= m.sizeLast <= BLOCK_SIZE
  }

  /** At least the last block, if there is one, is not overfull. */
  predicate Fits(m: Meta) { m.numBlocks == 0 || 0 <= m.sizeLast <= BLOCK_SIZE }

  function FileSize(numBlocks: int, sizeLast: int): int {
    if numBlocks == 0 then 0 else (numBlocks - 1) * BLOCK_SIZE + sizeLast
  }

  ghost predicate TableOk(metas: seq<Meta>) {
    |metas| == NUM_FILES && forall i :: 0 <= i < NUM_FILES ==> ListOk(metas[i]) && Fits(metas[i])
  }

  ghost predicate SizesOk(metas: seq<Meta>) {
    forall i :: 0 <= i < |metas| && metas[i].Live() ==> SizeOk(metas[i])
  }

  // ---- a file's bytes -----------------------------------------------------------------------

  /** Byte `x` of a file's blocks laid end to end. */
  function Raw(disk: Disk, m: Meta, x: int): Byte
    requires DiskOk(disk) && ListOk(m) && 0 <= x < m.numBlocks * BLOCK_SIZE
  {
    disk[m.blocks[x / BLOCK_SIZE]][x % BLOCK_SIZE]
  }

  /** What the file holds. */
  ghost function Content(disk: Disk, m: Meta): (s: seq<Byte>)
    requires DiskOk(disk) && ListOk(m) && Fits(m)
    ensures |s| == FileSize(m.numBlocks, m.sizeLast)
  {
    seq(FileSize(m.numBlocks, m.sizeLast), x requires 0 <= x < FileSize(m.numBlocks, m.sizeLast) => Raw(disk, m, x))
  }

  /** The size fields may be anything, as long as the entries they reach are in the list and name blocks of
      the disk. */
  ghost predicate Legible(m: Meta) {
    && MetaSized(m) && FileSize(m.numBlocks, m.sizeLast) <= DATA_BLOCKS * BLOCK_SIZE
    && forall k :: 0 <= k < DATA_BLOCKS && k * BLOCK_SIZE < FileSize(m.numBlocks, m.sizeLast) ==> 0 <= m.blocks[k] < DISK_BLOCKS
  }

  /** What is to be read of such a file: its size in bytes, from the blocks its entries name. */
  ghost function Extent(disk: Disk, m: Meta): (s: seq<Byte>)
    requires DiskOk(disk) && Legible(m)
    ensures |s| == if FileSize(m.numBlocks, m.sizeLast) < 0 then 0 else FileSize(m.numBlocks, m.sizeLast)
  {
    var size := FileSize(m.numBlocks, m.sizeLast);
    seq(if size < 0 then 0 else size, x requires 0 <= x < size => disk[m.blocks[x / BLOCK_SIZE]][x % BLOCK_SIZE])
  }

  /** Of a file whose list and size are in order that is what it holds. */
  lemma ExtentIs(disk: Disk, m: Meta)
    requires DiskOk(disk) && ListOk(m) && Fits(m)
    ensures Legible(m) && Extent(disk, m) == Content(disk, m)
  {
    forall k | 0 <= k < DATA_BLOCKS && k * BLOCK_SIZE < FileSize(m.numBlocks, m.sizeLast) ensures k < m.numBlocks {
    }
  }

  // ---- who owns which block -------------------------------------------------------------------

  /** Every block a live file lists is in use and listed there alone; every block in use is listed. */
  ghost predicate Owned(metas: seq<Meta>, usage: seq<Byte>, owner: seq<Option<Place>>) {
    && |metas| == NUM_FILES && |usage| == |owner| == DATA_BLOCKS
    && (forall i :: 0 <= i < NUM_FILES && metas[i].Live() ==> ListOk(metas[i]))
    && (forall i, k {:trigger metas[i].blocks[k]} ::
          0 <= i < NUM_FILES && metas[i].Live() && 0 <= k < metas[i].numBlocks ==>
            owner[metas[i].blocks[k] - DATA_BLOCKS] == Some(Place(i, k)))
    && (forall b :: 0 <= b < DATA_BLOCKS ==> (usage[b] != 0 <==> owner[b].Some?))
    && (forall b :: 0 <= b < DATA_BLOCKS && owner[b].Some? ==> Lists(metas, owner[b].value, b))
  }

  /** Some assignment of blocks to files agrees with the usage map. */
  ghost predicate CanOwn(metas: seq<Meta>, usage: seq<Byte>) {
    exists owner :: Owned(metas, usage, owner)
  }

  ghost predicate Lists(metas: seq<Meta>, p: Place, b: int)
    requires |metas| == NUM_FILES
  {
    && p.file < NUM_FILES && metas[p.file].Live() && MetaSized(metas[p.file])
    && p.index < metas[p.file].numBlocks <= DATA_BLOCKS
    && metas[p.file].blocks[p.index] == b + DATA_BLOCKS
  }

  ghost predicate Listed(metas: seq<Meta>, b: int)
    requires |metas| == NUM_FILES
  {
    exists p :: Lists(metas, p, b)
  }

  lemma OwnedList(metas: seq<Meta>, usage: seq<Byte>, owner: seq<Option<Place>>, i: nat)
    requires Owned(metas, usage, owner) && i < NUM_FILES && metas[i].Live()
    ensures |metas| == NUM_FILES && ListOk(metas[i])
  {
  }

  /** A data block is marked in use exactly when some live file lists it, and then only one file
      does, at only one place. */
  lemma OwnedExactlyOnce(metas: seq<Meta>, usage: seq<Byte>, owner: seq<Option<Place>>, b: int)
    requires Owned(metas, usage, owner) && 0 <= b < DATA_BLOCKS
    ensures usage[b] != 0 <==> exists p :: Lists(metas, p, b)
    ensures forall p, q :: Lists(metas, p, b) && Lists(metas, q, b) ==> p == q
  {
    forall p | Lists(metas, p, b) ensures owner[b] == Some(p) {
      assert metas[p.file].blocks[p.index] - DATA_BLOCKS == b;
    }
  }

  /** So a file that can still be given a free block has room for it in its list. */
  lemma RoomForBlock(metas: seq<Meta>, usage: seq<Byte>, owner: seq<Option<Place>>, i: nat, b: nat)
    requires Owned(metas, usage, owner) && i < NUM_FILES && metas[i].Live() && b < DATA_BLOCKS && usage[b] == 0
    ensures metas[i].numBlocks < DATA_BLOCKS
  {
    var m := metas[i];
    var used: seq<nat> := seq(m.numBlocks, k requires 0 <= k < m.numBlocks => m.blocks[k] - DATA_BLOCKS);
    var all := used + [b];
    forall j, k | 0 <= j < k < |all| ensures all[j] != all[k] {
      assert owner[m.blocks[j] - DATA_BLOCKS] == Some(Place(i, j));
      if k < m.numBlocks { assert owner[m.blocks[k] - DATA_BLOCKS] == Some(Place(i, k)); }
    }
    Pigeonhole(all, DATA_BLOCKS);
  }

  /** Blocks of different files, or at different places of one file, are different. */
  lemma OwnedDistinct(metas: seq<Meta>, usage: seq<Byte>, owner: seq<Option<Place>>, i: nat, k: nat, j: nat, l: nat)
    requires Owned(metas, usage, owner)
    requires i < NUM_FILES && metas[i].Live() && k < metas[i].numBlocks
    requires j < NUM_FILES && metas[j].Live() && l < metas[j].numBlocks
    ensures metas[i].blocks[k] == metas[j].blocks[l] ==> i == j && k == l
  {
  }

  ghost predicate DistinctBlocks(m: Meta)
    requires ListOk(m)
  {
    forall j, k :: 0 <= j < k < m.numBlocks ==> m.blocks[j] != m.blocks[k]
  }

  lemma OwnedDistinctBlocks(metas: seq<Meta>, usage: seq<Byte>, owner: seq<Option<Place>>, i: nat)
    requires Owned(metas, usage, owner) && i < NUM_FILES && metas[i].Live()
    ensures DistinctBlocks(metas[i])
  {
    forall j, k | 0 <= j < k < metas[i].numBlocks ensures metas[i].blocks[j] != metas[i].blocks[k] {
      OwnedDistinct(metas, usage, owner, i, j, i, k);
    }
  }

  /** The number of free data blocks. */
  function CountFree(usage: seq<Byte>): nat {
    if usage == [] then 0 else CountFree(usage[..|usage| - 1]) + (if usage[|usage| - 1] == 0 then 1 else 0)
  }

  lemma {:induction false} CountFreeTake(usage: seq<Byte>, b: nat)
    requires b < |usage| && usage[b] == 0
    ensures CountFree(usage[b := 1]) + 1 == CountFree(usage)
  {
    var n := |usage| - 1;
    if b == n {
      assert usage[b := 1][..n] == usage[..n];
    } else {
      CountFreeTake(usage[..n], b);
      assert usage[b := 1][..n] == usage[..n][b := 1];
    }
  }

  lemma {:induction false} CountFreeNone(usage: seq<Byte>)
    ensures CountFree(usage) == 0 <==> forall b :: 0 <= b < |usage| ==> usage[b] != 0
  {
    if usage != [] {
      var n := |usage| - 1;
      CountFreeNone(usage[..n]);
      assert forall b :: 0 <= b < n ==> usage[..n][b] == usage[b];
    }
  }

  /** The first free data block, or the number of them all when none is free. */
  function FirstFree(usage: seq<Byte>): (b: nat)
    ensures b <= |usage| && (b < |usage| ==> usage[b] == 0)
    ensures forall j :: 0 <= j < b ==> usage[j] != 0
  {
    if usage == [] || usage[0] == 0 then 0
    else
      var r := FirstFree(usage[1..]);
      assert forall j :: 1 <= j < r + 1 ==> usage[j] == usage[1..][j - 1];
      r + 1
  }

  lemma FirstFreeIs(usage: seq<Byte>, b: nat)
    requires b <= |usage| && (b < |usage| ==> usage[b] == 0) && forall j :: 0 <= j < b ==> usage[j] != 0
    ensures FirstFree(usage) == b
  {
  }

  /** The usage map and a block list after `n` blocks have been added from entry `at` on, each the first
      that is free. */
  function Grab(usage: seq<Byte>, blocks: seq<int>, at: nat, n: nat): (r: (seq<Byte>, seq<int>))
    requires at + n <= |blocks|
    ensures |r.0| == |usage| && |r.1| == |blocks|
    ensures forall k :: 0 <= k < |blocks| && !(at <= k < at + n) ==> r.1[k] == blocks[k]
  {
    if n == 0 then (usage, blocks)
    else
      var (u, l) := Grab(usage, blocks, at, n - 1);
      var b := FirstFree(u);
      if b == |u| then (u, l) else (u[b := 1], l[at + n - 1 := b + DATA_BLOCKS])
  }

  /** A block that was in use stays so. */
  lemma {:induction false} GrabKeeps(usage: seq<Byte>, blocks: seq<int>, at: nat, n: nat, b: nat)
    requires at + n <= |blocks| && b < |usage| && usage[b] != 0
    ensures Grab(usage, blocks, at, n).0[b] == usage[b]
  {
    if n > 0 { GrabKeeps(usage, blocks, at, n - 1, b); }
  }

  lemma GrabNext(usage: seq<Byte>, blocks: seq<int>, at: nat, n: nat, u: seq<Byte>, l: seq<int>)
    requires at + n < |blocks| && Grab(usage, blocks, at, n) == (u, l) && FirstFree(u) < |u|
    ensures |l| == |blocks|
    ensures Grab(usage, blocks, at, n + 1) == (u[FirstFree(u) := 1], l[at + n := FirstFree(u) + DATA_BLOCKS])
  {
    hide FirstFree;
  }

  // ---- writing a chunk ------------------------------------------------------------------------

  /** Block `b` with `chunk` laid over it from offset `off` on. */
  function PutChunk(disk: Disk, b: int, off: int, chunk: seq<Byte>): Disk
    requires DiskOk(disk) && 0 <= b < DISK_BLOCKS && 0 <= off && off + |chunk| <= BLOCK_SIZE
  {
    disk[b := disk[b][..off] + chunk + disk[b][off + |chunk|..]]
  }

  lemma PutChunkOk(disk: Disk, b: int, off: int, chunk: seq<Byte>)
    requires DiskOk(disk) && 0 <= b < DISK_BLOCKS && 0 <= off && off + |chunk| <= BLOCK_SIZE
    ensures DiskOk(PutChunk(disk, b, off, chunk))
  {
  }

  /** A chunk written at the cursor changes the file's bytes from the cursor on, and no others. */
  lemma PutChunkRaw(disk: Disk, m: Meta, c: int, chunk: seq<Byte>, x: int)
    requires DiskOk(disk) && ListOk(m) && DistinctBlocks(m)
    requires 0 <= c < m.numBlocks * BLOCK_SIZE && c % BLOCK_SIZE + |chunk| <= BLOCK_SIZE
    requires 0 <= x < m.numBlocks * BLOCK_SIZE
    ensures var disk' := PutChunk(disk, m.blocks[c / BLOCK_SIZE], c % BLOCK_SIZE, chunk);
      && DiskOk(disk')
      && Raw(disk', m, x) == if c <= x < c + |chunk| then chunk[x - c] else Raw(disk, m, x)
  {
    var b, off := m.blocks[c / BLOCK_SIZE], c % BLOCK_SIZE;
    PutChunkOk(disk, b, off, chunk);
    var j, k := x / BLOCK_SIZE, c / BLOCK_SIZE;
    if j != k {
      assert m.blocks[j] != m.blocks[k];
    }
  }
}
