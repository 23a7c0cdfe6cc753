/**
 What the chunks of a read or write add up to, on values.
 */
module FsWriting {
  import opened Sequences
  import opened FsModel
  import opened FsBook
  import opened FsCodec

  /** The tables in memory and the disk under them. */
  datatype Tables = Tables(disk: Disk, usage: seq<Byte>, metas: seq<Meta>)

  type Owner = seq<Option<Place>>

  ghost predicate StateOk(s: Tables, owner: Owner) {
    && DiskOk(s.disk) && TableOk(s.metas) && SizesOk(s.metas)
    && Owned(s.metas, s.usage, owner) && Saved(s.disk, s.metas)
  }

  /** `data` laid over `was` from `c` on; the result is longer if it reaches past the end. */
  function Spliced(was: seq<Byte>, c: nat, data: seq<Byte>): seq<Byte>
    requires c <= |was|
  {
    was[..c] + data + (if c + |data| <= |was| then was[c + |data|..] else [])
  }

  /** A chunk of a block is a stretch of the file. */
  lemma ChunkContent(disk: Disk, m: Meta, c: nat, d: nat)
    requires DiskOk(disk) && Legible(m)
    requires c % BLOCK_SIZE + d <= BLOCK_SIZE && c + d <= FileSize(m.numBlocks, m.sizeLast) && d > 0
    ensures c / BLOCK_SIZE < DATA_BLOCKS == |m.blocks| && 0 <= m.blocks[c / BLOCK_SIZE] < DISK_BLOCKS
    ensures |disk[m.blocks[c / BLOCK_SIZE]]| == BLOCK_SIZE && c + d <= |Extent(disk, m)|
    ensures var off := c % BLOCK_SIZE;
      disk[m.blocks[c / BLOCK_SIZE]][off..off + d] == Extent(disk, m)[c..c + d]
  {
    var off, k := c % BLOCK_SIZE, c / BLOCK_SIZE;
    var chunk := disk[m.blocks[k]][off..off + d];
    var want := Extent(disk, m)[c..c + d];
    forall j | 0 <= j < d ensures chunk[j] == want[j] {
      assert (c + j) / BLOCK_SIZE == k && (c + j) % BLOCK_SIZE == off + j;
    }
  }

  /** The `n` bytes of `s` from `c` on, if it has them. */
  function Stretch(s: seq<Byte>, c: nat, n: nat): seq<Byte> {
    if c + n <= |s| then s[c..c + n] else []
  }

  /** Reading chunk after chunk fills the buffer with one stretch of the file. */
  lemma ChunksJoin(was: seq<Byte>, s: seq<Byte>, c: nat, at: nat, d: nat, rest: seq<Byte>)
    requires at + d <= |rest| && c + at + d <= |s|
    requires was == Stretch(s, c, at) + rest[at..]
    ensures |was| == |rest|
    ensures was[..at] + s[c + at..c + at + d] + was[at + d..] == Stretch(s, c, at + d) + rest[at + d..]
  {
  }

  /** File `i` in the middle of a write that began at `c0` and has come to `c`: its bytes from `c0` to
      `c` are the buffer's, its other bytes are as they were, its block list has only grown, and
      only blocks of its own have been touched. */
  ghost predicate Writing(s0: Tables, s: Tables, owner: Owner, i: nat, c0: nat, c: nat, buf: seq<Byte>) {
    && DiskOk(s0.disk) && DiskOk(s.disk)
    && |s0.metas| == |s.metas| == NUM_FILES && i < NUM_FILES
    && s0.metas[i].Live() && ListOk(s0.metas[i]) && GrownFrom(s0.metas[i], s.metas[i])
    && (forall j :: 0 <= j < NUM_FILES && j != i ==> s.metas[j] == s0.metas[j])
    && Owned(s.metas, s.usage, owner)
    && c0 <= c <= c0 + |buf| && c <= s.metas[i].numBlocks * BLOCK_SIZE
    && c0 <= s0.metas[i].numBlocks * BLOCK_SIZE
    && Grabbed(s0.usage, s.usage, s0.metas[i], s.metas[i])
    && BytesOk(s0.disk, s0.metas[i], s.disk, s.metas[i], c0, c, buf)
    && OnlyOwn(s0.disk, s.disk, owner, i)
  }

  /** The same file with the same blocks and perhaps some more. */
  ghost predicate GrownFrom(m0: Meta, m: Meta) {
    && m.inUse == m0.inUse && m.name == m0.name && ListOk(m)
    && m0.numBlocks <= m.numBlocks
    && m0.numBlocks <= |m0.blocks|
    && (forall k :: 0 <= k < m0.numBlocks ==> m.blocks[k] == m0.blocks[k])
  }

  /** The blocks a file has got are the first that were free, one after the other; no other block and no
      other entry of the list has changed. */
  ghost predicate Grabbed(usage0: seq<Byte>, usage: seq<Byte>, m0: Meta, m: Meta) {
    && |m0.blocks| == |m.blocks| && 0 <= m0.numBlocks <= m.numBlocks <= |m.blocks|
    && (usage, m.blocks) == Grab(usage0, m0.blocks, m0.numBlocks, m.numBlocks - m0.numBlocks)
  }

  lemma GrabsMore(usage0: seq<Byte>, usage: seq<Byte>, m0: Meta, m: Meta)
    requires Grabbed(usage0, usage, m0, m) && m.numBlocks < |m.blocks| && FirstFree(usage) < |usage|
    ensures Grabbed(usage0, usage[FirstFree(usage) := 1], m0, WithBlock(m, FirstFree(usage)))
  {
    hide Grab, FirstFree;
    GrabNext(usage0, m0.blocks, m0.numBlocks, m.numBlocks - m0.numBlocks, usage, m.blocks);
  }

  /** Entries that are not new are as before. */
  lemma GrabsNothing(usage0: seq<Byte>, usage: seq<Byte>, m0: Meta, m: Meta)
    requires Grabbed(usage0, usage, m0, m)
    ensures forall k :: 0 <= k < |m.blocks| && !(m0.numBlocks <= k < m.numBlocks) ==> m.blocks[k] == m0.blocks[k]
  {
  }

  ghost predicate BytesOk(disk0: Disk, m0: Meta, disk: Disk, m: Meta, c0: nat, c: nat, buf: seq<Byte>)
    requires DiskOk(disk0) && ListOk(m0) && DiskOk(disk) && GrownFrom(m0, m)
    requires c0 <= c <= c0 + |buf| && c <= m.numBlocks * BLOCK_SIZE
  {
    && (forall x :: c0 <= x < c ==> Raw(disk, m, x) == buf[x - c0])
    && (forall x :: 0 <= x < m0.numBlocks * BLOCK_SIZE && (x < c0 || c <= x) ==> Raw(disk, m, x) == Raw(disk0, m0, x))
  }

  ghost predicate OnlyOwn(disk0: Disk, disk: Disk, owner: Owner, i: nat)
    requires DiskOk(disk0) && DiskOk(disk) && |owner| == DATA_BLOCKS
  {
    forall b :: 0 <= b < DISK_BLOCKS && disk[b] != disk0[b] ==>
      b >= DATA_BLOCKS && owner[b - DATA_BLOCKS].Some? && owner[b - DATA_BLOCKS].value.file == i
  }

  /** `chunk` laid over block `b`; nothing happens if there is no such block. */
  function PutBlock(disk: Disk, b: int, off: int, chunk: seq<Byte>): (r: Disk)
    requires DiskOk(disk) && 0 <= off && off + |chunk| <= BLOCK_SIZE
    ensures DiskOk(r)
  {
    if 0 <= b < DISK_BLOCKS then PutChunk(disk, b, off, chunk) else disk
  }

  /** `data` laid out from byte `c` on, one byte after the other, over the blocks that `list` names,
      whatever they are. */
  function Lay(disk: Disk, list: seq<int>, c: nat, data: seq<Byte>): (r: Disk)
    requires DiskOk(disk) && c + |data| <= |list| * BLOCK_SIZE
    ensures DiskOk(r)
  {
    if data == [] then disk
    else
      var n := |data| - 1;
      PutBlock(Lay(disk, list, c, data[..n]), list[(c + n) / BLOCK_SIZE], (c + n) % BLOCK_SIZE, [data[n]])
  }

  /** A chunk of one block is laid out at one go. */
  lemma {:induction false} LayChunk(disk: Disk, list: seq<int>, c: nat, data: seq<Byte>, chunk: seq<Byte>)
    requires DiskOk(disk) && c + |data| + |chunk| <= |list| * BLOCK_SIZE
    requires c + |data| < |list| * BLOCK_SIZE && (c + |data|) % BLOCK_SIZE + |chunk| <= BLOCK_SIZE
    ensures Lay(disk, list, c, data + chunk) ==
              PutBlock(Lay(disk, list, c, data), list[(c + |data|) / BLOCK_SIZE], (c + |data|) % BLOCK_SIZE, chunk)
    decreases |chunk|
  {
    hide PutBlock;
    var b, off, laid := list[(c + |data|) / BLOCK_SIZE], (c + |data|) % BLOCK_SIZE, Lay(disk, list, c, data);
    if chunk == [] {
      assert data + chunk == data;
      PutNothing(laid, b, off);
    } else {
      var m := |chunk| - 1;
      LayChunk(disk, list, c, data, chunk[..m]);
      assert (data + chunk)[..|data| + m] == data + chunk[..m];
      assert (c + |data| + m) / BLOCK_SIZE == (c + |data|) / BLOCK_SIZE && (c + |data| + m) % BLOCK_SIZE == off + m;
      PutOneMore(laid, b, off, chunk);
    }
  }

  lemma PutNothing(disk: Disk, b: int, off: int)
    requires DiskOk(disk) && 0 <= off <= BLOCK_SIZE
    ensures PutBlock(disk, b, off, []) == disk
  {
    if 0 <= b < DISK_BLOCKS {
      assert disk[b][..off] + [] + disk[b][off..] == disk[b];
    }
  }

  lemma PutOneMore(disk: Disk, b: int, off: int, chunk: seq<Byte>)
    requires DiskOk(disk) && 0 <= off && off + |chunk| <= BLOCK_SIZE && chunk != []
    ensures var m := |chunk| - 1;
      PutBlock(PutBlock(disk, b, off, chunk[..m]), b, off + m, [chunk[m]]) == PutBlock(disk, b, off, chunk)
  {
    var m := |chunk| - 1;
    if 0 <= b < DISK_BLOCKS {
      var row := disk[b][..off] + chunk[..m] + disk[b][off + m..];
      assert row[..off + m] + [chunk[m]] + row[off + m + 1..] == disk[b][..off] + chunk + disk[b][off + |chunk|..];
    }
  }

  /** The last block is full, or there is none. */
  predicate Full(m: Meta) { m.sizeLast == BLOCK_SIZE || m.numBlocks == 0 }

  /** The list a write leaves the file's blocks by: the old one, with the first new block in it if the
      write began by adding one. */
  function Via(m0: Meta, m: Meta): (list: seq<int>)
    requires |m0.blocks| == |m.blocks| && 0 <= m0.numBlocks <= m.numBlocks <= |m.blocks|
    ensures |list| == |m0.blocks|
  {
    if Full(m0) && m0.numBlocks < m.numBlocks then m0.blocks[m0.numBlocks := m.blocks[m0.numBlocks]] else m0.blocks
  }

  /** File `i` in the middle of a write that is not confined to the file's own blocks: every byte has
      gone where the list says that the write leaves by. The accounting of blocks is in order, unless the
      file has been deleted. */
  ghost predicate Laying(s0: Tables, s: Tables, owner: Owner, i: nat, c0: nat, c: nat, buf: seq<Byte>) {
    && DiskOk(s0.disk) && DiskOk(s.disk)
    && |s0.metas| == |s.metas| == NUM_FILES && i < NUM_FILES
    && ListOk(s0.metas[i]) && GrownFrom(s0.metas[i], s.metas[i])
    && (forall j :: 0 <= j < NUM_FILES && j != i ==> s.metas[j] == s0.metas[j])
    && (s0.metas[i].Live() ==> Owned(s.metas, s.usage, owner))
    && Grabbed(s0.usage, s.usage, s0.metas[i], s.metas[i])
    && c0 <= c <= c0 + |buf| <= DATA_BLOCKS * BLOCK_SIZE
    && (c == c0 || c == c0 + |buf| || c % BLOCK_SIZE == 0)
    && (c > c0 && Full(s0.metas[i]) ==> s.metas[i].numBlocks > s0.metas[i].numBlocks)
    && s.disk == Lay(s0.disk, Via(s0.metas[i], s.metas[i]), c0, buf[..c - c0])
  }

  /** The same between two chunks. */
  ghost predicate Straying(s0: Tables, s: Tables, owner: Owner, i: nat, c0: nat, c: nat, buf: seq<Byte>) {
    Laying(s0, s, owner, i, c0, c, buf) && (c == c0 ==> s.metas[i] == s0.metas[i])
  }

  /** The file's entry for the cursor's block is that of the list. */
  ghost predicate Aimed(s0: Tables, s: Tables, owner: Owner, i: nat, c0: nat, c: nat, buf: seq<Byte>) {
    && Laying(s0, s, owner, i, c0, c, buf) && c < c0 + |buf|
    && (Full(s0.metas[i]) ==> s.metas[i].numBlocks > s0.metas[i].numBlocks)
    && s.metas[i].blocks[c / BLOCK_SIZE] == Via(s0.metas[i], s.metas[i])[c / BLOCK_SIZE]
  }

  lemma StrayingStarts(s: Tables, owner: Owner, i: nat, c: nat, buf: seq<Byte>)
    requires DiskOk(s.disk) && Owned(s.metas, s.usage, owner) && i < NUM_FILES && ListOk(s.metas[i])
    requires c + |buf| <= DATA_BLOCKS * BLOCK_SIZE
    ensures Straying(s, s, owner, i, c, c, buf)
  {
  }

  /** Without a new block, or past all the new blocks, the aim is right. */
  lemma StrayingAims(s0: Tables, s: Tables, owner: Owner, i: nat, c0: nat, c: nat, buf: seq<Byte>)
    requires Straying(s0, s, owner, i, c0, c, buf) && c < c0 + |buf| && !Full(s.metas[i])
    requires s.metas[i].numBlocks == s0.metas[i].numBlocks || c > (s.metas[i].numBlocks - 1) * BLOCK_SIZE
    ensures Aimed(s0, s, owner, i, c0, c, buf)
  {
    hide Lay, Owned, Grabbed;
    GrabsNothing(s0.usage, s.usage, s0.metas[i], s.metas[i]);
  }

  /** A block added past the end of the file is the one the next chunk goes to only if it is the first. */
  lemma StrayingExpands(s0: Tables, s: Tables, owner: Owner, i: nat, c0: nat, c: nat, buf: seq<Byte>, b: nat)
    requires Straying(s0, s, owner, i, c0, c, buf) && c < c0 + |buf|
    requires Full(s.metas[i]) && c > s.metas[i].numBlocks * BLOCK_SIZE
    requires b < DATA_BLOCKS && b == FirstFree(s.usage)
    requires |s.usage| == |owner| == DATA_BLOCKS
    ensures s.metas[i].numBlocks < DATA_BLOCKS
    ensures var s' := s.(usage := s.usage[b := 1], metas := s.metas[i := WithBlock(s.metas[i], b)]);
      Aimed(s0, s', owner[b := Some(Place(i, s.metas[i].numBlocks))], i, c0, c, buf)
  {
    hide Lay, Grab;
    var m0, m := s0.metas[i], s.metas[i];
    if m.Live() { OwnedGrows(s.metas, s.usage, owner, i, b); }
    GrabsNothing(s0.usage, s.usage, m0, m);
    GrabsMore(s0.usage, s.usage, m0, m);
    ViaExpands(s0.disk, m0, m, b, c0, c, buf[..c - c0]);
  }

  /** The bytes laid so far do not depend on the new entry. */
  lemma ViaExpands(disk: Disk, m0: Meta, m: Meta, b: nat, c0: nat, c: nat, data: seq<Byte>)
    requires DiskOk(disk) && |m0.blocks| == |m.blocks| == DATA_BLOCKS && 0 <= m0.numBlocks <= m.numBlocks < DATA_BLOCKS
    requires c0 + |data| == c && (c == c0 ==> m == m0)
    requires c > c0 && Full(m0) ==> m.numBlocks > m0.numBlocks
    requires forall k :: 0 <= k < DATA_BLOCKS && !(m0.numBlocks <= k < m.numBlocks) ==> m.blocks[k] == m0.blocks[k]
    requires c > m.numBlocks * BLOCK_SIZE && c < DATA_BLOCKS * BLOCK_SIZE && (c == c0 || c % BLOCK_SIZE == 0) && Full(m)
    ensures var n := WithBlock(m, b);
      && Lay(disk, Via(m0, n), c0, data) == Lay(disk, Via(m0, m), c0, data)
      && Via(m0, n)[c / BLOCK_SIZE] == n.blocks[c / BLOCK_SIZE]
  {
  }

  /** One more chunk. */
  lemma StrayingChunk(s0: Tables, s: Tables, owner: Owner, i: nat, c0: nat, c: nat, buf: seq<Byte>, d: nat)
    requires Aimed(s0, s, owner, i, c0, c, buf) && d > 0
    requires c - c0 + d <= |buf| && c % BLOCK_SIZE + d <= BLOCK_SIZE
    requires c % BLOCK_SIZE + d == BLOCK_SIZE || c - c0 + d == |buf|
    ensures var disk' := PutBlock(s.disk, s.metas[i].blocks[c / BLOCK_SIZE], c % BLOCK_SIZE, buf[c - c0..c - c0 + d]);
      Straying(s0, s.(disk := disk'), owner, i, c0, c + d, buf)
  {
    hide Lay, PutBlock, Owned, Grabbed;
    LayChunk(s0.disk, Via(s0.metas[i], s.metas[i]), c0, buf[..c - c0], buf[c - c0..c - c0 + d]);
    assert buf[..c - c0] + buf[c - c0..c - c0 + d] == buf[..c + d - c0];
  }

  lemma StrayingSize(s0: Tables, s: Tables, owner: Owner, i: nat, c0: nat, c: nat, buf: seq<Byte>, last: int)
    requires Straying(s0, s, owner, i, c0, c, buf) && c > c0
    ensures Straying(s0, s.(metas := s.metas[i := s.metas[i].(sizeLast := last)]), owner, i, c0, c, buf)
  {
    hide Lay;
    if s.metas[i].Live() { OwnedSize(s.metas, s.usage, owner, i, last); }
  }

  /** A deleted file in the middle of a write that keeps to its blocks, which may be another's by now:
      every byte has gone where its list says. */
  ghost predicate Orphaned(s0: Tables, s: Tables, i: nat, c0: nat, c: nat, buf: seq<Byte>) {
    && DiskOk(s0.disk) && DiskOk(s.disk)
    && |s0.metas| == |s.metas| == NUM_FILES && i < NUM_FILES
    && !s0.metas[i].Live() && ListOk(s0.metas[i]) && GrownFrom(s0.metas[i], s.metas[i])
    && (forall j :: 0 <= j < NUM_FILES && j != i ==> s.metas[j] == s0.metas[j])
    && Grabbed(s0.usage, s.usage, s0.metas[i], s.metas[i])
    && c0 <= c <= c0 + |buf| <= DATA_BLOCKS * BLOCK_SIZE && c <= s.metas[i].numBlocks * BLOCK_SIZE
    && s.disk == Lay(s0.disk, s.metas[i].blocks, c0, buf[..c - c0])
  }

  lemma OrphanedStarts(s: Tables, i: nat, c: nat, buf: seq<Byte>)
    requires DiskOk(s.disk) && |s.metas| == NUM_FILES && i < NUM_FILES && ListOk(s.metas[i]) && !s.metas[i].Live()
    requires c <= s.metas[i].numBlocks * BLOCK_SIZE && c + |buf| <= DATA_BLOCKS * BLOCK_SIZE
    ensures Orphaned(s, s, i, c, c, buf)
  {
  }

  lemma OrphanedExpands(s0: Tables, s: Tables, i: nat, c0: nat, c: nat, buf: seq<Byte>, b: nat)
    requires Orphaned(s0, s, i, c0, c, buf) && c < c0 + |buf| && c == s.metas[i].numBlocks * BLOCK_SIZE
    requires |s.usage| == DATA_BLOCKS && b < DATA_BLOCKS && b == FirstFree(s.usage)
    ensures s.metas[i].numBlocks < DATA_BLOCKS
    ensures Orphaned(s0, s.(usage := s.usage[b := 1], metas := s.metas[i := WithBlock(s.metas[i], b)]), i, c0, c, buf)
  {
    hide Lay, Grabbed;
    GrabsMore(s0.usage, s.usage, s0.metas[i], s.metas[i]);
    LaySame(s0.disk, s.metas[i].blocks, WithBlock(s.metas[i], b).blocks, c0, buf[..c - c0]);
  }

  /** Bytes are laid out by the entries they fall to, and no others. */
  lemma {:induction false} LaySame(disk: Disk, list: seq<int>, list': seq<int>, c: nat, data: seq<Byte>)
    requires DiskOk(disk) && |list| == |list'| && c + |data| <= |list| * BLOCK_SIZE
    requires forall k :: 0 <= k < |list| && k * BLOCK_SIZE < c + |data| ==> list[k] == list'[k]
    ensures Lay(disk, list, c, data) == Lay(disk, list', c, data)
    decreases |data|
  {
    if data != [] {
      var n := |data| - 1;
      LaySame(disk, list, list', c, data[..n]);
      assert list[(c + n) / BLOCK_SIZE] == list'[(c + n) / BLOCK_SIZE];
    }
  }

  /** So only blocks that the list names change. */
  lemma {:induction false} LayOutside(disk: Disk, list: seq<int>, c: nat, data: seq<Byte>, b: nat)
    requires DiskOk(disk) && c + |data| <= |list| * BLOCK_SIZE && b < DISK_BLOCKS
    requires forall k :: 0 <= k < |list| && k * BLOCK_SIZE < c + |data| ==> list[k] != b
    ensures Lay(disk, list, c, data)[b] == disk[b]
    decreases |data|
  {
    if data != [] {
      var n := |data| - 1;
      LayOutside(disk, list, c, data[..n], b);
      assert list[(c + n) / BLOCK_SIZE] != b;
    }
  }

  lemma OrphanedChunk(s0: Tables, s: Tables, i: nat, c0: nat, c: nat, buf: seq<Byte>, d: nat)
    requires Orphaned(s0, s, i, c0, c, buf) && c < s.metas[i].numBlocks * BLOCK_SIZE
    requires d > 0 && c - c0 + d <= |buf| && c % BLOCK_SIZE + d <= BLOCK_SIZE
    ensures var disk' := PutBlock(s.disk, s.metas[i].blocks[c / BLOCK_SIZE], c % BLOCK_SIZE, buf[c - c0..c - c0 + d]);
      Orphaned(s0, s.(disk := disk'), i, c0, c + d, buf)
  {
    hide Lay, PutBlock, Grabbed;
    LayChunk(s0.disk, s.metas[i].blocks, c0, buf[..c - c0], buf[c - c0..c - c0 + d]);
    assert buf[..c - c0] + buf[c - c0..c - c0 + d] == buf[..c + d - c0];
  }

  lemma WritingStarts(s: Tables, owner: Owner, i: nat, c: nat, buf: seq<Byte>)
    requires DiskOk(s.disk) && Owned(s.metas, s.usage, owner) && i < NUM_FILES && s.metas[i].Live()
    requires c <= s.metas[i].numBlocks * BLOCK_SIZE
    ensures Writing(s, s, owner, i, c, c, buf)
  {
  }

  /** One more chunk. */
  lemma WritingChunk(s0: Tables, s: Tables, owner: Owner, i: nat, c0: nat, c: nat, buf: seq<Byte>, d: nat)
    requires Writing(s0, s, owner, i, c0, c, buf)
    requires c < s.metas[i].numBlocks * BLOCK_SIZE && c - c0 + d <= |buf| && c % BLOCK_SIZE + d <= BLOCK_SIZE
    ensures var m := s.metas[i];
      var s' := s.(disk := PutChunk(s.disk, m.blocks[c / BLOCK_SIZE], c % BLOCK_SIZE, buf[c - c0..c - c0 + d]));
      Writing(s0, s', owner, i, c0, c + d, buf)
  {
    hide Raw, PutChunk;
    var m := s.metas[i];
    var chunk := buf[c - c0..c - c0 + d];
    var disk' := PutChunk(s.disk, m.blocks[c / BLOCK_SIZE], c % BLOCK_SIZE, chunk);
    OwnedDistinctBlocks(s.metas, s.usage, owner, i);
    PutChunkOk(s.disk, m.blocks[c / BLOCK_SIZE], c % BLOCK_SIZE, chunk);
    forall x | 0 <= x < m.numBlocks * BLOCK_SIZE
      ensures Raw(disk', m, x) == if c <= x < c + d then chunk[x - c] else Raw(s.disk, m, x)
    {
      PutChunkRaw(s.disk, m, c, chunk, x);
    }
    ChunkOwn(s0, s, owner, i, c, chunk);
  }

  lemma ChunkOwn(s0: Tables, s: Tables, owner: Owner, i: nat, c: nat, chunk: seq<Byte>)
    requires DiskOk(s0.disk) && DiskOk(s.disk) && Owned(s.metas, s.usage, owner) && OnlyOwn(s0.disk, s.disk, owner, i)
    requires i < NUM_FILES && s.metas[i].Live() && c < s.metas[i].numBlocks * BLOCK_SIZE
    requires c % BLOCK_SIZE + |chunk| <= BLOCK_SIZE
    ensures var disk' := PutChunk(s.disk, s.metas[i].blocks[c / BLOCK_SIZE], c % BLOCK_SIZE, chunk);
      DiskOk(disk') && OnlyOwn(s0.disk, disk', owner, i)
  {
    var k := c / BLOCK_SIZE;
    PutChunkOk(s.disk, s.metas[i].blocks[k], c % BLOCK_SIZE, chunk);
    assert owner[s.metas[i].blocks[k] - DATA_BLOCKS] == Some(Place(i, k));
  }

  /** The size of the last block is no part of this. */
  lemma WritingSize(s0: Tables, s: Tables, owner: Owner, i: nat, c0: nat, c: nat, buf: seq<Byte>, last: int)
    requires Writing(s0, s, owner, i, c0, c, buf)
    ensures Writing(s0, s.(metas := s.metas[i := s.metas[i].(sizeLast := last)]), owner, i, c0, c, buf)
  {
    hide Raw;
    var m := s.metas[i];
    OwnedSize(s.metas, s.usage, owner, i, last);
    forall x | 0 <= x < m.numBlocks * BLOCK_SIZE ensures Raw(s.disk, m.(sizeLast := last), x) == Raw(s.disk, m, x) {
      RawSame(s.disk, m, m.(sizeLast := last), x);
    }
  }

  lemma OwnedSize(metas: seq<Meta>, usage: seq<Byte>, owner: Owner, i: nat, last: int)
    requires Owned(metas, usage, owner) && i < NUM_FILES && metas[i].Live()
    ensures Owned(metas[i := metas[i].(sizeLast := last)], usage, owner)
  {
    var metas' := metas[i := metas[i].(sizeLast := last)];
    forall b | 0 <= b < DATA_BLOCKS && owner[b].Some? ensures Lists(metas', owner[b].value, b) {
      assert Lists(metas, owner[b].value, b);
    }
  }

  lemma RawSame(disk: Disk, m: Meta, n: Meta, x: int)
    requires DiskOk(disk) && ListOk(m) && ListOk(n) && 0 <= x < m.numBlocks * BLOCK_SIZE && x < n.numBlocks * BLOCK_SIZE
    requires m.blocks[x / BLOCK_SIZE] == n.blocks[x / BLOCK_SIZE]
    ensures Raw(disk, m, x) == Raw(disk, n, x)
  {
  }

  /** File `i` with the free block `b` added to its list. */
  function WithBlock(m: Meta, b: nat): Meta
    requires 0 <= m.numBlocks < |m.blocks|
  {
    m.(blocks := m.blocks[m.numBlocks := b + DATA_BLOCKS], numBlocks := m.numBlocks + 1, sizeLast := 0)
  }

  lemma OwnedGrows(metas: seq<Meta>, usage: seq<Byte>, owner: Owner, i: nat, b: nat)
    requires Owned(metas, usage, owner) && i < NUM_FILES && metas[i].Live() && b < DATA_BLOCKS && usage[b] == 0
    ensures metas[i].numBlocks < DATA_BLOCKS
    ensures Owned(metas[i := WithBlock(metas[i], b)], usage[b := 1], owner[b := Some(Place(i, metas[i].numBlocks))])
  {
    RoomForBlock(metas, usage, owner, i, b);
    var m := WithBlock(metas[i], b);
    var metas', owner' := metas[i := m], owner[b := Some(Place(i, metas[i].numBlocks))];
    forall j, k | 0 <= j < NUM_FILES && metas'[j].Live() && 0 <= k < metas'[j].numBlocks
      ensures owner'[metas'[j].blocks[k] - DATA_BLOCKS] == Some(Place(j, k))
    {
      if j != i || k < metas[i].numBlocks {
        assert metas'[j].blocks[k] == metas[j].blocks[k];
        assert owner[metas[j].blocks[k] - DATA_BLOCKS].Some?;
      }
    }
    forall x | 0 <= x < DATA_BLOCKS && owner'[x].Some? ensures Lists(metas', owner'[x].value, x) {
      if x != b { assert Lists(metas, owner[x].value, x); }
    }
  }

  /** Adding a free block to the file changes none of the bytes it has. */
  lemma WritingExpands(s0: Tables, s: Tables, owner: Owner, i: nat, c0: nat, c: nat, buf: seq<Byte>, b: nat)
    requires Writing(s0, s, owner, i, c0, c, buf) && b < DATA_BLOCKS && b == FirstFree(s.usage)
    ensures s.metas[i].numBlocks < DATA_BLOCKS
    ensures var s' := s.(usage := s.usage[b := 1], metas := s.metas[i := WithBlock(s.metas[i], b)]);
      Writing(s0, s', owner[b := Some(Place(i, s.metas[i].numBlocks))], i, c0, c, buf)
  {
    hide Raw;
    OwnedGrows(s.metas, s.usage, owner, i, b);
    var m := s.metas[i];
    var n := WithBlock(m, b);
    forall x | 0 <= x < m.numBlocks * BLOCK_SIZE ensures Raw(s.disk, n, x) == Raw(s.disk, m, x) {
      RawSame(s.disk, m, n, x);
    }
    ExpandsOwn(s0.disk, s.disk, owner, i, b, m.numBlocks);
    GrabsMore(s0.usage, s.usage, s0.metas[i], m);
  }

  lemma ExpandsOwn(disk0: Disk, disk: Disk, owner: Owner, i: nat, b: nat, k: nat)
    requires DiskOk(disk0) && DiskOk(disk) && |owner| == DATA_BLOCKS && OnlyOwn(disk0, disk, owner, i) && b < DATA_BLOCKS
    ensures OnlyOwn(disk0, disk, owner[b := Some(Place(i, k))], i)
  {
  }

  // ---- any write -----------------------------------------------------------------------------------

  /** A write between two chunks. */
  ghost predicate Underway(course: Course, s0: Tables, s: Tables, owner: Owner, i: nat, c0: nat, c: nat, buf: seq<Byte>) {
    && |s.usage| == |owner| == DATA_BLOCKS
    && match course
       case Exact => Writing(s0, s, owner, i, c0, c, buf)
       case Orphan => Orphaned(s0, s, i, c0, c, buf)
       case Stray => Straying(s0, s, owner, i, c0, c, buf) && s.metas[i].numBlocks == s0.metas[i].numBlocks
       case Adrift => Straying(s0, s, owner, i, c0, c, buf)
  }

  /** A write before a chunk, with the block for it in place. */
  ghost predicate Ready(course: Course, s0: Tables, s: Tables, owner: Owner, i: nat, c0: nat, c: nat, buf: seq<Byte>) {
    && |s.usage| == |owner| == DATA_BLOCKS
    && match course
       case Exact => Writing(s0, s, owner, i, c0, c, buf) && c < c0 + |buf| && c < s.metas[i].numBlocks * BLOCK_SIZE
       case Orphan => Orphaned(s0, s, i, c0, c, buf) && c < c0 + |buf| && c < s.metas[i].numBlocks * BLOCK_SIZE
       case Stray => Aimed(s0, s, owner, i, c0, c, buf) && s.metas[i].numBlocks == s0.metas[i].numBlocks
       case Adrift => Aimed(s0, s, owner, i, c0, c, buf)
  }

  lemma UnderwayFacts(course: Course, s0: Tables, s: Tables, owner: Owner, i: nat, c0: nat, c: nat, buf: seq<Byte>)
    requires Underway(course, s0, s, owner, i, c0, c, buf)
    ensures DiskOk(s.disk) && i < NUM_FILES == |s0.metas| == |s.metas|
    ensures ListOk(s0.metas[i]) && ListOk(s.metas[i]) && s.metas[i].inUse == s0.metas[i].inUse
    ensures s0.metas[i].Live() ==> Owned(s.metas, s.usage, owner)
    ensures c0 <= c <= c0 + |buf|
  {
    hide Lay;
  }

  lemma ReadyAsIs(course: Course, s0: Tables, s: Tables, owner: Owner, i: nat, c0: nat, c: nat, buf: seq<Byte>)
    requires Underway(course, s0, s, owner, i, c0, c, buf) && c < c0 + |buf| && i < |s.metas|
    requires course.Inside() ==> c < s.metas[i].numBlocks * BLOCK_SIZE
    requires !course.Inside() ==> !Full(s.metas[i])
    requires course.Adrift? ==> c > (s.metas[i].numBlocks - 1) * BLOCK_SIZE
    ensures Ready(course, s0, s, owner, i, c0, c, buf)
  {
    hide Writing, Straying, Aimed, Orphaned;
    if !course.Inside() { StrayingAims(s0, s, owner, i, c0, c, buf); }
  }

  lemma ReadyExpanded(course: Course, s0: Tables, s: Tables, owner: Owner, i: nat, c0: nat, c: nat, buf: seq<Byte>, b: nat)
    requires Underway(course, s0, s, owner, i, c0, c, buf) && c < c0 + |buf| && !course.Stray?
    requires i < |s.metas| && Full(s.metas[i]) && b < DATA_BLOCKS == |s.usage|
    requires course.Inside() ==> c == s.metas[i].numBlocks * BLOCK_SIZE
    requires course.Adrift? ==> c > s.metas[i].numBlocks * BLOCK_SIZE
    requires b == FirstFree(s.usage)
    ensures 0 <= s.metas[i].numBlocks < DATA_BLOCKS == |s.metas[i].blocks| && |owner| == DATA_BLOCKS
    ensures var s' := s.(usage := s.usage[b := 1], metas := s.metas[i := WithBlock(s.metas[i], b)]);
      Ready(course, s0, s', owner[b := Some(Place(i, s.metas[i].numBlocks))], i, c0, c, buf)
  {
    hide Writing, Straying, Aimed, Orphaned;
    UnderwayFacts(course, s0, s, owner, i, c0, c, buf);
    match course
    case Exact => WritingExpands(s0, s, owner, i, c0, c, buf, b);
    case Orphan => OrphanedExpands(s0, s, i, c0, c, buf, b);
    case Adrift => StrayingExpands(s0, s, owner, i, c0, c, buf, b);
  }

  lemma ReadyChunk(course: Course, s0: Tables, s: Tables, owner: Owner, i: nat, c0: nat, c: nat, buf: seq<Byte>, d: nat)
    requires Ready(course, s0, s, owner, i, c0, c, buf) && c0 <= c && 0 < d <= c0 + |buf| - c
    requires c % BLOCK_SIZE + d <= BLOCK_SIZE && (c % BLOCK_SIZE + d == BLOCK_SIZE || c - c0 + d == |buf|)
    ensures DiskOk(s.disk) && i < |s.metas| && c / BLOCK_SIZE < |s.metas[i].blocks|
    ensures var disk' := PutBlock(s.disk, s.metas[i].blocks[c / BLOCK_SIZE], c % BLOCK_SIZE, buf[c - c0..c - c0 + d]);
      Underway(course, s0, s.(disk := disk'), owner, i, c0, c + d, buf)
  {
    hide Writing, Straying, Aimed, Orphaned, PutChunk;
    if course.Exact? {
      WritingBlock(s0, s, owner, i, c0, c, buf);
      WritingChunk(s0, s, owner, i, c0, c, buf, d);
    } else if course.Orphan? {
      OrphanedBlock(s0, s, i, c0, c, buf);
      OrphanedChunk(s0, s, i, c0, c, buf, d);
    } else {
      AimedBlock(s0, s, owner, i, c0, c, buf);
      StrayingChunk(s0, s, owner, i, c0, c, buf, d);
    }
  }

  lemma OrphanedBlock(s0: Tables, s: Tables, i: nat, c0: nat, c: nat, buf: seq<Byte>)
    requires Orphaned(s0, s, i, c0, c, buf) && c < s.metas[i].numBlocks * BLOCK_SIZE
    ensures DiskOk(s.disk) && i < |s.metas| && c / BLOCK_SIZE < |s.metas[i].blocks|
  {
  }

  lemma WritingBlock(s0: Tables, s: Tables, owner: Owner, i: nat, c0: nat, c: nat, buf: seq<Byte>)
    requires Writing(s0, s, owner, i, c0, c, buf) && c < s.metas[i].numBlocks * BLOCK_SIZE
    ensures DiskOk(s.disk) && i < |s.metas| && c / BLOCK_SIZE < |s.metas[i].blocks|
    ensures 0 <= s.metas[i].blocks[c / BLOCK_SIZE] < DISK_BLOCKS
  {
  }

  lemma AimedBlock(s0: Tables, s: Tables, owner: Owner, i: nat, c0: nat, c: nat, buf: seq<Byte>)
    requires Aimed(s0, s, owner, i, c0, c, buf)
    ensures DiskOk(s.disk) && i < |s.metas| && c / BLOCK_SIZE < |s.metas[i].blocks|
  {
  }

  lemma UnderwaySize(course: Course, s0: Tables, s: Tables, owner: Owner, i: nat, c0: nat, c: nat, buf: seq<Byte>, last: int)
    requires Underway(course, s0, s, owner, i, c0, c, buf) && c > c0
    ensures i < |s.metas|
    ensures Underway(course, s0, s.(metas := s.metas[i := s.metas[i].(sizeLast := last)]), owner, i, c0, c, buf)
  {
    hide Lay;
    if course.Exact? {
      WritingSize(s0, s, owner, i, c0, c, buf, last);
    } else if !course.Orphan? {
      StrayingSize(s0, s, owner, i, c0, c, buf, last);
    }
  }

  // ---- what comes out --------------------------------------------------------------------------

  /** The bytes of the other files, and everything on the disk but data blocks, are as before. */
  lemma WritingFrame(s0: Tables, s: Tables, owner: Owner, i: nat, c0: nat, c: nat, buf: seq<Byte>, j: nat)
    requires Writing(s0, s, owner, i, c0, c, buf) && TableOk(s0.metas)
    requires j < NUM_FILES && j != i && s0.metas[j].Live()
    ensures Content(s.disk, s.metas[j]) == Content(s0.disk, s0.metas[j])
  {
    var m := s.metas[j];
    forall k | 0 <= k < m.numBlocks ensures s.disk[m.blocks[k]] == s0.disk[m.blocks[k]] {
      assert owner[m.blocks[k] - DATA_BLOCKS] == Some(Place(j, k));
    }
  }

  lemma WritingLow(s0: Tables, s: Tables, owner: Owner, i: nat, c0: nat, c: nat, buf: seq<Byte>, b: nat)
    requires Writing(s0, s, owner, i, c0, c, buf) && b < DATA_BLOCKS
    ensures s.disk[b] == s0.disk[b]
  {
  }

  /** With the right size, the file is the old one with what was written laid over it. */
  lemma WritingContent(s0: Tables, s: Tables, owner: Owner, i: nat, c0: nat, c: nat, buf: seq<Byte>)
    requires Writing(s0, s, owner, i, c0, c, buf) && SizeOk(s0.metas[i]) && SizeOk(s.metas[i])
    requires var size := FileSize(s0.metas[i].numBlocks, s0.metas[i].sizeLast);
      c0 <= size && FileSize(s.metas[i].numBlocks, s.metas[i].sizeLast) == Max(size, c)
    ensures Content(s.disk, s.metas[i]) == Spliced(Content(s0.disk, s0.metas[i]), c0, buf[..c - c0])
  {
    hide Raw;
    var was, now := Content(s0.disk, s0.metas[i]), Content(s.disk, s.metas[i]);
    var want := Spliced(was, c0, buf[..c - c0]);
    assert |now| == |want|;
    forall x | 0 <= x < |want| ensures now[x] == want[x] {
    }
  }
}
