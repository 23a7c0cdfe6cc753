/**
 Writes that leave the file's own blocks: where their bytes go, exactly when another file is spared,
 and how such a write comes about.
 */
module FsStray {
  import opened Sequences
  import opened FsModel
  import opened FsBook
  import opened FsCodec
  import opened FsWriting
  import opened FileSystem
  import opened FsTheorems

  /** Byte `p` of a file whose blocks are `list` is at offset `off` of block `b`. */
  predicate Falls(list: seq<int>, p: int, b: int, off: int) {
    0 <= p < |list| * BLOCK_SIZE && list[p / BLOCK_SIZE] == b && p % BLOCK_SIZE == off
  }

  /** The last of the `n` bytes from `c` on that falls there, or -1. */
  function LastFall(list: seq<int>, c: nat, n: nat, b: int, off: int): (p: int)
    ensures p == -1 || (c <= p < c + n && Falls(list, p, b, off))
    ensures forall q :: c <= q < c + n && q > p ==> !Falls(list, q, b, off)
  {
    if n == 0 then -1
    else if Falls(list, c + n - 1, b, off) then c + n - 1
    else LastFall(list, c, n - 1, b, off)
  }

  /** Every byte of the disk after data has been laid out: the last that falls there, or the old one. */
  lemma {:induction false} LayAt(disk: Disk, list: seq<int>, c: nat, data: seq<Byte>, b: nat, off: nat)
    requires DiskOk(disk) && c + |data| <= |list| * BLOCK_SIZE && b < DISK_BLOCKS && off < BLOCK_SIZE
    ensures var p := LastFall(list, c, |data|, b, off);
      Lay(disk, list, c, data)[b][off] == if p < 0 then disk[b][off] else data[p - c]
  {
    if data != [] {
      var n := |data| - 1;
      LayAt(disk, list, c, data[..n], b, off);
      LayLast(disk, list, c, data, b, off);
      hide Lay, Falls, LastFall, DiskOk;
      FallNext(list, c, n, b, off);
    }
  }

  lemma FallNext(list: seq<int>, c: nat, n: nat, b: int, off: int)
    ensures LastFall(list, c, n + 1, b, off) ==
              if Falls(list, c + n, b, off) then c + n else LastFall(list, c, n, b, off)
  {
  }

  lemma LayNext(disk: Disk, list: seq<int>, c: nat, data: seq<Byte>)
    requires DiskOk(disk) && c + |data| <= |list| * BLOCK_SIZE && data != []
    ensures var n := |data| - 1;
      Lay(disk, list, c, data) ==
        PutBlock(Lay(disk, list, c, data[..n]), list[(c + n) / BLOCK_SIZE], (c + n) % BLOCK_SIZE, [data[n]])
  {
    hide PutBlock;
  }

  lemma LayLast(disk: Disk, list: seq<int>, c: nat, data: seq<Byte>, b: nat, off: nat)
    requires DiskOk(disk) && c + |data| <= |list| * BLOCK_SIZE && b < DISK_BLOCKS && off < BLOCK_SIZE && data != []
    ensures var n := |data| - 1;
      Lay(disk, list, c, data)[b][off] ==
        if Falls(list, c + n, b, off) then data[n] else Lay(disk, list, c, data[..n])[b][off]
  {
    hide PutBlock, Lay;
    var n := |data| - 1;
    LayNext(disk, list, c, data);
    PutAt(Lay(disk, list, c, data[..n]), list[(c + n) / BLOCK_SIZE], (c + n) % BLOCK_SIZE, data[n], b, off);
  }

  lemma PutAt(disk: Disk, b0: int, off0: int, v: Byte, b: nat, off: nat)
    requires DiskOk(disk) && 0 <= off0 < BLOCK_SIZE && b < DISK_BLOCKS && off < BLOCK_SIZE
    ensures PutBlock(disk, b0, off0, [v])[b][off] == if b == b0 && off == off0 then v else disk[b][off]
  {
  }

  // ---- whom it spares -----------------------------------------------------------------------------

  /** Whatever the `n` bytes are, laying them out leaves byte `off` of block `b` as it is. */
  ghost predicate KeepsByte(disk: Disk, i: nat, list: seq<int>, c: nat, n: nat, b: nat, off: nat)
    requires DiskOk(disk) && b < DISK_BLOCKS && off < BLOCK_SIZE
  {
    forall data, disk' :: |data| == n && LaidOut(disk, disk', i, list, c, data) ==> disk'[b][off] == disk[b][off]
  }

  lemma KeepsByteIff(disk: Disk, i: nat, list: seq<int>, c: nat, n: nat, b: nat, off: nat)
    requires DiskOk(disk) && i < NUM_FILES && |list| == DATA_BLOCKS && c + n <= DATA_BLOCKS * BLOCK_SIZE
    requires b < DISK_BLOCKS && !(3 * i + 1 <= b <= 3 * i + 3) && off < BLOCK_SIZE
    ensures KeepsByte(disk, i, list, c, n, b, off) <==> LastFall(list, c, n, b, off) < 0
  {
    if LastFall(list, c, n, b, off) < 0 {
      forall data, disk' | |data| == n && LaidOut(disk, disk', i, list, c, data)
        ensures disk'[b][off] == disk[b][off]
      {
        LayAt(disk, list, c, data, b, off);
      }
    } else {
      var v: Byte := if disk[b][off] == 0 then 1 else 0;
      var data: seq<Byte> := seq(n, _ => v);
      var disk' := Lay(disk, list, c, data);
      LayAt(disk, list, c, data, b, off);
      assert LaidOut(disk, disk', i, list, c, data) && disk'[b][off] != disk[b][off];
    }
  }

  /** Whatever the `n` bytes are, file `m` keeps its bytes. */
  ghost predicate KeepsFile(disk: Disk, i: nat, list: seq<int>, c: nat, n: nat, m: Meta)
    requires DiskOk(disk) && ListOk(m) && Fits(m)
  {
    forall data, disk' :: |data| == n && LaidOut(disk, disk', i, list, c, data) ==> Content(disk', m) == Content(disk, m)
  }

  /** Some of the bytes falls on a byte of file `m`. */
  ghost predicate Hits(list: seq<int>, c: nat, n: nat, m: Meta)
    requires ListOk(m) && Fits(m)
  {
    exists p, x :: c <= p < c + n && HitsAt(list, p, m, x)
  }

  predicate HitsAt(list: seq<int>, p: int, m: Meta, x: int)
    requires ListOk(m) && Fits(m)
  {
    0 <= x < FileSize(m.numBlocks, m.sizeLast) && Falls(list, p, m.blocks[x / BLOCK_SIZE], x % BLOCK_SIZE)
  }

  /** The exact condition. Writing `n` bytes from `c` on over the blocks of `list` leaves every byte of a
      file as it was, whatever is written, if and only if none of the bytes falls on one of the file's. */
  lemma KeepsFileIff(disk: Disk, i: nat, list: seq<int>, c: nat, n: nat, m: Meta)
    requires DiskOk(disk) && i < NUM_FILES && |list| == DATA_BLOCKS && c + n <= DATA_BLOCKS * BLOCK_SIZE
    requires ListOk(m) && Fits(m)
    ensures KeepsFile(disk, i, list, c, n, m) <==> !Hits(list, c, n, m)
  {
    if Hits(list, c, n, m) {
      var p, x :| c <= p < c + n && HitsAt(list, p, m, x);
      var b, off := m.blocks[x / BLOCK_SIZE], x % BLOCK_SIZE;
      KeepsByteIff(disk, i, list, c, n, b, off);
      var data, disk' :| |data| == n && LaidOut(disk, disk', i, list, c, data) && disk'[b][off] != disk[b][off];
      assert Content(disk', m)[x] != Content(disk, m)[x];
    } else {
      forall data, disk' | |data| == n && LaidOut(disk, disk', i, list, c, data)
        ensures Content(disk', m) == Content(disk, m)
      {
        forall x | 0 <= x < FileSize(m.numBlocks, m.sizeLast) ensures Raw(disk', m, x) == Raw(disk, m, x) {
          MissedByte(disk, disk', i, list, c, data, m, x);
        }
      }
    }
  }

  lemma MissedByte(disk: Disk, disk': Disk, i: nat, list: seq<int>, c: nat, data: seq<Byte>, m: Meta, x: int)
    requires LaidOut(disk, disk', i, list, c, data) && i < NUM_FILES && ListOk(m) && Fits(m)
    requires 0 <= x < FileSize(m.numBlocks, m.sizeLast) && forall p :: c <= p < c + |data| ==> !HitsAt(list, p, m, x)
    ensures Raw(disk', m, x) == Raw(disk, m, x)
  {
    var b, off := m.blocks[x / BLOCK_SIZE], x % BLOCK_SIZE;
    LayAt(disk, list, c, data, b, off);
    forall p | c <= p < c + |data| ensures !Falls(list, p, b, off) {
      assert !HitsAt(list, p, m, x);
    }
  }

  /** So a write that leaves its file's blocks spares another file if none of its bytes falls on it. */
  lemma StraySpares(s: Tables, t: Tables, i: nat, c: nat, data: seq<Byte>, j: nat)
    requires TableOk(s.metas) && StrayResult(s, t, i, c, data) && j < NUM_FILES
    requires !Hits(Via(s.metas[i], t.metas[i]), c, |data|, s.metas[j])
    ensures Content(t.disk, s.metas[j]) == Content(s.disk, s.metas[j])
  {
    KeepsFileIff(s.disk, i, Via(s.metas[i], t.metas[i]), c, |data|, s.metas[j]);
  }

  /** And a write to a deleted file, which goes where that file's list says, spares another file if none
      of its bytes falls on it. */
  lemma OrphanSpares(s: Tables, t: Tables, i: nat, c: nat, data: seq<Byte>, j: nat)
    requires TableOk(s.metas) && OrphanResult(s, t, i, c, data) && j < NUM_FILES
    requires !Hits(t.metas[i].blocks, c, |data|, s.metas[j])
    ensures Content(t.disk, s.metas[j]) == Content(s.disk, s.metas[j])
  {
    KeepsFileIff(s.disk, i, t.metas[i].blocks, c, |data|, s.metas[j]);
  }

  /** What such a write, if it adds no block, has put behind the file's blocks is read from there: the last of
      its bytes that fall on the same place, unless that is in the blocks in which the slot is saved. */
  lemma StrayReadBack(s: Tables, t: Tables, i: nat, c: nat, data: seq<Byte>, x: nat)
    requires StrayResult(s, t, i, c, data) && Legible(t.metas[i])
    requires t.metas[i].numBlocks == s.metas[i].numBlocks && t.metas[i].blocks == s.metas[i].blocks
    requires c <= x < c + |data| && x < FileSize(t.metas[i].numBlocks, t.metas[i].sizeLast)
    requires !(3 * i + 1 <= t.metas[i].blocks[x / BLOCK_SIZE] <= 3 * i + 3)
    ensures var p := LastFall(t.metas[i].blocks, c, |data|, t.metas[i].blocks[x / BLOCK_SIZE], x % BLOCK_SIZE);
      x <= p < c + |data| && x < |Extent(t.disk, t.metas[i])| && Extent(t.disk, t.metas[i])[x] == data[p - c]
  {
    hide Lay;
    var list := t.metas[i].blocks;
    LayAt(s.disk, list, c, data, list[x / BLOCK_SIZE], x % BLOCK_SIZE);
    assert Falls(list, x, list[x / BLOCK_SIZE], x % BLOCK_SIZE);
  }

  /** Whatever the `n` bytes are, the blocks of file `m` stay as they are. */
  ghost predicate KeepsBlocks(disk: Disk, i: nat, list: seq<int>, c: nat, n: nat, m: Meta)
    requires DiskOk(disk) && ListOk(m)
  {
    forall data, disk' :: |data| == n && LaidOut(disk, disk', i, list, c, data) ==>
      forall l :: 0 <= l < m.numBlocks ==> disk'[m.blocks[l]] == disk[m.blocks[l]]
  }

  /** Some entry that the bytes go through names a block of file `m`. */
  ghost predicate Names(list: seq<int>, c: nat, n: nat, m: Meta)
    requires ListOk(m)
  {
    exists k, l :: NamesAt(list, c, n, m, k, l)
  }

  predicate NamesAt(list: seq<int>, c: nat, n: nat, m: Meta, k: int, l: int)
    requires ListOk(m)
  {
    && n > 0 && c / BLOCK_SIZE <= k <= (c + n - 1) / BLOCK_SIZE && 0 <= k < |list|
    && 0 <= l < m.numBlocks && list[k] == m.blocks[l]
  }

  /** In terms of whole blocks: they are safe, whatever is written, if and only if none of the list entries
      from the first to the last that the write goes through names one of them. */
  lemma KeepsBlocksIff(disk: Disk, i: nat, list: seq<int>, c: nat, n: nat, m: Meta)
    requires DiskOk(disk) && i < NUM_FILES && |list| == DATA_BLOCKS && c + n <= DATA_BLOCKS * BLOCK_SIZE && ListOk(m)
    ensures KeepsBlocks(disk, i, list, c, n, m) <==> !Names(list, c, n, m)
  {
    if Names(list, c, n, m) {
      var k, l :| NamesAt(list, c, n, m, k, l);
      var p := if c / BLOCK_SIZE == k then c else k * BLOCK_SIZE;
      FirstInBlock(c, n, k, p);
      var b, off := m.blocks[l], p % BLOCK_SIZE;
      assert Falls(list, p, b, off);
      KeepsByteIff(disk, i, list, c, n, b, off);
      var data, disk' :| |data| == n && LaidOut(disk, disk', i, list, c, data) && disk'[b][off] != disk[b][off];
      assert disk'[m.blocks[l]] != disk[m.blocks[l]];
    } else {
      forall data, disk', l | |data| == n && LaidOut(disk, disk', i, list, c, data) && 0 <= l < m.numBlocks
        ensures disk'[m.blocks[l]] == disk[m.blocks[l]]
      {
        forall off | 0 <= off < BLOCK_SIZE ensures disk'[m.blocks[l]][off] == disk[m.blocks[l]][off] {
          LayAt(disk, list, c, data, m.blocks[l], off);
          FallNames(list, c, n, m, l, off);
        }
      }
    }
  }

  lemma FallNames(list: seq<int>, c: nat, n: nat, m: Meta, l: nat, off: int)
    requires ListOk(m) && l < m.numBlocks
    ensures LastFall(list, c, n, m.blocks[l], off) >= 0 ==> Names(list, c, n, m)
  {
    var p := LastFall(list, c, n, m.blocks[l], off);
    if p >= 0 {
      BlockInRange(c, n, p);
      assert NamesAt(list, c, n, m, p / BLOCK_SIZE, l);
    }
  }

  lemma FirstInBlock(c: nat, n: nat, k: int, p: int)
    requires n > 0 && c / BLOCK_SIZE <= k <= (c + n - 1) / BLOCK_SIZE
    requires p == if c / BLOCK_SIZE == k then c else k * BLOCK_SIZE
    ensures c <= p < c + n && p / BLOCK_SIZE == k
  {
  }

  lemma BlockInRange(c: nat, n: nat, p: int)
    requires c <= p < c + n
    ensures c / BLOCK_SIZE <= p / BLOCK_SIZE <= (c + n - 1) / BLOCK_SIZE
  {
  }

  // ---- how it comes about ---------------------------------------------------------------------------

  /** Creates a file in an unused slot and opens it in descriptor 0; no other file has the name. */
  method CreateOpen(fs: FileSystem, name: seq<Byte>, i: nat) returns (fd: nat)
    requires fs.Valid() && fs.active && |name| >= NAMELEN && i < NUM_FILES
    requires AllClosed(fs.descs[..]) && FirstUnused(fs.metas[..], i)
    requires forall j :: 0 <= j < NUM_FILES && fs.metas[j].Live() ==> !SameName(fs.metas[j].name, name)
    modifies fs.disk, fs.metas, fs.descs
    ensures fs.Valid() && fd < OPEN_FILES && fs.descs[..] == old(fs.descs[..])[fd := Descriptor(i, 0)]
    ensures fs.metas[..] == old(fs.metas[..])[i := Meta(1, name[..NAMELEN], 0, 0, old(fs.metas[i]).blocks)]
    ensures OnlySlotSaved(old(fs.disk[..]), fs.disk[..], i)
  {
    hide SameSlot, Content, MetaOnDisk, Owned, Saved, SizesOk;
    ghost var s := fs.Now();
    var r := fs.Create(name);
    ghost var k :| Created(s, fs.Now(), k, name);
    assert Matches(fs.metas[i], name) && fs.descs[0].file == -1;
    var at := fs.Open(name);
    fd := at;
  }

  /** The books of a file without blocks after `n` bytes have been appended for which there is room. */
  lemma FirstAppend(s: Tables, t: Tables, owner: Owner, i: nat, data: seq<Byte>)
    requires Appends(s, t, owner, i, data) && s.metas[i].numBlocks == 0
    requires 0 < |data| <= BLOCK_SIZE * CountFree(s.usage)
    ensures i < |t.metas| && FileSize(t.metas[i].numBlocks, t.metas[i].sizeLast) == |data|
    ensures SizeOk(t.metas[i]) && t.metas[i].numBlocks >= 0
    ensures Grabbed(s.usage, t.usage, s.metas[i], t.metas[i])
    ensures forall j :: 0 <= j < NUM_FILES && j != i ==> t.metas[j] == s.metas[j]
    ensures DiskOk(t.disk) && ListOk(t.metas[i]) && Content(t.disk, t.metas[i]) == data
    ensures OthersSaved(s, t, i)
  {
    hide Write, Owned, SameSlot, Content, CountFree, Grabbed;
    AppendContent(s, t, owner, i, data);
    AppendIs(AppendBook(s, i, |data|));
    assert Content(s.disk, s.metas[i]) == [];
    assert data[..|data|] == data;
  }

  /** A file of six bytes. */
  ghost predicate SixBytes(fs: FileSystem, fd: nat, i: nat)
    requires fs.Mounted()
    reads fs, fs.disk, fs.metas, fs.descs
  {
    && fd < OPEN_FILES && i < NUM_FILES && fs.descs[fd] == Descriptor(i, 0)
    && fs.metas[i].Live() && fs.metas[i].numBlocks == 1 && fs.metas[i].sizeLast == 6
  }

  /** Writes six bytes to an empty file and seeks back to the start. */
  method WriteSix(fs: FileSystem, fd: nat, i: nat, data: seq<Byte>)
    requires fs.Valid() && fs.active && fd < OPEN_FILES && i < NUM_FILES && |data| == 6
    requires fs.descs[fd] == Descriptor(i, 0) && fs.metas[i].Live() && fs.metas[i].numBlocks == 0
    requires exists b :: 0 <= b < DATA_BLOCKS && fs.usage[b] == 0
    modifies fs.disk, fs.usage, fs.metas, fs.descs, fs`owner
    ensures fs.Valid() && SixBytes(fs, fd, i)
    ensures forall k :: 1 <= k < DATA_BLOCKS ==> fs.metas[i].blocks[k] == old(fs.metas[i]).blocks[k]
    ensures forall j :: 0 <= j < NUM_FILES && j != i ==> SameSlot(old(fs.Now()), fs.Now(), j)
  {
    hide Appends, Owned, Saved, Content, CountFree;
    ghost var s := fs.Now();
    CountFreeNone(s.usage);
    var w := Append(fs, fd, data);
    FirstAppend(s, fs.Now(), fs.owner, i, data);
    AppendOthers(s, fs.Now(), fs.owner, i, data);
    var r := fs.Lseek(fd, 0);
  }

  lemma AppendOthers(s: Tables, t: Tables, owner: Owner, i: nat, data: seq<Byte>)
    requires Appends(s, t, owner, i, data)
    ensures DiskOk(s.disk) && TableOk(s.metas) && DiskOk(t.disk) && |t.metas| == NUM_FILES
    ensures forall j :: 0 <= j < NUM_FILES && j != i ==> SameSlot(s, t, j)
  {
  }

  /** One byte more than a block, from the start of that file. */
  method CrossEnd(fs: FileSystem, fd: nat, i: nat, data: seq<Byte>)
    requires fs.Valid() && fs.active && SixBytes(fs, fd, i) && |data| == BLOCK_SIZE + 1
    modifies fs.disk, fs.usage, fs.metas, fs.descs, fs`owner
    ensures DiskOk(fs.disk[..]) && LaidOut(old(fs.disk[..]), fs.disk[..], i, old(fs.metas[i]).blocks, 0, data)
    ensures forall j :: 0 <= j < NUM_FILES && j != i ==> fs.metas[j] == old(fs.metas[j])
  {
    hide Owned, Saved, Lay, Write;
    StrayTakesAll(fs.BookOf(fd, |data|));
    var w := fs.Write(fd, data);
    assert data[..w] == data;
  }

  lemma CrossLands(disk: Disk, disk': Disk, i: nat, list: seq<int>, data: seq<Byte>)
    requires LaidOut(disk, disk', i, list, 0, data) && |data| == BLOCK_SIZE + 1
    requires 0 <= list[1] < DISK_BLOCKS && !(3 * i + 1 <= list[1] <= 3 * i + 3)
    ensures disk'[list[1]][0] == data[BLOCK_SIZE]
  {
    LayAt(disk, list, 0, data, list[1], 0);
  }

  /** On a fresh disk: six bytes, back to the start, and a block and a byte. The second chunk goes to the
      block that the unused entry names, which is block 0, where the usage map is loaded from. */
  method StrayIntoMap(stale: seq<Meta>, name: seq<Byte>, data: seq<Byte>) returns (fs: FileSystem)
    requires |stale| == NUM_FILES && forall i :: 0 <= i < NUM_FILES ==> |stale[i].blocks| == DATA_BLOCKS
    requires |name| >= NAMELEN && |data| == BLOCK_SIZE + 1
    ensures DiskOk(fs.disk[..]) && fs.disk[0][0] == data[BLOCK_SIZE]
  {
    fs := MakeAndMount(true, stale);
    assert fs.metas[0].blocks[1] == 0;
    var fd := CreateOpen(fs, name, 0);
    assert fs.usage[0] == 0;
    WriteSix(fs, fd, 0, data[..6]);
    ghost var disk, list := fs.disk[..], fs.metas[0].blocks;
    CrossEnd(fs, fd, 0, data);
    CrossLands(disk, fs.disk[..], 0, list, data);
  }

  lemma GrabNone(usage: seq<Byte>, blocks: seq<int>)
    ensures Grab(usage, blocks, 0, 0) == (usage, blocks)
  {
  }

  lemma GrabTwo(u: seq<Byte>, blocks: seq<int>)
    requires |u| == |blocks| == DATA_BLOCKS && u[0] == u[1] == 0
    ensures Grab(u, blocks, 0, 2) == (u[0 := 1][1 := 1], blocks[0 := DATA_BLOCKS][1 := DATA_BLOCKS + 1])
  {
    hide Grab, FirstFree;
    GrabNone(u, blocks);
    FirstFreeIs(u, 0);
    GrabNext(u, blocks, 0, 0, u, blocks);
    FirstFreeIs(u[0 := 1], 1);
    GrabNext(u, blocks, 0, 1, u[0 := 1], blocks[0 := DATA_BLOCKS]);
  }

  /** On a blank usage map, the file has the first two blocks, full of zeroes, and no other is in use. */
  ghost predicate TwoBlocks(fs: FileSystem, i: nat)
    requires fs.Mounted() && i < NUM_FILES
    reads fs, fs.disk, fs.usage, fs.metas, fs.descs
  {
    && fs.metas[i].Live() && fs.metas[i].numBlocks == 2
    && fs.metas[i].blocks[0] == DATA_BLOCKS && fs.metas[i].blocks[1] == DATA_BLOCKS + 1
    && Content(fs.disk[..], fs.metas[i]) == Blank() + Blank()
    && fs.usage[..] == Blank()[0 := 1][1 := 1]
  }

  method WriteTwo(fs: FileSystem, fd: nat, i: nat)
    requires fs.signed && fs.Valid() && fs.active && fd < OPEN_FILES && i < NUM_FILES
    requires fs.descs[fd] == Descriptor(i, 0) && fs.metas[i].Live() && fs.metas[i].numBlocks == 0
    requires fs.usage[..] == Blank()
    modifies fs.disk, fs.usage, fs.metas, fs.descs, fs`owner
    ensures fs.Valid() && TwoBlocks(fs, i) && fs.descs[fd].file == -1
    ensures forall d :: 0 <= d < OPEN_FILES && d != fd ==> fs.descs[d] == old(fs.descs[d])
    ensures fs.metas[i].name == old(fs.metas[i].name)
    ensures forall j :: 0 <= j < NUM_FILES && j != i ==> fs.metas[j] == old(fs.metas[j])
  {
    hide Appends, Owned, Saved, Content, CountFree, Grab, OthersSaved;
    ghost var s := fs.Now();
    CountFreeAll(s.usage);
    var w := Append(fs, fd, Blank() + Blank());
    TwoAppended(s, fs.Now(), fs.owner, i);
    var r := fs.Close(fd);
  }

  lemma TwoAppended(s: Tables, t: Tables, owner: Owner, i: nat)
    requires Appends(s, t, owner, i, Blank() + Blank()) && s.metas[i].numBlocks == 0
    requires s.usage == Blank() && CountFree(s.usage) == DATA_BLOCKS && |s.metas[i].blocks| == DATA_BLOCKS
    ensures i < |s.metas| && i < |t.metas| && t.metas[i].Live() && t.metas[i].name == s.metas[i].name
    ensures t.metas[i].numBlocks == 2 && |t.metas[i].blocks| == DATA_BLOCKS
    ensures t.metas[i].blocks[0] == DATA_BLOCKS && t.metas[i].blocks[1] == DATA_BLOCKS + 1
    ensures DiskOk(t.disk) && ListOk(t.metas[i]) && Fits(t.metas[i])
    ensures Content(t.disk, t.metas[i]) == Blank() + Blank() && t.usage == Blank()[0 := 1][1 := 1]
    ensures forall j :: 0 <= j < NUM_FILES && j != i ==> t.metas[j] == s.metas[j]
  {
    hide Appends, Content, CountFree, Grab;
    FirstAppend(s, t, owner, i, Blank() + Blank());
    AppendNamed(s, t, owner, i, Blank() + Blank());
    GrabTwo(s.usage, s.metas[i].blocks);
  }

  lemma AppendNamed(s: Tables, t: Tables, owner: Owner, i: nat, data: seq<Byte>)
    requires Appends(s, t, owner, i, data)
    ensures i < |s.metas| && i < |t.metas| && t.metas[i].name == s.metas[i].name && t.metas[i].Live()
  {
  }

  lemma {:induction false} CountFreeAll(usage: seq<Byte>)
    requires forall b :: 0 <= b < |usage| ==> usage[b] == 0
    ensures CountFree(usage) == |usage|
  {
    if usage != [] { CountFreeAll(usage[..|usage| - 1]); }
  }

  /** Two full blocks for a file in slot 0, which is then deleted: the slot keeps its block list. */
  method LeaveEntries(stale: seq<Meta>, a: seq<Byte>) returns (fs: FileSystem)
    requires |stale| == NUM_FILES && forall i :: 0 <= i < NUM_FILES ==> |stale[i].blocks| == DATA_BLOCKS
    requires |a| >= NAMELEN
    ensures fresh(fs) && fresh(fs.disk) && fresh(fs.usage) && fresh(fs.metas) && fresh(fs.descs)
    ensures fs.signed && fs.active && fs.Valid() && AllClosed(fs.descs[..]) && fs.usage[..] == Blank()
    ensures forall i :: 0 <= i < NUM_FILES ==> !fs.metas[i].Live()
    ensures fs.metas[0].blocks[1] == DATA_BLOCKS + 1
  {
    hide SameSlot, Content, MetaOnDisk, Owned, Saved, SizesOk;
    fs := MakeAndMount(true, stale);
    var fd := CreateOpen(fs, a, 0);
    WriteTwo(fs, fd, 0);
    ghost var s := fs.Now();
    var r := fs.Delete(a);
    ghost var i :| Deleted(s, fs.Now(), i);
    TwoReleased(s.metas[0], s.usage, fs.usage[..]);
  }

  lemma TwoReleased(m: Meta, usage: seq<Byte>, usage': seq<Byte>)
    requires ListOk(m) && m.numBlocks == 2 && m.blocks[0] == DATA_BLOCKS && m.blocks[1] == DATA_BLOCKS + 1
    requires usage == Blank()[0 := 1][1 := 1] && |usage'| == DATA_BLOCKS
    requires forall b :: 0 <= b < DATA_BLOCKS ==> usage'[b] == if ListsBlock(m, b) then 0 else usage[b]
    ensures usage' == Blank()
  {
    assert m.blocks[0] == 0 + DATA_BLOCKS && m.blocks[1] == 1 + DATA_BLOCKS;
    assert ListsBlock(m, 0) && ListsBlock(m, 1);
  }

  /** A file of six bytes in slot 0, whose unused second entry names the second block of the file in
      slot 1, which is full of zeroes. */
  ghost predicate StaleEntry(fs: FileSystem, fd: nat)
    requires fs.Mounted()
    reads fs, fs.disk, fs.metas, fs.descs
  {
    && SixBytes(fs, fd, 0) && fs.metas[0].blocks[1] == DATA_BLOCKS + 1
    && fs.metas[1].Live() && fs.metas[1].numBlocks == 2 && fs.metas[1].blocks[1] == DATA_BLOCKS + 1
    && Content(fs.disk[..], fs.metas[1]) == Blank() + Blank()
  }

  /** Such a state is reached on a fresh disk: delete a file of two blocks, create one in its slot and
      another that gets the blocks, and write six bytes to the first. */
  method LeaveStaleEntry(stale: seq<Meta>, a: seq<Byte>, b: seq<Byte>) returns (fs: FileSystem, fd: nat)
    requires |stale| == NUM_FILES && forall i :: 0 <= i < NUM_FILES ==> |stale[i].blocks| == DATA_BLOCKS
    requires |a| >= NAMELEN && |b| >= NAMELEN && !SameName(b[..NAMELEN], a)
    ensures fresh(fs) && fresh(fs.disk) && fresh(fs.usage) && fresh(fs.metas) && fresh(fs.descs)
    ensures fs.active && fs.Valid() && StaleEntry(fs, fd)
  {
    hide SameSlot, Content, MetaOnDisk, Owned, Saved, SizesOk;
    fs := TakeEntries(stale, a, b);
    fd := Reopen(fs, b, 0);
    assert fs.usage[2] == 0;
    ghost var s := fs.Now();
    WriteSix(fs, fd, 0, seq(6, _ => 0));
    KeptContent(s, fs.Now(), 1);
  }

  /** The slot and the blocks are used again, by different files. */
  method TakeEntries(stale: seq<Meta>, a: seq<Byte>, b: seq<Byte>) returns (fs: FileSystem)
    requires |stale| == NUM_FILES && forall i :: 0 <= i < NUM_FILES ==> |stale[i].blocks| == DATA_BLOCKS
    requires |a| >= NAMELEN && |b| >= NAMELEN && !SameName(b[..NAMELEN], a)
    ensures fresh(fs) && fresh(fs.disk) && fresh(fs.usage) && fresh(fs.metas) && fresh(fs.descs)
    ensures fs.signed && fs.active && fs.Valid() && AllClosed(fs.descs[..]) && TwoBlocks(fs, 1)
    ensures fs.metas[0] == Meta(1, b[..NAMELEN], 0, 0, fs.metas[0].blocks) && fs.metas[0].blocks[1] == DATA_BLOCKS + 1
  {
    hide SameSlot, Content, MetaOnDisk, Owned, Saved, SizesOk, SameName;
    fs := LeaveEntries(stale, a);
    var d := CreateOpen(fs, b, 0);
    var r := fs.Close(d);
    d := CreateOpen(fs, a, 1);
    WriteTwo(fs, d, 1);
  }

  lemma KeptContent(s: Tables, t: Tables, j: nat)
    requires DiskOk(s.disk) && TableOk(s.metas) && DiskOk(t.disk) && |t.metas| == NUM_FILES && j < NUM_FILES
    requires SameSlot(s, t, j) && s.metas[j].Live()
    ensures t.metas[j] == s.metas[j] && Content(t.disk, t.metas[j]) == Content(s.disk, s.metas[j])
  {
  }

  /** Opens the file in slot `i`, the first with its name. */
  method Reopen(fs: FileSystem, name: seq<Byte>, i: nat) returns (fd: nat)
    requires fs.Valid() && fs.active && AllClosed(fs.descs[..]) && |name| >= NAMELEN && i < NUM_FILES
    requires fs.metas[i].Live() && fs.metas[i].name == name[..NAMELEN]
    requires forall j :: 0 <= j < i ==> !Matches(fs.metas[j], name)
    modifies fs.descs
    ensures fs.Valid() && fd < OPEN_FILES && fs.descs[fd] == Descriptor(i, 0)
  {
    assert Matches(fs.metas[i], name) && fs.descs[0].file == -1;
    var at := fs.Open(name);
    fd := at;
  }

  /** And there a block and a byte, written to the first file, change the second. */
  method StrayIntoFile(fs: FileSystem, fd: nat, data: seq<Byte>)
    requires fs.Valid() && fs.active && StaleEntry(fs, fd) && |data| == BLOCK_SIZE + 1
    modifies fs.disk, fs.usage, fs.metas, fs.descs, fs`owner
    ensures DiskOk(fs.disk[..]) && fs.metas[1] == old(fs.metas[1]) && ListOk(fs.metas[1]) && Fits(fs.metas[1])
    ensures old(Content(fs.disk[..], fs.metas[1]))[BLOCK_SIZE] == 0
    ensures Content(fs.disk[..], fs.metas[1])[BLOCK_SIZE] == data[BLOCK_SIZE]
  {
    ghost var disk, list, m := fs.disk[..], fs.metas[0].blocks, fs.metas[1];
    assert Content(disk, m)[BLOCK_SIZE] == (Blank() + Blank())[BLOCK_SIZE] == 0;
    hide Owned, Saved, Lay, LaidOut;
    CrossEnd(fs, fd, 0, data);
    CrossLands(disk, fs.disk[..], 0, list, data);
    assert Raw(fs.disk[..], m, BLOCK_SIZE) == fs.disk[DATA_BLOCKS + 1][0];
  }
}
