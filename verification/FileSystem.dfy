/**
 The file system: tables in memory updated in place over a disk of blocks. The disk file is an array
 of blocks; a block access outside it fails.
 */
module FileSystem {
  import opened Sequences
  import opened FsModel
  import opened FsBook
  import opened FsCodec
  import opened FsWriting
  import opened FsTruncate

  /** Every descriptor is closed, or open on a slot of the table. */
  ghost predicate DescsOk(descs: seq<Descriptor>) {
    |descs| == OPEN_FILES && forall d :: 0 <= d < OPEN_FILES ==> -1 <= descs[d].file < NUM_FILES && descs[d].cursor >= 0
  }

  /** Only the cursor of descriptor `fd` has changed, to `cursor`. */
  ghost predicate Moved(was: seq<Descriptor>, now: seq<Descriptor>, fd: nat, cursor: int)
    requires fd < |was|
  {
    now == was[fd := was[fd].(cursor := cursor)]
  }

  lemma MovedNowhere(descs: seq<Descriptor>, fd: nat)
    requires fd < |descs|
    ensures Moved(descs, descs, fd, descs[fd].cursor)
  {
  }

  lemma MovedOnce(was: seq<Descriptor>, now: seq<Descriptor>, fd: nat, cursor: int)
    requires fd < |was| && Moved(was, now, fd, cursor)
    ensures |now| == |was| && now[fd].file == was[fd].file && now[fd].cursor == cursor
  {
  }

  lemma MovedTwice(a: seq<Descriptor>, b: seq<Descriptor>, c: seq<Descriptor>, fd: nat, x: int, y: int)
    requires fd < |a| == |b| && Moved(a, b, fd, x) && Moved(b, c, fd, y)
    ensures Moved(a, c, fd, y)
  {
  }

  class FileSystem {
    const signed: bool   // whether `char` is signed; a descriptor's `file` is one, and so are the bytes read
    var active: bool
    const disk: array<seq<Byte>>
    var usage: array<Byte>
    var metas: array<Meta>
    var descs: array<Descriptor>
    ghost var owner: Owner   // whom each data block in use belongs to

    ghost predicate Allocated()
      reads this
    {
      && disk.Length == DISK_BLOCKS && usage.Length == DATA_BLOCKS
      && metas.Length == NUM_FILES && descs.Length == OPEN_FILES
    }

    ghost function Now(): Tables
      reads this, disk, usage, metas
    {
      Tables(disk[..], usage[..], metas[..])
    }

    /** The tables are in place and the block lists and sizes are in order. */
    ghost predicate Tabled()
      reads this, disk, metas
    {
      Allocated() && DiskOk(disk[..]) && TableOk(metas[..])
    }

    /** So are the descriptors. Where `char` is unsigned they never are: see `MountFs`. */
    ghost predicate Mounted()
      reads this, disk, metas, descs
    {
      Tabled() && DescsOk(descs[..])
    }

    /** The usage map agrees with the block lists, and the disk with the table. */
    ghost predicate InOrder()
      reads this, disk, usage, metas
    {
      Tabled() && StateOk(Now(), owner)
    }

    /** All of this: in order, and the descriptors too. */
    ghost predicate Valid()
      reads this, disk, usage, metas, descs
    {
      Mounted() && StateOk(Now(), owner)
    }

    // ---- the disk ----------------------------------------------------------------------------

    method BlockRead(block: int, buf: seq<Byte>) returns (r: int, data: seq<Byte>)
      requires disk.Length == DISK_BLOCKS
      ensures if active && 0 <= block < DISK_BLOCKS then r == 0 && data == disk[block] else r == -1 && data == buf
    {
      if !active || block < 0 || block >= DISK_BLOCKS {
        return -1, buf;
      }
      return 0, disk[block];
    }

    method BlockWrite(block: int, buf: seq<Byte>) returns (r: int)
      requires disk.Length == DISK_BLOCKS
      modifies disk
      ensures if active && 0 <= block < DISK_BLOCKS
              then r == 0 && disk[..] == old(disk[..])[block := buf]
              else r == -1 && disk[..] == old(disk[..])
    {
      if !active || block < 0 || block >= DISK_BLOCKS {
        return -1;
      }
      disk[block] := buf;
      return 0;
    }

    /** `make_fs`: a disk of zeroes. */
    constructor MakeFs(signed: bool)
      ensures this.signed == signed && !active && fresh(disk) && disk.Length == DISK_BLOCKS
      ensures forall b :: 0 <= b < DISK_BLOCKS ==> disk[b] == seq(BLOCK_SIZE, _ => 0)
    {
      this.signed := signed;
      active := false;
      disk := new seq<Byte>[DISK_BLOCKS];
      usage, metas, descs := new Byte[0], new Meta[0], new Descriptor[0];
      owner := [];
      new;
      var empty: seq<Byte> := seq(BLOCK_SIZE, _ => 0);
      var i := 0;
      while i < DISK_BLOCKS
        modifies disk
        invariant 0 <= i <= DISK_BLOCKS
        invariant forall b :: 0 <= b < i ==> disk[b] == empty
      {
        disk[i] := empty;
        i := i + 1;
      }
    }

    // ---- metadata ----------------------------------------------------------------------------

    /** Writes slot `i` through to its three blocks. */
    method SaveFileMeta(i: nat) returns (r: int)
      requires Allocated() && DiskOk(disk[..]) && i < NUM_FILES && MetaSized(metas[i])
      modifies disk
      ensures !active ==> r == -1 && disk[..] == old(disk[..])
      ensures active ==> r == 0 && DiskOk(disk[..]) && MetaOnDisk(disk[..], i, metas[i])
      ensures forall b :: 0 <= b < DISK_BLOCKS && !(3 * i + 1 <= b <= 3 * i + 3) ==> disk[b] == old(disk[b])
    {
      if !active {
        return -1;
      }
      hide EncodesInfo, EncodesList;
      var m := metas[i];
      var data := new Byte[BLOCK_SIZE];
      FillInfo(data, m);
      var r1 := BlockWrite(3 * i + 1, data[..]);
      FillList(data, m, 0);
      var r2 := BlockWrite(3 * i + 2, data[..]);
      FillList(data, m, DISK_BLOCKS / 4);
      var r3 := BlockWrite(3 * i + 3, data[..]);
      return 0;
    }

    /** The fixed part of the slot into the buffer; the rest of the buffer is left as it is. */
    method FillInfo(data: array<Byte>, m: Meta)
      requires data.Length == BLOCK_SIZE && MetaSized(m)
      modifies data
      ensures EncodesInfo(data[..], m)
    {
      data[0] := m.inUse;
      forall j | 0 <= j < NAMELEN { data[1 + j] := m.name[j]; }
      data[NAMELEN + 2] := Hi(m.numBlocks);
      data[NAMELEN + 3] := Lo(m.numBlocks);
      data[NAMELEN + 4] := Hi(m.sizeLast);
      data[NAMELEN + 5] := Lo(m.sizeLast);
      assert data[1..NAMELEN + 1] == m.name;
    }

    /** One half of the block list into the buffer. */
    method FillList(data: array<Byte>, m: Meta, first: nat)
      requires data.Length == BLOCK_SIZE && MetaSized(m) && first + DISK_BLOCKS / 4 <= DATA_BLOCKS
      modifies data
      ensures EncodesList(data[..], m, first)
    {
      var k := 0;
      while k < DISK_BLOCKS / 4
        invariant 0 <= k <= DISK_BLOCKS / 4
        invariant forall j :: 0 <= j < k ==> data[2 * j] == Hi(m.blocks[first + j]) && data[2 * j + 1] == Lo(m.blocks[first + j])
      {
        data[2 * k] := Hi(m.blocks[first + k]);
        data[2 * k + 1] := Lo(m.blocks[first + k]);
        k := k + 1;
      }
    }

    /** The first free data block, or -1. */
    method FindEmptyBlock() returns (b: int)
      requires Allocated()
      ensures b == -1 || 0 <= b < DATA_BLOCKS
      ensures b == -1 <==> !active || CountFree(usage[..]) == 0
      ensures b >= 0 ==> usage[b] == 0 && b == FirstFree(usage[..])
    {
      if !active {
        return -1;
      }
      CountFreeNone(usage[..]);
      b := 0;
      while b < DATA_BLOCKS
        invariant 0 <= b <= DATA_BLOCKS
        invariant forall j :: 0 <= j < b ==> usage[j] != 0
      {
        if usage[b] == 0 {
          FirstFreeIs(usage[..], b);
          return;
        }
        b := b + 1;
      }
      b := -1;
    }

    // ---- creating and deleting ------------------------------------------------------------------

    /** `fs_create`: takes the first unused slot. Names are not checked for being taken. */
    method Create(name: seq<Byte>) returns (r: int)
      requires InOrder() && |name| >= NAMELEN
      modifies metas, disk
      ensures InOrder() && usage[..] == old(usage[..]) && owner == old(owner)
      ensures r == 0 <==> active && exists i :: 0 <= i < NUM_FILES && !old(metas[i]).Live()
      ensures r != 0 ==> r == -1 && Now() == old(Now())
      ensures r == 0 ==> exists i :: Created(old(Now()), Now(), i, name)
    {
      if !active {
        return -1;
      }
      var i := 0;
      while i < NUM_FILES
        modifies {}
        invariant 0 <= i <= NUM_FILES
        invariant forall j :: 0 <= j < i ==> metas[j].Live()
        decreases NUM_FILES - i
      {
        if !metas[i].Live() { break; }
        i := i + 1;
      }
      if i == NUM_FILES {
        return -1;
      }
      ghost var s0 := Now();
      metas[i] := metas[i].(inUse := 1, name := name[..NAMELEN], numBlocks := 0, sizeLast := 0);
      ghost var s1 := Now();
      CreateOwned(s0.metas, usage[..], owner, i, metas[i]);
      r := SaveFileMeta(i);
      ResavedOk(s0, s1, Now(), owner, i);
      assert Created(s0, Now(), i, name);
    }

    /** `fs_delete`: whatever the name, the first slot in use goes, and its blocks become free. */
    method Delete(name: seq<Byte>) returns (r: int)
      requires InOrder()
      modifies metas, disk, usage, this`owner
      ensures InOrder()
      ensures r == 0 <==> active && exists i :: 0 <= i < NUM_FILES && old(metas[i]).Live()
      ensures r != 0 ==> r == -1 && Now() == old(Now())
      ensures r == 0 ==> exists i :: Deleted(old(Now()), Now(), i)
    {
      if !active {
        return -1;
      }
      var i := 0;
      while i < NUM_FILES
        modifies {}
        invariant 0 <= i <= NUM_FILES
        invariant forall j :: 0 <= j < i ==> !metas[j].Live()
        decreases NUM_FILES - i
      {
        if metas[i].Live() { break; }
        i := i + 1;
      }
      if i == NUM_FILES {
        return -1;
      }
      hide Content, MetaOnDisk, SameSlot, SizeOk;
      ghost var s0, ow := Now(), owner;
      metas[i] := metas[i].(inUse := 0);
      ReleaseBlocks(metas[i]);
      ghost var s1 := Now();
      owner := seq(DATA_BLOCKS, b requires 0 <= b < DATA_BLOCKS =>
        if |ow| == DATA_BLOCKS && !ListsBlock(s0.metas[i], b) then ow[b] else None);
      DeleteOwned(s0.metas, s0.usage, ow, i, s1.metas, s1.usage, owner);
      r := SaveFileMeta(i);
      ResavedOk(s0, s1, Now(), owner, i);
      assert Deleted(s0, Now(), i);
    }

    /** Marks the blocks a file lists as free. */
    method ReleaseBlocks(m: Meta)
      requires Allocated() && ListOk(m)
      modifies usage
      ensures forall b :: 0 <= b < DATA_BLOCKS ==> usage[b] == if ListsBlock(m, b) then 0 else old(usage[b])
    {
      var k := 0;
      while k < m.numBlocks
        invariant 0 <= k <= m.numBlocks
        invariant forall b :: 0 <= b < DATA_BLOCKS ==>
                    usage[b] == if exists j :: 0 <= j < k && m.blocks[j] == b + DATA_BLOCKS then 0 else old(usage[b])
      {
        usage[m.blocks[k] - DATA_BLOCKS] := 0;
        k := k + 1;
      }
    }

    // ---- descriptors --------------------------------------------------------------------------

    /** `fs_open`: the first live slot with that name, in the first closed descriptor. */
    method Open(name: seq<Byte>) returns (r: int)
      requires Tabled() && |name| >= NAMELEN
      modifies descs
      ensures Tabled() && (old(DescsOk(descs[..])) ==> DescsOk(descs[..])) && -1 <= r < OPEN_FILES
      ensures r == -1 ==> descs[..] == old(descs[..])
      ensures r == -1 <==> !active || (forall i :: 0 <= i < NUM_FILES ==> !Matches(metas[i], name))
                                   || (forall d :: 0 <= d < OPEN_FILES ==> old(descs[d]).file != -1)
      ensures r >= 0 ==> old(descs[r]).file == -1 && (forall d :: 0 <= d < r ==> old(descs[d]).file != -1)
      ensures r >= 0 ==> FirstMatch(metas[..], name, descs[r].file)
                         && descs[..] == old(descs[..])[r := Descriptor(descs[r].file, 0)]
    {
      hide SameName, StrnEqual;
      if !active {
        return -1;
      }
      var fileNum := -1;
      var i := 0;
      while i < NUM_FILES
        modifies {}
        invariant 0 <= i <= NUM_FILES
        invariant fileNum == -1 && forall j :: 0 <= j < i ==> !Matches(metas[j], name)
      {
        NameIff(metas[i].name, name);
        if metas[i].Live() && StrnEqual(metas[i].name, name, NAMELEN) {
          fileNum := i;
          break;
        }
        i := i + 1;
      }
      if fileNum != -1 {
        i := 0;
        while i < OPEN_FILES
          modifies {}
          invariant 0 <= i <= OPEN_FILES
          invariant forall d :: 0 <= d < i ==> old(descs[d]).file != -1
          decreases OPEN_FILES - i
        {
          if descs[i].file == -1 { break; }
          i := i + 1;
        }
        if i < OPEN_FILES {
          descs[i] := Descriptor(fileNum, 0);
          return i;
        }
      }
      return -1;
    }

    method Close(fd: nat) returns (r: int)
      requires Allocated() && fd < OPEN_FILES
      modifies descs
      ensures if active && old(descs[fd]).file != -1
              then r == 0 && descs[..] == old(descs[..])[fd := old(descs[fd]).(file := Stored(signed, -1))]
              else r == -1 && descs[..] == old(descs[..])
    {
      if !active || descs[fd].file == -1 {
        return -1;
      }
      descs[fd] := descs[fd].(file := Stored(signed, -1));
      return 0;
    }

    /** `fs_get_filesize`. */
    function GetFilesize(fd: nat): int
      requires Allocated() && DescsOk(descs[..]) && fd < OPEN_FILES
      reads this, metas, descs
    {
      if !active || descs[fd].file == -1 then -1
      else FileSize(metas[descs[fd].file].numBlocks, metas[descs[fd].file].sizeLast)
    }

    method Lseek(fd: nat, offset: int) returns (r: int)
      requires Allocated() && DescsOk(descs[..]) && fd < OPEN_FILES
      modifies descs
      ensures DescsOk(descs[..])
      ensures if active && old(descs[fd]).file != -1 && 0 <= offset <= old(GetFilesize(fd))
              then r == 0 && Moved(old(descs[..]), descs[..], fd, offset)
              else r == -1 && descs[..] == old(descs[..])
    {
      if !active || descs[fd].file == -1 || offset < 0 || offset > GetFilesize(fd) {
        return -1;
      }
      descs[fd] := descs[fd].(cursor := offset);
      return 0;
    }

    /** The file of descriptor `fd` is in use. */
    ghost predicate Alive(fd: nat)
      requires Mounted() && fd < OPEN_FILES && descs[fd].file != -1
      reads this, disk, metas, descs
    {
      metas[descs[fd].file].Live()
    }

    /** The tables are in place, and the file of descriptor `fd`, if it has one, can be read. */
    ghost predicate Readable(fd: nat)
      requires fd < OPEN_FILES
      reads this, disk, metas, descs
    {
      && Allocated() && DiskOk(disk[..]) && DescsOk(descs[..])
      && (descs[fd].file != -1 ==> Legible(metas[descs[fd].file]))
    }

    ghost function ExtentAt(fd: nat): seq<Byte>
      requires fd < OPEN_FILES && Readable(fd) && descs[fd].file != -1
      reads this, disk, metas, descs
    {
      Extent(disk[..], metas[descs[fd].file])
    }

    lemma MountedReadable(fd: nat)
      requires Mounted() && fd < OPEN_FILES
      ensures Readable(fd) && (descs[fd].file != -1 ==> ExtentAt(fd) == Content(disk[..], metas[descs[fd].file]))
    {
      if descs[fd].file != -1 { ExtentIs(disk[..], metas[descs[fd].file]); }
    }

    // ---- reading --------------------------------------------------------------------------------

    /** `fs_read`: the bytes from the cursor on, as many as were asked for and the file has. A deleted
        file still has the size and the blocks it had; one that is longer than its blocks is read from
        the entries behind them. */
    method Read(fd: nat, buf: array<Byte>, nbyte: nat) returns (read: int)
      requires fd < OPEN_FILES && Readable(fd) && nbyte <= buf.Length && buf != usage
      modifies descs, buf
      ensures Readable(fd)
      ensures !active ==> read == -1 && buf[..] == old(buf[..]) && descs[..] == old(descs[..])
      ensures active && old(descs[fd]).file == -1 ==> read == 0 && buf[..] == old(buf[..]) && descs[..] == old(descs[..])
      ensures active && old(descs[fd]).file != -1 ==>
                var s, c := old(ExtentAt(fd)), old(descs[fd]).cursor;
                && read == Min(nbyte, Max(0, |s| - c))
                && buf[..] == Stretch(s, c, read) + old(buf[..])[read..]
                && Moved(old(descs[..]), descs[..], fd, c + read)
    {
      hide Extent, Legible, DiskOk, DescsOk;
      if !active {
        return -1;
      }
      if descs[fd].file == -1 {
        return 0;
      }
      read := ReadOpen(fd, buf, nbyte);
    }

    method ReadOpen(fd: nat, buf: array<Byte>, nbyte: nat) returns (read: nat)
      requires fd < OPEN_FILES && Readable(fd) && active && descs[fd].file != -1
      requires nbyte <= buf.Length && buf != usage
      modifies descs, buf
      ensures Readable(fd)
      ensures var s, c := old(ExtentAt(fd)), old(descs[fd]).cursor;
        && read == Min(nbyte, Max(0, |s| - c))
        && buf[..] == Stretch(s, c, read) + old(buf[..])[read..]
        && Moved(old(descs[..]), descs[..], fd, c + read)
    {
      hide Extent, Legible, DiskOk, Moved;
      ghost var s, ds, rest := ExtentAt(fd), descs[..], buf[..];
      read := 0;
      MovedNowhere(ds, fd);
      while descs[fd].cursor < GetFilesize(fd) && read < nbyte
        invariant read <= nbyte && InRead(fd, buf, ds, s, rest, read)
        decreases nbyte - read
      {
        hide Readable, Stretch;
        var dist := ReadMore(fd, buf, read, nbyte, ds, s, rest);
        read := read + dist;
      }
    }

    /** A read through `fd` that began with the descriptors `ds` and the buffer `rest` has copied the
        first `read` bytes. */
    ghost predicate InRead(fd: nat, buf: array<Byte>, ds: seq<Descriptor>, s: seq<Byte>, rest: seq<Byte>, read: nat)
      reads this, disk, metas, descs, buf
    {
      && fd < OPEN_FILES == |ds| && Readable(fd) && active && ds[fd].cursor >= 0
      && descs[fd].file != -1 && ExtentAt(fd) == s
      && Moved(ds, descs[..], fd, ds[fd].cursor + read) && descs[fd] == ds[fd].(cursor := ds[fd].cursor + read)
      && |rest| == buf.Length && read <= |rest| && (read > 0 ==> ds[fd].cursor + read <= |s|)
      && buf[..] == Stretch(s, ds[fd].cursor, read) + rest[read..]
    }

    /** One round of the loop. */
    method ReadMore(fd: nat, buf: array<Byte>, read: nat, nbyte: nat,
                    ghost ds: seq<Descriptor>, ghost s: seq<Byte>, ghost rest: seq<Byte>)
      returns (dist: nat)
      requires InRead(fd, buf, ds, s, rest, read) && buf != usage
      requires read < nbyte <= buf.Length && descs[fd].cursor < GetFilesize(fd)
      modifies descs, buf
      ensures InRead(fd, buf, ds, s, rest, read + dist) && 0 < dist <= nbyte - read
    {
      hide Extent, Legible, DiskOk, Moved, Stretch, FileSize;
      ghost var was, before, c := buf[..], descs[..], ds[fd].cursor;
      dist := ReadChunk(fd, buf, read, nbyte - read);
      ChunksJoin(was, s, c, read, dist, rest);
      MovedOnce(before, descs[..], fd, c + read + dist);
      MovedTwice(ds, before, descs[..], fd, c + read, c + read + dist);
    }

    /** Copies up to `left` bytes, all from one block, to the buffer. */
    method ReadChunk(fd: nat, buf: array<Byte>, at: nat, left: nat) returns (dist: nat)
      requires fd < OPEN_FILES && Readable(fd) && active && descs[fd].file != -1
      requires buf != usage && at + left <= buf.Length && left > 0
      requires descs[fd].cursor < GetFilesize(fd)
      modifies descs, buf
      ensures Readable(fd) && 0 < dist <= left
      ensures Moved(old(descs[..]), descs[..], fd, old(descs[fd]).cursor + dist)
      ensures descs[fd].file == old(descs[fd]).file && ExtentAt(fd) == old(ExtentAt(fd))
      ensures var c := old(descs[fd]).cursor;
        && c + dist <= |old(ExtentAt(fd))|
        && buf[..] == old(buf[..])[..at] + old(ExtentAt(fd))[c..c + dist] + old(buf[..])[at + dist..]
    {
      hide DiskOk, Legible, Extent;
      var m, c := metas[descs[fd].file], descs[fd].cursor;
      var offset := c % BLOCK_SIZE;
      dist := BLOCK_SIZE - offset;
      if GetFilesize(fd) - c < dist {
        dist := GetFilesize(fd) - c;
      }
      if left < dist {
        dist := left;
      }
      var block := c / BLOCK_SIZE;
      ChunkContent(disk[..], m, c, dist);
      var r, data := BlockRead(m.blocks[block], []);
      CopyOut(data, offset, buf, at, dist);
      Seek(fd, c + dist);
    }

    /** `memcpy` to the caller's buffer. */
    method CopyOut(data: seq<Byte>, offset: nat, buf: array<Byte>, at: nat, dist: nat)
      requires offset + dist <= |data| && at + dist <= buf.Length
      modifies buf
      ensures buf[..] == old(buf[..])[..at] + data[offset..offset + dist] + old(buf[..])[at + dist..]
    {
      forall j | 0 <= j < dist { buf[at + j] := data[offset + j]; }
    }

    method Seek(fd: nat, cursor: nat)
      requires fd < OPEN_FILES && Readable(fd)
      modifies descs
      ensures Readable(fd) && Moved(old(descs[..]), descs[..], fd, cursor)
    {
      descs[fd] := descs[fd].(cursor := cursor);
    }

    // ---- writing --------------------------------------------------------------------------------

    ghost function BookOf(fd: nat, left: nat): Book
      requires Allocated() && fd < OPEN_FILES && 0 <= descs[fd].file < NUM_FILES
      reads this, usage, metas, descs
    {
      var m := metas[descs[fd].file];
      Book(m.numBlocks, m.sizeLast, descs[fd].cursor, left, CountFree(usage[..]))
    }

    /** A write through `fd` that began in `s0` at `c0` has come to the cursor. */
    ghost predicate InWrite(course: Course, fd: nat, s0: Tables, c0: nat, buf: seq<Byte>)
      reads this, disk, usage, metas, descs
    {
      && Allocated() && active && DescsOk(descs[..])
      && fd < OPEN_FILES && descs[fd].file != -1
      && Underway(course, s0, Now(), owner, descs[fd].file, c0, descs[fd].cursor, buf)
    }

    /** And the block for the next chunk is in place. */
    ghost predicate AtChunk(course: Course, fd: nat, s0: Tables, c0: nat, buf: seq<Byte>)
      reads this, disk, usage, metas, descs
    {
      && Allocated() && active && DescsOk(descs[..])
      && fd < OPEN_FILES && descs[fd].file != -1
      && Ready(course, s0, Now(), owner, descs[fd].file, c0, descs[fd].cursor, buf)
    }

    /** Writes up to the end of the block the cursor is in. */
    method WriteChunk(fd: nat, buf: seq<Byte>, written: nat, ghost course: Course, ghost s0: Tables, ghost c0: nat)
      returns (dist: nat)
      requires AtChunk(course, fd, s0, c0, buf)
      requires descs[fd].cursor == c0 + written && written < |buf|
      modifies disk, metas, descs
      ensures InWrite(course, fd, s0, c0, buf) && 0 < dist && written + dist <= |buf|
      ensures Moved(old(descs[..]), descs[..], fd, c0 + written + dist)
      ensures descs[fd].file == old(descs[fd]).file && descs[fd].cursor == c0 + written + dist
      ensures BookOf(fd, |buf| - written - dist) == Advance(old(BookOf(fd, |buf| - written)))
    {
      hide Underway, Ready, Moved, CountFree;
      dist := BLOCK_SIZE - descs[fd].cursor % BLOCK_SIZE;
      if |buf| - written < dist {
        dist := |buf| - written;
      }
      CopyIn(fd, buf, written, dist, course, s0, c0);
      Account(fd, buf, dist, |buf| - written - dist, course, s0, c0);
    }

    /** Lays the next `dist` bytes over the block and moves the cursor. */
    method CopyIn(fd: nat, buf: seq<Byte>, written: nat, dist: nat, ghost course: Course, ghost s0: Tables, ghost c0: nat)
      requires AtChunk(course, fd, s0, c0, buf)
      requires descs[fd].cursor == c0 + written && 0 < dist && written + dist <= |buf|
      requires var off := descs[fd].cursor % BLOCK_SIZE;
        off + dist == BLOCK_SIZE || (off + dist < BLOCK_SIZE && written + dist == |buf|)
      modifies disk, descs
      ensures InWrite(course, fd, s0, c0, buf)
      ensures descs[..] == old(descs[..])[fd := old(descs[fd]).(cursor := c0 + written + dist)]
      ensures Moved(old(descs[..]), descs[..], fd, c0 + written + dist)
    {
      hide Underway, Ready, PutChunk;
      var i, c := descs[fd].file, descs[fd].cursor;
      ReadyChunk(course, s0, Now(), owner, i, c0, c, buf, dist);
      Overwrite(metas[i].blocks[c / BLOCK_SIZE], c % BLOCK_SIZE, buf[written..written + dist]);
      descs[fd] := descs[fd].(cursor := c + dist);
    }

    /** Past the end of the file, the size of the last block grows by the whole chunk. */
    method Account(fd: nat, buf: seq<Byte>, dist: nat, ghost left: nat, ghost course: Course, ghost s0: Tables, ghost c0: nat)
      requires InWrite(course, fd, s0, c0, buf) && descs[fd].cursor > c0
      modifies metas
      ensures InWrite(course, fd, s0, c0, buf)
      ensures var b := old(BookOf(fd, left));
        BookOf(fd, left) == b.(sizeLast := if b.cursor > b.Size() then b.sizeLast + dist else b.sizeLast)
    {
      hide Underway;
      var i := descs[fd].file;
      if descs[fd].cursor > GetFilesize(fd) {
        UnderwaySize(course, s0, Now(), owner, i, c0, descs[fd].cursor, buf, metas[i].sizeLast + dist);
        metas[i] := metas[i].(sizeLast := metas[i].sizeLast + dist);
      }
    }

    /** Reads a block, lays `chunk` over it and writes it back. On a number that is no block both fail. */
    method Overwrite(block: int, offset: nat, chunk: seq<Byte>)
      requires active && disk.Length == DISK_BLOCKS && DiskOk(disk[..]) && offset + |chunk| <= BLOCK_SIZE
      modifies disk
      ensures DiskOk(disk[..])
      ensures disk[..] == PutBlock(old(disk[..]), block, offset, chunk)
    {
      var r, data := BlockRead(block, seq(BLOCK_SIZE, _ => 0));
      data := data[..offset] + chunk + data[offset + |chunk|..];
      var r2 := BlockWrite(block, data);
    }

    /** Gives the file another block, if one is free: the first. */
    method ExpandFile(fd: nat, buf: seq<Byte>, ghost left: nat, ghost course: Course, ghost s0: Tables, ghost c0: nat)
      returns (ok: bool)
      requires InWrite(course, fd, s0, c0, buf) && descs[fd].cursor < c0 + |buf| && !course.Stray?
      requires Full(metas[descs[fd].file])
      requires course.Inside() ==> descs[fd].cursor == metas[descs[fd].file].numBlocks * BLOCK_SIZE
      requires course.Adrift? ==> descs[fd].cursor > metas[descs[fd].file].numBlocks * BLOCK_SIZE
      modifies usage, metas, this`owner
      ensures descs[..] == old(descs[..])
      ensures ok <==> old(CountFree(usage[..])) > 0
      ensures if ok then AtChunk(course, fd, s0, c0, buf) else InWrite(course, fd, s0, c0, buf)
      ensures BookOf(fd, left) == if ok then Expand(old(BookOf(fd, left))) else old(BookOf(fd, left))
    {
      hide Underway, Ready, FirstFree;
      var i := descs[fd].file;
      var newblock := FindEmptyBlock();
      if newblock == -1 {
        return false;
      }
      ReadyExpanded(course, s0, Now(), owner, i, c0, descs[fd].cursor, buf, newblock);
      CountFreeTake(usage[..], newblock);
      var n := metas[i].numBlocks;
      owner := owner[newblock := Some(Place(i, n))];
      metas[i] := WithBlock(metas[i], newblock);
      usage[newblock] := 1;
      return true;
    }

    /** The first loop: overwriting what is there. */
    method WriteInside(fd: nat, buf: seq<Byte>, ghost course: Course, ghost s0: Tables) returns (written: nat)
      requires fd < OPEN_FILES && Allocated() && descs[fd].cursor >= 0 && InWrite(course, fd, s0, descs[fd].cursor, buf)
      requires OnCourse(course, BookOf(fd, |buf|))
      modifies disk, metas, descs
      ensures written <= |buf| && InWrite(course, fd, s0, old(descs[fd]).cursor, buf)
      ensures Moved(old(descs[..]), descs[..], fd, old(descs[fd]).cursor + written)
      ensures descs[fd].file == old(descs[fd]).file && descs[fd].cursor == old(descs[fd]).cursor + written
      ensures BookOf(fd, |buf| - written) == Inside(old(BookOf(fd, |buf|)))
      ensures written < |buf| ==> OnCourse(course, BookOf(fd, |buf| - written)) && descs[fd].cursor >= GetFilesize(fd)
    {
      hide Underway, Ready, FileSize, Advance, Moved, CountFree, OnCourse;
      written := 0;
      ghost var c0, ds, b0 := descs[fd].cursor, descs[..], BookOf(fd, |buf|);
      ghost var b := b0;
      MovedNowhere(ds, fd);
      while descs[fd].cursor < GetFilesize(fd) && written < |buf|
        invariant InWrite(course, fd, s0, c0, buf) && written <= |buf|
        invariant descs[fd].file == ds[fd].file && descs[fd].cursor == c0 + written && Moved(ds, descs[..], fd, c0 + written)
        invariant b == BookOf(fd, |buf| - written) && Inside(b) == Inside(b0)
        invariant written < |buf| ==> OnCourse(course, b)
        decreases |buf| - written
      {
        CourseKept(course, b);
        ReadyAsIs(course, s0, Now(), owner, descs[fd].file, c0, descs[fd].cursor, buf);
        ghost var before := descs[..];
        var dist := WriteChunk(fd, buf, written, course, s0, c0);
        MovedTwice(ds, before, descs[..], fd, c0 + written, c0 + written + dist);
        written := written + dist;
        b := Advance(b);
      }
    }

    /** The second loop: appending, with a new block whenever the last one is full. */
    method WritePast(fd: nat, buf: seq<Byte>, start: nat, ghost course: Course, ghost s0: Tables, ghost c0: nat)
      returns (written: nat)
      requires InWrite(course, fd, s0, c0, buf) && start <= |buf| && descs[fd].cursor == c0 + start
      requires start < |buf| ==> AtEnd(course, BookOf(fd, |buf| - start))
      modifies disk, usage, metas, descs, this`owner
      ensures start <= written <= |buf| && InWrite(course, fd, s0, c0, buf)
      ensures Moved(old(descs[..]), descs[..], fd, c0 + written)
      ensures descs[fd].file == old(descs[fd]).file && descs[fd].cursor == c0 + written
      ensures BookOf(fd, |buf| - written) == Past(old(BookOf(fd, |buf| - start)))
    {
      hide Underway, Ready, Advance, Moved, CountFree, Room, AtEnd;
      written := start;
      ghost var ds, b0 := descs[..], BookOf(fd, |buf| - start);
      ghost var b := b0;
      MovedNowhere(ds, fd);
      while written < |buf|
        invariant InWrite(course, fd, s0, c0, buf) && start <= written <= |buf|
        invariant descs[fd].file == ds[fd].file && descs[fd].cursor == c0 + written && Moved(ds, descs[..], fd, c0 + written)
        invariant b == BookOf(fd, |buf| - written) && Past(b) == Past(b0)
        invariant written < |buf| ==> AtEnd(course, b)
        decreases |buf| - written
      {
        ghost var x := if NeedsBlock(b) && b.free > 0 then Expand(b) else b;
        EndKept(course, b, x);
        var m := metas[descs[fd].file];
        if m.sizeLast == BLOCK_SIZE || m.numBlocks == 0 {
          var ok := ExpandFile(fd, buf, |buf| - written, course, s0, c0);
          if !ok {
            break;
          }
        } else {
          ReadyAsIs(course, s0, Now(), owner, descs[fd].file, c0, descs[fd].cursor, buf);
        }
        ghost var before := descs[..];
        var dist := WriteChunk(fd, buf, written, course, s0, c0);
        MovedTwice(ds, before, descs[..], fd, c0 + written, c0 + written + dist);
        written := written + dist;
        b := Advance(x);
      }
    }

    /** Both loops. */
    method WriteLoops(fd: nat, buf: seq<Byte>, ghost course: Course, ghost s0: Tables) returns (written: nat)
      requires fd < OPEN_FILES && Allocated() && descs[fd].cursor >= 0 && InWrite(course, fd, s0, descs[fd].cursor, buf)
      requires OnCourse(course, BookOf(fd, |buf|))
      modifies disk, usage, metas, descs, this`owner
      ensures written <= |buf| && InWrite(course, fd, s0, old(descs[fd]).cursor, buf)
      ensures Moved(old(descs[..]), descs[..], fd, old(descs[fd]).cursor + written)
      ensures descs[fd].file == old(descs[fd]).file && descs[fd].cursor == old(descs[fd]).cursor + written
      ensures BookOf(fd, |buf| - written) == FsBook.Write(old(BookOf(fd, |buf|)))
    {
      hide Underway, Moved, FileSize, Inside, Past;
      ghost var ds, c0 := descs[..], descs[fd].cursor;
      written := WriteInside(fd, buf, course, s0);
      ghost var mid, c1 := descs[..], descs[fd].cursor;
      written := WritePast(fd, buf, written, course, s0, c0);
      MovedTwice(ds, mid, descs[..], fd, c1, c0 + written);
    }

    /** `fs_write`, through any open descriptor. A write that leaves the file's own blocks goes through
        list entries the file does not have, one to a deleted file through entries that may be another
        file's by now; these must at least stay within the 4096 entries there are. */
    method Write(fd: nat, buf: seq<Byte>) returns (written: int)
      requires Valid() && fd < OPEN_FILES
      requires active ==> descs[fd].file != -1 && SizeOk(metas[descs[fd].file]) && InReach(Alive(fd), BookOf(fd, |buf|))
      modifies disk, usage, metas, descs, this`owner
      ensures !active ==> written == -1 && Valid() && Now() == old(Now()) && descs[..] == old(descs[..])
      ensures active ==> var b := old(BookOf(fd, |buf|)); var e := FsBook.Write(b);
                && 0 <= written == |buf| - e.left <= |buf|
                && Moved(old(descs[..]), descs[..], fd, old(descs[fd]).cursor + written)
                && Booked(old(Now()), Now(), owner, old(descs[fd]).file, e)
                && Outcome(CourseOf(old(Alive(fd)), b), old(Now()), Now(), old(descs[fd]).file, old(descs[fd]).cursor, buf, e)
      ensures active && old(descs[fd]).cursor <= old(GetFilesize(fd)) ==> var m := metas[old(descs[fd]).file];
                SizeOk(m) && FileSize(m.numBlocks, m.sizeLast) == Max(old(GetFilesize(fd)), old(descs[fd]).cursor + written)
                <==> Admissible(old(GetFilesize(fd)), old(descs[fd]).cursor, |buf|)
      ensures active && old(descs[fd]).cursor < old(GetFilesize(fd))
              && !Admissible(old(GetFilesize(fd)), old(descs[fd]).cursor, |buf|) ==>
                var m, b := metas[old(descs[fd]).file], old(BookOf(fd, |buf|));
                && written == |buf| && m.numBlocks == b.numBlocks
                && FileSize(m.numBlocks, m.sizeLast)
                     == CrossedSize(b.Size() - Max(b.cursor, (b.numBlocks - 1) * BLOCK_SIZE), b.numBlocks * BLOCK_SIZE, b.cursor + |buf|)
      ensures active && old(descs[fd]).cursor > old(GetFilesize(fd)) ==> var m := metas[old(descs[fd]).file];
                FileSize(m.numBlocks, m.sizeLast) == old(GetFilesize(fd)) + written
      ensures active && old(WellPlaced(fd, |buf|)) && old(Alive(fd)) ==> Valid()
      ensures active && old(WellPlaced(fd, |buf|)) && !old(Alive(fd)) ==>
                (Valid() <==> metas[old(descs[fd]).file].numBlocks == old(metas[descs[fd].file]).numBlocks)
    {
      hide Moved, Outcome, FsBook.Write, CountFree, StateOk, TableOk, DiskOk, Inside;
      if !active {
        return -1;
      }
      ghost var b := BookOf(fd, |buf|);
      written := WriteActive(fd, buf);
      if b.cursor <= b.Size() { WriteExactIff(b); } else { DriftShort(b); }
      if b.cursor < b.Size() && !Admissible(b.Size(), b.cursor, b.left) { CrossingExact(b); }
    }

    /** A write of `n` bytes would start inside the file and be admissible. */
    ghost predicate WellPlaced(fd: nat, n: nat)
      requires Mounted() && fd < OPEN_FILES
      reads this, disk, metas, descs
    {
      descs[fd].cursor <= GetFilesize(fd) && Admissible(GetFilesize(fd), descs[fd].cursor, n)
    }

    method WriteActive(fd: nat, buf: seq<Byte>) returns (written: nat)
      requires Valid() && fd < OPEN_FILES && active && descs[fd].file != -1
      requires SizeOk(metas[descs[fd].file]) && InReach(Alive(fd), BookOf(fd, |buf|))
      modifies disk, usage, metas, descs, this`owner
      ensures var b := old(BookOf(fd, |buf|)); var e := FsBook.Write(b);
                && BookOk(b) && written + e.left == |buf|
                && Moved(old(descs[..]), descs[..], fd, old(descs[fd]).cursor + written)
                && Booked(old(Now()), Now(), owner, old(descs[fd]).file, e)
                && Outcome(CourseOf(old(Alive(fd)), b), old(Now()), Now(), old(descs[fd]).file, old(descs[fd]).cursor, buf, e)
      ensures old(WellPlaced(fd, |buf|)) && old(Alive(fd)) ==> Valid()
      ensures old(WellPlaced(fd, |buf|)) && !old(Alive(fd)) ==>
                (Valid() <==> metas[old(descs[fd]).file].numBlocks == old(metas[descs[fd].file]).numBlocks)
    {
      hide Underway, Moved, Booked, Outcome, FsBook.Write, CountFree, Saved, Owned, OnCourse, MetaOnDisk;
      ghost var s0, i, c0, b0, ow := Now(), descs[fd].file, descs[fd].cursor, BookOf(fd, |buf|), owner;
      ghost var course := CourseOf(metas[i].Live(), b0);
      WriteBegins(s0, owner, i, c0, buf);
      written := WriteLoops(fd, buf, course, s0);
      ghost var s1 := Now();
      UnderwayFacts(course, s0, s1, owner, i, c0, descs[fd].cursor, buf);
      var r := SaveFileMeta(descs[fd].file);
      WriteDone(course, s0, s1, Now(), owner, i, c0, c0 + written, buf, b0);
      if course.Orphan? {
        BookedDead(s0, Now(), owner, ow, i, FsBook.Write(b0));
        if metas[i].numBlocks == s0.metas[i].numBlocks { owner := ow; }
        if Admissible(b0.Size(), c0, |buf|) { OrphanValid(s0, Now(), ow, owner, i, c0, buf, b0); }
      }
    }

    // ---- truncating -----------------------------------------------------------------------------

    /** `fs_truncate`. The loop frees the entry behind the last block before it drops the block, so
        that entry, which the file does not have, must at least be a data block. A negative length is
        not refused. */
    method Truncate(fd: nat, length: int) returns (r: int)
      requires Mounted() && fd < OPEN_FILES
      requires active && descs[fd].file != -1 && length <= GetFilesize(fd) ==> InMap(metas[descs[fd].file], length)
      modifies disk, usage, metas, this`owner
      ensures length > -BLOCK_SIZE || r != 0 ==> Mounted()
      ensures r == 0 <==> active && descs[fd].file != -1 && length <= old(GetFilesize(fd))
      ensures r != 0 ==> r == -1 && Now() == old(Now()) && owner == old(owner)
      ensures r == 0 ==> var i := descs[fd].file;
                && metas[..] == old(metas[..])[i := Truncated(old(metas[i]), length)]
                && (forall b :: 0 <= b < DATA_BLOCKS ==>
                      usage[b] == if Unmarks(old(metas[i]), length, b) then 0 else old(usage[b]))
                && OnlySlotSaved(old(disk[..]), disk[..], i) && MetaOnDisk(disk[..], i, metas[i])
      ensures r == 0 && length > -BLOCK_SIZE ==> var i := descs[fd].file;
                && Content(disk[..], metas[i]) <= old(Content(disk[..], metas[i]))
                && |Content(disk[..], metas[i])| == (if length < 0 then 0 else if Ragged(length) then length else length - BLOCK_SIZE)
      ensures r == 0 && old(Valid()) && old(Alive(fd)) ==>
                (Valid() <==> Ragged(length) && Lucky(old(metas[descs[fd].file]), length))
    {
      hide MetaOnDisk, Content, Owned, SameSlot;
      if !active || descs[fd].file == -1 || length > GetFilesize(fd) {
        return -1;
      }
      ghost var i, s0, ow := descs[fd].file, Now(), owner;
      InMapIff(metas[i], length);
      DropBlocks(fd, length);
      ghost var s1 := Now();
      owner := TruncateOwner(s0, ow, i, length);
      r := SaveFileMeta(descs[fd].file);
      if length > -BLOCK_SIZE { TruncateContent(s0.disk, disk[..], s0.metas[i], length); }
      if StateOk(s0, ow) && s0.metas[i].Live() {
        TruncateValid(s0, s1, Now(), ow, owner, i, length);
      }
    }

    /** The loop, and the size of what is then the last block. */
    method DropBlocks(fd: nat, length: int)
      requires Mounted() && fd < OPEN_FILES && descs[fd].file != -1 && InMap(metas[descs[fd].file], length)
      modifies usage, metas
      ensures var i := descs[fd].file;
        && metas[..] == old(metas[..])[i := Truncated(old(metas[i]), length)]
        && forall b :: 0 <= b < DATA_BLOCKS ==>
             usage[b] == if Unmarks(old(metas[i]), length, b) then 0 else old(usage[b])
    {
      var i := descs[fd].file;
      ghost var m0 := metas[i];
      var targetBlocks := Whole(length);
      if Rest(length) > 0 {
        targetBlocks := targetBlocks + 1;
      }
      while targetBlocks < metas[i].numBlocks
        invariant Allocated() && |metas[i].blocks| == DATA_BLOCKS
        invariant targetBlocks <= metas[i].numBlocks <= m0.numBlocks || metas[i].numBlocks == m0.numBlocks
        invariant metas[..] == old(metas[..])[i := m0.(numBlocks := metas[i].numBlocks)]
        invariant forall b :: 0 <= b < DATA_BLOCKS ==>
                    usage[b] == if exists k :: metas[i].numBlocks < k <= m0.numBlocks
                                               && 0 <= k < |m0.blocks| && m0.blocks[k] == b + DATA_BLOCKS
                                then 0 else old(usage[b])
        decreases metas[i].numBlocks - targetBlocks
      {
        var n := metas[i].numBlocks;
        InMapAt(m0, length, n);
        usage[metas[i].blocks[n] - DATA_BLOCKS] := 0;
        metas[i] := metas[i].(numBlocks := n - 1);
      }
      metas[i] := metas[i].(sizeLast := Rest(length));
    }

    // ---- mounting -------------------------------------------------------------------------------

    /** `mount_fs`: the tables are new, so what they hold where nothing is loaded into them is
        whatever the memory held before. Closing a descriptor stores -1 in a `char`, which is 255 where
        `char` is unsigned. */
    method MountFs(stale: seq<Meta>) returns (r: int)
      requires disk.Length == DISK_BLOCKS && DiskOk(disk[..])
      requires |stale| == NUM_FILES && forall i :: 0 <= i < NUM_FILES ==> |stale[i].blocks| == DATA_BLOCKS
      modifies this
      ensures old(active) ==> r == -1 && usage == old(usage) && metas == old(metas) && descs == old(descs)
      ensures r == 0 <==> !old(active)
      ensures r == 0 ==> active && Allocated() && fresh(usage) && fresh(metas) && fresh(descs)
      ensures r == 0 ==> owner == seq(DATA_BLOCKS, _ => None)
      ensures r == 0 ==> usage[..] == disk[0] && LoadsAll(signed, disk[..], stale, metas[..])
      ensures r == 0 ==> descs[..] == seq(OPEN_FILES, _ => Descriptor(Stored(signed, -1), 0))
    {
      if active {
        return -1;
      }
      active := true;
      var r0, data := BlockRead(0, []);
      usage := new Byte[DATA_BLOCKS];
      forall b | 0 <= b < DATA_BLOCKS { usage[b] := data[b]; }
      metas := new Meta[NUM_FILES];
      ghost var table := metas;
      var i := 0;
      while i < NUM_FILES
        modifies metas
        invariant 0 <= i <= NUM_FILES
        invariant forall j :: 0 <= j < i ==> Loads(signed, disk[..], j, stale[j], metas[j])
      {
        var m := LoadSlot(i, stale[i]);
        metas[i] := m;
        i := i + 1;
      }
      descs := new Descriptor[OPEN_FILES](_ => Descriptor(Stored(signed, -1), 0));
      owner := seq(DATA_BLOCKS, _ => None);
      assert usage[..] == disk[0];
      return 0;
    }

    /** Reads the three blocks of slot `i`. */
    method LoadSlot(i: nat, stale: Meta) returns (m: Meta)
      requires active && disk.Length == DISK_BLOCKS && DiskOk(disk[..]) && i < NUM_FILES
      requires |stale.blocks| == DATA_BLOCKS
      ensures Loads(signed, disk[..], i, stale, m)
    {
      var r, data := BlockRead(3 * i + 1, []);
      if data[0] != 0 {
        var name := data[1..NAMELEN + 1];
        var numBlocks := Word(signed, data[NAMELEN + 2], data[NAMELEN + 3]);
        var sizeLast := Word(signed, data[NAMELEN + 4], data[NAMELEN + 5]);
        var inUse := data[0];
        r, data := BlockRead(3 * i + 2, data);
        var first := LoadList(data);
        r, data := BlockRead(3 * i + 3, data);
        var second := LoadList(data);
        m := Meta(inUse, name, numBlocks, sizeLast, first + second);
      } else {
        m := Meta(0, seq(NAMELEN, _ => 0), 0, 0, seq(DISK_BLOCKS / 4, _ => 0) + stale.blocks[DISK_BLOCKS / 4..]);
      }
    }

    method LoadList(data: seq<Byte>) returns (list: seq<int>)
      requires |data| == BLOCK_SIZE
      ensures |list| == DISK_BLOCKS / 4
      ensures forall k :: 0 <= k < DISK_BLOCKS / 4 ==> list[k] == Word(signed, data[2 * k], data[2 * k + 1])
    {
      list := [];
      var k := 0;
      while k < DISK_BLOCKS / 4
        invariant 0 <= k <= DISK_BLOCKS / 4 && |list| == k
        invariant forall j :: 0 <= j < k ==> list[j] == Word(signed, data[2 * j], data[2 * j + 1])
      {
        list := list + [Word(signed, data[2 * k], data[2 * k + 1])];
        k := k + 1;
      }
    }

    /** `umount_fs`: only when every descriptor is closed. Nothing is written. */
    method UmountFs() returns (r: int)
      requires Allocated()
      modifies this`active
      ensures if AllClosed(descs[..]) && old(active) then r == 0 && !active else r == -1 && active == old(active)
    {
      var i := 0;
      while i < OPEN_FILES
        invariant 0 <= i <= OPEN_FILES
        invariant active == old(active) && forall d :: 0 <= d < i ==> descs[d].file == -1
      {
        if descs[i].file != -1 {
          return -1;
        }
        i := i + 1;
      }
      if !active {
        return -1;
      }
      active := false;
      return 0;
    }
  }

  ghost predicate AllClosed(descs: seq<Descriptor>) {
    forall d :: 0 <= d < |descs| ==> descs[d].file == -1
  }

  ghost predicate LoadsAll(signed: bool, disk: Disk, stale: seq<Meta>, metas: seq<Meta>)
    requires DiskOk(disk)
  {
    |metas| == |stale| == NUM_FILES && forall i :: 0 <= i < NUM_FILES ==> Loads(signed, disk, i, stale[i], metas[i])
  }

  /** After a write that has left the books at `e`: what the tables say of file `i`. Its new blocks are
      the first that were free; the tables say the same as before of the other files, and, unless the file
      has been deleted, the usage map still agrees with the block lists. */
  ghost predicate Booked(s: Tables, t: Tables, owner: Owner, i: nat, e: Book) {
    && i < NUM_FILES == |s.metas| == |t.metas| && (t.metas[i].Live() ==> Owned(t.metas, t.usage, owner))
    && t.metas[i].inUse == s.metas[i].inUse && t.metas[i].name == s.metas[i].name && ListOk(t.metas[i])
    && t.metas[i].numBlocks == e.numBlocks && t.metas[i].sizeLast == e.sizeLast && CountFree(t.usage) == e.free
    && Grabbed(s.usage, t.usage, s.metas[i], t.metas[i])
    && (forall j :: 0 <= j < NUM_FILES && j != i ==> t.metas[j] == s.metas[j])
  }

  /** What has come of `buf`, as far as it got, in file `i`: it is there from `c` on, and all other bytes
      of the blocks the file had are as before. */
  ghost predicate Landed(s: Tables, t: Tables, i: nat, c: nat, buf: seq<Byte>, written: int) {
    && DiskOk(s.disk) && DiskOk(t.disk) && i < NUM_FILES == |s.metas| == |t.metas|
    && ListOk(s.metas[i]) && GrownFrom(s.metas[i], t.metas[i])
    && 0 <= written <= |buf| && c + written <= t.metas[i].numBlocks * BLOCK_SIZE
    && BytesOk(s.disk, s.metas[i], t.disk, t.metas[i], c, c + written, buf)
  }

  /** No block that holds metadata has changed, other than those of slot `i`. */
  ghost predicate OthersSaved(s: Tables, t: Tables, i: nat) {
    && DiskOk(s.disk) && DiskOk(t.disk)
    && forall b :: 0 <= b < DATA_BLOCKS && !(3 * i + 1 <= b <= 3 * i + 3) ==> t.disk[b] == s.disk[b]
  }

  /** If the write at `c` has kept to the file's blocks, the other files are untouched; and an
      admissible write has laid `buf`, as far as it got, over the file's bytes. */
  ghost predicate WriteResult(s: Tables, t: Tables, i: nat, c: nat, buf: seq<Byte>, e: Book) {
    && TableOk(s.metas) && |t.metas| == NUM_FILES && i < NUM_FILES && s.metas[i].Live()
    && OthersSaved(s, t, i) && Landed(s, t, i, c, buf, |buf| - e.left)
    && (forall j :: 0 <= j < NUM_FILES && j != i ==> SameSlot(s, t, j))
    && (Admissible(FileSize(s.metas[i].numBlocks, s.metas[i].sizeLast), c, |buf|) ==>
          && SizeOk(t.metas[i]) && c <= |Content(s.disk, s.metas[i])|
          && Content(t.disk, t.metas[i]) == Spliced(Content(s.disk, s.metas[i]), c, buf[..|buf| - e.left]))
  }

  /** The write has gone where the list says that it leaves by, though the file has fewer blocks; then
      the slot has been saved. (`sizeLast` is a number without bound here; the program's is a `short`.) */
  ghost predicate StrayResult(s: Tables, t: Tables, i: nat, c: nat, data: seq<Byte>) {
    && i < NUM_FILES == |s.metas| == |t.metas| && |s.metas[i].blocks| == |t.metas[i].blocks| == DATA_BLOCKS
    && 0 <= s.metas[i].numBlocks <= t.metas[i].numBlocks <= DATA_BLOCKS
    && LaidOut(s.disk, t.disk, i, Via(s.metas[i], t.metas[i]), c, data)
  }

  /** `data` has been laid out from `c` on over the blocks of `list`, and the slot has been saved. */
  ghost predicate LaidOut(disk0: Disk, disk: Disk, i: nat, list: seq<int>, c: nat, data: seq<Byte>) {
    && DiskOk(disk0) && DiskOk(disk) && |list| == DATA_BLOCKS && c + |data| <= DATA_BLOCKS * BLOCK_SIZE
    && forall b :: 0 <= b < DISK_BLOCKS && !(3 * i + 1 <= b <= 3 * i + 3) ==> disk[b] == Lay(disk0, list, c, data)[b]
  }

  /** The file has been deleted; the write has gone to the blocks its list names. */
  ghost predicate OrphanResult(s: Tables, t: Tables, i: nat, c: nat, data: seq<Byte>) {
    i < NUM_FILES == |t.metas| && LaidOut(s.disk, t.disk, i, t.metas[i].blocks, c, data)
  }

  /** What a write of `buf` at `c` that has left the books at `e` has done on the disk. */
  ghost predicate Outcome(course: Course, s: Tables, t: Tables, i: nat, c: nat, buf: seq<Byte>, e: Book) {
    && e.left <= |buf|
    && match course
       case Exact => WriteResult(s, t, i, c, buf, e)
       case Orphan => OrphanResult(s, t, i, c, buf[..|buf| - e.left])
       case _ => StrayResult(s, t, i, c, buf[..|buf| - e.left])
  }

  /** The write keeps to the blocks of a file that is in use, or at least to the entries a list has. */
  predicate InReach(live: bool, b: Book) {
    CourseOf(live, b).Exact? || b.cursor + b.left <= DATA_BLOCKS * BLOCK_SIZE
  }

  lemma WriteBegins(s: Tables, owner: Owner, i: nat, c: nat, buf: seq<Byte>)
    requires StateOk(s, owner) && i < NUM_FILES && SizeOk(s.metas[i])
    requires InReach(s.metas[i].Live(), Book(s.metas[i].numBlocks, s.metas[i].sizeLast, c, |buf|, CountFree(s.usage)))
    ensures var b := Book(s.metas[i].numBlocks, s.metas[i].sizeLast, c, |buf|, CountFree(s.usage));
      var course := CourseOf(s.metas[i].Live(), b);
      BookOk(b) && OnCourse(course, b) && Underway(course, s, s, owner, i, c, c, buf)
  {
    hide Writing, Straying, Orphaned, Owned;
    var b := Book(s.metas[i].numBlocks, s.metas[i].sizeLast, c, |buf|, CountFree(s.usage));
    OwnedFits(s, owner);
    match CourseOf(s.metas[i].Live(), b)
    case Exact => WritingStarts(s, owner, i, c, buf);
    case Orphan => OrphanedStarts(s, i, c, buf);
    case _ => StrayingStarts(s, owner, i, c, buf);
  }

  lemma WriteBooked(course: Course, s0: Tables, s1: Tables, s: Tables, owner: Owner, i: nat, c0: nat, c: nat,
                    buf: seq<Byte>, e: Book)
    requires Underway(course, s0, s1, owner, i, c0, c, buf) && i < |s1.metas|
    requires e == Book(s1.metas[i].numBlocks, s1.metas[i].sizeLast, c, |buf| - (c - c0), CountFree(s1.usage))
    requires s.metas == s1.metas && s.usage == s1.usage
    ensures Booked(s0, s, owner, i, e)
  {
    hide Lay, BytesOk, OnlyOwn, Owned, Grabbed;
  }

  /** The write is over and the slot has been saved. */
  lemma StrayEnds(course: Course, s0: Tables, s1: Tables, s: Tables, owner: Owner, i: nat, c0: nat, c: nat,
                  buf: seq<Byte>, b0: Book)
    requires Underway(course, s0, s1, owner, i, c0, c, buf) && !course.Inside()
    requires i < |s1.metas| && b0.cursor == c0 <= c <= c0 + |buf|
    requires var e := FsBook.Write(b0);
      e == Book(s1.metas[i].numBlocks, s1.metas[i].sizeLast, c, |buf| - (c - c0), CountFree(s1.usage))
    requires s.metas == s1.metas && s.usage == s1.usage && DiskOk(s.disk)
    requires forall b :: 0 <= b < DISK_BLOCKS && !(3 * i + 1 <= b <= 3 * i + 3) ==> s.disk[b] == s1.disk[b]
    ensures Outcome(course, s0, s, i, c0, buf, FsBook.Write(b0))
  {
    hide Lay, FsBook.Write, Owned;
  }

  lemma OrphanEnds(s0: Tables, s1: Tables, s: Tables, owner: Owner, i: nat, c0: nat, c: nat, buf: seq<Byte>, b0: Book)
    requires Underway(Orphan, s0, s1, owner, i, c0, c, buf)
    requires i < |s1.metas| && b0.cursor == c0 <= c <= c0 + |buf|
    requires var e := FsBook.Write(b0);
      e == Book(s1.metas[i].numBlocks, s1.metas[i].sizeLast, c, |buf| - (c - c0), CountFree(s1.usage))
    requires s.metas == s1.metas && s.usage == s1.usage && DiskOk(s.disk)
    requires forall b :: 0 <= b < DISK_BLOCKS && !(3 * i + 1 <= b <= 3 * i + 3) ==> s.disk[b] == s1.disk[b]
    ensures Outcome(Orphan, s0, s, i, c0, buf, FsBook.Write(b0))
  {
    hide Lay, FsBook.Write;
  }

  lemma BookedDead(s: Tables, t: Tables, owner: Owner, owner': Owner, i: nat, e: Book)
    requires Booked(s, t, owner, i, e) && !t.metas[i].Live()
    ensures Booked(s, t, owner', i, e)
  {
  }

  /** However the write went. */
  lemma WriteDone(course: Course, s0: Tables, s1: Tables, s: Tables, owner: Owner, i: nat, c0: nat, c: nat,
                  buf: seq<Byte>, b0: Book)
    requires DiskOk(s0.disk) && TableOk(s0.metas) && SizesOk(s0.metas) && Saved(s0.disk, s0.metas)
    requires Underway(course, s0, s1, owner, i, c0, c, buf) && i < NUM_FILES == |s1.metas| && c0 <= c <= c0 + |buf|
    requires course == CourseOf(s0.metas[i].Live(), b0)
    requires b0 == Book(s0.metas[i].numBlocks, s0.metas[i].sizeLast, c0, |buf|, CountFree(s0.usage)) && BookOk(b0)
    requires var e := FsBook.Write(b0);
      e == Book(s1.metas[i].numBlocks, s1.metas[i].sizeLast, c, |buf| - (c - c0), CountFree(s1.usage))
    requires s.metas == s1.metas && s.usage == s1.usage && DiskOk(s.disk)
    requires MetaSized(s.metas[i]) && MetaOnDisk(s.disk, i, s.metas[i])
    requires forall b :: 0 <= b < DISK_BLOCKS && !(3 * i + 1 <= b <= 3 * i + 3) ==> s.disk[b] == s1.disk[b]
    ensures Booked(s0, s, owner, i, FsBook.Write(b0)) && Outcome(course, s0, s, i, c0, buf, FsBook.Write(b0))
    ensures course.Exact? && Admissible(b0.Size(), c0, |buf|) ==> StateOk(s, owner)
  {
    hide Writing, Orphaned, Straying, Booked, Outcome, FsBook.Write, CountFree, Saved, StateOk, MetaOnDisk;
    WriteBooked(course, s0, s1, s, owner, i, c0, c, buf, FsBook.Write(b0));
    match course
    case Exact => WriteEnds(s0, s1, s, owner, i, c0, c, buf, b0);
    case Orphan => OrphanEnds(s0, s1, s, owner, i, c0, c, buf, b0);
    case _ => StrayEnds(course, s0, s1, s, owner, i, c0, c, buf, b0);
  }

  /** An admissible write to a deleted file leaves the tables and the disk in order exactly when it does
      not add a block, which would then be in use without being listed. */
  lemma OrphanValid(s: Tables, t: Tables, owner: Owner, owner': Owner, i: nat, c: nat, buf: seq<Byte>, b: Book)
    requires StateOk(s, owner) && i < NUM_FILES && !s.metas[i].Live()
    requires b == Book(s.metas[i].numBlocks, s.metas[i].sizeLast, c, |buf|, CountFree(s.usage))
    requires BookOk(b) && c <= b.Size() && Admissible(b.Size(), c, |buf|)
    requires Booked(s, t, owner', i, FsBook.Write(b)) && Outcome(Orphan, s, t, i, c, buf, FsBook.Write(b))
    requires DiskOk(t.disk) && MetaOnDisk(t.disk, i, t.metas[i])
    requires t.metas[i].numBlocks == s.metas[i].numBlocks ==> owner' == owner
    ensures StateOk(t, owner') <==> t.metas[i].numBlocks == s.metas[i].numBlocks
  {
    hide Owned, Saved, MetaOnDisk, FsBook.Write, CountFree, Lay, Grab;
    WriteAdmissible(b);
    WriteConserves(b);
    OwnedFits(s, owner);
    if t.metas[i].numBlocks == s.metas[i].numBlocks {
      GrabNothing(s.usage, s.metas[i].blocks, s.metas[i].numBlocks);
      OwnedDead(s.metas, s.usage, owner, i, t.metas[i]);
      assert t.metas == s.metas[i := t.metas[i]];
      OrphanSaved(s, t, i, c, buf[..|buf| - FsBook.Write(b).left]);
    } else {
      var x := GrabSome(s.usage, t.usage, s.metas[i].blocks, s.metas[i].numBlocks, t.metas[i].numBlocks - s.metas[i].numBlocks);
      GrabbedUnlisted(s.metas, s.usage, owner, i, t.metas, t.usage, owner', x);
    }
  }

  lemma GrabNothing(usage: seq<Byte>, blocks: seq<int>, at: nat)
    requires at <= |blocks|
    ensures Grab(usage, blocks, at, 0) == (usage, blocks)
  {
  }

  lemma GrabSome(usage: seq<Byte>, usage': seq<Byte>, blocks: seq<int>, at: nat, n: nat) returns (x: nat)
    requires at + n <= |blocks| && usage' == Grab(usage, blocks, at, n).0 && CountFree(usage') < CountFree(usage)
    ensures x < |usage| == |usage'| && usage[x] == 0 && usage'[x] != 0
  {
    x := SomeDiffers(usage, usage');
    if usage[x] != 0 { GrabKeeps(usage, blocks, at, n, x); }
  }

  lemma SomeDiffers(usage: seq<Byte>, usage': seq<Byte>) returns (x: nat)
    requires |usage| == |usage'| && usage != usage'
    ensures x < |usage| && usage[x] != usage'[x]
  {
    x :| x < |usage| && usage[x] != usage'[x];
  }

  lemma GrabbedUnlisted(metas: seq<Meta>, usage: seq<Byte>, owner: Owner, i: nat,
                        metas': seq<Meta>, usage': seq<Byte>, owner': Owner, x: nat)
    requires Owned(metas, usage, owner) && i < NUM_FILES == |metas'| && !metas[i].Live() && !metas'[i].Live()
    requires forall j :: 0 <= j < NUM_FILES && j != i ==> metas'[j] == metas[j]
    requires x < DATA_BLOCKS == |usage'| && usage[x] == 0 && usage'[x] != 0
    ensures !Owned(metas', usage', owner')
  {
    forall p ensures !Lists(metas', p, x) {
      if Lists(metas', p, x) { EntryOwned(metas, usage, owner, p.file, p.index); }
    }
    UnlistedMarked(metas', usage', owner', x);
  }

  lemma OwnedDead(metas: seq<Meta>, usage: seq<Byte>, owner: Owner, i: nat, m: Meta)
    requires Owned(metas, usage, owner) && i < NUM_FILES && !metas[i].Live() && !m.Live()
    ensures Owned(metas[i := m], usage, owner)
  {
    forall b | 0 <= b < DATA_BLOCKS && owner[b].Some? ensures Lists(metas[i := m], owner[b].value, b) {
      assert Lists(metas, owner[b].value, b);
    }
  }

  lemma OrphanSaved(s: Tables, t: Tables, i: nat, c: nat, data: seq<Byte>)
    requires DiskOk(s.disk) && TableOk(s.metas) && SizesOk(s.metas) && Saved(s.disk, s.metas)
    requires i < NUM_FILES && OrphanResult(s, t, i, c, data) && ListOk(t.metas[i]) && SizeOk(t.metas[i])
    requires MetaOnDisk(t.disk, i, t.metas[i]) && t.metas == s.metas[i := t.metas[i]] && !t.metas[i].Live()
    requires c + |data| <= t.metas[i].numBlocks * BLOCK_SIZE
    ensures TableOk(t.metas) && SizesOk(t.metas) && Saved(t.disk, t.metas)
  {
    hide Lay, EncodesList;
    forall b | 0 <= b < DATA_BLOCKS && !(3 * i + 1 <= b <= 3 * i + 3) ensures t.disk[b] == s.disk[b] {
      LayOutside(s.disk, t.metas[i].blocks, c, data, b);
    }
    forall j | 0 <= j < NUM_FILES && j != i
      ensures if t.metas[j].Live() then MetaOnDisk(t.disk, j, t.metas[j]) else t.disk[3 * j + 1][0] == 0
    {
      assert t.disk[3 * j + 1] == s.disk[3 * j + 1] && t.disk[3 * j + 2] == s.disk[3 * j + 2]
          && t.disk[3 * j + 3] == s.disk[3 * j + 3];
    }
  }

  /** The write is over and the slot has been saved. */
  lemma WriteEnds(s0: Tables, s1: Tables, s: Tables, owner: Owner, i: nat, c0: nat, c: nat, buf: seq<Byte>, b0: Book)
    requires DiskOk(s0.disk) && TableOk(s0.metas) && SizesOk(s0.metas) && Saved(s0.disk, s0.metas)
    requires Writing(s0, s1, owner, i, c0, c, buf)
    requires b0 == Book(s0.metas[i].numBlocks, s0.metas[i].sizeLast, c0, |buf|, CountFree(s0.usage))
    requires BookOk(b0) && c0 <= b0.Size()
    requires var e := FsBook.Write(b0);
      e == Book(s1.metas[i].numBlocks, s1.metas[i].sizeLast, c, |buf| - (c - c0), CountFree(s1.usage))
    requires s.metas == s1.metas && s.usage == s1.usage && DiskOk(s.disk) && MetaOnDisk(s.disk, i, s.metas[i])
    requires forall b :: 0 <= b < DISK_BLOCKS && !(3 * i + 1 <= b <= 3 * i + 3) ==> s.disk[b] == s1.disk[b]
    ensures Outcome(Exact, s0, s, i, c0, buf, FsBook.Write(b0))
    ensures Admissible(b0.Size(), c0, |buf|) ==> StateOk(s, owner)
  {
    hide FsBook.Write, Raw, Landed, SameSlot, Content, Owned, OthersSaved;
    WriteLanded(s0, s1, s, owner, i, c0, c, buf);
    WriteOthers(s0, s1, s, owner, i, c0, c, buf);
    if Admissible(b0.Size(), c0, |buf|) {
      WriteAdmissible(b0);
      WritingContent(s0, s1, owner, i, c0, c, buf);
      DataKept(s1.disk, s.disk, s1.metas[i]);
      WriteSaved(s0, s1, s, owner, i, c0, c, buf);
    }
  }

  lemma WriteLanded(s0: Tables, s1: Tables, s: Tables, owner: Owner, i: nat, c0: nat, c: nat, buf: seq<Byte>)
    requires Writing(s0, s1, owner, i, c0, c, buf) && s.metas == s1.metas && DiskOk(s.disk)
    requires forall b :: 0 <= b < DISK_BLOCKS && !(3 * i + 1 <= b <= 3 * i + 3) ==> s.disk[b] == s1.disk[b]
    ensures Landed(s0, s, i, c0, buf, c - c0) && OthersSaved(s0, s, i)
  {
    hide Grabbed, Owned;
    var m := s.metas[i];
    forall x | 0 <= x < m.numBlocks * BLOCK_SIZE ensures Raw(s.disk, m, x) == Raw(s1.disk, m, x) {
    }
  }

  lemma WriteOthers(s0: Tables, s1: Tables, s: Tables, owner: Owner, i: nat, c0: nat, c: nat, buf: seq<Byte>)
    requires DiskOk(s0.disk) && TableOk(s0.metas) && Writing(s0, s1, owner, i, c0, c, buf)
    requires s.metas == s1.metas && DiskOk(s.disk)
    requires forall b :: DATA_BLOCKS <= b < DISK_BLOCKS ==> s.disk[b] == s1.disk[b]
    ensures forall j :: 0 <= j < NUM_FILES && j != i ==> SameSlot(s0, s, j)
  {
    forall j | 0 <= j < NUM_FILES && j != i ensures SameSlot(s0, s, j) {
      if s0.metas[j].Live() {
        WritingFrame(s0, s1, owner, i, c0, c, buf, j);
        DataKept(s1.disk, s.disk, s1.metas[j]);
      }
    }
  }

  /** No block has changed but those of slot `i`. */
  ghost predicate OnlySlotSaved(disk0: Disk, disk: Disk, i: int) {
    && DiskOk(disk0) && DiskOk(disk)
    && forall b :: 0 <= b < DISK_BLOCKS && !(3 * i + 1 <= b <= 3 * i + 3) ==> disk[b] == disk0[b]
  }

  /** Whom the blocks belong to after a truncation. */
  function TruncateOwner(s: Tables, owner: Owner, i: nat, length: int): (r: Owner) {
    if i < |s.metas| && |owner| == DATA_BLOCKS && BlocksFor(length) < s.metas[i].numBlocks
    then OwnerShrunk(owner, i, BlocksFor(length)) else owner
  }

  /** The tables and the disk are in order after a truncation exactly when it has done what it is for. */
  lemma TruncateValid(s0: Tables, s1: Tables, s: Tables, owner0: Owner, owner: Owner, i: nat, length: int)
    requires StateOk(s0, owner0) && i < NUM_FILES && s0.metas[i].Live()
    requires length <= FileSize(s0.metas[i].numBlocks, s0.metas[i].sizeLast) && EntryBehind(s0.metas[i], length)
    requires s1.disk == s0.disk && s1.metas == s0.metas[i := Truncated(s0.metas[i], length)] && |s1.usage| == DATA_BLOCKS
    requires forall b :: 0 <= b < DATA_BLOCKS ==> s1.usage[b] == if Unmarks(s0.metas[i], length, b) then 0 else s0.usage[b]
    requires owner == TruncateOwner(s0, owner0, i, length)
    requires s.metas == s1.metas && s.usage == s1.usage && DiskOk(s.disk) && MetaOnDisk(s.disk, i, s.metas[i])
    requires OnlySlotSaved(s0.disk, s.disk, i)
    ensures StateOk(s, owner) <==> Ragged(length) && Lucky(s0.metas[i], length)
  {
    hide Owned, Unmarks, MetaOnDisk, Saved;
    var m := s0.metas[i];
    SizeIff(m, length);
    OwnedFits(s0, owner0);
    if !Lucky(m, length) {
      if BlocksFor(length) < 0 {
        Overdropped(s.metas, s.usage, owner, i);
      } else {
        TruncateLeaks(s0.metas, s0.usage, owner0, i, length, s.usage, owner);
      }
    } else {
      if BlocksFor(length) < m.numBlocks {
        TruncateLucky(s0.metas, s0.usage, owner0, i, length, s.usage, owner);
      } else {
        TruncateNothing(s0.metas, s0.usage, owner0, i, length, s.usage);
      }
      if Ragged(length) { ResavedOk(s0, s1, s, owner, i); }
    }
  }

  lemma OwnedFits(s: Tables, owner: Owner)
    requires Owned(s.metas, s.usage, owner)
    ensures |s.metas| == NUM_FILES && |s.usage| == |owner| == DATA_BLOCKS
  {
  }

  /** Metadata blocks are not data blocks. */
  lemma DataKept(d: Disk, d': Disk, m: Meta)
    requires DiskOk(d) && DiskOk(d') && ListOk(m) && Fits(m)
    requires forall b :: DATA_BLOCKS <= b < DISK_BLOCKS ==> d'[b] == d[b]
    ensures Content(d', m) == Content(d, m)
  {
  }

  lemma WriteSaved(s0: Tables, s1: Tables, s: Tables, owner: Owner, i: nat, c0: nat, c: nat, buf: seq<Byte>)
    requires DiskOk(s0.disk) && TableOk(s0.metas) && SizesOk(s0.metas) && Saved(s0.disk, s0.metas)
    requires Writing(s0, s1, owner, i, c0, c, buf) && SizeOk(s1.metas[i])
    requires s.metas == s1.metas && DiskOk(s.disk) && MetaOnDisk(s.disk, i, s.metas[i])
    requires forall b :: 0 <= b < DISK_BLOCKS && !(3 * i + 1 <= b <= 3 * i + 3) ==> s.disk[b] == s1.disk[b]
    ensures TableOk(s.metas) && SizesOk(s.metas) && Saved(s.disk, s.metas)
  {
    forall j | 0 <= j < NUM_FILES && j != i
      ensures if s.metas[j].Live() then MetaOnDisk(s.disk, j, s.metas[j]) else s.disk[3 * j + 1][0] == 0
    {
      WritingLow(s0, s1, owner, i, c0, c, buf, 3 * j + 1);
      WritingLow(s0, s1, owner, i, c0, c, buf, 3 * j + 2);
      WritingLow(s0, s1, owner, i, c0, c, buf, 3 * j + 3);
    }
  }

  /** `strncmp` gives 0. */
  predicate StrnEqual(a: seq<Byte>, b: seq<Byte>, n: nat)
    requires n <= |a| && n <= |b|
  {
    n == 0 || (a[0] == b[0] && (a[0] == 0 || StrnEqual(a[1..], b[1..], n - 1)))
  }

  /** Wherever the two differ within the first `n` bytes, both hold a zero before that. */
  predicate SameUpTo(a: seq<Byte>, b: seq<Byte>, n: nat)
    requires n <= |a| && n <= |b|
  {
    forall k :: 0 <= k < n && a[k] != b[k] ==> exists j :: 0 <= j < k && a[j] == 0 && b[j] == 0
  }

  lemma {:induction false} StrnIff(a: seq<Byte>, b: seq<Byte>, n: nat)
    requires n <= |a| && n <= |b|
    ensures StrnEqual(a, b, n) <==> SameUpTo(a, b, n)
  {
    if n > 0 && a[0] == b[0] != 0 {
      StrnIff(a[1..], b[1..], n - 1);
      if SameUpTo(a, b, n) { SameTail(a, b, n); }
      if SameUpTo(a[1..], b[1..], n - 1) { SameLonger(a, b, n); }
    }
  }

  lemma SameTail(a: seq<Byte>, b: seq<Byte>, n: nat)
    requires 0 < n <= |a| && n <= |b| && a[0] != 0 && SameUpTo(a, b, n)
    ensures SameUpTo(a[1..], b[1..], n - 1)
  {
    forall k | 0 <= k < n - 1 && a[1..][k] != b[1..][k]
      ensures exists j :: 0 <= j < k && a[1..][j] == 0 && b[1..][j] == 0
    {
      assert a[k + 1] != b[k + 1];
      var j :| 0 <= j < k + 1 && a[j] == 0 && b[j] == 0;
      assert a[1..][j - 1] == 0 && b[1..][j - 1] == 0;
    }
  }

  lemma SameLonger(a: seq<Byte>, b: seq<Byte>, n: nat)
    requires 0 < n <= |a| && n <= |b| && a[0] == b[0] && SameUpTo(a[1..], b[1..], n - 1)
    ensures SameUpTo(a, b, n)
  {
    forall k | 0 <= k < n && a[k] != b[k] ensures exists j :: 0 <= j < k && a[j] == 0 && b[j] == 0 {
      assert a[1..][k - 1] != b[1..][k - 1];
      var j :| 0 <= j < k - 1 && a[1..][j] == 0 && b[1..][j] == 0;
      assert a[j + 1] == 0 && b[j + 1] == 0;
    }
  }

  /** The bytes before the first zero. */
  function Cut(a: seq<Byte>): seq<Byte> {
    if a == [] || a[0] == 0 then [] else [a[0]] + Cut(a[1..])
  }

  lemma {:induction false} CutIff(a: seq<Byte>, b: seq<Byte>, n: nat)
    requires n <= |a| && n <= |b|
    ensures StrnEqual(a, b, n) <==> Cut(a[..n]) == Cut(b[..n])
  {
    if n > 0 {
      assert a[..n][1..] == a[1..][..n - 1] && b[..n][1..] == b[1..][..n - 1];
      CutIff(a[1..], b[1..], n - 1);
      if a[0] != 0 && b[0] != 0 {
        assert Cut(a[..n])[0] == a[0] && Cut(a[..n])[1..] == Cut(a[1..][..n - 1]);
        assert Cut(b[..n])[0] == b[0] && Cut(b[..n])[1..] == Cut(b[1..][..n - 1]);
      }
    }
  }

  /** The two name the same file: wherever they differ, both have ended before. */
  predicate SameName(a: seq<Byte>, b: seq<Byte>)
    requires |a| >= NAMELEN && |b| >= NAMELEN
  {
    SameUpTo(a, b, NAMELEN)
  }

  lemma NameIff(a: seq<Byte>, b: seq<Byte>)
    requires |a| >= NAMELEN && |b| >= NAMELEN
    ensures StrnEqual(a, b, NAMELEN) <==> SameName(a, b)
  {
    StrnIff(a, b, NAMELEN);
  }

  /** They do if and only if they are equal when cut at 15 bytes and at the first zero. */
  lemma SameNameIff(a: seq<Byte>, b: seq<Byte>)
    requires |a| >= NAMELEN && |b| >= NAMELEN
    ensures SameName(a, b) <==> Cut(a[..NAMELEN]) == Cut(b[..NAMELEN])
  {
    StrnIff(a, b, NAMELEN);
    CutIff(a, b, NAMELEN);
  }

  predicate Matches(m: Meta, name: seq<Byte>)
    requires |m.name| == NAMELEN && |name| >= NAMELEN
  {
    m.Live() && SameName(m.name, name)
  }

  ghost predicate FirstMatch(metas: seq<Meta>, name: seq<Byte>, i: int)
    requires TableOk(metas) && |name| >= NAMELEN
  {
    0 <= i < NUM_FILES && Matches(metas[i], name) && forall j :: 0 <= j < i ==> !Matches(metas[j], name)
  }

  ghost predicate FirstUnused(metas: seq<Meta>, i: int) {
    0 <= i < |metas| && !metas[i].Live() && forall j :: 0 <= j < i ==> metas[j].Live()
  }

  ghost predicate FirstUsed(metas: seq<Meta>, i: int) {
    0 <= i < |metas| && metas[i].Live() && forall j :: 0 <= j < i ==> !metas[j].Live()
  }

  /** Slot `i`, the first unused one, now holds an empty file of that name, with the block list it had;
      nothing else has changed. */
  ghost predicate Created(s: Tables, t: Tables, i: int, name: seq<Byte>)
    requires DiskOk(s.disk) && TableOk(s.metas) && DiskOk(t.disk) && TableOk(t.metas) && |name| >= NAMELEN
  {
    && FirstUnused(s.metas, i)
    && t.metas == s.metas[i := Meta(1, name[..NAMELEN], 0, 0, s.metas[i].blocks)]
    && t.usage == s.usage && OnlySlotSaved(s.disk, t.disk, i) && Content(t.disk, t.metas[i]) == []
    && (forall j :: 0 <= j < NUM_FILES && j != i ==> SameSlot(s, t, j))
  }

  /** Slot `i`, the first one in use, is no longer; exactly the blocks it listed have become free. */
  ghost predicate Deleted(s: Tables, t: Tables, i: int)
    requires DiskOk(s.disk) && TableOk(s.metas) && DiskOk(t.disk) && TableOk(t.metas)
    requires |s.usage| == |t.usage| == DATA_BLOCKS
  {
    && FirstUsed(s.metas, i)
    && t.metas == s.metas[i := s.metas[i].(inUse := 0)] && OnlySlotSaved(s.disk, t.disk, i)
    && (forall j :: 0 <= j < NUM_FILES && j != i ==> SameSlot(s, t, j))
    && (forall b :: 0 <= b < DATA_BLOCKS ==> t.usage[b] == if ListsBlock(s.metas[i], b) then 0 else s.usage[b])
  }

  /** Slot `j` is the same, and so are the file's bytes if it is in use. */
  ghost predicate SameSlot(s: Tables, t: Tables, j: int)
    requires DiskOk(s.disk) && TableOk(s.metas) && DiskOk(t.disk) && |t.metas| == NUM_FILES && 0 <= j < NUM_FILES
  {
    t.metas[j] == s.metas[j] && (s.metas[j].Live() ==> Content(t.disk, t.metas[j]) == Content(s.disk, s.metas[j]))
  }

  ghost predicate ListsBlock(m: Meta, b: int)
    requires ListOk(m)
  {
    exists k :: 0 <= k < m.numBlocks && m.blocks[k] == b + DATA_BLOCKS
  }

  lemma CreateOwned(metas: seq<Meta>, usage: seq<Byte>, owner: Owner, i: nat, m: Meta)
    requires Owned(metas, usage, owner) && i < NUM_FILES && !metas[i].Live() && MetaSized(m) && m.numBlocks == 0
    ensures Owned(metas[i := m], usage, owner)
  {
    forall b | 0 <= b < DATA_BLOCKS && owner[b].Some? ensures Lists(metas[i := m], owner[b].value, b) {
      assert Lists(metas, owner[b].value, b);
    }
  }

  lemma DeleteOwned(metas: seq<Meta>, usage: seq<Byte>, owner: Owner, i: nat,
                    metas': seq<Meta>, usage': seq<Byte>, owner': Owner)
    requires Owned(metas, usage, owner) && i < NUM_FILES && metas[i].Live() && |usage'| == |owner'| == DATA_BLOCKS
    requires metas' == metas[i := metas[i].(inUse := 0)]
    requires forall b :: 0 <= b < DATA_BLOCKS ==> usage'[b] == if ListsBlock(metas[i], b) then 0 else usage[b]
    requires forall b :: 0 <= b < DATA_BLOCKS ==> owner'[b] == if ListsBlock(metas[i], b) then None else owner[b]
    ensures Owned(metas', usage', owner')
  {
    forall j, k | 0 <= j < NUM_FILES && metas'[j].Live() && 0 <= k < metas'[j].numBlocks
      ensures owner'[metas'[j].blocks[k] - DATA_BLOCKS] == Some(Place(j, k))
    {
      var b := metas[j].blocks[k] - DATA_BLOCKS;
      assert owner[b] == Some(Place(j, k));
      assert !ListsBlock(metas[i], b);
    }
    forall b | 0 <= b < DATA_BLOCKS && owner'[b].Some? ensures Lists(metas', owner'[b].value, b) {
      assert Lists(metas, owner[b].value, b);
    }
  }

  /** A slot changed in memory and saved again leaves the other files and their metadata alone. */
  lemma ResavedOk(s0: Tables, s1: Tables, s: Tables, owner: Owner, i: nat)
    requires DiskOk(s0.disk) && TableOk(s0.metas) && Saved(s0.disk, s0.metas) && i < NUM_FILES
    requires Owned(s1.metas, s1.usage, owner) && TableOk(s1.metas) && SizesOk(s1.metas) && s1.disk == s0.disk
    requires forall j :: 0 <= j < NUM_FILES && j != i ==> s1.metas[j] == s0.metas[j]
    requires s.metas == s1.metas && s.usage == s1.usage && DiskOk(s.disk) && MetaOnDisk(s.disk, i, s.metas[i])
    requires forall b :: 0 <= b < DISK_BLOCKS && !(3 * i + 1 <= b <= 3 * i + 3) ==> s.disk[b] == s0.disk[b]
    ensures StateOk(s, owner)
    ensures forall j :: 0 <= j < NUM_FILES && j != i ==> SameSlot(s0, s, j)
  {
    forall j | 0 <= j < NUM_FILES && j != i
      ensures if s.metas[j].Live() then MetaOnDisk(s.disk, j, s.metas[j]) else s.disk[3 * j + 1][0] == 0
    {
      assert s.disk[3 * j + 1] == s0.disk[3 * j + 1] && s.disk[3 * j + 2] == s0.disk[3 * j + 2]
          && s.disk[3 * j + 3] == s0.disk[3 * j + 3];
    }
    forall j | 0 <= j < NUM_FILES && j != i ensures SameSlot(s0, s, j) {
      if s0.metas[j].Live() {
        assert forall k :: 0 <= k < s.metas[j].numBlocks ==> s.disk[s.metas[j].blocks[k]] == s0.disk[s.metas[j].blocks[k]];
      }
    }
  }
}
