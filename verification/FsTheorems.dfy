/**
 What the file system's operations add up to: a fresh disk, appends in a row, mounting again, the
 accounting of blocks, and where deleting and truncating depart from their names.
 */
module FsTheorems {
  import opened Sequences
  import opened FsModel
  import opened FsBook
  import opened FsCodec
  import opened FsWriting
  import opened FileSystem

  // ---- a fresh disk -----------------------------------------------------------------------------

  lemma FreshOk(signed: bool, s: Tables, stale: seq<Meta>)
    requires DiskOk(s.disk) && (forall b :: 0 <= b < DISK_BLOCKS ==> s.disk[b] == Blank())
    requires s.usage == s.disk[0] && LoadsAll(signed, s.disk, stale, s.metas)
    ensures StateOk(s, seq(DATA_BLOCKS, _ => None)) && forall i :: 0 <= i < NUM_FILES ==> !s.metas[i].Live()
  {
    assert forall i :: 0 <= i < NUM_FILES ==> s.metas[i].inUse == s.disk[3 * i + 1][0] == 0;
  }

  /** A block of zeroes. */
  function Blank(): seq<Byte> { seq(BLOCK_SIZE, _ => 0) }

  /** Making a file system and mounting it gives one in order, without files, and block 0 is blank. */
  method MakeAndMount(signed: bool, stale: seq<Meta>) returns (fs: FileSystem)
    requires |stale| == NUM_FILES && forall i :: 0 <= i < NUM_FILES ==> |stale[i].blocks| == DATA_BLOCKS
    ensures fresh(fs) && fresh(fs.disk) && fresh(fs.usage) && fresh(fs.metas) && fresh(fs.descs)
    ensures fs.signed == signed && fs.active && fs.InOrder() && (signed ==> fs.Valid())
    ensures fs.descs[..] == seq(OPEN_FILES, _ => Descriptor(Stored(signed, -1), 0))
    ensures forall i :: 0 <= i < NUM_FILES ==> !fs.metas[i].Live() && Loads(signed, fs.disk[..], i, stale[i], fs.metas[i])
    ensures fs.disk[0] == fs.usage[..] == Blank()
  {
    fs := new FileSystem.MakeFs(signed);
    var r := fs.MountFs(stale);
    FreshOk(signed, fs.Now(), stale);
  }

  // ---- mounting again ---------------------------------------------------------------------------

  /** Slot `i` is in use in both tables or in neither, under the same name, with the same bytes in the
      same blocks. */
  ghost predicate SameFileAt(disk: Disk, was: seq<Meta>, now: seq<Meta>, i: int)
    requires DiskOk(disk) && TableOk(was) && |now| == NUM_FILES && 0 <= i < NUM_FILES
  {
    && (now[i].Live() <==> was[i].Live())
    && (was[i].Live() ==>
          && SameFile(was[i], now[i]) && ListOk(now[i]) && Fits(now[i])
          && Content(disk, now[i]) == Content(disk, was[i]))
  }

  /** The numbers of the file in slot `i`, if there is one, survive being read back. */
  ghost predicate SurvivesAt(signed: bool, metas: seq<Meta>, i: int)
    requires TableOk(metas) && 0 <= i < NUM_FILES
  {
    metas[i].Live() && signed ==> Survives(metas[i])
  }

  ghost predicate AllSurvive(signed: bool, metas: seq<Meta>)
    requires TableOk(metas)
  {
    forall i :: 0 <= i < NUM_FILES ==> SurvivesAt(signed, metas, i)
  }

  /** After mounting, each slot stands for the same file as the one that was saved if and only if its
      numbers survive. */
  lemma LoadedTable(signed: bool, disk: Disk, was: seq<Meta>, stale: seq<Meta>, now: seq<Meta>)
    requires DiskOk(disk) && TableOk(was) && SizesOk(was) && Saved(disk, was) && LoadsAll(signed, disk, stale, now)
    ensures forall i :: 0 <= i < NUM_FILES ==> (now[i].Live() <==> was[i].Live())
    ensures forall i :: 0 <= i < NUM_FILES ==> (SameFileAt(disk, was, now, i) <==> SurvivesAt(signed, was, i))
    ensures AllSurvive(signed, was) ==> TableOk(now)
  {
    hide Survives;
    forall i | 0 <= i < NUM_FILES
      ensures now[i].Live() <==> was[i].Live()
      ensures SameFileAt(disk, was, now, i) <==> SurvivesAt(signed, was, i)
      ensures SurvivesAt(signed, was, i) ==> ListOk(now[i]) && Fits(now[i])
    {
      LoadSaved(signed, disk, was, i, stale[i], now[i]);
      if was[i].Live() && SameFile(was[i], now[i]) { SameContent(disk, was[i], now[i]); }
    }
  }

  /** Unmounting and mounting again finds the same names; it brings back a file's size and bytes if and
      only if none of its numbers has a low byte of 128 or more. (Unmounting works only where `char` is
      signed.) If all files come back, the accounting of blocks comes back right if and only if block 0,
      which nobody saves, marks exactly the blocks the files list. */
  method Remount(fs: FileSystem, stale: seq<Meta>)
    requires fs.Valid() && fs.active && AllClosed(fs.descs[..])
    requires |stale| == NUM_FILES && forall i :: 0 <= i < NUM_FILES ==> |stale[i].blocks| == DATA_BLOCKS
    modifies fs
    ensures fresh(fs.usage) && fresh(fs.metas) && fresh(fs.descs)
    ensures fs.active && fs.Allocated() && DiskOk(fs.disk[..]) && fs.disk[..] == old(fs.disk[..])
    ensures forall i :: 0 <= i < NUM_FILES ==> Loads(fs.signed, fs.disk[..], i, stale[i], fs.metas[i])
    ensures forall i :: 0 <= i < NUM_FILES ==>
              (SameFileAt(fs.disk[..], old(fs.metas[..]), fs.metas[..], i) <==> SurvivesAt(fs.signed, old(fs.metas[..]), i))
    ensures AllSurvive(fs.signed, old(fs.metas[..])) ==>
              && fs.Tabled() && (fs.signed ==> fs.Mounted() && AllClosed(fs.descs[..]))
              && (CanOwn(fs.metas[..], fs.usage[..]) <==> Marks(old(fs.metas[..]), old(fs.disk[0])))
  {
    ghost var was, owner := fs.metas[..], fs.owner;
    ghost var usage := fs.usage[..];
    assert CanOwn(was, usage) by { assert Owned(was, usage, owner); }
    var r := fs.UmountFs();
    r := fs.MountFs(stale);
    LoadedTable(fs.signed, fs.disk[..], was, stale, fs.metas[..]);
    if AllSurvive(fs.signed, was) { RemountOwnership(fs.disk[..], was, usage, fs.metas[..], fs.usage[..]); }
  }

  /** Where `char` is unsigned a closed descriptor is never recognised as one: on a fresh disk a file can
      be created, but neither opened nor the disk unmounted. */
  method UnsignedUseless(stale: seq<Meta>, name: seq<Byte>) returns (created: int, handle: int, unmounted: int)
    requires |stale| == NUM_FILES && forall i :: 0 <= i < NUM_FILES ==> |stale[i].blocks| == DATA_BLOCKS
    requires |name| >= NAMELEN
    ensures created == 0 && handle == -1 && unmounted == -1
  {
    var fs := MakeAndMount(false, stale);
    assert !fs.metas[0].Live();
    created := fs.Create(name);
    assert fs.descs[0].file == 255;
    handle := fs.Open(name);
    unmounted := fs.UmountFs();
  }

  /** Exactly the blocks that some file lists are marked. */
  ghost predicate Marks(metas: seq<Meta>, usage: seq<Byte>)
    requires |metas| == NUM_FILES
  {
    |usage| == DATA_BLOCKS && forall b :: 0 <= b < DATA_BLOCKS ==> (usage[b] != 0 <==> Listed(metas, b))
  }

  /** No block is listed twice. */
  ghost predicate Unshared(metas: seq<Meta>)
    requires |metas| == NUM_FILES
  {
    forall p, q, b :: Lists(metas, p, b) && Lists(metas, q, b) ==> p == q
  }

  /** A usage map agrees with the block lists if and only if no block is listed twice and the map marks
      exactly the blocks that are listed. */
  lemma OwnershipIff(metas: seq<Meta>, usage: seq<Byte>)
    requires TableOk(metas)
    ensures CanOwn(metas, usage) <==> Unshared(metas) && Marks(metas, usage)
  {
    if CanOwn(metas, usage) {
      var owner :| Owned(metas, usage, owner);
      forall p, q, b | Lists(metas, p, b) && Lists(metas, q, b) ensures p == q {
        OwnerOf(metas, usage, owner, p, b);
        OwnerOf(metas, usage, owner, q, b);
      }
      forall b | 0 <= b < DATA_BLOCKS ensures usage[b] != 0 <==> Listed(metas, b) {
        OwnedExactlyOnce(metas, usage, owner, b);
      }
    } else if Unshared(metas) && Marks(metas, usage) {
      var owner: Owner := seq(DATA_BLOCKS, b requires 0 <= b < DATA_BLOCKS => ListedAt(metas, b));
      forall i, k | 0 <= i < NUM_FILES && metas[i].Live() && 0 <= k < metas[i].numBlocks
        ensures owner[metas[i].blocks[k] - DATA_BLOCKS] == Some(Place(i, k))
      {
        assert Lists(metas, Place(i, k), metas[i].blocks[k] - DATA_BLOCKS);
      }
      assert Owned(metas, usage, owner);
    }
  }

  ghost function ListedAt(metas: seq<Meta>, b: int): (r: Option<Place>)
    requires |metas| == NUM_FILES
    ensures r.Some? <==> Listed(metas, b)
    ensures r.Some? ==> Lists(metas, r.value, b)
  {
    if Listed(metas, b) then
      var p :| Lists(metas, p, b);
      Some(p)
    else None
  }

  lemma OwnerOf(metas: seq<Meta>, usage: seq<Byte>, owner: Owner, p: Place, b: int)
    requires Owned(metas, usage, owner) && Lists(metas, p, b)
    ensures 0 <= b < DATA_BLOCKS && owner[b] == Some(p)
  {
    assert metas[p.file].blocks[p.index] - DATA_BLOCKS == b;
  }

  lemma SameLists(disk: Disk, was: seq<Meta>, now: seq<Meta>, p: Place, b: int)
    requires DiskOk(disk) && TableOk(was) && TableOk(now)
    requires forall i :: 0 <= i < NUM_FILES ==> SameFileAt(disk, was, now, i)
    ensures Lists(was, p, b) <==> Lists(now, p, b)
  {
    hide Content;
    if p.file < NUM_FILES { assert SameFileAt(disk, was, now, p.file); }
  }

  lemma RemountOwnership(disk: Disk, was: seq<Meta>, usage: seq<Byte>, now: seq<Meta>, loaded: seq<Byte>)
    requires DiskOk(disk) && TableOk(was) && TableOk(now) && CanOwn(was, usage)
    requires forall i :: 0 <= i < NUM_FILES ==> SameFileAt(disk, was, now, i)
    ensures CanOwn(now, loaded) <==> Marks(was, loaded)
  {
    OwnershipIff(was, usage);
    OwnershipIff(now, loaded);
    hide SameFileAt, Lists, CanOwn;
    forall p, b ensures Lists(was, p, b) <==> Lists(now, p, b) { SameLists(disk, was, now, p, b); }
    forall b ensures Listed(was, b) <==> Listed(now, b) {
    }
  }

  /** A blank map is right if and only if no file has a block. */
  lemma BlankMarks(metas: seq<Meta>)
    requires TableOk(metas)
    ensures Marks(metas, Blank()) <==> forall i :: 0 <= i < NUM_FILES && metas[i].Live() ==> metas[i].numBlocks == 0
  {
    if i :| 0 <= i < NUM_FILES && metas[i].Live() && metas[i].numBlocks != 0 {
      var b := metas[i].blocks[0] - DATA_BLOCKS;
      assert Lists(metas, Place(i, 0), b);
      assert Blank()[b] == 0 && Listed(metas, b);
    } else {
      forall b | 0 <= b < DATA_BLOCKS ensures !Listed(metas, b) {
      }
    }
  }

  // ---- appends in a row ---------------------------------------------------------------------------

  /** A well-formed book is determined by its size. */
  lemma BookBySize(a: Book, b: Book)
    requires BookOk(a) && BookOk(b) && a.Size() == b.Size()
    ensures a.numBlocks == b.numBlocks && a.sizeLast == b.sizeLast
  {
  }

  lemma AppendIs(b: Book)
    requires BookOk(b) && b.cursor == b.Size()
    ensures var e := Write(b); var w := Min(b.left, Room(b.numBlocks, b.sizeLast, b.free));
      && BookOk(e) && e.cursor == e.Size() == b.Size() + w && e.left == b.left - w
      && Room(e.numBlocks, e.sizeLast, e.free) == Room(b.numBlocks, b.sizeLast, b.free) - w
  {
    PastAppends(b);
  }

  /** Appending `n` bytes and then `m` leaves the same books as appending `n + m` at once, also when
      the disk fills up in between; and a short append leaves no room for more. */
  lemma AppendTwice(b: Book, n: nat, m: nat)
    requires BookOk(b) && b.cursor == b.Size()
    ensures var x := Write(b.(left := n)); var y := Write(x.(left := m)); var z := Write(b.(left := n + m));
      && BookOk(x) && x.cursor == x.Size()
      && y.numBlocks == z.numBlocks && y.sizeLast == z.sizeLast && y.free == z.free
      && x.left <= n && y.left <= m && (n - x.left) + (m - y.left) == n + m - z.left
      && (x.left > 0 ==> y.left == m)
  {
    hide Write;
    var x := Write(b.(left := n));
    AppendIs(b.(left := n));
    var y := Write(x.(left := m));
    AppendIs(x.(left := m));
    var z := Write(b.(left := n + m));
    AppendIs(b.(left := n + m));
    BookBySize(y, z);
  }

  function SizeOf(m: Meta): int { FileSize(m.numBlocks, m.sizeLast) }

  /** The books of file `i` when `n` bytes are about to be written at its end. */
  function AppendBook(s: Tables, i: nat, n: nat): Book
    requires i < |s.metas|
  {
    Book(s.metas[i].numBlocks, s.metas[i].sizeLast, SizeOf(s.metas[i]), n, CountFree(s.usage))
  }

  /** `t` is what `fs_write` makes of `s` when it writes `data` at the end of file `i`. */
  ghost predicate Appends(s: Tables, t: Tables, owner: Owner, i: nat, data: seq<Byte>) {
    && DiskOk(s.disk) && TableOk(s.metas) && SizesOk(s.metas) && i < NUM_FILES && s.metas[i].Live()
    && Booked(s, t, owner, i, Write(AppendBook(s, i, |data|)))
    && WriteResult(s, t, i, SizeOf(s.metas[i]), data, Write(AppendBook(s, i, |data|)))
  }

  /** `fs_write` through a descriptor at the end of its file is such an append, and leaves it there. */
  method Append(fs: FileSystem, fd: nat, data: seq<Byte>) returns (written: int)
    requires fs.Valid() && fs.active && fd < OPEN_FILES && fs.descs[fd].file != -1 && fs.Alive(fd)
    requires fs.descs[fd].cursor == fs.GetFilesize(fd)
    modifies fs.disk, fs.usage, fs.metas, fs.descs, fs`owner
    ensures fs.Valid() && fs.descs[fd].file == old(fs.descs[fd]).file && fs.Alive(fd)
    ensures Moved(old(fs.descs[..]), fs.descs[..], fd, old(fs.descs[fd].cursor) + written)
    ensures fs.descs[fd].cursor == fs.GetFilesize(fd) == old(fs.GetFilesize(fd)) + written
    ensures written == Min(|data|, Room(old(fs.metas[fs.descs[fd].file]).numBlocks,
                                        old(fs.metas[fs.descs[fd].file]).sizeLast, old(CountFree(fs.usage[..]))))
    ensures Appends(old(fs.Now()), fs.Now(), fs.owner, old(fs.descs[fd]).file, data)
  {
    hide Write, Owned, SameSlot, Content, CountFree, Spliced, Saved, Room;
    AppendIs(fs.BookOf(fd, |data|));
    written := fs.Write(fd, data);
  }

  lemma AppendStarts(s: Tables, t: Tables, owner: Owner, i: nat, data: seq<Byte>)
    requires Appends(s, t, owner, i, data)
    ensures DiskOk(s.disk) && i < NUM_FILES == |s.metas| && ListOk(s.metas[i]) && SizeOk(s.metas[i])
    ensures BookOk(AppendBook(s, i, |data|)) && AppendBook(s, i, |data|).cursor == AppendBook(s, i, |data|).Size()
    ensures DiskOk(t.disk) && i < |t.metas| && ListOk(t.metas[i]) && SizeOk(t.metas[i])
  {
    hide Write, SameSlot, Content, CountFree, Spliced;
  }

  lemma SplicedAtEnd(was: seq<Byte>, data: seq<Byte>)
    ensures Spliced(was, |was|, data) == was + data
  {
  }

  /** An append adds what there is room for to the file's bytes. */
  lemma AppendContent(s: Tables, t: Tables, owner: Owner, i: nat, data: seq<Byte>)
    requires Appends(s, t, owner, i, data)
    ensures DiskOk(s.disk) && i < NUM_FILES == |s.metas| && ListOk(s.metas[i]) && SizeOk(s.metas[i])
    ensures DiskOk(t.disk) && i < |t.metas| && ListOk(t.metas[i]) && SizeOk(t.metas[i])
    ensures var e := Write(AppendBook(s, i, |data|));
      var w := Min(|data|, Room(s.metas[i].numBlocks, s.metas[i].sizeLast, CountFree(s.usage)));
      && e.left == |data| - w && 0 <= w
      && Content(t.disk, t.metas[i]) == Content(s.disk, s.metas[i]) + data[..w]
      && AppendBook(t, i, 0) == e.(left := 0)
  {
    hide Write, Owned, SameSlot, Content, CountFree, Spliced;
    AppendStarts(s, t, owner, i, data);
    var b := AppendBook(s, i, |data|);
    AppendIs(b);
    SplicedAtEnd(Content(s.disk, s.metas[i]), data[..|data| - Write(b).left]);
  }

  /** Two appends leave the file with the same bytes and size, and the disk with the same free space,
      as one append of both. */
  lemma AppendsCompose(s: Tables, s1: Tables, s2: Tables, t: Tables, o1: Owner, o2: Owner, o: Owner,
                       i: nat, a: seq<Byte>, b: seq<Byte>)
    requires Appends(s, s1, o1, i, a) && Appends(s1, s2, o2, i, b) && Appends(s, t, o, i, a + b)
    ensures DiskOk(s2.disk) && i < |s2.metas| && ListOk(s2.metas[i]) && SizeOk(s2.metas[i])
    ensures DiskOk(t.disk) && i < |t.metas| && ListOk(t.metas[i]) && SizeOk(t.metas[i])
    ensures Content(s2.disk, s2.metas[i]) == Content(t.disk, t.metas[i])
    ensures CountFree(s2.usage) == CountFree(t.usage)
  {
    hide Write, Appends, CountFree, Content, WriteResult, Room;
    AppendStarts(s, s1, o1, i, a);
    AppendContent(s, s1, o1, i, a);
    AppendContent(s1, s2, o2, i, b);
    AppendContent(s, t, o, i, a + b);
    AppendTwice(AppendBook(s, i, |a|), |a|, |b|);
    var x := Write(AppendBook(s, i, |a|));
    var y := Write(AppendBook(s1, i, |b|));
    var z := Write(AppendBook(s, i, |a + b|));
    assert x.(left := |b|) == AppendBook(s1, i, |b|);
    AppendsJoin(Content(s.disk, s.metas[i]), a, |a| - x.left, b, |b| - y.left);
  }

  lemma AppendsJoin(was: seq<Byte>, a: seq<Byte>, n: int, b: seq<Byte>, m: int)
    requires 0 <= n <= |a| && 0 <= m <= |b| && (n < |a| ==> m == 0)
    ensures was + a[..n] + b[..m] == was + (a + b)[..n + m]
  {
  }

  // ---- the accounting of blocks -------------------------------------------------------------------------

  /** How many blocks the live files have. */
  function BlocksListed(metas: seq<Meta>): int {
    if metas == [] then 0
    else BlocksListed(metas[..|metas| - 1]) + (if metas[|metas| - 1].Live() then metas[|metas| - 1].numBlocks else 0)
  }

  /** The data blocks that belong to the first `n` slots. */
  ghost function OwnedBelow(owner: Owner, n: int): set<int> {
    set b | 0 <= b < |owner| && owner[b].Some? && owner[b].value.file < n
  }

  ghost function Entries(m: Meta, n: nat): set<int>
    requires n <= |m.blocks|
  {
    if n == 0 then {} else Entries(m, n - 1) + {m.blocks[n - 1] - DATA_BLOCKS}
  }

  lemma {:induction false} EntriesAre(m: Meta, n: nat)
    requires n <= |m.blocks|
    ensures forall b :: b in Entries(m, n) <==> exists k :: 0 <= k < n && m.blocks[k] == b + DATA_BLOCKS
  {
    if n > 0 { EntriesAre(m, n - 1); }
  }

  lemma {:induction false} EntriesSize(m: Meta, n: nat)
    requires ListOk(m) && DistinctBlocks(m) && n <= m.numBlocks
    ensures |Entries(m, n)| == n
  {
    if n > 0 {
      EntriesSize(m, n - 1);
      EntriesAre(m, n - 1);
    }
  }

  lemma {:induction false} OwnedCount(metas: seq<Meta>, usage: seq<Byte>, owner: Owner, n: nat)
    requires Owned(metas, usage, owner) && n <= NUM_FILES
    ensures |OwnedBelow(owner, n)| == BlocksListed(metas[..n])
  {
    if n == 0 {
      assert OwnedBelow(owner, 0) == {};
    } else {
      OwnedCount(metas, usage, owner, n - 1);
      OwnedSlot(metas, usage, owner, n - 1);
      hide Owned, OwnedBelow, OwnedAt;
      assert metas[..n][..n - 1] == metas[..n - 1];
      OwnedSplit(owner, n - 1);
    }
  }

  /** The data blocks that belong to slot `i`. */
  ghost function OwnedAt(owner: Owner, i: nat): set<int> {
    set b | 0 <= b < |owner| && owner[b].Some? && owner[b].value.file == i
  }

  lemma OwnedSplit(owner: Owner, i: nat)
    ensures |OwnedBelow(owner, i + 1)| == |OwnedBelow(owner, i)| + |OwnedAt(owner, i)|
  {
    assert OwnedBelow(owner, i + 1) == OwnedBelow(owner, i) + OwnedAt(owner, i);
  }

  lemma OwnedSlot(metas: seq<Meta>, usage: seq<Byte>, owner: Owner, i: nat)
    requires Owned(metas, usage, owner) && i < NUM_FILES
    ensures |OwnedAt(owner, i)| == if metas[i].Live() then metas[i].numBlocks else 0
  {
    if metas[i].Live() {
      OwnedDistinctBlocks(metas, usage, owner, i);
      EntriesSize(metas[i], metas[i].numBlocks);
      OwnedByFile(metas, usage, owner, i);
    } else {
      forall b | 0 <= b < DATA_BLOCKS && owner[b].Some?
        ensures owner[b].value.file < NUM_FILES && metas[owner[b].value.file].Live()
      {
        assert Lists(metas, owner[b].value, b);
      }
      assert OwnedAt(owner, i) == {};
    }
  }

  /** The entries of a file's list are the blocks it owns. */
  lemma OwnedByFile(metas: seq<Meta>, usage: seq<Byte>, owner: Owner, i: nat)
    requires Owned(metas, usage, owner) && i < NUM_FILES && metas[i].Live()
    ensures OwnedAt(owner, i) == Entries(metas[i], metas[i].numBlocks)
  {
    hide Entries;
    var m := metas[i];
    EntriesAre(m, m.numBlocks);
    forall b | b in OwnedAt(owner, i) ensures b in Entries(m, m.numBlocks) {
      assert Lists(metas, owner[b].value, b);
      assert m.blocks[owner[b].value.index] == b + DATA_BLOCKS;
    }
    forall b | b in Entries(m, m.numBlocks) ensures b in OwnedAt(owner, i) {
      var k :| 0 <= k < m.numBlocks && m.blocks[k] == b + DATA_BLOCKS;
      assert owner[m.blocks[k] - DATA_BLOCKS] == Some(Place(i, k));
    }
  }

  ghost function UsedBlocks(usage: seq<Byte>): set<int> {
    set b | 0 <= b < |usage| && usage[b] != 0
  }

  lemma {:induction false} UsedCount(usage: seq<Byte>)
    ensures CountFree(usage) + |UsedBlocks(usage)| == |usage|
  {
    if usage == [] {
      assert UsedBlocks(usage) == {};
    } else {
      var n := |usage| - 1;
      UsedCount(usage[..n]);
      assert UsedBlocks(usage) == UsedBlocks(usage[..n]) + (if usage[n] != 0 then {n} else {});
    }
  }

  /** No block is lost: the free blocks and the blocks the live files list make up all there are. */
  lemma BlocksConserved(s: Tables, owner: Owner)
    requires StateOk(s, owner)
    ensures CountFree(s.usage) + BlocksListed(s.metas) == DATA_BLOCKS
  {
    OwnedCount(s.metas, s.usage, owner, NUM_FILES);
    assert s.metas[..NUM_FILES] == s.metas;
    UsedCount(s.usage);
    forall b | 0 <= b < DATA_BLOCKS && owner[b].Some? ensures owner[b].value.file < NUM_FILES {
      assert Lists(s.metas, owner[b].value, b);
    }
    assert UsedBlocks(s.usage) == OwnedBelow(owner, NUM_FILES);
  }

  // ---- deleting and truncating -----------------------------------------------------------------------------

  /** `fs_delete(name)` removes the file `fs_open(name)` would open exactly when the first slot in use
      has that name. */
  lemma DeleteNamedIff(s: Tables, t: Tables, i: int, name: seq<Byte>)
    requires DiskOk(s.disk) && TableOk(s.metas) && DiskOk(t.disk) && TableOk(t.metas)
    requires |s.usage| == |t.usage| == DATA_BLOCKS && Deleted(s, t, i) && |name| >= NAMELEN
    ensures FirstMatch(s.metas, name, i) <==> SameName(s.metas[i].name, name)
  {
  }
}
