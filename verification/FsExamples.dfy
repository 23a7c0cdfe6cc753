/**
 Runs on a fresh disk that show where the file system departs from what it is for.
 */
module FsExamples {
  import opened Sequences
  import opened FsModel
  import opened FsBook
  import opened FsCodec
  import opened FsWriting
  import opened FsTruncate
  import opened FileSystem
  import opened FsTheorems
  import opened FsStray

  // ---- names ------------------------------------------------------------------------------------------

  /** The letter b and another one, in a buffer of 15 bytes; behind the end, `rest`. */
  function TwoLetters(second: Byte, rest: Byte): seq<Byte> {
    [98, second, 0] + seq(NAMELEN - 3, _ => rest)
  }

  lemma LettersCut(second: Byte, rest: Byte)
    requires second != 0
    ensures |TwoLetters(second, rest)| == NAMELEN && Cut(TwoLetters(second, rest)[..NAMELEN]) == [98, second]
  {
    var a := TwoLetters(second, rest);
    assert a[..NAMELEN] == a && a[1..][0] == second && a[1..][1..][0] == 0;
    assert Cut(a[1..][1..]) == [];
    assert Cut(a[1..]) == [second];
  }

  /** Two such names are the same if and only if the second letters are, whatever is behind the end. */
  lemma LettersIff(x: Byte, restX: Byte, y: Byte, restY: Byte)
    requires x != 0 && y != 0
    ensures SameName(TwoLetters(x, restX), TwoLetters(y, restY)) <==> x == y
  {
    LettersCut(x, restX);
    LettersCut(y, restY);
    SameNameIff(TwoLetters(x, restX), TwoLetters(y, restY));
    assert [98, x][1] == x && [98, y][1] == y;
  }

  /** On a fresh disk with a file b0, opening b1 fails; when b1 has been created too, each of the two is
      opened by its own name. */
  method OpenByName(stale: seq<Meta>) returns (fs: FileSystem, none: int, first: int, second: int)
    requires |stale| == NUM_FILES && forall i :: 0 <= i < NUM_FILES ==> |stale[i].blocks| == DATA_BLOCKS
    ensures fs.active && fs.Valid() && none == -1 && first == 0 && second == 1
    ensures fs.metas[0].Live() && fs.metas[0].name == TwoLetters(48, 0) && fs.descs[0] == Descriptor(0, 0)
    ensures fs.metas[1].Live() && fs.metas[1].name == TwoLetters(49, 0) && fs.descs[1] == Descriptor(1, 0)
  {
    hide SameSlot, Content, MetaOnDisk, Owned, Saved, SizesOk, SameName, TwoLetters, Loads, Cut;
    LettersIff(48, 0, 48, 7);
    LettersIff(48, 0, 49, 0);
    LettersIff(49, 0, 49, 0);
    LettersCut(48, 0);
    LettersCut(48, 7);
    LettersCut(49, 0);
    fs := MakeAndMount(true, stale);
    CreateAt(fs, TwoLetters(48, 0), 0);
    none := fs.Open(TwoLetters(49, 0));
    CreateAt(fs, TwoLetters(49, 0), 1);
    assert Matches(fs.metas[0], TwoLetters(48, 7)) && fs.descs[0].file == -1;
    first := fs.Open(TwoLetters(48, 7));
    assert Matches(fs.metas[1], TwoLetters(49, 0)) && fs.descs[1].file == -1;
    second := fs.Open(TwoLetters(49, 0));
  }

  method CreateAt(fs: FileSystem, name: seq<Byte>, i: nat)
    requires fs.Valid() && fs.active && |name| == NAMELEN && FirstUnused(fs.metas[..], i)
    modifies fs.disk, fs.metas
    ensures fs.Valid() && fs.metas[..] == old(fs.metas[..])[i := Meta(1, name, 0, 0, old(fs.metas[i]).blocks)]
  {
    hide SameSlot, Content, MetaOnDisk, Owned, Saved, SizesOk;
    ghost var s := fs.Now();
    var r := fs.Create(name);
    ghost var k :| Created(s, fs.Now(), k, name);
    assert name[..NAMELEN] == name;
  }

  // ---- a file that does not come back ---------------------------------------------------------------

  lemma SizeLost(disk: Disk, metas: seq<Meta>, i: nat, stale: Meta, m: Meta)
    requires DiskOk(disk) && TableOk(metas) && SizesOk(metas) && Saved(disk, metas) && i < NUM_FILES
    requires metas[i].Live() && !LowByteSmall(metas[i].sizeLast) && Loads(true, disk, i, stale, m)
    ensures m.Live() && m.sizeLast == metas[i].sizeLast - 256
    ensures LowByteSmall(metas[i].numBlocks) ==> m.numBlocks == metas[i].numBlocks
  {
    hide Hi, Lo, Word, ListWord;
    WordRoundTrip(true, metas[i].sizeLast);
    WordRoundTrip(true, metas[i].numBlocks);
  }

  method TwoHundred(stale: seq<Meta>, name: seq<Byte>, data: seq<Byte>) returns (fs: FileSystem)
    requires |stale| == NUM_FILES && forall i :: 0 <= i < NUM_FILES ==> |stale[i].blocks| == DATA_BLOCKS
    requires |name| >= NAMELEN && |data| == 200
    ensures fresh(fs) && fresh(fs.disk) && fresh(fs.usage) && fresh(fs.metas) && fresh(fs.descs)
    ensures fs.signed && fs.active && fs.Valid() && AllClosed(fs.descs[..])
    ensures fs.metas[0].Live() && fs.metas[0].numBlocks == 1 && fs.metas[0].sizeLast == 200
  {
    hide Appends, Owned, Content, CountFree, OthersSaved, Saved;
    fs := MakeAndMount(true, stale);
    var fd := CreateOpen(fs, name, 0);
    ghost var s := fs.Now();
    assert s.usage[0] == 0;
    CountFreeNone(s.usage);
    var w := Append(fs, fd, data);
    FirstAppend(s, fs.Now(), fs.owner, 0, data);
    var r := fs.Close(fd);
  }

  /** A file of 200 bytes, closed; unmounted and mounted again, its size is -56. */
  method ShortFileLost(stale: seq<Meta>, name: seq<Byte>, data: seq<Byte>, stale': seq<Meta>) returns (fs: FileSystem)
    requires |stale| == NUM_FILES && forall i :: 0 <= i < NUM_FILES ==> |stale[i].blocks| == DATA_BLOCKS
    requires |stale'| == NUM_FILES && forall i :: 0 <= i < NUM_FILES ==> |stale'[i].blocks| == DATA_BLOCKS
    requires |name| >= NAMELEN && |data| == 200
    ensures fs.active && fs.Allocated() && fs.metas[0].Live()
    ensures FileSize(fs.metas[0].numBlocks, fs.metas[0].sizeLast) == -56
  {
    hide Owned, Content, Saved, Loads;
    fs := TwoHundred(stale, name, data);
    ghost var was := fs.metas[..];
    Remount(fs, stale');
    SizeLost(fs.disk[..], was, 0, stale'[0], fs.metas[0]);
  }

  // ---- a cursor past the end --------------------------------------------------------------------------

  /** Ten bytes, truncated to five: a byte written next leaves the file with six, and the cursor at eleven. */
  method DriftOnFresh(stale: seq<Meta>, name: seq<Byte>, ten: seq<Byte>, v: Byte) returns (fs: FileSystem, fd: nat)
    requires |stale| == NUM_FILES && forall i :: 0 <= i < NUM_FILES ==> |stale[i].blocks| == DATA_BLOCKS
    requires |name| >= NAMELEN && |ten| == 10
    ensures fs.active && fs.Allocated() && DescsOk(fs.descs[..]) && fd < OPEN_FILES && fs.descs[fd] == Descriptor(0, 11)
    ensures fs.GetFilesize(fd) == 6
  {
    hide Appends, Owned, Content, CountFree, OthersSaved;
    fs := MakeAndMount(true, stale);
    fd := CreateOpen(fs, name, 0);
    ghost var s := fs.Now();
    assert s.usage[0] == 0;
    CountFreeNone(s.usage);
    var w := Append(fs, fd, ten);
    FirstAppend(s, fs.Now(), fs.owner, 0, ten);
    WriteAfterTruncate(fs, fd, v);
  }

  method WriteAfterTruncate(fs: FileSystem, fd: nat, v: Byte)
    requires fs.Valid() && fs.active && fd < OPEN_FILES && fs.descs[fd] == Descriptor(0, 10) && fs.Alive(fd)
    requires fs.metas[0].numBlocks == 1 && fs.metas[0].sizeLast == 10
    modifies fs.disk, fs.usage, fs.metas, fs.descs, fs`owner
    ensures fs.Allocated() && DescsOk(fs.descs[..]) && fs.descs[fd] == Descriptor(0, 11) && fs.GetFilesize(fd) == 6
  {
    hide Owned, Content, CountFree, Saved, MetaOnDisk, Outcome, Write;
    var r := fs.Truncate(fd, 5);
    DriftExample(CountFree(fs.usage[..]));
    var w := fs.Write(fd, [v]);
  }

  // ---- a descriptor whose file has been deleted ----------------------------------------------------------

  /** Descriptor `fd` is open on slot 0, whose file has been deleted; the file in slot 1 has its blocks. */
  ghost predicate OrphanOpen(fs: FileSystem, fd: nat)
    requires fs.Mounted()
    reads fs, fs.disk, fs.usage, fs.metas, fs.descs
  {
    && fd < OPEN_FILES && fs.descs[fd] == Descriptor(0, 0)
    && !fs.metas[0].Live() && fs.metas[0].numBlocks == 2 && fs.metas[0].sizeLast == BLOCK_SIZE
    && fs.metas[0].blocks[0] == DATA_BLOCKS && TwoBlocks(fs, 1)
  }

  /** Two files; the first has two blocks and is open when it is deleted, and the second gets them. */
  method LeaveOrphan(stale: seq<Meta>, a: seq<Byte>, b: seq<Byte>) returns (fs: FileSystem, fd: nat)
    requires |stale| == NUM_FILES && forall i :: 0 <= i < NUM_FILES ==> |stale[i].blocks| == DATA_BLOCKS
    requires |a| >= NAMELEN && |b| >= NAMELEN && !SameName(a[..NAMELEN], b)
    ensures fresh(fs) && fresh(fs.disk) && fresh(fs.usage) && fresh(fs.metas) && fresh(fs.descs)
    ensures fs.active && fs.Valid() && OrphanOpen(fs, fd)
  {
    hide SameSlot, Content, MetaOnDisk, Owned, Saved, SizesOk, SameName;
    var d;
    fs, d := TwoFiles(stale, a, b);
    fd := DeleteOpen(fs, a, d);
    WriteTwo(fs, d, 1);
  }

  /** A file of two blocks in slot 0, closed, and an empty one in slot 1, open. */
  method TwoFiles(stale: seq<Meta>, a: seq<Byte>, b: seq<Byte>) returns (fs: FileSystem, d: nat)
    requires |stale| == NUM_FILES && forall i :: 0 <= i < NUM_FILES ==> |stale[i].blocks| == DATA_BLOCKS
    requires |a| >= NAMELEN && |b| >= NAMELEN && !SameName(a[..NAMELEN], b)
    ensures fresh(fs) && fresh(fs.disk) && fresh(fs.usage) && fresh(fs.metas) && fresh(fs.descs)
    ensures fs.signed && fs.active && fs.Valid() && TwoBlocks(fs, 0) && fs.metas[0].sizeLast == BLOCK_SIZE
    ensures fs.metas[0].name == a[..NAMELEN] && fs.metas[1].Live() && fs.metas[1].numBlocks == 0
    ensures d < OPEN_FILES && fs.descs[d] == Descriptor(1, 0)
    ensures forall e :: 0 <= e < OPEN_FILES && e != d ==> fs.descs[e].file == -1
  {
    hide SameSlot, Content, MetaOnDisk, Owned, Saved, SizesOk, SameName;
    fs := MakeAndMount(true, stale);
    var fd := CreateOpen(fs, a, 0);
    WriteTwo(fs, fd, 0);
    ghost var s := fs.Now();
    assert |Content(s.disk, s.metas[0])| == 2 * BLOCK_SIZE;
    d := CreateOpen(fs, b, 1);
    KeptSlot(s, fs.Now(), 0);
  }

  lemma KeptSlot(s: Tables, t: Tables, i: nat)
    requires DiskOk(s.disk) && TableOk(s.metas) && DiskOk(t.disk) && TableOk(t.metas) && i < NUM_FILES
    requires t.metas[i] == s.metas[i] && forall b :: DATA_BLOCKS <= b < DISK_BLOCKS ==> t.disk[b] == s.disk[b]
    ensures Content(t.disk, t.metas[i]) == Content(s.disk, s.metas[i])
  {
    DataKept(s.disk, t.disk, s.metas[i]);
  }

  /** Opens the first file and deletes it. */
  method DeleteOpen(fs: FileSystem, a: seq<Byte>, d: nat) returns (fd: nat)
    requires fs.Valid() && fs.active && |a| >= NAMELEN && TwoBlocks(fs, 0) && fs.metas[0].name == a[..NAMELEN]
    requires d < OPEN_FILES && forall e :: 0 <= e < OPEN_FILES && e != d ==> fs.descs[e].file == -1
    requires fs.descs[d].file == 1
    modifies fs.disk, fs.usage, fs.metas, fs.descs, fs`owner
    ensures fs.Valid() && fd < OPEN_FILES && fd != d && fs.descs[fd] == Descriptor(0, 0) && fs.descs[d] == old(fs.descs[d])
    ensures fs.metas[..] == old(fs.metas[..])[0 := old(fs.metas[0]).(inUse := 0)] && fs.usage[..] == Blank()
  {
    hide SameSlot, Content, MetaOnDisk, Owned, Saved, SizesOk;
    assert Matches(fs.metas[0], a);
    assert fs.descs[if d == 0 then 1 else 0].file == -1;
    var at := fs.Open(a);
    fd := at;
    ghost var s := fs.Now();
    var r := fs.Delete(a);
    ghost var i :| Deleted(s, fs.Now(), i);
    TwoReleased(s.metas[0], s.usage, fs.usage[..]);
  }

  /** A byte written through the descriptor of the deleted file changes the other, and leaves everything
      in order. */
  method OrphanIntoFile(fs: FileSystem, fd: nat, v: Byte)
    requires fs.Valid() && fs.active && OrphanOpen(fs, fd)
    modifies fs.disk, fs.usage, fs.metas, fs.descs, fs`owner
    ensures fs.Valid() && fs.metas[1] == old(fs.metas[1])
    ensures old(Content(fs.disk[..], fs.metas[1]))[0] == 0 && Content(fs.disk[..], fs.metas[1])[0] == v
  {
    ghost var s := fs.Now();
    assert Content(s.disk, s.metas[1])[0] == (Blank() + Blank())[0] == 0;
    WriteAdmissible(fs.BookOf(fd, 1));
    WriteConserves(fs.BookOf(fd, 1));
    hide Owned, Saved, Lay, Write, CountFree, Content, MetaOnDisk;
    var w := fs.Write(fd, [v]);
    assert [v][..w] == [v];
    FirstByte(s, fs.Now(), v);
  }

  lemma FirstByte(s: Tables, t: Tables, v: Byte)
    requires TableOk(s.metas) && OrphanResult(s, t, 0, 0, [v]) && t.metas[0].blocks[0] == DATA_BLOCKS
    requires s.metas[1].numBlocks == 2 && s.metas[1].blocks[0] == DATA_BLOCKS && TableOk(t.metas) && t.metas[1] == s.metas[1]
    requires SizeOk(s.metas[1])
    ensures Content(t.disk, t.metas[1])[0] == v
  {
    LayAt(s.disk, t.metas[0].blocks, 0, [v], DATA_BLOCKS, 0);
    assert Raw(t.disk, t.metas[1], 0) == t.disk[DATA_BLOCKS][0];
  }
}
