/**
 The file system as its callers see it: 64 slots, each a name and a sequence of bytes, and 32
 descriptors. Every run of calls on the real one is a run of this one.
 */
module FsRun {
  import opened Sequences
  import opened FsModel
  import FsBook
  import opened FsCodec
  import opened FsWriting
  import opened FsTruncate
  import opened FileSystem
  import opened FsTheorems

  datatype File = File(name: seq<Byte>, bytes: seq<Byte>)

  datatype Files = Files(slots: seq<Option<File>>, descs: seq<Descriptor>)

  datatype Op =
    | Create(name: seq<Byte>)
    | Delete(name: seq<Byte>)
    | Open(name: seq<Byte>)
    | Close(fd: nat)
    | Lseek(fd: nat, offset: int)
    | Read(fd: nat, nbyte: nat)
    | Write(fd: nat, data: seq<Byte>)
    | Truncate(fd: nat, length: nat)

  /** The files after a call, and what it returned. */
  datatype Answer = Answer(files: Files, r: int, data: seq<Byte>)

  // ---- what the calls do ------------------------------------------------------------------------

  predicate FilesOk(a: Files) {
    && |a.slots| == NUM_FILES && |a.descs| == OPEN_FILES
    && forall d :: 0 <= d < OPEN_FILES ==> -1 <= a.descs[d].file < NUM_FILES && a.descs[d].cursor >= 0
  }

  /** The first element that is as `p` says, or the length when there is none. */
  function First<T>(s: seq<T>, p: T -> bool): (i: nat)
    ensures i <= |s| && (i < |s| ==> p(s[i]))
    ensures forall j :: 0 <= j < i ==> !p(s[j])
  {
    if s == [] || p(s[0]) then 0
    else
      var r := First(s[1..], p);
      assert forall j :: 1 <= j < r + 1 ==> s[j] == s[1..][j - 1];
      r + 1
  }

  lemma FirstIs<T>(s: seq<T>, p: T -> bool, i: nat)
    requires i <= |s| && (i < |s| ==> p(s[i])) && forall j :: 0 <= j < i ==> !p(s[j])
    ensures First(s, p) == i
  {
  }

  predicate Named(f: Option<File>, name: seq<Byte>) {
    f.Some? && |f.value.name| >= NAMELEN && |name| >= NAMELEN && SameName(f.value.name, name)
  }

  /** Descriptor `fd` is open on a slot that is in use. */
  predicate OnFile(a: Files, fd: nat)
    requires FilesOk(a) && fd < OPEN_FILES
  {
    a.descs[fd].file != -1 && a.slots[a.descs[fd].file].Some?
  }

  function BytesAt(a: Files, fd: nat): seq<Byte>
    requires FilesOk(a) && fd < OPEN_FILES && OnFile(a, fd)
  {
    a.slots[a.descs[fd].file].value.bytes
  }

  /** The blocks the files need. */
  function BlocksNeeded(slots: seq<Option<File>>): nat {
    if slots == [] then 0
    else
      var f := slots[|slots| - 1];
      BlocksNeeded(slots[..|slots| - 1]) + if f.Some? then BlocksFor(|f.value.bytes|) else 0
  }

  /** How far a file of `size` bytes can grow: to the end of its last block and by all blocks that no
      file needs. */
  function Growth(slots: seq<Option<File>>, size: nat): nat {
    (if size % BLOCK_SIZE == 0 then 0 else BLOCK_SIZE - size % BLOCK_SIZE)
    + BLOCK_SIZE * FsBook.Max(0, DATA_BLOCKS - BlocksNeeded(slots))
  }

  /** The calls the program serves as it should: no descriptor is used whose file has been deleted, no
      write crosses an end that is not the end of a block, no truncation drops a block or ends at the
      end of one. */
  predicate Permitted(a: Files, op: Op)
    requires FilesOk(a)
  {
    match op
    case Create(name) => |name| >= NAMELEN
    case Delete(name) => |name| >= NAMELEN
    case Open(name) => |name| >= NAMELEN
    case Close(fd) => fd < OPEN_FILES
    case Lseek(fd, _) => fd < OPEN_FILES && (a.descs[fd].file != -1 ==> OnFile(a, fd))
    case Read(fd, _) => fd < OPEN_FILES && (a.descs[fd].file != -1 ==> OnFile(a, fd))
    case Write(fd, data) =>
      && fd < OPEN_FILES && OnFile(a, fd) && a.descs[fd].cursor <= |BytesAt(a, fd)|
      && FsBook.Admissible(|BytesAt(a, fd)|, a.descs[fd].cursor, |data|)
    case Truncate(fd, length) =>
      && fd < OPEN_FILES
      && (a.descs[fd].file != -1 ==>
            && OnFile(a, fd)
            && (length <= |BytesAt(a, fd)| ==> Ragged(length) && BlocksFor(length) == BlocksFor(|BytesAt(a, fd)|)))
  }

  function Does(a: Files, op: Op): (r: Answer)
    requires FilesOk(a) && Permitted(a, op)
    ensures FilesOk(r.files)
  {
    match op
    case Create(name) => DoesCreate(a, name)
    case Delete(name) => DoesDelete(a)
    case Open(name) => DoesOpen(a, name)
    case Close(fd) =>
      if a.descs[fd].file == -1 then Answer(a, -1, [])
      else Answer(a.(descs := a.descs[fd := a.descs[fd].(file := -1)]), 0, [])
    case Lseek(fd, offset) =>
      if a.descs[fd].file == -1 || !(0 <= offset <= |BytesAt(a, fd)|) then Answer(a, -1, [])
      else Answer(Seeks(a, fd, offset), 0, [])
    case Read(fd, nbyte) => DoesRead(a, fd, nbyte)
    case Write(fd, data) => DoesWrite(a, fd, data)
    case Truncate(fd, length) =>
      if a.descs[fd].file == -1 || length > |BytesAt(a, fd)| then Answer(a, -1, [])
      else Answer(Holds(a, fd, BytesAt(a, fd)[..length]), 0, [])
  }

  function Seeks(a: Files, fd: nat, cursor: nat): Files
    requires FilesOk(a) && fd < OPEN_FILES
  {
    a.(descs := a.descs[fd := a.descs[fd].(cursor := cursor)])
  }

  function Holds(a: Files, fd: nat, bytes: seq<Byte>): Files
    requires FilesOk(a) && fd < OPEN_FILES && OnFile(a, fd)
  {
    var i := a.descs[fd].file;
    a.(slots := a.slots[i := Some(a.slots[i].value.(bytes := bytes))])
  }

  function DoesCreate(a: Files, name: seq<Byte>): Answer
    requires |name| >= NAMELEN
  {
    var i := First(a.slots, (f: Option<File>) => f.None?);
    if i == |a.slots| then Answer(a, -1, [])
    else Answer(a.(slots := a.slots[i := Some(File(name[..NAMELEN], []))]), 0, [])
  }

  function DoesDelete(a: Files): Answer {
    var i := First(a.slots, (f: Option<File>) => f.Some?);
    if i == |a.slots| then Answer(a, -1, []) else Answer(a.(slots := a.slots[i := None]), 0, [])
  }

  function DoesOpen(a: Files, name: seq<Byte>): Answer {
    var i := First(a.slots, (f: Option<File>) => Named(f, name));
    var fd := First(a.descs, (d: Descriptor) => d.file == -1);
    if i == |a.slots| || fd == |a.descs| then Answer(a, -1, [])
    else Answer(a.(descs := a.descs[fd := Descriptor(i, 0)]), fd, [])
  }

  function DoesRead(a: Files, fd: nat, nbyte: nat): Answer
    requires FilesOk(a) && fd < OPEN_FILES && (a.descs[fd].file != -1 ==> OnFile(a, fd))
  {
    if a.descs[fd].file == -1 then Answer(a, 0, [])
    else
      var s, c := BytesAt(a, fd), a.descs[fd].cursor;
      var n := FsBook.Min(nbyte, FsBook.Max(0, |s| - c));
      Answer(Seeks(a, fd, c + n), n, Stretch(s, c, n))
  }

  function DoesWrite(a: Files, fd: nat, data: seq<Byte>): Answer
    requires FilesOk(a) && fd < OPEN_FILES && OnFile(a, fd) && a.descs[fd].cursor <= |BytesAt(a, fd)|
  {
    var s, c := BytesAt(a, fd), a.descs[fd].cursor;
    var n := FsBook.Min(|data|, |s| - c + Growth(a.slots, |s|));
    Answer(Seeks(Holds(a, fd, Spliced(s, c, data[..n])), fd, c + n), n, [])
  }

  // ---- what the program's state stands for --------------------------------------------------------

  ghost function SlotOf(disk: Disk, m: Meta): Option<File>
    requires DiskOk(disk) && ListOk(m) && Fits(m)
  {
    if m.Live() then Some(File(m.name, Content(disk, m))) else None
  }

  ghost function SlotsOf(disk: Disk, metas: seq<Meta>): (r: seq<Option<File>>)
    requires DiskOk(disk) && TableOk(metas)
    ensures |r| == NUM_FILES
  {
    seq(NUM_FILES, i requires 0 <= i < NUM_FILES => SlotOf(disk, metas[i]))
  }

  ghost function View(fs: FileSystem): (a: Files)
    requires fs.Mounted()
    reads fs, fs.disk, fs.metas, fs.descs
    ensures FilesOk(a)
  {
    Files(SlotsOf(fs.disk[..], fs.metas[..]), fs.descs[..])
  }

  lemma SlotsKept(s: Tables, t: Tables, i: nat)
    requires DiskOk(s.disk) && TableOk(s.metas) && DiskOk(t.disk) && TableOk(t.metas) && i < NUM_FILES
    requires forall j :: 0 <= j < NUM_FILES && j != i ==> SameSlot(s, t, j)
    ensures SlotsOf(t.disk, t.metas) == SlotsOf(s.disk, s.metas)[i := SlotOf(t.disk, t.metas[i])]
  {
    forall j | 0 <= j < NUM_FILES && j != i ensures SlotOf(t.disk, t.metas[j]) == SlotOf(s.disk, s.metas[j]) {
      assert SameSlot(s, t, j);
    }
  }

  /** The usage map has as many free blocks as the files leave. */
  lemma FreeIs(s: Tables, owner: Owner)
    requires StateOk(s, owner)
    ensures CountFree(s.usage) == DATA_BLOCKS - BlocksNeeded(SlotsOf(s.disk, s.metas))
  {
    BlocksConserved(s, owner);
    var slots := SlotsOf(s.disk, s.metas);
    forall i | 0 <= i < NUM_FILES
      ensures if s.metas[i].Live() then slots[i].Some? && BlocksFor(|slots[i].value.bytes|) == s.metas[i].numBlocks
              else slots[i].None?
    {
    }
    NeededListed(s.metas, slots);
  }

  lemma {:induction false} NeededListed(metas: seq<Meta>, slots: seq<Option<File>>)
    requires |metas| == |slots|
    requires forall i :: 0 <= i < |metas| ==>
               if metas[i].Live() then slots[i].Some? && BlocksFor(|slots[i].value.bytes|) == metas[i].numBlocks
               else slots[i].None?
    ensures BlocksNeeded(slots) == BlocksListed(metas)
  {
    if metas != [] { NeededListed(metas[..|metas| - 1], slots[..|slots| - 1]); }
  }

  // ---- each call ----------------------------------------------------------------------------------

  /** One call: the program is left in a state that stands for what the call does to the files, and
      returns what it should; block 0 of the disk is as before. */
  method Perform(fs: FileSystem, op: Op) returns (r: int, data: seq<Byte>)
    requires fs.signed && fs.Valid() && fs.active && Permitted(View(fs), op)
    modifies fs.disk, fs.usage, fs.metas, fs.descs, fs`owner
    ensures fs.Valid() && fs.disk[0] == old(fs.disk[0])
    ensures Answer(View(fs), r, data) == Does(old(View(fs)), op)
  {
    data := [];
    match op
    case Create(name) => r := PerformCreate(fs, name);
    case Delete(name) => r := PerformDelete(fs, name);
    case Open(name) => r := PerformOpen(fs, name);
    case Close(fd) => r := fs.Close(fd);
    case Lseek(fd, offset) => r := fs.Lseek(fd, offset);
    case Read(fd, nbyte) => r, data := PerformRead(fs, fd, nbyte);
    case Write(fd, bytes) => r := PerformWrite(fs, fd, bytes);
    case Truncate(fd, length) => r := PerformTruncate(fs, fd, length);
  }

  method PerformCreate(fs: FileSystem, name: seq<Byte>) returns (r: int)
    requires fs.Valid() && fs.active && |name| >= NAMELEN
    modifies fs.disk, fs.metas
    ensures fs.Valid() && fs.disk[0] == old(fs.disk[0])
    ensures Answer(View(fs), r, []) == DoesCreate(old(View(fs)), name)
  {
    hide Content, MetaOnDisk, Owned, Saved, SizesOk;
    ghost var s := fs.Now();
    r := fs.Create(name);
    ghost var slots := SlotsOf(s.disk, s.metas);
    if r == 0 {
      ghost var i :| Created(s, fs.Now(), i, name);
      SlotsKept(s, fs.Now(), i);
      FirstIs(slots, (f: Option<File>) => f.None?, i);
    } else {
      FirstIs(slots, (f: Option<File>) => f.None?, |slots|);
    }
  }

  method PerformDelete(fs: FileSystem, name: seq<Byte>) returns (r: int)
    requires fs.Valid() && fs.active
    modifies fs.disk, fs.usage, fs.metas, fs`owner
    ensures fs.Valid() && fs.disk[0] == old(fs.disk[0])
    ensures Answer(View(fs), r, []) == DoesDelete(old(View(fs)))
  {
    hide Content, MetaOnDisk, Owned, Saved, SizesOk, ListsBlock;
    ghost var s := fs.Now();
    r := fs.Delete(name);
    ghost var slots := SlotsOf(s.disk, s.metas);
    if r == 0 {
      ghost var i :| Deleted(s, fs.Now(), i);
      SlotsKept(s, fs.Now(), i);
      FirstIs(slots, (f: Option<File>) => f.Some?, i);
    } else {
      FirstIs(slots, (f: Option<File>) => f.Some?, |slots|);
    }
  }

  method PerformOpen(fs: FileSystem, name: seq<Byte>) returns (r: int)
    requires fs.Valid() && fs.active && |name| >= NAMELEN
    modifies fs.descs
    ensures fs.Valid()
    ensures Answer(View(fs), r, []) == DoesOpen(old(View(fs)), name)
  {
    ghost var slots, ds := SlotsOf(fs.disk[..], fs.metas[..]), fs.descs[..];
    r := fs.Open(name);
    ghost var named, closed := (f: Option<File>) => Named(f, name), (d: Descriptor) => d.file == -1;
    assert forall i :: 0 <= i < NUM_FILES ==> (named(slots[i]) <==> Matches(fs.metas[i], name));
    if r >= 0 {
      FirstIs(slots, named, fs.descs[r].file);
      FirstIs(ds, closed, r);
    }
  }

  method PerformRead(fs: FileSystem, fd: nat, nbyte: nat) returns (r: int, data: seq<Byte>)
    requires fs.Valid() && fs.active && fd < OPEN_FILES && (fs.descs[fd].file != -1 ==> OnFile(View(fs), fd))
    modifies fs.descs
    ensures fs.Valid()
    ensures Answer(View(fs), r, data) == DoesRead(old(View(fs)), fd, nbyte)
  {
    hide Content, Owned, Saved;
    var buf := new Byte[nbyte];
    fs.MountedReadable(fd);
    r := fs.Read(fd, buf, nbyte);
    data := buf[..r];
  }

  method PerformWrite(fs: FileSystem, fd: nat, data: seq<Byte>) returns (r: int)
    requires fs.Valid() && fs.active && fd < OPEN_FILES && OnFile(View(fs), fd)
    requires fs.descs[fd].cursor <= |BytesAt(View(fs), fd)|
    requires FsBook.Admissible(|BytesAt(View(fs), fd)|, fs.descs[fd].cursor, |data|)
    modifies fs.disk, fs.usage, fs.metas, fs.descs, fs`owner
    ensures fs.Valid() && fs.disk[0] == old(fs.disk[0])
    ensures Answer(View(fs), r, []) == DoesWrite(old(View(fs)), fd, data)
  {
    hide WriteResult, Booked, FsBook.Write, SlotsOf, DoesWrite, Moved, Owned, Saved;
    ghost var s, ow, ds, e := fs.Now(), fs.owner, fs.descs[..], FsBook.Write(fs.BookOf(fd, |data|));
    WriteStarts(s, ow, ds, fd);
    r := fs.Write(fd, data);
    WriteView(s, fs.Now(), ow, fs.owner, ds, fs.descs[..], fd, data, e);
  }

  lemma WriteStarts(s: Tables, owner: Owner, ds: seq<Descriptor>, fd: nat)
    requires StateOk(s, owner)
    requires var a := Files(SlotsOf(s.disk, s.metas), ds); FilesOk(a) && fd < OPEN_FILES && OnFile(a, fd)
    ensures var a := Files(SlotsOf(s.disk, s.metas), ds); var m := s.metas[ds[fd].file];
      m.Live() && SizeOk(m) && |BytesAt(a, fd)| == FileSize(m.numBlocks, m.sizeLast)
  {
  }

  /** An admissible write does to the files what it should. */
  lemma WriteView(s: Tables, t: Tables, owner: Owner, owner': Owner, ds: seq<Descriptor>, ds': seq<Descriptor>,
                  fd: nat, data: seq<Byte>, e: FsBook.Book)
    requires StateOk(s, owner) && StateOk(t, owner')
    requires var a := Files(SlotsOf(s.disk, s.metas), ds); FilesOk(a) && fd < OPEN_FILES && OnFile(a, fd)
    requires var m, c := s.metas[ds[fd].file], ds[fd].cursor;
      && e == FsBook.Write(FsBook.Book(m.numBlocks, m.sizeLast, c, |data|, CountFree(s.usage)))
      && c <= FileSize(m.numBlocks, m.sizeLast) && FsBook.Admissible(FileSize(m.numBlocks, m.sizeLast), c, |data|)
      && Booked(s, t, owner', ds[fd].file, e) && WriteResult(s, t, ds[fd].file, c, data, e)
      && Moved(ds, ds', fd, c + |data| - e.left)
    ensures t.disk[0] == s.disk[0]
    ensures var a := Files(SlotsOf(s.disk, s.metas), ds);
      && |BytesAt(a, fd)| >= ds[fd].cursor
      && Answer(Files(SlotsOf(t.disk, t.metas), ds'), |data| - e.left, []) == DoesWrite(a, fd, data)
  {
    hide Content, Owned, Saved, FsBook.Write, BlocksNeeded, CountFree, SameSlot, Spliced, Landed, Grabbed, Lists, Growth;
    var i := ds[fd].file;
    WriteTakes(s, owner, i, ds[fd].cursor, data);
    SlotsKept(s, t, i);
  }

  /** As much as the file can grow, as seen from outside. */
  lemma WriteTakes(s: Tables, owner: Owner, i: nat, c: nat, data: seq<Byte>)
    requires StateOk(s, owner) && i < NUM_FILES && s.metas[i].Live()
    requires var size := FileSize(s.metas[i].numBlocks, s.metas[i].sizeLast);
      c <= size && FsBook.Admissible(size, c, |data|)
    ensures var m := s.metas[i]; var size := FileSize(m.numBlocks, m.sizeLast);
      |data| - FsBook.Write(FsBook.Book(m.numBlocks, m.sizeLast, c, |data|, CountFree(s.usage))).left ==
        FsBook.Min(|data|, size - c + Growth(SlotsOf(s.disk, s.metas), size))
  {
    hide Content, Owned, Saved, FsBook.Write, BlocksNeeded, CountFree, SlotsOf;
    FreeIs(s, owner);
    FsBook.WriteAdmissible(FsBook.Book(s.metas[i].numBlocks, s.metas[i].sizeLast, c, |data|, CountFree(s.usage)));
  }

  method PerformTruncate(fs: FileSystem, fd: nat, length: nat) returns (r: int)
    requires fs.Valid() && fs.active && fd < OPEN_FILES && Permitted(View(fs), Truncate(fd, length))
    modifies fs.disk, fs.usage, fs.metas, fs`owner
    ensures fs.Valid() && fs.disk[0] == old(fs.disk[0])
    ensures Answer(View(fs), r, []) == Does(old(View(fs)), Truncate(fd, length))
  {
    hide Content, Owned, Saved, SameSlot, MetaOnDisk, SlotsOf, Unmarks;
    ghost var s, i, ds := fs.Now(), fs.descs[fd].file, fs.descs[..];
    if i != -1 { TruncateStarts(s, fs.owner, ds, fd); }
    r := fs.Truncate(fd, length);
    if r == 0 { TruncateView(s, fs.Now(), ds, fd, length); }
  }

  lemma TruncateStarts(s: Tables, owner: Owner, ds: seq<Descriptor>, fd: nat)
    requires StateOk(s, owner)
    requires var a := Files(SlotsOf(s.disk, s.metas), ds); FilesOk(a) && fd < OPEN_FILES && OnFile(a, fd)
    ensures var a := Files(SlotsOf(s.disk, s.metas), ds); var m := s.metas[ds[fd].file];
      && m.Live() && |BytesAt(a, fd)| == FileSize(m.numBlocks, m.sizeLast)
      && BlocksFor(|BytesAt(a, fd)|) == m.numBlocks
  {
  }

  lemma TruncateView(s: Tables, t: Tables, ds: seq<Descriptor>, fd: nat, length: nat)
    requires DiskOk(s.disk) && TableOk(s.metas) && DiskOk(t.disk) && TableOk(t.metas)
    requires var a := Files(SlotsOf(s.disk, s.metas), ds); FilesOk(a) && fd < OPEN_FILES && OnFile(a, fd)
    requires var i := ds[fd].file; var m := s.metas[i];
      && t.metas == s.metas[i := Truncated(m, length)] && OnlySlotSaved(s.disk, t.disk, i)
      && Content(t.disk, t.metas[i]) <= Content(s.disk, m) && |Content(t.disk, t.metas[i])| == length
    ensures var a := Files(SlotsOf(s.disk, s.metas), ds);
      length <= |BytesAt(a, fd)| && Files(SlotsOf(t.disk, t.metas), ds) == Holds(a, fd, BytesAt(a, fd)[..length])
  {
    hide Content, SameSlot;
    var i := ds[fd].file;
    assert Content(t.disk, t.metas[i]) == Content(s.disk, s.metas[i])[..length];
    OthersSame(s, t, i);
    SlotsKept(s, t, i);
  }

  lemma OthersSame(s: Tables, t: Tables, i: nat)
    requires DiskOk(s.disk) && TableOk(s.metas) && i < NUM_FILES == |t.metas| && OnlySlotSaved(s.disk, t.disk, i)
    requires forall j :: 0 <= j < NUM_FILES && j != i ==> t.metas[j] == s.metas[j]
    ensures forall j :: 0 <= j < NUM_FILES && j != i ==> SameSlot(s, t, j)
  {
    forall j | 0 <= j < NUM_FILES && j != i ensures SameSlot(s, t, j) {
      if s.metas[j].Live() { DataKept(s.disk, t.disk, s.metas[j]); }
    }
  }

  // ---- whole runs -----------------------------------------------------------------------------------

  predicate Runs(a: Files, ops: seq<Op>)
    requires FilesOk(a)
    decreases |ops|
  {
    ops != [] ==> Permitted(a, ops[0]) && Runs(Does(a, ops[0]).files, ops[1..])
  }

  function After(a: Files, ops: seq<Op>): (b: Files)
    requires FilesOk(a) && Runs(a, ops)
    ensures FilesOk(b)
    decreases |ops|
  {
    if ops == [] then a else After(Does(a, ops[0]).files, ops[1..])
  }

  /** Any run of permitted calls keeps the program's tables and disk in order, leaves block 0 of the disk
      alone, and ends in a state that stands for what the calls do to the files. */
  method Run(fs: FileSystem, ops: seq<Op>)
    requires fs.signed && fs.Valid() && fs.active && Runs(View(fs), ops)
    modifies fs.disk, fs.usage, fs.metas, fs.descs, fs`owner
    ensures fs.Valid() && fs.disk[0] == old(fs.disk[0])
    ensures View(fs) == After(old(View(fs)), ops)
  {
    hide Does, Permitted, FilesOk;
    var k := 0;
    while k < |ops|
      invariant 0 <= k <= |ops| && fs.Valid() && fs.disk[0] == old(fs.disk[0])
      invariant FilesOk(View(fs)) && Runs(View(fs), ops[k..])
      invariant After(View(fs), ops[k..]) == After(old(View(fs)), ops)
    {
      assert ops[k..][0] == ops[k] && ops[k..][1..] == ops[k + 1..];
      var r, data := Perform(fs, ops[k]);
      k := k + 1;
    }
  }

  /** No file, no open descriptor. */
  function Empty(): (a: Files)
    ensures FilesOk(a)
  {
    Files(seq(NUM_FILES, _ => None), seq(OPEN_FILES, _ => Descriptor(-1, 0)))
  }

  /** So does any run on a fresh disk; block 0 stays blank. */
  method FreshRun(stale: seq<Meta>, ops: seq<Op>) returns (fs: FileSystem)
    requires |stale| == NUM_FILES && forall i :: 0 <= i < NUM_FILES ==> |stale[i].blocks| == DATA_BLOCKS
    requires Runs(Empty(), ops)
    ensures fresh(fs) && fresh(fs.disk) && fresh(fs.usage) && fresh(fs.metas) && fresh(fs.descs)
    ensures fs.signed && fs.active && fs.Valid() && fs.disk[0] == Blank() && View(fs) == After(Empty(), ops)
  {
    fs := MakeAndMount(true, stale);
    assert View(fs) == Empty();
    Run(fs, ops);
  }

  /** After any run on a fresh disk that leaves all descriptors closed, mounting again finds the same
      names. Each file comes back if and only if none of its numbers (`was` are the slots at the end of the
      run) has a low byte of 128 or more. If all of them do, the files are the same as before, and the
      accounting of blocks is right if and only if all of them are empty. */
  method RunAndRemount(stale: seq<Meta>, ops: seq<Op>, stale': seq<Meta>) returns (fs: FileSystem, was: seq<Meta>)
    requires |stale| == NUM_FILES && forall i :: 0 <= i < NUM_FILES ==> |stale[i].blocks| == DATA_BLOCKS
    requires |stale'| == NUM_FILES && forall i :: 0 <= i < NUM_FILES ==> |stale'[i].blocks| == DATA_BLOCKS
    requires Runs(Empty(), ops) && AllClosed(After(Empty(), ops).descs)
    ensures fs.active && fs.Allocated() && DiskOk(fs.disk[..]) && TableOk(was)
    ensures SlotsOf(fs.disk[..], was) == After(Empty(), ops).slots
    ensures forall i :: 0 <= i < NUM_FILES ==>
              (SameFileAt(fs.disk[..], was, fs.metas[..], i) <==> (was[i].Live() ==> Survives(was[i])))
    ensures AllSurvive(true, was) ==>
              && fs.Mounted() && View(fs).slots == After(Empty(), ops).slots
              && (CanOwn(fs.metas[..], fs.usage[..]) <==> AllEmpty(After(Empty(), ops).slots))
  {
    fs := FreshRun(stale, ops);
    ghost var s, ow := fs.Now(), fs.owner;
    was := fs.metas[..];
    Remount(fs, stale');
    BlankMarks(s.metas);
    EmptyIff(s, ow);
    if AllSurvive(true, was) { SameSlots(s.disk, s.metas, fs.metas[..]); }
  }

  predicate AllEmpty(slots: seq<Option<File>>) {
    forall i :: 0 <= i < |slots| && slots[i].Some? ==> slots[i].value.bytes == []
  }

  lemma SameSlots(disk: Disk, was: seq<Meta>, now: seq<Meta>)
    requires DiskOk(disk) && TableOk(was) && TableOk(now)
    requires forall i :: 0 <= i < NUM_FILES ==> SameFileAt(disk, was, now, i)
    ensures SlotsOf(disk, now) == SlotsOf(disk, was)
  {
    hide Content;
    forall i | 0 <= i < NUM_FILES ensures SlotOf(disk, now[i]) == SlotOf(disk, was[i]) {
      assert SameFileAt(disk, was, now, i);
    }
  }

  lemma EmptyIff(s: Tables, owner: Owner)
    requires StateOk(s, owner)
    ensures AllEmpty(SlotsOf(s.disk, s.metas)) <==>
              forall i :: 0 <= i < NUM_FILES && s.metas[i].Live() ==> s.metas[i].numBlocks == 0
  {
    var slots := SlotsOf(s.disk, s.metas);
    forall i | 0 <= i < NUM_FILES && s.metas[i].Live()
      ensures slots[i].Some? && (slots[i].value.bytes == [] <==> s.metas[i].numBlocks == 0)
    {
      var m := s.metas[i];
      assert slots[i].value.bytes == Content(s.disk, m);
      assert |Content(s.disk, m)| == FileSize(m.numBlocks, m.sizeLast);
    }
  }

  // ---- what the files show ----------------------------------------------------------------------------

  lemma RunsOne(a: Files, op: Op, ops: seq<Op>)
    requires FilesOk(a) && Permitted(a, op) && Runs(Does(a, op).files, ops)
    ensures Runs(a, [op] + ops) && After(a, [op] + ops) == After(Does(a, op).files, ops)
  {
    assert ([op] + ops)[1..] == ops;
  }

  lemma AfterWrite(a: Files, fd: nat, data: seq<Byte>)
    requires FilesOk(a) && Permitted(a, Write(fd, data)) && Does(a, Write(fd, data)).r == |data|
    ensures var b := Does(a, Write(fd, data)).files; var c := a.descs[fd].cursor;
      OnFile(b, fd) && c <= |BytesAt(a, fd)| && BytesAt(b, fd) == Spliced(BytesAt(a, fd), c, data)
  {
    assert data[..|data|] == data;
  }

  lemma AfterSeek(b: Files, fd: nat, c: nat)
    requires FilesOk(b) && fd < OPEN_FILES && OnFile(b, fd) && c <= |BytesAt(b, fd)|
    ensures var d := Does(b, Lseek(fd, c)).files;
      OnFile(d, fd) && BytesAt(d, fd) == BytesAt(b, fd) && d.descs[fd].cursor == c
  {
  }

  lemma ReadsAt(d: Files, fd: nat, n: nat)
    requires FilesOk(d) && fd < OPEN_FILES && OnFile(d, fd) && d.descs[fd].cursor + n <= |BytesAt(d, fd)|
    ensures Does(d, Read(fd, n)).data == Stretch(BytesAt(d, fd), d.descs[fd].cursor, n)
  {
  }

  lemma StretchSpliced(s: seq<Byte>, c: nat, data: seq<Byte>)
    requires c <= |s|
    ensures c + |data| <= |Spliced(s, c, data)| && Stretch(Spliced(s, c, data), c, |data|) == data
  {
  }

  /** What was written is read back: after a write that took all its bytes, seeking to where it began and
      reading as many bytes returns them. */
  lemma ReadBack(a: Files, fd: nat, data: seq<Byte>)
    requires FilesOk(a) && Permitted(a, Write(fd, data)) && Does(a, Write(fd, data)).r == |data|
    ensures var ops := [Write(fd, data)] + ([Lseek(fd, a.descs[fd].cursor)] + []);
      && Runs(a, ops) && Permitted(After(a, ops), Read(fd, |data|))
      && Does(After(a, ops), Read(fd, |data|)).data == data
  {
    hide Does, Spliced, Stretch, Runs;
    var c := a.descs[fd].cursor;
    var b := Does(a, Write(fd, data)).files;
    AfterWrite(a, fd, data);
    StretchSpliced(BytesAt(a, fd), c, data);
    AfterSeek(b, fd, c);
    var d := Does(b, Lseek(fd, c)).files;
    ReadsAt(d, fd, |data|);
    RunsNone(d);
    RunsOne(b, Lseek(fd, c), []);
    RunsOne(a, Write(fd, data), [Lseek(fd, c)] + []);
  }

  lemma RunsNone(a: Files)
    requires FilesOk(a)
    ensures Runs(a, []) && After(a, []) == a
  {
  }

  lemma CreatesAt(a: Files, name: seq<Byte>, i: nat)
    requires FilesOk(a) && |name| >= NAMELEN && i < NUM_FILES && a.slots[i].None?
    requires forall j :: 0 <= j < i ==> a.slots[j].Some?
    ensures Does(a, Create(name)).files == a.(slots := a.slots[i := Some(File(name[..NAMELEN], []))])
  {
    FirstIs(a.slots, (f: Option<File>) => f.None?, i);
  }

  lemma DeletesAt(a: Files, name: seq<Byte>, i: nat)
    requires FilesOk(a) && |name| >= NAMELEN && i < NUM_FILES && a.slots[i].Some?
    requires forall j :: 0 <= j < i ==> a.slots[j].None?
    ensures Does(a, Delete(name)).files == a.(slots := a.slots[i := None])
  {
    FirstIs(a.slots, (f: Option<File>) => f.Some?, i);
  }

  lemma OpensNothing(a: Files, name: seq<Byte>)
    requires FilesOk(a) && |name| >= NAMELEN && forall i :: 0 <= i < NUM_FILES ==> !Named(a.slots[i], name)
    ensures Does(a, Open(name)).r == -1
  {
    FirstIs(a.slots, (f: Option<File>) => Named(f, name), NUM_FILES);
  }

  /** Two files on a fresh disk; deleting the second by its name removes the first. */
  lemma DeleteTakesOther(a: seq<Byte>, b: seq<Byte>)
    requires |a| >= NAMELEN && |b| >= NAMELEN && !SameName(b[..NAMELEN], a)
    ensures var ops := [Create(a)] + ([Create(b)] + ([Delete(b)] + []));
      && Runs(Empty(), ops)
      && After(Empty(), ops).slots[0] == None && After(Empty(), ops).slots[1] == Some(File(b[..NAMELEN], []))
      && Does(After(Empty(), ops), Open(a)).r == -1
  {
    hide Does, First, SameName, Runs;
    var e := Empty();
    CreatesAt(e, a, 0);
    var f1 := Does(e, Create(a)).files;
    CreatesAt(f1, b, 1);
    var f2 := Does(f1, Create(b)).files;
    DeletesAt(f2, b, 0);
    var f3 := Does(f2, Delete(b)).files;
    OpensNothing(f3, a);
    RunsNone(f3);
    RunsOne(f2, Delete(b), []);
    RunsOne(f1, Create(b), [Delete(b)] + []);
    RunsOne(e, Create(a), [Create(b)] + ([Delete(b)] + []));
  }
}
