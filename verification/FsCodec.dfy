/**
 How file metadata is laid out on the disk: an information block and two list blocks per slot,
 every number in two bytes.
 */
module FsCodec {
  import opened Sequences
  import opened FsModel

  // ---- two-byte numbers -------------------------------------------------------------------------

  /** Division and remainder that truncate towards zero. */
  function TruncDiv(v: int): int { if v >= 0 then v / 256 else -((-v) / 256) }

  function TruncMod(v: int): int { v - 256 * TruncDiv(v) }

  /** The two bytes a number is stored in. */
  function Hi(v: int): Byte { TruncDiv(v) % 256 }

  function Lo(v: int): Byte { TruncMod(v) % 256 }

  /** The value of a `char` that holds the byte `b`. Whether `char` is signed is the implementation's
      choice. */
  function Char(signed: bool, b: Byte): int { if signed && b >= 128 then b - 256 else b }

  /** The value of a `char` after `v` has been stored in it. */
  function Stored(signed: bool, v: int): int { Char(signed, v % 256) }

  /** The value of a `short` after `v` has been stored in it. */
  function Short(v: int): int { (v + 0x8000) % 0x10000 - 0x8000 }

  /** Reading a number back. */
  function Word(signed: bool, hi: Byte, lo: Byte): int { Short(256 * Char(signed, hi) + Char(signed, lo)) }

  predicate LowByteSmall(v: int) { v % 256 < 128 }

  lemma WordRoundTrip(signed: bool, v: int)
    requires 0 <= v <= 0x7FFF
    ensures Word(signed, Hi(v), Lo(v)) == if signed && !LowByteSmall(v) then v - 256 else v
  {
  }

  // ---- the three blocks of a slot -------------------------------------------------------------------

  /** Where the parts of the information block are; byte `NAMELEN + 1` is never written. */
  ghost predicate EncodesInfo(b: seq<Byte>, m: Meta)
    requires |b| == BLOCK_SIZE && MetaSized(m)
  {
    && b[0] == m.inUse
    && b[1..NAMELEN + 1] == m.name
    && b[NAMELEN + 2] == Hi(m.numBlocks) && b[NAMELEN + 3] == Lo(m.numBlocks)
    && b[NAMELEN + 4] == Hi(m.sizeLast) && b[NAMELEN + 5] == Lo(m.sizeLast)
  }

  /** Half of the block list, from entry `first` on. */
  ghost predicate EncodesList(b: seq<Byte>, m: Meta, first: nat)
    requires |b| == BLOCK_SIZE && MetaSized(m) && first + DISK_BLOCKS / 4 <= DATA_BLOCKS
  {
    forall k :: 0 <= k < DISK_BLOCKS / 4 ==>
      b[2 * k] == Hi(m.blocks[first + k]) && b[2 * k + 1] == Lo(m.blocks[first + k])
  }

  ghost predicate MetaOnDisk(disk: Disk, i: nat, m: Meta)
    requires DiskOk(disk) && i < NUM_FILES && MetaSized(m)
  {
    && EncodesInfo(disk[3 * i + 1], m)
    && EncodesList(disk[3 * i + 2], m, 0)
    && EncodesList(disk[3 * i + 3], m, DISK_BLOCKS / 4)
  }

  /** A number of at most 32767, the high byte first. */
  lemma WordBytes(v: int)
    requires 0 <= v <= 0x7FFF
    ensures 256 * Hi(v) + Lo(v) == v
  {
  }

  /** Where the parts of slot `i` are on the disk: byte 0 of its first block tells whether it is in use, the
      name is in bytes 1 to 15, the number of blocks in 17 and 18, the size of the last block in 19 and 20;
      its other blocks hold 2048 list entries each. */
  lemma MetaBytes(disk: Disk, i: nat, m: Meta)
    requires DiskOk(disk) && i < NUM_FILES && MetaSized(m) && MetaOnDisk(disk, i, m)
    ensures var b := disk[3 * i + 1];
      && b[0] == m.inUse && b[1..16] == m.name
      && (0 <= m.numBlocks <= 32767 ==> 256 * b[17] as int + b[18] as int == m.numBlocks)
      && (0 <= m.sizeLast <= 32767 ==> 256 * b[19] as int + b[20] as int == m.sizeLast)
    ensures forall k :: 0 <= k < 2048 && 0 <= m.blocks[k] <= 32767 ==>
              256 * disk[3 * i + 2][2 * k] as int + disk[3 * i + 2][2 * k + 1] as int == m.blocks[k]
    ensures forall k :: 0 <= k < 2048 && 0 <= m.blocks[2048 + k] <= 32767 ==>
              256 * disk[3 * i + 3][2 * k] as int + disk[3 * i + 3][2 * k + 1] as int == m.blocks[2048 + k]
  {
    hide Hi, Lo;
    if 0 <= m.numBlocks <= 32767 { WordBytes(m.numBlocks); }
    if 0 <= m.sizeLast <= 32767 { WordBytes(m.sizeLast); }
    forall k | 0 <= k < 2048 && 0 <= m.blocks[k] <= 32767
      ensures 256 * disk[3 * i + 2][2 * k] as int + disk[3 * i + 2][2 * k + 1] as int == m.blocks[k]
    {
      WordBytes(m.blocks[k]);
      assert disk[3 * i + 2][2 * k] == Hi(m.blocks[0 + k]);
    }
    forall k | 0 <= k < 2048 && 0 <= m.blocks[2048 + k] <= 32767
      ensures 256 * disk[3 * i + 3][2 * k] as int + disk[3 * i + 3][2 * k + 1] as int == m.blocks[2048 + k]
    {
      WordBytes(m.blocks[2048 + k]);
    }
  }

  /** Every live slot is on the disk, and every other slot is marked unused there. */
  ghost predicate Saved(disk: Disk, metas: seq<Meta>)
    requires DiskOk(disk) && TableOk(metas)
  {
    forall i :: 0 <= i < NUM_FILES ==>
      if metas[i].Live() then MetaOnDisk(disk, i, metas[i]) else disk[3 * i + 1][0] == 0
  }

  // ---- loading ------------------------------------------------------------------------------------------

  /** Entry `k` of the block list of slot `i`. */
  function ListWord(signed: bool, disk: Disk, i: nat, k: nat): int
    requires DiskOk(disk) && i < NUM_FILES && k < DATA_BLOCKS
  {
    if k < DISK_BLOCKS / 4 then Word(signed, disk[3 * i + 2][2 * k], disk[3 * i + 2][2 * k + 1])
    else
      var j := k - DISK_BLOCKS / 4;
      Word(signed, disk[3 * i + 3][2 * j], disk[3 * i + 3][2 * j + 1])
  }

  /** What mounting makes of slot `i`. An unused slot is zeroed, but only the first half of its block
      list; the rest is whatever the memory held. */
  ghost predicate Loads(signed: bool, disk: Disk, i: nat, stale: Meta, m: Meta)
    requires DiskOk(disk) && i < NUM_FILES
  {
    var info := disk[3 * i + 1];
    && MetaSized(m) && |stale.blocks| == DATA_BLOCKS
    && m.inUse == info[0]
    && if m.Live() then
         && m.name == info[1..NAMELEN + 1]
         && m.numBlocks == Word(signed, info[NAMELEN + 2], info[NAMELEN + 3])
         && m.sizeLast == Word(signed, info[NAMELEN + 4], info[NAMELEN + 5])
         && (forall k :: 0 <= k < DATA_BLOCKS ==> m.blocks[k] == ListWord(signed, disk, i, k))
       else
         && m.name == seq(NAMELEN, _ => 0) && m.numBlocks == 0 && m.sizeLast == 0
         && m.blocks == seq(DISK_BLOCKS / 4, _ => 0) + stale.blocks[DISK_BLOCKS / 4..]
  }

  /** Of an unused slot mounting zeroes everything but the second half of the block list. */
  lemma UnusedSlot(signed: bool, disk: Disk, i: nat, stale: Meta, m: Meta, k: nat)
    requires DiskOk(disk) && i < NUM_FILES && Loads(signed, disk, i, stale, m) && disk[3 * i + 1][0] == 0
    requires k < DATA_BLOCKS
    ensures !m.Live() && m.numBlocks == 0 && m.sizeLast == 0 && (forall j :: 0 <= j < NAMELEN ==> m.name[j] == 0)
    ensures m.blocks[k] == if k < 2048 then 0 else stale.blocks[k]
  {
  }

  /** Two slots that stand for the same file: entries past the last block do not matter. */
  ghost predicate SameFile(m: Meta, n: Meta) {
    && m.inUse == n.inUse && m.name == n.name
    && m.numBlocks == n.numBlocks && m.sizeLast == n.sizeLast
    && m.numBlocks <= |m.blocks| && n.numBlocks <= |n.blocks|
    && (forall k :: 0 <= k < m.numBlocks ==> m.blocks[k] == n.blocks[k])
  }

  /** An entry of a saved block list, read back. */
  lemma EntryRoundTrip(signed: bool, disk: Disk, i: nat, m: Meta, k: nat)
    requires DiskOk(disk) && i < NUM_FILES && MetaSized(m) && MetaOnDisk(disk, i, m)
    requires k < DATA_BLOCKS && 0 <= m.blocks[k] <= 0x7FFF
    ensures ListWord(signed, disk, i, k) == if signed && !LowByteSmall(m.blocks[k]) then m.blocks[k] - 256 else m.blocks[k]
  {
    hide Hi, Lo, Word;
    WordRoundTrip(signed, m.blocks[k]);
    if k < DISK_BLOCKS / 4 {
      assert disk[3 * i + 2][2 * k] == Hi(m.blocks[0 + k]);
    } else {
      var j := k - DISK_BLOCKS / 4;
      assert disk[3 * i + 3][2 * j] == Hi(m.blocks[DISK_BLOCKS / 4 + j]);
    }
  }

  /** None of the file's numbers has a low byte of 128 or more. */
  predicate Survives(m: Meta)
    requires ListOk(m)
  {
    && LowByteSmall(m.numBlocks) && LowByteSmall(m.sizeLast)
    && forall k :: 0 <= k < m.numBlocks ==> LowByteSmall(m.blocks[k])
  }

  /** The exact condition. Mounting finds every saved file, and none else, under its name; it brings back
      the file's size and blocks if and only if `char` is unsigned or none of these numbers has a low byte
      of 128 or more. */
  lemma LoadSaved(signed: bool, disk: Disk, metas: seq<Meta>, i: nat, stale: Meta, m: Meta)
    requires DiskOk(disk) && TableOk(metas) && SizesOk(metas) && Saved(disk, metas)
    requires i < NUM_FILES && Loads(signed, disk, i, stale, m)
    ensures m.Live() <==> metas[i].Live()
    ensures metas[i].Live() ==> m.name == metas[i].name
    ensures metas[i].Live() ==> (SameFile(metas[i], m) <==> !signed || Survives(metas[i]))
    ensures !metas[i].Live() || SameFile(metas[i], m) ==> ListOk(m) && Fits(m)
  {
    hide Hi, Lo, Word, ListWord;
    var o := metas[i];
    if o.Live() {
      WordRoundTrip(signed, o.numBlocks);
      WordRoundTrip(signed, o.sizeLast);
      forall k | 0 <= k < o.numBlocks
        ensures m.blocks[k] == if signed && !LowByteSmall(o.blocks[k]) then o.blocks[k] - 256 else o.blocks[k]
      {
        EntryRoundTrip(signed, disk, i, o, k);
      }
    }
  }

  /** The same file has the same bytes. */
  lemma SameContent(disk: Disk, m: Meta, n: Meta)
    requires DiskOk(disk) && ListOk(m) && Fits(m) && ListOk(n) && Fits(n) && SameFile(m, n)
    ensures Content(disk, m) == Content(disk, n)
  {
  }
}
