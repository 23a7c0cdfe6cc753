/**
 `fs_truncate` on values: which entries and blocks it drops, and exactly when it does what it is for.
 */
module FsTruncate {
  import opened Sequences
  import opened FsModel
  import opened FsWriting

  /** Quotient and remainder of a length by the size of a block, truncated towards zero. */
  function Whole(length: int): int {
    if length >= 0 then length / BLOCK_SIZE else -((-length) / BLOCK_SIZE)
  }

  function Rest(length: int): int { length - BLOCK_SIZE * Whole(length) }

  /** How many blocks a file of that length should have; a negative length is let through. */
  function BlocksFor(length: int): int {
    Whole(length) + (if Rest(length) > 0 then 1 else 0)
  }

  function Truncated(m: Meta, length: int): Meta {
    m.(numBlocks := if BlocksFor(length) < m.numBlocks then BlocksFor(length) else m.numBlocks,
       sizeLast := Rest(length))
  }

  /** Truncating marks data block `b` as free. */
  ghost predicate Unmarks(m: Meta, length: int, b: int) {
    exists k :: BlocksFor(length) < k <= m.numBlocks && 0 <= k < |m.blocks| && m.blocks[k] == b + DATA_BLOCKS
  }

  /** Everything the loop stores to is in the usage map, and the entries it goes by are in the list. */
  ghost predicate InMap(m: Meta, length: int) {
    forall k :: BlocksFor(length) < k <= m.numBlocks ==> NamesData(m, k)
  }

  predicate NamesData(m: Meta, k: int) {
    0 <= k < |m.blocks| && DATA_BLOCKS <= m.blocks[k] < DISK_BLOCKS
  }

  /** If blocks are to be dropped, the list entry behind the last block is a data block; and the length is
      not below -8191. */
  predicate EntryBehind(m: Meta, length: int) {
    && BlocksFor(length) >= -1
    && (BlocksFor(length) < m.numBlocks ==> NamesData(m, m.numBlocks))
  }

  /** No block is dropped, or the entry behind the last block names the first that is. */
  predicate Lucky(m: Meta, length: int) {
    BlocksFor(length) < m.numBlocks ==>
      && 0 <= BlocksFor(length) && m.numBlocks < |m.blocks|
      && m.blocks[m.numBlocks] == m.blocks[BlocksFor(length)]
  }

  /** Not negative, and no whole number of blocks, or nothing. */
  predicate Ragged(length: int) { length >= 0 && (length % BLOCK_SIZE != 0 || length == 0) }

  // ---- when it does what it is for --------------------------------------------------------------

  lemma InMapIff(m: Meta, length: int)
    requires ListOk(m)
    ensures InMap(m, length) <==> EntryBehind(m, length)
  {
    if InMap(m, length) {
      if BlocksFor(length) < m.numBlocks { InMapAt(m, length, m.numBlocks); }
      if BlocksFor(length) < -1 { InMapAt(m, length, -1); }
    }
  }

  lemma InMapAt(m: Meta, length: int, k: int)
    requires InMap(m, length) && BlocksFor(length) < k <= m.numBlocks
    ensures NamesData(m, k)
  {
  }

  lemma SizeIff(m: Meta, length: int)
    requires SizeOk(m) && m.numBlocks >= 0 && length <= FileSize(m.numBlocks, m.sizeLast)
    ensures var n := Truncated(m, length);
      (SizeOk(n) && FileSize(n.numBlocks, n.sizeLast) == length) <==> Ragged(length)
    ensures SizeOk(Truncated(m, length)) <==> Ragged(length)
  {
  }

  /** `fs_truncate` stores nowhere but in the usage map and leaves the size it was asked for if and only
      if that is not negative and no whole number of blocks, or nothing, and, when blocks are dropped, the
      entry behind the last block is a data block. */
  lemma TruncateSizeIff(m: Meta, length: int)
    requires ListOk(m) && SizeOk(m) && length <= FileSize(m.numBlocks, m.sizeLast)
    ensures var n := Truncated(m, length);
      (InMap(m, length) && SizeOk(n) && FileSize(n.numBlocks, n.sizeLast) == length) <==>
        Ragged(length) && EntryBehind(m, length)
  {
    SizeIff(m, length);
    InMapIff(m, length);
  }

  /** Truncating any file to a negative length leaves it with that many bytes too few: no block or a negative
      number of them, and a size of the last one that is not positive. */
  lemma TruncateNegative(m: Meta, length: int)
    requires ListOk(m) && length < 0
    ensures var n := Truncated(m, length);
      && n.numBlocks <= 0 && -BLOCK_SIZE < n.sizeLast <= 0 && n.numBlocks * BLOCK_SIZE + n.sizeLast == length
      && FileSize(n.numBlocks, n.sizeLast) == if n.numBlocks == 0 then 0 else length - BLOCK_SIZE
    ensures length == -1 ==> Truncated(m, length) == m.(numBlocks := 0, sizeLast := -1)
  {
  }

  /** For other lengths the file keeps the least number of blocks that holds them. */
  lemma TruncateBlocks(m: Meta, length: int)
    requires ListOk(m) && 0 <= length <= FileSize(m.numBlocks, m.sizeLast)
    requires SizeOk(m)
    ensures var n := Truncated(m, length).numBlocks;
      && 0 <= n <= m.numBlocks && n * BLOCK_SIZE >= length && forall k :: k * BLOCK_SIZE >= length ==> n <= k
  {
    var n := Truncated(m, length).numBlocks;
    forall k | k * BLOCK_SIZE >= length ensures n <= k {
    }
  }

  /** Two blocks in a slot that never held more, truncated to a hundred bytes: the size comes out right,
      but the loop stores before the start of the usage map. */
  lemma TruncateOutOfMap(name: seq<Byte>)
    requires |name| == NAMELEN
    ensures var m := Meta(1, name, 2, BLOCK_SIZE, seq(DATA_BLOCKS, k => if k < 2 then DATA_BLOCKS + k else 0));
      && ListOk(m) && SizeOk(m) && !InMap(m, 100)
      && SizeOk(Truncated(m, 100)) && FileSize(Truncated(m, 100).numBlocks, Truncated(m, 100).sizeLast) == 100
  {
    var m := Meta(1, name, 2, BLOCK_SIZE, seq(DATA_BLOCKS, k => if k < 2 then DATA_BLOCKS + k else 0));
    assert m.blocks[2] == 0;
    InMapIff(m, 100);
  }

  /** What remains of the file are its first bytes: as many as asked for, or a block less when that is a whole
      number of blocks. */
  lemma TruncateContent(disk: Disk, disk': Disk, m: Meta, length: int)
    requires DiskOk(disk) && DiskOk(disk') && ListOk(m) && Fits(m)
    requires -BLOCK_SIZE < length <= FileSize(m.numBlocks, m.sizeLast)
    requires forall b :: DATA_BLOCKS <= b < DISK_BLOCKS ==> disk'[b] == disk[b]
    ensures var n := Truncated(m, length); var size := FileSize(n.numBlocks, n.sizeLast);
      && ListOk(n) && Fits(n) && 0 <= size <= |Content(disk, m)| && Content(disk', n) == Content(disk, m)[..size]
      && size == if length < 0 then 0 else if Ragged(length) then length else length - BLOCK_SIZE
  {
  }

  /** `fs_truncate` stores nowhere but in the usage map and keeps it right if and only if no block is
      dropped, or the entry behind the last block happens to name the first block that is. */
  lemma TruncateOwnershipIff(metas: seq<Meta>, usage: seq<Byte>, owner: Owner, i: nat, length: int, usage': seq<Byte>)
    requires Owned(metas, usage, owner) && i < NUM_FILES && metas[i].Live() && |usage'| == DATA_BLOCKS
    requires SizeOk(metas[i]) && length <= FileSize(metas[i].numBlocks, metas[i].sizeLast)
    requires forall b :: 0 <= b < DATA_BLOCKS ==> usage'[b] == if Unmarks(metas[i], length, b) then 0 else usage[b]
    ensures var m := metas[i];
      InMap(m, length) && CanOwn(metas[i := Truncated(m, length)], usage') <==> Lucky(m, length)
  {
    var m, n := metas[i], BlocksFor(length);
    InMapIff(m, length);
    if n >= m.numBlocks {
      TruncateNothing(metas, usage, owner, i, length, usage');
    } else if n < 0 {
      var metas' := metas[i := Truncated(m, length)];
      forall owner' ensures !Owned(metas', usage', owner') { Overdropped(metas', usage', owner', i); }
    } else if !EntryBehind(m, length) {
      EntryOwned(metas, usage, owner, i, n);
    } else if Lucky(m, length) {
      var owner' := OwnerShrunk(owner, i, n);
      TruncateLucky(metas, usage, owner, i, length, usage', owner');
    } else {
      var metas' := metas[i := Truncated(m, length)];
      if CanOwn(metas', usage') {
        var owner' :| Owned(metas', usage', owner');
        TruncateLeaks(metas, usage, owner, i, length, usage', owner');
      }
    }
  }

  lemma Overdropped(metas: seq<Meta>, usage: seq<Byte>, owner: Owner, i: nat)
    requires |metas| == NUM_FILES && i < NUM_FILES && metas[i].Live() && metas[i].numBlocks < 0
    ensures !Owned(metas, usage, owner)
  {
  }

  lemma TruncateNothing(metas: seq<Meta>, usage: seq<Byte>, owner: Owner, i: nat, length: int, usage': seq<Byte>)
    requires Owned(metas, usage, owner) && i < NUM_FILES && metas[i].Live() && |usage'| == DATA_BLOCKS
    requires BlocksFor(length) >= metas[i].numBlocks
    requires forall b :: 0 <= b < DATA_BLOCKS ==> usage'[b] == if Unmarks(metas[i], length, b) then 0 else usage[b]
    ensures Owned(metas[i := Truncated(metas[i], length)], usage', owner)
  {
    assert usage' == usage;
    OwnedSize(metas, usage, owner, i, Rest(length));
    assert Truncated(metas[i], length) == metas[i].(sizeLast := Rest(length));
  }

  /** A dropped block stays marked, and no file lists it. */
  lemma TruncateLeaks(metas: seq<Meta>, usage: seq<Byte>, owner: Owner, i: nat, length: int, usage': seq<Byte>, owner': Owner)
    requires Owned(metas, usage, owner) && i < NUM_FILES && metas[i].Live() && |usage'| == DATA_BLOCKS
    requires 0 <= BlocksFor(length) && EntryBehind(metas[i], length) && BlocksFor(length) < metas[i].numBlocks
    requires metas[i].blocks[metas[i].numBlocks] != metas[i].blocks[BlocksFor(length)]
    requires forall b :: 0 <= b < DATA_BLOCKS ==> usage'[b] == if Unmarks(metas[i], length, b) then 0 else usage[b]
    ensures !Owned(metas[i := Truncated(metas[i], length)], usage', owner')
  {
    var m, n := metas[i], BlocksFor(length);
    var b := m.blocks[n] - DATA_BLOCKS;
    EntryOwned(metas, usage, owner, i, n);
    OwnedDistinctBlocks(metas, usage, owner, i);
    assert usage[b] != 0;
    hide Owned;
    assert !Unmarks(m, length, b);
    var metas' := metas[i := Truncated(m, length)];
    DroppedUnlisted(metas, usage, owner, i, n, Rest(length));
    UnlistedMarked(metas', usage', owner', b);
  }

  lemma DroppedUnlisted(metas: seq<Meta>, usage: seq<Byte>, owner: Owner, i: nat, n: nat, last: int)
    requires Owned(metas, usage, owner) && i < NUM_FILES && metas[i].Live() && n < metas[i].numBlocks
    ensures |metas| == NUM_FILES && n < |metas[i].blocks|
    ensures !Listed(metas[i := metas[i].(numBlocks := n, sizeLast := last)], metas[i].blocks[n] - DATA_BLOCKS)
  {
    var metas', b := metas[i := metas[i].(numBlocks := n, sizeLast := last)], metas[i].blocks[n] - DATA_BLOCKS;
    EntryOwned(metas, usage, owner, i, n);
    forall p ensures !Lists(metas', p, b) {
      if Lists(metas', p, b) { EntryOwned(metas, usage, owner, p.file, p.index); }
    }
  }

  lemma UnlistedMarked(metas: seq<Meta>, usage: seq<Byte>, owner: Owner, b: int)
    requires |metas| == NUM_FILES && |usage| == DATA_BLOCKS && 0 <= b < DATA_BLOCKS
    requires usage[b] != 0 && !Listed(metas, b)
    ensures !Owned(metas, usage, owner)
  {
  }

  /** Data block `b` belongs to a place at or behind entry `n` of file `i`. */
  predicate OwnedBehind(owner: Owner, i: nat, n: int, b: int)
    requires 0 <= b < |owner|
  {
    owner[b].Some? && owner[b].value.file == i && owner[b].value.index >= n
  }

  function OwnerShrunk(owner: Owner, i: nat, n: int): (r: Owner)
    requires |owner| == DATA_BLOCKS
    ensures |r| == DATA_BLOCKS
  {
    seq(DATA_BLOCKS, b requires 0 <= b < DATA_BLOCKS => if OwnedBehind(owner, i, n, b) then None else owner[b])
  }

  /** When the entry behind the last block is a copy of the first block dropped, exactly the dropped
      blocks are unmarked. */
  lemma TruncateLucky(metas: seq<Meta>, usage: seq<Byte>, owner: Owner, i: nat, length: int,
                      usage': seq<Byte>, owner': Owner)
    requires Owned(metas, usage, owner) && i < NUM_FILES && metas[i].Live() && |usage'| == DATA_BLOCKS
    requires Lucky(metas[i], length) && BlocksFor(length) < metas[i].numBlocks
    requires forall b :: 0 <= b < DATA_BLOCKS ==> usage'[b] == if Unmarks(metas[i], length, b) then 0 else usage[b]
    requires |owner| == DATA_BLOCKS && owner' == OwnerShrunk(owner, i, BlocksFor(length))
    ensures Owned(metas[i := Truncated(metas[i], length)], usage', owner')
  {
    hide Unmarks;
    var n := BlocksFor(length);
    EntryOwned(metas, usage, owner, i, n);
    forall b | 0 <= b < DATA_BLOCKS ensures usage'[b] == if OwnedBehind(owner, i, n, b) then 0 else usage[b] {
      UnmarksOnlyDropped(metas, usage, owner, i, length, b);
      UnmarksAllDropped(metas, usage, owner, i, length, b);
    }
    hide EntryBehind, BlocksFor;
    OwnedShrinks(metas, usage, owner, i, n, Rest(length), usage', owner');
  }

  /** Dropping the entries from `n` on and unmarking their blocks keeps the accounting right. */
  lemma OwnedShrinks(metas: seq<Meta>, usage: seq<Byte>, owner: Owner, i: nat, n: nat, last: int,
                     usage': seq<Byte>, owner': Owner)
    requires Owned(metas, usage, owner) && i < NUM_FILES && metas[i].Live() && n <= metas[i].numBlocks
    requires |usage'| == |owner'| == DATA_BLOCKS
    requires forall b :: 0 <= b < DATA_BLOCKS ==> usage'[b] == if OwnedBehind(owner, i, n, b) then 0 else usage[b]
    requires forall b :: 0 <= b < DATA_BLOCKS ==> owner'[b] == if OwnedBehind(owner, i, n, b) then None else owner[b]
    ensures Owned(metas[i := metas[i].(numBlocks := n, sizeLast := last)], usage', owner')
  {
    var metas' := metas[i := metas[i].(numBlocks := n, sizeLast := last)];
    forall j, k | 0 <= j < NUM_FILES && metas'[j].Live() && 0 <= k < metas'[j].numBlocks
      ensures owner'[metas'[j].blocks[k] - DATA_BLOCKS] == Some(Place(j, k))
    {
      EntryOwned(metas, usage, owner, j, k);
    }
    forall b | 0 <= b < DATA_BLOCKS && owner'[b].Some? ensures Lists(metas', owner'[b].value, b) {
      KeptListed(metas, usage, owner, i, n, last, b);
    }
  }

  lemma KeptListed(metas: seq<Meta>, usage: seq<Byte>, owner: Owner, i: nat, n: nat, last: int, b: nat)
    requires Owned(metas, usage, owner) && i < NUM_FILES && metas[i].Live() && n <= metas[i].numBlocks
    requires b < DATA_BLOCKS && owner[b].Some? && !OwnedBehind(owner, i, n, b)
    ensures Lists(metas[i := metas[i].(numBlocks := n, sizeLast := last)], owner[b].value, b)
  {
    assert Lists(metas, owner[b].value, b);
  }

  lemma EntryOwned(metas: seq<Meta>, usage: seq<Byte>, owner: Owner, i: nat, k: nat)
    requires Owned(metas, usage, owner) && i < NUM_FILES && metas[i].Live() && k < metas[i].numBlocks
    ensures k < |metas[i].blocks| && 0 <= metas[i].blocks[k] - DATA_BLOCKS < DATA_BLOCKS
    ensures owner[metas[i].blocks[k] - DATA_BLOCKS] == Some(Place(i, k))
  {
  }

  lemma UnmarksOnlyDropped(metas: seq<Meta>, usage: seq<Byte>, owner: Owner, i: nat, length: int, b: int)
    requires Owned(metas, usage, owner) && i < NUM_FILES && metas[i].Live() && 0 <= b < DATA_BLOCKS
    requires 0 <= BlocksFor(length) && EntryBehind(metas[i], length) && BlocksFor(length) < metas[i].numBlocks
    requires metas[i].blocks[metas[i].numBlocks] == metas[i].blocks[BlocksFor(length)]
    ensures Unmarks(metas[i], length, b) ==> OwnedBehind(owner, i, BlocksFor(length), b)
  {
    hide BlocksFor, Owned;
    OwnedList(metas, usage, owner, i);
    var m, n := metas[i], BlocksFor(length);
    if Unmarks(m, length, b) {
      var k :| n < k <= m.numBlocks && 0 <= k < |m.blocks| && m.blocks[k] == b + DATA_BLOCKS;
      var l := if k == m.numBlocks then n else k;
      EntryOwned(metas, usage, owner, i, l);
    }
  }

  lemma UnmarksAllDropped(metas: seq<Meta>, usage: seq<Byte>, owner: Owner, i: nat, length: int, b: int)
    requires Owned(metas, usage, owner) && i < NUM_FILES && metas[i].Live() && 0 <= b < DATA_BLOCKS
    requires 0 <= BlocksFor(length) && EntryBehind(metas[i], length) && BlocksFor(length) < metas[i].numBlocks
    requires metas[i].blocks[metas[i].numBlocks] == metas[i].blocks[BlocksFor(length)]
    ensures OwnedBehind(owner, i, BlocksFor(length), b) ==> Unmarks(metas[i], length, b)
  {
    hide BlocksFor;
    var m, n := metas[i], BlocksFor(length);
    if OwnedBehind(owner, i, n, b) {
      assert Lists(metas, owner[b].value, b);
      var k := if owner[b].value.index == n then m.numBlocks else owner[b].value.index;
      assert m.blocks[k] == b + DATA_BLOCKS;
    }
  }
}
