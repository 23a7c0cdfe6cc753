/**
 The bookkeeping of `fs_write`: what its two loops do to the size fields, the cursor and the number
 of blocks, whatever the bytes are. It shows exactly which calls leave the file with the size it
 should have.
 */
module FsBook {
  import opened FsModel

  /** `left` bytes are still to be written, `free` data blocks are still free. */
  datatype Book = Book(numBlocks: int, sizeLast: int, cursor: int, left: nat, free: nat) {
    function Size(): int { FileSize(numBlocks, sizeLast) }
  }

  function Min(a: int, b: int): int { if a <= b then a else b }

  function Max(a: int, b: int): int { if a >= b then a else b }

  /** How much the next chunk takes: up to the end of the block the cursor is in. */
  function Chunk(b: Book): (d: nat)
    requires b.cursor >= 0
    ensures d <= b.left && (b.left > 0 ==> d > 0)
  {
    Min(b.left, BLOCK_SIZE - b.cursor % BLOCK_SIZE)
  }

  /** One chunk. Past the end of the file, the whole chunk is added to the size of the last block. */
  function Advance(b: Book): Book
    requires b.cursor >= 0
  {
    var d := Chunk(b);
    var c := b.cursor + d;
    b.(cursor := c, left := b.left - d, sizeLast := if c > b.Size() then b.sizeLast + d else b.sizeLast)
  }

  /** The first loop: while the cursor is inside the file. */
  function Inside(b: Book): (e: Book)
    requires b.cursor >= 0
    ensures e.cursor >= b.cursor
    decreases b.left
  {
    if b.cursor < b.Size() && b.left > 0 then Inside(Advance(b)) else b
  }

  predicate NeedsBlock(b: Book) {
    b.sizeLast == BLOCK_SIZE || b.numBlocks == 0
  }

  function Expand(b: Book): Book
    requires b.free > 0
  {
    b.(numBlocks := b.numBlocks + 1, sizeLast := 0, free := b.free - 1)
  }

  /** The second loop: a new block whenever the last one is full, until the disk is. */
  function Past(b: Book): (e: Book)
    requires b.cursor >= 0
    ensures e.cursor >= b.cursor
    decreases b.left
  {
    if b.left == 0 then b
    else if NeedsBlock(b) then
      if b.free == 0 then b else Past(Advance(Expand(b)))
    else Past(Advance(b))
  }

  function Write(b: Book): (e: Book)
    requires b.cursor >= 0
    ensures e.cursor >= b.cursor
  {
    Past(Inside(b))
  }

  predicate BookOk(b: Book) {
    b.numBlocks >= 0 && if b.numBlocks == 0 then b.sizeLast == 0 else 1 <= b.sizeLast <= BLOCK_SIZE
  }

  /** The writes that get the size right: they start at the end of the file, stay inside it, or the
      file fills its last block. */
  predicate Admissible(size: int, cursor: int, n: int) {
    cursor == size || cursor + n <= size || size % BLOCK_SIZE == 0
  }

  /** The room an append has: the rest of the last block and all free blocks. */
  function Room(numBlocks: int, sizeLast: int, free: int): int {
    (if numBlocks == 0 then 0 else BLOCK_SIZE - sizeLast) + BLOCK_SIZE * free
  }

  /** Begun inside the file, and admissible or at least within the file's last block. */
  predicate InsideBlocks(b: Book) {
    && b.cursor <= b.Size()
    && (Admissible(b.Size(), b.cursor, b.left) || b.cursor + b.left <= b.numBlocks * BLOCK_SIZE)
  }

  /** The end of the block that `c` is in. */
  lemma BlockEnd(c: int, n: int)
    requires 0 <= c < n * BLOCK_SIZE
    ensures var end := c + (BLOCK_SIZE - c % BLOCK_SIZE);
      end <= n * BLOCK_SIZE && (end > (n - 1) * BLOCK_SIZE ==> end == n * BLOCK_SIZE)
  {
    var q := c / BLOCK_SIZE;
    assert c + (BLOCK_SIZE - c % BLOCK_SIZE) == (q + 1) * BLOCK_SIZE;
    assert q + 1 <= n && (q + 1 > n - 1 ==> q + 1 == n);
  }

  /** Such a write crosses the end of the file only with its last chunk. */
  lemma LastChunkCrosses(b: Book)
    requires BookOk(b) && 0 <= b.cursor < b.Size() && b.left > 0 && InsideBlocks(b)
    ensures var a := Advance(b);
      if a.cursor > b.Size() then a.left == 0
      else a == b.(cursor := b.cursor + Chunk(b), left := b.left - Chunk(b)) && InsideBlocks(a)
    ensures b.cursor < b.numBlocks * BLOCK_SIZE
  {
    BlockEnd(b.cursor, b.numBlocks);
    if b.Size() % BLOCK_SIZE == 0 { assert b.sizeLast == BLOCK_SIZE; }
  }

  /** The last block is more than full, or will be: the write is inside the file and will run on past
      its last block. */
  predicate Overrun(b: Book) {
    b.numBlocks > 0 && (b.sizeLast > BLOCK_SIZE || (BookOk(b) && b.cursor < b.Size() && !InsideBlocks(b)))
  }

  /** That stays so, until nothing is left to be written. */
  lemma OverrunChunk(b: Book)
    requires b.cursor >= 0 && b.left > 0 && Overrun(b)
    ensures var a := Advance(b); a.left == 0 || Overrun(a)
    ensures b.cursor >= b.Size() ==> b.sizeLast > BLOCK_SIZE
  {
  }

  // ---- admissible writes -----------------------------------------------------------------------

  /** Inside the file, up to its end or up to a full last block, nothing but the cursor moves. */
  lemma {:induction false} InsideAdmissible(b: Book)
    requires BookOk(b) && 0 <= b.cursor <= b.Size() && Admissible(b.Size(), b.cursor, b.left)
    ensures var e := Inside(b); var d := Min(b.left, b.Size() - b.cursor);
      e == b.(cursor := b.cursor + d, left := b.left - d)
    decreases b.left
  {
    if b.cursor < b.Size() && b.left > 0 {
      ChunkInside(b);
      InsideAdmissible(Advance(b));
    }
  }

  lemma ChunkInside(b: Book)
    requires BookOk(b) && 0 <= b.cursor < b.Size() && Admissible(b.Size(), b.cursor, b.left)
    ensures b.cursor + Chunk(b) <= b.Size()
    ensures Advance(b) == b.(cursor := b.cursor + Chunk(b), left := b.left - Chunk(b))
  {
  }

  /** At the end of the file, everything is appended for which there is room. */
  lemma {:induction false} PastAppends(b: Book)
    requires BookOk(b) && b.cursor == b.Size()
    ensures var e := Past(b); var w := Min(b.left, Room(b.numBlocks, b.sizeLast, b.free));
      && BookOk(e) && e.cursor == e.Size() == b.Size() + w && e.left == b.left - w
      && Room(e.numBlocks, e.sizeLast, e.free) == Room(b.numBlocks, b.sizeLast, b.free) - w
    decreases b.left
  {
    if b.left > 0 && (!NeedsBlock(b) || b.free > 0) {
      var x := if NeedsBlock(b) then Expand(b) else b;
      AppendChunk(b, x);
      PastAppends(Advance(x));
    }
  }

  /** A chunk appended, to a new block or to the last one, uses up that much of the room. */
  lemma AppendChunk(b: Book, x: Book)
    requires BookOk(b) && b.cursor == b.Size() && b.left > 0 && (NeedsBlock(b) ==> b.free > 0)
    requires x == if NeedsBlock(b) then Expand(b) else b
    ensures var a := Advance(x); var d := Chunk(x);
      && d <= Room(b.numBlocks, b.sizeLast, b.free)
      && BookOk(a) && a.cursor == a.Size() == b.Size() + d && a.left == b.left - d
      && Room(a.numBlocks, a.sizeLast, a.free) == Room(b.numBlocks, b.sizeLast, b.free) - d
  {
  }

  /** The chunk lands in a block the file has. */
  lemma AppendPlace(b: Book, x: Book)
    requires BookOk(b) && b.cursor == b.Size() && b.left > 0 && (NeedsBlock(b) ==> b.free > 0)
    requires x == if NeedsBlock(b) then Expand(b) else b
    ensures x.cursor < x.numBlocks * BLOCK_SIZE
  {
  }

  /** Blocks are neither made nor lost. */
  lemma {:induction false} InsideConserves(b: Book)
    requires b.cursor >= 0
    ensures Inside(b).numBlocks == b.numBlocks && Inside(b).free == b.free
    decreases b.left
  {
    if b.cursor < b.Size() && b.left > 0 { InsideConserves(Advance(b)); }
  }

  lemma {:induction false} PastConserves(b: Book)
    requires b.cursor >= 0
    ensures Past(b).numBlocks + Past(b).free == b.numBlocks + b.free && Past(b).numBlocks >= b.numBlocks
    decreases b.left
  {
    if b.left > 0 && (!NeedsBlock(b) || b.free > 0) {
      PastConserves(Advance(if NeedsBlock(b) then Expand(b) else b));
    }
  }

  lemma WriteConserves(b: Book)
    requires b.cursor >= 0
    ensures Write(b).numBlocks + Write(b).free == b.numBlocks + b.free && Write(b).numBlocks >= b.numBlocks
  {
    InsideConserves(b);
    PastConserves(Inside(b));
  }

  // ---- the others ------------------------------------------------------------------------------

  /** A last block that is more than full is never noticed: no block is added any more. */
  lemma {:induction false} OverfullInside(b: Book)
    requires b.cursor >= 0 && b.sizeLast > BLOCK_SIZE && b.numBlocks > 0
    ensures Inside(b).sizeLast > BLOCK_SIZE && Inside(b).numBlocks == b.numBlocks
    decreases b.left
  {
    if b.cursor < b.Size() && b.left > 0 { OverfullInside(Advance(b)); }
  }

  lemma {:induction false} OverfullPast(b: Book)
    requires b.cursor >= 0 && b.sizeLast > BLOCK_SIZE && b.numBlocks > 0
    ensures Past(b).sizeLast > BLOCK_SIZE && Past(b).numBlocks == b.numBlocks
    decreases b.left
  {
    if b.left > 0 { OverfullPast(Advance(b)); }
  }

  /** Crossing the end of a file whose last block is not full leaves a wrong size, or a last block
      that is more than full. */
  lemma {:induction false} CrossingWrong(b: Book)
    requires BookOk(b) && 0 <= b.cursor < b.Size() && !Admissible(b.Size(), b.cursor, b.left)
    ensures var e := Past(Inside(b));
      e.sizeLast > BLOCK_SIZE || e.Size() > b.cursor + b.left
    decreases b.left
  {
    var a := Advance(b);
    if a.cursor <= b.Size() {
      CrossingChunk(b);
      CrossingWrong(a);
    } else if a.left == 0 {
      assert Inside(b) == a;
    } else {
      CrossingOverfull(b);
      OverfullInside(a);
      OverfullPast(Inside(a));
    }
  }

  lemma CrossingChunk(b: Book)
    requires BookOk(b) && 0 <= b.cursor < b.Size() && !Admissible(b.Size(), b.cursor, b.left)
    requires Advance(b).cursor <= b.Size()
    ensures var a := Advance(b);
      && BookOk(a) && a.Size() == b.Size() && a.cursor < a.Size() && !Admissible(a.Size(), a.cursor, a.left)
      && a.cursor + a.left == b.cursor + b.left
  {
  }

  lemma CrossingOverfull(b: Book)
    requires BookOk(b) && 0 <= b.cursor < b.Size() && !Admissible(b.Size(), b.cursor, b.left)
    requires Advance(b).cursor > b.Size() && Advance(b).left > 0
    ensures Advance(b).sizeLast > BLOCK_SIZE && b.numBlocks > 0
  {
  }

  /** The exact condition, for every file, cursor and length: `fs_write` leaves a well-formed file
      of the size it should have if and only if the write is admissible. */
  lemma WriteExactIff(b: Book)
    requires BookOk(b) && 0 <= b.cursor <= b.Size()
    ensures var e := Write(b); var w := b.left - e.left;
      (BookOk(e) && e.Size() == Max(b.Size(), b.cursor + w)) <==> Admissible(b.Size(), b.cursor, b.left)
  {
    if Admissible(b.Size(), b.cursor, b.left) {
      WriteAdmissible(b);
    } else {
      CrossingWrong(b);
    }
  }

  /** An admissible write takes everything there is room for. */
  lemma WriteAdmissible(b: Book)
    requires BookOk(b) && 0 <= b.cursor <= b.Size() && Admissible(b.Size(), b.cursor, b.left)
    ensures var e := Write(b);
      var w := Min(b.left, b.Size() - b.cursor + Room(b.numBlocks, b.sizeLast, b.free));
      && BookOk(e) && e.left == b.left - w && e.cursor == b.cursor + w
      && e.Size() == Max(b.Size(), b.cursor + w)
      && Room(e.numBlocks, e.sizeLast, e.free) + (e.Size() - b.Size()) == Room(b.numBlocks, b.sizeLast, b.free)
  {
    InsideAdmissible(b);
    var i := Inside(b);
    if i.left > 0 { PastAppends(i); }
  }

  // ---- the loops ---------------------------------------------------------------------------------

  /** How a write goes: in the file's own blocks; in the blocks of a file that has been deleted; out of
      them, across an end that is not the end of a block; or past the end from the start, where a
      truncation can leave a cursor. */
  datatype Course = Exact | Orphan | Stray | Adrift {
    predicate Inside() { Exact? || Orphan? }
  }

  function CourseOf(live: bool, b: Book): Course {
    if b.cursor > b.Size() then Adrift else if !InsideBlocks(b) then Stray else if live then Exact else Orphan
  }

  ghost predicate OnCourse(course: Course, b: Book) {
    match course
    case Exact => BookOk(b) && InsideBlocks(b)
    case Orphan => BookOk(b) && InsideBlocks(b)
    case Stray => Overrun(b)
    case Adrift => b.numBlocks >= 0 && b.sizeLast >= 0 && b.cursor > b.Size()
  }

  lemma CourseKept(course: Course, b: Book)
    requires OnCourse(course, b) && 0 <= b.cursor < b.Size() && b.left > 0
    ensures Advance(b).left == 0 || OnCourse(course, Advance(b))
    ensures !course.Adrift? && (course.Stray? ==> !NeedsBlock(b))
    ensures course.Inside() ==> b.cursor < b.numBlocks * BLOCK_SIZE
  {
    match course
    case Exact => LastChunkCrosses(b);
    case Orphan => LastChunkCrosses(b);
    case Stray => OverrunChunk(b);
    case Adrift =>
  }

  /** At the end of the file, or past it. */
  ghost predicate AtEnd(course: Course, b: Book) {
    match course
    case Exact => BookOk(b) && b.cursor == b.Size()
    case Orphan => BookOk(b) && b.cursor == b.Size()
    case Stray => b.numBlocks > 0 && b.sizeLast > BLOCK_SIZE
    case Adrift => b.numBlocks >= 0 && b.sizeLast >= 0 && b.cursor > b.Size()
  }

  lemma EndKept(course: Course, b: Book, x: Book)
    requires AtEnd(course, b) && b.cursor >= 0 && b.left > 0
    requires x == if NeedsBlock(b) && b.free > 0 then Expand(b) else b
    ensures NeedsBlock(b) && course.Inside() ==> b.cursor == b.numBlocks * BLOCK_SIZE
    ensures NeedsBlock(b) ==> !course.Stray? && (course.Adrift? ==> b.cursor > b.numBlocks * BLOCK_SIZE)
    ensures course.Adrift? ==> b.cursor > (b.numBlocks - 1) * BLOCK_SIZE
    ensures x.cursor == b.cursor && x.left == b.left
    ensures (NeedsBlock(b) ==> b.free > 0) ==>
              AtEnd(course, Advance(x)) && (course.Inside() ==> x.cursor < x.numBlocks * BLOCK_SIZE)
  {
    if course.Inside() && (NeedsBlock(b) ==> b.free > 0) {
      AppendChunk(b, x);
      AppendPlace(b, x);
    }
    if course.Adrift? && (NeedsBlock(b) ==> b.free > 0) { DriftChunk(b, x); }
  }

  /** A chunk past the end leaves the size as far behind the cursor as it was. */
  lemma DriftChunk(b: Book, x: Book)
    requires b.numBlocks >= 0 && b.sizeLast >= 0 && b.cursor > b.Size() && b.cursor >= 0 && b.left > 0
    requires NeedsBlock(b) ==> b.free > 0
    requires x == if NeedsBlock(b) then Expand(b) else b
    ensures var a := Advance(x);
      && a.numBlocks > 0 && a.sizeLast >= 0 && a.Size() - b.Size() == a.cursor - b.cursor == b.left - a.left == Chunk(b)
  {
  }

  /** So a write that begins past the end of the file leaves it too short by the gap. */
  lemma {:induction false} DriftShort(b: Book)
    requires b.numBlocks >= 0 && b.sizeLast >= 0 && b.cursor > b.Size() && b.cursor >= 0
    ensures var e := Write(b);
      e.Size() - b.Size() == e.cursor - b.cursor == b.left - e.left
    decreases b.left
  {
    if b.left > 0 && (!NeedsBlock(b) || b.free > 0) {
      var x := if NeedsBlock(b) then Expand(b) else b;
      DriftChunk(b, x);
      DriftShort(Advance(x));
    }
  }

  /** A write that leaves the file's blocks by crossing its end takes all its bytes. */
  lemma {:induction false} StrayTakesAll(b: Book)
    requires b.cursor >= 0 && Overrun(b)
    ensures Write(b).left == 0
    decreases b.left
  {
    if b.left > 0 && b.cursor < b.Size() {
      OverrunChunk(b);
      if Advance(b).left > 0 { StrayTakesAll(Advance(b)); } else { assert Inside(b) == Advance(b); }
    } else if b.left > 0 {
      OverrunChunk(b);
      OverfullTakesAll(b);
    }
  }

  lemma {:induction false} OverfullTakesAll(b: Book)
    requires b.cursor >= 0 && b.sizeLast > BLOCK_SIZE && b.numBlocks > 0
    ensures Past(b).left == 0
    decreases b.left
  {
    if b.left > 0 { OverfullTakesAll(Advance(b)); }
  }

  // ---- the exact outcome of every write -------------------------------------------------------------

  /** A chunk that ends past the size adds all its bytes to it, and every other chunk none. */
  lemma ChunkGrows(b: Book)
    requires b.cursor >= 0 && b.numBlocks > 0
    ensures var a := Advance(b);
      && (b.left > 0 ==> b.cursor < a.cursor)
      && a.cursor + a.left == b.cursor + b.left
      && a.Size() == if a.cursor > b.Size() then b.Size() + (a.cursor - b.cursor) else b.Size()
  {
  }

  /** Where the chunk begins that first crosses the end: at the cursor, or with the last block. */
  function CrossesFrom(b: Book): int { Max(b.cursor, (b.numBlocks - 1) * BLOCK_SIZE) }

  /** The size after a write up to `end` whose size is ahead of its cursor by `gap`: a last chunk in a
      further block adds nothing unless it is longer than the gap. */
  function CrossedSize(gap: int, boundary: int, end: int): int {
    gap + (if end > boundary && 0 < end % BLOCK_SIZE <= gap then end - end % BLOCK_SIZE else end)
  }

  /** Once the cursor is at a block boundary and the size ahead of it. */
  lemma {:induction false} AheadRuns(b: Book, gap: int)
    requires b.numBlocks > 0 && b.sizeLast > BLOCK_SIZE && b.cursor >= 0 && b.cursor % BLOCK_SIZE == 0
    requires b.Size() == b.cursor + gap && 0 < gap < BLOCK_SIZE
    ensures var e := Inside(b);
      && e.left == 0 && e.cursor == b.cursor + b.left && e.numBlocks == b.numBlocks && e.free == b.free
      && e.Size() == CrossedSize(gap, b.cursor, b.cursor + b.left)
    decreases b.left
  {
    if b.left > 0 {
      hide Advance, CrossedSize, FileSize;
      AheadChunk(b, gap);
      InsideNext(b);
      if Advance(b).left > 0 { AheadRuns(Advance(b), gap); }
    } else {
      assert Inside(b) == b;
    }
  }

  lemma AheadChunk(b: Book, gap: int)
    requires b.numBlocks > 0 && b.sizeLast > BLOCK_SIZE && b.cursor >= 0 && b.cursor % BLOCK_SIZE == 0 && b.left > 0
    requires b.Size() == b.cursor + gap && 0 < gap < BLOCK_SIZE
    ensures var a, end := Advance(b), b.cursor + b.left;
      && a.numBlocks == b.numBlocks && a.free == b.free && a.sizeLast > BLOCK_SIZE && a.left < b.left
      && a.cursor >= 0 && a.cursor + a.left == end
      && (a.left > 0 ==> a.cursor % BLOCK_SIZE == 0 && a.Size() == a.cursor + gap
                         && CrossedSize(gap, a.cursor, end) == CrossedSize(gap, b.cursor, end))
      && (a.left == 0 ==> a.Size() == CrossedSize(gap, b.cursor, end))
  {
  }

  lemma CrossesSame(b: Book)
    requires BookOk(b) && 0 <= b.cursor < b.Size() && !Admissible(b.Size(), b.cursor, b.left)
    requires Advance(b).cursor <= b.Size()
    ensures CrossesFrom(Advance(b)) == CrossesFrom(b) && Advance(b).free == b.free && Advance(b).numBlocks == b.numBlocks
  {
  }

  /** The chunk that crosses the end is the last one, or fills the last block. */
  lemma CrossingLast(b: Book)
    requires BookOk(b) && 0 <= b.cursor < b.Size() && !Admissible(b.Size(), b.cursor, b.left)
    requires Advance(b).cursor > b.Size()
    ensures var a := Advance(b);
      && a.numBlocks == b.numBlocks > 0 && a.free == b.free && b.cursor == CrossesFrom(b)
      && a.cursor + a.left == b.cursor + b.left && 0 < b.Size() - b.cursor < BLOCK_SIZE
      && a.Size() == a.cursor + (b.Size() - b.cursor)
      && a.cursor <= b.numBlocks * BLOCK_SIZE
      && (a.left > 0 ==> a.cursor == b.numBlocks * BLOCK_SIZE && a.sizeLast > BLOCK_SIZE)
  {
  }

  /** Crossing the end of a file whose last block is not full: all bytes are taken, no block is added, and the
      size gets ahead of the end of the write by as much as the crossing chunk has written over. */
  lemma {:induction false} CrossingExact(b: Book)
    requires BookOk(b) && 0 <= b.cursor < b.Size() && !Admissible(b.Size(), b.cursor, b.left)
    ensures var e := Write(b);
      && e.left == 0 && e.cursor == b.cursor + b.left && e.numBlocks == b.numBlocks && e.free == b.free
      && e.Size() == CrossedSize(b.Size() - CrossesFrom(b), b.numBlocks * BLOCK_SIZE, b.cursor + b.left)
    decreases b.left
  {
    hide CrossesFrom, CrossedSize, BookOk, Admissible, FileSize, Advance;
    var a := Advance(b);
    InsideNext(b);
    if a.cursor <= b.Size() {
      CrossingChunk(b);
      CrossesSame(b);
      CrossingExact(a);
    } else {
      CrossingLast(b);
      if a.left == 0 {
        CrossedShort(b, a);
      } else {
        AheadRuns(a, b.Size() - CrossesFrom(b));
      }
    }
  }

  lemma InsideNext(b: Book)
    requires 0 <= b.cursor < b.Size()
    ensures b.left > 0 ==> Advance(b).cursor >= 0 && Advance(b).left < b.left && Inside(b) == Inside(Advance(b))
    ensures b.left > 0 && Advance(b).left == 0 ==> Inside(b) == Advance(b)
    ensures !Admissible(b.Size(), b.cursor, b.left) ==> b.left > 0
  {
  }

  lemma CrossedShort(b: Book, a: Book)
    requires a.cursor == b.cursor + b.left <= b.numBlocks * BLOCK_SIZE && b.cursor == CrossesFrom(b)
    ensures CrossedSize(b.Size() - CrossesFrom(b), b.numBlocks * BLOCK_SIZE, b.cursor + b.left) == a.cursor + (b.Size() - b.cursor)
  {
  }

  /** At the end of the file or a whole number of blocks past it. */
  predicate Aligned(b: Book) { b.cursor >= b.Size() && (b.cursor - b.Size()) % BLOCK_SIZE == 0 }

  lemma AlignedChunk(b: Book, x: Book)
    requires BookOk(b) && Aligned(b) && b.cursor >= 0 && b.left > 0 && (NeedsBlock(b) ==> b.free > 0)
    requires x == if NeedsBlock(b) then Expand(b) else b
    ensures var a := Advance(x); var d := Chunk(x);
      && d <= Room(b.numBlocks, b.sizeLast, b.free)
      && BookOk(a) && Aligned(a) && a.Size() == b.Size() + d && a.left == b.left - d
      && Room(a.numBlocks, a.sizeLast, a.free) == Room(b.numBlocks, b.sizeLast, b.free) - d
  {
  }

  lemma {:induction false} AlignedTakes(b: Book)
    requires BookOk(b) && Aligned(b) && b.cursor >= 0
    ensures var e := Past(b); BookOk(e) && e.left == b.left - Min(b.left, Room(b.numBlocks, b.sizeLast, b.free))
    decreases b.left
  {
    if b.left > 0 && (!NeedsBlock(b) || b.free > 0) {
      var x := if NeedsBlock(b) then Expand(b) else b;
      AlignedChunk(b, x);
      AlignedTakes(Advance(x));
    }
  }

  /** At a block boundary, past the end, with a last block that is neither full nor empty: it will never be
      just full again with bytes left. */
  lemma SkewedTakes(b: Book)
    requires b.cursor >= 0 && b.cursor % BLOCK_SIZE == 0 && b.cursor > b.Size()
    requires b.numBlocks > 0 && b.sizeLast > 0 && b.sizeLast != BLOCK_SIZE
    ensures Past(b).left == 0 && Past(b).numBlocks == b.numBlocks
  {
    if b.sizeLast > BLOCK_SIZE {
      OverfullTakesAll(b);
      OverfullPast(b);
    } else if b.left > 0 {
      var a := Advance(b);
      if a.left > 0 {
        OverfullTakesAll(a);
        OverfullPast(a);
      } else {
        assert Past(a) == a;
      }
    }
  }

  /** Every write that begins past the end. Without room in the last block and on the disk, nothing is written.
      A whole number of blocks past the end, it takes what an append would. Otherwise it takes all its bytes,
      and no new block but the one it begins with when the last block is full. */
  lemma DriftExact(b: Book)
    requires BookOk(b) && b.cursor > b.Size()
    ensures var e := Write(b); var full := b.Size() % BLOCK_SIZE == 0;
      && (full && b.free == 0 ==> e == b)
      && (Aligned(b) ==> BookOk(e) && e.left == b.left - Min(b.left, Room(b.numBlocks, b.sizeLast, b.free)))
      && (!Aligned(b) && !(full && b.free == 0) ==>
            e.left == 0 && e.numBlocks == b.numBlocks + (if full && b.left > 0 then 1 else 0))
      && e.Size() - b.Size() == e.cursor - b.cursor == b.left - e.left
      && e.numBlocks + e.free == b.numBlocks + b.free
  {
    hide Past, Inside;
    DriftShort(b);
    WriteConserves(b);
    PastOnly(b);
    if Aligned(b) { AlignedTakes(b); } else if NeedsBlock(b) ==> b.free > 0 { SkewedStart(b); }
  }

  lemma PastOnly(b: Book)
    requires b.cursor >= b.Size() && b.cursor >= 0
    ensures Inside(b) == b && (b.left == 0 || (NeedsBlock(b) && b.free == 0) ==> Past(b) == b)
  {
  }

  lemma SkewedStart(b: Book)
    requires BookOk(b) && b.cursor > b.Size() && !Aligned(b) && (NeedsBlock(b) ==> b.free > 0)
    ensures Past(b).left == 0 && Past(b).numBlocks == b.numBlocks + (if NeedsBlock(b) && b.left > 0 then 1 else 0)
  {
    if b.left > 0 {
      hide BookOk, Aligned, FileSize, Advance;
      var x := if NeedsBlock(b) then Expand(b) else b;
      SkewedChunk(b, x);
      var a := Advance(x);
      if a.left > 0 { SkewedTakes(a); } else { assert Past(a) == a; }
    }
  }

  lemma SkewedChunk(b: Book, x: Book)
    requires BookOk(b) && b.cursor > b.Size() && !Aligned(b) && b.left > 0 && (NeedsBlock(b) ==> b.free > 0)
    requires x == if NeedsBlock(b) then Expand(b) else b
    ensures var a := Advance(x);
      && x.cursor >= 0 && x.left == b.left && a.left < b.left && a.numBlocks == x.numBlocks > 0 && a.cursor >= 0
      && (a.left > 0 ==> a.cursor % BLOCK_SIZE == 0 && a.cursor > a.Size() && a.sizeLast > 0 && a.sizeLast != BLOCK_SIZE)
  {
  }

  /** A byte written at ten to a file of five leaves it with six. */
  lemma DriftExample(free: nat)
    ensures Write(Book(1, 5, 10, 1, free)) == Book(1, 6, 11, 0, free)
  {
    var b := Book(1, 5, 10, 1, free);
    assert Inside(b) == b && Past(b) == Advance(b);
  }

  /** Eight bytes written from the third byte of a file of six on give it a size of fourteen. */
  lemma CrossingFromThird(free: nat)
    ensures Write(Book(1, 6, 2, 8, free)) == Book(1, 14, 10, 0, free)
  {
    CrossingExact(Book(1, 6, 2, 8, free));
  }

  /** Ten bytes written from its start give it sixteen. */
  lemma CrossingExample(free: nat)
    ensures Write(Book(1, 6, 0, 10, free)) == Book(1, 16, 10, 0, free)
  {
    var b := Book(1, 6, 0, 10, free);
    assert Inside(b) == Advance(b) == Book(1, 16, 10, 0, free);
  }
}
