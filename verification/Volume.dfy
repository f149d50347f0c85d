/** A mounted volume as a value: the in-memory free list and the disk, who owns which block, and what
    each file-system operation does. */
module Volume {
  import opened Disk
  import opened FreeList

  datatype Volume = Volume(free: Bitmap, disk: seq<Block>)

  predicate Typed(v: Volume) { BLOCKS <= |v.disk| }

  const NONE: Long := -1

  predicate IsInode(i: int) { INODE_OFFSET <= i < FIRST_DATA }

  predicate IsData(b: int) { FIRST_DATA <= b < BLOCKS }

  function InodeOf(v: Volume, i: nat): Inode
    requires Typed(v) && IsInode(i)
  {
    LongsIn(v.disk[i])
  }

  /** An inode number is live while its bit is cleared. */
  predicate Live(v: Volume, i: int) { IsInode(i) && !IsFree(v.free, i) }

  /** Slot k of live inode i holds a block pointer. */
  predicate Points(v: Volume, i: int, k: int)
    requires Typed(v)
  {
    Live(v, i) && 0 <= k < INT_PER_BLOCK && InodeOf(v, i)[k] != NONE
  }

  function Pointer(v: Volume, i: int, k: int): Long
    requires Typed(v) && Points(v, i, k)
  {
    InodeOf(v, i)[k]
  }

  /** The number of blocks before the first empty slot. */
  function Extent(ino: Inode, k: nat): (n: nat)
    requires k <= INT_PER_BLOCK
    ensures k <= n <= INT_PER_BLOCK
    ensures forall l :: k <= l < n ==> ino[l] != NONE
    ensures n < INT_PER_BLOCK ==> ino[n] == NONE
    decreases INT_PER_BLOCK - k
  {
    if k == INT_PER_BLOCK || ino[k] == NONE then k else Extent(ino, k + 1)
  }

  function Blocks(v: Volume, i: nat): (n: nat)
    requires Typed(v) && IsInode(i)
    ensures n <= INT_PER_BLOCK
  {
    Extent(InodeOf(v, i), 0)
  }

  /** Free-list coherence, gap-free inodes and block ownership. */
  ghost predicate Valid(v: Volume)
    ensures Valid(v) ==> Typed(v)
  {
    && Typed(v)
    && Coherent(v.disk, v.free)
    && (forall n :: 0 <= n < INODE_OFFSET ==> !IsFree(v.free, n))
    && (forall i, k :: Points(v, i, k) ==> k < Blocks(v, i))
    && (forall i, k :: Points(v, i, k) ==> IsData(Pointer(v, i, k)) && !IsFree(v.free, Pointer(v, i, k)))
    && (forall i, k, j, l ::
          Points(v, i, k) && Points(v, j, l) && Pointer(v, i, k) == Pointer(v, j, l) ==> i == j && k == l)
  }

  // ---- File contents ----

  /** Byte q of file i. */
  ghost function ByteAt(v: Volume, i: nat, q: nat): Byte
    requires Valid(v) && Live(v, i) && q < CHAR_PER_BLOCK * Blocks(v, i)
  {
    assert Points(v, i, q / CHAR_PER_BLOCK);
    v.disk[Pointer(v, i, q / CHAR_PER_BLOCK)][q % CHAR_PER_BLOCK]
  }

  /** Everything that Read can return from file i. */
  ghost function Content(v: Volume, i: nat): (s: seq<Byte>)
    requires Valid(v) && Live(v, i)
    ensures |s| == CHAR_PER_BLOCK * Blocks(v, i)
  {
    seq(CHAR_PER_BLOCK * Blocks(v, i), q requires 0 <= q < CHAR_PER_BLOCK * Blocks(v, i) => ByteAt(v, i, q))
  }

  // ---- Operations ----

  function Allocate(v: Volume, n: nat): (v': Volume)
    requires Typed(v) && n < BLOCKS
    ensures |v'.disk| == |v.disk| && v'.free == MarkUsed(v.free, n)
    ensures Coherent(v'.disk, v'.free)
    ensures forall b :: BLOCK_FOR_FREELIST <= b < |v.disk| ==> v'.disk[b] == v.disk[b]
  {
    var free := MarkUsed(v.free, n);
    var disk := Flushed(v.disk, free, BLOCK_FOR_FREELIST);
    assert forall b :: BLOCK_FOR_FREELIST <= b < |v.disk| ==>
        disk[b] == disk[BLOCK_FOR_FREELIST..][b - BLOCK_FOR_FREELIST];
    Volume(free, disk)
  }

  function Release(v: Volume, n: nat): (v': Volume)
    requires Typed(v) && n < BLOCKS
    ensures |v'.disk| == |v.disk| && v'.free == MarkFree(v.free, n)
    ensures Coherent(v'.disk, v'.free)
    ensures forall b :: BLOCK_FOR_FREELIST <= b < |v.disk| ==> v'.disk[b] == v.disk[b]
  {
    var free := MarkFree(v.free, n);
    var disk := Flushed(v.disk, free, BLOCK_FOR_FREELIST);
    assert forall b :: BLOCK_FOR_FREELIST <= b < |v.disk| ==>
        disk[b] == disk[BLOCK_FOR_FREELIST..][b - BLOCK_FOR_FREELIST];
    Volume(free, disk)
  }

  function NextInode(v: Volume): int { LeastFree(v.free, 0, FIRST_DATA) }

  function NextBlock(v: Volume): (b: int)
    ensures b == -1 || IsData(b)
  {
    LeastFree(v.free, FIRST_DATA, BLOCKS)
  }

  /** get_inode and get_block. */
  function AllocateIf(v: Volume, n: int): (v': Volume)
    requires Typed(v) && -1 <= n < BLOCKS
    ensures |v'.disk| == |v.disk|
  {
    if n == -1 then v else Allocate(v, n)
  }

  /** free_block ignores -1 and numbers below 160. */
  function Freed(v: Volume, b: Long): (v': Volume)
    requires Typed(v) && b < BLOCKS
    ensures |v'.disk| == |v.disk|
  {
    if b == -1 || b < 160 then v else Release(v, b)
  }

  function FreshInode(first: Long): (ino: Inode)
    ensures ino[0] == first && forall k :: 1 <= k < INT_PER_BLOCK ==> ino[k] == NONE
  {
    [first] + seq(INT_PER_BLOCK - 1, _ => NONE)
  }

  /** A new file: an inode, and its first block if there is one. */
  function Create(v: Volume): (v': Volume)
    requires Typed(v) && NextInode(v) != -1
    ensures |v'.disk| == |v.disk|
  {
    var v1 := Allocate(v, NextInode(v));
    var v2 := AllocateIf(v1, NextBlock(v1));
    v2.(disk := v2.disk[NextInode(v) := LongBytes(FreshInode(NextBlock(v1)))])
  }

  /** No pointer lies beyond the free list. */
  predicate OnDisk(ino: Inode) {
    forall k :: 0 <= k < INT_PER_BLOCK ==> ino[k] < BLOCKS
  }

  /** The first n slots given back. */
  function FreeSlots(v: Volume, ino: Inode, n: nat): (v': Volume)
    requires Typed(v) && n <= INT_PER_BLOCK && OnDisk(ino)
    ensures |v'.disk| == |v.disk|
  {
    if n == 0 then v else Freed(FreeSlots(v, ino, n - 1), ino[n - 1])
  }

  function Delete(v: Volume, i: nat): (v': Volume)
    requires Typed(v) && IsInode(i) && (Live(v, i) ==> OnDisk(InodeOf(v, i)))
  {
    if IsFree(v.free, i) then v else Release(FreeSlots(v, InodeOf(v, i), INT_PER_BLOCK), i)
  }

  // ---- Writing ----

  /** Where Write starts to copy: one byte early when the byte before the position is NUL. */
  function Start(v: Volume, i: nat, pos: nat): (start: nat)
    requires Typed(v) && IsInode(i) && pos < CHAR_PER_BLOCK
    requires 0 <= InodeOf(v, i)[0] < |v.disk|
    ensures start == pos || start == pos - 1
  {
    if pos != 0 && v.disk[InodeOf(v, i)[0]][pos - 1] == 0 then pos - 1 else pos
  }

  /** The number of blocks that positions pos..pos+n-1 touch, from the first. */
  function BlocksNeeded(pos: nat, n: nat): (need: nat)
    requires n >= 1
    ensures CHAR_PER_BLOCK * (need - 1) < pos + n <= CHAR_PER_BLOCK * need
  {
    (pos + n - 1) / CHAR_PER_BLOCK + 1
  }

  /** Bytes [start, end) of the file are those of buf, as far as they fall into block k. */
  ghost predicate Holds(block: Block, k: nat, start: nat, end: nat, buf: seq<Byte>)
    requires end - start <= |buf|
  {
    forall c :: 0 <= c < CHAR_PER_BLOCK && start <= CHAR_PER_BLOCK * k + c < end ==>
      block[c] == buf[CHAR_PER_BLOCK * k + c - start]
  }

  /** A request to write n bytes at pos of file i. */
  datatype Request = Request(i: nat, pos: nat, n: nat, buf: seq<Byte>)

  predicate Writable(v: Volume, r: Request)
    requires Typed(v)
  {
    && Live(v, r.i) && IsData(InodeOf(v, r.i)[0])
    && r.pos < CHAR_PER_BLOCK && 1 <= r.n && r.pos + r.n <= 65536
    && r.pos + r.n - Start(v, r.i, r.pos) <= |r.buf|
  }

  /** Slots 1..w-1 name the data blocks of list f that were free, least first. */
  ghost predicate LeastFirst(f: Bitmap, ino: Inode, w: nat)
    requires w <= INT_PER_BLOCK
  {
    forall k, m :: 1 <= k < w && FIRST_DATA <= m < ino[k] && m < BLOCKS && IsFree(f, m) ==> m in ino[1..k]
  }

  lemma TakesNext(f0: Bitmap, f: Bitmap, ino: Inode, w: nat, b: nat)
    requires 1 <= w < INT_PER_BLOCK && LeastFirst(f0, ino, w) && IsData(b)
    requires forall m :: 0 <= m < BLOCKS ==> (IsFree(f, m) <==> IsFree(f0, m) && m !in ino[1..w])
    requires forall m :: FIRST_DATA <= m < b ==> !IsFree(f, m)
    ensures LeastFirst(f0, ino[w := b], w + 1)
  {
    hide IsFree;
    forall k | 1 <= k <= w
      ensures ino[w := b][1..k] == ino[1..k]
    {
    }
  }

  /** v0 is the volume before the call; w blocks have been written and ino is the inode in memory. */
  ghost predicate Progress(v0: Volume, r: Request, v: Volume, ino: Inode, w: nat)
    requires Typed(v0) && Writable(v0, r)
    ensures Progress(v0, r, v, ino, w) ==> |v.disk| == |v0.disk| && 1 <= w <= INT_PER_BLOCK
  {
    var start, end := Start(v0, r.i, r.pos), r.pos + r.n;
    && |v.disk| == |v0.disk| && Coherent(v.disk, v.free) && 1 <= w <= INT_PER_BLOCK
    // pointers: the first is kept, the next ones are blocks that were free, the others are kept
    && ino[0] == InodeOf(v0, r.i)[0]
    && (forall k :: w <= k < INT_PER_BLOCK ==> ino[k] == InodeOf(v0, r.i)[k])
    && (forall k :: 1 <= k < w ==> IsData(ino[k]) && IsFree(v0.free, ino[k]))
    && (forall k, l :: 1 <= k < l < w ==> ino[k] != ino[l])
    && LeastFirst(v0.free, ino, w)
    // exactly those blocks have been taken
    && (forall m :: 0 <= m < BLOCKS ==> (IsFree(v.free, m) <==> IsFree(v0.free, m) && m !in ino[1..w]))
    // no other block has changed
    && (forall b :: BLOCK_FOR_FREELIST <= b < |v.disk| && b != r.i && b !in ino[..w] ==> v.disk[b] == v0.disk[b])
    // contents
    && (forall k :: 0 <= k < w ==> Holds(v.disk[ino[k]], k, start, end, r.buf))
    && v.disk[ino[0]][..start] == v0.disk[ino[0]][..start]
    && (r.pos != 0 && end < CHAR_PER_BLOCK ==> v.disk[ino[0]][end..] == v0.disk[ino[0]][end..])
  }

  /** The inode on disk records the w blocks. */
  ghost predicate Recorded(v0: Volume, r: Request, v: Volume, w: nat)
    requires Typed(v0) && Writable(v0, r)
  {
    |v.disk| == |v0.disk| && Progress(v0, r, v, InodeOf(v, r.i), w)
  }

  /** The result of Write: all blocks, or all but the last when the disk is full. */
  ghost predicate Wrote(v0: Volume, r: Request, v: Volume, w: nat)
    requires Typed(v0) && Writable(v0, r)
  {
    Recorded(v0, r, v, w) && w == BlocksWritten(v0, r)
  }

  function BlocksWritten(v0: Volume, r: Request): nat
    requires r.n >= 1
  {
    var need := BlocksNeeded(r.pos, r.n);
    if need - 1 <= |FreeBlocks(v0.free)| then need else need - 1
  }

  /** The number of bytes copied into w blocks. */
  function Copied(v0: Volume, r: Request, w: nat): int
    requires Typed(v0) && Writable(v0, r)
  {
    (if r.pos + r.n <= CHAR_PER_BLOCK * w then r.pos + r.n else CHAR_PER_BLOCK * w) - Start(v0, r.i, r.pos)
  }

  lemma FirstBlockWritten(v: Volume, r: Request, block: Block)
    requires Valid(v) && Writable(v, r)
    requires var start, end := Start(v, r.i, r.pos), r.pos + r.n;
      && Holds(block, 0, start, end, r.buf)
      && block[..start] == v.disk[InodeOf(v, r.i)[0]][..start]
      && (r.pos != 0 && end < CHAR_PER_BLOCK ==> block[end..] == v.disk[InodeOf(v, r.i)[0]][end..])
    ensures var v' := v.(disk := v.disk[InodeOf(v, r.i)[0] := block]);
      Recorded(v, r, v', 1) && InodeOf(v', r.i) == InodeOf(v, r.i)
  {
    var ino := InodeOf(v, r.i);
    assert ino[..1] == [ino[0]] && ino[1..1] == [];
  }

  lemma NextBlockWritten(v0: Volume, r: Request, v: Volume, ino: Inode, w: nat, block: Block)
    requires Valid(v0) && Writable(v0, r) && Progress(v0, r, v, ino, w)
    requires w < INT_PER_BLOCK && NextBlock(v) != -1
    requires Holds(block, w, Start(v0, r.i, r.pos), r.pos + r.n, r.buf)
    ensures var b := NextBlock(v);
      var v1 := Allocate(v, b);
      Progress(v0, r, v1.(disk := v1.disk[b := block]), ino[w := b], w + 1)
  {
    hide LongsIn, Start, Holds, IsFree, MarkUsed, Part, LeastFirst;
    var b := NextBlock(v);
    LeastFreeIsLeast(v.free, FIRST_DATA, BLOCKS);
    MarkUsedClearsOne(v.free, b);
    assert Points(v0, r.i, 0) && Pointer(v0, r.i, 0) == ino[0];
    assert b != ino[0] && b !in ino[1..w];
    var ino' := ino[w := b];
    assert ino'[1..w + 1] == ino[1..w] + [b] && ino'[..w + 1] == ino[..w] + [b];
    forall k | 0 <= k < w
      ensures ino'[k] == ino[k] != b
    {
      assert k == 0 || ino[k] == ino[1..w][k - 1];
    }
    TakesNext(v0.free, v.free, ino, w, b);
  }

  lemma InodeWritten(v0: Volume, r: Request, v: Volume, ino: Inode, w: nat)
    requires Valid(v0) && Writable(v0, r) && Progress(v0, r, v, ino, w)
    ensures var v' := v.(disk := v.disk[r.i := LongBytes(ino)]);
      Progress(v0, r, v', ino, w) && InodeOf(v', r.i) == ino
  {
    LongsRoundTrip(ino);
    hide LongsIn, LongBytes, Start, Holds, IsFree, Part;
    assert IsInode(r.i);
  }
}
