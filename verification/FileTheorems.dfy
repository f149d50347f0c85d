/** What the file system promises: ownership, isolation, files keep what is written, and deletion gives
    back the blocks that the inode names. */
module FileTheorems {
  import opened Disk
  import opened Bits
  import opened FreeList
  import opened Volume

  // ---- Writing ----

  lemma WriteKeepsOtherInodes(v0: Volume, r: Request, v: Volume, w: nat, j: int)
    requires Valid(v0) && Writable(v0, r) && Recorded(v0, r, v, w)
    requires IsInode(j)
    ensures Live(v, j) <==> Live(v0, j)
    ensures j != r.i ==> v.disk[j] == v0.disk[j]
  {
    hide LongsIn, Start, Holds, Part;
    var ino := InodeOf(v, r.i);
    assert forall k :: 0 <= k < w ==> IsData(ino[k]);
    assert j !in ino[..w];
    assert j !in ino[1..w];
  }

  /** Write keeps the invariant: every pointer of a live file is an in-use data block of its own. */
  lemma WriteKeepsValid(v0: Volume, r: Request, v: Volume, w: nat)
    requires Valid(v0) && Writable(v0, r) && Recorded(v0, r, v, w)
    ensures Valid(v)
  {
    hide LongsIn, Start, Holds, Part, Flushed, Extent;
    var ino := InodeOf(v, r.i);
    forall n | 0 <= n < INODE_OFFSET
      ensures !IsFree(v.free, n)
    {
    }
    WritePointers(v0, r, v, w);
    forall j, k | Points(v, j, k)
      ensures !IsFree(v.free, Pointer(v, j, k))
    {
      if j == r.i && 1 <= k < w {
        assert ino[1..w][k - 1] == ino[k];
      }
    }
  }

  /** A slot of the written file among the blocks after the first holds a block that was free; every
      other slot of a live file is as it was. */
  lemma WritePointers(v0: Volume, r: Request, v: Volume, w: nat)
    requires Valid(v0) && Writable(v0, r) && Recorded(v0, r, v, w)
    ensures forall j, k :: Points(v, j, k) ==> k < Blocks(v, j) && IsData(Pointer(v, j, k))
    ensures forall j, k :: Points(v, j, k) && j == r.i && 1 <= k < w ==> IsFree(v0.free, Pointer(v, j, k))
    ensures forall j, k :: Points(v, j, k) && !(j == r.i && 1 <= k < w) ==>
      Points(v0, j, k) && Pointer(v0, j, k) == Pointer(v, j, k) && !IsFree(v0.free, Pointer(v, j, k))
    ensures forall j, k :: Points(v0, j, k) && !(j == r.i && 1 <= k < w) ==>
      Points(v, j, k) && Pointer(v, j, k) == Pointer(v0, j, k)
  {
    hide LongsIn, Start, Holds, Part, Flushed, Extent;
    forall j | IsInode(j)
      ensures Live(v, j) <==> Live(v0, j)
      ensures j != r.i ==> InodeOf(v, j) == InodeOf(v0, j)
    {
      WriteKeepsOtherInodes(v0, r, v, w, j);
    }
    WriteExtends(v0, r, v, w);
    forall j, k | Points(v, j, k)
      ensures j == r.i && 1 <= k < w ==> IsData(Pointer(v, j, k)) && IsFree(v0.free, Pointer(v, j, k))
      ensures !(j == r.i && 1 <= k < w) ==> Points(v0, j, k) && Pointer(v0, j, k) == Pointer(v, j, k)
      ensures k < Blocks(v, j)
    {
      if !(j == r.i && 1 <= k < w) {
        assert Points(v0, j, k);
      }
    }
  }

  /** Isolation: the other live files read the same. */
  lemma WriteIsIsolated(v0: Volume, r: Request, v: Volume, w: nat, j: int)
    requires Valid(v0) && Writable(v0, r) && Recorded(v0, r, v, w)
    requires Live(v0, j) && j != r.i
    ensures Valid(v) && Live(v, j) && Content(v, j) == Content(v0, j)
  {
    WriteKeepsValid(v0, r, v, w);
    WriteKeepsOtherInodes(v0, r, v, w, j);
    WriteKeepsOtherBlocks(v0, r, v, w, j);
    hide LongsIn, Start, Holds, Part;
    SameContent(v0, v, j);
  }

  lemma WriteKeepsOtherBlocks(v0: Volume, r: Request, v: Volume, w: nat, j: int)
    requires Valid(v0) && Writable(v0, r) && Recorded(v0, r, v, w)
    requires Live(v0, j) && j != r.i
    ensures forall k :: Points(v0, j, k) ==> v.disk[Pointer(v0, j, k)] == v0.disk[Pointer(v0, j, k)]
  {
    hide LongsIn, Start, Holds, Part, Flushed, Extent;
    var ino := InodeOf(v, r.i);
    forall k | Points(v0, j, k)
      ensures v.disk[Pointer(v0, j, k)] == v0.disk[Pointer(v0, j, k)]
    {
      var b := Pointer(v0, j, k);
      assert Points(v0, r.i, 0);
      assert b != ino[0] && b !in ino[1..w];
      assert ino[..w] == [ino[0]] + ino[1..w];
      assert b !in ino[..w];
    }
  }

  lemma ExtentIs(ino: Inode, n: nat)
    requires n <= INT_PER_BLOCK && (forall l :: 0 <= l < n ==> ino[l] != NONE) && (n < INT_PER_BLOCK ==> ino[n] == NONE)
    ensures Extent(ino, 0) == n
  {
    var e := Extent(ino, 0);
  }

  function Max(a: nat, b: nat): nat { if a < b then b else a }

  lemma WriteExtends(v0: Volume, r: Request, v: Volume, w: nat)
    requires Valid(v0) && Writable(v0, r) && Recorded(v0, r, v, w)
    ensures Blocks(v, r.i) == Max(w, Blocks(v0, r.i))
    ensures forall k :: Blocks(v, r.i) <= k < INT_PER_BLOCK ==> InodeOf(v, r.i)[k] == NONE
  {
    hide LongsIn, Start, Holds, Part, Flushed, Extent;
    var before, after := InodeOf(v0, r.i), InodeOf(v, r.i);
    var n := Max(w, Blocks(v0, r.i));
    forall k | Blocks(v0, r.i) <= k < INT_PER_BLOCK
      ensures before[k] == NONE
    {
      assert !Points(v0, r.i, k);
    }
    ExtentIs(after, n);
  }

  /** What the written file reads afterwards: the bytes before the start are kept, the buffer follows,
      and whole blocks beyond those written are kept, as is the rest of the first block after a short
      write that does not start at position 0. */
  lemma WrittenContent(v0: Volume, r: Request, v: Volume, w: nat)
    requires Valid(v0) && Writable(v0, r) && Recorded(v0, r, v, w)
    ensures Valid(v) && Live(v, r.i)
    ensures |Content(v, r.i)| == CHAR_PER_BLOCK * Max(w, Blocks(v0, r.i))
    ensures var start := Start(v0, r.i, r.pos);
      && 0 <= Copied(v0, r, w) <= |r.buf|
      && Content(v, r.i)[start..start + Copied(v0, r, w)] == r.buf[..Copied(v0, r, w)]
      && Content(v, r.i)[..start] == Content(v0, r.i)[..start]
    ensures forall q :: CHAR_PER_BLOCK * w <= q < |Content(v0, r.i)| ==> Content(v, r.i)[q] == Content(v0, r.i)[q]
    ensures r.pos != 0 ==> forall q :: r.pos + r.n <= q < CHAR_PER_BLOCK ==> Content(v, r.i)[q] == Content(v0, r.i)[q]
  {
    WriteKeepsValid(v0, r, v, w);
    WriteKeepsOtherInodes(v0, r, v, w, r.i);
    WriteExtends(v0, r, v, w);
    assert Points(v0, r.i, 0);
    if r.pos != 0 {
      TailKept(v0, r, v, w);
    }
    PrefixKept(v0, r, v, w);
    KeptBytes(v0, r, v, w);
    WrittenSlice(v0, r, v, w);
  }

  lemma WrittenSlice(v0: Volume, r: Request, v: Volume, w: nat)
    requires Valid(v0) && Writable(v0, r) && Recorded(v0, r, v, w)
    requires Valid(v) && Live(v, r.i) && w <= Blocks(v, r.i)
    ensures var start := Start(v0, r.i, r.pos);
      && 0 <= Copied(v0, r, w) <= |r.buf| && start + Copied(v0, r, w) <= |Content(v, r.i)|
      && Content(v, r.i)[start..start + Copied(v0, r, w)] == r.buf[..Copied(v0, r, w)]
  {
    hide LongsIn, Part, Flushed, Extent, Start, IsFree, Holds, ByteAt;
    var start, copied := Start(v0, r.i, r.pos), Copied(v0, r, w);
    assert start + copied <= CHAR_PER_BLOCK * w;
    forall q | start <= q < start + copied
      ensures Content(v, r.i)[q] == r.buf[q - start]
    {
      WrittenByte(v0, r, v, w, q);
    }
  }

  lemma WrittenByte(v0: Volume, r: Request, v: Volume, w: nat, q: nat)
    requires Valid(v0) && Writable(v0, r) && Recorded(v0, r, v, w)
    requires Valid(v) && Live(v, r.i) && w <= Blocks(v, r.i)
    requires Start(v0, r.i, r.pos) <= q < r.pos + r.n && q < CHAR_PER_BLOCK * w
    ensures ByteAt(v, r.i, q) == r.buf[q - Start(v0, r.i, r.pos)]
  {
    hide LongsIn, Part, Flushed, Extent, Start, IsFree;
    var start, k, c := Start(v0, r.i, r.pos), q / CHAR_PER_BLOCK, q % CHAR_PER_BLOCK;
    assert q == CHAR_PER_BLOCK * k + c && k < w;
    var block := v.disk[InodeOf(v, r.i)[k]];
    assert Holds(block, k, start, r.pos + r.n, r.buf);
    assert block[c] == r.buf[CHAR_PER_BLOCK * k + c - start];
  }

  lemma PrefixKept(v0: Volume, r: Request, v: Volume, w: nat)
    requires Valid(v0) && Writable(v0, r) && Recorded(v0, r, v, w)
    requires Valid(v) && Live(v, r.i) && 1 <= Blocks(v, r.i) && 1 <= Blocks(v0, r.i)
    ensures Content(v, r.i)[..Start(v0, r.i, r.pos)] == Content(v0, r.i)[..Start(v0, r.i, r.pos)]
  {
    hide LongsIn, Part, Flushed, Extent, Start, IsFree, Holds;
    var start, b := Start(v0, r.i, r.pos), InodeOf(v0, r.i)[0];
    forall q | 0 <= q < start
      ensures ByteAt(v, r.i, q) == ByteAt(v0, r.i, q)
    {
      assert v.disk[b][..start][q] == v0.disk[b][..start][q];
    }
  }

  lemma TailKept(v0: Volume, r: Request, v: Volume, w: nat)
    requires Valid(v0) && Writable(v0, r) && Recorded(v0, r, v, w) && r.pos != 0
    requires Valid(v) && Live(v, r.i) && 1 <= Blocks(v, r.i) && 1 <= Blocks(v0, r.i)
    ensures forall q :: r.pos + r.n <= q < CHAR_PER_BLOCK ==> Content(v, r.i)[q] == Content(v0, r.i)[q]
  {
    hide LongsIn, Part, Flushed, Extent, Start, IsFree, Holds;
    var end, b := r.pos + r.n, InodeOf(v0, r.i)[0];
    forall q | end <= q < CHAR_PER_BLOCK
      ensures ByteAt(v, r.i, q) == ByteAt(v0, r.i, q)
    {
      assert v.disk[b][end..][q - end] == v0.disk[b][end..][q - end];
    }
  }

  lemma KeptBytes(v0: Volume, r: Request, v: Volume, w: nat)
    requires Valid(v0) && Writable(v0, r) && Recorded(v0, r, v, w)
    requires Valid(v) && Live(v, r.i) && Blocks(v, r.i) == Max(w, Blocks(v0, r.i))
    ensures forall q :: CHAR_PER_BLOCK * w <= q < |Content(v0, r.i)| ==> Content(v, r.i)[q] == Content(v0, r.i)[q]
  {
    hide LongsIn, Part, Flushed, Extent, Start, Holds;
    var ino := InodeOf(v, r.i);
    forall q | CHAR_PER_BLOCK * w <= q < |Content(v0, r.i)|
      ensures ByteAt(v, r.i, q) == ByteAt(v0, r.i, q)
    {
      var k := q / CHAR_PER_BLOCK;
      assert k >= w;
      assert Points(v0, r.i, k) && Points(v0, r.i, 0) && Pointer(v0, r.i, k) == ino[k];
      assert ino[k] != ino[0] && ino[k] !in ino[1..w];
      assert ino[..w] == [ino[0]] + ino[1..w];
      assert ino[k] !in ino[..w];
    }
  }

  // ---- Reading ----

  /** How many bytes Read(n) returns at a position inside the first block. */
  function ReadCount(v: Volume, i: nat, pos: nat, n: nat): (count: nat)
    requires Typed(v) && IsInode(i) && pos < CHAR_PER_BLOCK
  {
    if Blocks(v, i) == 0 then 0
    else if pos + n <= CHAR_PER_BLOCK * Blocks(v, i) then n
    else CHAR_PER_BLOCK * Blocks(v, i) - pos
  }

  /** Files keep what is written: after a Write of n bytes from position 0 that found the blocks it
      needs, a Read of n bytes from position 0 returns n bytes, and they are those of the buffer. */
  lemma ReadReturnsWhatWasWritten(v0: Volume, i: nat, n: nat, buf: seq<Byte>, v: Volume, w: nat)
    requires Valid(v0) && Writable(v0, Request(i, 0, n, buf)) && Wrote(v0, Request(i, 0, n, buf), v, w)
    requires BlocksNeeded(0, n) - 1 <= |FreeBlocks(v0.free)|
    ensures Copied(v0, Request(i, 0, n, buf), w) == n
    ensures Valid(v) && Live(v, i) && ReadCount(v, i, 0, n) == n
    ensures n <= |Content(v, i)| && Content(v, i)[..n] == buf[..n]
  {
    var r := Request(i, 0, n, buf);
    WrittenContent(v0, r, v, w);
    WriteExtends(v0, r, v, w);
    assert Start(v0, i, 0) == 0;
    assert n <= CHAR_PER_BLOCK * w;
  }

  // ---- Creating ----

  lemma AllocateFacts(v: Volume, n: nat)
    requires Typed(v) && n < BLOCKS
    ensures forall m :: 0 <= m < BLOCKS ==> (IsFree(Allocate(v, n).free, m) <==> IsFree(v.free, m) && m != n)
    ensures FreeBlocks(Allocate(v, n).free) == FreeBlocks(v.free) - {n}
  {
    MarkUsedClearsOne(v.free, n);
    hide IsFree, MarkUsed, Part;
  }

  lemma NextBlockIsFree(v: Volume)
    requires Typed(v)
    ensures if NextBlock(v) == -1 then FreeBlocks(v.free) == {} else NextBlock(v) in FreeBlocks(v.free)
    ensures NextBlock(v) != -1 ==> forall m :: FIRST_DATA <= m < NextBlock(v) ==> !IsFree(v.free, m)
  {
    LeastFreeIsLeast(v.free, FIRST_DATA, BLOCKS);
    hide IsFree;
  }

  /** get_inode returns the least free inode number, get_block the least free data block. */
  lemma CreateFacts(v: Volume)
    requires Valid(v) && NextInode(v) != -1
    ensures var i, v' := NextInode(v), Create(v);
      var b := InodeOf(v', i)[0];
      && IsInode(i) && IsFree(v.free, i) && (forall m :: 0 <= m < i ==> !IsFree(v.free, m))
      && InodeOf(v', i) == FreshInode(b)
      && (b == NONE || (IsData(b) && IsFree(v.free, b) && forall m :: FIRST_DATA <= m < b ==> !IsFree(v.free, m)))
      && (b == NONE <==> FreeBlocks(v.free) == {})
      && (forall m :: 0 <= m < BLOCKS ==> (IsFree(v'.free, m) <==> IsFree(v.free, m) && m != i && m != b))
      && Coherent(v'.disk, v'.free) && |v'.disk| == |v.disk|
      && (forall k :: BLOCK_FOR_FREELIST <= k < |v.disk| && k != i ==> v'.disk[k] == v.disk[k])
  {
    hide LongsIn, LongBytes, IsFree, MarkUsed, Part, LeastFree, Allocate;
    var i := NextInode(v);
    LeastFreeIsLeast(v.free, 0, FIRST_DATA);
    var v1 := Allocate(v, i);
    AllocateFacts(v, i);
    var b := NextBlock(v1);
    NextBlockIsFree(v1);
    if b != -1 {
      AllocateFacts(v1, b);
    }
    LongsRoundTrip(FreshInode(b));
    var v2 := AllocateIf(v1, b);
    assert Create(v) == v2.(disk := v2.disk[i := LongBytes(FreshInode(b))]);
  }

  /** The new file has one block, or none on a full disk; the other inodes stand. */
  lemma CreateInodes(v: Volume)
    requires Valid(v) && NextInode(v) != -1
    ensures Typed(Create(v)) && Live(Create(v), NextInode(v))
    ensures Blocks(Create(v), NextInode(v)) == if FreeBlocks(v.free) == {} then 0 else 1
    ensures forall j :: IsInode(j) && j != NextInode(v) ==>
      (Live(Create(v), j) <==> Live(v, j)) && InodeOf(Create(v), j) == InodeOf(v, j)
  {
    CreateFacts(v);
    hide LongsIn, Create, Extent, Part, NextInode, IsFree, Valid, Coherent;
    var i, v' := NextInode(v), Create(v);
    ExtentIs(InodeOf(v', i), if InodeOf(v', i)[0] == NONE then 0 else 1);
  }

  lemma CreateKeepsValid(v: Volume)
    requires Valid(v) && NextInode(v) != -1
    ensures Valid(Create(v)) && Live(Create(v), NextInode(v))
    ensures Blocks(Create(v), NextInode(v)) == if FreeBlocks(v.free) == {} then 0 else 1
    ensures forall j :: IsInode(j) && j != NextInode(v) ==>
      (Live(Create(v), j) <==> Live(v, j)) && InodeOf(Create(v), j) == InodeOf(v, j)
  {
    CreateFacts(v);
    CreateInodes(v);
    CreateKeepsPointers(v);
    CreateKeepsDistinct(v);
    hide LongsIn, Create, Extent, Coherent, NextInode, IsFree, FreeBlocks;
    var i, v' := NextInode(v), Create(v);
    forall j, k | Points(v', j, k)
      ensures k < Blocks(v', j) && IsData(Pointer(v', j, k)) && !IsFree(v'.free, Pointer(v', j, k))
    {
      if j == i {
        assert InodeOf(v', i)[0] != NONE;
      } else {
        assert Points(v, j, k);
      }
    }
  }

  lemma CreateKeepsDistinct(v: Volume)
    requires Valid(v) && NextInode(v) != -1
    ensures Typed(Create(v))
    ensures forall j, k, l, m ::
      (Points(Create(v), j, k) && Points(Create(v), l, m) && Pointer(Create(v), j, k) == Pointer(Create(v), l, m)) ==>
        j == l && k == m
  {
    CreateKeepsPointers(v);
    hide LongsIn, Create, Extent, Coherent, NextInode, IsFree, InodeOf;
  }

  lemma CreateKeepsPointers(v: Volume)
    requires Valid(v) && NextInode(v) != -1
    ensures Typed(Create(v))
    ensures forall j, k :: Points(Create(v), j, k) ==>
      var b := Pointer(Create(v), j, k);
      if j == NextInode(v) then k == 0 && IsData(b) && IsFree(v.free, b) && !IsFree(Create(v).free, b)
      else Points(v, j, k) && Pointer(v, j, k) == b && !IsFree(Create(v).free, b)
  {
    CreateFacts(v);
    hide LongsIn, Create, Extent, Part, NextInode, IsFree;
    var i, v' := NextInode(v), Create(v);
    forall j, k | Points(v', j, k)
      ensures j == i ==> k == 0 && IsData(Pointer(v', j, k)) && IsFree(v.free, Pointer(v', j, k))
      ensures j != i ==> Points(v, j, k) && Pointer(v, j, k) == Pointer(v', j, k)
      ensures !IsFree(v'.free, Pointer(v', j, k))
    {
      assert j != i ==> Points(v, j, k);
    }
  }

  /** A file whose inode and blocks are the same on two volumes reads the same. */
  lemma SameContent(v: Volume, v': Volume, j: nat)
    requires Valid(v) && Valid(v') && Live(v, j) && Live(v', j)
    requires InodeOf(v', j) == InodeOf(v, j) && |v'.disk| == |v.disk|
    requires forall k :: Points(v, j, k) ==> v'.disk[Pointer(v, j, k)] == v.disk[Pointer(v, j, k)]
    ensures Content(v', j) == Content(v, j)
  {
    hide LongsIn, Extent, IsFree;
    forall q | 0 <= q < CHAR_PER_BLOCK * Blocks(v, j)
      ensures ByteAt(v', j, q) == ByteAt(v, j, q)
    {
      assert Points(v, j, q / CHAR_PER_BLOCK);
    }
  }

  lemma CreateIsIsolated(v: Volume, j: nat)
    requires Valid(v) && NextInode(v) != -1 && Live(v, j)
    ensures Valid(Create(v)) && Live(Create(v), j) && Content(Create(v), j) == Content(v, j)
  {
    CreateFacts(v);
    CreateKeepsValid(v);
    hide LongsIn, Create;
    SameContent(v, Create(v), j);
  }

  // ---- Deleting ----

  lemma {:induction false} FreeSlotsFacts(v: Volume, ino: Inode, n: nat)
    requires Typed(v) && Coherent(v.disk, v.free) && n <= INT_PER_BLOCK
    requires forall k :: 0 <= k < INT_PER_BLOCK ==> ino[k] == NONE || IsData(ino[k])
    ensures OnDisk(ino)
    ensures var v' := FreeSlots(v, ino, n);
      && Coherent(v'.disk, v'.free)
      && (forall m :: 0 <= m < BLOCKS ==> (IsFree(v'.free, m) <==> IsFree(v.free, m) || m in ino[..n]))
      && (forall b :: BLOCK_FOR_FREELIST <= b < |v.disk| ==> v'.disk[b] == v.disk[b])
  {
    if n > 0 {
      FreeSlotsFacts(v, ino, n - 1);
      hide IsFree, MarkFree, Part, Coherent;
      assert ino[..n] == ino[..n - 1] + [ino[n - 1]];
      if ino[n - 1] != NONE {
        MarkFreeSetsOne(FreeSlots(v, ino, n - 1).free, ino[n - 1]);
      }
    }
  }

  lemma DeleteFacts(v: Volume, i: nat)
    requires Valid(v) && Live(v, i)
    ensures OnDisk(InodeOf(v, i))
    ensures var v' := Delete(v, i);
      && Coherent(v'.disk, v'.free) && |v'.disk| == |v.disk|
      && (forall m :: 0 <= m < BLOCKS ==> (IsFree(v'.free, m) <==> IsFree(v.free, m) || m == i || m in InodeOf(v, i)))
      && (forall b :: BLOCK_FOR_FREELIST <= b < |v.disk| ==> v'.disk[b] == v.disk[b])
  {
    var ino := InodeOf(v, i);
    forall k | 0 <= k < INT_PER_BLOCK
      ensures ino[k] == NONE || IsData(ino[k])
    {
      assert ino[k] != NONE ==> Points(v, i, k);
    }
    FreeSlotsFacts(v, ino, INT_PER_BLOCK);
    MarkFreeSetsOne(FreeSlots(v, ino, INT_PER_BLOCK).free, i);
    assert ino[..INT_PER_BLOCK] == ino;
    hide LongsIn, IsFree, MarkFree, FreeSlots, Part;
  }

  lemma SlotsAreData(v: Volume, i: nat)
    requires Valid(v) && Live(v, i)
    ensures forall m :: m in InodeOf(v, i) ==> m == NONE || IsData(m)
  {
    hide LongsIn, Extent, IsFree, Part;
    var ino := InodeOf(v, i);
    assert forall k :: 0 <= k < INT_PER_BLOCK && ino[k] != NONE ==> Points(v, i, k);
  }

  lemma PointerIsNotOf(v: Volume, i: nat, j: int, k: int)
    requires Valid(v) && Live(v, i) && Points(v, j, k) && j != i
    ensures Pointer(v, j, k) !in InodeOf(v, i)
  {
    hide LongsIn, Extent, IsFree, Part;
    var ino := InodeOf(v, i);
    forall l | 0 <= l < INT_PER_BLOCK
      ensures ino[l] != Pointer(v, j, k)
    {
      assert ino[l] != NONE ==> Points(v, i, l);
    }
  }

  lemma DeleteKeepsValid(v: Volume, i: nat)
    requires Valid(v) && Live(v, i)
    ensures OnDisk(InodeOf(v, i)) && Valid(Delete(v, i)) && !Live(Delete(v, i), i)
    ensures forall j :: IsInode(j) && j != i ==>
      (Live(Delete(v, i), j) <==> Live(v, j)) && InodeOf(Delete(v, i), j) == InodeOf(v, j)
  {
    DeleteFacts(v, i);
    hide LongsIn, Delete, Extent, Part, Bit;
    var v' := Delete(v, i);
    SlotsAreData(v, i);
    forall j, k | Points(v', j, k)
      ensures j != i && Points(v, j, k) && Pointer(v, j, k) == Pointer(v', j, k)
      ensures !IsFree(v'.free, Pointer(v', j, k))
    {
      PointerIsNotOf(v, i, j, k);
    }
  }

  lemma DeleteIsIsolated(v: Volume, i: nat, j: nat)
    requires Valid(v) && Live(v, i) && Live(v, j) && j != i
    ensures OnDisk(InodeOf(v, i)) && Valid(Delete(v, i)) && Live(Delete(v, i), j)
    ensures Content(Delete(v, i), j) == Content(v, j)
  {
    DeleteFacts(v, i);
    DeleteKeepsValid(v, i);
    hide LongsIn, Delete;
    SameContent(v, Delete(v, i), j);
  }

  /** When Write reports n bytes.  With blocks to spare, exactly when the byte before the position is
      not NUL: after a NUL it copies one byte more, from the position of the NUL on.  Without a block
      for the last part, only when that extra byte makes up for the one byte left over. */
  lemma WriteReturnsIff(v0: Volume, r: Request, v: Volume, w: nat)
    requires Valid(v0) && Writable(v0, r) && Wrote(v0, r, v, w)
    ensures var nul := r.pos != 0 && v0.disk[InodeOf(v0, r.i)[0]][r.pos - 1] == 0;
      var enough := BlocksNeeded(r.pos, r.n) - 1 <= |FreeBlocks(v0.free)|;
      && (Copied(v0, r, w) == r.n <==> if enough then !nul else nul && (r.pos + r.n) % CHAR_PER_BLOCK == 1)
      && Start(v0, r.i, r.pos) == (if nul then r.pos - 1 else r.pos)
      && (enough && nul ==> Copied(v0, r, w) == r.n + 1)
      && (!enough ==> Copied(v0, r, w) == CHAR_PER_BLOCK * w - Start(v0, r.i, r.pos) <= r.n)
  {
    LastBlock(r.pos, r.n);
    hide Valid, LongsIn, Recorded, FreeBlocks, BlocksNeeded;
  }

  /** The last byte is in the last block needed, alone exactly when the count leaves remainder 1. */
  lemma LastBlock(pos: nat, n: nat)
    requires n >= 1
    ensures var need := BlocksNeeded(pos, n);
      && CHAR_PER_BLOCK * (need - 1) < pos + n <= CHAR_PER_BLOCK * need
      && ((pos + n) % CHAR_PER_BLOCK == 1 <==> pos + n == CHAR_PER_BLOCK * (need - 1) + 1)
  {
  }
}
