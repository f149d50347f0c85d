/** The free list: 640 words of bits, most significant first; bit n is set while block n is free.
    Blocks 0..4 of the disk hold a copy, blocks 5..164 are inodes, the rest is data. */
module FreeList {
  import opened Words
  import opened Bits
  import opened Disk

  const INT_LENGTH: nat := 32
  const BLOCK_FOR_FREELIST: nat := 5
  const INT_FOR_FREELIST: nat := 640
  const INODE_OFFSET: nat := 5
  const TOTAL_INODE: nat := 160
  const FIRST_DATA: nat := 165
  const BLOCKS: nat := 20480

  type Bitmap = f: seq<Word> | |f| == INT_FOR_FREELIST witness seq(INT_FOR_FREELIST, _ => 0)

  predicate IsFree(f: Bitmap, n: nat)
    requires n < BLOCKS
  {
    Flag(f[n / INT_LENGTH], n % INT_LENGTH)
  }

  function MarkUsed(f: Bitmap, n: nat): Bitmap
    requires n < BLOCKS
  {
    f[n / INT_LENGTH := ClearFlag(f[n / INT_LENGTH], n % INT_LENGTH)]
  }

  function MarkFree(f: Bitmap, n: nat): Bitmap
    requires n < BLOCKS
  {
    f[n / INT_LENGTH := SetFlag(f[n / INT_LENGTH], n % INT_LENGTH)]
  }

  /** The least free number in [lo, hi), or -1. */
  function LeastFree(f: Bitmap, lo: nat, hi: nat): (r: int)
    requires hi <= BLOCKS
    ensures r == -1 || lo <= r < hi
    decreases hi - lo
  {
    if hi <= lo then -1 else if IsFree(f, lo) then lo else LeastFree(f, lo + 1, hi)
  }

  lemma {:induction false} LeastFreeIsLeast(f: Bitmap, lo: nat, hi: nat)
    requires hi <= BLOCKS
    ensures var r := LeastFree(f, lo, hi);
      if r == -1 then forall n :: lo <= n < hi ==> !IsFree(f, n)
      else IsFree(f, r) && forall n :: lo <= n < r ==> !IsFree(f, n)
    decreases hi - lo
  {
    if lo < hi && !IsFree(f, lo) {
      LeastFreeIsLeast(f, lo + 1, hi);
    }
  }

  /** r is the least free number in [lo, hi) of list f, and list f' is f without it; or r is -1, there is
      no such number and the list stands. */
  ghost predicate TakesLeast(f: Bitmap, lo: nat, hi: nat, r: int, f': Bitmap)
    requires hi <= BLOCKS
  {
    if r == -1 then f' == f && forall n :: lo <= n < hi ==> !IsFree(f, n)
    else
      && lo <= r < hi && IsFree(f, r) && (forall n :: lo <= n < r ==> !IsFree(f, n))
      && forall n :: 0 <= n < BLOCKS ==> (IsFree(f', n) <==> IsFree(f, n) && n != r)
  }

  lemma LeastIsTaken(f: Bitmap, lo: nat, hi: nat)
    requires hi <= BLOCKS
    ensures var r := LeastFree(f, lo, hi);
      TakesLeast(f, lo, hi, r, if r == -1 then f else MarkUsed(f, r))
  {
    LeastFreeIsLeast(f, lo, hi);
    if LeastFree(f, lo, hi) != -1 {
      MarkUsedClearsOne(f, LeastFree(f, lo, hi));
    }
    hide IsFree, MarkUsed;
  }

  lemma NumberParts(n: nat, m: nat)
    ensures n == m <==> n / INT_LENGTH == m / INT_LENGTH && n % INT_LENGTH == m % INT_LENGTH
  {
  }

  lemma MarkUsedClearsOne(f: Bitmap, n: nat)
    requires n < BLOCKS
    ensures forall m :: 0 <= m < BLOCKS ==> (IsFree(MarkUsed(f, n), m) <==> IsFree(f, m) && m != n)
  {
    forall m | 0 <= m < BLOCKS
      ensures IsFree(MarkUsed(f, n), m) <==> IsFree(f, m) && m != n
    {
      hide ClearFlag, Flag;
      NumberParts(n, m);
      FlagOfClear(f[n / INT_LENGTH], n % INT_LENGTH, m % INT_LENGTH);
    }
  }

  lemma MarkFreeSetsOne(f: Bitmap, n: nat)
    requires n < BLOCKS
    ensures forall m :: 0 <= m < BLOCKS ==> (IsFree(MarkFree(f, n), m) <==> IsFree(f, m) || m == n)
  {
    forall m | 0 <= m < BLOCKS
      ensures IsFree(MarkFree(f, n), m) <==> IsFree(f, m) || m == n
    {
      hide SetFlag, Flag;
      NumberParts(n, m);
      FlagOfSet(f[n / INT_LENGTH], n % INT_LENGTH, m % INT_LENGTH);
    }
  }

  /** Two bitmaps that agree on every block are the same, word for word. */
  lemma SameFreeBlocks(f: Bitmap, g: Bitmap)
    requires forall n :: 0 <= n < BLOCKS ==> (IsFree(f, n) <==> IsFree(g, n))
    ensures f == g
  {
    forall i | 0 <= i < INT_FOR_FREELIST
      ensures f[i] == g[i]
    {
      hide Flag;
      forall j | 0 <= j < 32
        ensures Flag(f[i], j) <==> Flag(g[i], j)
      {
        var n := 32 * i + j;
        assert n / INT_LENGTH == i && n % INT_LENGTH == j;
        assert IsFree(f, n) <==> IsFree(g, n);
      }
      SameFlags(f[i], g[i]);
    }
  }

  /** Freeing an allocated block undoes the allocation bit for bit. */
  lemma MarkFreeUndoes(f: Bitmap, n: nat)
    requires n < BLOCKS && IsFree(f, n)
    ensures MarkFree(MarkUsed(f, n), n) == f
  {
    hide IsFree, MarkUsed, MarkFree;
    MarkUsedClearsOne(f, n);
    MarkFreeSetsOne(MarkUsed(f, n), n);
    SameFreeBlocks(MarkFree(MarkUsed(f, n), n), f);
  }

  function FreeBlocks(f: Bitmap): set<nat> {
    set n: nat | FIRST_DATA <= n < BLOCKS && IsFree(f, n)
  }

  function FreeInodes(f: Bitmap): set<nat> {
    set n: nat | INODE_OFFSET <= n < FIRST_DATA && IsFree(f, n)
  }

  // ---- The copy on disk ----

  /** Words [128k, 128k + 128) of the list, as bytes. */
  function Part(f: Bitmap, k: nat): Block
    requires k < BLOCK_FOR_FREELIST
  {
    Bytes(f[k * INT_PER_BLOCK..(k + 1) * INT_PER_BLOCK])
  }

  /** The disk after the first n parts have been written. */
  function Flushed(disk: seq<Block>, f: Bitmap, n: nat): (d: seq<Block>)
    requires n <= BLOCK_FOR_FREELIST <= |disk|
    ensures |d| == |disk| && d[n..] == disk[n..]
    ensures forall k :: 0 <= k < n ==> d[k] == Part(f, k)
  {
    if n == 0 then disk
    else
      var d := Flushed(disk, f, n - 1)[n - 1 := Part(f, n - 1)];
      assert d[n..] == Flushed(disk, f, n - 1)[n - 1..][1..] == disk[n..];
      d
  }

  predicate Coherent(disk: seq<Block>, f: Bitmap) {
    BLOCK_FOR_FREELIST <= |disk| && forall k :: 0 <= k < BLOCK_FOR_FREELIST ==> disk[k] == Part(f, k)
  }

  /** What Mount reads. */
  function Decoded(disk: seq<Block>): Bitmap
    requires BLOCK_FOR_FREELIST <= |disk|
  {
    WordsIn(disk[0]) + WordsIn(disk[1]) + WordsIn(disk[2]) + WordsIn(disk[3]) + WordsIn(disk[4])
  }

  /** A fresh Mount of a coherent disk reproduces the free list. */
  lemma MountReproduces(disk: seq<Block>, f: Bitmap)
    requires Coherent(disk, f)
    ensures Decoded(disk) == f
  {
    hide Bytes, WordsIn;
    forall k | 0 <= k < BLOCK_FOR_FREELIST
      ensures WordsIn(disk[k]) == f[k * INT_PER_BLOCK..(k + 1) * INT_PER_BLOCK]
    {
      assert disk[k] == Part(f, k);
      WordsRoundTrip(f[k * INT_PER_BLOCK..(k + 1) * INT_PER_BLOCK]);
    }
    assert f == f[..128] + f[128..256] + f[256..384] + f[384..512] + f[512..];
  }
}
