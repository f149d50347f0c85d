/** file_system.C: the bitmap scans and the operations on whole files. */
module FileSystem {
  import opened Words
  import opened Bits
  import opened Disk
  import opened FreeList
  import opened Volume
  import opened FileRuns

  lemma FlagTestAt(f: Bitmap, i: nat, j: nat)
    requires i < INT_FOR_FREELIST && j < INT_LENGTH
    ensures 32 * i + j < BLOCKS
    ensures And(Mask(j), f[i]) != 0 <==> IsFree(f, 32 * i + j)
  {
    assert (32 * i + j) / INT_LENGTH == i && (32 * i + j) % INT_LENGTH == j;
    FlagTest(f[i], j);
  }

  lemma {:induction false} LeastFreeSplit(f: Bitmap, lo: nat, mid: nat, hi: nat)
    requires lo <= mid <= hi <= BLOCKS
    ensures LeastFree(f, lo, hi) ==
      if LeastFree(f, lo, mid) != -1 then LeastFree(f, lo, mid) else LeastFree(f, mid, hi)
    decreases mid - lo
  {
    if lo < mid && !IsFree(f, lo) {
      LeastFreeSplit(f, lo + 1, mid, hi);
    }
  }

  lemma EmptyRange(f: Bitmap, n: nat)
    requires n <= BLOCKS
    ensures LeastFree(f, n, n) == -1
  {
  }

  lemma {:induction false} AllOnes(n: nat, k: nat)
    requires k < n
    ensures Bit(Pow2(n) - 1, k)
  {
    BitOfZero(k);
    BitOfComplement(n, 0, k);
  }

  /** 0xffffffff >> 5 clears the first five flags. */
  lemma ShiftedOnes(j: nat)
    requires j < INT_LENGTH
    ensures Flag(0xffff_ffff, j) && (Flag(0xffff_ffff / 32, j) <==> 5 <= j)
  {
    Pow32();
    AllOnes(32, 31 - j);
    assert Pow2(27) == 0x800_0000;
    if 5 <= j {
      AllOnes(27, 31 - j);
    } else {
      HighBitsAreZero(27, Pow2(27) - 1, 31 - j);
    }
  }

  lemma {:induction false} HighBitsAreZero(n: nat, w: nat, k: nat)
    requires w < Pow2(n) <= Pow2(k) && n <= k
    ensures !Bit(w, k)
  {
    if n == 0 {
      BitOfZero(k);
    } else {
      HighBitsAreZero(n - 1, w / 2, k - 1);
    }
  }

  /** What Format leaves on the disk decodes to a bitmap with only the first five bits clear. */
  lemma FormattedBlocks(disk: seq<Block>, full: seq<Word>, first: seq<Word>)
    requires BLOCK_FOR_FREELIST <= |disk| && |full| == |first| == INT_PER_BLOCK
    requires forall i :: 0 <= i < INT_PER_BLOCK ==> full[i] == 0xffff_ffff
    requires first == full[0 := 0xffff_ffff / 32]
    requires disk[0] == Bytes(first) && forall k :: 1 <= k < BLOCK_FOR_FREELIST ==> disk[k] == Bytes(full)
    ensures Formatted(Volume(Decoded(disk), disk))
  {
    hide Bytes, WordsIn, Flag;
    WordsRoundTrip(first);
    WordsRoundTrip(full);
    var f := Decoded(disk);
    assert f == first + full + full + full + full;
    forall k | 0 <= k < BLOCK_FOR_FREELIST
      ensures disk[k] == Part(f, k)
    {
      assert f[k * INT_PER_BLOCK..(k + 1) * INT_PER_BLOCK] == if k == 0 then first else full;
    }
    forall n | 0 <= n < BLOCKS
      ensures IsFree(f, n) <==> BLOCK_FOR_FREELIST <= n
    {
      assert f[n / INT_LENGTH] == if n / INT_LENGTH == 0 then 0xffff_ffff / 32 else 0xffff_ffff;
      ShiftedOnes(n % INT_LENGTH);
    }
  }

  class FileSystem {
    var disk: SimpleDisk
    var size: nat
    const freeList: array<Word>

    ghost predicate Ready() reads this {
      freeList.Length == INT_FOR_FREELIST && BLOCKS <= disk.blocks.Length
    }

    ghost function Vol(): (v: Volume)
      reads this, freeList, disk.blocks
      requires Ready()
      ensures Typed(v)
    {
      Volume(freeList[..], disk.blocks[..])
    }

    constructor (d: SimpleDisk)
      ensures disk == d && fresh(freeList) && freeList.Length == INT_FOR_FREELIST
    {
      freeList := new Word[INT_FOR_FREELIST];
      disk, size := d, 0;
    }

    /** Write the whole free list through to blocks 0..4. */
    method WriteFreeList()
      requires Ready()
      modifies disk.blocks
      ensures Ready() && disk.blocks[..] == Flushed(old(disk.blocks[..]), freeList[..], BLOCK_FOR_FREELIST)
    {
      ghost var d := disk.blocks[..];
      var k := 0;
      while k < BLOCK_FOR_FREELIST
        invariant 0 <= k <= BLOCK_FOR_FREELIST
        invariant disk.blocks[..] == Flushed(d, freeList[..], k)
      {
        disk.Write(k, Bytes(freeList[k * INT_PER_BLOCK..(k + 1) * INT_PER_BLOCK]));
        assert freeList[..][k * INT_PER_BLOCK..(k + 1) * INT_PER_BLOCK]
            == freeList[k * INT_PER_BLOCK..(k + 1) * INT_PER_BLOCK];
        k := k + 1;
      }
    }

    /** Clear the bit under the searching mask, and write the list through. */
    method TakeBit(i: nat, j: nat, searcher: Word) returns (n: nat)
      requires Ready() && i < INT_FOR_FREELIST && j < INT_LENGTH && searcher == Mask(j)
      modifies freeList, disk.blocks
      ensures Ready() && n == 32 * i + j < BLOCKS && Vol() == Allocate(old(Vol()), n)
    {
      ghost var f := freeList[..];
      freeList[i] := And(freeList[i], Not(searcher));
      n := i * INT_LENGTH + j;
      assert n / INT_LENGTH == i && n % INT_LENGTH == j;
      assert freeList[..] == MarkUsed(f, n);
      WriteFreeList();
    }

    /** Scan bits from..to-1 of word i. */
    method ScanWord(i: nat, from: nat, to: nat) returns (r: int)
      requires Ready() && i < INT_FOR_FREELIST && from <= to <= INT_LENGTH && (from == 0 || from == 5)
      modifies freeList, disk.blocks
      ensures Ready()
      ensures r == LeastFree(old(freeList[..]), 32 * i + from, 32 * i + to)
      ensures Vol() == AllocateIf(old(Vol()), r)
    {
      FirstMask();
      ghost var f := freeList[..];
      var searcher: Word := if from == 0 then 0x8000_0000 else 0x8000_0000 / 32;
      var j := from;
      while j < to
        invariant from <= j <= to
        invariant j < INT_LENGTH ==> searcher == Mask(j)
        invariant LeastFree(f, 32 * i + from, 32 * i + to) == LeastFree(f, 32 * i + j, 32 * i + to)
        invariant Vol() == old(Vol())
      {
        FlagTestAt(f, i, j);
        if And(searcher, freeList[i]) != 0 {
          r := TakeBit(i, j, searcher);
          return;
        }
        if j < 31 {
          NextMask(j);
        }
        searcher := searcher / 2;
        j := j + 1;
      }
      r := -1;
    }

    /** Scan whole words from..to-1. */
    method ScanWords(from: nat, to: nat) returns (r: int)
      requires Ready() && from <= to <= INT_FOR_FREELIST
      modifies freeList, disk.blocks
      ensures Ready() && r == LeastFree(old(freeList[..]), 32 * from, 32 * to) && Vol() == AllocateIf(old(Vol()), r)
    {
      hide LeastFree;
      ghost var f := freeList[..];
      EmptyRange(f, 32 * to);
      var i := from;
      while i < to
        invariant from <= i <= to
        invariant LeastFree(f, 32 * from, 32 * to) == LeastFree(f, 32 * i, 32 * to)
        invariant Vol() == old(Vol())
      {
        LeastFreeSplit(f, 32 * i, 32 * i + 32, 32 * to);
        r := ScanWord(i, 0, INT_LENGTH);
        if r != -1 {
          return;
        }
        i := i + 1;
      }
      r := -1;
    }

    method GetInode() returns (r: int)
      requires Ready()
      modifies freeList, disk.blocks
      ensures Ready() && r == NextInode(old(Vol())) && Vol() == AllocateIf(old(Vol()), r)
      // the least free bit up to the last inode; on a valid volume the first five are never free
      ensures TakesLeast(old(freeList[..]), 0, 165, r, freeList[..])
      ensures forall b :: 5 <= b < disk.blocks.Length ==> disk.blocks[b] == old(disk.blocks[b])
    {
      hide LeastFree, TakesLeast;
      LeastIsTaken(freeList[..], 0, 165);
      LeastFreeSplit(freeList[..], 0, 160, FIRST_DATA);
      r := ScanWords(0, INODE_OFFSET);
      if r == -1 {
        r := ScanWord(INODE_OFFSET, 0, 5);  // the last five bits
      }
    }

    method GetBlock() returns (r: int)
      requires Ready()
      modifies freeList, disk.blocks
      ensures Ready() && r == NextBlock(old(Vol())) && Vol() == AllocateIf(old(Vol()), r)
      // the least free data block
      ensures TakesLeast(old(freeList[..]), 165, 20480, r, freeList[..])
      ensures forall b :: 5 <= b < disk.blocks.Length ==> disk.blocks[b] == old(disk.blocks[b])
    {
      hide LeastFree, TakesLeast;
      LeastIsTaken(freeList[..], 165, 20480);
      LeastFreeSplit(freeList[..], FIRST_DATA, 192, BLOCKS);
      r := ScanWord(INODE_OFFSET, 5, INT_LENGTH);  // the first five bits belong to inodes
      if r == -1 {
        r := ScanWords(INODE_OFFSET + 1, INT_FOR_FREELIST);
      }
    }

    /** Set bit n and write the list through. */
    method GiveBit(n: nat)
      requires Ready() && n < BLOCKS
      modifies freeList, disk.blocks
      ensures Ready() && Vol() == Release(old(Vol()), n)
      ensures forall m :: 0 <= m < BLOCKS ==> (IsFree(freeList[..], m) <==> IsFree(old(freeList[..]), m) || m == n)
    {
      ghost var f := freeList[..];
      MarkFreeSetsOne(f, n);
      hide IsFree;
      var index, offset := n / INT_LENGTH, n % INT_LENGTH;
      freeList[index] := SetFlag(freeList[index], offset);
      assert freeList[..] == MarkFree(f, n);
      WriteFreeList();
    }

    method FreeBlock(block: Long)
      requires Ready() && block < BLOCKS
      modifies freeList, disk.blocks
      ensures Ready() && Vol() == Freed(old(Vol()), block)
      ensures forall m :: 0 <= m < BLOCKS ==>
        (IsFree(freeList[..], m) <==> IsFree(old(freeList[..]), m) || (m == block && 160 <= m))
    {
      hide IsFree;
      if block == -1 || block < 160 {
        return;
      }
      GiveBit(block);
    }

    /** The argument is a file number: the inode number minus 5. */
    method FreeInode(file: Long)
      requires Ready() && -5 <= file
      modifies freeList, disk.blocks
      ensures Ready()
      ensures Vol() == if file == -1 || file >= 160 then old(Vol()) else Release(old(Vol()), file + INODE_OFFSET)
      ensures forall m :: 0 <= m < BLOCKS ==>
        (IsFree(freeList[..], m) <==> IsFree(old(freeList[..]), m) || (m == file + 5 && m != 4 && m < 165))
    {
      hide IsFree;
      if file == -1 || file >= 160 {
        return;
      }
      GiveBit(file + INODE_OFFSET);
    }

    method Mount(d: SimpleDisk) returns (ok: bool)
      requires freeList.Length == INT_FOR_FREELIST && BLOCK_FOR_FREELIST <= d.blocks.Length
      modifies this, freeList
      ensures ok <==> d.diskSize >= 165
      ensures ok ==> disk == d && size == d.diskSize && freeList[..] == Decoded(d.blocks[..])
      ensures !ok ==> disk == old(disk) && freeList[..] == old(freeList[..])
    {
      if d.diskSize < 165 {
        return false;
      }
      size := d.diskSize;
      disk := d;
      var k := 0;
      while k < BLOCK_FOR_FREELIST
        modifies freeList
        invariant 0 <= k <= BLOCK_FOR_FREELIST
        invariant freeList[..k * INT_PER_BLOCK] == Decoded(d.blocks[..])[..k * INT_PER_BLOCK]
      {
        var block := disk.Read(k);
        ReadPart(k, WordsIn(block));
        DecodedPart(d.blocks[..], k);
        k := k + 1;
      }
      assert freeList[..INT_FOR_FREELIST] == freeList[..];
      return true;
    }

    /** The bytes of one block land in 128 words of the list. */
    method ReadPart(k: nat, words: seq<Word>)
      requires freeList.Length == INT_FOR_FREELIST && k < BLOCK_FOR_FREELIST && |words| == INT_PER_BLOCK
      modifies freeList
      ensures freeList[..(k + 1) * INT_PER_BLOCK] == old(freeList[..k * INT_PER_BLOCK]) + words
    {
      ghost var before := freeList[..k * INT_PER_BLOCK];
      var i := 0;
      while i < INT_PER_BLOCK
        invariant 0 <= i <= INT_PER_BLOCK
        invariant freeList[..k * INT_PER_BLOCK + i] == before + words[..i]
      {
        freeList[k * INT_PER_BLOCK + i] := words[i];
        i := i + 1;
      }
    }

    /** DeleteFile: false when there is no such file. */
    method DeleteFile(fileId: nat) returns (ok: bool)
      requires Ready() && fileId < TOTAL_INODE
      requires Live(Vol(), fileId + INODE_OFFSET) ==> OnDisk(InodeOf(Vol(), fileId + INODE_OFFSET))
      modifies freeList, disk.blocks
      ensures Ready() && Vol() == Delete(old(Vol()), fileId + INODE_OFFSET)
      ensures ok <==> Live(old(Vol()), fileId + INODE_OFFSET)
    {
      ghost var v := Vol();
      var i := fileId + INODE_OFFSET;
      var index, offset := i / INT_LENGTH, i % INT_LENGTH;
      FlagTest(freeList[index], offset);
      if And(Mask(offset), freeList[index]) != 0 {
        return false;
      }
      var block := disk.Read(i);
      var inode := LongsIn(block);
      assert inode == InodeOf(v, i);
      var k := 0;
      while k < INT_PER_BLOCK
        invariant 0 <= k <= INT_PER_BLOCK
        invariant Ready() && Vol() == FreeSlots(v, inode, k)
      {
        FreeBlock(inode[k]);
        k := k + 1;
      }
      FreeInode(fileId);
      return true;
    }

    /** CreateFile on a fresh inode number. */
    method CreateFile(fileId: nat)
      requires Ready() && fileId < TOTAL_INODE
      modifies freeList, disk.blocks
      ensures Ready()
      ensures var v := AllocateIf(old(Vol()), NextBlock(old(Vol())));
        Vol() == v.(disk := v.disk[fileId + INODE_OFFSET := LongBytes(FreshInode(NextBlock(old(Vol()))))])
    {
      var block := GetBlock();
      var inode := seq(INT_PER_BLOCK, _ => -1);
      inode := inode[0 := block];
      assert inode == FreshInode(block);
      disk.Write(fileId + INODE_OFFSET, LongBytes(inode));
    }
  }

  lemma DecodedPart(disk: seq<Block>, k: nat)
    requires BLOCK_FOR_FREELIST <= |disk| && k < BLOCK_FOR_FREELIST
    ensures Decoded(disk)[..k * INT_PER_BLOCK] + WordsIn(disk[k]) == Decoded(disk)[..(k + 1) * INT_PER_BLOCK]
  {
    hide WordsIn;
    assert Decoded(disk)[k * INT_PER_BLOCK..(k + 1) * INT_PER_BLOCK] == WordsIn(disk[k]);
  }

  /** Format: everything is free but the list itself.  It reports failure on a disk that is too small. */
  method Format(d: SimpleDisk, size: nat) returns (ok: bool)
    requires BLOCK_FOR_FREELIST <= d.blocks.Length
    modifies d.blocks
    ensures ok <==> size >= 165
    ensures !ok ==> d.blocks[..] == old(d.blocks[..])
    ensures ok ==> Formatted(Volume(Decoded(d.blocks[..]), d.blocks[..]))
    ensures d.blocks[BLOCK_FOR_FREELIST..] == old(d.blocks[BLOCK_FOR_FREELIST..])
  {
    ghost var rest := d.blocks[BLOCK_FOR_FREELIST..];
    if size < 165 {
      return false;
    }
    var buffer: seq<Word> := seq(INT_PER_BLOCK, _ => 0xffff_ffff);
    var full := buffer;
    var k := 1;
    while k < BLOCK_FOR_FREELIST
      invariant 1 <= k <= BLOCK_FOR_FREELIST
      invariant forall b :: 1 <= b < k ==> d.blocks[b] == Bytes(full)
      invariant d.blocks[BLOCK_FOR_FREELIST..] == rest
    {
      d.Write(k, Bytes(buffer));
      k := k + 1;
    }
    buffer := buffer[0 := buffer[0] / 32];
    d.Write(0, Bytes(buffer));
    FormattedBlocks(d.blocks[..], full, buffer);
    return true;
  }

  /** Format, then Mount: a valid, empty file system. */
  method FormatAndMount(fs: FileSystem, d: SimpleDisk) returns (ok: bool)
    requires BLOCKS <= d.blocks.Length && 165 <= d.diskSize && fs.freeList.Length == INT_FOR_FREELIST
    modifies d.blocks, fs, fs.freeList
    ensures ok && fs.disk == d && fs.Ready() && Formatted(fs.Vol()) && Valid(fs.Vol())
  {
    ok := Format(d, d.diskSize);
    hide Formatted, Valid;
    ok := fs.Mount(d);
    FormattedIsValid(fs.Vol());
  }
}
