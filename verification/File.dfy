/** class File of file_system.C: reading and writing across blocks. */
module File {
  import opened Disk
  import opened FreeList
  import opened Volume
  import opened FileTheorems
  import opened FileRuns
  import opened LostBlocks
  import FS = FileSystem

  /** Block k of a file, inside its content. */
  lemma BlockOfContent(v: Volume, i: nat, k: nat)
    requires Valid(v) && Live(v, i) && k < Blocks(v, i)
    ensures Points(v, i, k) && IsData(Pointer(v, i, k))
    ensures v.disk[Pointer(v, i, k)] == Content(v, i)[CHAR_PER_BLOCK * k..CHAR_PER_BLOCK * (k + 1)]
  {
    hide LongsIn, Extent;
    var block, slice := v.disk[Pointer(v, i, k)], Content(v, i)[CHAR_PER_BLOCK * k..CHAR_PER_BLOCK * (k + 1)];
    forall c | 0 <= c < CHAR_PER_BLOCK
      ensures block[c] == slice[c]
    {
      var q := CHAR_PER_BLOCK * k + c;
      assert q / CHAR_PER_BLOCK == k && q % CHAR_PER_BLOCK == c;
      assert slice[c] == Content(v, i)[q] == ByteAt(v, i, q);
    }
  }

  /** Block `index` continues what was read up to it. */
  lemma SliceGrows(s: seq<Byte>, pos: nat, index: nat, count: nat)
    requires 1 <= index && pos < CHAR_PER_BLOCK && count <= CHAR_PER_BLOCK && CHAR_PER_BLOCK * (index + 1) <= |s|
    ensures var from := CHAR_PER_BLOCK * index;
      s[pos..from + count] == s[pos..from] + s[from..CHAR_PER_BLOCK * (index + 1)][..count]
  {
  }

  /** buf[runner..] := tmp[from..to]. */
  method CopyOut(tmp: Block, from: nat, to: nat, buf: array<Byte>, runner: nat) returns (r: nat)
    requires from <= to <= CHAR_PER_BLOCK && runner + (to - from) <= buf.Length
    modifies buf
    ensures r == runner + (to - from)
    ensures buf[..r] == old(buf[..runner]) + tmp[from..to] && buf[r..] == old(buf[r..])
  {
    ghost var before, after := buf[..runner], buf[runner + (to - from)..];
    r := runner;
    var i := from;
    while i < to
      invariant from <= i <= to && r == runner + (i - from)
      invariant buf[..r] == before + tmp[from..i] && buf[runner + (to - from)..] == after
    {
      buf[r] := tmp[i];
      r := r + 1;
      i := i + 1;
    }
  }

  /** Continue what was delivered, up to the start of a block, with the first bytes of that block. */
  method CopyBlock(tmp: Block, count: nat, buf: array<Byte>, at: nat,
                   ghost content: seq<Byte>, ghost pos: nat, ghost index: nat)
    returns (runner: nat)
    requires 1 <= index && pos < CHAR_PER_BLOCK && CHAR_PER_BLOCK * (index + 1) <= |content|
    requires tmp == content[CHAR_PER_BLOCK * index..CHAR_PER_BLOCK * (index + 1)]
    requires count <= CHAR_PER_BLOCK && at + count <= buf.Length && pos + at == CHAR_PER_BLOCK * index
    requires buf[..at] == content[pos..pos + at]
    modifies buf
    ensures runner == at + count && pos + runner <= |content| && buf[..runner] == content[pos..pos + runner]
    ensures buf[runner..] == old(buf[runner..])
  {
    SliceGrows(content, pos, index, count);
    runner := CopyOut(tmp, 0, count, buf, at);
    assert tmp[0..count] == tmp[..count];
  }

  /** tmp[from..to] := buf[runner..]. */
  method Fill(tmp: array<Byte>, from: nat, to: nat, buf: seq<Byte>, runner: nat) returns (r: nat)
    requires tmp.Length == CHAR_PER_BLOCK && from <= to <= CHAR_PER_BLOCK && runner + (to - from) <= |buf|
    modifies tmp
    ensures r == runner + (to - from)
    ensures forall c :: 0 <= c < CHAR_PER_BLOCK ==>
      tmp[c] == if from <= c < to then buf[runner + c - from] else old(tmp[c])
  {
    r := runner;
    var i := from;
    while i < to
      invariant from <= i <= to && r == runner + (i - from)
      invariant forall c :: 0 <= c < CHAR_PER_BLOCK ==>
        tmp[c] == if from <= c < i then buf[runner + c - from] else old(tmp[c])
    {
      tmp[i] := buf[r];
      r := r + 1;
      i := i + 1;
    }
  }

  class File {
    const fs: FS.FileSystem
    const fileId: nat
    var currentPos: nat
    var size: nat

    ghost function Number(): nat { fileId + INODE_OFFSET }

    ghost predicate Open()
      reads this, fs, fs.freeList, fs.disk.blocks
    {
      fs.Ready() && fileId < TOTAL_INODE && Valid(fs.Vol()) && Live(fs.Vol(), Number())
    }

    /** Create a file.  There must be a free inode. */
    constructor (system: FS.FileSystem)
      requires system.Ready() && Valid(system.Vol()) && NextInode(system.Vol()) != -1
      modifies system.freeList, system.disk.blocks
      ensures fs == system && Number() == NextInode(old(system.Vol())) && currentPos == 0 && size == 0
      ensures Open() && fs.Vol() == Create(old(system.Vol()))
    {
      ghost var v := system.Vol();
      CreateFacts(v);
      CreateKeepsValid(v);
      hide Create;
      var inode := system.GetInode();
      fs := system;
      fileId := inode - INODE_OFFSET;
      currentPos, size := 0, 0;
      new;
      system.CreateFile(fileId);
      assert fs.Vol() == Create(v) by {
        CreateIs(v, fs.Vol());
      }
    }

    method Reset()
      modifies `currentPos
      ensures currentPos == 0
    {
      currentPos := 0;
    }

    /** The first runner bytes of buf are those of the file from pos on. */
    ghost predicate Delivered(pos: nat, runner: nat, buf: array<Byte>)
      reads this, fs, fs.freeList, fs.disk.blocks, buf
      requires Open()
    {
      && runner <= buf.Length && pos + runner <= |Content(fs.Vol(), Number())|
      && buf[..runner] == Content(fs.Vol(), Number())[pos..pos + runner]
    }

    /** Blocks 0..index have been read in full, from position pos on. */
    ghost predicate HasRead(pos: nat, index: nat, runner: nat, buf: array<Byte>)
      reads this, fs, fs.freeList, fs.disk.blocks, buf
      requires Open() && pos < CHAR_PER_BLOCK
    {
      && index < Blocks(fs.Vol(), Number()) && runner == CHAR_PER_BLOCK * (index + 1) - pos
      && Delivered(pos, runner, buf)
    }

    /** Where block `index` is. */
    lemma BlockToRead(inode: Inode, index: nat)
      requires Open() && inode == InodeOf(fs.Vol(), Number()) && index < Blocks(fs.Vol(), Number())
      ensures 0 <= inode[index] < fs.disk.blocks.Length
      ensures CHAR_PER_BLOCK * (index + 1) <= |Content(fs.Vol(), Number())|
      ensures fs.disk.blocks[inode[index]] ==
        Content(fs.Vol(), Number())[CHAR_PER_BLOCK * index..CHAR_PER_BLOCK * (index + 1)]
    {
      BlockOfContent(fs.Vol(), Number(), index);
      hide LongsIn, Valid, Extent;
      assert inode[index] == Pointer(fs.Vol(), Number(), index);
    }

    /** Append the first `count` bytes of block `index` to buf. */
    method ReadBlock(inode: Inode, index: nat, count: nat, buf: array<Byte>, at: nat, ghost pos: nat)
      returns (runner: nat)
      requires Open() && inode == InodeOf(fs.Vol(), Number()) && pos < CHAR_PER_BLOCK
      requires 1 <= index < Blocks(fs.Vol(), Number()) && HasRead(pos, index - 1, at, buf)
      requires count <= CHAR_PER_BLOCK && at + count <= buf.Length
      modifies buf
      ensures runner == at + count && buf[runner..] == old(buf[runner..])
      ensures Delivered(pos, runner, buf)
    {
      BlockToRead(inode, index);
      ghost var content := Content(fs.Vol(), Number());
      hide Open, Content, InodeOf, Blocks;
      var tmp := fs.disk.Read(inode[index]);
      runner := CopyBlock(tmp, count, buf, at, content, pos, index);
    }

    /** The blocks strictly between the first and the last; stops early at an empty slot. */
    method ReadMiddle(inode: Inode, needed: nat, buf: array<Byte>, at: nat, ghost pos: nat)
      returns (index: nat, runner: nat, ended: bool)
      requires Open() && inode == InodeOf(fs.Vol(), Number()) && pos < CHAR_PER_BLOCK
      requires 2 <= needed <= INT_PER_BLOCK && HasRead(pos, 0, at, buf)
      requires CHAR_PER_BLOCK * (needed - 1) - pos <= buf.Length
      modifies buf
      ensures HasRead(pos, index, runner, buf)
      ensures if ended then index + 1 == Blocks(fs.Vol(), Number()) < needed - 1 else index == needed - 2
      ensures buf[runner..] == old(buf[runner..])
    {
      hide LongsIn, Content, Valid, Live, Delivered;
      index, runner, ended := 0, at, false;
      var k := 0;
      while k < needed - 2
        invariant 0 <= k <= needed - 2 && index == k
        invariant HasRead(pos, index, runner, buf)
        invariant buf[runner..] == old(buf[..])[runner..]
      {
        if inode[index + 1] == -1 {
          ended := true;
          return;
        }
        index := index + 1;
        runner := ReadBlock(inode, index, CHAR_PER_BLOCK, buf, runner, pos);
        k := k + 1;
      }
    }

    /** Bytes pos..stop-1 of the first block. */
    method ReadFirst(inode: Inode, pos: nat, stop: nat, buf: array<Byte>) returns (runner: nat)
      requires Open() && inode == InodeOf(fs.Vol(), Number()) && 1 <= Blocks(fs.Vol(), Number())
      requires pos < stop <= CHAR_PER_BLOCK && stop - pos <= buf.Length
      modifies buf
      ensures runner == stop - pos && Delivered(pos, runner, buf)
      ensures buf[runner..] == old(buf[runner..])
    {
      BlockToRead(inode, 0);
      ghost var content := Content(fs.Vol(), Number());
      hide Open, Content, InodeOf, Blocks;
      var tmp := fs.disk.Read(inode[0]);
      runner := CopyOut(tmp, pos, stop, buf, 0);
      assert buf[..runner] == tmp[pos..stop];
      assert content[pos..stop] == tmp[pos..stop];
    }

    /** How far a read that ends at byte endPos can go. */
    ghost function ReadEnd(endPos: nat): nat
      reads this, fs, fs.freeList, fs.disk.blocks
      requires Open()
    {
      var end := CHAR_PER_BLOCK * Blocks(fs.Vol(), Number());
      if endPos + 1 <= end then endPos + 1 else end
    }

    /** Everything after the first block. */
    method ReadRest(inode: Inode, needed: nat, endPos: nat, buf: array<Byte>, at: nat, ghost pos: nat)
      returns (runner: nat)
      requires Open() && inode == InodeOf(fs.Vol(), Number()) && pos < CHAR_PER_BLOCK
      requires needed == endPos / CHAR_PER_BLOCK + 1 && 2 <= needed <= INT_PER_BLOCK && endPos + 1 - pos <= buf.Length
      requires HasRead(pos, 0, at, buf)
      modifies buf
      ensures runner == ReadEnd(endPos) - pos && Delivered(pos, runner, buf)
      ensures buf[runner..] == old(buf[runner..])
    {
      hide LongsIn, Content, Valid, Live, Delivered;
      var index, ended;
      index, runner, ended := ReadMiddle(inode, needed, buf, at, pos);
      if !ended && inode[index + 1] != -1 {
        index := index + 1;
        runner := ReadBlock(inode, index, endPos % CHAR_PER_BLOCK + 1, buf, runner, pos);
      }
    }

    /** Read up to n bytes from the current position into buf. */
    method Read(n: nat, buf: array<Byte>) returns (runner: nat)
      requires Open() && currentPos < CHAR_PER_BLOCK && 1 <= n && currentPos + n <= 65536 && n <= buf.Length
      modifies `currentPos, buf
      ensures runner == ReadCount(fs.Vol(), Number(), old(currentPos), n) && currentPos == old(currentPos) + runner
      // what is left of the file, n bytes at most
      ensures var left := |Content(fs.Vol(), Number())| - old(currentPos);
        runner == if left <= 0 then 0 else if left < n then left else n
      ensures runner > 0 ==> buf[..runner] == Content(fs.Vol(), Number())[old(currentPos)..old(currentPos) + runner]
      ensures buf[runner..] == old(buf[runner..])
    {
      hide LongsIn, Content, Valid, Live;
      ghost var pos := currentPos;
      var block := fs.disk.Read(fileId + INODE_OFFSET);
      var inode := LongsIn(block);
      var index := currentPos / CHAR_PER_BLOCK;
      var endPos := currentPos + n - 1;
      var needed := endPos / CHAR_PER_BLOCK - index + 1;
      var stop := if needed > 1 then CHAR_PER_BLOCK else endPos + 1;
      runner := 0;
      if inode[index] == -1 {
        return;
      }
      runner := ReadFirst(inode, currentPos, stop, buf);
      if needed > 1 {
        runner := ReadRest(inode, needed, endPos, buf, runner, pos);
      }
      currentPos := currentPos + runner;
    }

    // ---- Write ----

    /** tmp arrives uninitialised, and is filled from disk unless the position is 0. */
    method PrepareFirst(tmp: array<Byte>, inode: Inode, ghost r: Request) returns (start: nat)
      requires Open() && inode == InodeOf(fs.Vol(), Number()) && tmp.Length == CHAR_PER_BLOCK
      requires Writable(fs.Vol(), r) && r.i == Number() && r.pos == currentPos
      modifies tmp
      ensures start == Start(fs.Vol(), r.i, r.pos)
      ensures r.pos != 0 ==> tmp[..] == fs.disk.blocks[inode[0]]
    {
      hide Valid, LongsIn, IsFree;
      start := currentPos;
      if currentPos != 0 {
        var block := fs.disk.Read(inode[0]);
        var _ := Fill(tmp, 0, CHAR_PER_BLOCK, block, 0);
        if tmp[currentPos - 1] == 0 {
          start := start - 1;
        }
      }
    }

    /** The first block: positions start..stop-1 receive the beginning of the buffer. */
    method WriteFirst(tmp: array<Byte>, inode: Inode, stop: nat, r: Request) returns (runner: nat)
      requires Open() && inode == InodeOf(fs.Vol(), Number()) && tmp.Length == CHAR_PER_BLOCK
      requires Writable(fs.Vol(), r) && r.i == Number() && r.pos == currentPos
      requires stop == if r.pos + r.n <= CHAR_PER_BLOCK then r.pos + r.n else CHAR_PER_BLOCK
      modifies tmp, fs.disk.blocks
      ensures fs.Ready() && Recorded(old(fs.Vol()), r, fs.Vol(), 1)
      ensures InodeOf(fs.Vol(), r.i) == inode && fs.Vol().free == old(fs.Vol()).free
      ensures runner == Copied(old(fs.Vol()), r, 1)
    {
      ghost var v := fs.Vol();
      var start := PrepareFirst(tmp, inode, r);
      hide Valid, LongsIn, IsFree, Start, Extent, Progress;
      runner := Fill(tmp, start, stop, r.buf, 0);
      FirstBlockWritten(v, r, tmp[..]);
      fs.disk.Write(inode[0], tmp[..]);
    }

    /** The block just allocated, inode[w], receives the next `count` bytes.  v is the volume before
        get_block and previous the inode without the new pointer. */
    method FillNewBlock(tmp: array<Byte>, inode: Inode, w: nat, count: nat, at: nat, r: Request,
                        ghost v0: Volume, ghost v: Volume, ghost previous: Inode)
      returns (runner: nat)
      requires fs.Ready() && Valid(v0) && Writable(v0, r) && Progress(v0, r, v, previous, w)
      requires w < INT_PER_BLOCK && tmp.Length == CHAR_PER_BLOCK && NextBlock(v) != -1
      requires fs.Vol() == Allocate(v, NextBlock(v)) && inode == previous[w := NextBlock(v)]
      requires at == CHAR_PER_BLOCK * w - Start(v0, r.i, r.pos) && CHAR_PER_BLOCK * w < r.pos + r.n
      requires count ==
        if r.pos + r.n <= CHAR_PER_BLOCK * (w + 1) then r.pos + r.n - CHAR_PER_BLOCK * w else CHAR_PER_BLOCK
      modifies tmp, fs.disk.blocks
      ensures fs.Ready() && Progress(v0, r, fs.Vol(), inode, w + 1)
      ensures FreeBlocks(fs.Vol().free) == FreeBlocks(v.free) - {NextBlock(v)}
      ensures runner == Copied(v0, r, w + 1)
    {
      hide LongsIn, Start, IsFree, Valid, Progress;
      runner := Fill(tmp, 0, count, r.buf, at);
      AllocateFacts(v, NextBlock(v));
      NextBlockWritten(v0, r, v, previous, w, tmp[..]);
      fs.disk.Write(inode[w], tmp[..]);
    }

    /** The blocks strictly between the first and the last. */
    method WriteMiddle(tmp: array<Byte>, inode: Inode, needed: nat, at: nat, r: Request, ghost v0: Volume)
      returns (inode': Inode, runner: nat)
      requires fs.Ready() && Valid(v0) && Writable(v0, r) && Progress(v0, r, fs.Vol(), inode, 1)
      requires needed == BlocksNeeded(r.pos, r.n) >= 2 && tmp.Length == CHAR_PER_BLOCK
      requires at == CHAR_PER_BLOCK - Start(v0, r.i, r.pos)
      requires needed - 2 <= |FreeBlocks(fs.Vol().free)|
      modifies tmp, fs.freeList, fs.disk.blocks
      ensures fs.Ready() && Progress(v0, r, fs.Vol(), inode', needed - 1)
      ensures |FreeBlocks(fs.Vol().free)| == |FreeBlocks(old(fs.Vol()).free)| - (needed - 2)
      ensures runner == CHAR_PER_BLOCK * (needed - 1) - Start(v0, r.i, r.pos)
    {
      hide LongsIn, Start, IsFree, Valid, Progress, FreeBlocks;
      inode', runner := inode, at;
      ghost var room := |FreeBlocks(fs.Vol().free)|;
      var k := 0;
      while k < needed - 2
        invariant 0 <= k <= needed - 2
        invariant fs.Ready() && Progress(v0, r, fs.Vol(), inode', k + 1)
        invariant |FreeBlocks(fs.Vol().free)| == room - k
        invariant runner == CHAR_PER_BLOCK * (k + 1) - Start(v0, r.i, r.pos)
      {
        ghost var v, previous := fs.Vol(), inode';
        NextBlockIsFree(v);
        var newBlock := fs.GetBlock();
        inode' := inode'[k + 1 := newBlock];
        runner := FillNewBlock(tmp, inode', k + 1, CHAR_PER_BLOCK, runner, r, v0, v, previous);
        k := k + 1;
      }
    }

    /** Record the pointers on disk. */
    method WriteInode(inode: Inode, ghost r: Request, ghost v0: Volume, ghost w: nat)
      requires fs.Ready() && Valid(v0) && Writable(v0, r) && r.i == Number() && Progress(v0, r, fs.Vol(), inode, w)
      modifies fs.disk.blocks
      ensures fs.Ready() && Recorded(v0, r, fs.Vol(), w) && InodeOf(fs.Vol(), r.i) == inode
      ensures Progress(v0, r, fs.Vol(), inode, w) && fs.Vol().free == old(fs.Vol()).free
    {
      hide LongsIn, Start, IsFree, Valid, Progress;
      InodeWritten(v0, r, fs.Vol(), inode, w);
      fs.disk.Write(fileId + INODE_OFFSET, LongBytes(inode));
    }

    /** Everything after the first block.  Without a block for the last part the rest stands. */
    method WriteRest(tmp: array<Byte>, inode: Inode, needed: nat, at: nat, r: Request, ghost v0: Volume)
      returns (runner: nat)
      requires fs.Ready() && Valid(v0) && Writable(v0, r) && r.i == Number() && Recorded(v0, r, fs.Vol(), 1)
      requires inode == InodeOf(fs.Vol(), r.i) && fs.Vol().free == v0.free
      requires needed == BlocksNeeded(r.pos, r.n) >= 2 && tmp.Length == CHAR_PER_BLOCK
      requires at == CHAR_PER_BLOCK - Start(v0, r.i, r.pos)
      requires needed - 2 <= |FreeBlocks(v0.free)|
      modifies tmp, fs.freeList, fs.disk.blocks
      ensures fs.Ready()
      ensures var w := BlocksWritten(v0, r);
        Wrote(v0, r, fs.Vol(), w) && runner == Copied(v0, r, w)
    {
      hide LongsIn, Start, IsFree, Valid, Progress, FreeBlocks;
      var inode' := inode;
      runner := at;
      if needed > 2 {
        inode', runner := WriteMiddle(tmp, inode', needed, runner, r, v0);
        WriteInode(inode', r, v0, needed - 1);
      }
      ghost var v, previous := fs.Vol(), inode';
      NextBlockIsFree(v);
      var newBlock := fs.GetBlock();
      inode' := inode'[needed - 1 := newBlock];
      if inode'[needed - 1] == -1 {
        return;
      }
      var count := (r.pos + r.n - 1) % CHAR_PER_BLOCK + 1;
      runner := FillNewBlock(tmp, inode', needed - 1, count, runner, r, v0, v, previous);
      WriteInode(inode', r, v0, needed);
    }

    /** Write n bytes of buf at the current position.  The middle blocks must be available; the call
        copes with a missing last one. */
    method Write(n: nat, buf: seq<Byte>) returns (runner: nat)
      requires Open() && currentPos < CHAR_PER_BLOCK && 1 <= n && currentPos + n <= 65536
      requires InodeOf(fs.Vol(), Number())[0] != NONE ==>
        && Writable(fs.Vol(), Request(Number(), currentPos, n, buf))
        && BlocksNeeded(currentPos, n) - 2 <= |FreeBlocks(fs.Vol().free)|
      modifies this, fs.freeList, fs.disk.blocks
      ensures Open() && currentPos == old(currentPos) + runner && size == old(size) + runner
      ensures old(InodeOf(fs.Vol(), Number()))[0] == NONE ==> runner == 0 && fs.Vol() == old(fs.Vol())
      ensures old(InodeOf(fs.Vol(), Number()))[0] != NONE ==>
        var r := Request(Number(), old(currentPos), n, buf);
        var w := BlocksWritten(old(fs.Vol()), r);
        Wrote(old(fs.Vol()), r, fs.Vol(), w) && runner == Copied(old(fs.Vol()), r, w)
    {
      hide LongsIn, Start, IsFree, Progress, FreeBlocks;
      ghost var v := fs.Vol();
      var block := fs.disk.Read(fileId + INODE_OFFSET);
      var inode := LongsIn(block);
      var index := currentPos / CHAR_PER_BLOCK;
      var endPos := currentPos + n - 1;
      var needed := endPos / CHAR_PER_BLOCK - index + 1;
      var stop := if needed > 1 then CHAR_PER_BLOCK else endPos + 1;
      runner := 0;
      if inode[index] == -1 {
        return;
      }
      var tmp := new Byte[CHAR_PER_BLOCK];
      var r := Request(fileId + INODE_OFFSET, currentPos, n, buf);
      runner := WriteFirst(tmp, inode, stop, r);
      if needed > 1 {
        runner := WriteRest(tmp, inode, needed, runner, r, v);
      }
      currentPos := currentPos + runner;
      size := size + runner;
      ghost var w := BlocksWritten(v, r);
      WriteKeepsValid(v, r, fs.Vol(), w);
      WriteKeepsOtherInodes(v, r, fs.Vol(), w, r.i);
    }
  }

  /** Allocating the inode and then creating the file is Create. */
  lemma CreateIs(v: Volume, v': Volume)
    requires Typed(v) && NextInode(v) != -1
    requires var v1 := Allocate(v, NextInode(v));
      var v2 := AllocateIf(v1, NextBlock(v1));
      v' == v2.(disk := v2.disk[NextInode(v) := LongBytes(FreshInode(NextBlock(v1)))])
    ensures v' == Create(v)
  {
  }

  /** Write n bytes into a file at its start, reset, and read them back. */
  method WriteResetRead(f: File, n: nat, buf: seq<Byte>, out: array<Byte>) returns (written: nat, read: nat)
    requires f.Open() && f.currentPos == 0 && 1 <= n <= 65536 && n <= |buf| && n <= out.Length
    requires InodeOf(f.fs.Vol(), f.Number())[0] != NONE
    requires BlocksNeeded(0, n) - 1 <= |FreeBlocks(f.fs.Vol().free)|
    modifies f, f.fs.freeList, f.fs.disk.blocks, out
    ensures f.Open() && written == read == n && out[..n] == buf[..n]
  {
    hide LongsIn, IsFree, Content, ReadCount, Extent, Recorded, FreeBlocks, Coherent;
    ghost var v, i := f.fs.Vol(), f.Number();
    assert Points(v, i, 0);
    written := f.Write(n, buf);
    ReadReturnsWhatWasWritten(v, i, n, buf, f.fs.Vol(), BlocksNeeded(0, n));
    hide *;
    f.Reset();
    read := f.Read(n, out);
    assert out[..n] == Content(f.fs.Vol(), i)[0..n];
  }

  // ---- Calls that do not do what they should ----

  lemma FirstSlotIsData(v: Volume, i: nat)
    requires Valid(v) && Live(v, i) && InodeOf(v, i)[0] != NONE
    ensures IsData(InodeOf(v, i)[0])
  {
    assert Points(v, i, 0);
  }

  lemma FirstByteIs(v0: Volume, r: Request, v: Volume, w: nat)
    requires Valid(v0) && Writable(v0, r) && Recorded(v0, r, v, w) && r.pos == 0
    ensures IsData(InodeOf(v, r.i)[0]) && v.disk[InodeOf(v, r.i)[0]][0] == r.buf[0]
  {
    hide LongsIn, IsFree, Coherent;
    assert Holds(v.disk[InodeOf(v, r.i)[0]], 0, 0, r.pos + r.n, r.buf);
  }

  function NulRequest(i: nat): Request { Request(i, 0, 1, [0]) }

  function AfterNulRequest(i: nat): Request { Request(i, 1, 1, [65, 66]) }

  lemma NulIsWritable(v: Volume, i: nat)
    requires Valid(v) && Live(v, i) && InodeOf(v, i)[0] != NONE
    ensures Writable(v, NulRequest(i)) && BlocksNeeded(0, 1) == 1
  {
    FirstSlotIsData(v, i);
  }

  /** With a NUL at position 0, one byte at position 1 may be written, and the NUL goes. */
  lemma AfterNul(v: Volume, i: nat, v1: Volume)
    requires Valid(v) && Writable(v, NulRequest(i)) && Wrote(v, NulRequest(i), v1, 1) && Valid(v1) && Live(v1, i)
    ensures InodeOf(v1, i)[0] != NONE && Writable(v1, AfterNulRequest(i)) && Start(v1, i, 1) == 0
  {
    FirstByteIs(v, NulRequest(i), v1, 1);
    hide Valid, IsFree, LongsIn, Recorded;
  }

  lemma NulIsGone(v1: Volume, i: nat, v2: Volume)
    requires Valid(v1) && Writable(v1, AfterNulRequest(i)) && Start(v1, i, 1) == 0
    requires Wrote(v1, AfterNulRequest(i), v2, 1) && Valid(v2) && Live(v2, i)
    ensures Copied(v1, AfterNulRequest(i), 1) == 2
    ensures |Content(v2, i)| >= 2 && Content(v2, i)[..2] == [65, 66]
  {
    hide Valid, IsFree, LongsIn, Recorded, Content, Extent, BlocksWritten, BlocksNeeded, Start, FreeBlocks;
    WrittenContent(v1, AfterNulRequest(i), v2, 1);
    assert Content(v2, i)[0..2] == AfterNulRequest(i).buf[..2];
  }

  /** One byte written behind a NUL: the call reports two, and the NUL is gone. */
  method WriteAfterNul(f: File) returns (written: nat)
    requires f.Open() && f.currentPos == 0 && InodeOf(f.fs.Vol(), f.Number())[0] != NONE
    modifies f, f.fs.freeList, f.fs.disk.blocks
    ensures written == 2
    ensures f.Open() && |Content(f.fs.Vol(), f.Number())| >= 2 && Content(f.fs.Vol(), f.Number())[..2] == [65, 66]
  {
    ghost var v, i := f.fs.Vol(), f.Number();
    NulIsWritable(v, i);
    hide Valid, Writable, Wrote, Start, Live, InodeOf, Content, Copied;
    written := f.Write(1, [0]);
    ghost var v1 := f.fs.Vol();
    AfterNul(v, i, v1);
    written := f.Write(1, [65, 66]);
    NulIsGone(v1, i, f.fs.Vol());
  }

  /** On a full disk a write that needs a second block stops at the end of the first. */
  method WriteOnFullDisk(f: File, buf: seq<Byte>) returns (written: nat)
    requires f.Open() && f.currentPos == 0 && InodeOf(f.fs.Vol(), f.Number())[0] != NONE
    requires FreeBlocks(f.fs.Vol().free) == {} && |buf| == 513
    modifies f, f.fs.freeList, f.fs.disk.blocks
    ensures written == 512
  {
    FirstSlotIsData(f.fs.Vol(), f.Number());
    hide IsFree, Valid;
    written := f.Write(513, buf);
  }

  /** Two blocks written twice from the start: the second block of the first write is lost. */
  method WriteTwice(f: File, buf: seq<Byte>)
    requires f.Open() && f.currentPos == 0 && InodeOf(f.fs.Vol(), f.Number())[0] != NONE
    requires |buf| == 1024 && |FreeBlocks(f.fs.Vol().free)| >= 2
    modifies f, f.fs.freeList, f.fs.disk.blocks
    ensures f.Open() && |Lost(f.fs.Vol())| > |Lost(old(f.fs.Vol()))|
  {
    ghost var v, i, r := f.fs.Vol(), f.Number(), Request(f.Number(), 0, 1024, buf);
    FirstSlotIsData(v, i);
    var _ := f.Write(1024, buf);
    ghost var v1 := f.fs.Vol();
    WriteLoses(v, r, v1, 2);
    WriteTakes(v, r, v1, 2);
    WriteExtends(v, r, v1, 2);
    FirstByteIs(v, r, v1, 2);
    f.Reset();
    hide Valid, IsFree, LongsIn;
    var _ := f.Write(1024, buf);
    WriteLoses(v1, r, f.fs.Vol(), 2);
  }
}
