/** The file system over whole runs, and the life of one file. */
module FileRuns {
  import opened Disk
  import opened FreeList
  import opened Volume
  import opened FileTheorems

  /** Read and Reset change nothing on the volume, so they need no event; Remount is a fresh Mount. */
  datatype Event = CreateFile | WriteFile(r: Request) | DeleteFile(i: nat) | Remount

  ghost predicate Step(v: Volume, e: Event, v': Volume)
    requires Valid(v)
  {
    match e
    case CreateFile => NextInode(v) != -1 && v' == Create(v)
    case WriteFile(r) =>
      // a file without a first block cannot be written
      && Live(v, r.i)
      && if InodeOf(v, r.i)[0] == NONE then v' == v
         else Writable(v, r) && exists w :: Wrote(v, r, v', w)
    case DeleteFile(i) => Live(v, i) && OnDisk(InodeOf(v, i)) && v' == Delete(v, i)
    case Remount => v' == Volume(Decoded(v.disk), v.disk)
  }

  predicate Touches(e: Event, j: nat) {
    match e
    case CreateFile => false
    case WriteFile(r) => r.i == j
    case DeleteFile(i) => i == j
    case Remount => false
  }

  lemma StepKeepsValid(v: Volume, e: Event, v': Volume)
    requires Valid(v) && Step(v, e, v')
    ensures Valid(v')
    ensures forall j :: Live(v, j) && !Touches(e, j) ==> Live(v', j) && Content(v', j) == Content(v, j)
  {
    hide Create, Delete, Decoded, LongsIn, Extent, Content, Coherent, IsFree;
    match e {
      case CreateFile =>
        CreateKeepsValid(v);
        forall j | Live(v, j) ensures Live(v', j) && Content(v', j) == Content(v, j) {
          CreateIsIsolated(v, j);
        }
      case WriteFile(r) =>
        if InodeOf(v, r.i)[0] != NONE {
          var w :| Wrote(v, r, v', w);
          WriteKeepsValid(v, r, v', w);
          forall j | Live(v, j) && j != r.i ensures Live(v', j) && Content(v', j) == Content(v, j) {
            WriteIsIsolated(v, r, v', w, j);
          }
        }
      case DeleteFile(i) =>
        DeleteKeepsValid(v, i);
        forall j | Live(v, j) && j != i ensures Live(v', j) && Content(v', j) == Content(v, j) {
          DeleteIsIsolated(v, i, j);
        }
      case Remount =>
        MountReproduces(v.disk, v.free);
    }
  }

  ghost predicate Run(vs: seq<Volume>, es: seq<Event>) {
    && |vs| == |es| + 1 && Valid(vs[0])
    && forall n :: 0 <= n < |es| ==> Valid(vs[n]) ==> Step(vs[n], es[n], vs[n + 1])
  }

  /** Over any run, ownership and coherence hold, and a file that is neither written nor deleted reads
      the same at the end as at the start. */
  lemma {:induction false} RunIsSafeAndIsolated(vs: seq<Volume>, es: seq<Event>)
    requires Run(vs, es)
    ensures Valid(vs[|es|])
    ensures forall j :: Live(vs[0], j) && (forall n :: 0 <= n < |es| ==> !Touches(es[n], j)) ==>
      Live(vs[|es|], j) && Content(vs[|es|], j) == Content(vs[0], j)
    decreases |es|
  {
    hide Step, Valid, Touches, Live, Content;
    if es != [] {
      StepKeepsValid(vs[0], es[0], vs[1]);
      RunIsSafeAndIsolated(vs[1..], es[1..]);
      var rest := es[1..];
      assert forall n :: 0 <= n < |rest| ==> rest[n] == es[n + 1];
    }
  }

  /** What coherence means: after any run a fresh Mount reads back the in-memory free list. */
  lemma RemountChangesNothing(vs: seq<Volume>, es: seq<Event>)
    requires Run(vs, es)
    ensures Valid(vs[|es|]) && Decoded(vs[|es|].disk) == vs[|es|].free
  {
    RunIsSafeAndIsolated(vs, es);
    MountReproduces(vs[|es|].disk, vs[|es|].free);
  }

  // ---- Formatting ----

  /** All blocks free but the five of the free list. */
  ghost predicate Formatted(v: Volume) {
    && Coherent(v.disk, v.free)
    && forall n :: 0 <= n < BLOCKS ==> (IsFree(v.free, n) <==> BLOCK_FOR_FREELIST <= n)
  }

  lemma FormattedIsValid(v: Volume)
    requires Typed(v) && Formatted(v)
    ensures Valid(v) && forall i :: !Live(v, i)
  {
  }

  // ---- The life of one file ----

  lemma {:induction false} DistinctCount(s: seq<Long>)
    requires forall k :: 0 <= k < |s| ==> IsData(s[k])
    requires forall k, l :: 0 <= k < l < |s| ==> s[k] != s[l]
    ensures var t := set k | 0 <= k < |s| :: s[k]; |t| == |s|
  {
    if s != [] {
      var n := |s| - 1;
      DistinctCount(s[..n]);
      var t, u := set k | 0 <= k < |s| :: s[k], set k | 0 <= k < n :: s[..n][k];
      assert s[n] !in u;
      assert t == u + {s[n]};
    }
  }

  /** A new file, then one Write of n bytes from position 0. */
  ghost predicate FirstWrite(v: Volume, n: nat, buf: seq<Byte>, v2: Volume, w: nat) {
    && Valid(v) && NextInode(v) != -1 && FreeBlocks(v.free) != {}
    && IsInode(NextInode(v)) && Writable(Create(v), Request(NextInode(v), 0, n, buf))
    && Wrote(Create(v), Request(NextInode(v), 0, n, buf), v2, w)
  }

  /** The pointer part of a write. */
  lemma WrittenSlots(v0: Volume, r: Request, v: Volume, ino: Inode, w: nat)
    requires Valid(v0) && Writable(v0, r) && Progress(v0, r, v, ino, w)
    ensures ino[0] == InodeOf(v0, r.i)[0]
    ensures forall k :: 1 <= k < w ==> IsData(ino[k]) && IsFree(v0.free, ino[k])
    ensures forall k, l :: 1 <= k < l < w ==> ino[k] != ino[l]
    ensures forall k :: w <= k < INT_PER_BLOCK ==> ino[k] == InodeOf(v0, r.i)[k]
  {
    hide LongsIn, IsFree, Holds, Start, Coherent, Valid;
  }

  /** And its free-list part: exactly the blocks of slots 1..w-1 are taken. */
  lemma WriteBits(v0: Volume, r: Request, v: Volume, w: nat)
    requires Valid(v0) && Writable(v0, r) && Recorded(v0, r, v, w)
    ensures 1 <= w <= INT_PER_BLOCK
    ensures forall m :: 0 <= m < BLOCKS ==>
      (IsFree(v.free, m) <==> IsFree(v0.free, m) && m !in InodeOf(v, r.i)[1..w])
  {
    hide LongsIn, IsFree, Holds, Start, Coherent, Valid;
  }

  /** A write of w blocks takes w - 1 from the free list: one for every block after the first. */
  lemma WriteTakes(v0: Volume, r: Request, v: Volume, w: nat)
    requires Valid(v0) && Writable(v0, r) && Recorded(v0, r, v, w)
    ensures w >= 1 && |FreeBlocks(v.free)| == |FreeBlocks(v0.free)| - (w - 1)
  {
    WriteBits(v0, r, v, w);
    WrittenSlots(v0, r, v, InodeOf(v, r.i), w);
    hide Recorded, Valid, IsFree, InodeOf;
    var s := InodeOf(v, r.i)[1..w];
    DistinctCount(s);
    TakenCount(FreeBlocks(v0.free), FreeBlocks(v.free), set k | 0 <= k < |s| :: s[k]);
  }

  /** The inode then lists w data blocks that were free before. */
  lemma ListedBlocks(v: Volume, n: nat, buf: seq<Byte>, v2: Volume, w: nat)
    requires FirstWrite(v, n, buf, v2, w)
    ensures var ino := InodeOf(v2, NextInode(v));
      && 1 <= w <= INT_PER_BLOCK
      && (forall k :: 0 <= k < w ==> IsData(ino[k]) && IsFree(v.free, ino[k]))
      && (forall k, l :: 0 <= k < l < w ==> ino[k] != ino[l])
      && (forall k :: w <= k < INT_PER_BLOCK ==> ino[k] == NONE)
      && InodeOf(Create(v), NextInode(v))[0] == ino[0]
  {
    hide Create, IsFree, Coherent, Valid, NextInode, FreeBlocks, Progress, LongsIn, Holds, LeastFirst;
    CreateFacts(v);
    CreateKeepsValid(v);
    var ino := InodeOf(v2, NextInode(v));
    WrittenSlots(Create(v), Request(NextInode(v), 0, n, buf), v2, ino, w);
    hide InodeOf;
  }

  /** Exactly those blocks and the inode are missing from the free list. */
  lemma BlocksTaken(v: Volume, n: nat, buf: seq<Byte>, v2: Volume, w: nat)
    requires FirstWrite(v, n, buf, v2, w) && w <= INT_PER_BLOCK
    ensures var i := NextInode(v);
      forall m :: 0 <= m < BLOCKS ==>
        (IsFree(v2.free, m) <==> IsFree(v.free, m) && m != i && m !in InodeOf(v2, i)[..w])
  {
    CreateFacts(v);
    ListedBlocks(v, n, buf, v2, w);
    hide Create, LongsIn, IsFree, Holds, Start, Part;
    var ino := InodeOf(v2, NextInode(v));
    assert ino[..w] == [ino[0]] + ino[1..w];
  }

  lemma WrittenFileIsDeletable(v: Volume, n: nat, buf: seq<Byte>, v2: Volume, w: nat)
    requires FirstWrite(v, n, buf, v2, w)
    ensures Valid(v2) && Live(v2, NextInode(v)) && OnDisk(InodeOf(v2, NextInode(v)))
  {
    hide Create, LongsIn, IsFree, Holds, Start, Part, Progress, NextInode;
    var i, r := NextInode(v), Request(NextInode(v), 0, n, buf);
    CreateKeepsValid(v);
    WriteKeepsValid(Create(v), r, v2, w);
    WriteKeepsOtherInodes(Create(v), r, v2, w, i);
    DeleteFacts(v2, i);
  }

  /** DeleteFile then restores the free list bit for bit. */
  lemma FileLifeRestoresBitmap(v: Volume, n: nat, buf: seq<Byte>, v2: Volume, w: nat)
    requires FirstWrite(v, n, buf, v2, w)
    ensures var i := NextInode(v);
      Valid(v2) && Live(v2, i) && OnDisk(InodeOf(v2, i)) && Delete(v2, i).free == v.free
  {
    var i := NextInode(v);
    WrittenFileIsDeletable(v, n, buf, v2, w);
    DeleteFacts(v2, i);
    CreateFacts(v);
    ListedBlocks(v, n, buf, v2, w);
    BlocksTaken(v, n, buf, v2, w);
    hide Create, Delete, LongsIn, Wrote, IsFree, Valid, InodeOf, NextInode, Coherent, FreeBlocks;
    Restored(v.free, v2.free, Delete(v2, i).free, i, InodeOf(v2, i), w);
  }

  lemma Restored(f: Bitmap, g: Bitmap, h: Bitmap, i: nat, ino: Inode, w: nat)
    requires w <= INT_PER_BLOCK && i < BLOCKS && IsFree(f, i)
    requires forall k :: 0 <= k < w ==> IsData(ino[k]) && IsFree(f, ino[k])
    requires forall k :: w <= k < INT_PER_BLOCK ==> ino[k] == NONE
    requires forall m :: 0 <= m < BLOCKS ==> (IsFree(g, m) <==> IsFree(f, m) && m != i && m !in ino[..w])
    requires forall m :: 0 <= m < BLOCKS ==> (IsFree(h, m) <==> IsFree(g, m) || m == i || m in ino)
    ensures h == f
  {
    hide IsFree;
    forall m | 0 <= m < BLOCKS
      ensures IsFree(h, m) <==> IsFree(f, m)
    {
      assert m in ino <==> m in ino[..w];
      assert m in ino[..w] ==> IsFree(f, m);
    }
    SameFreeBlocks(h, f);
  }

  /** In between, one inode and max(1, ceil(n / 512)) data blocks are taken. */
  lemma BlocksTakenCount(v: Volume, n: nat, buf: seq<Byte>, v2: Volume, w: nat)
    requires FirstWrite(v, n, buf, v2, w)
    requires BlocksNeeded(0, n) - 1 <= |FreeBlocks(Create(v).free)|
    ensures w == (n + 511) / 512 >= 1
    ensures |FreeBlocks(v2.free)| == |FreeBlocks(v.free)| - w
    ensures FreeInodes(v2.free) == FreeInodes(v.free) - {NextInode(v)} && NextInode(v) in FreeInodes(v.free)
  {
    ListedBlocks(v, n, buf, v2, w);
    BlocksTaken(v, n, buf, v2, w);
    CreateFacts(v);
    hide Create, LongsIn, IsFree, Progress, Valid, InodeOf, NextInode, Coherent, FreeBlocks, FreeInodes;
    Counted(v.free, v2.free, NextInode(v), InodeOf(v2, NextInode(v))[..w]);
  }

  lemma Counted(f: Bitmap, g: Bitmap, i: nat, s: seq<Long>)
    requires IsInode(i) && IsFree(f, i)
    requires forall k :: 0 <= k < |s| ==> IsData(s[k]) && IsFree(f, s[k])
    requires forall k, l :: 0 <= k < l < |s| ==> s[k] != s[l]
    requires forall m :: 0 <= m < BLOCKS ==> (IsFree(g, m) <==> IsFree(f, m) && m != i && m !in s)
    ensures |FreeBlocks(g)| == |FreeBlocks(f)| - |s|
    ensures FreeInodes(g) == FreeInodes(f) - {i} && i in FreeInodes(f)
  {
    hide IsFree;
    DistinctCount(s);
    TakenCount(FreeBlocks(f), FreeBlocks(g), set k | 0 <= k < |s| :: s[k]);
  }

  lemma TakenCount(before: set<nat>, after: set<nat>, t: set<Long>)
    requires forall x :: x in t ==> x >= 0 && x in before
    requires forall m :: m in after <==> m in before && m !in t
    ensures |after| == |before| - |t|
    decreases t
  {
    if t == {} {
      assert after == before;
    } else {
      var x :| x in t;
      TakenCount(before, after + {x}, t - {x});
    }
  }
}
