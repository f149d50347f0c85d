/** Blocks that nobody can give back: Write takes a fresh block for every slot after the first, even when
    the slot already has one, so writing a file again loses its old blocks. */
module LostBlocks {
  import opened Disk
  import opened FreeList
  import opened Volume
  import opened FileTheorems
  import opened FileRuns

  ghost predicate Referenced(v: Volume, b: int)
    requires Typed(v)
  {
    exists j, k :: Points(v, j, k) && Pointer(v, j, k) == b
  }

  /** Data blocks that are marked used although no file points to them. */
  ghost function Lost(v: Volume): set<int>
    requires Typed(v)
  {
    set b: int | FIRST_DATA <= b < BLOCKS && !IsFree(v.free, b) && !Referenced(v, b)
  }

  function Min(a: nat, b: nat): nat { if a < b then a else b }

  /** The blocks that a write of w blocks takes out of the inode. */
  ghost function Replaced(v: Volume, i: nat, w: nat): set<int>
    requires Typed(v) && IsInode(i)
  {
    set k | 1 <= k < Min(w, Blocks(v, i)) :: InodeOf(v, i)[k]
  }

  // ---- One write ----

  lemma ReplacedCount(v: Volume, i: nat, w: nat)
    requires Valid(v) && Live(v, i) && InodeOf(v, i)[0] != NONE && w >= 1
    ensures Blocks(v, i) >= 1 && |Replaced(v, i, w)| == Min(w, Blocks(v, i)) - 1
    ensures forall b :: b in Replaced(v, i, w) ==> IsData(b) && !IsFree(v.free, b) && Referenced(v, b)
    ensures forall k :: 1 <= k < w && Points(v, i, k) ==> Pointer(v, i, k) in Replaced(v, i, w)
  {
    hide LongsIn, Extent, Coherent;
    assert Points(v, i, 0);
    var ino, m := InodeOf(v, i), Min(w, Blocks(v, i));
    var s := ino[1..m];
    assert forall k :: 0 <= k < m ==> Points(v, i, k) && Pointer(v, i, k) == ino[k];
    DistinctCount(s);
    assert Replaced(v, i, w) == set k | 0 <= k < |s| :: s[k];
  }

  lemma ReplacedIsUnreferenced(v0: Volume, r: Request, v: Volume, w: nat, b: int)
    requires Valid(v0) && Writable(v0, r) && Recorded(v0, r, v, w) && b in Replaced(v0, r.i, w)
    ensures !Referenced(v, b)
  {
    WritePointers(v0, r, v, w);
    ReplacedCount(v0, r.i, w);
    hide LongsIn, Recorded, Coherent, Extent, IsFree;
    var l :| 1 <= l < Min(w, Blocks(v0, r.i)) && InodeOf(v0, r.i)[l] == b;
    assert Points(v0, r.i, l);
  }

  lemma ReferencesAfterWrite(v0: Volume, r: Request, v: Volume, w: nat, b: int)
    requires Valid(v0) && Writable(v0, r) && Recorded(v0, r, v, w) && IsData(b) && !IsFree(v0.free, b)
    requires b !in Replaced(v0, r.i, w)
    ensures Referenced(v, b) <==> Referenced(v0, b)
  {
    WritePointers(v0, r, v, w);
    ReplacedCount(v0, r.i, w);
    hide LongsIn, Recorded, Valid, Extent, IsFree, Replaced;
  }

  lemma LostByWrite(v0: Volume, r: Request, v: Volume, w: nat, b: int)
    requires Valid(v0) && Writable(v0, r) && Recorded(v0, r, v, w) && IsData(b)
    ensures b in Lost(v) <==> b in Lost(v0) || b in Replaced(v0, r.i, w)
  {
    WriteBits(v0, r, v, w);
    ReplacedCount(v0, r.i, w);
    if b in Replaced(v0, r.i, w) {
      ReplacedIsUnreferenced(v0, r, v, w, b);
      WrittenSlots(v0, r, v, InodeOf(v, r.i), w);
    } else if !IsFree(v0.free, b) {
      ReferencesAfterWrite(v0, r, v, w, b);
      WrittenSlots(v0, r, v, InodeOf(v, r.i), w);
    } else if !IsFree(v.free, b) {
      WriteKeepsOtherInodes(v0, r, v, w, r.i);
      var k :| 1 <= k < w && InodeOf(v, r.i)[k] == b;
      assert Points(v, r.i, k);
    }
  }

  /** A write loses exactly the blocks after the first that it replaces, one for each slot that it
      writes and that was in use. */
  lemma WriteLoses(v0: Volume, r: Request, v: Volume, w: nat)
    requires Valid(v0) && Writable(v0, r) && Recorded(v0, r, v, w)
    ensures Valid(v) && Lost(v) == Lost(v0) + Replaced(v0, r.i, w) && Lost(v0) !! Replaced(v0, r.i, w)
    ensures Blocks(v0, r.i) >= 1 && w >= 1 && |Lost(v)| == |Lost(v0)| + Min(w, Blocks(v0, r.i)) - 1
  {
    WriteKeepsValid(v0, r, v, w);
    forall b | IsData(b)
      ensures b in Lost(v) <==> b in Lost(v0) || b in Replaced(v0, r.i, w)
    {
      LostByWrite(v0, r, v, w, b);
    }
    ReplacedCount(v0, r.i, w);
    hide Valid, Writable, Recorded;
    assert Lost(v) == Lost(v0) + Replaced(v0, r.i, w);
  }

  // ---- Deletion after a write ----

  lemma SlotsAfterWrite(before: Inode, after: Inode, n: nat, w: nat, m: int)
    requires n <= INT_PER_BLOCK && 1 <= w <= INT_PER_BLOCK && m != NONE
    requires forall k :: n <= k < INT_PER_BLOCK ==> before[k] == NONE
    requires forall k, l :: 0 <= k < l < n ==> before[k] != before[l]
    requires after[0] == before[0] && forall k :: w <= k < INT_PER_BLOCK ==> after[k] == before[k]
    ensures m in after <==>
      m in after[1..w] || (m in before && forall k :: 1 <= k < Min(w, n) ==> before[k] != m)
  {
    if k :| 1 <= k < w && after[k] == m {
      assert after[1..w][k - 1] == m;
    }
  }

  lemma DeletedBit(v0: Volume, r: Request, v: Volume, w: nat, m: nat)
    requires Valid(v0) && Writable(v0, r) && Recorded(v0, r, v, w) && m < BLOCKS
    ensures IsFree(v.free, m) || m == r.i || m in InodeOf(v, r.i) <==>
      (IsFree(v0.free, m) || m == r.i || m in InodeOf(v0, r.i)) && m !in Replaced(v0, r.i, w)
  {
    WriteBits(v0, r, v, w);
    ReplacedCount(v0, r.i, w);
    WrittenSlots(v0, r, v, InodeOf(v, r.i), w);
    SlotsAreOrdered(v0, r.i);
    hide LongsIn, Recorded, Valid, Extent, IsFree;
    SlotsAfterWrite(InodeOf(v0, r.i), InodeOf(v, r.i), Blocks(v0, r.i), w, m);
  }

  lemma SlotsAreOrdered(v: Volume, i: nat)
    requires Valid(v) && Live(v, i)
    ensures forall k :: Blocks(v, i) <= k < INT_PER_BLOCK ==> InodeOf(v, i)[k] == NONE
    ensures forall k, l :: 0 <= k < l < Blocks(v, i) ==> InodeOf(v, i)[k] != InodeOf(v, i)[l]
  {
    hide LongsIn, Extent, IsFree, Coherent;
    assert forall k :: 0 <= k < INT_PER_BLOCK && InodeOf(v, i)[k] != NONE ==> Points(v, i, k);
  }

  /** Deleting the file after a write gives the free list that deleting it before would have given,
      exactly when the write stayed within one block or the file had only one. */
  lemma DeleteReclaimsIff(v0: Volume, r: Request, v: Volume, w: nat)
    requires Valid(v0) && Writable(v0, r) && Recorded(v0, r, v, w)
    ensures Valid(v) && Live(v, r.i) && OnDisk(InodeOf(v0, r.i)) && OnDisk(InodeOf(v, r.i))
    ensures Delete(v, r.i).free == Delete(v0, r.i).free <==> w == 1 || Blocks(v0, r.i) <= 1
  {
    WriteKeepsValid(v0, r, v, w);
    WriteKeepsOtherInodes(v0, r, v, w, r.i);
    DeleteFacts(v0, r.i);
    DeleteFacts(v, r.i);
    WriteBits(v0, r, v, w);
    ReplacedCount(v0, r.i, w);
    ReplacedAreSlots(v0, r.i, w);
    hide LongsIn, Recorded, Valid, Extent, IsFree, Delete, Coherent;
    forall m | 0 <= m < BLOCKS
      ensures IsFree(Delete(v, r.i).free, m) <==> IsFree(Delete(v0, r.i).free, m) && m !in Replaced(v0, r.i, w)
    {
      DeletedBit(v0, r, v, w, m);
    }
    if w == 1 || Blocks(v0, r.i) <= 1 {
      SameFreeBlocks(Delete(v, r.i).free, Delete(v0, r.i).free);
    } else {
      assert InodeOf(v0, r.i)[1] in Replaced(v0, r.i, w);
    }
  }

  lemma ReplacedAreSlots(v: Volume, i: nat, w: nat)
    requires Typed(v) && IsInode(i)
    ensures forall b :: b in Replaced(v, i, w) ==> b in InodeOf(v, i)
  {
    hide LongsIn, Extent;
  }

  // ---- The other operations ----

  lemma CreateLosesNothing(v: Volume)
    requires Valid(v) && NextInode(v) != -1
    ensures Valid(Create(v)) && Lost(Create(v)) == Lost(v)
  {
    CreateFacts(v);
    CreateKeepsValid(v);
    CreateKeepsPointers(v);
    hide LongsIn, Create, Extent, Coherent, NextInode, IsFree, Valid;
    var i, v' := NextInode(v), Create(v);
    forall b | IsData(b)
      ensures b in Lost(v') <==> b in Lost(v)
    {
      if b == InodeOf(v', i)[0] {
        assert Points(v', i, 0);
      } else {
        forall j, k | Points(v, j, k) && Pointer(v, j, k) == b
          ensures Points(v', j, k) && Pointer(v', j, k) == b
        {
        }
      }
    }
    assert Lost(v') == Lost(v);
  }

  lemma DeleteLosesNothing(v: Volume, i: nat)
    requires Valid(v) && Live(v, i)
    ensures OnDisk(InodeOf(v, i)) && Valid(Delete(v, i)) && Lost(Delete(v, i)) == Lost(v)
  {
    DeleteFacts(v, i);
    DeleteKeepsValid(v, i);
    hide LongsIn, Delete, Extent, Coherent, IsFree;
    var v' := Delete(v, i);
    forall b | IsData(b)
      ensures b in Lost(v') <==> b in Lost(v)
    {
      if b in InodeOf(v, i) {
        var k :| 0 <= k < INT_PER_BLOCK && InodeOf(v, i)[k] == b;
        assert Points(v, i, k);
      }
      forall j, k | Points(v, j, k) && Pointer(v, j, k) == b && j != i
        ensures Points(v', j, k) && Pointer(v', j, k) == b
      {
      }
    }
    assert Lost(v') == Lost(v);
  }

  // ---- Runs ----

  /** The number of blocks that an event loses. */
  function Losses(v: Volume, e: Event): nat {
    match e
    case WriteFile(r) =>
      if Typed(v) && Writable(v, r) && Blocks(v, r.i) >= 1 && BlocksWritten(v, r) >= 1
      then Min(BlocksWritten(v, r), Blocks(v, r.i)) - 1
      else 0
    case _ => 0
  }

  function TotalLosses(vs: seq<Volume>, es: seq<Event>): nat
    requires |vs| == |es| + 1
    decreases |es|
  {
    if es == [] then 0 else Losses(vs[0], es[0]) + TotalLosses(vs[1..], es[1..])
  }

  lemma StepLoses(v: Volume, e: Event, v': Volume)
    requires Valid(v) && Step(v, e, v')
    ensures Valid(v') && |Lost(v')| == |Lost(v)| + Losses(v, e)
  {
    StepKeepsValid(v, e, v');
    hide Create, Delete, Decoded, LongsIn, Extent, IsFree, Lost, Valid;
    match e {
      case CreateFile => CreateLosesNothing(v);
      case WriteFile(r) =>
        if InodeOf(v, r.i)[0] != NONE {
          var w :| Wrote(v, r, v', w);
          WriteLoses(v, r, v', w);
        }
      case DeleteFile(i) => DeleteLosesNothing(v, i);
      case Remount => MountReproduces(v.disk, v.free);
    }
  }

  lemma {:induction false} RunLoses(vs: seq<Volume>, es: seq<Event>)
    requires Run(vs, es)
    ensures Valid(vs[|es|]) && |Lost(vs[|es|])| == |Lost(vs[0])| + TotalLosses(vs, es)
    decreases |es|
  {
    hide Step, Valid, Lost, Losses;
    if es != [] {
      StepLoses(vs[0], es[0], vs[1]);
      RunLoses(vs[1..], es[1..]);
    }
  }

  // ---- Accounting ----

  /** All slots of live files that hold a pointer. */
  ghost function Slots(v: Volume): set<(int, int)>
    requires Typed(v)
  {
    set i: int, k: int | INODE_OFFSET <= i < FIRST_DATA && 0 <= k < INT_PER_BLOCK && Points(v, i, k) :: (i, k)
  }

  ghost function Targets(v: Volume, s: set<(int, int)>): set<int>
    requires Typed(v) && s <= Slots(v)
  {
    set p | p in s :: Pointer(v, p.0, p.1)
  }

  lemma {:induction false} TargetCount(v: Volume, s: set<(int, int)>)
    requires Valid(v) && s <= Slots(v)
    ensures |Targets(v, s)| == |s|
    decreases s
  {
    hide Points, Blocks, Coherent, IsFree;
    if p :| p in s {
      var rest, b := s - {p}, Pointer(v, p.0, p.1);
      TargetCount(v, rest);
      assert b !in Targets(v, rest);
      assert Targets(v, s) == Targets(v, rest) + {b};
    }
  }

  /** The numbers in [lo, hi). */
  function Between(lo: int, hi: int): (s: set<int>)
    requires lo <= hi
    ensures forall b :: b in s <==> lo <= b < hi
    ensures |s| == hi - lo
    decreases hi - lo
  {
    if lo == hi then {} else Between(lo, hi - 1) + {hi - 1}
  }

  lemma TargetsAreUsed(v: Volume)
    requires Valid(v)
    ensures forall b :: b in Targets(v, Slots(v)) <==> IsData(b) && Referenced(v, b)
    ensures forall b :: b in Targets(v, Slots(v)) ==> !IsFree(v.free, b)
  {
    hide Blocks, Coherent, IsFree, InodeOf;
    forall b | IsData(b) && Referenced(v, b)
      ensures b in Targets(v, Slots(v))
    {
      var j, k :| Points(v, j, k) && Pointer(v, j, k) == b;
      assert (j, k) in Slots(v);
    }
  }

  lemma Partition(a: set<int>, b: set<int>, c: set<int>, lo: int, hi: int)
    requires lo <= hi && a !! b !! c
    requires forall x :: x in a || x in b || x in c <==> lo <= x < hi
    ensures |a| + |b| + |c| == hi - lo
  {
    assert |a + b| == |a| + |b|;
    assert a + b + c == Between(lo, hi);
  }

  lemma BlocksArePartitioned(v: Volume)
    requires Valid(v)
    ensures |FreeBlocks(v.free)| + |Slots(v)| + |Lost(v)| == BLOCKS - FIRST_DATA
  {
    TargetsAreUsed(v);
    TargetCount(v, Slots(v));
    hide Valid, Targets, Slots, Referenced, IsFree;
    Partition(FreeBlocks(v.free), Targets(v, Slots(v)), Lost(v), FIRST_DATA, BLOCKS);
  }

  /** In every run from a fresh format, each of the 20315 data blocks is free, in one slot of one live
      file, or among the blocks that writes have replaced. */
  lemma BlocksAreAccountedFor(vs: seq<Volume>, es: seq<Event>)
    requires Run(vs, es) && Formatted(vs[0])
    ensures Valid(vs[|es|])
    ensures |FreeBlocks(vs[|es|].free)| + |Slots(vs[|es|])| + TotalLosses(vs, es) == 20315
  {
    RunLoses(vs, es);
    BlocksArePartitioned(vs[|es|]);
    hide TotalLosses, Valid, Slots, Run, IsFree;
    assert Lost(vs[0]) == {};
  }
}
