/** The free-frame pool: a first-fit search over one availability table shared by all pools. */
module FramePool {

  const TABLE_SIZE: nat := 8192

  /** The least available frame in [lo, hi), or 0 when there is none. */
  function FirstFree(free: seq<bool>, lo: nat, hi: nat): nat
    requires hi <= |free|
    decreases hi - lo
  {
    if hi <= lo then 0 else if free[lo] then lo else FirstFree(free, lo + 1, hi)
  }

  /** The availability table after one allocation from [lo, hi). */
  function Taken(free: seq<bool>, lo: nat, hi: nat): seq<bool>
    requires hi <= |free|
  {
    var f := FirstFree(free, lo, hi);
    if lo <= f < hi && free[f] then free[f := false] else free
  }

  function Available(free: seq<bool>, lo: nat, hi: nat): set<nat>
    requires hi <= |free|
  {
    set f: nat | lo <= f < hi && free[f]
  }

  function InUse(free: seq<bool>, lo: nat, hi: nat): set<nat>
    requires hi <= |free|
  {
    set f: nat | lo <= f < hi && !free[f]
  }

  /** First fit: the chosen frame is available and nothing below it in the pool is; frame 0 is
      returned exactly when the pool has nothing left (a pool never starts at frame 0). */
  lemma {:induction false} FirstFreeIsLeast(free: seq<bool>, lo: nat, hi: nat)
    requires 0 < lo && hi <= |free|
    ensures var f := FirstFree(free, lo, hi);
      && (f == 0 <==> Available(free, lo, hi) == {})
      && (f != 0 ==> lo <= f < hi && free[f] && forall g :: lo <= g < f ==> !free[g])
    decreases hi - lo
  {
    if lo < hi {
      if free[lo] {
        assert lo in Available(free, lo, hi);
      } else {
        FirstFreeIsLeast(free, lo + 1, hi);
        assert Available(free, lo, hi) == Available(free, lo + 1, hi);
      }
    }
  }

  /** One allocation moves exactly one frame from available to in use. */
  lemma TakenMovesOne(free: seq<bool>, lo: nat, hi: nat)
    requires 0 < lo && hi <= |free| && FirstFree(free, lo, hi) != 0
    ensures var f, free' := FirstFree(free, lo, hi), Taken(free, lo, hi);
      && f in Available(free, lo, hi)
      && Available(free', lo, hi) == Available(free, lo, hi) - {f}
      && InUse(free', lo, hi) == InUse(free, lo, hi) + {f}
      && |Available(free', lo, hi)| == |Available(free, lo, hi)| - 1
      && |InUse(free', lo, hi)| == |InUse(free, lo, hi)| + 1
  {
    FirstFreeIsLeast(free, lo, hi);
    var f, free' := FirstFree(free, lo, hi), Taken(free, lo, hi);
    assert Available(free', lo, hi) == Available(free, lo, hi) - {f};
    assert InUse(free', lo, hi) == InUse(free, lo, hi) + {f};
  }

  lemma GivenBackMovesOne(free: seq<bool>, lo: nat, hi: nat, f: nat)
    requires hi <= |free| && f in InUse(free, lo, hi)
    ensures |InUse(free[f := true], lo, hi)| == |InUse(free, lo, hi)| - 1
  {
    assert InUse(free[f := true], lo, hi) == InUse(free, lo, hi) - {f};
  }

  class FramePool {
    const indicator: array<bool>
    const startFrame: nat
    const frameCount: nat

    /** The frames this pool hands out lie in the table. */
    ghost predicate Valid() {
      indicator.Length == TABLE_SIZE && 0 < startFrame + frameCount <= TABLE_SIZE
    }

    constructor (table: array<bool>, base: nat, frames: nat, infoFrame: nat)
      requires table.Length == TABLE_SIZE && 0 < base + frames <= TABLE_SIZE
      requires base < TABLE_SIZE && infoFrame < TABLE_SIZE
      modifies table
      ensures Valid() && indicator == table && startFrame == base && frameCount == frames
      ensures table[..] == old(table[..])[(if infoFrame != 0 then infoFrame else base) := false]
    {
      indicator, startFrame, frameCount := table, base, frames;
      new;
      if infoFrame != 0 {
        indicator[infoFrame] := false;
      } else {
        indicator[startFrame] := false;
      }
    }

    method GetFrame() returns (frame: nat)
      requires Valid()
      modifies indicator
      ensures frame == FirstFree(old(indicator[..]), startFrame, startFrame + frameCount) < TABLE_SIZE
      ensures indicator[..] == Taken(old(indicator[..]), startFrame, startFrame + frameCount)
    {
      ghost var free, hi := indicator[..], startFrame + frameCount;
      var i := startFrame;
      while i <= startFrame + frameCount - 1
        invariant startFrame <= i <= hi
        invariant FirstFree(free, startFrame, hi) == FirstFree(free, i, hi)
        invariant forall g :: startFrame <= g < i ==> !free[g]
        invariant indicator[..] == free
      {
        if indicator[i] {
          indicator[i] := false;
          return i;
        }
        i := i + 1;
      }
      return 0;
    }

    method MarkInaccessible(base: nat, frames: nat)
      requires Valid() && 0 < base + frames <= TABLE_SIZE
      modifies indicator
      ensures forall f :: 0 <= f < TABLE_SIZE ==>
        indicator[f] == (old(indicator[f]) && !(base <= f < base + frames))
    {
      var i := base;
      while i <= base + frames - 1
        invariant base <= i <= base + frames
        invariant forall f :: 0 <= f < TABLE_SIZE ==> indicator[f] == (old(indicator[f]) && !(base <= f < i))
      {
        indicator[i] := false;
        i := i + 1;
      }
    }

    static method ReleaseFrame(table: array<bool>, frame: nat)
      requires table.Length == TABLE_SIZE && frame < TABLE_SIZE
      modifies table
      ensures table[..] == old(table[..])[frame := true]
    {
      table[frame] := true;
    }

    static method FrameInit(table: array<bool>)
      requires table.Length == TABLE_SIZE
      modifies table
      ensures forall f :: 0 <= f < TABLE_SIZE ==> table[f] == (512 <= f)
    {
      var i := 0;
      while i <= 511
        invariant 0 <= i <= 512
        invariant forall f :: 0 <= f < i ==> !table[f]
      {
        table[i] := false;
        i := i + 1;
      }
      i := 512;
      while i <= 8 * 1024 - 1
        invariant 512 <= i <= TABLE_SIZE
        invariant forall f :: 0 <= f < i ==> table[f] == (512 <= f)
      {
        table[i] := true;
        i := i + 1;
      }
    }
  }
}
