/** What the page-table code does to memory and to the frame table, as functions on values, and
    the ownership discipline that keeps it safe. */
module AddressSpace {
  import opened Words
  import opened FramePool
  import opened Mmu

  /** Physical memory, the frame of the current directory, the shared availability table and the
      bounds [lo, hi) of the process pool. */
  datatype Space = Space(mem: seq<Frame>, dir: nat, free: seq<bool>, lo: nat, hi: nat)

  predicate Typed(s: Space) {
    |s.mem| == FRAMES && s.dir < FRAMES && |s.free| == TABLE_SIZE && 0 < s.lo <= s.hi <= TABLE_SIZE
  }

  /** Entries [from, to) made not present. */
  function Blanked(f: Frame, from: nat, to: nat): (g: Frame)
    ensures forall i :: 0 <= i < ENTRIES ==> g[i] == if from <= i < to then BLANK else f[i]
  {
    seq(ENTRIES, i requires 0 <= i < ENTRIES => if from <= i < to then BLANK else f[i])
  }

  /** Entries [0, n) mapped to the frames of the same number. */
  function Identity(f: Frame, n: nat): (g: Frame)
    ensures forall i :: 0 <= i < ENTRIES ==> g[i] == if i < n then Entry(i) else f[i]
  {
    seq(ENTRIES, i requires 0 <= i < ENTRIES => if i < n then Entry(i) else f[i])
  }

  predicate MapsFirst4MB(f: Frame) {
    forall i :: 0 <= i < ENTRIES ==> f[i] == Entry(i)
  }

  function TableOf(s: Space, x: nat): (t: nat)
    requires Typed(s) && x < ENTRIES
    ensures t < FRAMES
  {
    FrameOf(s.mem[s.dir][x])
  }

  function TranslatePage(s: Space, x: nat, y: nat): (r: Option<nat>)
    requires Typed(s) && x < ENTRIES && y < ENTRIES
  {
    Lookup(s.mem, s.dir, x, y)
  }

  function NextFrame(s: Space): (f: nat)
    requires Typed(s)
    ensures f < FRAMES && (f != 0 ==> s.lo <= f < s.hi && s.free[f])
  {
    FirstFreeIsLeast(s.free, s.lo, s.hi);
    FirstFree(s.free, s.lo, s.hi)
  }

  function TakeFrame(s: Space): (s': Space)
    requires Typed(s)
    ensures Typed(s') && s' == s.(free := s'.free)
  {
    s.(free := Taken(s.free, s.lo, s.hi))
  }

  // ---- The operations ----

  /** Two frames become directory and first table. */
  function Construct(s: Space): (s': Space)
    requires Typed(s)
    ensures Typed(s')
  {
    var d := NextFrame(s);
    var t := NextFrame(TakeFrame(s));
    var linked := WriteWord(WriteWord(s.mem, d, 1023, Entry(d)), d, 0, Entry(t));
    var mapped := linked[t := Identity(linked[t], ENTRIES)];
    TakeFrame(TakeFrame(s)).(mem := mapped[d := Blanked(mapped[d], 1, 1023)], dir := d)
  }

  /** Directory slot x receives a blank table. */
  function NewTable(s: Space, x: nat): (s': Space)
    requires Typed(s) && x < ENTRIES
    ensures Typed(s') && s'.dir == s.dir
  {
    var t := NextFrame(s);
    var linked := WriteWord(s.mem, s.dir, x, Entry(t));
    TakeFrame(s).(mem := linked[t := Blanked(linked[t], 0, ENTRIES)])
  }

  function MapPage(s: Space, x: nat, y: nat): (s': Space)
    requires Typed(s) && x < ENTRIES && y < ENTRIES
    ensures Typed(s') && s'.dir == s.dir
  {
    if Present(s.mem[TableOf(s, x)][y]) then s
    else TakeFrame(s).(mem := WriteWord(s.mem, TableOf(s, x), y, Entry(NextFrame(s))))
  }

  function ServeFault(s: Space, x: nat, y: nat): (s': Space)
    requires Typed(s) && x < ENTRIES && y < ENTRIES
    ensures Typed(s') && s'.dir == s.dir
  {
    MapPage(if Present(s.mem[s.dir][x]) then s else NewTable(s, x), x, y)
  }

  /** The frame table has room for the frame that page (x, y) maps to, if there is one. */
  predicate Releasable(s: Space, x: nat, y: nat)
    requires Typed(s) && x < ENTRIES && y < ENTRIES
  {
    var r := TranslatePage(s, x, y);
    r.Some? ==> r.value < TABLE_SIZE
  }

  function ReleasePage(s: Space, x: nat, y: nat): (s': Space)
    requires Typed(s) && x < ENTRIES && y < ENTRIES && Releasable(s, x, y)
    ensures Typed(s') && s'.dir == s.dir
  {
    match TranslatePage(s, x, y)
    case None => s
    case Some(f) => s.(free := s.free[f := true], mem := WriteWord(s.mem, TableOf(s, x), y, BLANK))
  }

  // ---- The ownership invariant ----

  /** Everything a pool frame can be used for. */
  datatype Owner = Directory | FirstTable | Table(x: nat) | Page(x: nat, y: nat)

  predicate HasTable(s: Space, x: nat)
    requires Typed(s)
  {
    1 <= x <= 1022 && Present(s.mem[s.dir][x])
  }

  predicate Live(s: Space, o: Owner)
    requires Typed(s)
  {
    match o
    case Directory => true
    case FirstTable => true
    case Table(x) => HasTable(s, x)
    case Page(x, y) => HasTable(s, x) && y < ENTRIES && Present(s.mem[TableOf(s, x)][y])
  }

  function FrameFor(s: Space, o: Owner): (f: nat)
    requires Typed(s) && Live(s, o)
  {
    match o
    case Directory => s.dir
    case FirstTable => TableOf(s, 0)
    case Table(x) => TableOf(s, x)
    case Page(x, y) => FrameOf(s.mem[TableOf(s, x)][y])
  }

  ghost predicate WellFormed(s: Space) {
    && Typed(s)
    && s.mem[s.dir][1023] == Entry(s.dir)
    && Present(s.mem[s.dir][0])
    && MapsFirst4MB(s.mem[TableOf(s, 0)])
  }

  /** Each live use has its own in-use pool frame. */
  ghost predicate Owned(s: Space)
    requires Typed(s)
  {
    && (forall o :: Live(s, o) ==> s.lo <= FrameFor(s, o) < s.hi && !s.free[FrameFor(s, o)])
    && (forall o, p :: Live(s, o) && Live(s, p) && FrameFor(s, o) == FrameFor(s, p) ==> o == p)
  }

  ghost predicate Inv(s: Space) {
    // no pool frame lies in the identity-mapped first 4 MB
    WellFormed(s) && ENTRIES <= s.lo && Owned(s)
  }

  /** Entries written by the kernel are either the blank one or a frame with flags 3. */
  predicate Clean(entry: Word) { entry == BLANK || entry == Entry(FrameOf(entry)) }

  predicate AllClean(t: Frame) { forall y :: 0 <= y < ENTRIES ==> Clean(t[y]) }

  /** Directory and tables hold only such entries. */
  ghost predicate Tidy(s: Space)
    requires Typed(s)
  {
    && (forall x :: 1 <= x <= 1022 ==> Clean(s.mem[s.dir][x]))
    && (forall x :: HasTable(s, x) ==> AllClean(s.mem[TableOf(s, x)]))
  }

  // ---- What a fault may need ----

  function FramesNeeded(s: Space, x: nat): nat
    requires Typed(s) && x < ENTRIES
  {
    if Present(s.mem[s.dir][x]) then 1 else 2
  }

  predicate Enough(s: Space, x: nat)
    requires Typed(s) && x < ENTRIES
  {
    FramesNeeded(s, x) <= |Available(s.free, s.lo, s.hi)|
  }

  lemma EnoughMeans(s: Space)
    requires Typed(s)
    ensures 1 <= |Available(s.free, s.lo, s.hi)| <==> NextFrame(s) != 0
    ensures 2 <= |Available(s.free, s.lo, s.hi)| <==> NextFrame(s) != 0 && NextFrame(TakeFrame(s)) != 0
  {
    FirstFreeIsLeast(s.free, s.lo, s.hi);
    if NextFrame(s) != 0 {
      TakenMovesOne(s.free, s.lo, s.hi);
      FirstFreeIsLeast(TakeFrame(s).free, s.lo, s.hi);
    }
  }

  // ---- The invariant step by step ----

  lemma NewTableKeepsInv(s: Space, x: nat)
    requires Inv(s) && 1 <= x <= 1022 && !Present(s.mem[s.dir][x]) && NextFrame(s) != 0
    ensures Inv(NewTable(s, x)) && (Tidy(s) ==> Tidy(NewTable(s, x)))
    ensures forall o :: Live(NewTable(s, x), o) <==> Live(s, o) || o == Table(x)
    ensures forall o :: Live(s, o) ==> FrameFor(NewTable(s, x), o) == FrameFor(s, o)
  {
    var s', t := NewTable(s, x), NextFrame(s);
    assert FrameFor(s, Directory) == s.dir != t;
    assert FrameFor(s, FirstTable) != t;
    assert FrameFor(s, FirstTable) != s.dir;
    forall z | 1 <= z <= 1022 && Present(s.mem[s.dir][z])
      ensures s'.mem[s'.dir][z] == s.mem[s.dir][z] && s'.mem[TableOf(s, z)] == s.mem[TableOf(s, z)]
    {
      assert FrameFor(s, Table(z)) == TableOf(s, z);
      assert FrameFor(s, Directory) == s.dir;
    }
    forall o
      ensures Live(s', o) <==> Live(s, o) || o == Table(x)
      ensures Live(s, o) ==> FrameFor(s', o) == FrameFor(s, o) != t
    {
    }
  }

  lemma MapPageKeepsInv(s: Space, x: nat, y: nat)
    requires Inv(s) && HasTable(s, x) && y < ENTRIES
    requires !Present(s.mem[TableOf(s, x)][y]) && NextFrame(s) != 0
    ensures Inv(MapPage(s, x, y)) && (Tidy(s) ==> Tidy(MapPage(s, x, y)))
    ensures forall o :: Live(MapPage(s, x, y), o) <==> Live(s, o) || o == Page(x, y)
    ensures forall o :: Live(s, o) ==> FrameFor(MapPage(s, x, y), o) == FrameFor(s, o)
    ensures FrameFor(MapPage(s, x, y), Page(x, y)) == NextFrame(s)
  {
    var s', g := MapPage(s, x, y), NextFrame(s);
    assert FrameFor(s, Table(x)) != FrameFor(s, Directory);
    assert FrameFor(s, Table(x)) != FrameFor(s, FirstTable);
    assert s'.mem[s'.dir] == s.mem[s.dir];
    forall z | HasTable(s, z) && z != x
      ensures s'.mem[TableOf(s, z)] == s.mem[TableOf(s, z)]
    {
      assert FrameFor(s, Table(z)) != FrameFor(s, Table(x));
    }
    assert forall z :: HasTable(s', z) <==> HasTable(s, z);
    assert forall z: nat, w: nat :: HasTable(s, z) && 0 <= w < ENTRIES && (z, w) != (x, y) ==>
        s'.mem[TableOf(s', z)][w] == s.mem[TableOf(s, z)][w];
    forall o
      ensures Live(s', o) <==> Live(s, o) || o == Page(x, y)
      ensures Live(s, o) ==> FrameFor(s', o) == FrameFor(s, o) != g
    {
    }
  }

  lemma ReleaseKeepsInv(s: Space, x: nat, y: nat)
    requires Inv(s) && HasTable(s, x) && y < ENTRIES && Present(s.mem[TableOf(s, x)][y])
    ensures Releasable(s, x, y) && Inv(ReleasePage(s, x, y)) && (Tidy(s) ==> Tidy(ReleasePage(s, x, y)))
    ensures forall o :: Live(ReleasePage(s, x, y), o) <==> Live(s, o) && o != Page(x, y)
    ensures forall o :: Live(s, o) && o != Page(x, y) ==> FrameFor(ReleasePage(s, x, y), o) == FrameFor(s, o)
  {
    var f := FrameFor(s, Page(x, y));
    var s' := ReleasePage(s, x, y);
    assert FrameFor(s, Table(x)) != FrameFor(s, Directory);
    assert FrameFor(s, Table(x)) != FrameFor(s, FirstTable);
    assert s'.mem[s'.dir] == s.mem[s.dir];
    forall z | HasTable(s, z) && z != x
      ensures s'.mem[TableOf(s, z)] == s.mem[TableOf(s, z)]
    {
      assert FrameFor(s, Table(z)) != FrameFor(s, Table(x));
    }
    assert forall z :: HasTable(s', z) <==> HasTable(s, z);
    assert forall z: nat, w: nat :: HasTable(s, z) && 0 <= w < ENTRIES && (z, w) != (x, y) ==>
        s'.mem[TableOf(s', z)][w] == s.mem[TableOf(s, z)][w];
    forall o
      ensures Live(s', o) <==> Live(s, o) && o != Page(x, y)
      ensures Live(s, o) && o != Page(x, y) ==> FrameFor(s', o) == FrameFor(s, o) != f
    {
    }
  }

  lemma ConstructEstablishesInv(s: Space)
    requires Typed(s) && ENTRIES <= s.lo && 2 <= |Available(s.free, s.lo, s.hi)|
    ensures Inv(Construct(s)) && Tidy(Construct(s))
    ensures forall o :: Live(Construct(s), o) <==> o == Directory || o == FirstTable
  {
    EnoughMeans(s);
    FirstFreeIsLeast(TakeFrame(s).free, s.lo, s.hi);
    var s' := Construct(s);
    assert forall x :: !HasTable(s', x);
    assert NextFrame(s) != NextFrame(TakeFrame(s));
  }
}
