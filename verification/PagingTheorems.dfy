/** Safety of demand paging: single operations, then every run of faults and frees. */
module PagingTheorems {
  import opened Words
  import opened FramePool
  import opened Mmu
  import opened AddressSpace

  /** Page (z, w) belongs to the uninitialised table that a fault on window page (1023, y) links. */
  predicate Exposed(s: Space, x: nat, y: nat, z: nat, w: nat)
    requires Typed(s) && w < ENTRIES
  {
    x == 1023 && z == y && Present(s.mem[NextFrame(s)][w])
  }

  /** A not-present fault, with frames to spare, maps exactly the missing page. */
  lemma FaultMapsOnePage(s: Space, x: nat, y: nat)
    requires Inv(s) && x < ENTRIES && y < ENTRIES && TranslatePage(s, x, y) == None && Enough(s, x)
    ensures x != 1023 ==> Inv(ServeFault(s, x, y))
    // the page gets a frame that was free
    ensures var s' := ServeFault(s, x, y);
      var f := TranslatePage(s', x, y);
      f.Some? && s.lo <= f.value < s.hi && s.free[f.value]
    // no other frame is taken, except the one of a table made by this fault
    ensures forall f :: 0 <= f < TABLE_SIZE ==>
      var s' := ServeFault(s, x, y);
      s'.free[f] == (s.free[f] && Some(f) != TranslatePage(s', x, y) &&
                     (Present(s.mem[s.dir][x]) || Some(f) != TranslatePage(s', 1023, x)))
    // what was mapped stays mapped to the same frame
    ensures forall z, w :: 0 <= z < ENTRIES && 0 <= w < ENTRIES && TranslatePage(s, z, w).Some? ==>
      TranslatePage(ServeFault(s, x, y), z, w) == TranslatePage(s, z, w)
    // nothing else becomes mapped, except the window page of such a table
    ensures forall z, w :: 0 <= z < ENTRIES && 0 <= w < ENTRIES && TranslatePage(s, z, w) == None ==>
      (TranslatePage(ServeFault(s, x, y), z, w).Some? <==>
        (z, w) == (x, y) || (!Present(s.mem[s.dir][x]) && (z, w) == (1023, x)) || Exposed(s, x, y, z, w))
    ensures x == 1023 ==> TranslatePage(ServeFault(s, x, y), x, y) == Some(NextFrame(s))
    // contents reached outside the window are untouched
    ensures forall z, w :: 0 <= z < 1023 && 0 <= w < ENTRIES && TranslatePage(s, z, w).Some? ==>
      ServeFault(s, x, y).mem[TranslatePage(s, z, w).value] == s.mem[TranslatePage(s, z, w).value]
  {
    EnoughMeans(s);
    UnmappedIsOutsideIdentity(s, x, y);
    if x == 1023 {
      WindowFaultExposesOldContents(s, y);
    } else if Present(s.mem[s.dir][x]) {
      MapPageKeepsInv(s, x, y);
      MapPageFrame(s, x, y);
    } else {
      NewTableKeepsInv(s, x);
      NewTableFrame(s, x);
      var s1 := NewTable(s, x);
      assert Live(s1, Table(x));
      MapPageKeepsInv(s1, x, y);
      MapPageFrame(s1, x, y);
    }
  }

  // ---- The same for the processor: virtual addresses and the hardware walk ----

  /** Address a becomes mapped when a fault at va has put the page of va into `frame`: it lies in that
      page, in the window page of a table made for it, or, when va is in the window, in one of the pages
      that the words found in the frame make of it. */
  predicate Joins(s: Space, va: Word, frame: nat, a: Word)
    requires Typed(s) && frame < FRAMES
  {
    || a / 0x1000 == va / 0x1000
    || (MakesTable(s, va) && a / 0x1000 == 1023 * 1024 + va / 0x40_0000)
    || (va / 0x40_0000 == 1023 && a / 0x40_0000 == va / 0x1000 % 1024 && s.mem[frame][a / 0x1000 % 1024] % 2 == 1)
  }

  predicate MakesTable(s: Space, va: Word)
    requires Typed(s)
  {
    s.mem[s.dir][va / 0x40_0000] % 2 == 0
  }

  /** The address of the window page of the table that serves va. */
  function WindowOf(va: Word): Word { 0xFFC0_0000 + va / 0x40_0000 * 0x1000 }

  /** From s to s' the page of va is mapped to a frame of the pool that was free, and what joins with it
      is all that changes. */
  ghost predicate MapsPageOf(s: Space, va: Word, s': Space)
    requires Typed(s) && Typed(s')
  {
    var frame := Walk(s'.mem, s'.dir, va);
    && s'.dir == s.dir
    && frame.Some? && s.lo <= frame.value < s.hi && s.free[frame.value]
    && (forall f :: 0 <= f < TABLE_SIZE ==>
          s'.free[f] == (s.free[f] && Some(f) != frame &&
                         !(MakesTable(s, va) && Some(f) == Walk(s'.mem, s'.dir, WindowOf(va)))))
    && (forall a: Word :: Walk(s.mem, s.dir, a).Some? ==> Walk(s'.mem, s'.dir, a) == Walk(s.mem, s.dir, a))
    && (forall a: Word :: Walk(s.mem, s.dir, a) == None ==>
          (Walk(s'.mem, s'.dir, a).Some? <==> Joins(s, va, frame.value, a)))
    && (forall a: Word :: a < 0xFFC0_0000 && Walk(s.mem, s.dir, a).Some? ==>
          s'.mem[Walk(s.mem, s.dir, a).value] == s.mem[Walk(s.mem, s.dir, a).value])
  }

  lemma FaultMapsOneAddress(s: Space, va: Word)
    requires Inv(s) && Walk(s.mem, s.dir, va) == None && Enough(s, va / 0x40_0000)
    ensures MapsPageOf(s, va, ServeFault(s, Dir(va), Tab(va)))
  {
    var x, y := Dir(va), Tab(va);
    FaultMapsOnePage(s, x, y);
    var s' := ServeFault(s, x, y);
    WalkTranslates(s);
    WalkTranslates(s');
    var f := TranslatePage(s', x, y).value;
    WindowOfIs(va);
    hide ServeFault, Lookup, Walk, Joins, Dir, Tab, Inv, Enough, TranslatePage, WindowOf, Exposed, NextFrame;
    forall a: Word
      ensures Joins(s, va, f, a) <==>
        (Dir(a), Tab(a)) == (x, y) || (!Present(s.mem[s.dir][x]) && (Dir(a), Tab(a)) == (1023, x))
        || Exposed(s, x, y, Dir(a), Tab(a))
      ensures a < 0xFFC0_0000 <==> Dir(a) < 1023
    {
      JoinsByPage(s, va, f, a);
    }
  }

  lemma JoinsByPage(s: Space, va: Word, f: nat, a: Word)
    requires Typed(s) && f < FRAMES && (Dir(va) == 1023 ==> f == NextFrame(s))
    ensures Joins(s, va, f, a) <==>
      (Dir(a), Tab(a)) == (Dir(va), Tab(va))
      || (!Present(s.mem[s.dir][Dir(va)]) && (Dir(a), Tab(a)) == (1023, Dir(va)))
      || Exposed(s, Dir(va), Tab(va), Dir(a), Tab(a))
    ensures a < 0xFFC0_0000 <==> Dir(a) < 1023
  {
    PageNumber(a);
    PageNumber(va);
  }

  lemma PageNumber(a: Word)
    ensures a / 0x1000 == Dir(a) * 1024 + Tab(a)
  {
  }

  lemma WindowOfIs(va: Word)
    ensures Dir(WindowOf(va)) == 1023 && Tab(WindowOf(va)) == Dir(va)
  {
    assert WindowOf(va) / 0x1000 == 1023 * 1024 + Dir(va);
  }

  lemma WalkTranslates(s: Space)
    requires Typed(s)
    ensures forall a: Word :: Walk(s.mem, s.dir, a) == TranslatePage(s, Dir(a), Tab(a))
  {
  }

  lemma UnmappedIsOutsideIdentity(s: Space, x: nat, y: nat)
    requires Inv(s) && x < ENTRIES && y < ENTRIES && TranslatePage(s, x, y) == None
    ensures x != 0
  {
  }

  /** Frame condition of NewTable, seen through the walk. */
  lemma NewTableFrame(s: Space, x: nat)
    requires Inv(s) && 1 <= x <= 1022 && !Present(s.mem[s.dir][x]) && NextFrame(s) != 0
    ensures forall z, w :: 0 <= z < ENTRIES && 0 <= w < ENTRIES && (z, w) != (1023, x) ==>
      TranslatePage(NewTable(s, x), z, w) == TranslatePage(s, z, w)
    ensures TranslatePage(NewTable(s, x), 1023, x) == Some(NextFrame(s))
    ensures forall f :: 0 <= f < FRAMES && f != s.dir && f != NextFrame(s) ==> NewTable(s, x).mem[f] == s.mem[f]
    ensures forall z, w :: 0 <= z < 1023 && 0 <= w < ENTRIES && TranslatePage(s, z, w).Some? ==>
      TranslatePage(s, z, w).value != s.dir && TranslatePage(s, z, w).value != NextFrame(s)
  {
    var s', t := NewTable(s, x), NextFrame(s);
    assert FrameFor(s, Directory) == s.dir != t;
    assert FrameFor(s, FirstTable) != t;
    forall z, w | 0 <= z < 1023 && 0 <= w < ENTRIES
      ensures z == x || TranslatePage(s', z, w) == TranslatePage(s, z, w)
      ensures TranslatePage(s, z, w).Some? ==>
        TranslatePage(s, z, w).value != s.dir && TranslatePage(s, z, w).value != t
    {
      if HasTable(s, z) {
        assert FrameFor(s, Table(z)) == TableOf(s, z);
        if TranslatePage(s, z, w).Some? {
          assert FrameFor(s, Page(z, w)) == TranslatePage(s, z, w).value;
        }
      } else if z == 0 {
        assert FrameFor(s, FirstTable) == TableOf(s, z);
      }
    }
  }

  lemma MapPageFrame(s: Space, x: nat, y: nat)
    requires Inv(s) && HasTable(s, x) && y < ENTRIES
    requires !Present(s.mem[TableOf(s, x)][y]) && NextFrame(s) != 0
    ensures forall z, w :: 0 <= z < ENTRIES && 0 <= w < ENTRIES && (z, w) != (x, y) ==>
      TranslatePage(MapPage(s, x, y), z, w) == TranslatePage(s, z, w)
    ensures TranslatePage(MapPage(s, x, y), x, y) == Some(NextFrame(s))
    ensures forall f :: 0 <= f < FRAMES && f != TableOf(s, x) ==> MapPage(s, x, y).mem[f] == s.mem[f]
    ensures forall z, w :: 0 <= z < 1023 && 0 <= w < ENTRIES && TranslatePage(s, z, w).Some? ==>
      TranslatePage(s, z, w).value != TableOf(s, x)
  {
    var s' := MapPage(s, x, y);
    assert FrameFor(s, Table(x)) != FrameFor(s, Directory);
    forall z, w | 0 <= z < ENTRIES && 0 <= w < ENTRIES && (z, w) != (x, y)
      ensures TranslatePage(s', z, w) == TranslatePage(s, z, w)
      ensures z < 1023 && TranslatePage(s, z, w).Some? ==> TranslatePage(s, z, w).value != TableOf(s, x)
    {
      if HasTable(s, z) {
        if z != x {
          assert FrameFor(s, Table(z)) != FrameFor(s, Table(x));
        }
        if TranslatePage(s, z, w).Some? {
          assert FrameFor(s, Page(z, w)) != FrameFor(s, Table(x));
        }
      } else if z == 0 {
        assert FrameFor(s, FirstTable) != FrameFor(s, Table(x));
      }
    }
  }

  /** get_frame's failure value is not checked by the handler: with too few frames the page, or its
      table, is placed in frame 0.  So a fault outside the window keeps the maps in place and the frames
      apart exactly when the pool holds the frames it needs.  A fault in the window links an
      uninitialised frame as a table, so there the words that the frame happens to hold must not make
      pages of frames that are free, shared or somebody's. */
  lemma FaultKeepsInvIff(s: Space, x: nat, y: nat)
    requires Inv(s) && x < ENTRIES && y < ENTRIES && TranslatePage(s, x, y) == None
    ensures Inv(ServeFault(s, x, y)) <==>
      Enough(s, x) && (x == 1023 ==> Adoptable(s, s.mem[NextFrame(s)]))
  {
    EnoughMeans(s);
    if x == 1023 {
      WindowFaultKeepsInvIff(s, y);
    } else if Enough(s, x) {
      FaultMapsOnePage(s, x, y);
    } else {
      UnmappedIsOutsideIdentity(s, x, y);
      var s' := ServeFault(s, x, y);
      if Present(s.mem[s.dir][x]) {
        FaultWithoutFrame(s, x, y);
      } else if NextFrame(s) == 0 {
        assert s.dir == FrameFor(s, Directory) != 0;
        assert s'.mem[s'.dir][x] == Entry(0);
        assert FrameFor(s', Table(x)) == 0;
      } else {
        NewTableKeepsInv(s, x);
        assert Live(NewTable(s, x), Table(x));
        FaultWithoutFrame(NewTable(s, x), x, y);
      }
    }
  }

  /** The words of a frame that would be present entries name different frames of the pool, in use and
      without an owner. */
  ghost predicate Adoptable(s: Space, t: Frame)
    requires Typed(s)
  {
    && (forall y :: 0 <= y < ENTRIES && Present(t[y]) ==>
          s.lo <= FrameOf(t[y]) < s.hi && !s.free[FrameOf(t[y])] && Unowned(s, FrameOf(t[y])))
    && (forall y, z :: 0 <= y < z < ENTRIES && Present(t[y]) && Present(t[z]) ==> FrameOf(t[y]) != FrameOf(t[z]))
  }

  ghost predicate Unowned(s: Space, f: nat)
    requires Typed(s)
  {
    forall o :: Live(s, o) ==> FrameFor(s, o) != f
  }

  lemma WindowFaultKeepsInvIff(s: Space, x: nat)
    requires Inv(s) && x < ENTRIES && TranslatePage(s, 1023, x) == None
    ensures Inv(ServeFault(s, 1023, x)) <==> NextFrame(s) != 0 && Adoptable(s, s.mem[NextFrame(s)])
  {
    var s', t := ServeFault(s, 1023, x), NextFrame(s);
    WindowFaultEffect(s, x);
    if t == 0 {
      assert Live(s', Table(x)) && FrameFor(s', Table(x)) == 0;
    } else if Adoptable(s, s.mem[t]) {
      AdoptedTableKeepsInv(s, x);
    } else if Inv(s') {
      InvMakesAdoptable(s, x);
    }
  }

  /** A machine with zeroed memory and two free frames in its pool. */
  function TwoFrames(): (s: Space)
    ensures Typed(s)
  {
    Space(seq(FRAMES, _ => seq(ENTRIES, _ => 0)), 0, seq(TABLE_SIZE, f => f == 1024 || f == 1025), 1024, TABLE_SIZE)
  }

  /** One with three, the last of which begins with the address of the first, flags set. */
  function ThreeFrames(): (s: Space)
    ensures Typed(s)
  {
    Space(seq(FRAMES, f => seq(ENTRIES, y => if f == 1026 && y == 0 then 1024 * 0x1000 + 3 else 0)), 0,
          seq(TABLE_SIZE, f => 1024 <= f <= 1026), 1024, TABLE_SIZE)
  }

  /** A fault on window page (1023, 1) then maps page (1, 0) to the page directory. */
  lemma WindowFaultBreaksInv()
    ensures var s := Construct(ThreeFrames());
      && Inv(s) && TranslatePage(s, 1023, 1) == None && Enough(s, 1023)
      && !Inv(ServeFault(s, 1023, 1)) && TranslatePage(ServeFault(s, 1023, 1), 1, 0) == Some(s.dir)
  {
    var start := ThreeFrames();
    assert Available(start.free, start.lo, start.hi) == {1024, 1025, 1026};
    assert FirstFree(start.free, 1024, TABLE_SIZE) == 1024;
    assert start.mem[1026][0] == 0x40_0003 && FrameOf(start.mem[1026][0]) == 1024;
    hide ThreeFrames;
    ThirdFrame(start);
    ConstructEstablishesInv(start);
    var s := Construct(start);
    EnoughMeans(s);
    WindowFaultExposesOldContents(s, 1);
    WindowFaultKeepsInvIff(s, 1);
    assert Live(s, Directory);
  }

  lemma ThirdFrame(start: Space)
    requires Typed(start) && start.lo == 1024 && start.hi == TABLE_SIZE
    requires forall f :: 0 <= f < TABLE_SIZE ==> start.free[f] == (1024 <= f <= 1026)
    ensures 2 <= |Available(start.free, start.lo, start.hi)|
    ensures var s := Construct(start);
      s.dir == 1024 && NextFrame(s) == 1026 && s.mem[1026] == start.mem[1026]
  {
    FirstFreeIsLeast(start.free, 1024, TABLE_SIZE);
    var s1 := TakeFrame(start);
    FirstFreeIsLeast(s1.free, 1024, TABLE_SIZE);
    var s2 := TakeFrame(s1);
    FirstFreeIsLeast(s2.free, 1024, TABLE_SIZE);
    assert start.free[1024] && s1.free[1025] && s2.free[1026];
    var a := Available(start.free, start.lo, start.hi);
    assert a == {1024, 1025} + (a - {1024, 1025});
  }

  /** The first fault after the page table has taken them breaks the invariant. */
  lemma FaultBreaksInv()
    ensures Inv(Construct(TwoFrames())) && TranslatePage(Construct(TwoFrames()), 1, 0) == None
    ensures !Enough(Construct(TwoFrames()), 1) && !Inv(ServeFault(Construct(TwoFrames()), 1, 0))
  {
    var s := TwoFrames();
    assert Available(s.free, s.lo, s.hi) == {1024, 1025};
    hide TwoFrames;
    ConstructEstablishesInv(s);
    EnoughMeans(s);
    TakenMovesOne(s.free, s.lo, s.hi);
    TakenMovesOne(TakeFrame(s).free, s.lo, s.hi);
    FaultKeepsInvIff(Construct(s), 1, 0);
  }

  /** What such a fault does: slot x of the directory names the next frame, whose contents stand. */
  lemma WindowFaultEffect(s: Space, x: nat)
    requires Inv(s) && x < ENTRIES && TranslatePage(s, 1023, x) == None
    ensures 1 <= x <= 1022 && !Present(s.mem[s.dir][x])
    ensures ServeFault(s, 1023, x) == TakeFrame(s).(mem := WriteWord(s.mem, s.dir, x, Entry(NextFrame(s))))
    ensures NextFrame(s) != s.dir
  {
    assert FrameFor(s, Directory) == s.dir;
  }

  lemma AdoptedTableKeepsInv(s: Space, x: nat)
    requires Inv(s) && x < ENTRIES && TranslatePage(s, 1023, x) == None
    requires NextFrame(s) != 0 && Adoptable(s, s.mem[NextFrame(s)])
    ensures Inv(ServeFault(s, 1023, x))
  {
    AdoptedOwners(s, x);
    WindowFaultEffect(s, x);
    var s' := ServeFault(s, 1023, x);
    assert TableOf(s', x) == NextFrame(s) && s'.mem[NextFrame(s)] == s.mem[NextFrame(s)];
    assert FrameFor(s, FirstTable) != FrameFor(s, Directory);
  }

  /** It leaves only entries that the kernel writes exactly when the linked frame held nothing else. */
  lemma WindowFaultKeepsTidyIff(s: Space, x: nat)
    requires Inv(s) && Tidy(s) && x < ENTRIES && TranslatePage(s, 1023, x) == None && NextFrame(s) != 0
    ensures Tidy(ServeFault(s, 1023, x)) <==> AllClean(s.mem[NextFrame(s)])
  {
    WindowFaultEffect(s, x);
    var s' := ServeFault(s, 1023, x);
    assert TableOf(s', x) == NextFrame(s) && s'.mem[NextFrame(s)] == s.mem[NextFrame(s)];
    forall z | HasTable(s', z) && z != x
      ensures HasTable(s, z) && s'.mem[TableOf(s', z)] == s.mem[TableOf(s, z)]
    {
      assert FrameFor(s, Table(z)) != FrameFor(s, Directory);
    }
    assert HasTable(s', x);
  }

  lemma AdoptedOwners(s: Space, x: nat)
    requires Inv(s) && x < ENTRIES && TranslatePage(s, 1023, x) == None && NextFrame(s) != 0
    ensures var s', t := ServeFault(s, 1023, x), s.mem[NextFrame(s)];
      && (forall o :: Live(s', o) <==>
            Live(s, o) || o == Table(x) || (o.Page? && o.x == x && o.y < ENTRIES && Present(t[o.y])))
      && (forall o :: Live(s, o) ==> FrameFor(s', o) == FrameFor(s, o) != NextFrame(s))
      && Live(s', Table(x)) && FrameFor(s', Table(x)) == NextFrame(s)
      && (forall y :: 0 <= y < ENTRIES && Present(t[y]) ==>
            Live(s', Page(x, y)) && FrameFor(s', Page(x, y)) == FrameOf(t[y]))
  {
    WindowFaultEffect(s, x);
    var s' := ServeFault(s, 1023, x);
    forall z | 0 <= z < ENTRIES && z != x && Present(s.mem[s.dir][z])
      ensures s'.mem[s'.dir][z] == s.mem[s.dir][z]
      ensures z != 1023 ==> s'.mem[TableOf(s, z)] == s.mem[TableOf(s, z)]
    {
      if z != 1023 {
        var o := if z == 0 then FirstTable else Table(z);
        assert FrameFor(s, o) != FrameFor(s, Directory);
      }
    }
  }

  lemma InvMakesAdoptable(s: Space, x: nat)
    requires Inv(s) && x < ENTRIES && TranslatePage(s, 1023, x) == None
    requires NextFrame(s) != 0 && Inv(ServeFault(s, 1023, x))
    ensures Adoptable(s, s.mem[NextFrame(s)])
  {
    AdoptedOwners(s, x);
    WindowFaultEffect(s, x);
    var s', t := ServeFault(s, 1023, x), s.mem[NextFrame(s)];
    assert TableOf(s', x) == NextFrame(s) && s'.mem[NextFrame(s)] == t;
    forall y | 0 <= y < ENTRIES && Present(t[y])
      ensures s.lo <= FrameOf(t[y]) < s.hi && !s.free[FrameOf(t[y])] && Unowned(s, FrameOf(t[y]))
    {
      assert Live(s', Page(x, y)) && Live(s', Table(x)) && FrameFor(s', Page(x, y)) == FrameOf(t[y]);
      forall o | Live(s, o)
        ensures FrameFor(s, o) != FrameOf(t[y])
      {
        assert Live(s', o);
      }
    }
    forall y, z | 0 <= y < z < ENTRIES && Present(t[y]) && Present(t[z])
      ensures FrameOf(t[y]) != FrameOf(t[z])
    {
      assert Live(s', Page(x, y)) && Live(s', Page(x, z));
    }
  }

  lemma FaultWithoutFrame(s: Space, x: nat, y: nat)
    requires Inv(s) && HasTable(s, x) && y < ENTRIES
    requires !Present(s.mem[TableOf(s, x)][y]) && NextFrame(s) == 0
    ensures !Inv(MapPage(s, x, y))
  {
    var s' := MapPage(s, x, y);
    assert FrameFor(s, Table(x)) != FrameFor(s, Directory);
    assert TableOf(s', x) == TableOf(s, x);
    assert Live(s', Page(x, y)) && FrameFor(s', Page(x, y)) == 0;
  }

  /** A fault on a window page (directory slot 1023) links an uninitialised frame as table x.  What was
      mapped stays; what becomes mapped is the window page itself and page (x, y) exactly where the
      frame happens to hold an odd word at y. */
  lemma WindowFaultExposesOldContents(s: Space, x: nat)
    requires Inv(s) && x < ENTRIES && TranslatePage(s, 1023, x) == None && NextFrame(s) != 0
    ensures TranslatePage(ServeFault(s, 1023, x), 1023, x) == Some(NextFrame(s)) && s.free[NextFrame(s)]
    ensures ServeFault(s, 1023, x).free == Taken(s.free, s.lo, s.hi)
    ensures forall z, w :: 0 <= z < 1023 && 0 <= w < ENTRIES && TranslatePage(s, z, w).Some? ==>
      ServeFault(s, 1023, x).mem[TranslatePage(s, z, w).value] == s.mem[TranslatePage(s, z, w).value]
    ensures forall z, w :: 0 <= z < ENTRIES && 0 <= w < ENTRIES && TranslatePage(s, z, w).Some? ==>
      TranslatePage(ServeFault(s, 1023, x), z, w) == TranslatePage(s, z, w)
    ensures forall z, w :: 0 <= z < ENTRIES && 0 <= w < ENTRIES && TranslatePage(s, z, w) == None ==>
      (TranslatePage(ServeFault(s, 1023, x), z, w).Some? <==>
        (z, w) == (1023, x) || (z == x && Present(s.mem[NextFrame(s)][w])))
  {
    WindowFaultEffect(s, x);
    var s' := ServeFault(s, 1023, x);
    forall z, w | 0 <= z < ENTRIES && 0 <= w < ENTRIES && z != x && (z, w) != (1023, x)
      ensures TranslatePage(s', z, w) == TranslatePage(s, z, w)
      ensures z != 1023 && TranslatePage(s, z, w).Some? ==> TranslatePage(s, z, w).value != s.dir
    {
      assert FrameFor(s, Directory) == s.dir;
      if HasTable(s, z) {
        assert FrameFor(s, Table(z)) != FrameFor(s, Directory);
        if TranslatePage(s, z, w).Some? {
          assert FrameFor(s, Page(z, w)) == TranslatePage(s, z, w).value;
        }
      } else if z == 0 {
        assert FrameFor(s, FirstTable) != FrameFor(s, Directory);
      }
    }
  }

  /** The state with entry y of table x made blank. */
  function WithBlank(s: Space, x: nat, y: nat): (s': Space)
    requires Typed(s) && x < ENTRIES && y < ENTRIES
    ensures Typed(s')
  {
    s.(mem := WriteWord(s.mem, TableOf(s, x), y, BLANK))
  }

  /** free_page undoes a fault on the same page, up to a table that the fault had to make: frames and
      memory are restored, with the blank entry where the page is absent; that is the whole state when
      the entry was the kernel's own. */
  lemma FreeUndoesFault(s: Space, x: nat, y: nat)
    requires Inv(s) && x < ENTRIES && y < ENTRIES
    requires TranslatePage(s, x, y) == None && Enough(s, x)
    ensures Releasable(ServeFault(s, x, y), x, y)
    ensures ReleasePage(ServeFault(s, x, y), x, y) ==
      WithBlank(if Present(s.mem[s.dir][x]) then s else NewTable(s, x), x, y)
    ensures Tidy(s) ==>
      ReleasePage(ServeFault(s, x, y), x, y) == if Present(s.mem[s.dir][x]) then s else NewTable(s, x)
  {
    EnoughMeans(s);
    UnmappedIsOutsideIdentity(s, x, y);
    if x == 1023 {
      ReleaseUndoesWindowFault(s, y);
    } else if Present(s.mem[s.dir][x]) {
      ReleaseUndoesMap(s, x, y);
    } else {
      NewTableKeepsInv(s, x);
      assert Live(NewTable(s, x), Table(x));
      ReleaseUndoesMap(NewTable(s, x), x, y);
    }
  }

  lemma ReleaseUndoesWindowFault(s: Space, x: nat)
    requires Inv(s) && x < ENTRIES && TranslatePage(s, 1023, x) == None && NextFrame(s) != 0
    ensures Releasable(ServeFault(s, 1023, x), 1023, x)
    ensures ReleasePage(ServeFault(s, 1023, x), 1023, x) == WithBlank(s, 1023, x)
    ensures Tidy(s) ==> WithBlank(s, 1023, x) == s
  {
    WindowFaultEffect(s, x);
    var s', d := ServeFault(s, 1023, x), s.dir;
    assert TranslatePage(s', 1023, x) == Some(NextFrame(s)) && TableOf(s', 1023) == d == TableOf(s, 1023);
    assert s'.mem[d][x := BLANK] == s.mem[d][x := BLANK];
    assert WriteWord(s'.mem, d, x, BLANK) == WriteWord(s.mem, d, x, BLANK);
    assert ReleasePage(s', 1023, x).free == s.free;
    BlankIsKept(s, 1023, x);
  }

  /** Writing the blank entry over itself changes nothing. */
  lemma BlankIsKept(s: Space, x: nat, y: nat)
    requires Typed(s) && x < ENTRIES && y < ENTRIES && s.dir < FRAMES
    ensures s.mem[TableOf(s, x)][y] == BLANK ==> WithBlank(s, x, y) == s
  {
    var t := TableOf(s, x);
    if s.mem[t][y] == BLANK {
      assert s.mem[t][y := BLANK] == s.mem[t];
      assert WriteWord(s.mem, t, y, BLANK) == s.mem;
    }
  }

  lemma ReleaseUndoesMap(s: Space, x: nat, y: nat)
    requires Inv(s) && HasTable(s, x) && y < ENTRIES
    requires !Present(s.mem[TableOf(s, x)][y]) && NextFrame(s) != 0
    ensures Releasable(MapPage(s, x, y), x, y) && ReleasePage(MapPage(s, x, y), x, y) == WithBlank(s, x, y)
    ensures Tidy(s) || s.mem[TableOf(s, x)][y] == BLANK ==> WithBlank(s, x, y) == s
  {
    var s' := MapPage(s, x, y);
    assert FrameFor(s, Table(x)) != FrameFor(s, Directory);
    var t := TableOf(s, x);
    assert TableOf(s', x) == t && s'.mem[t][y := BLANK] == s.mem[t][y := BLANK];
    assert WriteWord(s'.mem, t, y, BLANK) == WriteWord(s.mem, t, y, BLANK);
    assert ReleasePage(s', x, y).free == s.free;
    BlankIsKept(s, x, y);
  }

  lemma InvIsReleasable(s: Space, x: nat, y: nat)
    requires Inv(s) && x < ENTRIES && y < ENTRIES
    ensures Releasable(s, x, y)
  {
    if TranslatePage(s, x, y).Some? {
      if x == 1023 {
        if y == 1023 {
          assert Live(s, Directory);
        } else {
          assert Live(s, if y == 0 then FirstTable else Table(y));
        }
      } else if x != 0 {
        assert Live(s, Page(x, y));
      }
    }
  }

  /** free_page may be given any page number; it keeps the invariant exactly when the page lies
      outside the identity map and is not the window page of the directory or of the first table. */
  lemma FreeKeepsInvIff(s: Space, x: nat, y: nat)
    requires Inv(s) && x < ENTRIES && y < ENTRIES
    ensures Releasable(s, x, y)
    ensures Inv(ReleasePage(s, x, y)) <==> 1 <= x <= 1022 || (x == 1023 && 1 <= y <= 1022)
  {
    InvIsReleasable(s, x, y);
    var s' := ReleasePage(s, x, y);
    if TranslatePage(s, x, y).Some? {
      if x == 0 {
        assert FrameFor(s, FirstTable) != FrameFor(s, Directory);
        assert s'.mem[TableOf(s', 0)][y] != Entry(y);
      } else if x <= 1022 {
        ReleaseKeepsInv(s, x, y);
      } else if 1 <= y <= 1022 {
        FreeTableKeepsInv(s, y);
      }
    }
  }

  /** Freeing the window page of table z clears its directory entry and gives back its frame. */
  lemma FreedTable(s: Space, z: nat)
    requires Inv(s) && HasTable(s, z)
    ensures Releasable(s, 1023, z) && Live(s, Table(z))
    ensures var s' := ReleasePage(s, 1023, z);
      && s' == s.(free := s.free[TableOf(s, z) := true], mem := WriteWord(s.mem, s.dir, z, BLANK))
      && s.lo <= TableOf(s, z) < s.hi && !HasTable(s', z)
      && s'.mem[s'.dir][1023] == s.mem[s.dir][1023] && s'.mem[s'.dir][0] == s.mem[s.dir][0]
      && s'.mem[TableOf(s', 0)] == s.mem[TableOf(s, 0)]
    ensures forall x: nat :: 1 <= x <= 1022 && x != z ==>
      var s' := ReleasePage(s, 1023, z);
      s'.mem[s'.dir][x] == s.mem[s.dir][x] && (HasTable(s, x) ==> s'.mem[TableOf(s, x)] == s.mem[TableOf(s, x)])
  {
    InvIsReleasable(s, 1023, z);
    assert FrameFor(s, Table(z)) == TableOf(s, z);
    assert FrameFor(s, FirstTable) != FrameFor(s, Directory);
    forall x: nat | 1 <= x <= 1022 && x != z && HasTable(s, x)
      ensures TableOf(s, x) != s.dir
    {
      assert FrameFor(s, Table(x)) != FrameFor(s, Directory);
    }
  }

  lemma FreeTableKeepsInv(s: Space, z: nat)
    requires Inv(s) && HasTable(s, z)
    ensures Releasable(s, 1023, z) && Inv(ReleasePage(s, 1023, z))
    ensures Tidy(s) ==> Tidy(ReleasePage(s, 1023, z))
  {
    FreedTable(s, z);
    hide ReleasePage, Releasable, TranslatePage;
    var s' := ReleasePage(s, 1023, z);
    forall o | Live(s', o)
      ensures Live(s, o) && FrameFor(s', o) == FrameFor(s, o) && o != Table(z)
    {
    }
    forall x | HasTable(s', x)
      ensures HasTable(s, x) && s'.mem[TableOf(s', x)] == s.mem[TableOf(s, x)]
    {
      assert x != z;
    }
  }

  // ---- Runs ----

  /** What reaches the page-table code: an exception 14 with its error code and faulting address, or
      a call that frees a page by number. */
  datatype Event = Fault(errorCode: Word, address: Word) | Free(pageNumber: Word)

  function PageAddress(pageNumber: Word): Word {
    Wrap(pageNumber * 4096)
  }

  /** A fault on an unmapped window page: a table is linked without being made. */
  predicate Adopts(s: Space, e: Event)
    requires Typed(s)
  {
    && e.Fault? && e.errorCode % 2 == 0 && Dir(e.address) == 1023
    && TranslatePage(s, 1023, Tab(e.address)) == None
  }

  /** The pages whose frames a window fault or a window free counts in or out. */
  function AdoptedWords(t: Frame): set<nat> { set y: nat | y < ENTRIES && Present(t[y]) }

  /** The exact conditions of FaultKeepsInvIff and FreeKeepsInvIff. */
  ghost predicate Permitted(s: Space, e: Event)
    requires Typed(s)
  {
    match e
    case Fault(errorCode, address) =>
      var x, y := Dir(address), Tab(address);
      errorCode % 2 == 0 && TranslatePage(s, x, y) == None ==>
        Enough(s, x) && (x == 1023 ==> Adoptable(s, s.mem[NextFrame(s)]))
    case Free(p) =>
      var x, y := Dir(PageAddress(p)), Tab(PageAddress(p));
      1 <= x <= 1022 || (x == 1023 && 1 <= y <= 1022)
  }

  predicate Defined(s: Space, e: Event)
    requires Typed(s)
  {
    e.Free? ==> Releasable(s, Dir(PageAddress(e.pageNumber)), Tab(PageAddress(e.pageNumber)))
  }

  function Step(s: Space, e: Event): (s': Space)
    requires Typed(s) && Defined(s, e)
    ensures Typed(s') && s'.dir == s.dir
  {
    match e
    case Fault(errorCode, address) =>
      if errorCode % 2 == 0 then ServeFault(s, Dir(address), Tab(address)) else s
    case Free(p) => ReleasePage(s, Dir(PageAddress(p)), Tab(PageAddress(p)))
  }

  /** A fault on a missing page maps it: to a free frame when the pool has one for it and one for its table
      if that is missing too, else to frame 0.  Any other fault changes nothing. */
  lemma StepMapsTheMissingPage(s: Space, errorCode: Word, va: Word)
    requires Inv(s)
    ensures var s' := Step(s, Fault(errorCode, va));
      if errorCode % 2 == 1 || Walk(s.mem, s.dir, va).Some? then s' == s
      else if Enough(s, va / 0x40_0000) then MapsPageOf(s, va, s')
      else Walk(s'.mem, s'.dir, va) == Some(0)
  {
    if errorCode % 2 == 0 && Walk(s.mem, s.dir, va) == None {
      if Enough(s, va / 0x40_0000) {
        FaultMapsOneAddress(s, va);
      } else {
        FaultMapsToFrame0(s, Dir(va), Tab(va));
      }
      hide MapsPageOf, Lookup, Inv, Enough, ServeFault;
    }
  }

  lemma FaultMapsToFrame0(s: Space, x: nat, y: nat)
    requires Inv(s) && x < ENTRIES && y < ENTRIES && TranslatePage(s, x, y) == None && !Enough(s, x)
    ensures TranslatePage(ServeFault(s, x, y), x, y) == Some(0)
  {
    EnoughMeans(s);
    assert FrameFor(s, Directory) == s.dir != 0;
    if x == 1023 {
      WindowFaultEffect(s, y);
    } else if Present(s.mem[s.dir][x]) {
      UnmappedIsOutsideIdentity(s, x, y);
      TablesDiffer(s, x, 1023);
    } else {
      var s1 := NewTable(s, x);
      assert NextFrame(s) != s.dir && TableOf(s1, x) == NextFrame(s);
      assert NextFrame(s1) == 0;
    }
  }

  /** What freeing page number p means to the processor: an absent page stays absent; a present one is
      unmapped and its frame free again.  With the window page of a table go the pages of that table.  Every
      other address, frame and word of memory is as before. */
  ghost predicate FreesPage(s: Space, p: Word, s': Space)
    requires Typed(s) && Typed(s')
  {
    var va: Word := p % 0x10_0000 * 0x1000;
    match Walk(s.mem, s.dir, va)
    case None => s' == s
    case Some(f) =>
      && f < TABLE_SIZE && s' == s.(free := s.free[f := true], mem := s'.mem)
      && (forall a: Word :: Walk(s'.mem, s'.dir, a) == if Leaves(va, a) then None else Walk(s.mem, s.dir, a))
      && forall g, w :: 0 <= g < FRAMES && 0 <= w < ENTRIES ==>
           s'.mem[g][w] == s.mem[g][w] || (g, w) == (s.mem[s.dir][va / 0x40_0000] / 0x1000, va / 0x1000 % 1024)
  }

  predicate Leaves(va: Word, a: Word) {
    a / 0x1000 == va / 0x1000 || (va / 0x40_0000 == 1023 && a / 0x40_0000 == va / 0x1000 % 1024)
  }

  lemma StepFreesThePage(s: Space, p: Word)
    requires Inv(s)
    ensures Defined(s, Free(p)) && FreesPage(s, p, Step(s, Free(p)))
  {
    var va: Word := p % 0x10_0000 * 0x1000;
    assert PageAddress(p) == va;
    var x, y := Dir(va), Tab(va);
    InvIsReleasable(s, x, y);
    if TranslatePage(s, x, y).Some? {
      var s' := ReleasePage(s, x, y);
      ReleaseUnmapsOnePage(s, x, y);
      WalkTranslates(s);
      WalkTranslates(s');
      hide Leaves, Walk, Inv, Lookup, Dir, Tab, TranslatePage;
      forall a: Word
        ensures Leaves(va, a) <==> (Dir(a), Tab(a)) == (x, y) || (x == 1023 && Dir(a) == y)
      {
        LeavesByPage(va, a);
      }
    }
  }

  lemma LeavesByPage(va: Word, a: Word)
    ensures Leaves(va, a) <==> (Dir(a), Tab(a)) == (Dir(va), Tab(va)) || (Dir(va) == 1023 && Dir(a) == Tab(va))
  {
    PageNumber(a);
    PageNumber(va);
  }

  /** Unmapping page (x, y), seen through the walk. */
  lemma ReleaseUnmapsOnePage(s: Space, x: nat, y: nat)
    requires Inv(s) && x < ENTRIES && y < ENTRIES && TranslatePage(s, x, y).Some? && Releasable(s, x, y)
    ensures forall z, w :: 0 <= z < ENTRIES && 0 <= w < ENTRIES ==>
      TranslatePage(ReleasePage(s, x, y), z, w) ==
        if (z, w) == (x, y) || (x == 1023 && z == y) then None else TranslatePage(s, z, w)
  {
    var s' := ReleasePage(s, x, y);
    forall z, w | 0 <= z < ENTRIES && 0 <= w < ENTRIES
      ensures TranslatePage(s', z, w) ==
        if (z, w) == (x, y) || (x == 1023 && z == y) then None else TranslatePage(s, z, w)
    {
      if z != x && Present(s.mem[s.dir][z]) {
        TablesDiffer(s, x, z);
      }
      if x != 1023 {
        TablesDiffer(s, x, 1023);
      }
    }
  }

  lemma TablesDiffer(s: Space, x: nat, z: nat)
    requires Inv(s) && x < ENTRIES && z < ENTRIES && x != z && Present(s.mem[s.dir][x]) && Present(s.mem[s.dir][z])
    ensures TableOf(s, x) != TableOf(s, z)
  {
    assert FrameFor(s, SlotOwner(x)) == TableOf(s, x) && FrameFor(s, SlotOwner(z)) == TableOf(s, z);
  }

  function SlotOwner(x: nat): Owner {
    if x == 0 then FirstTable else if x == 1023 then Directory else Table(x)
  }

  /** s' is reached from s by the permitted events es. */
  ghost predicate Reaches(s: Space, es: seq<Event>, s': Space)
    requires Typed(s)
    decreases |es|
  {
    if es == [] then s' == s
    else Permitted(s, es[0]) && Defined(s, es[0]) && Reaches(Step(s, es[0]), es[1..], s')
  }

  function Tables(s: Space): set<nat>
    requires Typed(s)
  {
    set x: nat | 1 <= x <= 1022 && Live(s, Table(x))
  }

  function Pages(s: Space): set<(nat, nat)>
    requires Typed(s)
  {
    set x: nat, y: nat | 1 <= x <= 1022 && 0 <= y < ENTRIES && Live(s, Page(x, y)) :: (x, y)
  }

  function FramesInUse(s: Space): nat
    requires Typed(s)
  {
    |InUse(s.free, s.lo, s.hi)|
  }

  /** Frames that are in use without being a table or a mapped page. */
  function Overhead(s: Space): int
    requires Typed(s)
  {
    FramesInUse(s) - |Tables(s)| - |Pages(s)|
  }

  lemma NewTableConserves(s: Space, x: nat)
    requires Inv(s) && 1 <= x <= 1022 && !Present(s.mem[s.dir][x]) && NextFrame(s) != 0
    ensures Overhead(NewTable(s, x)) == Overhead(s)
  {
    NewTableKeepsInv(s, x);
    TakenMovesOne(s.free, s.lo, s.hi);
    var s' := NewTable(s, x);
    assert Tables(s') == Tables(s) + {x};
    assert Pages(s') == Pages(s);
  }

  lemma MapPageConserves(s: Space, x: nat, y: nat)
    requires Inv(s) && HasTable(s, x) && y < ENTRIES
    requires !Present(s.mem[TableOf(s, x)][y]) && NextFrame(s) != 0
    ensures Overhead(MapPage(s, x, y)) == Overhead(s)
  {
    MapPageKeepsInv(s, x, y);
    TakenMovesOne(s.free, s.lo, s.hi);
    var s' := MapPage(s, x, y);
    assert Tables(s') == Tables(s);
    assert Pages(s') == Pages(s) + {(x, y)};
  }

  lemma ReleaseSets(s: Space, x: nat, y: nat)
    requires Inv(s) && HasTable(s, x) && y < ENTRIES && Present(s.mem[TableOf(s, x)][y])
    requires Releasable(s, x, y)
    ensures Tables(ReleasePage(s, x, y)) == Tables(s)
    ensures Pages(ReleasePage(s, x, y)) == Pages(s) - {(x, y)} && (x, y) in Pages(s)
  {
    ReleaseKeepsInv(s, x, y);
    assert Live(s, Page(x, y));
    hide Inv, Live, ReleasePage, HasTable;
  }

  lemma ReleaseConserves(s: Space, x: nat, y: nat)
    requires Inv(s) && HasTable(s, x) && y < ENTRIES && Present(s.mem[TableOf(s, x)][y])
    requires Releasable(s, x, y)
    ensures Overhead(ReleasePage(s, x, y)) == Overhead(s)
  {
    ReleaseSets(s, x, y);
    GivenBackMovesOne(s.free, s.lo, s.hi, FrameFor(s, Page(x, y)));
  }

  function PagesOf(s: Space, z: nat): set<(nat, nat)>
    requires Typed(s)
  {
    set x: nat, y: nat | x == z && 1 <= x <= 1022 && 0 <= y < ENTRIES && Live(s, Page(x, y)) :: (x, y)
  }

  /** Freeing the window page of a table gives back the table's frame only: the frames of the pages
      mapped through it stay in use and can no longer be reached. */
  lemma WindowFreeLeaksPages(s: Space, z: nat)
    requires Inv(s) && HasTable(s, z) && Releasable(s, 1023, z)
    ensures Overhead(ReleasePage(s, 1023, z)) == Overhead(s) + |PagesOf(s, z)|
  {
    var s', f := ReleasePage(s, 1023, z), TableOf(s, z);
    assert f == FrameFor(s, Table(z)) && f in InUse(s.free, s.lo, s.hi) && s'.free == s.free[f := true];
    FreedTableSets(s, z);
    GivenBackMovesOne(s.free, s.lo, s.hi, f);
  }

  lemma FreedTableSets(s: Space, z: nat)
    requires Inv(s) && HasTable(s, z) && Releasable(s, 1023, z)
    ensures var s' := ReleasePage(s, 1023, z);
      && Tables(s') == Tables(s) - {z} && z in Tables(s)
      && Pages(s') == Pages(s) - PagesOf(s, z) && PagesOf(s, z) <= Pages(s)
  {
    FreedTableKeepsOthers(s, z);
    hide Inv, Live, ReleasePage, TranslatePage, HasTable;
  }

  lemma FreedTableKeepsOthers(s: Space, z: nat)
    requires Inv(s) && HasTable(s, z) && Releasable(s, 1023, z)
    ensures Live(s, Table(z))
    ensures forall o :: Live(ReleasePage(s, 1023, z), o) <==> Live(s, o) && o != Table(z) && !(o.Page? && o.x == z)
  {
    FreedTable(s, z);
    hide ReleasePage, Releasable, TranslatePage, Inv;
  }

  lemma FaultConserves(s: Space, x: nat, y: nat)
    requires Inv(s) && x < ENTRIES && y < ENTRIES && x != 1023 && TranslatePage(s, x, y) == None && Enough(s, x)
    ensures Overhead(ServeFault(s, x, y)) == Overhead(s)
  {
    EnoughMeans(s);
    UnmappedIsOutsideIdentity(s, x, y);
    if Present(s.mem[s.dir][x]) {
      MapPageConserves(s, x, y);
    } else {
      NewTableKeepsInv(s, x);
      assert Live(NewTable(s, x), Table(x));
      NewTableConserves(s, x);
      MapPageConserves(NewTable(s, x), x, y);
    }
  }

  lemma AdoptionSets(s: Space, x: nat)
    requires Inv(s) && x < ENTRIES && TranslatePage(s, 1023, x) == None && NextFrame(s) != 0
    ensures var s' := ServeFault(s, 1023, x);
      && 1 <= x <= 1022 && x !in Tables(s) && Tables(s') == Tables(s) + {x}
      && Pages(s) <= Pages(s') && Pages(s') - Pages(s) == Pairs(x, AdoptedWords(s.mem[NextFrame(s)]))
  {
    AdoptedOwners(s, x);
    WindowFaultEffect(s, x);
    var s' := ServeFault(s, 1023, x);
    assert !Live(s, Table(x)) && forall y :: !Live(s, Page(x, y));
    hide Inv, ServeFault, HasTable, TranslatePage, Live;
  }

  /** A window fault takes one frame for a table; the pages that come with it were taken already. */
  lemma WindowFaultAdoptsPages(s: Space, x: nat)
    requires Inv(s) && x < ENTRIES && TranslatePage(s, 1023, x) == None && NextFrame(s) != 0
    ensures Overhead(ServeFault(s, 1023, x)) == Overhead(s) - |AdoptedWords(s.mem[NextFrame(s)])|
  {
    AdoptionSets(s, x);
    TakenMovesOne(s.free, s.lo, s.hi);
    WindowFaultEffect(s, x);
    hide Inv, ServeFault, Tables, Pages;
    PairCount(x, AdoptedWords(s.mem[NextFrame(s)]));
  }

  function Pairs(x: nat, ys: set<nat>): set<(nat, nat)> { set y | y in ys :: (x, y) }

  lemma {:induction false} PairCount(x: nat, ys: set<nat>)
    ensures |Pairs(x, ys)| == |ys|
    decreases ys
  {
    if ys == {} {
      assert Pairs(x, ys) == {};
    } else {
      var y :| y in ys;
      PairCount(x, ys - {y});
      assert Pairs(x, ys) == Pairs(x, ys - {y}) + {(x, y)};
    }
  }

  /** By how much an event changes the number of frames in use beyond tables and pages: a free on the
      window leaks the pages of a table, a fault on the window may adopt such pages. */
  function Drift(s: Space, e: Event): int
    requires Typed(s)
  {
    match e
    case Fault(_, _) => if Adopts(s, e) then -|AdoptedWords(s.mem[NextFrame(s)])| else 0
    case Free(p) =>
      var x, z := Dir(PageAddress(p)), Tab(PageAddress(p));
      if x == 1023 && HasTable(s, z) then |PagesOf(s, z)| else 0
  }

  function TotalDrift(s: Space, es: seq<Event>): int
    requires Typed(s)
    decreases |es|
  {
    if es == [] || !Defined(s, es[0]) then 0 else Drift(s, es[0]) + TotalDrift(Step(s, es[0]), es[1..])
  }

  predicate OnWindow(e: Event) {
    Dir(if e.Fault? then e.address else PageAddress(e.pageNumber)) == 1023
  }

  lemma {:induction false} NoDriftOffWindow(s: Space, es: seq<Event>)
    requires Typed(s) && forall n :: 0 <= n < |es| ==> !OnWindow(es[n])
    ensures TotalDrift(s, es) == 0
    decreases |es|
  {
    hide Dir;
    if es != [] && Defined(s, es[0]) {
      NoDriftOffWindow(Step(s, es[0]), es[1..]);
    }
  }

  /** The permitted events are exactly those that keep the invariant. */
  lemma PermittedIff(s: Space, e: Event)
    requires Inv(s)
    ensures Defined(s, e) && (Inv(Step(s, e)) <==> Permitted(s, e))
  {
    match e {
      case Fault(errorCode, address) =>
        var x, y := Dir(address), Tab(address);
        if errorCode % 2 == 0 {
          if TranslatePage(s, x, y) == None {
            FaultKeepsInvIff(s, x, y);
          }
        }
      case Free(p) =>
        FreeKeepsInvIff(s, Dir(PageAddress(p)), Tab(PageAddress(p)));
    }
  }

  lemma StepKeepsInv(s: Space, e: Event)
    requires Inv(s) && Permitted(s, e)
    ensures Defined(s, e) && Inv(Step(s, e)) && Overhead(Step(s, e)) == Overhead(s) + Drift(s, e)
  {
    PermittedIff(s, e);
    match e {
      case Fault(errorCode, address) =>
        var x, y := Dir(address), Tab(address);
        if errorCode % 2 == 0 && TranslatePage(s, x, y) == None {
          if x == 1023 {
            EnoughMeans(s);
            WindowFaultAdoptsPages(s, y);
          } else {
            FaultConserves(s, x, y);
          }
        }
      case Free(p) =>
        FreeDrifts(s, Dir(PageAddress(p)), Tab(PageAddress(p)));
    }
  }

  lemma FreeDrifts(s: Space, x: nat, y: nat)
    requires Inv(s) && y < ENTRIES && (1 <= x <= 1022 || (x == 1023 && 1 <= y <= 1022))
    ensures Releasable(s, x, y)
    ensures Overhead(ReleasePage(s, x, y)) == Overhead(s) + if x == 1023 && HasTable(s, y) then |PagesOf(s, y)| else 0
  {
    InvIsReleasable(s, x, y);
    if TranslatePage(s, x, y).Some? {
      if x == 1023 {
        WindowFreeLeaksPages(s, y);
      } else {
        ReleaseConserves(s, x, y);
      }
    }
  }

  /** Every entry stays one that the kernel writes, except through the table that a window fault links. */
  lemma StepKeepsTidyIff(s: Space, e: Event)
    requires Inv(s) && Tidy(s) && Permitted(s, e)
    ensures Defined(s, e) && (Tidy(Step(s, e)) <==> (Adopts(s, e) ==> AllClean(s.mem[NextFrame(s)])))
  {
    PermittedIff(s, e);
    match e {
      case Fault(errorCode, address) =>
        var x, y := Dir(address), Tab(address);
        if errorCode % 2 == 0 && TranslatePage(s, x, y) == None {
          EnoughMeans(s);
          if x == 1023 {
            WindowFaultKeepsTidyIff(s, y);
          } else {
            FaultKeepsTidy(s, x, y);
          }
        }
      case Free(p) =>
        var x, y := Dir(PageAddress(p)), Tab(PageAddress(p));
        if TranslatePage(s, x, y).Some? {
          if x == 1023 {
            FreeTableKeepsInv(s, y);
          } else {
            ReleaseKeepsInv(s, x, y);
          }
        }
    }
  }

  lemma FaultKeepsTidy(s: Space, x: nat, y: nat)
    requires Inv(s) && Tidy(s) && x < 1023 && y < ENTRIES && TranslatePage(s, x, y) == None && Enough(s, x)
    ensures Tidy(ServeFault(s, x, y))
  {
    EnoughMeans(s);
    UnmappedIsOutsideIdentity(s, x, y);
    if Present(s.mem[s.dir][x]) {
      MapPageKeepsInv(s, x, y);
    } else {
      NewTableKeepsInv(s, x);
      assert Live(NewTable(s, x), Table(x));
      MapPageKeepsInv(NewTable(s, x), x, y);
    }
  }

  lemma {:induction false} RunKeepsInv(s: Space, es: seq<Event>, s': Space)
    requires Inv(s) && Reaches(s, es, s')
    ensures Inv(s') && s'.dir == s.dir && Overhead(s') == Overhead(s) + TotalDrift(s, es)
    decreases |es|
  {
    assert Typed(s);
    hide Inv, Permitted, Drift, Overhead;
    if es != [] {
      StepKeepsInv(s, es[0]);
      RunKeepsInv(Step(s, es[0]), es[1..], s');
    }
  }

  /** Outside the window a mapped page is an identity page or a live use of its frame. */
  lemma MappedPageIsOwned(s: Space, x: nat, y: nat)
    requires Inv(s) && x < 1023 && y < ENTRIES && TranslatePage(s, x, y).Some?
    ensures x == 0 ==> TranslatePage(s, x, y).value == y
    ensures x != 0 ==> Live(s, Page(x, y)) && FrameFor(s, Page(x, y)) == TranslatePage(s, x, y).value >= ENTRIES
  {
  }

  lemma PagesAreDisjoint(s: Space)
    requires Inv(s)
    ensures forall x, y, z, w :: 0 <= x < 1023 && 0 <= y < ENTRIES && 0 <= z < 1023 && 0 <= w < ENTRIES ==>
      TranslatePage(s, x, y).Some? && TranslatePage(s, x, y) == TranslatePage(s, z, w) ==> (x, y) == (z, w)
  {
    forall x, y, z, w | 0 <= x < 1023 && 0 <= y < ENTRIES && 0 <= z < 1023 && 0 <= w < ENTRIES &&
      TranslatePage(s, x, y).Some? && TranslatePage(s, x, y) == TranslatePage(s, z, w)
      ensures (x, y) == (z, w)
    {
      MappedPageIsOwned(s, x, y);
      MappedPageIsOwned(s, z, w);
      if x != 0 && z != 0 {
        assert Page(x, y) == Page(z, w);
      }
    }
  }

  lemma NoTableIsAPage(s: Space)
    requires Inv(s)
    ensures forall x, y :: 0 <= x < 1023 && 0 <= y < ENTRIES && TranslatePage(s, x, y).Some? ==>
      TranslatePage(s, x, y).value != s.dir &&
      forall z :: 0 <= z < 1023 && Present(s.mem[s.dir][z]) ==> TranslatePage(s, x, y).value != TableOf(s, z)
  {
    forall x, y | 0 <= x < 1023 && 0 <= y < ENTRIES && TranslatePage(s, x, y).Some?
      ensures TranslatePage(s, x, y).value != s.dir
      ensures forall z :: 0 <= z < 1023 && Present(s.mem[s.dir][z]) ==> TranslatePage(s, x, y).value != TableOf(s, z)
    {
      MappedPageIsOwned(s, x, y);
      assert Live(s, Directory) && FrameFor(s, Directory) == s.dir;
      forall z | 0 <= z < 1023 && Present(s.mem[s.dir][z])
        ensures TranslatePage(s, x, y).value != TableOf(s, z)
      {
        var o := if z == 0 then FirstTable else Table(z);
        assert Live(s, o) && FrameFor(s, o) == TableOf(s, z);
      }
    }
  }

  /** Safety and frame accounting in every state reachable from a freshly built page table. */
  lemma ReachableStatesAreSafe(start: Space, es: seq<Event>, s: Space)
    requires Typed(start) && ENTRIES <= start.lo && 2 <= |Available(start.free, start.lo, start.hi)|
    requires Reaches(Construct(start), es, s)
    ensures Typed(s) && s.mem[s.dir][1023] == Entry(s.dir)
    // the first 4 MB are identity-mapped
    ensures forall y :: 0 <= y < ENTRIES ==> TranslatePage(s, 0, y) == Some(y)
    // two pages outside the window never share a frame
    ensures forall x, y, z, w :: 0 <= x < 1023 && 0 <= y < ENTRIES && 0 <= z < 1023 && 0 <= w < ENTRIES ==>
      TranslatePage(s, x, y).Some? && TranslatePage(s, x, y) == TranslatePage(s, z, w) ==> (x, y) == (z, w)
    // neither the directory nor a table is reachable as a page outside the window
    ensures forall x, y :: 0 <= x < 1023 && 0 <= y < ENTRIES && TranslatePage(s, x, y).Some? ==>
      TranslatePage(s, x, y).value != s.dir &&
      forall z :: 0 <= z < 1023 && Present(s.mem[s.dir][z]) ==> TranslatePage(s, x, y).value != TableOf(s, z)
    // frames taken since the start: directory, first table, tables made by faults, mapped pages, and
    // those that events on the window have leaked
    ensures FramesInUse(s) == FramesInUse(start) + 2 + |Tables(s)| + |Pages(s)| + TotalDrift(Construct(start), es)
    ensures (forall n :: 0 <= n < |es| ==> !OnWindow(es[n])) ==> TotalDrift(Construct(start), es) == 0
  {
    ConstructEstablishesInv(start);
    var s0 := Construct(start);
    RunKeepsInv(s0, es, s);
    ConstructTakesTwo(start);
    if forall n :: 0 <= n < |es| ==> !OnWindow(es[n]) {
      NoDriftOffWindow(s0, es);
    }
    PagesAreDisjoint(s);
    NoTableIsAPage(s);
  }

  lemma ConstructTakesTwo(s: Space)
    requires Typed(s) && ENTRIES <= s.lo && 2 <= |Available(s.free, s.lo, s.hi)|
    ensures Overhead(Construct(s)) == FramesInUse(s) + 2
  {
    ConstructEstablishesInv(s);
    EnoughMeans(s);
    TakenMovesOne(s.free, s.lo, s.hi);
    TakenMovesOne(TakeFrame(s).free, s.lo, s.hi);
    var s' := Construct(s);
    assert Tables(s') == {} && Pages(s') == {};
  }
}
