/** The page-table code itself: every access with paging on is translated by the structure being
    edited. */
module PageTable {
  import opened Words
  import FP = FramePool
  import opened Mmu
  import opened AddressSpace
  import opened PagingTheorems

  class PageTable {
    const machine: Machine
    const pool: FP.FramePool        // process_mem_pool
    var pageDirectory: Word         // physical address

    ghost predicate Valid()
      reads this, machine, pool, machine.ram, pool.indicator
    {
      && machine.Valid() && pool.Valid() && 0 < pool.startFrame
      && pageDirectory % 0x1000 == 0
    }

    /** The address space as a value. */
    ghost function State(): (s: Space)
      reads this, machine, pool, machine.ram, pool.indicator
      requires Valid()
      ensures Typed(s)
    {
      Space(machine.ram[..], FrameOf(pageDirectory), pool.indicator[..],
            pool.startFrame, pool.startFrame + pool.frameCount)
    }

    /** Paging is still off: stores go to physical memory. */
    constructor (m: Machine, p: FP.FramePool)
      requires m.Valid() && p.Valid() && 0 < p.startFrame
      modifies m.ram, p.indicator
      ensures Valid() && machine == m && pool == p
      ensures State() ==
        Construct(Space(old(m.ram[..]), 0, old(p.indicator[..]), p.startFrame, p.startFrame + p.frameCount))
    {
      machine, pool, pageDirectory := m, p, 0;
      new;
      ghost var s := Space(m.ram[..], 0, p.indicator[..], p.startFrame, p.startFrame + p.frameCount);
      var d := p.GetFrame();
      assert d == NextFrame(s);
      pageDirectory := d * 4096;
      m.ram[d] := m.ram[d][1023 := WithFlags(pageDirectory)];
      var t := p.GetFrame();
      assert t == NextFrame(TakeFrame(s));
      m.ram[d] := m.ram[d][0 := WithFlags(t * 4096)];
      var first := FrameOf(m.ram[d][0]);
      assert m.ram[..] == WriteWord(WriteWord(s.mem, d, 1023, Entry(d)), d, 0, Entry(t));
      assert first == t;
      FillIdentity(m, first);
      FillBlank(m, d);
    }

    /** The loop that maps the first 4 MB, with physical stores. */
    static method FillIdentity(m: Machine, first: nat)
      requires m.Valid() && first < FRAMES
      modifies m.ram
      ensures m.ram[..] == old(m.ram[..])[first := Identity(old(m.ram[first]), ENTRIES)]
    {
      ghost var linked := m.ram[..];
      assert Identity(linked[first], 0) == linked[first];
      var i := 0;
      while i <= 1023
        invariant 0 <= i <= 1024
        invariant m.ram[..] == linked[first := Identity(linked[first], i)]
      {
        m.ram[first] := m.ram[first][i := WithFlags(i * 4096)];
        assert Identity(linked[first], i)[i := Entry(i)] == Identity(linked[first], i + 1);
        i := i + 1;
      }
    }

    /** The loop that marks directory entries 1..1022 not present, with physical stores. */
    static method FillBlank(m: Machine, d: nat)
      requires m.Valid() && d < FRAMES
      modifies m.ram
      ensures m.ram[..] == old(m.ram[..])[d := Blanked(old(m.ram[d]), 1, 1023)]
    {
      ghost var mapped := m.ram[..];
      assert Blanked(mapped[d], 1, 1) == mapped[d];
      var i := 1;
      while i <= 1022
        invariant 1 <= i <= 1023
        invariant m.ram[..] == mapped[d := Blanked(mapped[d], 1, i)]
      {
        m.ram[d] := m.ram[d][i := BLANK];
        assert Blanked(mapped[d], 1, i)[i := BLANK] == Blanked(mapped[d], 1, i + 1);
        i := i + 1;
      }
    }

    /** write_cr3: the processor starts to use this directory. */
    method Load()
      requires Valid() && Inv(State())
      modifies machine`cr3
      ensures Running() && State() == old(State())
    {
      machine.cr3 := pageDirectory / 0x1000;
      assert FrameFor(State(), Directory) == machine.cr3;
    }

    /** This directory is in use, its frame is reserved and the self map lets the code reach it. */
    ghost predicate Running()
      reads this, machine, pool, machine.ram, pool.indicator
    {
      && Valid() && machine.cr3 == FrameOf(pageDirectory)
      && machine.ram[machine.cr3][1023] == Entry(machine.cr3)
      && machine.cr3 != 0 && !(machine.cr3 < FP.TABLE_SIZE && pool.indicator[machine.cr3])
    }

    /** Read entry y of table x through the window. */
    method LoadEntry(x: nat, y: nat) returns (entry: Word)
      requires Running() && x < ENTRIES && y < ENTRIES && Present(machine.ram[machine.cr3][x])
      ensures entry == machine.ram[FrameOf(machine.ram[machine.cr3][x])][y]
    {
      RecursiveWindow(machine.ram[..], machine.cr3, x, y);
      hide Lookup, Dir, Tab, Slot;
      entry := machine.Load(0xFFC0_0000 + x * 4096 + y * 4);
    }

    /** Write entry y of table x through the window. */
    method StoreEntry(x: nat, y: nat, entry: Word)
      requires machine.Valid() && machine.ram[machine.cr3][1023] == Entry(machine.cr3)
      requires x < ENTRIES && y < ENTRIES && Present(machine.ram[machine.cr3][x])
      modifies machine.ram
      ensures machine.ram[..] == WriteWord(old(machine.ram[..]), FrameOf(old(machine.ram[machine.cr3][x])), y, entry)
    {
      ghost var mem := machine.ram[..];
      RecursiveWindow(mem, machine.cr3, x, y);
      hide Lookup, Dir, Tab, Slot, Present, FrameOf;
      var va: Word := 0xFFC0_0000 + x * 4096 + y * 4;
      assert va % 4 == 0 && Slot(va) == y && Walk(mem, machine.cr3, va) == Some(FrameOf(mem[machine.cr3][x]));
      hide *;
      machine.Store(va, entry);
    }

    /** Exception 14.  cr2 holds the faulting address; slot 1023 of the window is the directory. */
    method HandleFault(errorCode: Word, cr2: Word)
      requires Running()
      modifies machine.ram, pool.indicator
      ensures Valid() && State() == Step(old(State()), Fault(errorCode, cr2))
      // a fault on a missing page maps it, to frame 0 when the pool lacks a frame; any other changes nothing
      ensures old(Inv(State())) ==>
        if errorCode % 2 == 1 || old(Walk(machine.ram[..], machine.cr3, cr2)).Some? then State() == old(State())
        else if old(Enough(State(), cr2 / 0x40_0000)) then MapsPageOf(old(State()), cr2, State())
        else Walk(machine.ram[..], machine.cr3, cr2) == Some(0)
    {
      ghost var s := State();
      if Inv(s) {
        StepMapsTheMissingPage(s, errorCode, cr2);
      }
      hide NewTable, MapPage, Lookup, NextFrame, TakeFrame, Entry;
      if errorCode % 2 == 0 {
        var pdIndex := cr2 / 0x40_0000;
        var ptIndex := cr2 / 0x1000 % 0x400;
        var pde := LoadEntry(1023, pdIndex);
        if pde % 2 == 0 {
          MakeTable(pdIndex);
        }
        FillEntry(pdIndex, ptIndex);
      }
    }

    /** The part of handle_fault that runs when the directory entry is not present. */
    method MakeTable(pdIndex: nat)
      requires Running() && pdIndex < ENTRIES && !Present(machine.ram[machine.cr3][pdIndex])
      modifies machine.ram, pool.indicator
      ensures Running() && State() == NewTable(old(State()), pdIndex)
      ensures Present(machine.ram[machine.cr3][pdIndex])
    {
      ghost var s := State();
      var frame := pool.GetFrame();
      assert frame == NextFrame(s) != s.dir;
      assert s.dir < FP.TABLE_SIZE ==> !pool.indicator[..][s.dir];
      StoreEntry(1023, pdIndex, WithFlags(frame * 4096));
      ghost var linked := machine.ram[..];
      assert Blanked(linked[frame], 0, 0) == linked[frame];
      assert linked[s.dir][1023] == Entry(s.dir) && linked[s.dir][pdIndex] == Entry(frame);
      var i := 0;
      while i <= 1023
        modifies machine.ram
        invariant 0 <= i <= 1024
        invariant machine.ram[..] == linked[frame := Blanked(linked[frame], 0, i)]
      {
        ghost var mem := machine.ram[..];
        assert mem[s.dir] == linked[s.dir];
        StoreEntry(pdIndex, i, 2);
        assert Blanked(linked[frame], 0, i)[i := BLANK] == Blanked(linked[frame], 0, i + 1);
        assert WriteWord(mem, frame, i, BLANK) == linked[frame := Blanked(linked[frame], 0, i + 1)];
        i := i + 1;
      }
      assert machine.ram[..][s.dir] == linked[s.dir];
    }

    /** The part of handle_fault that maps the page once its table exists. */
    method FillEntry(pdIndex: nat, ptIndex: nat)
      requires Running() && pdIndex < ENTRIES && ptIndex < ENTRIES && Present(machine.ram[machine.cr3][pdIndex])
      modifies machine.ram, pool.indicator
      ensures Valid() && State() == MapPage(old(State()), pdIndex, ptIndex)
    {
      var pte := LoadEntry(pdIndex, ptIndex);
      if pte % 2 == 0 {
        var frame := pool.GetFrame();
        assert frame == NextFrame(old(State()));
        StoreEntry(pdIndex, ptIndex, WithFlags(frame * 4096));
      }
    }

    method FreePage(pageNumber: Word)
      requires Running() && Defined(State(), Free(pageNumber))
      modifies machine.ram, pool.indicator
      ensures Valid() && State() == Step(old(State()), Free(pageNumber))
      ensures old(Inv(State())) ==> FreesPage(old(State()), pageNumber, State())
    {
      ghost var s := State();
      if Inv(s) {
        StepFreesThePage(s, pageNumber);
      }
      var virtualAddress := Wrap(pageNumber * 4096);
      var pdIndex := virtualAddress / 0x40_0000;
      var ptIndex := virtualAddress / 0x1000 % 0x400;
      var pde := LoadEntry(1023, pdIndex);
      if pde % 2 != 0 {
        var pte := LoadEntry(pdIndex, ptIndex);
        if pte % 2 != 0 {
          var frameAddress := pte - pte % 0x1000;
          FP.FramePool.ReleaseFrame(pool.indicator, frameAddress / 4096);
          StoreEntry(pdIndex, ptIndex, 2);
        }
      }
    }

    /** Any run of faults and frees, by induction over the real handlers. */
    method Serve(events: seq<Event>, ghost final: Space)
      requires Running() && Inv(State()) && Reaches(State(), events, final)
      modifies machine.ram, pool.indicator
      ensures Running() && Inv(State()) && State() == final
    {
      var n := 0;
      while n < |events|
        invariant 0 <= n <= |events|
        invariant Running() && Inv(State()) && Reaches(State(), events[n..], final)
      {
        assert events[n..][0] == events[n] && events[n..][1..] == events[n + 1..];
        StepKeepsInv(State(), events[n]);
        ghost var next := Step(State(), events[n]);
        assert FrameFor(next, Directory) == next.dir;
        hide Inv, Step, Permitted;
        match events[n] {
          case Fault(errorCode, address) => HandleFault(errorCode, address);
          case Free(page) => FreePage(page);
        }
        n := n + 1;
      }
    }
  }

  /** The frame table and both pools, with frames 0..511 and the hole at 15 MB kept out. */
  method SetUpPools() returns (processPool: FP.FramePool)
    ensures fresh(processPool.indicator) && processPool.Valid()
    ensures processPool.startFrame == 1024 && processPool.frameCount == 7168
    ensures forall f :: 0 <= f < FP.TABLE_SIZE ==> processPool.indicator[f] == (514 <= f < 3840 || 4096 <= f)
  {
    var indicator := new bool[FP.TABLE_SIZE];
    FP.FramePool.FrameInit(indicator);
    var kernelPool := new FP.FramePool(indicator, 512, 512, 0);
    ghost var free := indicator[..];
    assert 513 in FP.Available(free, 512, 1024);
    FP.FirstFreeIsLeast(free, 512, 1024);
    var info := kernelPool.GetFrame();
    assert info == 513;
    processPool := new FP.FramePool(indicator, 1024, 7168, info);
    processPool.MarkInaccessible(3840, 256);
  }

  /** The kernel's set-up: the frame table, both pools, the hole in physical memory, the page table and paging. */
  method Boot(machine: Machine) returns (table: PageTable)
    requires machine.Valid()
    modifies machine, machine.ram
    ensures fresh(table) && table.Running() && Inv(table.State())
    ensures table.machine == machine && fresh(table.pool.indicator)
    ensures |Pages(table.State())| == |Tables(table.State())| == 0
    // what is left for the kernel and for the process pool, around the hole
    ensures forall f :: 0 <= f < FP.TABLE_SIZE ==>
      table.State().free[f] == (514 <= f < 1024 || 1026 <= f < 3840 || 4096 <= f)
  {
    var processPool := SetUpPools();
    ghost var start := Space(machine.ram[..], 0, processPool.indicator[..], 1024, 8192);
    TwoAvailable(start);
    table := new PageTable(machine, processPool);
    ConstructEstablishesInv(start);
    NothingMapped(start);
    TakesFirstTwo(start);
    hide Inv, Construct, Tables, Pages;
    table.Load();
  }

  /** Freeing page 512 right after the set-up takes it out of the identity map, and the kernel's pool
      hands out its frame next. */
  method FreeKernelPage(machine: Machine) returns (table: PageTable)
    requires machine.Valid()
    modifies machine, machine.ram
    ensures table.Valid() && !Inv(table.State()) && TranslatePage(table.State(), 0, 512) == None
    ensures FP.FirstFree(table.State().free, 512, 1024) == 512
  {
    table := Boot(machine);
    ghost var s := table.State();
    FreeKeepsInvIff(s, 0, 512);
    assert PageAddress(512) == 512 * 4096 && Dir(512 * 4096) == 0 && Tab(512 * 4096) == 512;
    IdentityPageIsFreed(s, 512);
    hide Inv, ReleasePage, TranslatePage;
    table.FreePage(512);
  }

  lemma IdentityPageIsFreed(s: Space, y: nat)
    requires Inv(s) && y < ENTRIES && Releasable(s, 0, y)
    ensures ReleasePage(s, 0, y).free[y] && TranslatePage(ReleasePage(s, 0, y), 0, y) == None
  {
    assert FrameFor(s, FirstTable) != FrameFor(s, Directory);
    assert TranslatePage(s, 0, y) == Some(y);
  }

  lemma TakesFirstTwo(s: Space)
    requires Typed(s) && s.lo == 1024 && 1026 <= s.hi && s.free[1024] && s.free[1025]
    ensures Construct(s).free == s.free[1024 := false][1025 := false]
  {
    FP.FirstFreeIsLeast(s.free, s.lo, s.hi);
    FP.FirstFreeIsLeast(TakeFrame(s).free, s.lo, s.hi);
    assert NextFrame(s) == 1024 && NextFrame(TakeFrame(s)) == 1025;
  }

  lemma TwoAvailable(s: Space)
    requires Typed(s) && s.lo <= 1024 && 1026 <= s.hi && s.free[1024] && s.free[1025]
    ensures 2 <= |FP.Available(s.free, s.lo, s.hi)|
  {
    var a := FP.Available(s.free, s.lo, s.hi);
    assert a == {1024, 1025} + (a - {1024, 1025});
  }

  lemma NothingMapped(s: Space)
    requires Typed(s) && ENTRIES <= s.lo && 2 <= |FP.Available(s.free, s.lo, s.hi)|
    ensures Tables(Construct(s)) == {} && Pages(Construct(s)) == {}
  {
    ConstructEstablishesInv(s);
  }
}
