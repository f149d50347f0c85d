/** thread.C: a new thread's stack is forged so that switching to it starts the thread. */
module Thread {
  import opened Words
  import opened Cpu
  import opened ContextSwitch

  /** Addresses of the two C functions that wrap a thread function. */
  datatype Entries = Entries(threadStart: Word, threadShutdown: Word)

  /** Three start-up words and one frame: 80 bytes. */
  const FORGED_SIZE: nat := 80

  function StartRegisters(entries: Entries, top: Word): Registers
    requires FORGED_SIZE <= top
  {
    Registers(0, 0, 0, 0, top - 12, 0, 0, 0, KERNEL_DS, KERNEL_DS, 0, 0, KERNEL_CS, entries.threadStart, 0)
  }

  /** A thread about to start: in thread_start, with interrupts off, the kernel's segments, all other
      registers 0 and the three start-up words on its stack. */
  predicate Starts(r: Registers, entries: Entries, top: Word) {
    && r.eax == r.ecx == r.edx == r.ebx == r.ebp == r.esi == r.edi == 0
    && r.ds == r.es == 0x10 && r.fs == r.gs == 0 && r.cs == 0x08 && r.eflags == 0
    && r.eip == entries.threadStart && r.esp == top - 12
  }

  predicate TopFits(top: Word) {
    top % 4 == 0 && FORGED_SIZE <= top
  }

  /** The effect of the constructor on the machine: top is the end of the stack. */
  ghost predicate Forges(c: Core, block: Word, body: Word, entries: Entries, top: Word, c': Core)
    requires |c.mem| == WORD_LIMIT && TopFits(top)
  {
    && |c'.mem| == WORD_LIMIT && c'.current == c.current
    && c'.r == c.r.(eflags := WithoutIF(c.r.eflags))
    && c'.mem[block] == top - FORGED_SIZE
    && Unframe(c'.mem, top - FORGED_SIZE) == StartRegisters(entries, top)
    && c'.mem[top - 12] == body && c'.mem[top - 8] == entries.threadShutdown && c'.mem[top - 4] == 0
    && forall a :: 0 <= a < WORD_LIMIT && a != block && !(top - FORGED_SIZE <= a < top) ==> c'.mem[a] == c.mem[a]
  }

  /** The counter behind thread ids. */
  class Ids {
    var nextFreePid: int

    constructor ()
      ensures nextFreePid == 0
    {
      nextFreePid := 0;
    }
  }

  class Thread {
    const block: Word        // address of the control block; its first word is esp
    var threadId: int
    var stack: Word
    var stackSize: Word

    constructor (cpu: Processor, at: Word, ids: Ids, body: Word, entries: Entries, stack: Word, stackSize: Word)
      requires cpu.Valid() && stack + stackSize < WORD_LIMIT && TopFits(stack + stackSize)
      requires at % 4 == 0 && !(stack + stackSize - FORGED_SIZE <= at < stack + stackSize)
      modifies cpu`r, cpu.memory, ids
      ensures threadId == old(ids.nextFreePid) && ids.nextFreePid == old(ids.nextFreePid) + 1
      ensures block == at && this.stack == stack && this.stackSize == stackSize
      ensures Forges(old(cpu.State()), at, body, entries, stack + stackSize, cpu.State())
    {
      block := at;
      threadId := ids.nextFreePid;
      this.stack := stack;
      this.stackSize := stackSize;
      new;
      ids.nextFreePid := ids.nextFreePid + 1;
      cpu.memory[block] := stack + stackSize;
      SetupContext(cpu, body, entries);
    }

    ghost predicate CanPush(cpu: Processor, n: nat)
      reads this, cpu, cpu.memory
    {
      && cpu.Valid() && cpu.memory[block] % 4 == 0 && 4 * n <= cpu.memory[block]
      && !(cpu.memory[block] - 4 * n <= block < cpu.memory[block])
    }

    method Push(cpu: Processor, value: Word)
      requires CanPush(cpu, 1)
      modifies cpu.memory
      ensures cpu.memory[block] == old(cpu.memory[block]) - 4 && cpu.memory[cpu.memory[block]] == value
      ensures forall a :: 0 <= a < WORD_LIMIT && a != block && a != cpu.memory[block] ==>
        cpu.memory[a] == old(cpu.memory[a])
    {
      cpu.memory[block] := cpu.memory[block] - 4;
      cpu.memory[cpu.memory[block]] := value;
    }

    /** Argument, return address and thread function. */
    method PushStartup(cpu: Processor, body: Word, entries: Entries)
      requires CanPush(cpu, 3)
      modifies cpu.memory
      ensures var p := cpu.memory[block];
        && p == old(cpu.memory[block]) - 12
        && cpu.memory[p] == body && cpu.memory[p + 4] == entries.threadShutdown && cpu.memory[p + 8] == 0
      ensures forall a :: 0 <= a < WORD_LIMIT && a != block && !(cpu.memory[block] <= a < cpu.memory[block] + 12) ==>
        cpu.memory[a] == old(cpu.memory[a])
    {
      Push(cpu, 0);
      Push(cpu, entries.threadShutdown);
      Push(cpu, body);
    }

    /** eflags, cs, eip, error code and interrupt number. */
    method PushReturn(cpu: Processor, entries: Entries)
      requires CanPush(cpu, 5)
      modifies cpu.memory
      ensures var p := cpu.memory[block];
        && p == old(cpu.memory[block]) - 20
        && cpu.memory[p + 8] == entries.threadStart && cpu.memory[p + 12] == KERNEL_CS && cpu.memory[p + 16] == 0
      ensures forall a :: 0 <= a < WORD_LIMIT && a != block && !(cpu.memory[block] <= a < cpu.memory[block] + 20) ==>
        cpu.memory[a] == old(cpu.memory[a])
    {
      Push(cpu, 0);
      Push(cpu, KERNEL_CS);
      Push(cpu, entries.threadStart);
      Push(cpu, 0);
      Push(cpu, 0);
    }

    /** eax, ecx, edx, ebx, esp, ebp, esi, edi, all zero. */
    method PushGeneral(cpu: Processor)
      requires CanPush(cpu, 8)
      modifies cpu.memory
      ensures var p := cpu.memory[block];
        && p == old(cpu.memory[block]) - 32
        && cpu.memory[p] == cpu.memory[p + 4] == cpu.memory[p + 8] == cpu.memory[p + 12] == 0
        && cpu.memory[p + 16] == cpu.memory[p + 20] == cpu.memory[p + 24] == cpu.memory[p + 28] == 0
      ensures forall a :: 0 <= a < WORD_LIMIT && a != block && !(cpu.memory[block] <= a < cpu.memory[block] + 32) ==>
        cpu.memory[a] == old(cpu.memory[a])
    {
      Push(cpu, 0);
      Push(cpu, 0);
      Push(cpu, 0);
      Push(cpu, 0);
      Push(cpu, 0);
      Push(cpu, 0);
      Push(cpu, 0);
      Push(cpu, 0);
    }

    /** ds, es, fs, gs. */
    method PushSegments(cpu: Processor)
      requires CanPush(cpu, 4)
      modifies cpu.memory
      ensures var p := cpu.memory[block];
        && p == old(cpu.memory[block]) - 16
        && cpu.memory[p] == cpu.memory[p + 4] == 0 && cpu.memory[p + 8] == cpu.memory[p + 12] == KERNEL_DS
      ensures forall a :: 0 <= a < WORD_LIMIT && a != block && !(cpu.memory[block] <= a < cpu.memory[block] + 16) ==>
        cpu.memory[a] == old(cpu.memory[a])
    {
      Push(cpu, KERNEL_DS);
      Push(cpu, KERNEL_DS);
      Push(cpu, 0);
      Push(cpu, 0);
    }

    method SetupContext(cpu: Processor, body: Word, entries: Entries)
      requires CanPush(cpu, 20)
      modifies cpu`r, cpu.memory
      ensures TopFits(old(cpu.memory[block]))
      ensures cpu.r == old(cpu.r).(eflags := WithoutIF(old(cpu.r.eflags)))
      ensures var top := old(cpu.memory[block]);
        && cpu.memory[block] == top - FORGED_SIZE
        && Unframe(cpu.memory[..], top - FORGED_SIZE) == StartRegisters(entries, top)
        && cpu.memory[top - 12] == body && cpu.memory[top - 8] == entries.threadShutdown && cpu.memory[top - 4] == 0
      ensures var p := cpu.memory[block];
        forall a :: 0 <= a < WORD_LIMIT && a != block && !(p <= a < p + FORGED_SIZE) ==>
          cpu.memory[a] == old(cpu.memory[a])
    {
      if InterruptsEnabled(cpu.r.eflags) {
        cpu.r := cpu.r.(eflags := WithoutIF(cpu.r.eflags));
      }
      PushStartup(cpu, body, entries);
      PushReturn(cpu, entries);
      PushGeneral(cpu);
      PushSegments(cpu);
    }
  }

  // ---- The forged frame ----

  /** The control block and stack of a new thread: 80 bytes at least, clear of the others. */
  ghost predicate NewThread(ts: Threads, block: Word, a: Area) {
    && block !in ts && Layout(ts[block := a])
    && a.hi < WORD_LIMIT && TopFits(a.hi) && a.lo + FORGED_SIZE <= a.hi
  }

  ghost predicate Creates(c: Core, ts: Threads, block: Word, body: Word, entries: Entries, a: Area, c': Core) {
    && |c.mem| == WORD_LIMIT && Layout(ts) && NewThread(ts, block, a)
    && Forges(c, block, body, entries, a.hi, c')
  }

  lemma CreationKeepsThread(c: Core, ts: Threads, block: Word, body: Word, entries: Entries, a: Area, c': Core, t: Word)
    requires Creates(c, ts, block, body, entries, a, c') && t in ts
    ensures KeepsThread(c.mem, c'.mem, t, ts[t])
  {
    hide Unframe, Suspended;
    var us := ts[block := a];
    assert us[t] == ts[t] && us[block] == a;
    assert Disjoint(t, us[t], block, us[block]) && Disjoint(block, us[block], t, us[t]);
  }

  /** A thread created while another one runs: switching to it enters thread_start with zeroed registers
      and interrupts off, it joins the others without disturbing them, and its frame is on its stack. */
  lemma ForgedThreadIsSuspended(c: Core, ts: Threads, block: Word, body: Word, entries: Entries, a: Area, c': Core)
    requires Valid(c, ts) && Creates(c, ts, block, body, entries, a, c')
    ensures Valid(c', ts[block := a])
    ensures RegistersOf(c', ts[block := a], block) == StartRegisters(entries, a.hi)
    ensures Starts(RegistersOf(c', ts[block := a], block), entries, a.hi)
    ensures forall t :: t in ts && t != c.current ==> ViewOf(c', ts[block := a], t) == ViewOf(c, ts, t)
  {
    hide Unframe;
    var us := ts[block := a];
    forall t | t in us && t != c'.current
      ensures Suspended(c'.mem, t, us[t])
    {
      if t != block {
        CreationKeepsThread(c, ts, block, body, entries, a, c', t);
        assert Suspended(c.mem, t, ts[t]);
      }
    }
    forall t | t in ts && t != c.current
      ensures ViewOf(c', us, t) == ViewOf(c, ts, t)
    {
      CreationKeepsThread(c, ts, block, body, entries, a, c', t);
      SuspendedView(c, ts, c', us, t);
    }
  }

  lemma SuspendedView(c: Core, ts: Threads, c': Core, us: Threads, t: Word)
    requires Valid(c, ts) && Valid(c', us) && t in ts && t in us && us[t] == ts[t]
    requires t != c.current && t != c'.current && KeepsThread(c.mem, c'.mem, t, ts[t])
    ensures ViewOf(c', us, t) == ViewOf(c, ts, t)
  {
    assert Suspended(c.mem, t, ts[t]);
    UnframeDependsOnFrame(c.mem, c'.mem, c.mem[t]);
    hide Unframe;
    var from, hi := c.mem[t] + FRAME_SIZE, ts[t].hi;
    assert c'.mem[from..hi] == c.mem[from..hi];
  }

  /** With a stack of fewer than 80 bytes the frame reaches below it. */
  lemma ForgedFrameFitsIff(c: Core, block: Word, body: Word, entries: Entries, a: Area, c': Core)
    requires |c.mem| == WORD_LIMIT && a.lo <= a.hi < WORD_LIMIT && TopFits(a.hi)
    requires Forges(c, block, body, entries, a.hi, c')
    ensures Suspended(c'.mem, block, a) <==> FORGED_SIZE <= a.hi - a.lo
  {
    hide Unframe;
  }

  /** RET. */
  function AfterRet(r: Registers, mem: seq<Word>): Registers
    requires |mem| == WORD_LIMIT && r.esp + 4 < WORD_LIMIT
  {
    r.(eip := mem[r.esp], esp := r.esp + 4)
  }

  /** thread_start turns interrupts on and returns. */
  function AfterThreadStart(r: Registers, mem: seq<Word>): Registers
    requires |mem| == WORD_LIMIT && r.esp + 4 < WORD_LIMIT
  {
    AfterRet(if InterruptsEnabled(r.eflags) then r else r.(eflags := r.eflags - r.eflags / 64 % 2 * 64 + 64), mem)
  }

  /** From the forged registers: thread_start's return enters the thread function with interrupts on;
      a thread function that comes back with its esp, having left the words above it alone, returns
      into thread_shutdown. */
  lemma ThreadRunsThenShutsDown(c: Core, block: Word, body: Word, entries: Entries, top: Word, c': Core,
                                r: Registers, mem: seq<Word>)
    requires |c.mem| == |mem| == WORD_LIMIT && TopFits(top)
    requires Forges(c, block, body, entries, top, c')
    requires r.esp == AfterThreadStart(Unframe(c'.mem, top - FORGED_SIZE), c'.mem).esp
    requires SameWords(c'.mem, mem, r.esp, top)
    ensures var entered := AfterThreadStart(Unframe(c'.mem, top - FORGED_SIZE), c'.mem);
      entered.eip == body && InterruptsEnabled(entered.eflags)
    ensures AfterRet(r, mem).eip == entries.threadShutdown
  {
    hide Unframe;
    assert mem[top - 8] == c'.mem[top - 8];
  }
}
