/** threads_low.asm: the context switch, instruction by instruction. */
module ThreadsLow {
  import opened Words
  import opened Cpu

  /** What the caller sees once its call to threads_low_switch_to returns: only eip and esp have moved
      on, cs is the kernel's and the status flags are those of the stub's own `add esp, 8`. */
  function Returned(r: Registers, returnAddress: Word): (r': Registers)
    requires 4 <= r.esp && r.esp + 4 < WORD_LIMIT
    ensures r'.esp == r.esp + 4
  {
    r.(eip := returnAddress, esp := r.esp + 4, cs := KERNEL_CS, eflags := AfterAdd(r.eflags, r.esp - 4, 8))
  }

  /** A caller that is back from its call: at the return address, one word up the stack, in the kernel's code
      segment, and otherwise as it was, except for the status flags (the low six bits of eflags). */
  predicate BackFromCall(r: Registers, returnAddress: Word, r': Registers) {
    && r'.eax == r.eax && r'.ecx == r.ecx && r'.edx == r.edx && r'.ebx == r.ebx
    && r'.ebp == r.ebp && r'.esi == r.esi && r'.edi == r.edi
    && r'.ds == r.ds && r'.es == r.es && r'.fs == r.fs && r'.gs == r.gs
    && r'.eip == returnAddress && r'.esp == r.esp + 4 && r'.cs == 0x08
    && r'.eflags / 64 == r.eflags / 64
  }

  lemma ReturnedIsBack(r: Registers, returnAddress: Word)
    requires 4 <= r.esp && r.esp + 4 < WORD_LIMIT
    ensures BackFromCall(r, returnAddress, Returned(r, returnAddress))
  {
    hide AddStatus;
  }

  /** Status flags set before the stub's `add` do not reach the saved frame. */
  lemma StatusIsOverwritten(r: Registers, x: Word, y: Word)
    requires 4 <= r.esp && r.esp + 4 < WORD_LIMIT
    ensures forall a :: Returned(r.(eflags := AfterSub(r.eflags, x, y)), a) == Returned(r, a)
  {
    hide AddStatus, SubStatus;
  }

  /** Room for the frame below the call, and for the argument above it. */
  predicate CallFits(r: Registers) {
    r.esp % 4 == 0 && FRAME_SIZE - 4 <= r.esp && r.esp + 8 < WORD_LIMIT
  }

  /** The frame that a call with this stack pointer leaves behind. */
  function SavedAt(r: Registers): int { r.esp - 64 }

  /** That frame brings the caller back. */
  ghost predicate BringsBack(c: Core, mem: seq<Word>)
    requires |c.mem| == |mem| == WORD_LIMIT && CallFits(c.r)
  {
    BackFromCall(c.r, c.mem[c.r.esp], Unframe(mem, SavedAt(c.r)))
  }

  /** Where the next thread's frame is, once the current thread's esp has been stored. */
  function NextFrame(c: Core, next: Word): (p: Word)
    requires |c.mem| == WORD_LIMIT && CallFits(c.r)
  {
    if c.current == next && next != 0 then SavedAt(c.r) else c.mem[next]
  }

  /** The effect of threads_low_switch_to(next). */
  ghost predicate Switches(c: Core, next: Word, c': Core)
    requires |c.mem| == WORD_LIMIT && CallFits(c.r) && FrameFits(NextFrame(c, next))
  {
    && |c'.mem| == WORD_LIMIT
    && c'.current == next
    && c'.r == Unframe(c'.mem, NextFrame(c, next))
    && if c.current == 0 then c'.mem == c.mem
       else
         && c'.mem[c.current] == SavedAt(c.r)
         && Unframe(c'.mem, SavedAt(c.r)) == Returned(c.r, c.mem[c.r.esp])
         && (forall a :: 0 <= a < WORD_LIMIT && a != c.current && !(SavedAt(c.r) <= a <= c.r.esp) ==>
               c'.mem[a] == c.mem[a])
  }

  /** The thread control block and the frame of the switch do not overlap. */
  predicate Separate(t: Word, r: Registers) {
    t % 4 == 0 && !(SavedAt(r) <= t <= r.esp + 4)
  }

  /** push eax .. sub esp, 4: the call's stack slot becomes the top of an interrupt frame. */
  method Reshape(cpu: Processor)
    requires cpu.Valid() && CallFits(cpu.r)
    modifies cpu`r, cpu.memory
    ensures cpu.r == old(cpu.r).(esp := old(cpu.r.esp) - 8, eflags := cpu.r.eflags)
    ensures var e := old(cpu.r.esp);
      && cpu.memory[e - 8] == old(cpu.memory[cpu.r.esp])
      && cpu.memory[e - 4] == KERNEL_CS
      && cpu.memory[e] == AfterAdd(old(cpu.r.eflags), e - 4, 8)
    ensures forall a :: 0 <= a < WORD_LIMIT && !(cpu.r.esp <= a <= old(cpu.r.esp)) ==>
      cpu.memory[a] == old(cpu.memory[a])
  {
    hide AddStatus, SubStatus;
    cpu.Push(cpu.r.eax);
    cpu.r := cpu.r.(eax := cpu.memory[cpu.r.esp + 4]);  // return address
    cpu.memory[cpu.r.esp - 4] := cpu.r.eax;
    cpu.AddEsp(8);
    cpu.Push(cpu.r.eflags);
    cpu.r := cpu.r.(eax := cpu.memory[cpu.r.esp - 4]);
    cpu.Push(KERNEL_CS);
    cpu.SubEsp(4);
  }

  /** Everything up to and including save_registers. */
  method SaveContext(cpu: Processor)
    requires cpu.Valid() && CallFits(cpu.r)
    modifies cpu`r, cpu.memory
    ensures cpu.r.esp == SavedAt(old(cpu.r))
    ensures Unframe(cpu.memory[..], SavedAt(old(cpu.r))) == Returned(old(cpu.r), old(cpu.memory[cpu.r.esp]))
    ensures BringsBack(old(cpu.State()), cpu.memory[..])
    ensures forall a :: 0 <= a < WORD_LIMIT && !(cpu.r.esp <= a <= old(cpu.r.esp)) ==>
      cpu.memory[a] == old(cpu.memory[a])
  {
    hide AddStatus, SubStatus;
    ReturnedIsBack(cpu.r, cpu.memory[cpu.r.esp]);
    hide BackFromCall;
    ghost var e := cpu.r.esp;
    Reshape(cpu);
    cpu.Push(0);  // error code
    cpu.Push(0);  // interrupt number
    cpu.SaveRegisters();
    assert cpu.memory[e - 8] == old(cpu.memory[cpu.r.esp]) && cpu.memory[e - 4] == KERNEL_CS;
    assert cpu.memory[e] == AfterAdd(old(cpu.r.eflags), e - 4, 8);
  }

  /** Make the thread current and run from its frame. */
  method LoadContext(cpu: Processor, next: Word)
    requires cpu.Valid() && FrameFits(cpu.memory[next])
    modifies cpu
    ensures cpu.currentThread == next && cpu.r == Unframe(cpu.memory[..], cpu.memory[next])
  {
    cpu.r := cpu.r.(eax := next);
    cpu.currentThread := cpu.r.eax;
    cpu.r := cpu.r.(esp := cpu.memory[cpu.r.eax]);
    cpu.RestoreRegistersAndIret();
  }

  /** Save the caller's context in its own stack and thread control block. */
  method Suspend(cpu: Processor)
    requires cpu.Valid() && CallFits(cpu.r) && Separate(cpu.currentThread, cpu.r)
    modifies cpu`r, cpu.memory
    ensures cpu.r.esp == SavedAt(old(cpu.r)) && cpu.memory[cpu.currentThread] == SavedAt(old(cpu.r))
    ensures Unframe(cpu.memory[..], SavedAt(old(cpu.r))) == Returned(old(cpu.r), old(cpu.memory[cpu.r.esp]))
    ensures BringsBack(old(cpu.State()), cpu.memory[..])
    ensures forall a :: 0 <= a < WORD_LIMIT && a != cpu.currentThread && !(cpu.r.esp <= a <= old(cpu.r.esp)) ==>
      cpu.memory[a] == old(cpu.memory[a])
  {
    hide Unframe, Returned, BackFromCall;
    SaveContext(cpu);
    ghost var saved := cpu.memory[..];
    cpu.r := cpu.r.(eax := cpu.currentThread);
    cpu.memory[cpu.r.eax] := cpu.r.esp;
    assert cpu.memory[..] == saved[cpu.r.eax := cpu.r.esp];
    UnframeDependsOnFrame(saved, cpu.memory[..], cpu.r.esp);
  }

  /** On entry esp points at the return address, and the argument is above it. */
  method SwitchTo(cpu: Processor)
    requires cpu.Valid() && CallFits(cpu.r)
    requires FrameFits(NextFrame(cpu.State(), cpu.memory[cpu.r.esp + 4]))
    requires cpu.currentThread != 0 ==> Separate(cpu.currentThread, cpu.r) && Separate(cpu.memory[cpu.r.esp + 4], cpu.r)
    modifies cpu, cpu.memory
    ensures cpu.Valid() && Switches(old(cpu.State()), old(cpu.memory[cpu.r.esp + 4]), cpu.State())
    // the frame left behind brings the caller back
    ensures old(cpu.currentThread) != 0 ==> BringsBack(old(cpu.State()), cpu.memory[..])
  {
    hide Unframe, Returned, AfterSub, BackFromCall;
    ghost var c, next := cpu.State(), cpu.memory[cpu.r.esp + 4];
    ReturnedIsBack(c.r, c.mem[c.r.esp]);
    cpu.Compare(cpu.currentThread, 0);
    if cpu.currentThread == 0 {
      LoadContext(cpu, cpu.memory[cpu.r.esp + 4]);
    } else {
      StatusIsOverwritten(c.r, c.current, 0);
      Suspend(cpu);
      assert cpu.memory[next] == NextFrame(c, next);
      LoadContext(cpu, cpu.memory[cpu.r.esp + FRAME_SIZE]);
    }
  }
}
