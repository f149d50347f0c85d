/** irq_low.asm: the common interrupt stub, and what a pre-empted thread sees. */
module Interrupts {
  import opened Words
  import opened Cpu
  import opened ThreadsLow
  import opened ContextSwitch

  /** Where the stub leaves the frame of a thread interrupted with these registers. */
  function FrameBase(r: Registers): int { r.esp - FRAME_SIZE }

  /** Room for the frame, the handler's argument and the return address. */
  predicate InterruptFits(r: Registers) {
    r.esp % 4 == 0 && FRAME_SIZE + 8 <= r.esp
  }

  /** From the interrupted instruction to the first instruction of the handler. */
  ghost predicate Enters(c: Core, c': Core)
    requires |c.mem| == WORD_LIMIT && InterruptFits(c.r)
  {
    && |c'.mem| == WORD_LIMIT && c'.current == c.current
    && c'.r.esp == FrameBase(c.r) - 8
    && c'.mem[FrameBase(c.r) - 4] == FrameBase(c.r)
    && Unframe(c'.mem, FrameBase(c.r)) == c.r
    && c'.mem[FrameBase(c.r) + 48] == 32 && c'.mem[FrameBase(c.r) + 52] == 0  // IRQ 0, no error code
    && c'.r.ds == c'.r.es == c'.r.fs == c'.r.gs == 0x10
    && forall a :: 0 <= a < WORD_LIMIT && !(c'.r.esp <= a < c.r.esp) ==> c'.mem[a] == c.mem[a]
  }

  /** From the handler's return to the resumed instruction. */
  ghost predicate Leaves(c: Core, c': Core)
    requires |c.mem| == WORD_LIMIT && FrameFits(c.r.esp + 4)
  {
    c' == c.(r := Unframe(c.mem, c.r.esp + 4))
  }

  /** Interrupt gate without a privilege change. */
  method RaiseInterrupt(cpu: Processor, stub: Word)
    requires cpu.CanPush(3)
    modifies cpu`r, cpu.memory
    ensures cpu.r == old(cpu.r).(esp := old(cpu.r.esp) - 12, eip := stub, eflags := WithoutIF(old(cpu.r.eflags)))
    ensures var o, p := old(cpu.r), cpu.r.esp;
      cpu.memory[p] == o.eip && cpu.memory[p + 4] == o.cs && cpu.memory[p + 8] == o.eflags
    ensures forall a :: 0 <= a < WORD_LIMIT && !(cpu.r.esp <= a < old(cpu.r.esp)) ==>
      cpu.memory[a] == old(cpu.memory[a])
  {
    cpu.Push(cpu.r.eflags);
    cpu.Push(cpu.r.cs);
    cpu.Push(cpu.r.eip);
    cpu.r := cpu.r.(eip := stub, eflags := WithoutIF(cpu.r.eflags));
  }

  /** Interrupt entry, then the stub up to `push gs`: the whole frame is on the stack. */
  method BuildFrame(cpu: Processor, stub: Word)
    requires cpu.Valid() && InterruptFits(cpu.r)
    modifies cpu`r, cpu.memory
    ensures cpu.r.esp == FrameBase(old(cpu.r)) && !InterruptsEnabled(cpu.r.eflags)
    ensures Unframe(cpu.memory[..], cpu.r.esp) == old(cpu.r)
    ensures cpu.memory[cpu.r.esp + 48] == 32 && cpu.memory[cpu.r.esp + 52] == 0
    ensures forall a :: 0 <= a < WORD_LIMIT && !(cpu.r.esp <= a < old(cpu.r.esp)) ==>
      cpu.memory[a] == old(cpu.memory[a])
  {
    ghost var o := cpu.r;
    RaiseInterrupt(cpu, stub);
    cpu.r := cpu.r.(eflags := WithoutIF(cpu.r.eflags));  // cli
    cpu.Push(0);
    cpu.Push(32);
    ghost var s := cpu.r;
    cpu.SaveRegisters();
    assert s == o.(esp := o.esp - 20, eip := stub, eflags := s.eflags);
    var p := cpu.r.esp;
    assert cpu.memory[p + 56] == o.eip && cpu.memory[p + 60] == o.cs && cpu.memory[p + 64] == o.eflags;
  }

  /** mov ax, 0x10 .. call eax; resume is the address of the instruction after the call. */
  method CallDispatcher(cpu: Processor, dispatcher: Word, resume: Word)
    requires cpu.CanPush(2)
    modifies cpu`r, cpu.memory
    ensures cpu.r.esp == old(cpu.r.esp) - 8 && cpu.r.eip == dispatcher && cpu.r.eflags == old(cpu.r.eflags)
    ensures cpu.r.ds == cpu.r.es == cpu.r.fs == cpu.r.gs == 0x10
    ensures cpu.memory[cpu.r.esp] == resume && cpu.memory[cpu.r.esp + 4] == old(cpu.r.esp)
    ensures forall a :: 0 <= a < WORD_LIMIT && !(cpu.r.esp <= a < old(cpu.r.esp)) ==>
      cpu.memory[a] == old(cpu.memory[a])
  {
    cpu.r := cpu.r.(eax := cpu.r.eax - cpu.r.eax % 0x1_0000 + 0x10);  // mov ax, 0x10
    cpu.r := cpu.r.(ds := KERNEL_DS, es := KERNEL_DS, fs := KERNEL_DS, gs := KERNEL_DS);
    cpu.r := cpu.r.(eax := cpu.r.esp);
    cpu.Push(cpu.r.eax);
    cpu.r := cpu.r.(eax := dispatcher);
    cpu.Push(resume);
    cpu.r := cpu.r.(eip := cpu.r.eax);
  }

  /** From the interrupt to the first instruction of the dispatcher. */
  method Enter(cpu: Processor, stub: Word, dispatcher: Word, resume: Word)
    requires cpu.Valid() && InterruptFits(cpu.r)
    modifies cpu`r, cpu.memory
    ensures Enters(old(cpu.State()), cpu.State())
    ensures cpu.r.eip == dispatcher && cpu.memory[cpu.r.esp] == resume && !InterruptsEnabled(cpu.r.eflags)
  {
    hide Unframe;
    BuildFrame(cpu, stub);
    ghost var framed, p := cpu.memory[..], cpu.r.esp;
    CallDispatcher(cpu, dispatcher, resume);
    UnframeDependsOnFrame(framed, cpu.memory[..], p);
  }

  /** pop eax .. iret. */
  method Leave(cpu: Processor)
    requires cpu.Valid() && FrameFits(cpu.r.esp + 4)
    modifies cpu`r
    ensures Leaves(old(cpu.State()), cpu.State())
  {
    var eax := cpu.Pop();
    cpu.r := cpu.r.(eax := eax);
    cpu.RestoreRegistersAndIret();
  }

  // ---- Pre-emption ----

  /** What handler code of thread t may do: compute without touching the words from `frame` up, or
      call the switch below them. */
  ghost predicate HandlerStep(c: Core, ts: Threads, c': Core, frame: int) {
    && Valid(c, ts) && 0 <= frame
    && ((Computes(c, ts, c') && SameWords(c.mem, c'.mem, frame, ts[c.current].hi))
        || exists next :: SwitchesBy(c, ts, next, c') && c.r.esp < frame)
  }

  lemma StepKeepsFrame(c: Core, ts: Threads, c': Core, t: Word, frame: int)
    requires Step(c, ts, c') && t in ts && ts[t].lo <= frame
    requires c.current == t ==> HandlerStep(c, ts, c', frame)
    ensures Valid(c', ts) && SameWords(c.mem, c'.mem, frame, ts[t].hi)
  {
    hide Unframe, Returned;
    if Computes(c, ts, c') && (c.current != t || SameWords(c.mem, c'.mem, frame, ts[t].hi)) {
      ComputeKeepsValid(c, ts, c');
      assert c.current != t ==> KeepsThread(c.mem, c'.mem, t, ts[t]);
    } else {
      var next :| SwitchesBy(c, ts, next, c') && (c.current == t ==> c.r.esp < frame);
      SwitchKeepsOthers(c, ts, next, c');
      assert c.current != t ==> KeepsThread(c.mem, c'.mem, t, ts[t]);
      assert Disjoint(t, ts[t], t, ts[t]);
    }
  }

  lemma {:induction false} RunKeepsFrame(cs: seq<Core>, ts: Threads, t: Word, frame: int)
    requires Run(cs, ts) && t in ts && ts[t].lo <= frame
    requires forall i :: 0 <= i < |cs| - 1 && cs[i].current == t ==> HandlerStep(cs[i], ts, cs[i + 1], frame)
    ensures Valid(cs[|cs| - 1], ts) && SameWords(cs[0].mem, cs[|cs| - 1].mem, frame, ts[t].hi)
    decreases |cs|
  {
    if |cs| > 1 {
      StepKeepsFrame(cs[0], ts, cs[1], t, frame);
      RunKeepsFrame(cs[1..], ts, t, frame);
    }
  }

  /** The running thread is interrupted, with room on its stack. */
  ghost predicate Interrupted(c: Core, ts: Threads, entered: Core) {
    && Valid(c, ts) && InterruptFits(c.r) && ts[c.current].lo <= FrameBase(c.r) - 8
    && Enters(c, entered)
  }

  /** Its handler returns, having popped everything it pushed, and the stub ends. */
  ghost predicate HandlerReturns(c: Core, last: Core, c': Core) {
    && |last.mem| == WORD_LIMIT && last.current == c.current
    && last.r.esp == FrameBase(c.r) - 4 && FrameFits(last.r.esp + 4) && Leaves(last, c')
  }

  /** A thread interrupted at any point, whose handler may switch away and be switched back any number
      of times, leaves the stub with every register, eflags included, and the stack it had. */
  lemma PreemptionIsTransparent(c: Core, cs: seq<Core>, ts: Threads, c': Core)
    requires Run(cs, ts) && Interrupted(c, ts, cs[0])
    requires forall i :: 0 <= i < |cs| - 1 && cs[i].current == c.current ==>
      HandlerStep(cs[i], ts, cs[i + 1], FrameBase(c.r))
    requires HandlerReturns(c, cs[|cs| - 1], c')
    ensures c'.r == c.r && c'.current == c.current && Valid(c', ts)
    ensures c'.mem[c.r.esp..ts[c.current].hi] == c.mem[c.r.esp..ts[c.current].hi]
  {
    var t, p := c.current, FrameBase(c.r);
    RunKeepsFrame(cs, ts, t, p);
    var last := cs[|cs| - 1];
    UnframeDependsOnFrame(cs[0].mem, last.mem, p);
    hide Unframe;
    assert forall a :: c.r.esp <= a < ts[t].hi ==> c.mem[a] == cs[0].mem[a] == last.mem[a] == c'.mem[a];
  }

  /** Entering the stub is a computation of the interrupted thread, so it disturbs no other thread. */
  lemma EntryIsLocal(c: Core, ts: Threads, c': Core)
    requires Valid(c, ts) && InterruptFits(c.r) && ts[c.current].lo <= FrameBase(c.r) - 8 && Enters(c, c')
    ensures Computes(c, ts, c') && Valid(c', ts)
  {
    hide Unframe;
    forall t | t in ts && t != c.current
      ensures KeepsThread(c.mem, c'.mem, t, ts[t])
    {
      assert Disjoint(t, ts[t], c.current, ts[c.current]) && Disjoint(c.current, ts[c.current], t, ts[t]);
    }
    ComputeKeepsValid(c, ts, c');
  }
}
