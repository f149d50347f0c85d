/** The kernel at work on a real machine: threads are started, and every timer interrupt goes through the
    stub, the handler, the scheduler and the switch. */
module Kernel {
  import opened Words
  import opened Cpu
  import opened ThreadsLow
  import opened ContextSwitch
  import opened Interrupts
  import opened Preemption
  import S = Scheduler

  /** Addresses in the kernel image, and the number of stack words that the C functions between the
      dispatcher and the switch use. */
  datatype Code = Code(stub: Word, dispatcher: Word, resume: Word, afterSwitch: Word, locals: nat)

  /** Below an interrupt frame at p the handler was called from the stub. */
  predicate CalledFromStub(mem: seq<Word>, a: Area, p: int, code: Code)
    requires |mem| == WORD_LIMIT && a.hi < WORD_LIMIT
  {
    a.lo + 8 <= p <= a.hi && mem[p - 8] == code.resume
  }

  /** A preempted thread is suspended right behind the call of the switch in its handler, which returns
      into the stub; no new thread starts there. */
  ghost predicate InHandler(mem: seq<Word>, t: Word, a: Area, w: Waiting, code: Code)
    requires |mem| == WORD_LIMIT && a.hi < WORD_LIMIT
  {
    && Suspended(mem, t, a)
    && var r := Unframe(mem, mem[t]);
       if w.Fresh? then r.eip != code.afterSwitch
       else
         && r.eip == code.afterSwitch && r.esp == FrameBase(w.view.r) - 12 - 4 * code.locals
         && CalledFromStub(mem, a, FrameBase(w.view.r), code)
  }

  ghost predicate QueueInHandler(mem: seq<Word>, ts: Threads, l: seq<Word>, waits: map<Word, Waiting>, code: Code)
    requires |mem| == WORD_LIMIT && Layout(ts)
  {
    forall k :: 1 <= k < |l| ==> l[k] in ts && l[k] in waits && InHandler(mem, l[k], ts[l[k]], waits[l[k]], code)
  }

  /** Room on the stack for the interrupt frame, the handler's frames and the frame of the switch. */
  predicate HasRoom(r: Registers, a: Area, code: Code) {
    InterruptFits(r) && a.lo <= r.esp - FRAME_SIZE - 16 - 4 * code.locals - 64
  }

  predicate CanCall(esp: Word, code: Code) { esp % 4 == 0 && 4 * code.locals + 8 + 64 <= esp }

  /** push next; call threads_low_switch_to, from the depth of the handler's frames. */
  method CallSwitch(cpu: Processor, next: Word, code: Code)
    requires cpu.Valid() && CanCall(cpu.r.esp, code)
    modifies cpu`r, cpu.memory
    ensures cpu.Valid() && Calls(code, old(cpu.State()), cpu.State(), next)
  {
    cpu.r := cpu.r.(esp := cpu.r.esp - 4 * code.locals);
    cpu.Push(next);
    cpu.Push(code.afterSwitch);
  }

  /** Writes below a thread's own stack pointer disturb no other thread. */
  lemma OwnStackWrites(c: Core, ts: Threads, c': Core, lo: int, hi: int)
    requires Valid(c, ts) && |c'.mem| == WORD_LIMIT && ts[c.current].lo <= lo && hi <= ts[c.current].hi
    requires forall a :: 0 <= a < WORD_LIMIT && !(lo <= a < hi) ==> c'.mem[a] == c.mem[a]
    ensures KeepsOthers(c, ts, c')
  {
    hide Suspended;
    forall t | t in ts && t != c.current
      ensures KeepsThread(c.mem, c'.mem, t, ts[t])
    {
      assert Disjoint(t, ts[t], c.current, ts[c.current]) && Disjoint(c.current, ts[c.current], t, ts[t]);
    }
  }

  /** The processor at the call of the switch, some words below where the handler was entered. */
  ghost predicate Calls(code: Code, entered: Core, call: Core, next: Word) {
    && |entered.mem| == |call.mem| == WORD_LIMIT && call.current == entered.current
    && 0 <= call.r.esp == entered.r.esp - 4 * code.locals - 8 && call.r.eflags == entered.r.eflags
    && call.mem[call.r.esp] == code.afterSwitch && call.mem[call.r.esp + 4] == next
    && forall a :: 0 <= a < WORD_LIMIT && !(call.r.esp <= a < entered.r.esp) ==> call.mem[a] == entered.mem[a]
  }

  /** From the interrupted instruction to the stub's first instruction. */
  lemma CallGivesUp(ts: Threads, code: Code, h: Handover, next: Word)
    requires Valid(h.stop, ts) && HasRoom(h.stop.r, ts[h.stop.current], code) && next in ts
    requires h.view == ViewOf(h.stop, ts, h.stop.current)
    requires Enters(h.stop, h.entered) && !InterruptsEnabled(h.entered.r.eflags) && Calls(code, h.entered, h.call, next)
    requires h.entered.mem[h.entered.r.esp] == code.resume
    ensures GivesUp(ts, S.Quantum, h) && Valid(h.call, ts) && CallsSwitch(h.call, ts, next)
    ensures BehindCall(h.call, ts, h.view, code)
  {
    var a, p := ts[h.stop.current], FrameBase(h.stop.r);
    EntryIsLocal(h.stop, ts, h.entered);
    CallIsAligned(h.stop.r.esp, code.locals);
    hide Unframe, ViewOf;
    assert h.entered.r.esp == p - 8 && h.call.r.esp == p - 16 - 4 * code.locals && p <= a.hi;
    assert h.call.r.esp == h.stop.r.esp - 84 - 4 * code.locals;
    assert CallFits(h.call.r) && a.lo <= SavedAt(h.call.r) && h.call.r.esp + 8 <= a.hi && InterruptFits(h.stop.r);
    hide CallFits, SavedAt, FrameBase, InterruptsEnabled, HasRoom, InterruptFits;
    OwnStackWrites(h.entered, ts, h.call, h.call.r.esp, p - 8);
    hide Layout, Suspended, KeepsOthers;
    ComputeKeepsValid(h.entered, ts, h.call);
  }

  lemma CallIsAligned(esp: int, words: int)
    requires esp % 4 == 0
    ensures (esp - 84 - 4 * words) % 4 == 0
  {
    assert esp - 84 - 4 * words == 4 * (esp / 4 - 21 - words);
  }

  /** The processor at the call of the switch, in a handler that was called from the stub below the frame
      of an interrupted thread. */
  ghost predicate BehindCall(c: Core, ts: Threads, view: View, code: Code)
    requires Valid(c, ts)
  {
    var p := FrameBase(view.r);
    && 0 <= p && c.r.esp == p - 16 - 4 * code.locals && c.mem[c.r.esp] == code.afterSwitch
    && CalledFromStub(c.mem, ts[c.current], p, code)
  }

  /** The switch leaves its caller suspended behind the call. */
  lemma CallerIsInHandler(ts: Threads, code: Code, h: Handover, next: Word)
    requires Valid(h.call, ts) && SwitchesBy(h.call, ts, next, h.switched) && BehindCall(h.call, ts, h.view, code)
    ensures |h.switched.mem| == WORD_LIMIT
    ensures InHandler(h.switched.mem, h.call.current, ts[h.call.current], Preempted(h.view), code)
  {
    CallerIsSuspended(h.call, ts, next, h.switched);
    StepKeepsFrame(h.call, ts, h.switched, h.call.current, FrameBase(h.view.r) - 8);
    hide Unframe, AfterAdd, CallFits, FrameFits, InterruptsEnabled, Suspended, Layout;
  }

  lemma InHandlerIsKept(mem: seq<Word>, mem': seq<Word>, t: Word, a: Area, w: Waiting, code: Code)
    requires |mem| == |mem'| == WORD_LIMIT && a.hi < WORD_LIMIT && KeepsThread(mem, mem', t, a)
    requires InHandler(mem, t, a, w, code)
    ensures InHandler(mem', t, a, w, code)
  {
    UnframeDependsOnFrame(mem, mem', mem[t]);
    hide Unframe;
  }

  lemma QueueIsKept(c: Core, ts: Threads, l: seq<Word>, waits: map<Word, Waiting>, code: Code, c': Core)
    requires Layout(ts) && |c.mem| == |c'.mem| == WORD_LIMIT && KeepsOthers(c, ts, c')
    requires l != [] && l[0] == c.current && Distinct(l) && QueueInHandler(c.mem, ts, l, waits, code)
    ensures QueueInHandler(c'.mem, ts, l, waits, code)
  {
    hide InHandler;
    forall k | 1 <= k < |l|
      ensures InHandler(c'.mem, l[k], ts[l[k]], waits[l[k]], code)
    {
      assert l[k] != l[0] && KeepsThread(c.mem, c'.mem, l[k], ts[l[k]]);
      InHandlerIsKept(c.mem, c'.mem, l[k], ts[l[k]], waits[l[k]], code);
    }
  }

  /** Back in the handler of a preempted thread: its C frames are popped, it returns into the stub, and
      the stub returns to the interrupted instruction. */
  method Unwind(cpu: Processor, code: Code, ghost ts: Threads, ghost w: Waiting) returns (ghost back: Core)
    requires Valid(cpu.State(), ts) && cpu.Valid() && w.Preempted?
    requires Awaits(cpu.State().mem, cpu.currentThread, ts[cpu.currentThread], w)
    requires cpu.r.esp == FrameBase(w.view.r) - 12 - 4 * code.locals
    requires CalledFromStub(cpu.State().mem, ts[cpu.currentThread], FrameBase(w.view.r), code)
    modifies cpu`r
    ensures var h := Handover(back, w.view, back, back, old(cpu.State()), back);
      Resumes(ts, w, h, cpu.State()) && ThroughStub(w, h, code)
  {
    hide Unframe, Suspended, Layout;
    cpu.r := cpu.r.(esp := cpu.r.esp + 4 * (code.locals + 1));
    assert cpu.r.esp == FrameBase(w.view.r) - 8;
    var resume := cpu.Pop();
    cpu.r := cpu.r.(eip := resume);
    back := cpu.State();
    Leave(cpu);
  }

  /** A thread that was preempted comes back through the stub. */
  predicate ThroughStub(w: Waiting, h: Handover, code: Code) { w.Preempted? ==> h.back.r.eip == code.resume }

  /** Thread `next` is ready for a switch from c. */
  ghost predicate NextIs(c: Core, ts: Threads, next: Word, w: Waiting, view: View, code: Code)
    requires Valid(c, ts)
  {
    && next in ts && Awaits(c.mem, next, ts[next], w)
    && if next == c.current then w == Preempted(view) && BehindCall(c, ts, view, code)
       else InHandler(c.mem, next, ts[next], w, code)
  }

  /** Where the processor continues after the stub's iret: behind the call of the switch in the handler of
      a preempted thread, elsewhere in a new one. */
  lemma SwitchLands(ts: Threads, code: Code, h: Handover, next: Word, w: Waiting)
    requires Valid(h.call, ts) && SwitchesBy(h.call, ts, next, h.switched) && NextIs(h.call, ts, next, w, h.view, code)
    ensures Valid(h.switched, ts) && h.switched.current == next && KeepsOthers(h.call, ts, h.switched)
    ensures Awaits(h.switched.mem, next, ts[next], w)
    ensures h.switched.r.eip == code.afterSwitch <==> w.Preempted?
    ensures w.Preempted? ==>
      && h.switched.r.esp == FrameBase(w.view.r) - 12 - 4 * code.locals
      && CalledFromStub(h.switched.mem, ts[next], FrameBase(w.view.r), code)
  {
    SwitchKeepsOthers(h.call, ts, next, h.switched);
    SwitchLoads(h.call, ts, next, h.switched);
    if next == h.call.current {
      CallerIsInHandler(ts, code, h, next);
      SwitchKeepsFrame(h.call, ts, next, h.switched, w);
    } else {
      KeptThreadAwaits(h.call, ts, h.switched, next, w);
      assert KeepsThread(h.call.mem, h.switched.mem, next, ts[next]);
      InHandlerIsKept(h.call.mem, h.switched.mem, next, ts[next], w, code);
    }
    hide Awaits, Unframe, CallsSwitch, KeepsOthers, Layout, CalledFromStub, Suspended;
  }

  /** The switch, and then what the resumed thread does until it is out of the kernel. */
  method SwitchAndReturn(cpu: Processor, code: Code, next: Word, ghost ts: Threads, ghost w: Waiting,
                         ghost stop: Core, ghost view: View, ghost entered: Core)
    returns (ghost h: Handover)
    requires cpu.Valid() && Valid(cpu.State(), ts) && CallsSwitch(cpu.State(), ts, next)
    requires NextIs(cpu.State(), ts, next, w, view, code)
    modifies cpu, cpu.memory
    ensures cpu.Valid() && h == Handover(stop, view, entered, old(cpu.State()), h.switched, h.back)
    ensures SwitchesBy(h.call, ts, next, h.switched) && Valid(h.switched, ts) && KeepsOthers(h.call, ts, h.switched)
    ensures Resumes(ts, w, h, cpu.State()) && ThroughStub(w, h, code)
  {
    ghost var call := cpu.State();
    CallIsDefined(call, ts, next);
    hide Unframe, Returned, Awaits, InHandler, Valid, Switches, NextIs, CalledFromStub, CallsSwitch;
    SwitchTo(cpu);
    ghost var switched := cpu.State();
    h := Handover(stop, view, entered, call, switched, switched);
    SwitchLands(ts, code, h, next, w);
    if cpu.r.eip == code.afterSwitch {
      ghost var back := Unwind(cpu, code, ts, w);
      h := Handover(stop, view, entered, call, switched, back);
    }
  }

  // ---- The end of a quantum ----

  /** What is known of the thread that comes next when the handler calls the switch. */
  lemma NextIsReady(ts: Threads, l: seq<Word>, waits: map<Word, Waiting>, code: Code, h: Handover)
    requires Scheduled(h.stop, ts, l, waits) && QueueInHandler(h.stop.mem, ts, l, waits, code)
    requires GivesUp(ts, S.Quantum, h) && Valid(h.call, ts) && BehindCall(h.call, ts, h.view, code)
    ensures var next, waits' := S.Take(l, S.Quantum)[0], Saved(S.Quantum, h, waits);
      next in waits' && NextIs(h.call, ts, next, waits'[next], h.view, code)
    ensures h.call.current == h.stop.current
    ensures QueueInHandler(h.call.mem, ts, l, waits, code) && KeepsOthers(h.stop, ts, h.call)
  {
    InterruptedAwaits(ts, h);
    OthersAwait(h.stop, ts, l, waits, h.call);
    QueueIsKept(h.stop, ts, l, waits, code, h.call);
    hide Awaits, InHandler, Valid, KeepsOthers, BehindCall;
  }

  /** After a turn the whole queue waits behind its calls of the switch, if it did at the switch. */
  lemma QueueAfterTurn(c: Core, ts: Threads, l: seq<Word>, waits: map<Word, Waiting>, turn: S.Turn, code: Code,
                       h: Handover, c': Core)
    requires Turn(c, ts, l, waits, turn, h, c') && |h.switched.mem| == WORD_LIMIT && Layout(ts)
    requires QueueInHandler(h.switched.mem, ts, S.Take(l, turn), Saved(turn, h, waits), code)
    ensures |c'.mem| == WORD_LIMIT
    ensures QueueInHandler(c'.mem, ts, S.Take(l, turn), Saved(turn, h, waits), code)
  {
    var l', waits' := S.Take(l, turn), Saved(turn, h, waits);
    var next, w := l'[0], waits'[l'[0]];
    assert SwitchesBy(h.call, ts, next, h.switched) && Valid(h.switched, ts) && Resumes(ts, w, h, c') && l' != [];
    AllAwaitAfterSwitch(c, ts, l, waits, turn, h, c');
    assert Awaits(h.switched.mem, next, ts[next], w);
    hide *;
    NextResumes(ts, h, w, next, c');
    RunsInMemory(c', ts, next, w.view);
    QueueIsKept(h.switched, ts, l', waits', code, c');
  }

  lemma RunsInMemory(c: Core, ts: Threads, t: Word, v: View)
    requires RunsWith(c, ts, t, v)
    ensures |c.mem| == WORD_LIMIT
  {
  }

  lemma RotatedQueue(mem: seq<Word>, ts: Threads, l: seq<Word>, waits: map<Word, Waiting>, code: Code, h: Handover)
    requires |mem| == WORD_LIMIT && Layout(ts) && l != [] && Distinct(l) && QueueInHandler(mem, ts, l, waits, code)
    requires h.stop.current == l[0] && l[0] in ts && InHandler(mem, l[0], ts[l[0]], Preempted(h.view), code)
    ensures S.Take(l, S.Quantum) != []
    ensures QueueInHandler(mem, ts, S.Take(l, S.Quantum), Saved(S.Quantum, h, waits), code)
  {
    hide InHandler;
    var l' := S.Take(l, S.Quantum);
    assert forall k :: 0 <= k < |l'| ==> l'[k] == if k + 1 < |l| then l[k + 1] else l[0];
  }

  lemma TurnIs(c: Core, ts: Threads, l: seq<Word>, waits: map<Word, Waiting>, turn: S.Turn, h: Handover, c': Core)
    requires Scheduled(c, ts, l, waits) && S.CanTake(l, [turn])
    requires Computes(c, ts, h.stop) && Valid(h.stop, ts) && GivesUp(ts, turn, h)
    requires var next, waits' := S.Take(l, turn)[0], Saved(turn, h, waits);
      && next in waits' && SwitchesBy(h.call, ts, next, h.switched) && Valid(h.switched, ts)
      && Resumes(ts, waits'[next], h, c')
    ensures Turn(c, ts, l, waits, turn, h, c')
  {
    hide Awaits, GivesUp, SwitchesBy, Resumes, Suspended, Layout, Computes;
  }

  /** Without a switch the stub returns to the interrupted instruction. */
  method ReturnFromStub(cpu: Processor, code: Code, ghost ts: Threads, ghost stop: Core)
    requires cpu.Valid() && Valid(stop, ts) && InterruptFits(stop.r) && ts[stop.current].lo <= FrameBase(stop.r) - 8
    requires Enters(stop, cpu.State()) && cpu.memory[cpu.r.esp] == code.resume
    modifies cpu`r
    ensures cpu.r == stop.r && Valid(cpu.State(), ts) && Computes(stop, ts, cpu.State())
    ensures RunsWith(cpu.State(), ts, stop.current, ViewOf(stop, ts, stop.current))
  {
    ghost var entered := cpu.State();
    EntryIsLocal(stop, ts, entered);
    hide Unframe, Suspended, Layout;
    var resume := cpu.Pop();
    cpu.r := cpu.r.(eip := resume);
    assert cpu.r.eip == code.resume;
    Leave(cpu);
    ghost var c, hi := cpu.State(), ts[stop.current].hi;
    assert c.mem[stop.r.esp..hi] == stop.mem[stop.r.esp..hi];
  }

  /** The queue does not notice what the running thread computes. */
  lemma StillScheduled(c: Core, ts: Threads, l: seq<Word>, waits: map<Word, Waiting>, code: Code, c': Core)
    requires Scheduled(c, ts, l, waits) && QueueInHandler(c.mem, ts, l, waits, code)
    requires Computes(c, ts, c')
    ensures Scheduled(c', ts, l, waits) && QueueInHandler(c'.mem, ts, l, waits, code)
  {
    ComputeKeepsValid(c, ts, c');
    OthersAwait(c, ts, l, waits, c');
    QueueIsKept(c, ts, l, waits, code, c');
    hide Awaits, InHandler, KeepsOthers, Suspended, Layout;
  }

  /** The handler has handed out the next thread: dispatch it. */
  method EndQuantum(cpu: Processor, next: Word, code: Code, ghost ts: Threads, ghost l: seq<Word>,
                    ghost waits: map<Word, Waiting>, ghost stop: Core)
    returns (ghost h: Handover)
    requires cpu.Valid() && Scheduled(stop, ts, l, waits) && QueueInHandler(stop.mem, ts, l, waits, code)
    requires HasRoom(stop.r, ts[stop.current], code) && next == S.Take(l, S.Quantum)[0]
    requires Enters(stop, cpu.State()) && !InterruptsEnabled(cpu.r.eflags) && cpu.State().mem[cpu.r.esp] == code.resume
    modifies cpu, cpu.memory
    ensures cpu.Valid() && Turn(stop, ts, l, waits, S.Quantum, h, cpu.State())
    ensures next in Saved(S.Quantum, h, waits) && ThroughStub(Saved(S.Quantum, h, waits)[next], h, code)
    ensures Scheduled(cpu.State(), ts, S.Take(l, S.Quantum), Saved(S.Quantum, h, waits))
    ensures QueueInHandler(cpu.State().mem, ts, S.Take(l, S.Quantum), Saved(S.Quantum, h, waits), code)
  {
    ghost var entered, view := cpu.State(), ViewOf(stop, ts, stop.current);
    assert Valid(stop, ts) && l[0] == stop.current && next in ts && Distinct(l) && Layout(ts);
    assert Computes(stop, ts, stop);
    assert S.CanTake(l, [S.Quantum]) && !InterruptsEnabled(entered.r.eflags);
    HandlerCanCall(stop.r, ts[stop.current], code, cpu.r.esp);
    hide *;
    CallSwitch(cpu, next, code);
    ghost var call := cpu.State();
    h := Handover(stop, view, entered, call, call, call);
    CallGivesUp(ts, code, h, next);
    NextIsReady(ts, l, waits, code, h);
    h := SwitchAndReturn(cpu, code, next, ts, Saved(S.Quantum, h, waits)[next], stop, view, entered);
    SavedAgrees(h, call, waits);
    TurnIs(stop, ts, l, waits, S.Quantum, h, cpu.State());
    CallerIsInHandler(ts, code, h, next);
    QueueIsKept(h.call, ts, l, waits, code, h.switched);
    RotatedQueue(h.switched.mem, ts, l, waits, code, h);
    QueueAfterTurn(stop, ts, l, waits, S.Quantum, code, h, cpu.State());
    TurnResumes(stop, ts, l, waits, S.Quantum, h, cpu.State());
  }

  lemma HandlerCanCall(r: Registers, a: Area, code: Code, esp: Word)
    requires HasRoom(r, a, code) && esp == FrameBase(r) - 8
    ensures CanCall(esp, code)
  {
    assert esp == r.esp - 4 * 19;
  }

  /** What is saved depends on the interrupted state only. */
  lemma SavedAgrees(h: Handover, call: Core, waits: map<Word, Waiting>)
    ensures Saved(S.Quantum, h, waits) == Saved(S.Quantum, Handover(h.stop, h.view, h.entered, call, call, call), waits)
  {
  }

  /** A timer interrupt of the running thread. */
  method TimerInterrupt(cpu: Processor, timer: S.RoundRobinTimer<Word>, code: Code,
                        ghost ts: Threads, ghost waits: map<Word, Waiting>)
    returns (rotated: bool, ghost h: Handover)
    requires cpu.Valid() && timer.scheduler.Valid() && cpu.memory != timer.scheduler.queue
    requires Scheduled(cpu.State(), ts, timer.Threads(), waits)
    requires QueueInHandler(cpu.State().mem, ts, timer.Threads(), waits, code)
    requires HasRoom(cpu.r, ts[cpu.currentThread], code) && |timer.Threads()| <= timer.scheduler.queue.Length
    modifies cpu, cpu.memory, timer, timer.scheduler, timer.scheduler.queue
    ensures cpu.Valid() && timer.scheduler.Valid()
    ensures S.Clock(timer.ticks, timer.Threads()) == S.Tick(old(S.Clock(timer.ticks, timer.Threads())), timer.hz)
    ensures rotated <==> S.Ending(old(timer.ticks), timer.hz)
    // at the end of a quantum: one turn of the machine
    ensures rotated ==>
      && Turn(old(cpu.State()), ts, old(timer.Threads()), waits, S.Quantum, h, cpu.State())
      && cpu.currentThread in Saved(S.Quantum, h, waits)
      && ThroughStub(Saved(S.Quantum, h, waits)[cpu.currentThread], h, code)
    // otherwise the interrupted thread goes on
    ensures !rotated ==>
      && Computes(old(cpu.State()), ts, cpu.State())
      && RunsWith(cpu.State(), ts, old(cpu.currentThread), old(ViewOf(cpu.State(), ts, cpu.currentThread)))
    // in both cases everything is ready for the next interrupt
    ensures var waits' := if rotated then Saved(S.Quantum, h, waits) else waits;
      && Scheduled(cpu.State(), ts, timer.Threads(), waits')
      && QueueInHandler(cpu.State().mem, ts, timer.Threads(), waits', code)
  {
    hide Awaits, InHandler, Unframe, Enters, Layout, Suspended, QueueInHandler, S.Ending, S.Truncated, S.Take, S.Ring;
    ghost var stop, l := cpu.State(), timer.Threads();
    h := Handover(stop, ViewOf(stop, ts, stop.current), stop, stop, stop, stop);
    rotated := timer.ticks + 1 >= S.Truncated(timer.hz, 20);
    S.QuantumEndsIff(timer.ticks, timer.hz);
    Enter(cpu, code.stub, code.dispatcher, code.resume);
    hide ViewOf, HasRoom;
    var spins := timer.HandleInterrupt();
    hide Computes;
    if rotated {
      h := EndQuantum(cpu, timer.current, code, ts, l, waits, stop);
    } else {
      ReturnFromStub(cpu, code, ts, stop);
      StillScheduled(stop, ts, l, waits, code, cpu.State());
    }
  }

  // ---- Shutdown ----

  /** Room for the frames of thread_shutdown and for the frame of the switch. */
  predicate HasRoomToCall(r: Registers, a: Area, code: Code) {
    r.esp % 4 == 0 && a.lo + 4 * code.locals + 8 + 64 <= r.esp
  }

  /** Calling the switch is computing, up to the call. */
  lemma CallIsLocal(c: Core, ts: Threads, code: Code, off: Core, call: Core, next: Word)
    requires Valid(c, ts) && HasRoomToCall(c.r, ts[c.current], code) && next in ts
    requires off == c.(r := c.r.(eflags := off.r.eflags)) && !InterruptsEnabled(off.r.eflags)
    requires Calls(code, off, call, next)
    ensures Computes(c, ts, call) && Valid(call, ts) && CallsSwitch(call, ts, next)
  {
    var a := ts[c.current];
    CallStaysAligned(c.r.esp, code.locals);
    assert CallFits(call.r) && a.lo <= SavedAt(call.r) && call.r.esp + 8 <= c.r.esp <= a.hi;
    hide CallFits, SavedAt, InterruptsEnabled, HasRoomToCall;
    OwnStackWrites(c, ts, call, call.r.esp, c.r.esp);
    hide Layout, Suspended, KeepsOthers;
    ComputeKeepsValid(c, ts, call);
  }

  lemma CallStaysAligned(esp: int, words: int)
    requires esp % 4 == 0
    ensures (esp - 8 - 4 * words) % 4 == 0
  {
    assert esp - 8 - 4 * words == 4 * (esp / 4 - 2 - words);
  }

  lemma DroppedQueue(mem: seq<Word>, ts: Threads, l: seq<Word>, waits: map<Word, Waiting>, code: Code)
    requires |mem| == WORD_LIMIT && Layout(ts) && |l| > 1 && QueueInHandler(mem, ts, l, waits, code)
    ensures QueueInHandler(mem, ts, S.Take(l, S.Shutdown), waits, code)
    ensures l[1] in ts && l[1] in waits && InHandler(mem, l[1], ts[l[1]], waits[l[1]], code)
  {
    hide InHandler;
  }

  /** The thread behind the one that shuts down is ready for the switch. */
  lemma SecondIsReady(c: Core, ts: Threads, l: seq<Word>, waits: map<Word, Waiting>, code: Code, call: Core, view: View)
    requires Scheduled(c, ts, l, waits) && QueueInHandler(c.mem, ts, l, waits, code) && |l| > 1
    requires Computes(c, ts, call) && Valid(call, ts)
    ensures l[1] in waits && NextIs(call, ts, l[1], waits[l[1]], view, code)
    ensures QueueInHandler(call.mem, ts, l, waits, code)
  {
    OthersAwait(c, ts, l, waits, call);
    QueueIsKept(c, ts, l, waits, code, call);
    assert l[0] != l[1] && call.current == l[0];
    hide Awaits, InHandler, KeepsOthers, Suspended, BehindCall, Valid;
  }

  /** The thread at the head of the list calls the switch to the next one, for good. */
  method SwitchAway(cpu: Processor, next: Word, code: Code, ghost ts: Threads, ghost l: seq<Word>,
                    ghost waits: map<Word, Waiting>, ghost c: Core)
    returns (ghost h: Handover)
    requires cpu.Valid() && Scheduled(c, ts, l, waits) && QueueInHandler(c.mem, ts, l, waits, code)
    requires |l| > 1 && next == l[1] && HasRoomToCall(c.r, ts[c.current], code)
    requires cpu.State() == c.(r := c.r.(eflags := cpu.r.eflags)) && !InterruptsEnabled(cpu.r.eflags)
    modifies cpu, cpu.memory
    ensures cpu.Valid() && Turn(c, ts, l, waits, S.Shutdown, h, cpu.State())
    ensures next in waits && ThroughStub(waits[next], h, code)
    ensures Scheduled(cpu.State(), ts, l[1..], waits) && QueueInHandler(cpu.State().mem, ts, l[1..], waits, code)
  {
    assert Valid(c, ts) && l[0] == c.current && next in ts && Distinct(l) && Layout(ts);
    assert S.CanTake(l, [S.Shutdown]) && S.Take(l, S.Shutdown) == l[1..];
    RoomToCall(cpu.r, ts[c.current], code);
    hide Valid, Scheduled, Awaits, InHandler, Unframe, CallsSwitch, KeepsOthers, QueueInHandler, S.Take, CanCall;
    hide NextIs, BehindCall, Layout, Computes, S.CanTake, HasRoomToCall, Calls, InterruptsEnabled;
    ghost var off, view := cpu.State(), View(c.r, []);
    CallSwitch(cpu, next, code);
    ghost var call := cpu.State();
    CallIsLocal(c, ts, code, off, call, next);
    SecondIsReady(c, ts, l, waits, code, call, view);
    h := SwitchAndReturn(cpu, code, next, ts, waits[next], call, view, call);
    TurnIs(c, ts, l, waits, S.Shutdown, h, cpu.State());
    CallerLeaves(ts, l, waits, code, h, next);
    QueueAfterTurn(c, ts, l, waits, S.Shutdown, code, h, cpu.State());
    TurnResumes(c, ts, l, waits, S.Shutdown, h, cpu.State());
  }

  lemma RoomToCall(r: Registers, a: Area, code: Code)
    requires HasRoomToCall(r, a, code)
    ensures CanCall(r.esp, code)
  {
  }

  lemma CallerLeaves(ts: Threads, l: seq<Word>, waits: map<Word, Waiting>, code: Code, h: Handover, next: Word)
    requires Valid(h.call, ts) && |h.switched.mem| == WORD_LIMIT && KeepsOthers(h.call, ts, h.switched)
    requires |l| > 1 && l[0] == h.call.current && Distinct(l) && QueueInHandler(h.call.mem, ts, l, waits, code)
    ensures QueueInHandler(h.switched.mem, ts, S.Take(l, S.Shutdown), waits, code)
  {
    QueueIsKept(h.call, ts, l, waits, code, h.switched);
    DroppedQueue(h.switched.mem, ts, l, waits, code);
  }

  /** thread_shutdown of the running thread.  With nobody else in the list it is stuck. */
  method ThreadShutdown(cpu: Processor, timer: S.RoundRobinTimer<Word>, code: Code,
                        ghost ts: Threads, ghost waits: map<Word, Waiting>)
    returns (stuck: bool, ghost h: Handover)
    requires cpu.Valid() && timer.scheduler.Valid() && cpu.memory != timer.scheduler.queue
    requires Scheduled(cpu.State(), ts, timer.Threads(), waits)
    requires QueueInHandler(cpu.State().mem, ts, timer.Threads(), waits, code)
    requires HasRoomToCall(cpu.r, ts[cpu.currentThread], code)
    modifies cpu, cpu.memory, timer, timer.scheduler
    ensures cpu.Valid() && timer.scheduler.Valid() && timer.ticks == old(timer.ticks)
    ensures stuck <==> |old(timer.Threads())| == 1
    ensures stuck ==> timer.Threads() == old(timer.Threads())
    ensures !stuck ==>
      && timer.Threads() == old(timer.Threads())[1..]
      && Turn(old(cpu.State()), ts, old(timer.Threads()), waits, S.Shutdown, h, cpu.State())
      && cpu.currentThread in waits && ThroughStub(waits[cpu.currentThread], h, code)
      && Scheduled(cpu.State(), ts, timer.Threads(), waits)
      && QueueInHandler(cpu.State().mem, ts, timer.Threads(), waits, code)
  {
    ghost var c, l := cpu.State(), timer.Threads();
    h := Handover(c, View(c.r, []), c, c, c, c);
    if InterruptsEnabled(cpu.r.eflags) {
      cpu.r := cpu.r.(eflags := WithoutIF(cpu.r.eflags));
    }
    hide Awaits, InHandler, Unframe, ViewOf, Layout, Suspended, QueueInHandler, HasRoomToCall, InterruptsEnabled, Valid;
    stuck := timer.ThreadShutdown();
    if !stuck {
      h := SwitchAway(cpu, timer.current, code, ts, l, waits, c);
    }
  }
}
