/** The end of main, and the kernel running: threads are started, compute, are interrupted and shut down. */
module KernelMain {
  import opened Words
  import opened Cpu
  import opened ThreadsLow
  import opened ContextSwitch
  import opened Thread
  import opened StartUp
  import opened Preemption
  import opened Kernel
  import S = Scheduler

  /** Where a thread's control block and stack are, and its function. */
  datatype Plan = Plan(block: Word, body: Word, area: Area)

  ghost predicate Fits(p: Plan) {
    p.area.hi < WORD_LIMIT && TopFits(p.area.hi) && p.area.lo + FORGED_SIZE <= p.area.hi
  }

  function With(ts: Threads, p: Plan): Threads { ts[p.block := p.area] }

  /** Each thread's function, by the address of its control block. */
  type Bodies = map<Word, Word>

  /** A thread about to start: thread_start returns into its function, which returns into thread_shutdown. */
  predicate StartsWith(v: View, entries: Entries, body: Word, top: nat) {
    && FORGED_SIZE <= top < WORD_LIMIT && v.r == StartRegisters(entries, top)
    && |v.stack| == 12 && v.stack[0] == body && v.stack[4] == entries.threadShutdown
  }

  /** Every thread created so far is about to start. */
  ghost predicate AllNew(c: Core, ts: Threads, entries: Entries, bodies: Bodies) {
    && Starting(c, ts)
    && forall t :: t in ts ==> IsNew(c, ts, entries, bodies, t)
  }

  ghost predicate IsNew(c: Core, ts: Threads, entries: Entries, bodies: Bodies, t: Word)
    requires Starting(c, ts) && t in ts
  {
    t in bodies && StartsWith(WaitingView(c.mem, t, ts[t]), entries, bodies[t], ts[t].hi)
  }

  lemma SomeThreads(ts: Threads, us: Threads)
    requires Layout(us) && forall t :: t in ts ==> t in us && ts[t] == us[t]
    ensures Layout(ts)
  {
  }

  /** The functions of the threads that are known after an event of main. */
  function BodiesAfter(bodies: Bodies, e: Event): Bodies {
    if e.Create? then bodies[e.block := e.body] else bodies
  }

  lemma StaysNew(c: Core, ts: Threads, e: Event, entries: Entries, bodies: Bodies, c': Core)
    requires AllNew(c, ts, entries, bodies) && StartStep(c, ts, e, entries, c')
    ensures AllNew(c', Known(ts, e), entries, BodiesAfter(bodies, e))
  {
    assert e.Create? ==> e.block !in ts;
    hide Starting, IsNew, StartStep, CreatedView, Suspended, WaitingView;
    StartStepKeepsStarting(c, ts, e, entries, c');
    forall t | t in Known(ts, e)
      ensures IsNew(c', Known(ts, e), entries, BodiesAfter(bodies, e), t)
    {
      OneStaysNew(c, ts, e, entries, bodies, c', t);
    }
  }

  lemma OneStaysNew(c: Core, ts: Threads, e: Event, entries: Entries, bodies: Bodies, c': Core, t: Word)
    requires Starting(c, ts) && Starting(c', Known(ts, e)) && t in Known(ts, e)
    requires t in ts ==> IsNew(c, ts, entries, bodies, t)
    requires t in ts ==> Known(ts, e)[t] == ts[t] && WaitingView(c'.mem, t, ts[t]) == WaitingView(c.mem, t, ts[t])
    requires e.Create? ==> e.block !in ts && CreatedView(c'.mem, e, entries)
    ensures IsNew(c', Known(ts, e), entries, BodiesAfter(bodies, e), t)
  {
    hide Suspended, WaitingView, StartRegisters;
  }

  method CreateThread(cpu: Processor, p: Plan, ids: Ids, entries: Entries, ghost ts: Threads, ghost bodies: Bodies)
    returns (thread: Thread)
    requires cpu.Valid() && AllNew(cpu.State(), ts, entries, bodies)
    requires p.block !in ts && Layout(With(ts, p)) && Fits(p)
    modifies cpu`r, cpu.memory, ids
    ensures cpu.Valid() && AllNew(cpu.State(), With(ts, p), entries, bodies[p.block := p.body])
    ensures thread.threadId == old(ids.nextFreePid) && ids.nextFreePid == old(ids.nextFreePid) + 1
    ensures cpu.r == old(cpu.r).(eflags := WithoutIF(old(cpu.r.eflags))) && thread.block == p.block
  {
    ghost var c, e := cpu.State(), Create(p.block, p.body, p.area);
    assert p.block % 4 == 0 && !(p.area.lo <= p.block < p.area.hi) by {
      assert With(ts, p)[p.block] == p.area && Disjoint(p.block, p.area, p.block, p.area);
    }
    assert Starting(c, ts) && Layout(ts);
    hide Starting, AllNew, Layout, Unframe, StartRegisters;
    thread := new Thread(cpu, p.block, ids, p.body, entries, p.area.lo, p.area.hi - p.area.lo);
    assert NewThread(ts, p.block, p.area) && StartStep(c, ts, e, entries, cpu.State());
    StaysNew(c, ts, e, entries, bodies, cpu.State());
  }

  /** The words that main's call of dispatch_to uses on its stack are clear of the threads. */
  ghost predicate MainStackIsClear(ts: Threads, esp: int, code: Code) {
    && esp % 4 == 0 && 72 + 4 * code.locals <= esp < WORD_LIMIT
    && var low := esp - 8 - 4 * code.locals;
       forall t :: t in ts ==> !(low <= t < esp) && (ts[t].hi <= low || esp <= ts[t].lo)
  }

  /** The threads that do not run yet are about to start. */
  ghost predicate AllWaitNew(c: Core, ts: Threads, entries: Entries, bodies: Bodies) {
    && Valid(c, ts)
    && forall t :: t in ts && t != c.current ==>
         t in bodies && Suspended(c.mem, t, ts[t]) &&
         StartsWith(WaitingView(c.mem, t, ts[t]), entries, bodies[t], ts[t].hi)
  }

  /** And so is the first thread, which runs. */
  ghost predicate FirstRunning(c: Core, ts: Threads, entries: Entries, bodies: Bodies, first: Word) {
    && AllWaitNew(c, ts, entries, bodies) && first in ts && first in bodies
    && c.current == first && StartsWith(ViewOf(c, ts, first), entries, bodies[first], ts[first].hi)
  }

  /** The pushes of main's call leave the threads alone. */
  lemma CallFromMain(c: Core, ts: Threads, entries: Entries, bodies: Bodies, code: Code, call: Core, next: Word)
    requires AllNew(c, ts, entries, bodies) && MainStackIsClear(ts, c.r.esp, code) && Calls(code, c, call, next)
    ensures AllNew(call, ts, entries, bodies) && CallFits(call.r)
  {
    hide Unframe, WaitingView, Suspended, StartRegisters;
    CallStaysAligned(c.r.esp, code.locals);
    forall t | t in ts
      ensures KeepsThread(c.mem, call.mem, t, ts[t])
    {
    }
    hide AllNew;
    StaysNew(c, ts, Other, entries, bodies, call);
  }

  /** What the first dispatch leaves. */
  lemma FirstRuns(c: Core, ts: Threads, entries: Entries, bodies: Bodies, next: Word, c': Core)
    requires AllNew(c, ts, entries, bodies) && next in ts && !InterruptsEnabled(c.r.eflags)
    requires CallFits(c.r) && c.mem[c.r.esp + 4] == next && FrameFits(NextFrame(c, next)) && Switches(c, next, c')
    ensures FirstRunning(c', ts, entries, bodies, next)
  {
    FirstDispatch(c, ts, next, c');
    hide Unframe, StartRegisters;
    assert c'.mem == c.mem;
  }

  lemma FirstCallIsDefined(c: Core, ts: Threads, entries: Entries, bodies: Bodies, code: Code, call: Core, next: Word)
    requires AllNew(call, ts, entries, bodies) && CallFits(call.r) && next in ts && Calls(code, c, call, next)
    ensures Starting(call, ts) && call.current == 0 && |call.mem| == WORD_LIMIT && FrameFits(NextFrame(call, next))
    ensures call.r.esp + 4 < WORD_LIMIT && call.mem[call.r.esp + 4] == next && call.r.eflags == c.r.eflags
  {
    hide Unframe, WaitingView, StartRegisters;
    assert Suspended(call.mem, next, ts[next]);
  }

  /** What the short path of the stub needs. */
  ghost predicate ReadyToLoad(cpu: Processor, next: Word, entries: Entries, ts: Threads, bodies: Bodies)
    reads cpu, cpu.memory
  {
    && cpu.Valid() && AllNew(cpu.State(), ts, entries, bodies) && next in ts && !InterruptsEnabled(cpu.r.eflags)
    && cpu.currentThread == 0 && cpu.r.esp + 4 < WORD_LIMIT && CallFits(cpu.r)
    && cpu.memory[cpu.r.esp + 4] == next && FrameFits(NextFrame(cpu.State(), next))
  }

  lemma FirstCallIsReady(c: Core, ts: Threads, entries: Entries, bodies: Bodies, code: Code, cpu: Processor, next: Word)
    requires cpu.Valid() && AllNew(c, ts, entries, bodies) && next in ts && MainStackIsClear(ts, c.r.esp, code)
    requires !InterruptsEnabled(c.r.eflags) && Calls(code, c, cpu.State(), next)
    ensures ReadyToLoad(cpu, next, entries, ts, bodies)
  {
    hide AllNew, Starting, Calls, MainStackIsClear, FrameFits, CallFits, NextFrame, InterruptsEnabled;
    CallFromMain(c, ts, entries, bodies, code, cpu.State(), next);
    FirstCallIsDefined(c, ts, entries, bodies, code, cpu.State(), next);
  }

  /** The stub's short path. */
  method LoadFirst(cpu: Processor, next: Word, entries: Entries, ghost ts: Threads, ghost bodies: Bodies)
    requires ReadyToLoad(cpu, next, entries, ts, bodies)
    modifies cpu, cpu.memory
    ensures cpu.Valid() && FirstRunning(cpu.State(), ts, entries, bodies, next)
  {
    hide AllNew, Starting, FirstRunning, Switches, FrameFits, CallFits, NextFrame, Separate, InterruptsEnabled;
    ghost var c := cpu.State();
    SwitchTo(cpu);
    FirstRuns(c, ts, entries, bodies, next, cpu.State());
  }

  /** dispatch_to from main: the pushes of the call, then the switch. */
  method FirstDispatchTo(cpu: Processor, next: Word, code: Code, entries: Entries,
                         ghost ts: Threads, ghost bodies: Bodies)
    requires cpu.Valid() && AllNew(cpu.State(), ts, entries, bodies) && next in ts
    requires MainStackIsClear(ts, cpu.r.esp, code) && !InterruptsEnabled(cpu.r.eflags)
    modifies cpu, cpu.memory
    ensures cpu.Valid() && FirstRunning(cpu.State(), ts, entries, bodies, next)
  {
    ghost var c := cpu.State();
    MainCanCall(ts, cpu.r.esp, code);
    hide *;
    CallSwitch(cpu, next, code);
    FirstCallIsReady(c, ts, entries, bodies, code, cpu, next);
    LoadFirst(cpu, next, entries, ts, bodies);
  }

  lemma MainCanCall(ts: Threads, esp: Word, code: Code)
    requires MainStackIsClear(ts, esp, code)
    ensures CanCall(esp, code)
  {
  }

  ghost function FreshWaits(c: Core, ts: Threads, entries: Entries, bodies: Bodies): map<Word, Waiting>
    requires AllWaitNew(c, ts, entries, bodies)
  {
    map t | t in ts && t != c.current :: Fresh(WaitingView(c.mem, t, ts[t]))
  }

  lemma NewQueueIsReady(c: Core, ts: Threads, entries: Entries, bodies: Bodies, code: Code, l: seq<Word>)
    requires AllWaitNew(c, ts, entries, bodies) && entries.threadStart != code.afterSwitch
    requires l != [] && l[0] == c.current && Distinct(l) && forall k :: 0 <= k < |l| ==> l[k] in ts
    ensures Scheduled(c, ts, l, FreshWaits(c, ts, entries, bodies))
    ensures QueueInHandler(c.mem, ts, l, FreshWaits(c, ts, entries, bodies), code)
  {
    hide Unframe;
    forall k | 1 <= k < |l|
      ensures l[k] != c.current
    {
      assert l[0] != l[k];
    }
  }

  predicate Different(p1: Plan, p2: Plan, p3: Plan, p4: Plan) {
    && p1.block != p2.block && p1.block != p3.block && p1.block != p4.block
    && p2.block != p3.block && p2.block != p4.block && p3.block != p4.block
  }

  function Blocks(p1: Plan, p2: Plan, p3: Plan, p4: Plan): seq<Word> {
    [p1.block, p2.block, p3.block, p4.block]
  }

  function BodiesOf(p1: Plan, p2: Plan, p3: Plan, p4: Plan): Bodies {
    map[p1.block := p1.body][p2.block := p2.body][p3.block := p3.body][p4.block := p4.body]
  }

  function AllOf(p1: Plan, p2: Plan, p3: Plan, p4: Plan): Threads {
    With(With(With(With(map[], p1), p2), p3), p4)
  }

  /** The ready queue with three threads behind the first. */
  method MakeQueue(first: Word, second: Word, third: Word, fourth: Word, hz: int)
    returns (timer: S.RoundRobinTimer<Word>)
    ensures fresh(timer) && fresh(timer.scheduler) && fresh(timer.scheduler.queue) && timer.scheduler.Valid()
    ensures timer.Threads() == [first, second, third, fourth] && timer.scheduler.queue.Length == 4
    ensures timer.ticks == 0 && timer.hz == hz
  {
    hide S.Ring;
    var scheduler := new S.Scheduler<Word>(4);
    var _ := scheduler.Add(second);
    var _ := scheduler.Add(third);
    var _ := scheduler.Add(fourth);
    timer := new S.RoundRobinTimer(scheduler, first, hz);
  }

  method CreateFour(cpu: Processor, p1: Plan, p2: Plan, p3: Plan, p4: Plan, entries: Entries)
    requires cpu.Valid() && cpu.currentThread == 0
    requires Different(p1, p2, p3, p4) && Fits(p1) && Fits(p2) && Fits(p3) && Fits(p4) && Layout(AllOf(p1, p2, p3, p4))
    modifies cpu`r, cpu.memory
    ensures cpu.Valid() && AllNew(cpu.State(), AllOf(p1, p2, p3, p4), entries, BodiesOf(p1, p2, p3, p4))
    ensures cpu.r.esp == old(cpu.r.esp) && !InterruptsEnabled(cpu.r.eflags)
  {
    Stages(p1, p2, p3, p4);
    NoThreadYet(cpu.State(), entries);
    assert BodiesOf(p1, p2, p3, p4)
        == map[p1.block := p1.body][p2.block := p2.body][p3.block := p3.body][p4.block := p4.body];
    hide *;
    ghost var ts1 := With(map[], p1);
    ghost var ts2 := With(ts1, p2);
    ghost var ts3 := With(ts2, p3);
    var ids := new Ids();
    ghost var bodies1: Bodies := map[p1.block := p1.body];
    ghost var bodies2 := bodies1[p2.block := p2.body];
    ghost var bodies3 := bodies2[p3.block := p3.body];
    var thread1 := CreateThread(cpu, p1, ids, entries, map[], map[]);
    var thread2 := CreateThread(cpu, p2, ids, entries, ts1, bodies1);
    var thread3 := CreateThread(cpu, p3, ids, entries, ts2, bodies2);
    var thread4 := CreateThread(cpu, p4, ids, entries, ts3, bodies3);
  }

  lemma NoThreadYet(c: Core, entries: Entries)
    requires |c.mem| == WORD_LIMIT && c.current == 0
    ensures AllNew(c, map[], entries, map[])
  {
  }

  lemma Stages(p1: Plan, p2: Plan, p3: Plan, p4: Plan)
    requires Different(p1, p2, p3, p4) && Layout(AllOf(p1, p2, p3, p4))
    ensures var ts1 := With(map[], p1);
      var ts2 := With(ts1, p2);
      var ts3 := With(ts2, p3);
      && Layout(ts1) && Layout(ts2) && Layout(ts3) && Layout(With(ts3, p4)) && AllOf(p1, p2, p3, p4) == With(ts3, p4)
      && p2.block !in ts1 && p3.block !in ts2 && p4.block !in ts3
  {
    hide Layout;
    var ts := AllOf(p1, p2, p3, p4);
    SomeThreads(With(map[], p1), ts);
    SomeThreads(With(With(map[], p1), p2), ts);
    SomeThreads(With(With(With(map[], p1), p2), p3), ts);
  }

  lemma QueueOf(p1: Plan, p2: Plan, p3: Plan, p4: Plan)
    requires Different(p1, p2, p3, p4)
    ensures var ts, l := AllOf(p1, p2, p3, p4), Blocks(p1, p2, p3, p4);
      Distinct(l) && forall k :: 0 <= k < |l| ==> l[k] in ts
    ensures forall p <- {p1, p2, p3, p4} :: KnownAs(p, AllOf(p1, p2, p3, p4), BodiesOf(p1, p2, p3, p4))
  {
  }

  predicate KnownAs(p: Plan, ts: Threads, bodies: Bodies) {
    p.block in ts && ts[p.block] == p.area && p.block in bodies && bodies[p.block] == p.body
  }

  /** The end of main: four threads are created, three go to the ready queue, the first is dispatched. */
  method StartThreads(cpu: Processor, p1: Plan, p2: Plan, p3: Plan, p4: Plan, entries: Entries, code: Code, hz: int)
    returns (timer: S.RoundRobinTimer<Word>, ghost waits: map<Word, Waiting>)
    requires cpu.Valid() && cpu.currentThread == 0 && entries.threadStart != code.afterSwitch
    requires Different(p1, p2, p3, p4) && Fits(p1) && Fits(p2) && Fits(p3) && Fits(p4)
    requires Layout(AllOf(p1, p2, p3, p4)) && MainStackIsClear(AllOf(p1, p2, p3, p4), cpu.r.esp, code)
    modifies cpu, cpu.memory
    ensures cpu.Valid() && timer.scheduler.Valid() && cpu.memory != timer.scheduler.queue
    ensures fresh(timer) && fresh(timer.scheduler) && fresh(timer.scheduler.queue)
    ensures timer.Threads() == [p1.block, p2.block, p3.block, p4.block] && timer.scheduler.queue.Length == 4
    ensures timer.ticks == 0 && timer.hz == hz
    ensures Scheduled(cpu.State(), AllOf(p1, p2, p3, p4), timer.Threads(), waits)
    ensures QueueInHandler(cpu.State().mem, AllOf(p1, p2, p3, p4), timer.Threads(), waits, code)
    ensures Valid(cpu.State(), AllOf(p1, p2, p3, p4)) && p1.block in AllOf(p1, p2, p3, p4)
    // every thread is about to start, the first now and the others when their turn comes
    ensures StartsWith(ViewOf(cpu.State(), AllOf(p1, p2, p3, p4), p1.block), entries, p1.body, p1.area.hi)
    ensures WaitsNew(waits, p2, entries) && WaitsNew(waits, p3, entries) && WaitsNew(waits, p4, entries)
  {
    ghost var ts, l, bodies := AllOf(p1, p2, p3, p4), Blocks(p1, p2, p3, p4), BodiesOf(p1, p2, p3, p4);
    QueueOf(p1, p2, p3, p4);
    hide *;
    CreateFour(cpu, p1, p2, p3, p4, entries);
    timer := MakeQueue(p1.block, p2.block, p3.block, p4.block, hz);
    FirstDispatchTo(cpu, p1.block, code, entries, ts, bodies);
    FirstIs(cpu, ts, entries, bodies, p1);
    waits := FreshWaits(cpu.State(), ts, entries, bodies);
    NewQueueIsReady(cpu.State(), ts, entries, bodies, code, l);
    OtherWaits(cpu.State(), ts, entries, bodies, p2);
    OtherWaits(cpu.State(), ts, entries, bodies, p3);
    OtherWaits(cpu.State(), ts, entries, bodies, p4);
  }

  lemma FirstIs(cpu: Processor, ts: Threads, entries: Entries, bodies: Bodies, p: Plan)
    requires cpu.Valid() && FirstRunning(cpu.State(), ts, entries, bodies, p.block) && KnownAs(p, ts, bodies)
    ensures AllWaitNew(cpu.State(), ts, entries, bodies) && cpu.State().current == p.block
    ensures p.block in ts && StartsWith(ViewOf(cpu.State(), ts, p.block), entries, p.body, p.area.hi)
  {
  }

  predicate WaitsNew(waits: map<Word, Waiting>, p: Plan, entries: Entries) {
    p.block in waits && waits[p.block].Fresh? && StartsWith(waits[p.block].view, entries, p.body, p.area.hi)
  }

  lemma OtherWaits(c: Core, ts: Threads, entries: Entries, bodies: Bodies, p: Plan)
    requires AllWaitNew(c, ts, entries, bodies) && KnownAs(p, ts, bodies) && p.block != c.current
    ensures WaitsNew(FreshWaits(c, ts, entries, bodies), p, entries)
  {
    hide Suspended, WaitingView, StartRegisters;
  }

  // ---- Running ----

  /** What the threads compute between events: the n-th time, the state c becomes program(n, c).  They
      stay on their own stacks and leave room for the kernel. */
  ghost predicate WellBehaved(program: (nat, Core) -> Core, ts: Threads, code: Code) {
    forall n: nat, c: Core {:trigger program(n, c)} :: Valid(c, ts) ==>
      Computes(c, ts, program(n, c)) && HasRoom(program(n, c).r, ts[c.current], code)
  }

  /** The program that only drops its stack: with enough stack everywhere it is well behaved. */
  function Idle(ts: Threads): (nat, Core) -> Core {
    (n: nat, c: Core) =>
      if c.current in ts && ts[c.current].hi < WORD_LIMIT then c.(r := c.r.(esp := ts[c.current].hi)) else c
  }

  lemma IdleIsWellBehaved(ts: Threads, code: Code)
    requires Layout(ts)
    requires forall t :: t in ts ==> ts[t].hi % 4 == 0 && ts[t].lo + FRAME_SIZE + 80 + 4 * code.locals <= ts[t].hi
    ensures WellBehaved(Idle(ts), ts, code)
  {
    hide Suspended;
  }

  /** Put the processor into a state with the same running thread. */
  method Become(cpu: Processor, c: Core)
    requires cpu.Valid() && |c.mem| == WORD_LIMIT && c.current == cpu.currentThread
    modifies cpu`r, cpu.memory
    ensures cpu.Valid() && cpu.State() == c
  {
    cpu.r := c.r;
    forall a | 0 <= a < WORD_LIMIT {
      cpu.memory[a] := c.mem[a];
    }
    assert cpu.memory[..] == c.mem;
  }

  lemma ComputesChain(c0: Core, ts: Threads, c1: Core, c2: Core)
    requires Valid(c0, ts) && Computes(c0, ts, c1) && Valid(c1, ts) && Computes(c1, ts, c2)
    ensures Computes(c0, ts, c2)
  {
    hide Suspended, KeepsOthers;
    KeepsOthersChain(c0, ts, c1, c2);
  }

  lemma ComputesNothing(c: Core, ts: Threads)
    requires Valid(c, ts)
    ensures Computes(c, ts, c)
  {
    hide Suspended;
  }

  /** A turn may be seen as starting where the running thread started to compute. */
  lemma TurnFromEarlier(c: Core, ts: Threads, l: seq<Word>, waits: map<Word, Waiting>, turn: S.Turn, c1: Core,
                        h: Handover, c': Core)
    requires Scheduled(c, ts, l, waits) && Computes(c, ts, c1) && Turn(c1, ts, l, waits, turn, h, c')
    ensures Turn(c, ts, l, waits, turn, h, c')
  {
    hide Awaits, Computes, GivesUp, SwitchesBy, Resumes, Suspended, Layout;
    ComputesChain(c, ts, c1, h.stop);
  }

  lemma TurnParts(c: Core, ts: Threads, l: seq<Word>, waits: map<Word, Waiting>, turn: S.Turn, h: Handover, c': Core)
    requires Turn(c, ts, l, waits, turn, h, c')
    ensures l != [] && Scheduled(c, ts, l, waits)
  {
  }

  lemma ReachesOne(c: Core, ts: Threads, l: seq<Word>, waits: map<Word, Waiting>, turn: S.Turn, h: Handover, c': Core)
    requires Turn(c, ts, l, waits, turn, h, c')
    ensures Reaches(c, ts, l, waits, [turn], c', Saved(turn, h, waits))
  {
    hide Turn, Scheduled, Saved, S.Take, RunsWith;
    TurnParts(c, ts, l, waits, turn, h, c');
    TurnResumes(c, ts, l, waits, turn, h, c');
    assert Reaches(c', ts, S.Take(l, turn), Saved(turn, h, waits), [], c', Saved(turn, h, waits));
    var turns := [turn];
    assert turns[0] == turn && turns[1..] == [];
    assert Turn(c, ts, l, waits, turns[0], h, c');
    assert Reaches(c', ts, S.Take(l, turns[0]), Saved(turns[0], h, waits), turns[1..], c', Saved(turn, h, waits));
  }

  /** One more turn at the end. */
  lemma {:induction false} ReachesAppend(c: Core, ts: Threads, l: seq<Word>, waits: map<Word, Waiting>,
                                         turns: seq<S.Turn>, m: Core, saved: map<Word, Waiting>,
                                         turn: S.Turn, h: Handover, c': Core)
    requires Reaches(c, ts, l, waits, turns, m, saved) && S.CanTake(l, turns)
    requires Turn(m, ts, S.After(l, turns), saved, turn, h, c')
    ensures Reaches(c, ts, l, waits, turns + [turn], c', Saved(turn, h, saved))
    decreases |turns|
  {
    hide Turn, Scheduled, Saved;
    if turns == [] {
      assert turns + [turn] == [turn] && m == c && saved == waits;
      ReachesOne(c, ts, l, waits, turn, h, c');
    } else {
      var g, m1 :|
        && Turn(c, ts, l, waits, turns[0], g, m1)
        && Reaches(m1, ts, S.Take(l, turns[0]), Saved(turns[0], g, waits), turns[1..], m, saved);
      ReachesAppend(m1, ts, S.Take(l, turns[0]), Saved(turns[0], g, waits), turns[1..], m, saved, turn, h, c');
      assert (turns + [turn])[1..] == turns[1..] + [turn] && (turns + [turn])[0] == turns[0];
    }
  }

  /** Where the machine is: the turns made since c0, and what the running thread computed after them. */
  ghost predicate Served(c0: Core, ts: Threads, l0: seq<Word>, waits0: map<Word, Waiting>, turns: seq<S.Turn>,
                         last: Core, waits: map<Word, Waiting>, c: Core, l: seq<Word>, code: Code)
  {
    && Reaches(c0, ts, l0, waits0, turns, last, waits)
    && S.CanTake(l0, turns) && l == S.After(l0, turns)
    && Scheduled(last, ts, l, waits) && Computes(last, ts, c)
    && Scheduled(c, ts, l, waits) && QueueInHandler(c.mem, ts, l, waits, code)
  }

  lemma ServedComputes(c0: Core, ts: Threads, l0: seq<Word>, waits0: map<Word, Waiting>, turns: seq<S.Turn>,
                       last: Core, waits: map<Word, Waiting>, c: Core, l: seq<Word>, code: Code, c': Core)
    requires Served(c0, ts, l0, waits0, turns, last, waits, c, l, code) && Computes(c, ts, c')
    ensures Served(c0, ts, l0, waits0, turns, last, waits, c', l, code)
  {
    ComputesChain(last, ts, c, c');
    StillScheduled(c, ts, l, waits, code, c');
    hide Awaits, Computes, Reaches, Valid, QueueInHandler;
  }

  lemma ServedTurns(c0: Core, ts: Threads, l0: seq<Word>, waits0: map<Word, Waiting>, turns: seq<S.Turn>,
                    last: Core, waits: map<Word, Waiting>, c: Core, l: seq<Word>, code: Code,
                    turn: S.Turn, h: Handover, c': Core)
    requires Served(c0, ts, l0, waits0, turns, last, waits, c, l, code) && Turn(c, ts, l, waits, turn, h, c')
    requires Scheduled(c', ts, S.Take(l, turn), Saved(turn, h, waits))
    requires QueueInHandler(c'.mem, ts, S.Take(l, turn), Saved(turn, h, waits), code)
    ensures Served(c0, ts, l0, waits0, turns + [turn], c', Saved(turn, h, waits), c', S.Take(l, turn), code)
  {
    hide Awaits, Computes, Reaches, Valid, QueueInHandler;
    TurnFromEarlier(last, ts, l, waits, turn, c, h, c');
    ReachesAppend(c0, ts, l0, waits0, turns, last, waits, turn, h, c');
    AfterAppend(l0, turns, turn);
    ComputesNothing(c', ts);
  }

  lemma {:induction false} AfterAppend<T>(l: seq<T>, turns: seq<S.Turn>, turn: S.Turn)
    requires S.CanTake(l, turns) && S.CanTake(S.After(l, turns), [turn])
    ensures S.CanTake(l, turns + [turn]) && S.After(l, turns + [turn]) == S.Take(S.After(l, turns), turn)
    decreases |turns|
  {
    if turns == [] {
      assert turns + [turn] == [turn];
    } else {
      assert (turns + [turn])[1..] == turns[1..] + [turn] && (turns + [turn])[0] == turns[0];
      AfterAppend(S.Take(l, turns[0]), turns[1..], turn);
    }
  }

  lemma ServedParts(c0: Core, ts: Threads, l0: seq<Word>, waits0: map<Word, Waiting>, turns: seq<S.Turn>,
                    last: Core, waits: map<Word, Waiting>, c: Core, l: seq<Word>, code: Code)
    requires Served(c0, ts, l0, waits0, turns, last, waits, c, l, code)
    ensures Scheduled(c, ts, l, waits) && Valid(c, ts) && QueueInHandler(c.mem, ts, l, waits, code)
  {
  }

  /** The timer interrupts the running thread. */
  method ServeInterrupt(cpu: Processor, timer: S.RoundRobinTimer<Word>, code: Code,
                        ghost ts: Threads, ghost c0: Core, ghost l0: seq<Word>, ghost waits0: map<Word, Waiting>,
                        ghost turns: seq<S.Turn>, ghost last: Core, ghost waits: map<Word, Waiting>)
    returns (ghost turns': seq<S.Turn>, ghost last': Core, ghost waits': map<Word, Waiting>)
    requires cpu.Valid() && timer.scheduler.Valid() && cpu.memory != timer.scheduler.queue
    requires |timer.Threads()| <= timer.scheduler.queue.Length
    requires Served(c0, ts, l0, waits0, turns, last, waits, cpu.State(), timer.Threads(), code)
    requires cpu.currentThread in ts && HasRoom(cpu.r, ts[cpu.currentThread], code)
    modifies cpu, cpu.memory, timer, timer.scheduler, timer.scheduler.queue
    ensures cpu.Valid() && timer.scheduler.Valid()
    ensures Served(c0, ts, l0, waits0, turns', last', waits', cpu.State(), timer.Threads(), code)
    ensures S.Clock(timer.ticks, timer.Threads()) == S.Tick(old(S.Clock(timer.ticks, timer.Threads())), timer.hz)
  {
    hide Served, Scheduled, QueueInHandler, S.Ring, Turn, HasRoom, Computes, Valid, RunsWith, S.Truncated, Saved;
    turns', last', waits' := turns, last, waits;
    hide S.Ending;
    ghost var s, l := cpu.State(), timer.Threads();
    ServedParts(c0, ts, l0, waits0, turns, last, waits, s, l, code);
    S.QuantumEndsIff(timer.ticks, timer.hz);
    var rotated;
    ghost var h;
    rotated, h := TimerInterrupt(cpu, timer, code, ts, waits);
    if rotated {
      turns', last', waits' := turns + [S.Quantum], cpu.State(), Saved(S.Quantum, h, waits);
      ServedTurns(c0, ts, l0, waits0, turns, last, waits, s, l, code, S.Quantum, h, cpu.State());
    } else {
      ServedComputes(c0, ts, l0, waits0, turns, last, waits, s, l, code, cpu.State());
    }
  }

  /** The running thread, not the last, shuts down. */
  method ServeExit(cpu: Processor, timer: S.RoundRobinTimer<Word>, code: Code,
                   ghost ts: Threads, ghost c0: Core, ghost l0: seq<Word>, ghost waits0: map<Word, Waiting>,
                   ghost turns: seq<S.Turn>, ghost last: Core, ghost waits: map<Word, Waiting>)
    returns (ghost turns': seq<S.Turn>, ghost last': Core, ghost waits': map<Word, Waiting>)
    requires cpu.Valid() && timer.scheduler.Valid() && cpu.memory != timer.scheduler.queue && |timer.Threads()| > 1
    requires Served(c0, ts, l0, waits0, turns, last, waits, cpu.State(), timer.Threads(), code)
    requires cpu.currentThread in ts && HasRoomToCall(cpu.r, ts[cpu.currentThread], code)
    modifies cpu, cpu.memory, timer, timer.scheduler
    ensures cpu.Valid() && timer.scheduler.Valid() && timer.ticks == old(timer.ticks)
    ensures Served(c0, ts, l0, waits0, turns', last', waits', cpu.State(), timer.Threads(), code)
    ensures timer.Threads() == S.Take(old(timer.Threads()), S.Shutdown)
  {
    hide Served, Scheduled, QueueInHandler, S.Ring, Turn, HasRoomToCall, Computes, Valid, RunsWith;
    ghost var s, l := cpu.State(), timer.Threads();
    ServedParts(c0, ts, l0, waits0, turns, last, waits, s, l, code);
    var stuck;
    ghost var h;
    stuck, h := ThreadShutdown(cpu, timer, code, ts, waits);
    turns', last', waits' := turns + [S.Shutdown], cpu.State(), Saved(S.Shutdown, h, waits);
    ServedTurns(c0, ts, l0, waits0, turns, last, waits, s, l, code, S.Shutdown, h, cpu.State());
  }

  lemma ServedEnd(c0: Core, ts: Threads, l0: seq<Word>, waits0: map<Word, Waiting>, turns: seq<S.Turn>,
                  last: Core, waits: map<Word, Waiting>, c: Core, l: seq<Word>, code: Code)
    requires Served(c0, ts, l0, waits0, turns, last, waits, c, l, code)
    ensures Reaches(c0, ts, l0, waits0, turns, last, waits) && Valid(last, ts) && Computes(last, ts, c)
  {
  }

  /** The running thread computes up to s, and then the timer interrupts it or it shuts down. */
  method ServeEvent(cpu: Processor, timer: S.RoundRobinTimer<Word>, code: Code, s: Core, e: S.Happening,
                    ghost ts: Threads, ghost c0: Core, ghost l0: seq<Word>, ghost waits0: map<Word, Waiting>,
                    ghost turns: seq<S.Turn>, ghost last: Core, ghost waits: map<Word, Waiting>)
    returns (ghost turns': seq<S.Turn>, ghost last': Core, ghost waits': map<Word, Waiting>)
    requires cpu.Valid() && timer.scheduler.Valid() && cpu.memory != timer.scheduler.queue
    requires |timer.Threads()| <= timer.scheduler.queue.Length && (e == S.Exit ==> |timer.Threads()| > 1)
    requires Served(c0, ts, l0, waits0, turns, last, waits, cpu.State(), timer.Threads(), code)
    requires Valid(cpu.State(), ts) && Computes(cpu.State(), ts, s)
    requires s.current in ts && HasRoom(s.r, ts[s.current], code)
    modifies cpu, cpu.memory, timer, timer.scheduler, timer.scheduler.queue
    ensures cpu.Valid() && timer.scheduler.Valid()
    ensures Served(c0, ts, l0, waits0, turns', last', waits', cpu.State(), timer.Threads(), code)
    ensures S.Clock(timer.ticks, timer.Threads()) == S.Happens(old(S.Clock(timer.ticks, timer.Threads())), e, timer.hz)
  {
    assert |s.mem| == WORD_LIMIT && s.current == cpu.currentThread;
    ServedComputes(c0, ts, l0, waits0, turns, last, waits, cpu.State(), timer.Threads(), code, s);
    RoomIsRoomToCall(s.r, ts[s.current], code);
    hide Served, S.Ring, HasRoom, HasRoomToCall, Computes, Valid, S.Take, S.Tick;
    Become(cpu, s);
    if e == S.Interrupt {
      turns', last', waits' := ServeInterrupt(cpu, timer, code, ts, c0, l0, waits0, turns, last, waits);
    } else {
      turns', last', waits' := ServeExit(cpu, timer, code, ts, c0, l0, waits0, turns, last, waits);
    }
  }

  lemma RoomIsRoomToCall(r: Registers, a: Area, code: Code)
    requires HasRoom(r, a, code)
    ensures HasRoomToCall(r, a, code)
  {
  }

  /** The kernel at work: threads compute, are interrupted by the timer and shut down, in any order in
      which the last one does not end.  The machine makes the turns of round robin, one for each quantum
      that ends and one for each shutdown. */
  method Serve(cpu: Processor, timer: S.RoundRobinTimer<Word>, code: Code, program: (nat, Core) -> Core,
               events: seq<S.Happening>, ghost ts: Threads, ghost waits0: map<Word, Waiting>)
    returns (ghost turns: seq<S.Turn>, ghost last: Core, ghost waits: map<Word, Waiting>)
    requires cpu.Valid() && timer.scheduler.Valid() && cpu.memory != timer.scheduler.queue
    requires Scheduled(cpu.State(), ts, timer.Threads(), waits0) && WellBehaved(program, ts, code)
    requires QueueInHandler(cpu.State().mem, ts, timer.Threads(), waits0, code)
    requires |timer.Threads()| <= timer.scheduler.queue.Length
    requires S.CanHappen(S.Clock(timer.ticks, timer.Threads()), events, timer.hz)
    modifies cpu, cpu.memory, timer, timer.scheduler, timer.scheduler.queue
    ensures cpu.Valid() && timer.scheduler.Valid()
    ensures Served(old(cpu.State()), ts, old(timer.Threads()), waits0, turns, last, waits,
                   cpu.State(), timer.Threads(), code)
    ensures S.Clock(timer.ticks, timer.Threads()) ==
      S.AfterAll(old(S.Clock(timer.ticks, timer.Threads())), events, timer.hz)
  {
    ghost var c0, l0, clock0 := cpu.State(), timer.Threads(), S.Clock(timer.ticks, timer.Threads());
    turns, last, waits := [], c0, waits0;
    NothingServed(c0, ts, l0, waits0, code);
    ghost var end := S.AfterAll(clock0, events, timer.hz);
    assert LeadTo(clock0, events, timer.hz, end) && events[0..] == events;
    hide Served, Scheduled, QueueInHandler, WellBehaved, S.Ring, Computes, HasRoom, Valid;
    hide LeadTo, S.CanHappen, S.AfterAll, S.Happens;
    var n := 0;
    while n < |events|
      invariant 0 <= n <= |events|
      invariant cpu.Valid() && timer.scheduler.Valid() && |timer.Threads()| <= timer.scheduler.queue.Length
      invariant Served(c0, ts, l0, waits0, turns, last, waits, cpu.State(), timer.Threads(), code)
      invariant LeadTo(S.Clock(timer.ticks, timer.Threads()), events[n..], timer.hz, end)
    {
      var c := Core(cpu.r, cpu.memory[..], cpu.currentThread);
      var s := program(n, c);
      ServedParts(c0, ts, l0, waits0, turns, last, waits, c, timer.Threads(), code);
      ProgramBehaves(program, ts, code, n, c);
      assert events[n..][0] == events[n] && events[n..][1..] == events[n + 1..];
      LeadOn(S.Clock(timer.ticks, timer.Threads()), events[n..], timer.hz, end);
      turns, last, waits := ServeEvent(cpu, timer, code, s, events[n], ts, c0, l0, waits0, turns, last, waits);
      n := n + 1;
    }
    LeadEnds(S.Clock(timer.ticks, timer.Threads()), events[n..], timer.hz, end);
  }

  /** The events can happen from this clock and end with that one. */
  predicate LeadTo(c: S.Clock<Word>, es: seq<S.Happening>, hz: int, end: S.Clock<Word>) {
    S.CanHappen(c, es, hz) && S.AfterAll(c, es, hz) == end
  }

  lemma LeadOn(c: S.Clock<Word>, es: seq<S.Happening>, hz: int, end: S.Clock<Word>)
    requires LeadTo(c, es, hz, end) && es != []
    ensures c.threads != [] && (es[0] == S.Exit ==> |c.threads| > 1)
    ensures LeadTo(S.Happens(c, es[0], hz), es[1..], hz, end) && |S.Happens(c, es[0], hz).threads| <= |c.threads|
  {
  }

  lemma LeadEnds(c: S.Clock<Word>, es: seq<S.Happening>, hz: int, end: S.Clock<Word>)
    requires LeadTo(c, es, hz, end) && es == []
    ensures c == end
  {
  }

  lemma ProgramBehaves(program: (nat, Core) -> Core, ts: Threads, code: Code, n: nat, c: Core)
    requires WellBehaved(program, ts, code) && Valid(c, ts)
    ensures Computes(c, ts, program(n, c)) && program(n, c).current == c.current && c.current in ts
    ensures HasRoom(program(n, c).r, ts[c.current], code)
  {
  }

  lemma NothingServed(c: Core, ts: Threads, l: seq<Word>, waits: map<Word, Waiting>, code: Code)
    requires Scheduled(c, ts, l, waits) && QueueInHandler(c.mem, ts, l, waits, code)
    ensures Served(c, ts, l, waits, [], c, waits, c, l, code)
  {
    ComputesNothing(c, ts);
    hide Awaits, Computes, Valid, QueueInHandler;
  }

  /** main, from the creation of the threads on, and then any number of events: the machine has made the
      turns of round robin from the state after the first dispatch, in which every thread was new. */
  method StartAndServe(cpu: Processor, p1: Plan, p2: Plan, p3: Plan, p4: Plan, entries: Entries, code: Code, hz: int,
                       program: (nat, Core) -> Core, events: seq<S.Happening>)
    returns (timer: S.RoundRobinTimer<Word>, ghost first: Core, ghost waits0: map<Word, Waiting>,
             ghost turns: seq<S.Turn>, ghost last: Core, ghost waits: map<Word, Waiting>)
    requires cpu.Valid() && cpu.currentThread == 0 && entries.threadStart != code.afterSwitch
    requires Different(p1, p2, p3, p4) && Fits(p1) && Fits(p2) && Fits(p3) && Fits(p4)
    requires Layout(AllOf(p1, p2, p3, p4)) && MainStackIsClear(AllOf(p1, p2, p3, p4), cpu.r.esp, code)
    requires WellBehaved(program, AllOf(p1, p2, p3, p4), code)
    requires S.CanHappen(S.Clock(0, Blocks(p1, p2, p3, p4)), events, hz)
    modifies cpu, cpu.memory
    ensures fresh(timer) && Valid(first, AllOf(p1, p2, p3, p4)) && p1.block in AllOf(p1, p2, p3, p4)
    ensures StartsWith(ViewOf(first, AllOf(p1, p2, p3, p4), p1.block), entries, p1.body, p1.area.hi)
    ensures WaitsNew(waits0, p2, entries) && WaitsNew(waits0, p3, entries) && WaitsNew(waits0, p4, entries)
    ensures cpu.Valid() && timer.scheduler.Valid()
    ensures Reaches(first, AllOf(p1, p2, p3, p4), Blocks(p1, p2, p3, p4), waits0, turns, last, waits)
    ensures Valid(last, AllOf(p1, p2, p3, p4)) && Computes(last, AllOf(p1, p2, p3, p4), cpu.State())
    ensures S.Clock(timer.ticks, timer.Threads()) == S.AfterAll(S.Clock(0, Blocks(p1, p2, p3, p4)), events, hz)
  {
    hide Scheduled, QueueInHandler, WellBehaved, AllOf, Layout, MainStackIsClear, Fits, Different, Served, Reaches;
    hide Valid, ViewOf, StartsWith, WaitsNew, S.Ring, S.CanHappen, S.AfterAll;
    assert Blocks(p1, p2, p3, p4) == [p1.block, p2.block, p3.block, p4.block];
    timer, waits0 := StartThreads(cpu, p1, p2, p3, p4, entries, code, hz);
    first := cpu.State();
    turns, last, waits := Serve(cpu, timer, code, program, events, AllOf(p1, p2, p3, p4), waits0);
    ServedEnd(first, AllOf(p1, p2, p3, p4), Blocks(p1, p2, p3, p4), waits0, turns, last, waits,
              cpu.State(), timer.Threads(), code);
  }
}
