/** kernel.C's main: threads are created while none runs, and the first dispatch leaves main for good. */
module StartUp {
  import opened Words
  import opened Cpu
  import opened ThreadsLow
  import opened ContextSwitch
  import opened Interrupts
  import opened Thread

  /** No thread runs yet; those created so far wait on their own stacks. */
  ghost predicate Starting(c: Core, ts: Threads) {
    && |c.mem| == WORD_LIMIT && Layout(ts) && c.current == 0
    && forall t :: t in ts ==> Suspended(c.mem, t, ts[t])
  }

  /** The registers and the stack with which a suspended thread will run. */
  function WaitingView(mem: seq<Word>, t: Word, a: Area): View
    requires |mem| == WORD_LIMIT && a.hi < WORD_LIMIT && Suspended(mem, t, a)
  {
    View(Unframe(mem, mem[t]), mem[mem[t] + FRAME_SIZE..a.hi])
  }

  lemma WaitingViewIsKept(mem: seq<Word>, mem': seq<Word>, t: Word, a: Area)
    requires |mem| == |mem'| == WORD_LIMIT && a.hi < WORD_LIMIT && Suspended(mem, t, a) && KeepsThread(mem, mem', t, a)
    ensures Suspended(mem', t, a) && WaitingView(mem', t, a) == WaitingView(mem, t, a)
  {
    UnframeDependsOnFrame(mem, mem', mem[t]);
    hide Unframe;
    var from := mem[t] + FRAME_SIZE;
    assert mem'[from..a.hi] == mem[from..a.hi];
  }

  /** main creates a thread, or does anything else that leaves the created ones alone. */
  datatype Event = Other | Create(block: Word, body: Word, area: Area)

  function Known(ts: Threads, e: Event): Threads {
    if e.Create? then ts[e.block := e.area] else ts
  }

  ghost predicate StartStep(c: Core, ts: Threads, e: Event, entries: Entries, c': Core)
    requires Starting(c, ts)
  {
    match e
    case Other => |c'.mem| == WORD_LIMIT && c'.current == 0 && KeepsOthers(c, ts, c')
    case Create(block, body, area) => Creates(c, ts, block, body, entries, area, c')
  }

  /** Creation adds one waiting thread and keeps the others: it will start thread_start with zeroed
      registers, its function and thread_shutdown on top of its stack. */
  lemma StartStepKeepsStarting(c: Core, ts: Threads, e: Event, entries: Entries, c': Core)
    requires Starting(c, ts) && StartStep(c, ts, e, entries, c')
    ensures Starting(c', Known(ts, e))
    ensures forall t :: t in ts ==>
      (t in Known(ts, e) && Known(ts, e)[t] == ts[t] &&
       WaitingView(c'.mem, t, ts[t]) == WaitingView(c.mem, t, ts[t]))
    ensures e.Create? ==> CreatedView(c'.mem, e, entries)
  {
    assert |c'.mem| == WORD_LIMIT && c'.current == 0 && Layout(Known(ts, e));
    hide Unframe, Suspended, WaitingView, Forges;
    forall t | t in ts
      ensures Suspended(c'.mem, t, ts[t]) && WaitingView(c'.mem, t, ts[t]) == WaitingView(c.mem, t, ts[t])
    {
      if e.Create? {
        CreationKeepsThread(c, ts, e.block, e.body, entries, e.area, c', t);
      }
      assert KeepsThread(c.mem, c'.mem, t, ts[t]);
      WaitingViewIsKept(c.mem, c'.mem, t, ts[t]);
    }
    if e.Create? {
      CreatedViewIs(c, e, entries, c');
    }
  }

  predicate CreatedView(mem: seq<Word>, e: Event, entries: Entries)
    requires |mem| == WORD_LIMIT && e.Create?
  {
    && e.area.hi < WORD_LIMIT && TopFits(e.area.hi) && Suspended(mem, e.block, e.area)
    && var v := WaitingView(mem, e.block, e.area);
       v.r == StartRegisters(entries, e.area.hi) && |v.stack| == 12 &&
       v.stack[0] == e.body && v.stack[4] == entries.threadShutdown
  }

  lemma CreatedViewIs(c: Core, e: Event, entries: Entries, c': Core)
    requires |c.mem| == WORD_LIMIT && e.Create? && e.area.hi < WORD_LIMIT && TopFits(e.area.hi)
    requires e.area.lo + FORGED_SIZE <= e.area.hi && Forges(c, e.block, e.body, entries, e.area.hi, c')
    ensures CreatedView(c'.mem, e, entries)
  {
    hide Unframe, StartRegisters;
  }

  /** main, from the first instruction with no thread known. */
  ghost predicate StartUp(cs: seq<Core>, tss: seq<Threads>, es: seq<Event>, entries: Entries) {
    && |cs| == |tss| == |es| + 1
    && |cs[0].mem| == WORD_LIMIT && cs[0].current == 0 && tss[0] == map[]
    && forall n :: 0 <= n < |es| ==>
         && tss[n + 1] == Known(tss[n], es[n])
         && (Starting(cs[n], tss[n]) ==> StartStep(cs[n], tss[n], es[n], entries, cs[n + 1]))
  }

  lemma {:induction false} StartUpKeepsStarting(cs: seq<Core>, tss: seq<Threads>, es: seq<Event>,
                                                entries: Entries, n: nat)
    requires StartUp(cs, tss, es, entries) && n <= |es|
    ensures Starting(cs[n], tss[n])
  {
    if n > 0 {
      StartUpKeepsStarting(cs, tss, es, entries, n - 1);
      StartStepKeepsStarting(cs[n - 1], tss[n - 1], es[n - 1], entries, cs[n]);
    }
  }

  // ---- The first dispatch ----

  /** The call of the stub with current_thread 0. */
  ghost predicate Dispatches(c: Core, ts: Threads, next: Word, c': Core) {
    && Starting(c, ts) && next in ts
    && !InterruptsEnabled(c.r.eflags) && CallFits(c.r) && c.mem[c.r.esp + 4] == next
    && FrameFits(NextFrame(c, next)) && Switches(c, next, c')
  }

  /** The first thread runs as it was forged, the others still wait: from here on the machine is one of
      threads with their own registers and stacks. */
  lemma FirstDispatch(c: Core, ts: Threads, next: Word, c': Core)
    requires Dispatches(c, ts, next, c')
    ensures Valid(c', ts) && c'.current == next
    ensures forall t :: t in ts ==> ViewOf(c', ts, t) == WaitingView(c.mem, t, ts[t])
  {
    hide Unframe;
  }

  /** An execution: main, the first dispatch, and whatever the threads then do. */
  datatype Execution = Execution(main: seq<Core>, known: seq<Threads>, events: seq<Event>, first: Word, cs: seq<Core>)

  ghost predicate Executes(x: Execution, ts: Threads, entries: Entries) {
    && StartUp(x.main, x.known, x.events, entries) && x.known[|x.events|] == ts
    && x.cs != [] && Dispatches(x.main[|x.events|], ts, x.first, x.cs[0])
    && forall i :: 0 <= i < |x.cs| - 1 ==> Valid(x.cs[i], ts) ==> Step(x.cs[i], ts, x.cs[i + 1])
  }

  lemma {:induction false} ExecutionKeepsValid(x: Execution, ts: Threads, entries: Entries, n: nat)
    requires Executes(x, ts, entries) && n < |x.cs|
    ensures Valid(x.cs[n], ts)
  {
    hide Valid;
    if n == 0 {
      FirstDispatch(x.main[|x.events|], ts, x.first, x.cs[0]);
    } else {
      ExecutionKeepsValid(x, ts, entries, n - 1);
      StepKeepsValid(x.cs[n - 1], ts, x.cs[n]);
    }
  }

  lemma StepKeepsValid(c: Core, ts: Threads, c': Core)
    requires Step(c, ts, c')
    ensures Valid(c', ts)
  {
    hide Valid, Unframe;
    if Computes(c, ts, c') {
      ComputeKeepsValid(c, ts, c');
    } else {
      var next :| SwitchesBy(c, ts, next, c');
      SwitchKeepsOthers(c, ts, next, c');
    }
  }

  lemma ExecutionIsRun(x: Execution, ts: Threads, entries: Entries, i: nat, j: nat)
    requires Executes(x, ts, entries) && i <= j < |x.cs|
    ensures Valid(x.cs[i], ts) && Run(x.cs[i..j + 1], ts)
  {
    hide Valid, Step;
    forall n | 0 <= n < |x.cs|
      ensures Valid(x.cs[n], ts)
    {
      ExecutionKeepsValid(x, ts, entries, n);
    }
  }

  /** Transparency from the first instruction of main: whenever a thread calls the switch, it later
      continues as if the call had returned. */
  lemma SwitchIsTransparentFromStart(x: Execution, ts: Threads, entries: Entries, i: nat, j: nat, next: Word)
    requires Executes(x, ts, entries) && i < j < |x.cs| && SwitchesBy(x.cs[i], ts, next, x.cs[i + 1])
    requires forall n :: i < n < j ==> x.cs[n].current != x.cs[i].current
    requires x.cs[j].current == x.cs[i].current
    ensures Valid(x.cs[i], ts) && GoesOn(x.cs[i], x.cs[j], ts[x.cs[i].current].hi)
  {
    ExecutionIsRun(x, ts, entries, i + 1, j);
    assert Valid(x.cs[i], ts) && x.cs[i].current in ts;
    hide Executes, GoesOn, Run, Step, SwitchesBy, Valid;
    SwitchIsTransparent(x.cs[i], next, x.cs[i + 1..j + 1], ts);
  }

  /** And whenever it is interrupted, it leaves the stub with the registers and the stack it had. */
  lemma PreemptionIsTransparentFromStart(x: Execution, ts: Threads, entries: Entries, i: nat, j: nat, c': Core)
    requires Executes(x, ts, entries) && i < j < |x.cs|
    requires Interrupted(x.cs[i], ts, x.cs[i + 1]) && HandlerReturns(x.cs[i], x.cs[j], c')
    requires forall n :: i < n < j && x.cs[n].current == x.cs[i].current ==>
      HandlerStep(x.cs[n], ts, x.cs[n + 1], FrameBase(x.cs[i].r))
    ensures var c, hi := x.cs[i], ts[x.cs[i].current].hi;
      && c'.r == c.r && c'.current == c.current && Valid(c', ts)
      && c'.mem[c.r.esp..hi] == c.mem[c.r.esp..hi]
  {
    ExecutionIsRun(x, ts, entries, i + 1, j);
    hide Executes, Run, HandlerStep, Interrupted, HandlerReturns, Valid;
    PreemptionIsTransparent(x.cs[i], x.cs[i + 1..j + 1], ts, c');
  }
}
