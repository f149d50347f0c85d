/** The context switch refines a machine in which every thread owns a register file and a stack. */
module ContextSwitch {
  import opened Words
  import opened Cpu
  import opened ThreadsLow

  /** The stack [lo, hi) of a thread. */
  datatype Area = Area(lo: nat, hi: nat)

  /** Threads are named by the address of their control block, whose first word is the saved esp. */
  type Threads = map<Word, Area>

  predicate Disjoint(t: Word, a: Area, u: Word, b: Area) {
    !(a.lo <= u < a.hi) && (t != u ==> a.hi <= b.lo || b.hi <= a.lo)
  }

  /** Stacks are disjoint from each other and from every control block. */
  ghost predicate Layout(ts: Threads) {
    && 0 !in ts
    && (forall t :: t in ts ==> t % 4 == 0 && ts[t].lo <= ts[t].hi < WORD_LIMIT)
    && (forall t, u :: t in ts && u in ts ==> Disjoint(t, ts[t], u, ts[u]))
  }

  ghost predicate SameWords(m: seq<Word>, m': seq<Word>, lo: int, hi: int)
    requires |m| == |m'| == WORD_LIMIT && 0 <= lo && hi <= WORD_LIMIT
  {
    forall a :: lo <= a < hi ==> m'[a] == m[a]
  }

  /** Neither the stack nor the saved esp of thread t differs. */
  ghost predicate KeepsThread(m: seq<Word>, m': seq<Word>, t: Word, a: Area)
    requires |m| == |m'| == WORD_LIMIT && a.hi <= WORD_LIMIT
  {
    m'[t] == m[t] && SameWords(m, m', a.lo, a.hi)
  }

  ghost predicate KeepsOthers(c: Core, ts: Threads, c': Core)
    requires Layout(ts) && |c.mem| == |c'.mem| == WORD_LIMIT
  {
    forall t :: t in ts && t != c.current ==> KeepsThread(c.mem, c'.mem, t, ts[t])
  }

  /** A thread that is not running has a whole frame on its own stack. */
  predicate Suspended(mem: seq<Word>, t: Word, a: Area)
    requires |mem| == WORD_LIMIT
  {
    mem[t] % 4 == 0 && a.lo <= mem[t] && mem[t] + FRAME_SIZE <= a.hi
  }

  ghost predicate Valid(c: Core, ts: Threads) {
    && |c.mem| == WORD_LIMIT
    && Layout(ts)
    && c.current in ts
    && ts[c.current].lo <= c.r.esp <= ts[c.current].hi
    && (forall t :: t in ts && t != c.current ==> Suspended(c.mem, t, ts[t]))
  }

  // ---- The abstract machine ----

  /** What belongs to one thread: its registers and its stack from esp up. */
  datatype View = View(r: Registers, stack: seq<Word>)

  datatype Machine = Machine(running: Word, views: map<Word, View>)

  /** The thread that calls the switch resumes as if the call had returned. */
  ghost function SwitchMachine(m: Machine, next: Word): Machine
    requires m.running in m.views && HasCall(m.views[m.running])
  {
    Machine(next, m.views[m.running := AfterCall(m.views[m.running])])
  }

  predicate HasCall(v: View) {
    4 <= |v.stack| && 4 <= v.r.esp && v.r.esp + 4 < WORD_LIMIT
  }

  function AfterCall(v: View): View
    requires HasCall(v)
  {
    View(Returned(v.r, v.stack[0]), v.stack[4..])
  }

  // ---- The abstraction ----

  /** The registers that thread t runs with, or will run with. */
  ghost function RegistersOf(c: Core, ts: Threads, t: Word): (r: Registers)
    requires Valid(c, ts) && t in ts
    ensures ts[t].lo <= r.esp <= ts[t].hi
  {
    if t == c.current then c.r else Unframe(c.mem, c.mem[t])
  }

  ghost function ViewOf(c: Core, ts: Threads, t: Word): (v: View)
    requires Valid(c, ts) && t in ts
  {
    var r := RegistersOf(c, ts, t);
    View(r, c.mem[r.esp..ts[t].hi])
  }

  ghost function Abstract(c: Core, ts: Threads): (m: Machine)
    requires Valid(c, ts)
    ensures m.running == c.current && m.views.Keys == ts.Keys
    ensures forall t :: t in ts ==> m.views[t] == ViewOf(c, ts, t)
  {
    Machine(c.current, map t | t in ts :: ViewOf(c, ts, t))
  }

  // ---- Steps ----

  /** The running thread computes: it may change anything but the stacks of the other threads and
      their saved stack pointers. */
  ghost predicate Computes(c: Core, ts: Threads, c': Core)
    requires Valid(c, ts)
  {
    && |c'.mem| == WORD_LIMIT && c'.current == c.current
    && ts[c.current].lo <= c'.r.esp <= ts[c.current].hi
    && KeepsOthers(c, ts, c')
  }

  /** A call of threads_low_switch_to(next) with room on the caller's stack and interrupts off: for a
      moment the stub keeps the return address below esp. */
  ghost predicate CallsSwitch(c: Core, ts: Threads, next: Word)
    requires Valid(c, ts)
  {
    && !InterruptsEnabled(c.r.eflags)
    && CallFits(c.r) && next in ts && c.mem[c.r.esp + 4] == next
    && ts[c.current].lo <= SavedAt(c.r) && c.r.esp + 8 <= ts[c.current].hi
  }

  /** The stub's preconditions hold at such a call. */
  lemma CallIsDefined(c: Core, ts: Threads, next: Word)
    requires Valid(c, ts) && CallsSwitch(c, ts, next)
    ensures FrameFits(NextFrame(c, next)) && Separate(c.current, c.r) && Separate(next, c.r)
  {
  }

  ghost predicate SwitchesBy(c: Core, ts: Threads, next: Word, c': Core) {
    Valid(c, ts) && CallsSwitch(c, ts, next) && FrameFits(NextFrame(c, next)) && Switches(c, next, c')
  }

  /** The stub implements the abstract switch. */
  lemma SwitchRefines(c: Core, ts: Threads, next: Word, c': Core)
    requires SwitchesBy(c, ts, next, c')
    ensures Valid(c', ts) && HasCall(ViewOf(c, ts, c.current))
    ensures Abstract(c', ts) == SwitchMachine(Abstract(c, ts), next)
  {
    hide Unframe, ViewOf, AfterCall;
    SwitchKeepsOthers(c, ts, next, c');
    CallerView(c, ts, next, c');
    SwitchLoads(c, ts, next, c');
    OtherViews(c, ts, c');
    assert Abstract(c', ts).views == SwitchMachine(Abstract(c, ts), next).views;
  }

  lemma SwitchKeepsThread(c: Core, ts: Threads, next: Word, c': Core, t: Word)
    requires SwitchesBy(c, ts, next, c') && t in ts && t != c.current
    ensures KeepsThread(c.mem, c'.mem, t, ts[t])
  {
    hide Unframe, Returned, Suspended;
    assert Disjoint(t, ts[t], c.current, ts[c.current]) && Disjoint(c.current, ts[c.current], t, ts[t]);
  }

  lemma SwitchKeepsOthers(c: Core, ts: Threads, next: Word, c': Core)
    requires SwitchesBy(c, ts, next, c')
    ensures KeepsOthers(c, ts, c') && Valid(c', ts)
  {
    CallerIsSuspended(c, ts, next, c');
    hide Unframe, Returned, Suspended, SavedAt, CallFits, FrameFits, InterruptsEnabled;
    forall t | t in ts && t != c.current
      ensures KeepsThread(c.mem, c'.mem, t, ts[t])
    {
      SwitchKeepsThread(c, ts, next, c', t);
    }
    forall t | t in ts
      ensures Suspended(c'.mem, t, ts[t])
    {
      if t != c.current {
        assert Suspended(c.mem, t, ts[t]) && KeepsThread(c.mem, c'.mem, t, ts[t]);
        SuspendedIsKept(c.mem, c'.mem, t, ts[t]);
      }
    }
    assert c'.mem[next] == NextFrame(c, next);
    LoadedEsp(c'.mem, next, ts[next]);
  }

  lemma LoadedEsp(mem: seq<Word>, t: Word, a: Area)
    requires |mem| == WORD_LIMIT && a.hi < WORD_LIMIT && Suspended(mem, t, a)
    ensures FrameFits(mem[t]) && a.lo <= Unframe(mem, mem[t]).esp <= a.hi
  {
  }

  lemma CallerIsSuspended(c: Core, ts: Threads, next: Word, c': Core)
    requires SwitchesBy(c, ts, next, c')
    ensures |c'.mem| == WORD_LIMIT && Suspended(c'.mem, c.current, ts[c.current])
  {
    assert ts[c.current].hi < WORD_LIMIT;
    SavedIsAligned(c.r);
    hide Unframe, Returned, InterruptsEnabled, Layout, CallFits, SavedAt, FrameFits;
  }

  lemma SavedIsAligned(r: Registers)
    requires CallFits(r)
    ensures SavedAt(r) % 4 == 0 && SavedAt(r) + 64 == r.esp
  {
  }

  lemma SuspendedIsKept(mem: seq<Word>, mem': seq<Word>, t: Word, a: Area)
    requires |mem| == |mem'| == WORD_LIMIT && a.hi <= WORD_LIMIT && Suspended(mem, t, a) && KeepsThread(mem, mem', t, a)
    ensures Suspended(mem', t, a)
  {
  }

  lemma SwitchLoads(c: Core, ts: Threads, next: Word, c': Core)
    requires SwitchesBy(c, ts, next, c') && Valid(c', ts)
    ensures FrameFits(c'.mem[next]) && c'.r == Unframe(c'.mem, c'.mem[next])
  {
    hide Unframe, Returned;
    SwitchKeepsOthers(c, ts, next, c');
    assert next != c.current ==> KeepsThread(c.mem, c'.mem, next, ts[next]);
  }

  lemma CallerView(c: Core, ts: Threads, next: Word, c': Core)
    requires SwitchesBy(c, ts, next, c') && Valid(c', ts)
    ensures HasCall(ViewOf(c, ts, c.current))
    ensures ViewOf(c', ts, c.current) == AfterCall(ViewOf(c, ts, c.current))
  {
    hide Unframe, Returned;
    var r, hi := c.r, ts[c.current].hi;
    assert RegistersOf(c', ts, c.current) == Unframe(c'.mem, SavedAt(r)) == Returned(r, c.mem[r.esp]);
    assert c'.mem[r.esp + 4..hi] == c.mem[r.esp + 4..hi];
    assert c.mem[r.esp..hi][4..] == c.mem[r.esp + 4..hi];
  }

  lemma OtherViews(c: Core, ts: Threads, c': Core)
    requires Valid(c, ts) && Valid(c', ts) && KeepsOthers(c, ts, c')
    requires c'.current != c.current ==> FrameFits(c'.mem[c'.current]) && c'.r == Unframe(c'.mem, c'.mem[c'.current])
    ensures forall t :: t in ts && t != c.current ==> ViewOf(c', ts, t) == ViewOf(c, ts, t)
  {
    forall t | t in ts && t != c.current
      ensures ViewOf(c', ts, t) == ViewOf(c, ts, t)
    {
      assert KeepsThread(c.mem, c'.mem, t, ts[t]);
      var from, hi := c.mem[t] + FRAME_SIZE, ts[t].hi;
      UnframeDependsOnFrame(c.mem, c'.mem, c.mem[t]);
      hide Unframe;
      assert c'.mem[from..hi] == c.mem[from..hi];
    }
  }

  lemma ComputeKeepsValid(c: Core, ts: Threads, c': Core)
    requires Valid(c, ts) && Computes(c, ts, c')
    ensures Valid(c', ts)
  {
    forall t | t in ts && t != c.current
      ensures Suspended(c'.mem, t, ts[t])
    {
      assert Suspended(c.mem, t, ts[t]) && KeepsThread(c.mem, c'.mem, t, ts[t]);
    }
  }

  /** Computing changes only the running thread's view. */
  lemma ComputeRefines(c: Core, ts: Threads, c': Core)
    requires Valid(c, ts) && Computes(c, ts, c')
    ensures Valid(c', ts)
    ensures Abstract(c', ts) == Abstract(c, ts).(views := Abstract(c, ts).views[c.current := ViewOf(c', ts, c.current)])
  {
    hide Unframe, ViewOf;
    ComputeKeepsValid(c, ts, c');
    OtherViews(c, ts, c');
    assert Abstract(c', ts).views == Abstract(c, ts).views[c.current := ViewOf(c', ts, c.current)];
  }

  // ---- Runs ----

  ghost predicate Step(c: Core, ts: Threads, c': Core) {
    Valid(c, ts) && (Computes(c, ts, c') || exists next :: SwitchesBy(c, ts, next, c'))
  }

  ghost predicate Run(cs: seq<Core>, ts: Threads) {
    && cs != [] && Valid(cs[0], ts)
    && forall i :: 0 <= i < |cs| - 1 ==> Step(cs[i], ts, cs[i + 1])
  }

  lemma StepKeepsOthers(c: Core, ts: Threads, c': Core, t: Word)
    requires Step(c, ts, c') && t in ts && t != c.current
    ensures Valid(c', ts) && ViewOf(c', ts, t) == ViewOf(c, ts, t)
  {
    if Computes(c, ts, c') {
      ComputeRefines(c, ts, c');
      assert Abstract(c', ts).views[t] == Abstract(c, ts).views[t];
    } else {
      var next :| SwitchesBy(c, ts, next, c');
      SwitchRefines(c, ts, next, c');
      SwitchKeepsOthers(c, ts, next, c');
      assert Abstract(c', ts).views[t] == Abstract(c, ts).views[t];
    }
  }

  /** Over any run, a thread's registers and stack stay put for as long as other threads run. */
  lemma {:induction false} ViewIsStable(cs: seq<Core>, ts: Threads, t: Word)
    requires Run(cs, ts) && t in ts
    requires forall i :: 0 <= i < |cs| - 1 ==> cs[i].current != t
    ensures Valid(cs[|cs| - 1], ts) && ViewOf(cs[|cs| - 1], ts, t) == ViewOf(cs[0], ts, t)
    decreases |cs|
  {
    if |cs| > 1 {
      StepKeepsOthers(cs[0], ts, cs[1], t);
      ViewIsStable(cs[1..], ts, t);
    }
  }

  /** The thread that called the switch in c goes on in c' as if the call had returned, with the same stack
      up to hi. */
  ghost predicate GoesOn(c: Core, c': Core, hi: nat) {
    && |c.mem| == |c'.mem| == WORD_LIMIT && 4 <= c.r.esp && c.r.esp + 4 <= hi < WORD_LIMIT
    && c'.current == c.current && c'.r == Returned(c.r, c.mem[c.r.esp])
    && BackFromCall(c.r, c.mem[c.r.esp], c'.r)
    && c'.mem[c.r.esp + 4..hi] == c.mem[c.r.esp + 4..hi]
  }

  /** Transparency: a thread that calls the switch, and is switched back to after any run of the other
      threads, goes on as if the call had returned. */
  lemma SwitchIsTransparent(c: Core, next: Word, cs: seq<Core>, ts: Threads)
    requires Run(cs, ts) && SwitchesBy(c, ts, next, cs[0])
    requires forall i :: 0 <= i < |cs| - 1 ==> cs[i].current != c.current
    requires cs[|cs| - 1].current == c.current
    ensures GoesOn(c, cs[|cs| - 1], ts[c.current].hi)
  {
    hide Unframe, Returned, BackFromCall;
    ReturnedIsBack(c.r, c.mem[c.r.esp]);
    var c', hi := cs[|cs| - 1], ts[c.current].hi;
    CallerView(c, ts, next, cs[0]);
    ViewIsStable(cs, ts, c.current);
    assert c.mem[c.r.esp..hi][4..] == c.mem[c.r.esp + 4..hi];
  }

  /** The one register image that is not kept bit for bit is eflags: exactly when the caller's status
      flags already were those of the stub's `add`.  Every other flag, IF among them, always is. */
  lemma FlagsAreKeptIff(r: Registers, returnAddress: Word)
    requires 4 <= r.esp && r.esp + 4 < WORD_LIMIT
    ensures Returned(r, returnAddress).eflags / 64 == r.eflags / 64
    ensures Returned(r, returnAddress).eflags == r.eflags <==> r.eflags % 64 == AddStatus(r.esp - 4, 8)
    ensures InterruptsEnabled(Returned(r, returnAddress).eflags) <==> InterruptsEnabled(r.eflags)
  {
    hide AddStatus, SubStatus;
  }

  /** A call that loses flags: with no status flag set and esp at 0x1000, it comes back with AF set. */
  lemma FlagsAreLost(r: Registers, returnAddress: Word)
    requires r.esp == 0x1000 && r.eflags == 0
    ensures CallFits(r) && Returned(r, returnAddress).eflags == 4
  {
    assert !EvenParity(1);
    assert !EvenParity(2);
    assert !EvenParity(4);
    assert AddStatus(0xFFC, 8) == 4;
  }
}
