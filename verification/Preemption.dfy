/** The scheduler, the timer handler, the interrupt stub and the context switch together: what happens to
    the threads of the ready queue over many quanta. */
module Preemption {
  import opened Words
  import opened Cpu
  import opened ThreadsLow
  import opened ContextSwitch
  import opened Interrupts
  import opened StartUp
  import S = Scheduler

  /** A thread of the ready queue has either never run or been interrupted by the timer; the view is
      what it will run with next. */
  datatype Waiting = Fresh(view: View) | Preempted(view: View)

  /** The memory of a waiting thread with stack `a` holds what it takes to continue. */
  ghost predicate Awaits(mem: seq<Word>, t: Word, a: Area, w: Waiting)
    requires |mem| == WORD_LIMIT && a.hi < WORD_LIMIT
  {
    match w
    case Fresh(v) => Suspended(mem, t, a) && WaitingView(mem, t, a) == v
    case Preempted(v) =>
      var p := FrameBase(v.r);
      && InterruptFits(v.r) && a.lo <= p && v.r.esp <= a.hi
      && Unframe(mem, p) == v.r && mem[v.r.esp..a.hi] == v.stack
  }

  ghost predicate Distinct(l: seq<Word>) { forall i, j :: 0 <= i < j < |l| ==> l[i] != l[j] }

  /** l is the running thread followed by the ready queue, waits says what the queue waits with. */
  ghost predicate Scheduled(c: Core, ts: Threads, l: seq<Word>, waits: map<Word, Waiting>) {
    && Valid(c, ts) && l != [] && l[0] == c.current && Distinct(l)
    && (forall k :: 0 <= k < |l| ==> l[k] in ts)
    && (forall k :: 1 <= k < |l| ==> l[k] in waits && Awaits(c.mem, l[k], ts[l[k]], waits[l[k]]))
  }

  // ---- One turn ----

  /** The states that a turn goes through: the interrupted instruction (or the end of the thread), the
      view that the thread then has, the entry of the handler, the call of the stub, the stub's iret, and
      the return to the interrupt stub of the thread that is resumed. */
  datatype Handover = Handover(stop: Core, view: View, entered: Core, call: Core, switched: Core, back: Core)

  /** The running thread is interrupted and its handler calls the switch, or it calls it to shut down. */
  ghost predicate GivesUp(ts: Threads, turn: S.Turn, h: Handover)
    requires Valid(h.stop, ts)
  {
    match turn
    case Shutdown => h.call == h.stop
    case Quantum =>
      var p, a := FrameBase(h.stop.r), ts[h.stop.current];
      && h.view == ViewOf(h.stop, ts, h.stop.current)
      && InterruptFits(h.stop.r) && a.lo <= p - 8 && Enters(h.stop, h.entered)
      && Valid(h.entered, ts) && Computes(h.entered, ts, h.call)
      && SameWords(h.entered.mem, h.call.mem, p, a.hi) && h.call.r.esp < p
  }

  /** The thread switched to starts afresh, or returns from its handler and leaves the stub. */
  ghost predicate Resumes(ts: Threads, w: Waiting, h: Handover, c': Core)
    requires Valid(h.switched, ts)
  {
    match w
    case Fresh(v) => c' == h.switched
    case Preempted(v) =>
      var p := FrameBase(v.r);
      && 0 <= p && Computes(h.switched, ts, h.back)
      && SameWords(h.switched.mem, h.back.mem, p, ts[h.switched.current].hi)
      && h.back.r.esp == p - 4 && FrameFits(p) && Leaves(h.back, c')
  }

  /** What the ready queue waits with after the turn. */
  function Saved(turn: S.Turn, h: Handover, waits: map<Word, Waiting>): map<Word, Waiting> {
    if turn == S.Quantum then waits[h.stop.current := Preempted(h.view)] else waits
  }

  /** The running thread computes and gives up the processor to thread `next`, which resumes. */
  ghost predicate HandsOver(c: Core, ts: Threads, turn: S.Turn, next: Word, w: Waiting, h: Handover, c': Core)
    requires Valid(c, ts)
  {
    && Computes(c, ts, h.stop) && Valid(h.stop, ts)
    && GivesUp(ts, turn, h)
    && SwitchesBy(h.call, ts, next, h.switched) && Valid(h.switched, ts)
    && Resumes(ts, w, h, c')
  }

  /** One turn of the list: the next thread is the one that the ready queue hands out. */
  ghost predicate Turn(c: Core, ts: Threads, l: seq<Word>, waits: map<Word, Waiting>, turn: S.Turn,
                       h: Handover, c': Core) {
    && Scheduled(c, ts, l, waits) && S.CanTake(l, [turn])
    && var next, waits' := S.Take(l, turn)[0], Saved(turn, h, waits);
       next in waits' && HandsOver(c, ts, turn, next, waits'[next], h, c')
  }

  lemma AwaitsIsKept(mem: seq<Word>, mem': seq<Word>, t: Word, a: Area, w: Waiting)
    requires |mem| == |mem'| == WORD_LIMIT && a.hi < WORD_LIMIT && Awaits(mem, t, a, w)
    requires if w.Fresh? then KeepsThread(mem, mem', t, a)
             else FrameBase(w.view.r) >= 0 && SameWords(mem, mem', FrameBase(w.view.r), a.hi)
    ensures Awaits(mem', t, a, w)
  {
    match w {
      case Fresh(v) => WaitingViewIsKept(mem, mem', t, a);
      case Preempted(v) =>
        UnframeDependsOnFrame(mem, mem', FrameBase(v.r));
        hide Unframe;
        assert mem'[v.r.esp..a.hi] == mem[v.r.esp..a.hi];
    }
  }

  lemma KeptThreadAwaits(c: Core, ts: Threads, c': Core, t: Word, w: Waiting)
    requires Layout(ts) && |c.mem| == |c'.mem| == WORD_LIMIT && KeepsOthers(c, ts, c') && t in ts && t != c.current
    requires Awaits(c.mem, t, ts[t], w)
    ensures Awaits(c'.mem, t, ts[t], w)
  {
    assert KeepsThread(c.mem, c'.mem, t, ts[t]);
    AwaitsIsKept(c.mem, c'.mem, t, ts[t], w);
  }

  /** From place `from` of the list on, everyone is ready to continue. */
  ghost predicate AllAwait(mem: seq<Word>, ts: Threads, l: seq<Word>, waits: map<Word, Waiting>, from: nat)
    requires |mem| == WORD_LIMIT && Layout(ts)
  {
    forall k :: from <= k < |l| ==> l[k] in ts && l[k] in waits && Awaits(mem, l[k], ts[l[k]], waits[l[k]])
  }

  /** Whatever the running thread does, the threads of the queue stay ready to continue. */
  lemma OthersAwait(c: Core, ts: Threads, l: seq<Word>, waits: map<Word, Waiting>, c': Core)
    requires Scheduled(c, ts, l, waits) && |c'.mem| == WORD_LIMIT && KeepsOthers(c, ts, c')
    ensures AllAwait(c'.mem, ts, l, waits, 1)
  {
    hide Awaits;
    forall k | 1 <= k < |l|
      ensures Awaits(c'.mem, l[k], ts[l[k]], waits[l[k]])
    {
      assert l[0] != l[k];
      KeptThreadAwaits(c, ts, c', l[k], waits[l[k]]);
    }
  }

  lemma KeepsOthersChain(c0: Core, ts: Threads, c1: Core, c2: Core)
    requires Layout(ts) && |c0.mem| == |c1.mem| == |c2.mem| == WORD_LIMIT && c1.current == c0.current
    requires KeepsOthers(c0, ts, c1) && KeepsOthers(c1, ts, c2)
    ensures KeepsOthers(c0, ts, c2)
  {
    forall t | t in ts && t != c0.current
      ensures KeepsThread(c0.mem, c2.mem, t, ts[t])
    {
      assert KeepsThread(c0.mem, c1.mem, t, ts[t]) && KeepsThread(c1.mem, c2.mem, t, ts[t]);
    }
  }

  /** The interrupted thread's frame is on its stack while its handler runs. */
  lemma InterruptedAwaits(ts: Threads, h: Handover)
    requires Valid(h.stop, ts) && GivesUp(ts, S.Quantum, h)
    ensures var t := h.stop.current;
      && |h.call.mem| == WORD_LIMIT && h.call.current == t && KeepsOthers(h.stop, ts, h.call)
      && 0 <= FrameBase(h.stop.r)
      && Awaits(h.call.mem, t, ts[t], Preempted(h.view))
  {
    var t, p, w := h.stop.current, FrameBase(h.stop.r), Preempted(h.view);
    EntryIsLocal(h.stop, ts, h.entered);
    KeepsOthersChain(h.stop, ts, h.entered, h.call);
    assert Awaits(h.entered.mem, t, ts[t], w) by {
      hide Unframe;
      assert h.entered.mem[h.stop.r.esp..ts[t].hi] == h.stop.mem[h.stop.r.esp..ts[t].hi];
    }
    AwaitsIsKept(h.entered.mem, h.call.mem, t, ts[t], w);
  }

  /** The switch writes below the frame of the thread that calls it. */
  lemma SwitchKeepsFrame(c: Core, ts: Threads, next: Word, c': Core, w: Waiting)
    requires Valid(c, ts) && SwitchesBy(c, ts, next, c') && Awaits(c.mem, c.current, ts[c.current], w)
    requires w.Preempted? && 0 <= FrameBase(w.view.r) && c.r.esp < FrameBase(w.view.r)
    ensures |c'.mem| == WORD_LIMIT && Awaits(c'.mem, c.current, ts[c.current], w)
  {
    hide Unframe, Returned, Switches;
    StepKeepsFrame(c, ts, c', c.current, FrameBase(w.view.r));
    AwaitsIsKept(c.mem, c'.mem, c.current, ts[c.current], w);
  }

  /** Up to the stub's iret: the other threads are untouched, and an interrupted one waits. */
  lemma HandoverKeeps(c: Core, ts: Threads, turn: S.Turn, next: Word, w: Waiting, h: Handover, c': Core)
    requires Valid(c, ts) && HandsOver(c, ts, turn, next, w, h, c')
    ensures h.stop.current == c.current && h.switched.current == next
    ensures |h.switched.mem| == WORD_LIMIT && KeepsOthers(c, ts, h.switched)
    ensures turn == S.Quantum ==>
      Awaits(h.switched.mem, c.current, ts[c.current], Preempted(h.view))
  {
    hide Unframe, Returned, Awaits, Resumes;
    if turn == S.Quantum {
      InterruptedAwaits(ts, h);
      SwitchKeepsFrame(h.call, ts, next, h.switched, Preempted(h.view));
      KeepsOthersChain(c, ts, h.stop, h.call);
    }
    SwitchKeepsOthers(h.call, ts, next, h.switched);
    KeepsOthersChain(c, ts, h.call, h.switched);
  }

  /** Thread t runs with these registers, and its stack is this. */
  ghost predicate RunsWith(c: Core, ts: Threads, t: Word, v: View) {
    && |c.mem| == WORD_LIMIT && t in ts && ts[t].hi < WORD_LIMIT
    && c.current == t && c.r == v.r && c.r.esp <= ts[t].hi && c.mem[c.r.esp..ts[t].hi] == v.stack
  }

  /** The thread that is switched to has the registers and the stack it waited with. */
  lemma NextResumes(ts: Threads, h: Handover, w: Waiting, next: Word, c': Core)
    requires SwitchesBy(h.call, ts, next, h.switched) && Valid(h.switched, ts) && h.switched.current == next
    requires Awaits(h.switched.mem, next, ts[next], w) && Resumes(ts, w, h, c')
    ensures Valid(c', ts) && KeepsOthers(h.switched, ts, c') && RunsWith(c', ts, next, w.view)
  {
    if w.Fresh? {
      SwitchLoads(h.call, ts, next, h.switched);
    } else {
      hide SwitchesBy;
      ReturnsFromHandler(ts, h, w, c');
    }
  }

  lemma ReturnsFromHandler(ts: Threads, h: Handover, w: Waiting, c': Core)
    requires Valid(h.switched, ts) && w.Preempted?
    requires Awaits(h.switched.mem, h.switched.current, ts[h.switched.current], w) && Resumes(ts, w, h, c')
    ensures Valid(c', ts) && KeepsOthers(h.switched, ts, c') && RunsWith(c', ts, h.switched.current, w.view)
  {
    var t := h.switched.current;
    AwaitsIsKept(h.switched.mem, h.back.mem, t, ts[t], w);
    ComputeKeepsValid(h.switched, ts, h.back);
    hide Unframe;
  }

  lemma TakeAwaits(mem: seq<Word>, ts: Threads, l: seq<Word>, waits: map<Word, Waiting>, turn: S.Turn, w: Waiting)
    requires |mem| == WORD_LIMIT && Layout(ts) && l != [] && l[0] in ts && Distinct(l) && AllAwait(mem, ts, l, waits, 1)
    requires turn == S.Quantum ==> Awaits(mem, l[0], ts[l[0]], w)
    ensures AllAwait(mem, ts, S.Take(l, turn), if turn == S.Quantum then waits[l[0] := w] else waits, 0)
    ensures Distinct(S.Take(l, turn))
  {
    hide Awaits, Layout;
    var l' := S.Take(l, turn);
    assert forall k :: 0 <= k < |l'| ==> l'[k] == if k + 1 < |l| then l[k + 1] else l[0];
  }

  /** Once the head of the list runs again, the list is scheduled. */
  lemma HeadRuns(c: Core, ts: Threads, l: seq<Word>, waits: map<Word, Waiting>, c': Core)
    requires Valid(c, ts) && Valid(c', ts) && KeepsOthers(c, ts, c') && Distinct(l)
    requires l != [] && l[0] == c.current == c'.current && AllAwait(c.mem, ts, l, waits, 0)
    ensures Scheduled(c', ts, l, waits)
  {
    hide Awaits, KeepsOthers;
    forall k | 1 <= k < |l|
      ensures Awaits(c'.mem, l[k], ts[l[k]], waits[l[k]])
    {
      assert l[0] != l[k];
      KeptThreadAwaits(c, ts, c', l[k], waits[l[k]]);
    }
  }

  /** At the stub's iret every thread that is still scheduled is ready to continue. */
  lemma AllAwaitAfterSwitch(c: Core, ts: Threads, l: seq<Word>, waits: map<Word, Waiting>, turn: S.Turn,
                            h: Handover, c': Core)
    requires Turn(c, ts, l, waits, turn, h, c')
    ensures |h.switched.mem| == WORD_LIMIT && h.switched.current == S.Take(l, turn)[0] && Distinct(S.Take(l, turn))
    ensures AllAwait(h.switched.mem, ts, S.Take(l, turn), Saved(turn, h, waits), 0)
  {
    var next, waits' := S.Take(l, turn)[0], Saved(turn, h, waits);
    var w := waits'[next];
    assert HandsOver(c, ts, turn, next, w, h, c') && Distinct(l) && l[0] == c.current && l[0] in ts && Layout(ts);
    assert waits' == if turn == S.Quantum then waits[l[0] := Preempted(h.view)] else waits;
    hide *;
    HandoverKeeps(c, ts, turn, next, w, h, c');
    OthersAwait(c, ts, l, waits, h.switched);
    TakeAwaits(h.switched.mem, ts, l, waits, turn, Preempted(h.view));
  }

  /** One turn hands the processor to the next thread of the list, with the registers and the stack it
      waited with, and keeps everything ready for the next turn. */
  lemma TurnResumes(c: Core, ts: Threads, l: seq<Word>, waits: map<Word, Waiting>, turn: S.Turn, h: Handover, c': Core)
    requires Turn(c, ts, l, waits, turn, h, c')
    ensures var l', waits' := S.Take(l, turn), Saved(turn, h, waits);
      Scheduled(c', ts, l', waits') && l'[0] in waits' && RunsWith(c', ts, l'[0], waits'[l'[0]].view)
  {
    AllAwaitAfterSwitch(c, ts, l, waits, turn, h, c');
    var l', waits' := S.Take(l, turn), Saved(turn, h, waits);
    var next, w := l'[0], waits'[l'[0]];
    assert SwitchesBy(h.call, ts, next, h.switched) && Valid(h.switched, ts) && Resumes(ts, w, h, c');
    assert Awaits(h.switched.mem, next, ts[next], w) && l' != [];
    hide *;
    NextResumes(ts, h, w, next, c');
    HeadRuns(h.switched, ts, l', waits', c');
  }

  // ---- Many turns ----

  /** c' and waits' are reached from c and waits by the given turns. */
  ghost predicate Reaches(c: Core, ts: Threads, l: seq<Word>, waits: map<Word, Waiting>, turns: seq<S.Turn>,
                          c': Core, waits': map<Word, Waiting>)
    decreases |turns|
  {
    && Scheduled(c, ts, l, waits)
    && if turns == [] then c' == c && waits' == waits
       else exists h, m ::
         && Turn(c, ts, l, waits, turns[0], h, m)
         && Reaches(m, ts, S.Take(l, turns[0]), Saved(turns[0], h, waits), turns[1..], c', waits')
  }

  /** Fairness on the machine: after k turns, quanta and shutdowns in any mix, the thread that was k places
      behind the running one runs, with exactly the registers and the stack it was waiting with. */
  lemma {:induction false} ResumesInTurn(c: Core, ts: Threads, l: seq<Word>, waits: map<Word, Waiting>,
                                         turns: seq<S.Turn>, c': Core, waits': map<Word, Waiting>)
    requires Reaches(c, ts, l, waits, turns, c', waits') && 1 <= |turns| < |l|
    ensures l[|turns|] in waits && RunsWith(c', ts, l[|turns|], waits[l[|turns|]].view)
    decreases |turns|
  {
    hide Turn, Scheduled, RunsWith, Saved, S.Take;
    var h, m :|
      && Turn(c, ts, l, waits, turns[0], h, m)
      && Reaches(m, ts, S.Take(l, turns[0]), Saved(turns[0], h, waits), turns[1..], c', waits');
    TurnResumes(c, ts, l, waits, turns[0], h, m);
    TurnMovesUp(c, ts, l, waits, turns[0], h, m, |turns|);
    if |turns| == 1 {
      hide *;
    } else {
      hide *;
      ResumesInTurn(m, ts, S.Take(l, turns[0]), Saved(turns[0], h, waits), turns[1..], c', waits');
    }
  }

  /** Everyone moves up by one place, and waits as before. */
  lemma TurnMovesUp(c: Core, ts: Threads, l: seq<Word>, waits: map<Word, Waiting>, turn: S.Turn,
                    h: Handover, m: Core, k: nat)
    requires Turn(c, ts, l, waits, turn, h, m) && 1 <= k < |l|
    ensures k <= |S.Take(l, turn)| && S.Take(l, turn)[k - 1] == l[k]
    ensures l[k] in waits && l[k] in Saved(turn, h, waits) && Saved(turn, h, waits)[l[k]] == waits[l[k]]
  {
    hide Awaits, Valid, GivesUp, SwitchesBy, Resumes, ViewOf, KeepsOthers, S.CanTake;
    assert h.stop.current == l[0] != l[k];
  }

  /** A full round: the thread interrupted by this quantum, and put at the end of a list of n, runs again
      after n - 1 further turns, with every register and the stack it was interrupted with. */
  lemma PreemptedThreadResumes(c: Core, ts: Threads, l: seq<Word>, waits: map<Word, Waiting>, h: Handover, m: Core,
                               turns: seq<S.Turn>, c': Core, waits': map<Word, Waiting>)
    requires Turn(c, ts, l, waits, S.Quantum, h, m)
    requires Reaches(m, ts, S.Take(l, S.Quantum), Saved(S.Quantum, h, waits), turns, c', waits')
    requires |turns| == |l| - 1
    ensures RunsWith(c', ts, l[0], h.view) && h.view == ViewOf(h.stop, ts, l[0]) && c'.r == h.stop.r
  {
    var l', saved := S.Take(l, S.Quantum), Saved(S.Quantum, h, waits);
    assert h.stop.current == l[0] && l'[|turns|] == l[0];
    assert saved[l[0]] == Preempted(h.view) && h.view.r == h.stop.r;
    TurnResumes(c, ts, l, waits, S.Quantum, h, m);
    hide Turn, Scheduled, Saved, ViewOf, S.Take;
    if turns != [] {
      ResumesInTurn(m, ts, l', saved, turns, c', waits');
    }
  }

  /** At every turn the list is that of round robin, and its head runs. */
  lemma {:induction false} FollowsRoundRobin(c: Core, ts: Threads, l: seq<Word>, waits: map<Word, Waiting>,
                                             turns: seq<S.Turn>, c': Core, waits': map<Word, Waiting>)
    requires Reaches(c, ts, l, waits, turns, c', waits')
    ensures S.CanTake(l, turns) && Scheduled(c', ts, S.After(l, turns), waits')
    decreases |turns|
  {
    if turns != [] {
      var h, m :|
        && Turn(c, ts, l, waits, turns[0], h, m)
        && Reaches(m, ts, S.Take(l, turns[0]), Saved(turns[0], h, waits), turns[1..], c', waits');
      hide Scheduled, Saved, HandsOver;
      FollowsRoundRobin(m, ts, S.Take(l, turns[0]), Saved(turns[0], h, waits), turns[1..], c', waits');
    }
  }
}
