/** scheduler.C and the timer's quantum: a ring buffer with a tag bit, driven round robin. */
module Scheduler {
  import opened Words

  /** The next slot of a ring of m. */
  lemma NextSlot(i: nat, m: nat)
    requires i < m
    ensures (i + 1) % m == if i + 1 == m then 0 else i + 1
  {
    if i + 1 < m {
      assert (i + 1) / m == 0;
    }
  }

  /** The occupied part of a ring: front == rear means full when the last change was an insertion
      (tag 1) and empty when it was a removal (tag 0). */
  function Ring<T>(q: seq<T>, front: nat, rear: nat, tag: nat): (s: seq<T>)
    requires front < |q| && rear < |q| && tag <= 1
    ensures |s| == |q| <==> tag == 1 && front == rear
    ensures |s| == 0 <==> tag == 0 && front == rear
    ensures |s| <= |q|
  {
    if front < rear then q[front..rear]
    else if front == rear && tag == 0 then []
    else q[front..] + q[..rear]
  }

  lemma RingInsert<T>(q: seq<T>, front: nat, rear: nat, tag: nat, x: T)
    requires front < |q| && rear < |q| && tag <= 1 && !(tag == 1 && front == rear)
    ensures Ring(q[rear := x], front, (rear + 1) % |q|, 1) == Ring(q, front, rear, tag) + [x]
  {
    NextSlot(rear, |q|);
    var q' := q[rear := x];
    assert q'[..rear] == q[..rear] && q'[..rear + 1] == q[..rear] + [x];
    if front <= rear {
      assert q'[front..rear] == q[front..rear] && q'[front..rear + 1] == q[front..rear] + [x];
      if rear + 1 == |q| {
        assert q'[front..] == q'[front..rear + 1];
      }
    } else {
      assert q'[front..] == q[front..];
    }
  }

  lemma RingRemove<T>(q: seq<T>, front: nat, rear: nat, tag: nat)
    requires front < |q| && rear < |q| && tag <= 1 && !(tag == 0 && front == rear)
    ensures Ring(q, (front + 1) % |q|, rear, 0) == Ring(q, front, rear, tag)[1..]
    ensures Ring(q, front, rear, tag)[0] == q[front]
  {
    NextSlot(front, |q|);
    if front < rear {
      assert q[front..rear][1..] == q[front + 1..rear];
    } else {
      assert (q[front..] + q[..rear])[1..] == q[front + 1..] + q[..rear];
    }
  }

  class Scheduler<T(0)> {
    const queue: array<T>
    var front: nat
    var rear: nat
    var tag: nat

    ghost predicate Valid() reads this {
      front < queue.Length && rear < queue.Length && tag <= 1
    }

    /** The ready threads, first to run first. */
    ghost function Contents(): (s: seq<T>)
      reads this, queue
      requires Valid()
    {
      Ring(queue[..], front, rear, tag)
    }

    constructor (m: nat)
      requires m >= 1
      ensures Valid() && fresh(queue) && queue.Length == m && Contents() == []
    {
      queue := new T[m];
      front, rear, tag := 0, 0, 0;
    }

    /** A full queue makes the caller spin forever. */
    method Add(thread: T) returns (spins: bool)
      requires Valid()
      modifies `rear, `tag, queue
      ensures Valid() && (spins <==> |old(Contents())| == queue.Length)
      ensures Contents() == if spins then old(Contents()) else old(Contents()) + [thread]
    {
      if tag == 1 && front == rear {
        return true;
      }
      RingInsert(queue[..], front, rear, tag, thread);
      NextSlot(rear, queue.Length);
      queue[rear] := thread;
      rear := (rear + 1) % queue.Length;
      tag := 1;
      return false;
    }

    method Resume(thread: T) returns (spins: bool)
      requires Valid()
      modifies `rear, `tag, queue
      ensures Valid() && (spins <==> |old(Contents())| == queue.Length)
      ensures Contents() == if spins then old(Contents()) else old(Contents()) + [thread]
    {
      if tag == 1 && front == rear {
        return true;
      }
      RingInsert(queue[..], front, rear, tag, thread);
      NextSlot(rear, queue.Length);
      queue[rear] := thread;
      rear := (rear + 1) % queue.Length;
      tag := 1;
      return false;
    }

    /** The thread to dispatch to, if any. */
    method Yield() returns (next: Option<T>)
      requires Valid()
      modifies `front, `tag
      ensures Valid()
      ensures next == if old(Contents()) == [] then None else Some(old(Contents())[0])
      ensures Contents() == if old(Contents()) == [] then [] else old(Contents())[1..]
    {
      if tag == 0 && front == rear {
        return None;
      }
      RingRemove(queue[..], front, rear, tag);
      NextSlot(front, queue.Length);
      next := Some(queue[front]);
      front := (front + 1) % queue.Length;
      tag := 0;
    }
  }

  // ---- Round robin on one list: the running thread, then the ready queue ----

  datatype Turn = Quantum | Shutdown

  function Take<T>(l: seq<T>, turn: Turn): seq<T>
    requires l != []
  {
    if turn == Quantum then l[1..] + [l[0]] else l[1..]
  }

  /** The last running thread cannot shut down: there is nothing to switch to. */
  predicate CanTake<T>(l: seq<T>, turns: seq<Turn>)
    decreases |turns|
  {
    turns != [] ==> l != [] && (turns[0] == Shutdown ==> |l| > 1) && CanTake(Take(l, turns[0]), turns[1..])
  }

  function After<T>(l: seq<T>, turns: seq<Turn>): seq<T>
    requires CanTake(l, turns)
    decreases |turns|
  {
    if turns == [] then l else After(Take(l, turns[0]), turns[1..])
  }

  function ShutDown<T>(l: seq<T>, turns: seq<Turn>): seq<T>
    requires CanTake(l, turns)
    decreases |turns|
  {
    if turns == [] then []
    else (if turns[0] == Shutdown then [l[0]] else []) + ShutDown(Take(l, turns[0]), turns[1..])
  }

  /** Fairness: whatever the mix of expired quanta and shutdowns, the k-th turn hands the processor to
      the thread that was k places behind the running one. */
  lemma {:induction false} RoundRobin<T>(l: seq<T>, turns: seq<Turn>)
    requires CanTake(l, turns) && |turns| < |l|
    ensures After(l, turns) != [] && After(l, turns)[0] == l[|turns|]
    decreases |turns|
  {
    if turns != [] {
      RoundRobin(Take(l, turns[0]), turns[1..]);
    }
  }

  /** With distinct threads, none is dispatched before its turn. */
  lemma NotBeforeItsTurn<T>(l: seq<T>, turns: seq<Turn>, position: nat)
    requires CanTake(l, turns) && |turns| < position < |l|
    requires forall i, j :: 0 <= i < j < |l| ==> l[i] != l[j]
    ensures After(l, turns) != [] && After(l, turns)[0] != l[position]
  {
    RoundRobin(l, turns);
  }

  /** No thread is lost or duplicated: those that shut down and those still scheduled make up the
      original ones. */
  lemma {:induction false} ThreadsAreConserved<T>(l: seq<T>, turns: seq<Turn>)
    requires CanTake(l, turns)
    ensures multiset(After(l, turns)) + multiset(ShutDown(l, turns)) == multiset(l)
    ensures |After(l, turns)| + |ShutDown(l, turns)| == |l|
    decreases |turns|
  {
    if turns != [] {
      var taken, rest := Take(l, turns[0]), turns[1..];
      ThreadsAreConserved(taken, rest);
      assert l == [l[0]] + l[1..];
      assert After(l, turns) == After(taken, rest);
      if turns[0] == Shutdown {
        assert multiset(ShutDown(l, turns)) == multiset{l[0]} + multiset(ShutDown(taken, rest));
        assert multiset(l) == multiset{l[0]} + multiset(taken);
      } else {
        assert ShutDown(l, turns) == ShutDown(taken, rest);
      }
    }
  }

  // ---- The timer ----

  /** C division. */
  function Truncated(a: int, b: int): int
    requires b > 0
  {
    if a >= 0 then a / b else -(-a / b)
  }

  /** Ticks per quantum at a given frequency: a twentieth of a second, rounded down, but at least one. */
  function QuantumLength(hz: int): (q: nat)
    ensures if hz < 20 then q == 1 else 20 * q <= hz < 20 * (q + 1)
  {
    if Truncated(hz, 20) <= 1 then 1 else Truncated(hz, 20)
  }

  /** After so many ticks of a quantum the next one is its last: one more brings hz / 20 ticks, which
      C rounds toward zero. */
  predicate Ending(ticks: int, hz: int) {
    if hz >= 0 then 20 * (ticks + 2) > hz else 20 * (ticks + 1) >= hz
  }

  lemma QuantumEndsIff(ticks: int, hz: int)
    ensures ticks + 1 >= Truncated(hz, 20) <==> Ending(ticks, hz)
  {
  }

  datatype Clock<T> = Clock(ticks: int, threads: seq<T>)

  /** One timer interrupt. */
  function Tick<T>(c: Clock<T>, hz: int): (c': Clock<T>)
    requires c.threads != []
    ensures c'.threads != []
  {
    if c.ticks + 1 >= Truncated(hz, 20) then Clock(0, Take(c.threads, Quantum))
    else Clock(c.ticks + 1, c.threads)
  }

  function Ticks<T>(c: Clock<T>, hz: int, n: nat): (c': Clock<T>)
    requires c.threads != []
    ensures c'.threads != []
    decreases n
  {
    if n == 0 then c else Ticks(Tick(c, hz), hz, n - 1)
  }

  /** Inside a quantum the list stands; its last tick rotates it. */
  lemma {:induction false} WithinQuantum<T>(c: Clock<T>, hz: int, n: nat)
    requires c.threads != [] && 0 <= c.ticks && c.ticks + n <= QuantumLength(hz)
    ensures Ticks(c, hz, n) == if c.ticks + n < QuantumLength(hz) || n == 0 then Clock(c.ticks + n, c.threads)
                               else Clock(0, Take(c.threads, Quantum))
    decreases n
  {
    if n > 1 {
      WithinQuantum(Tick(c, hz), hz, n - 1);
    } else if n == 1 {
      assert Ticks(c, hz, 1) == Ticks(Tick(c, hz), hz, 0);
    }
  }

  lemma {:induction false} TicksAdd<T>(c: Clock<T>, hz: int, m: nat, n: nat)
    requires c.threads != []
    ensures Ticks(Ticks(c, hz, m), hz, n) == Ticks(c, hz, m + n)
    decreases m
  {
    if m > 0 {
      TicksAdd(Tick(c, hz), hz, m - 1, n);
    }
  }

  /** The number of ticks in k quanta. */
  function TicksOf(k: nat, hz: int): (n: nat)
    ensures n == k * QuantumLength(hz)
  {
    if k == 0 then 0 else TicksOf(k - 1, hz) + QuantumLength(hz)
  }

  /** Fairness in time: if no thread shuts down, the thread k places behind the running one starts
      exactly k quanta after the running one did, and runs for the whole quantum. */
  lemma {:induction false} RoundRobinInTime<T>(threads: seq<T>, hz: int, k: nat, n: nat)
    requires k < |threads| && n < QuantumLength(hz)
    ensures Ticks(Clock(0, threads), hz, TicksOf(k, hz) + n) == Clock(n, threads[k..] + threads[..k])
    decreases k, n
  {
    hide Truncated, QuantumLength, Tick;
    var c := Clock(0, threads);
    if n > 0 {
      RoundRobinInTime(threads, hz, k, 0);
      WithinQuantum(Clock(0, threads[k..] + threads[..k]), hz, n);
      TicksAdd(c, hz, TicksOf(k, hz), n);
    } else if k == 0 {
      assert threads[0..] + threads[..0] == threads;
    } else {
      RoundRobinInTime(threads, hz, k - 1, 0);
      var rotated := threads[k - 1..] + threads[..k - 1];
      WithinQuantum(Clock(0, rotated), hz, QuantumLength(hz));
      TicksAdd(c, hz, TicksOf(k - 1, hz), QuantumLength(hz));
      assert Take(rotated, Quantum) == threads[k..] + threads[..k];
    }
  }

  /** What happens to the list over time: timer ticks, and threads that shut down. */
  datatype Happening = Interrupt | Exit

  predicate CanHappen<T>(c: Clock<T>, es: seq<Happening>, hz: int)
    decreases |es|
  {
    es != [] ==> c.threads != [] && (es[0] == Exit ==> |c.threads| > 1) && CanHappen(Happens(c, es[0], hz), es[1..], hz)
  }

  function Happens<T>(c: Clock<T>, e: Happening, hz: int): Clock<T>
    requires c.threads != []
  {
    match e
    case Interrupt => Tick(c, hz)
    case Exit => c.(threads := Take(c.threads, Shutdown))
  }

  function AfterAll<T>(c: Clock<T>, es: seq<Happening>, hz: int): Clock<T>
    requires CanHappen(c, es, hz)
    decreases |es|
  {
    if es == [] then c else AfterAll(Happens(c, es[0], hz), es[1..], hz)
  }

  function Interrupts(es: seq<Happening>): nat {
    if es == [] then 0 else (if es[0] == Interrupt then 1 else 0) + Interrupts(es[1..])
  }

  /** Fairness in time with shutdowns: whatever threads end meanwhile, the thread k places behind the
      running one has started by the k-th end of a quantum. */
  lemma {:induction false} StartsWithin<T>(c: Clock<T>, es: seq<Happening>, hz: int, k: nat) returns (n: nat)
    requires CanHappen(c, es, hz) && k < |c.threads| && 0 <= c.ticks < QuantumLength(hz)
    requires c.ticks + Interrupts(es) >= TicksOf(k, hz)
    ensures n <= |es| && CanHappen(c, es[..n], hz)
    ensures AfterAll(c, es[..n], hz).threads != [] && AfterAll(c, es[..n], hz).threads[0] == c.threads[k]
    ensures if k == 0 then n == 0 else c.ticks + Interrupts(es[..n]) <= TicksOf(k, hz)
    decreases |es|
  {
    if k == 0 {
      return 0;
    }
    hide Truncated;
    var q, c' := QuantumLength(hz), Happens(c, es[0], hz);
    assert TicksOf(k, hz) == TicksOf(k - 1, hz) + q;
    n := StartsWithin(c', es[1..], hz, if es[0] == Exit || c.ticks + 1 >= q then k - 1 else k);
    assert n == 0 ==> es[1..][..n] == [];
    n := n + 1;
    assert es[..n][1..] == es[1..][..n - 1];
    assert Interrupts(es[..n]) == (if es[0] == Interrupt then 1 else 0) + Interrupts(es[1..][..n - 1]);
  }

  /** The timer handler and thread shutdown over the real queue. */
  class RoundRobinTimer<T(0)> {
    const scheduler: Scheduler<T>
    var current: T
    var ticks: int
    var seconds: nat
    const hz: int

    constructor (s: Scheduler<T>, first: T, frequency: int)
      requires s.Valid()
      ensures scheduler == s && current == first && ticks == 0 && hz == frequency
    {
      scheduler, current, ticks, seconds, hz := s, first, 0, 0, frequency;
    }

    /** The running thread, then the ready queue. */
    ghost function Threads(): (l: seq<T>)
      reads this, scheduler, scheduler.queue
      requires scheduler.Valid()
      ensures l != []
    {
      [current] + scheduler.Contents()
    }

    /** SimpleTimer::handle_interrupt.  With more threads than queue slots the handler spins. */
    method HandleInterrupt() returns (spins: bool)
      requires scheduler.Valid()
      modifies this, scheduler, scheduler.queue
      ensures scheduler.Valid()
      ensures !spins ==> Clock(ticks, Threads()) == Tick(old(Clock(ticks, Threads())), hz)
      // the quantum ends a twentieth of a second after the last one, and then the list is rotated
      ensures if !Ending(old(ticks), hz) then ticks == old(ticks) + 1 && seconds == old(seconds) && !spins
              else ticks == 0 && seconds == old(seconds) + 1 && (spins <==> |old(Threads())| > scheduler.queue.Length)
      ensures Threads() == if !Ending(old(ticks), hz) || spins then old(Threads())
                           else old(Threads())[1..] + [old(Threads())[0]]
    {
      hide Ring;
      QuantumEndsIff(ticks, hz);
      hide Truncated, Ending;
      ticks := ticks + 1;
      spins := false;
      if ticks >= Truncated(hz, 20) {
        seconds := seconds + 1;
        ticks := 0;
        spins := scheduler.Resume(current);
        if !spins {
          var next := scheduler.Yield();
          current := next.value;
        }
      }
    }

    /** thread_shutdown: the current thread is never put back. */
    method ThreadShutdown() returns (stuck: bool)
      requires scheduler.Valid()
      modifies this, scheduler
      ensures scheduler.Valid()
      ensures stuck <==> |old(Threads())| == 1
      ensures ticks == old(ticks) && seconds == old(seconds)
      ensures Threads() == if stuck then old(Threads()) else Take(old(Threads()), Shutdown)
      ensures !stuck ==> Threads() == old(Threads())[1..]
    {
      var next := scheduler.Yield();
      stuck := next == None;
      if next.Some? {
        current := next.value;
      }
    }
  }
}
