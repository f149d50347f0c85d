/** The part of a 32-bit processor that context switching uses.  PUSHAD, POPAD, PUSHFD, IRET and RET
    follow the Intel SDM, Volume 2; interrupt entry follows section 6.12.1 of Volume 3A. */
module Cpu {
  import opened Words

  /** eflags is kept as a word whose low six bits are the status flags CF, PF, AF, ZF, SF and OF and
      whose next bit is IF; the positions of the other flags do not matter here. */
  datatype Registers = Registers(
    eax: Word, ecx: Word, edx: Word, ebx: Word, esp: Word, ebp: Word, esi: Word, edi: Word,
    ds: Word, es: Word, fs: Word, gs: Word, cs: Word, eip: Word, eflags: Word)

  const KERNEL_CS: Word := 0x08
  const KERNEL_DS: Word := 0x10

  predicate InterruptsEnabled(eflags: Word) { eflags / 64 % 2 == 1 }

  /** The same flags with IF clear. */
  function WithoutIF(eflags: Word): (e: Word)
    ensures !InterruptsEnabled(e) && e % 64 == eflags % 64
  {
    if InterruptsEnabled(eflags) then eflags - 64 else eflags
  }

  function WithStatus(eflags: Word, status: nat): (e: Word)
    requires status < 64
    ensures e / 64 == eflags / 64 && e % 64 == status
  {
    eflags - eflags % 64 + status
  }

  function Flag(b: bool): (n: nat)
    ensures n == if b then 1 else 0
  {
    if b then 1 else 0
  }

  /** True when the number of ones is even. */
  predicate EvenParity(x: nat) {
    x == 0 || (EvenParity(x / 2) <==> x % 2 == 0)
  }

  /** CF, PF, AF, ZF, SF and OF after an addition or subtraction. */
  function Status(result: Word, carry: bool, auxiliary: bool, overflow: bool): (status: nat)
    ensures status < 64
  {
    Flag(carry) + 2 * Flag(EvenParity(result % 256)) + 4 * Flag(auxiliary) + 8 * Flag(result == 0)
    + 16 * Flag(Negative(result)) + 32 * Flag(overflow)
  }

  predicate Negative(x: Word) { 0x8000_0000 <= x }

  function AddStatus(x: Word, y: Word): (status: nat)
    ensures status < 64
  {
    var sum := Wrap(x + y);
    Status(sum, x + y >= WORD_LIMIT, x % 16 + y % 16 >= 16, Negative(x) == Negative(y) && Negative(x) != Negative(sum))
  }

  function SubStatus(x: Word, y: Word): (status: nat)
    ensures status < 64
  {
    var difference := Wrap(x - y);
    Status(difference, x < y, x % 16 < y % 16, Negative(x) != Negative(y) && Negative(x) != Negative(difference))
  }

  function AfterAdd(eflags: Word, x: Word, y: Word): (e: Word)
    ensures e / 64 == eflags / 64
  {
    WithStatus(eflags, AddStatus(x, y))
  }

  function AfterSub(eflags: Word, x: Word, y: Word): (e: Word)
    ensures e / 64 == eflags / 64
  {
    WithStatus(eflags, SubStatus(x, y))
  }

  /** Registers, memory and the kernel's current_thread variable.  Cell a of mem is the aligned 32-bit
      word at byte address a; only multiples of four are ever addressed. */
  datatype Core = Core(r: Registers, mem: seq<Word>, current: Word)

  // ---- The 68-byte interrupt frame (struct REGS) ----

  const FRAME_SIZE: nat := 68

  predicate FrameFits(p: int) {
    p % 4 == 0 && 0 <= p && p + FRAME_SIZE < WORD_LIMIT
  }

  /** The registers that restore_registers and iret take from a frame at p.  The saved esp, the
      interrupt number and the error code (offsets 28, 48 and 52) are skipped. */
  function Unframe(mem: seq<Word>, p: int): (r: Registers)
    requires |mem| == WORD_LIMIT && FrameFits(p)
    ensures r.esp == p + FRAME_SIZE
  {
    Registers(mem[p + 44], mem[p + 40], mem[p + 36], mem[p + 32], p + FRAME_SIZE, mem[p + 24], mem[p + 20], mem[p + 16],
              mem[p + 12], mem[p + 8], mem[p + 4], mem[p], mem[p + 60], mem[p + 56], mem[p + 64])
  }

  lemma UnframeDependsOnFrame(mem: seq<Word>, mem': seq<Word>, p: int)
    requires |mem| == |mem'| == WORD_LIMIT && FrameFits(p)
    requires forall a :: p <= a < p + FRAME_SIZE ==> mem[a] == mem'[a]
    ensures Unframe(mem, p) == Unframe(mem', p)
  {
  }

  class Processor {
    var r: Registers
    const memory: array<Word>
    var currentThread: Word

    ghost predicate Valid() reads this {
      memory.Length == WORD_LIMIT
    }

    ghost function State(): (c: Core)
      reads this, memory
    {
      Core(r, memory[..], currentThread)
    }

    ghost predicate CanPush(n: nat) reads this {
      Valid() && r.esp % 4 == 0 && 4 * n <= r.esp
    }

    ghost predicate CanPop(n: nat) reads this {
      Valid() && r.esp % 4 == 0 && r.esp + 4 * n < WORD_LIMIT
    }

    method Push(value: Word)
      requires CanPush(1)
      modifies `r, memory
      ensures r == old(r).(esp := old(r.esp) - 4)
      ensures memory[r.esp] == value
      ensures forall a :: 0 <= a < WORD_LIMIT && a != r.esp ==> memory[a] == old(memory[a])
    {
      r := r.(esp := r.esp - 4);
      memory[r.esp] := value;
    }

    method Pop() returns (value: Word)
      requires CanPop(1)
      modifies `r
      ensures value == memory[old(r.esp)] && r == old(r).(esp := old(r.esp) + 4)
    {
      value := memory[r.esp];
      r := r.(esp := r.esp + 4);
    }

    method Pushad()
      requires CanPush(8)
      modifies `r, memory
      ensures r == old(r).(esp := old(r.esp) - 32)
      ensures var o, p := old(r), r.esp;
        && memory[p] == o.edi && memory[p + 4] == o.esi && memory[p + 8] == o.ebp && memory[p + 12] == o.esp
        && memory[p + 16] == o.ebx && memory[p + 20] == o.edx && memory[p + 24] == o.ecx && memory[p + 28] == o.eax
      ensures forall a :: 0 <= a < WORD_LIMIT && !(r.esp <= a < r.esp + 32) ==> memory[a] == old(memory[a])
    {
      var top := r.esp;
      memory[top - 4] := r.eax;
      memory[top - 8] := r.ecx;
      memory[top - 12] := r.edx;
      memory[top - 16] := r.ebx;
      memory[top - 20] := top;
      memory[top - 24] := r.ebp;
      memory[top - 28] := r.esi;
      memory[top - 32] := r.edi;
      r := r.(esp := top - 32);
    }

    /** The stored esp is skipped. */
    method Popad()
      requires CanPop(8)
      modifies `r
      ensures var p := old(r.esp);
        r == old(r).(edi := memory[p], esi := memory[p + 4], ebp := memory[p + 8], ebx := memory[p + 16],
                     edx := memory[p + 20], ecx := memory[p + 24], eax := memory[p + 28], esp := p + 32)
    {
      var p := r.esp;
      r := r.(edi := memory[p], esi := memory[p + 4], ebp := memory[p + 8], ebx := memory[p + 16],
              edx := memory[p + 20], ecx := memory[p + 24], eax := memory[p + 28], esp := p + 32);
    }

    /** Return from an interrupt without a privilege change. */
    method Iret()
      requires CanPop(3)
      modifies `r
      ensures var p := old(r.esp);
        r == old(r).(eip := memory[p], cs := memory[p + 4], eflags := memory[p + 8], esp := p + 12)
    {
      var eip := Pop();
      var cs := Pop();
      var eflags := Pop();
      r := r.(eip := eip, cs := cs, eflags := eflags);
    }

    /** add esp, n. */
    method AddEsp(n: Word)
      requires r.esp + n < WORD_LIMIT
      modifies `r
      ensures r == old(r).(esp := old(r.esp) + n, eflags := AfterAdd(old(r.eflags), old(r.esp), n))
    {
      r := r.(esp := r.esp + n, eflags := AfterAdd(r.eflags, r.esp, n));
    }

    /** sub esp, n. */
    method SubEsp(n: Word)
      requires n <= r.esp
      modifies `r
      ensures r == old(r).(esp := old(r.esp) - n, eflags := AfterSub(old(r.eflags), old(r.esp), n))
    {
      r := r.(esp := r.esp - n, eflags := AfterSub(r.eflags, r.esp, n));
    }

    /** cmp x, y. */
    method Compare(x: Word, y: Word)
      modifies `r
      ensures r == old(r).(eflags := AfterSub(old(r.eflags), x, y))
    {
      r := r.(eflags := AfterSub(r.eflags, x, y));
    }

    /** pushad; push ds, es, fs, gs. */
    method SaveRegisters()
      requires CanPush(12)
      modifies `r, memory
      ensures r == old(r).(esp := old(r.esp) - 48)
      ensures var o, p := old(r), r.esp;
        && memory[p] == o.gs && memory[p + 4] == o.fs && memory[p + 8] == o.es && memory[p + 12] == o.ds
        && memory[p + 16] == o.edi && memory[p + 20] == o.esi && memory[p + 24] == o.ebp
        && memory[p + 32] == o.ebx && memory[p + 36] == o.edx && memory[p + 40] == o.ecx && memory[p + 44] == o.eax
      ensures forall a :: 0 <= a < WORD_LIMIT && !(r.esp <= a < r.esp + 48) ==> memory[a] == old(memory[a])
    {
      Pushad();
      Push(r.ds);
      Push(r.es);
      Push(r.fs);
      Push(r.gs);
    }

    /** pop gs, fs, es, ds; popad. */
    method PopRegisters()
      requires CanPop(12)
      modifies `r
      ensures var p := old(r.esp);
        r == old(r).(gs := memory[p], fs := memory[p + 4], es := memory[p + 8], ds := memory[p + 12],
                     edi := memory[p + 16], esi := memory[p + 20], ebp := memory[p + 24], ebx := memory[p + 32],
                     edx := memory[p + 36], ecx := memory[p + 40], eax := memory[p + 44], esp := p + 48)
    {
      var gs := Pop();
      var fs := Pop();
      var es := Pop();
      var ds := Pop();
      r := r.(gs := gs, fs := fs, es := es, ds := ds);
      Popad();
    }

    /** restore_registers, then iret. */
    method RestoreRegistersAndIret()
      requires Valid() && FrameFits(r.esp)
      modifies `r
      ensures r == Unframe(memory[..], old(r.esp))
    {
      ghost var p := r.esp;
      PopRegisters();
      AddEsp(8);  // skip interrupt number and error code
      assert r.esp == p + 56;
      Iret();
      assert r.esp == p + 68;
      assert r.eip == memory[p + 56];
      assert r.eflags == memory[p + 64];
    }
  }
}
