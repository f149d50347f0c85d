/** Physical memory and address translation: 32-bit paging with 4-KByte pages,
    section 4.3 of the Intel SDM, Volume 3A (CR4.PSE = 0, supervisor accesses with CR0.WP = 0). */
module Mmu {
  import opened Words

  const FRAMES: nat := 0x10_0000
  const ENTRIES: nat := 1024

  type Frame = f: seq<Word> | |f| == ENTRIES witness seq(ENTRIES, _ => 0)

  // The three fields of a virtual address.
  function Dir(va: Word): (x: nat)
    ensures x < ENTRIES
  {
    va / 0x40_0000
  }

  function Tab(va: Word): (y: nat)
    ensures y < ENTRIES
  {
    va / 0x1000 % 0x400
  }

  function Slot(va: Word): (w: nat)
    ensures w < ENTRIES
  {
    va % 0x1000 / 4
  }

  /** The virtual address of word w of page y under directory slot x. */
  function Address(x: nat, y: nat, w: nat): (va: Word)
    requires x < ENTRIES && y < ENTRIES && w < ENTRIES
    ensures Dir(va) == x && Tab(va) == y && Slot(va) == w && va % 4 == 0
  {
    var va: Word := x * 0x40_0000 + y * 0x1000 + w * 4;
    assert va / 0x1000 == x * 0x400 + y;
    va
  }

  // Directory and table entries: bit 0 is the present flag, bits 12..31 the frame number.
  predicate Present(entry: Word) { entry % 2 == 1 }

  function FrameOf(entry: Word): (f: nat)
    ensures f < FRAMES
  {
    entry / 0x1000
  }

  /** `address | 3`: present and writable. */
  function WithFlags(address: Word): (e: Word)
    ensures Present(e) && FrameOf(e) == FrameOf(address)
  {
    var k, q := address / 0x1000, address % 0x1000 / 4;
    OddWord(k, 2 * q + 1);
    0x1000 * k + 4 * q + 3
  }

  lemma OddWord(k: nat, half: nat)
    requires k < FRAMES && half < 0x800
    ensures (0x1000 * k + 2 * half + 1) / 0x1000 == k && (0x1000 * k + 2 * half + 1) % 2 == 1
  {
    Odd(0x800 * k + half);
    Quotient(k, 2 * half + 1);
  }

  lemma Odd(m: nat)
    ensures (2 * m + 1) % 2 == 1
  {
  }

  lemma Quotient(k: nat, offset: nat)
    requires offset < 0x1000
    ensures (0x1000 * k + offset) / 0x1000 == k
  {
  }

  function Entry(frame: nat): (e: Word)
    requires frame < FRAMES
    ensures Present(e) && FrameOf(e) == frame
  {
    WithFlags(frame * 0x1000)
  }

  /** Setting the flags changes the two low bits only. */
  lemma FlagsAreTwoBits(address: Word, frame: nat)
    requires frame < FRAMES
    ensures WithFlags(address) % 4 == 3 && WithFlags(address) / 4 == address / 4
    ensures Entry(frame) == frame * 0x1000 + 3
  {
    var k, r := address / 0x1000, address % 0x1000;
    Quarter(k, r, 0x400 * k + r / 4);
  }

  lemma Quarter(k: nat, r: nat, m: nat)
    requires m == 0x400 * k + r / 4
    ensures (0x1000 * k + r) / 4 == m && (4 * m + 3) / 4 == m && (4 * m + 3) % 4 == 3
  {
    assert 0x1000 * k + r == 4 * m + r % 4;
  }

  /** The not-present entry that the kernel writes. */
  const BLANK: Word := 2

  /** The frame behind page (x, y), looked up as the hardware does, or None when it faults. */
  function Lookup(mem: seq<Frame>, cr3: nat, x: nat, y: nat): (r: Option<nat>)
    requires |mem| == FRAMES && cr3 < FRAMES && x < ENTRIES && y < ENTRIES
    ensures r.Some? ==> r.value < FRAMES
  {
    var pde := mem[cr3][x];
    if !Present(pde) then None else
    var pte := mem[FrameOf(pde)][y];
    if !Present(pte) then None else Some(FrameOf(pte))
  }

  function Walk(mem: seq<Frame>, cr3: nat, va: Word): (r: Option<nat>)
    requires |mem| == FRAMES && cr3 < FRAMES
    ensures r.Some? ==> r.value < FRAMES
  {
    Lookup(mem, cr3, Dir(va), Tab(va))
  }

  function WriteWord(mem: seq<Frame>, frame: nat, slot: nat, value: Word): (r: seq<Frame>)
    requires frame < |mem| && slot < ENTRIES
    ensures |r| == |mem|
  {
    mem[frame := mem[frame][slot := value]]
  }

  /** The recursive window: once slot 1023 of the directory points back at it, the address
      0xFFC00000 + X*4096 + Y*4 reaches entry Y of table X without overflowing 32 bits, and X = 1023
      reaches entry Y of the directory itself (the kernel writes that one as 0xFFFFF000 + Y*4). */
  lemma RecursiveWindow(mem: seq<Frame>, cr3: nat, x: nat, y: nat)
    requires |mem| == FRAMES && cr3 < FRAMES && x < ENTRIES && y < ENTRIES
    requires mem[cr3][1023] == Entry(cr3)
    ensures 0xFFC0_0000 + x * 0x1000 + y * 4 < WORD_LIMIT
    ensures 0xFFC0_0000 + 1023 * 0x1000 == 0xFFFF_F000
    ensures var va: Word := 0xFFC0_0000 + x * 0x1000 + y * 4;
      && Slot(va) == y && va % 4 == 0
      && Walk(mem, cr3, va) == if Present(mem[cr3][x]) then Some(FrameOf(mem[cr3][x])) else None
    ensures x == 1023 ==> FrameOf(mem[cr3][x]) == cr3
  {
    hide Dir, Tab, Slot, Present, FrameOf;
    WindowAddress(x, y);
  }

  lemma WindowAddress(x: nat, y: nat)
    requires x < ENTRIES && y < ENTRIES
    ensures 0xFFC0_0000 + x * 0x1000 + y * 4 == Address(1023, x, y)
  {
    hide Dir, Tab, Slot;
  }

  /** A processor with paging enabled: every access goes through the walk. */
  class Machine {
    const ram: array<Frame>
    var cr3: nat

    ghost predicate Valid() reads this {
      ram.Length == FRAMES && cr3 < FRAMES
    }

    method Load(va: Word) returns (value: Word)
      requires Valid() && va % 4 == 0 && Walk(ram[..], cr3, va).Some?
      ensures value == ram[Walk(ram[..], cr3, va).value][Slot(va)]
    {
      var pde := ram[cr3][Dir(va)];
      var pte := ram[FrameOf(pde)][Tab(va)];
      value := ram[FrameOf(pte)][Slot(va)];
    }

    method Store(va: Word, value: Word)
      requires Valid() && va % 4 == 0 && Walk(ram[..], cr3, va).Some?
      modifies ram
      ensures ram[..] == WriteWord(old(ram[..]), Walk(old(ram[..]), cr3, va).value, Slot(va), value)
    {
      var pde := ram[cr3][Dir(va)];
      var pte := ram[FrameOf(pde)][Tab(va)];
      var frame := FrameOf(pte);
      ram[frame] := ram[frame][Slot(va) := value];
    }
  }
}
