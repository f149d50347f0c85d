/** The disk as an array of 512-byte blocks, and the little-endian casts that lay words over them. */
module Disk {
  import opened Words

  const CHAR_PER_BLOCK: nat := 512
  const INT_PER_BLOCK: nat := 128

  type Byte = b: int | 0 <= b < 256
  type Block = b: seq<Byte> | |b| == CHAR_PER_BLOCK witness seq(CHAR_PER_BLOCK, _ => 0)
  type Long = x: int | -0x8000_0000 <= x < 0x8000_0000

  function ByteOf(w: Word, k: nat): Byte
    requires k < 4
  {
    if k == 0 then w % 0x100
    else if k == 1 then w / 0x100 % 0x100
    else if k == 2 then w / 0x1_0000 % 0x100
    else w / 0x100_0000
  }

  function WordOf(b0: Byte, b1: Byte, b2: Byte, b3: Byte): Word {
    b0 + 0x100 * b1 + 0x1_0000 * b2 + 0x100_0000 * b3
  }

  lemma WordOfBytes(w: Word)
    ensures WordOf(ByteOf(w, 0), ByteOf(w, 1), ByteOf(w, 2), ByteOf(w, 3)) == w
  {
    assert w / 0x1_0000 == w / 0x100 / 0x100;
    assert w / 0x100_0000 == w / 0x100 / 0x100 / 0x100;
  }

  /** (unsigned char*) of an array of 128 words. */
  function Bytes(ws: seq<Word>): (b: Block)
    requires |ws| == INT_PER_BLOCK
  {
    seq(CHAR_PER_BLOCK, q requires 0 <= q < CHAR_PER_BLOCK => ByteOf(ws[q / 4], q % 4))
  }

  function WordAt(b: Block, i: nat): Word
    requires i < INT_PER_BLOCK
  {
    WordOf(b[4 * i], b[4 * i + 1], b[4 * i + 2], b[4 * i + 3])
  }

  /** A block read into an array of 128 words. */
  function WordsIn(b: Block): (ws: seq<Word>)
    ensures |ws| == INT_PER_BLOCK
  {
    seq(INT_PER_BLOCK, i requires 0 <= i < INT_PER_BLOCK => WordAt(b, i))
  }

  lemma ByteInBlock(ws: seq<Word>, i: nat, k: nat)
    requires |ws| == INT_PER_BLOCK && i < INT_PER_BLOCK && k < 4
    ensures Bytes(ws)[4 * i + k] == ByteOf(ws[i], k)
  {
    hide ByteOf;
    assert (4 * i + k) / 4 == i && (4 * i + k) % 4 == k;
  }

  lemma WordsRoundTrip(ws: seq<Word>)
    requires |ws| == INT_PER_BLOCK
    ensures WordsIn(Bytes(ws)) == ws
  {
    forall i | 0 <= i < INT_PER_BLOCK
      ensures WordAt(Bytes(ws), i) == ws[i]
    {
      hide ByteOf, WordOf, Bytes;
      WordOfBytes(ws[i]);
      ByteInBlock(ws, i, 0);
      ByteInBlock(ws, i, 1);
      ByteInBlock(ws, i, 2);
      ByteInBlock(ws, i, 3);
    }
  }

  // Two's complement.
  function Signed(w: Word): Long {
    if w < 0x8000_0000 then w else w - WORD_LIMIT
  }

  function Unsigned(x: Long): Word {
    if x >= 0 then x else x + WORD_LIMIT
  }

  type Inode = l: seq<Long> | |l| == INT_PER_BLOCK witness seq(INT_PER_BLOCK, _ => 0)

  function UnsignedAll(l: Inode): (ws: seq<Word>)
    ensures |ws| == INT_PER_BLOCK && forall i :: 0 <= i < INT_PER_BLOCK ==> ws[i] == Unsigned(l[i])
  {
    seq(INT_PER_BLOCK, i requires 0 <= i < INT_PER_BLOCK => Unsigned(l[i]))
  }

  function SignedAll(ws: seq<Word>): (l: Inode)
    requires |ws| == INT_PER_BLOCK
    ensures forall i :: 0 <= i < INT_PER_BLOCK ==> l[i] == Signed(ws[i])
  {
    seq(INT_PER_BLOCK, i requires 0 <= i < INT_PER_BLOCK => Signed(ws[i]))
  }

  function LongBytes(l: Inode): Block { Bytes(UnsignedAll(l)) }

  function LongsIn(b: Block): Inode { SignedAll(WordsIn(b)) }

  lemma LongsRoundTrip(l: Inode)
    ensures LongsIn(LongBytes(l)) == l
  {
    hide WordsIn, Bytes, UnsignedAll, SignedAll;
    WordsRoundTrip(UnsignedAll(l));
  }

  /** Pointers lie on disk with the low byte first, negative ones in two's complement. */
  lemma LowByteFirst(l: Inode, i: nat)
    requires i < INT_PER_BLOCK
    ensures var x: int := l[i];
      var w: Word := if 0 <= x then x else x + 0x1_0000_0000;
      && LongBytes(l)[4 * i] == w % 0x100 && LongBytes(l)[4 * i + 1] == w / 0x100 % 0x100
      && LongBytes(l)[4 * i + 2] == w / 0x1_0000 % 0x100 && LongBytes(l)[4 * i + 3] == w / 0x100_0000
  {
    hide Bytes, UnsignedAll;
    ByteInBlock(UnsignedAll(l), i, 0);
    ByteInBlock(UnsignedAll(l), i, 1);
    ByteInBlock(UnsignedAll(l), i, 2);
    ByteInBlock(UnsignedAll(l), i, 3);
  }

  class SimpleDisk {
    const blocks: array<Block>
    const diskSize: nat  // in bytes

    constructor (bytes: nat, content: array<Block>)
      ensures blocks == content && diskSize == bytes
    {
      blocks, diskSize := content, bytes;
    }

    method Read(n: nat) returns (block: Block)
      requires n < blocks.Length
      ensures block == blocks[n]
    {
      block := blocks[n];
    }

    method Write(n: nat, block: Block)
      requires n < blocks.Length
      modifies blocks
      ensures blocks[..] == old(blocks[..])[n := block]
    {
      blocks[n] := block;
    }
  }
}
