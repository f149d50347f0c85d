/** Unsigned 32-bit machine words, kept as integers so that wrap-around is written out. */
module Words {
  const WORD_LIMIT: int := 0x1_0000_0000

  type Word = w: int | 0 <= w < WORD_LIMIT

  datatype Option<+T> = None | Some(value: T)

  /** The low 32 bits of an arithmetic result. */
  function Wrap(x: int): (w: Word)
    ensures 0 <= x < WORD_LIMIT ==> w == x
  {
    x % WORD_LIMIT
  }
}
