/** Bitwise operators of 32-bit words, on natural numbers. */
module Bits {
  import opened Words

  function Pow2(n: nat): (p: nat)
    ensures p >= 1
  {
    if n == 0 then 1 else 2 * Pow2(n - 1)
  }

  /** Bit k of w, counted from the least significant. */
  predicate Bit(w: nat, k: nat) {
    if k == 0 then w % 2 == 1 else Bit(w / 2, k - 1)
  }

  function And(a: nat, b: nat): (r: nat)
    ensures r <= a
  {
    if a == 0 || b == 0 then 0
    else 2 * And(a / 2, b / 2) + if a % 2 == 1 && b % 2 == 1 then 1 else 0
  }

  function Or(a: nat, b: nat): nat {
    if a == 0 then b else if b == 0 then a
    else 2 * Or(a / 2, b / 2) + if a % 2 == 1 || b % 2 == 1 then 1 else 0
  }

  function Not(w: Word): Word { WORD_LIMIT - 1 - w }

  lemma {:induction false} BitOfZero(k: nat)
    ensures !Bit(0, k)
  {
    if k > 0 {
      BitOfZero(k - 1);
    }
  }

  lemma {:induction false} BitOfAnd(a: nat, b: nat, k: nat)
    ensures Bit(And(a, b), k) <==> Bit(a, k) && Bit(b, k)
    decreases k
  {
    if a == 0 || b == 0 {
      BitOfZero(k);
    } else if k > 0 {
      BitOfAnd(a / 2, b / 2, k - 1);
    }
  }

  lemma {:induction false} BitOfOr(a: nat, b: nat, k: nat)
    ensures Bit(Or(a, b), k) <==> Bit(a, k) || Bit(b, k)
    decreases k
  {
    if a == 0 || b == 0 {
      BitOfZero(k);
    } else if k > 0 {
      BitOfOr(a / 2, b / 2, k - 1);
    }
  }

  lemma {:induction false} BitOfPow2(n: nat, k: nat)
    ensures Bit(Pow2(n), k) <==> k == n
  {
    if n > 0 && k > 0 {
      BitOfPow2(n - 1, k - 1);
    } else if k > 0 {
      BitOfZero(k - 1);
    }
  }

  lemma {:induction false} BitOfComplement(n: nat, w: nat, k: nat)
    requires k < n && w < Pow2(n)
    ensures Bit(Pow2(n) - 1 - w, k) <==> !Bit(w, k)
  {
    ComplementHalf(Pow2(n - 1), w / 2, w % 2);
    assert w == 2 * (w / 2) + w % 2;
    hide Pow2;
    if k > 0 {
      BitOfComplement(n - 1, w / 2, k - 1);
    }
  }

  lemma ComplementHalf(p: nat, half: nat, low: nat)
    requires low < 2 && 2 * half + low < 2 * p
    ensures (2 * p - 1 - (2 * half + low)) / 2 == p - 1 - half
    ensures (2 * p - 1 - (2 * half + low)) % 2 == 1 - low
  {
    assert 2 * p - 1 - (2 * half + low) == 2 * (p - 1 - half) + (1 - low);
  }

  lemma Pow32()
    ensures Pow2(32) == WORD_LIMIT
  {
    assert Pow2(8) == 256;
    assert Pow2(16) == 0x1_0000;
    assert Pow2(24) == 0x100_0000;
  }

  lemma {:induction false} Pow2Grows(m: nat, n: nat)
    requires m < n
    ensures Pow2(m) < Pow2(n)
  {
    if m + 1 < n {
      Pow2Grows(m, n - 1);
    }
  }

  /** Words with the same bits are equal. */
  lemma {:induction false} SameBits(n: nat, a: nat, b: nat)
    requires a < Pow2(n) && b < Pow2(n)
    requires forall k :: 0 <= k < n ==> (Bit(a, k) <==> Bit(b, k))
    ensures a == b
  {
    if n > 0 {
      assert Bit(a, 0) <==> Bit(b, 0);
      forall k | 0 <= k < n - 1
        ensures Bit(a / 2, k) <==> Bit(b / 2, k)
      {
        assert Bit(a, k + 1) <==> Bit(b, k + 1);
      }
      SameBits(n - 1, a / 2, b / 2);
    }
  }

  lemma {:induction false} OrIsBounded(n: nat, a: nat, b: nat)
    requires a < Pow2(n) && b < Pow2(n)
    ensures Or(a, b) < Pow2(n)
  {
    if n > 0 {
      OrIsBounded(n - 1, a / 2, b / 2);
    }
  }

  /** A one-bit mask meets a word exactly when that bit is set. */
  lemma {:induction false} MaskTest(n: nat, w: nat)
    ensures And(Pow2(n), w) != 0 <==> Bit(w, n)
  {
    if n > 0 {
      MaskTest(n - 1, w / 2);
      if w == 0 {
        BitOfZero(n);
      }
    }
  }

  // ---- Bits counted from the most significant, as the free list does ----

  /** 0x80000000 >> j. */
  function Mask(j: nat): (m: Word)
    requires j < 32
    ensures m == Pow2(31 - j)
  {
    Pow32();
    Pow2Grows(31 - j, 32);
    Pow2(31 - j)
  }

  predicate Flag(w: Word, j: nat)
    requires j < 32
  {
    Bit(w, 31 - j)
  }

  function SetFlag(w: Word, j: nat): (r: Word)
    requires j < 32
  {
    Pow32();
    OrIsBounded(32, w, Mask(j));
    Or(w, Mask(j))
  }

  function ClearFlag(w: Word, j: nat): (r: Word)
    requires j < 32
  {
    And(w, Not(Mask(j)))
  }

  lemma FirstMask()
    ensures Mask(0) == 0x8000_0000 && Mask(5) == 0x400_0000
  {
    Pow32();
    assert Pow2(26) == 0x400_0000;
  }

  lemma NextMask(j: nat)
    requires j < 31
    ensures Mask(j) / 2 == Mask(j + 1)
  {
  }

  lemma FlagTest(w: Word, j: nat)
    requires j < 32
    ensures And(Mask(j), w) != 0 <==> Flag(w, j)
  {
    MaskTest(31 - j, w);
  }

  lemma FlagOfClear(w: Word, j: nat, k: nat)
    requires j < 32 && k < 32
    ensures Flag(ClearFlag(w, j), k) <==> Flag(w, k) && k != j
  {
    Pow32();
    BitOfAnd(w, Not(Mask(j)), 31 - k);
    BitOfComplement(32, Mask(j), 31 - k);
    BitOfPow2(31 - j, 31 - k);
  }

  lemma FlagOfSet(w: Word, j: nat, k: nat)
    requires j < 32 && k < 32
    ensures Flag(SetFlag(w, j), k) <==> Flag(w, k) || k == j
  {
    BitOfOr(w, Mask(j), 31 - k);
    BitOfPow2(31 - j, 31 - k);
  }

  lemma SameFlags(a: Word, b: Word)
    requires forall j :: 0 <= j < 32 ==> (Flag(a, j) <==> Flag(b, j))
    ensures a == b
  {
    Pow32();
    forall k | 0 <= k < 32
      ensures Bit(a, k) <==> Bit(b, k)
    {
      assert Flag(a, 31 - k) <==> Flag(b, 31 - k);
    }
    SameBits(32, a, b);
  }
}
