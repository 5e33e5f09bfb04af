/** Machine words as the set of positions of their one bits. */
module MachineWord {
  import opened Bits

  type Word = set<nat>

  predicate BitOf(x: nat, i: nat) {
    Shr(x, i) % 2 == 1
  }

  /** The word that holds a number. */
  function Bin(x: nat): Word {
    set i | 0 <= i < 64 && BitOf(x, i)
  }

  /** The number in the bits from i up to n of a word, bit i first. */
  function Value(w: Word, i: nat, n: nat): nat
    decreases n - i, w
  {
    if i >= n then 0 else (if i in w then 1 else 0) + 2 * Value(w, i + 1, n)
  }

  /** `w & mask` for a mask of the bits from lo up to hi. */
  function Masked(w: Word, lo: nat, hi: nat): Word {
    set i | i in w && lo <= i < hi
  }

  /** `w & !mask` for such a mask. */
  function Cleared(w: Word, lo: nat, hi: nat): Word {
    set i | i in w && !(lo <= i < hi)
  }

  lemma {:induction false} ValueOfBin(x: nat, w: Word, i: nat, n: nat)
    requires i <= n <= 64 && Shr(x, n) == 0
    requires forall k | i <= k < n :: k in w <==> BitOf(x, k)
    ensures Value(w, i, n) == Shr(x, i)
    decreases n - i
  {
    if i < n {
      ValueOfBin(x, w, i + 1, n);
      ShrStep(x, i);
    }
  }

  lemma {:induction false} ValueNoBits(w: Word, i: nat, n: nat)
    requires forall k | i <= k < n :: k !in w
    ensures Value(w, i, n) == 0
    decreases n - i
  {
    if i < n {
      ValueNoBits(w, i + 1, n);
    }
  }

  /** Words without a common bit add up. */
  lemma {:induction false} ValueAdds(v: Word, w: Word, i: nat, n: nat)
    requires v !! w
    ensures Value(v + w, i, n) == Value(v, i, n) + Value(w, i, n)
    decreases n - i
  {
    if i < n {
      ValueAdds(v, w, i + 1, n);
    }
  }

  /** The number of a word is read from it. */
  lemma BinValue(x: nat)
    requires x < Pow2(64)
    ensures Value(Bin(x), 0, 64) == x
  {
    ShortShr(x, 64);
    ValueOfBin(x, Bin(x), 0, 64);
  }

  /** The bits of the number in a word are those of the word. */
  lemma {:induction false} BitOfValue(w: Word, i: nat, n: nat, k: nat)
    requires i + k < n
    ensures BitOf(Value(w, i, n), k) <==> i + k in w
    decreases k
  {
    if k > 0 {
      BitOfValue(w, i + 1, n, k - 1);
      assert Shr(Value(w, i, n), k) == Shr(Value(w, i, n) / 2, k - 1);
    }
  }

  /** A multiple of 2^j has no one bit below j. */
  lemma {:induction false} MultipleHasNoLowBit(q: nat, j: nat, i: nat)
    requires i < j
    ensures !BitOf(Shl(q, j), i)
    decreases i
  {
    if i == 0 {
      ShlDouble(q, j - 1);
    } else {
      ShlDouble(q, j - 1);
      MultipleHasNoLowBit(q, j - 1, i - 1);
    }
  }

  lemma ShortShr(x: nat, k: nat)
    requires x < Pow2(k)
    ensures Shr(x, k) == 0
  {
    ShlZero(k);
    ShlPow2(0, k);
    ShrUnique(x, k, 0);
  }

  lemma ExactShl(x: nat, lo: nat)
    requires x % Pow2(lo) == 0
    ensures x == Shl(x / Pow2(lo), lo)
  {
    ShlIsMul(x / Pow2(lo), lo);
  }

  lemma MaskedBits(q: nat, w: Word, lo: nat, hi: nat)
    requires forall k | lo <= k < hi :: k in w <==> BitOf(Shl(q, lo), k)
    ensures forall k | 0 <= k < hi :: k in Masked(w, lo, hi) <==> BitOf(Shl(q, lo), k)
  {
    forall k | 0 <= k < hi
      ensures k in Masked(w, lo, hi) <==> BitOf(Shl(q, lo), k)
    {
      if k < lo {
        MultipleHasNoLowBit(q, lo, k);
      }
    }
  }

  /** Numbers below 2^hi that are multiples of 2^lo are read back through the mask. */
  lemma MaskedReadsBack(x: nat, w: Word, lo: nat, hi: nat)
    requires lo <= hi <= 64 && x < Pow2(hi) && x % Pow2(lo) == 0
    requires forall k | lo <= k < hi :: k in w <==> BitOf(x, k)
    ensures Value(Masked(w, lo, hi), 0, hi) == x
  {
    ExactShl(x, lo);
    MaskedBits(x / Pow2(lo), w, lo, hi);
    ShortShr(x, hi);
    ValueOfBin(x, Masked(w, lo, hi), 0, hi);
  }
}
