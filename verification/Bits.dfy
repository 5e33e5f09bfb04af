/** Powers of two and the integer operations of the source that are built on them. */
module Bits {

  /** `1 << n`. */
  function Pow2(n: nat): (p: nat)
    ensures p > 0
  {
    if n == 0 then 1 else 2 * Pow2(n - 1)
  }

  lemma {:induction false} Pow2Add(a: nat, b: nat)
    ensures Pow2(a + b) == Pow2(a) * Pow2(b)
  {
    if a > 0 {
      Pow2Add(a - 1, b);
    }
  }

  lemma {:induction false} Pow2Monotone(a: nat, b: nat)
    requires a <= b
    ensures Pow2(a) <= Pow2(b)
  {
    if a < b {
      Pow2Monotone(a, b - 1);
    }
  }

  lemma Pow2Strict(a: nat, b: nat)
    requires a < b
    ensures 2 * Pow2(a) <= Pow2(b)
  {
    Pow2Monotone(a + 1, b);
  }

  /** The shifts of the source's page sizes. */
  lemma Pow2Values()
    ensures Pow2(9) == 0x200 && Pow2(12) == 0x1000 && Pow2(18) == 0x4_0000
    ensures Pow2(21) == 0x20_0000 && Pow2(30) == 0x4000_0000
  {
    assert Pow2(3) == 8;
    Pow2Add(3, 3);
    Pow2Add(6, 3);
    Pow2Add(9, 3);
    Pow2Add(9, 9);
    Pow2Add(18, 3);
    Pow2Add(21, 9);
  }

  /** `x << k`. */
  function Shl(x: nat, k: nat): nat
    decreases k, x
  {
    if k == 0 then x else Shl(2 * x, k - 1)
  }

  /** `x >> k`. */
  function Shr(x: nat, k: nat): nat
    decreases k, x
  {
    if k == 0 then x else Shr(x / 2, k - 1)
  }

  lemma {:induction false} ShlAdd(a: nat, b: nat, k: nat)
    ensures Shl(a + b, k) == Shl(a, k) + Shl(b, k)
    decreases k
  {
    if k > 0 {
      ShlAdd(2 * a, 2 * b, k - 1);
    }
  }

  lemma ShlMonotone(a: nat, b: nat, k: nat)
    requires a <= b
    ensures Shl(a, k) <= Shl(b, k)
  {
    ShlAdd(a, b - a, k);
  }

  lemma ShlZero(k: nat)
    ensures Shl(0, k) == 0
    decreases k
  {
  }

  lemma {:induction false} ShlPow2(n: nat, k: nat)
    ensures Shl(Pow2(n), k) == Pow2(n + k)
    decreases k
  {
    if k > 0 {
      ShlPow2(n + 1, k - 1);
    }
  }

  lemma {:induction false} ShlIsMul(x: nat, k: nat)
    ensures Shl(x, k) == x * Pow2(k)
    decreases k
  {
    if k > 0 {
      ShlIsMul(2 * x, k - 1);
    }
  }

  lemma {:induction false} ShlShl(x: nat, a: nat, b: nat)
    ensures Shl(Shl(x, a), b) == Shl(x, a + b)
    decreases a
  {
    if a > 0 {
      ShlShl(2 * x, a - 1, b);
    }
  }

  /** Shifting right rounds down to a multiple of `1 << k`. */
  lemma {:induction false} ShrBrackets(x: nat, k: nat)
    ensures Shl(Shr(x, k), k) <= x < Shl(Shr(x, k) + 1, k)
  {
    if k > 0 {
      ShrBrackets(x / 2, k - 1);
      ShlDouble(Shr(x / 2, k - 1), k - 1);
      ShlDouble(Shr(x / 2, k - 1) + 1, k - 1);
    }
  }

  lemma ShlDouble(x: nat, k: nat)
    ensures Shl(2 * x, k) == 2 * Shl(x, k)
  {
    ShlAdd(x, x, k);
  }

  lemma ShlCancel(a: nat, b: nat, k: nat)
    requires Shl(a, k) <= Shl(b, k)
    ensures a <= b
  {
    if b < a {
      ShlMonotone(b + 1, a, k);
      ShlAdd(b, 1, k);
      ShlPow2(0, k);
    }
  }

  /** A quotient is determined by its bracket. */
  lemma ShrUnique(x: nat, k: nat, q: nat)
    requires Shl(q, k) <= x < Shl(q + 1, k)
    ensures Shr(x, k) == q
  {
    ShrBrackets(x, k);
    if q < Shr(x, k) {
      ShlMonotone(q + 1, Shr(x, k), k);
    } else if Shr(x, k) < q {
      ShlMonotone(Shr(x, k) + 1, q, k);
    }
  }

  lemma ShrShl(q: nat, k: nat)
    ensures Shr(Shl(q, k), k) == q
  {
    ShlAdd(q, 1, k);
    ShlPow2(0, k);
    ShrUnique(Shl(q, k), k, q);
  }

  lemma {:induction false} ShrStep(x: nat, i: nat)
    ensures Shr(x, i + 1) == Shr(x, i) / 2
    decreases i
  {
    if i > 0 {
      ShrStep(x / 2, i - 1);
    }
  }

  lemma {:induction false} ShrShr(x: nat, a: nat, b: nat)
    ensures Shr(Shr(x, a), b) == Shr(x, a + b)
    decreases a
  {
    if a > 0 {
      ShrShr(x / 2, a - 1, b);
    }
  }

  /** Shifting right what was added to a number shifted left. */
  lemma ShrSum(q: nat, y: nat, e: nat, i: nat)
    requires i <= e
    ensures Shr(Shl(q, e) + y, i) == Shl(q, e - i) + Shr(y, i)
  {
    ShrBrackets(y, i);
    ShlShl(q, e - i, i);
    ShlAdd(Shl(q, e - i), Shr(y, i), i);
    ShlAdd(Shl(q, e - i), Shr(y, i) + 1, i);
    ShrUnique(Shl(q, e) + y, i, Shl(q, e - i) + Shr(y, i));
  }

  /** `x.ilog2()`: position of the highest set bit. */
  function Log2(x: nat): (r: nat)
    requires x > 0
    ensures Pow2(r) <= x < Pow2(r + 1)
  {
    if x == 1 then 0 else 1 + Log2(x / 2)
  }

  /** The highest set bit is the only exponent that brackets `x`. */
  lemma Log2Unique(x: nat, r: nat)
    requires x > 0 && Pow2(r) <= x < Pow2(r + 1)
    ensures Log2(x) == r
  {
    if Log2(x) < r {
      Pow2Monotone(Log2(x) + 1, r);
    } else if r < Log2(x) {
      Pow2Monotone(r + 1, Log2(x));
    }
  }

  /** `x.next_power_of_two()`; zero rounds up to one. */
  function NextPow2(x: nat): (p: nat)
    ensures x <= p && p > 0
    ensures p == Pow2(Log2(p))
    ensures x > 1 ==> p < 2 * x
  {
    if x <= 1 then assert Pow2(Log2(1)) == 1; 1
    else
      var p := 2 * Pow2(Log2(x - 1));
      Log2Unique(p, Log2(x - 1) + 1);
      p
  }

  lemma NextOfPow2(k: nat)
    ensures NextPow2(Pow2(k)) == Pow2(k) && Log2(Pow2(k)) == k
  {
    Log2Unique(Pow2(k), k);
    if k > 0 {
      assert Pow2(k) == 2 * Pow2(k - 1);
      Log2Unique(NextPow2(Pow2(k)), k);
    }
  }

  /** No smaller power of two is enough. */
  lemma NextIsSmallest(x: nat, k: nat)
    requires k < Log2(NextPow2(x))
    ensures Pow2(k) < x
  {
    Pow2Monotone(k + 1, Log2(NextPow2(x)));
  }

  /** `x.div_ceil(m)`. */
  function DivCeil(x: nat, m: nat): nat
    requires m > 0
  {
    (x + m - 1) / m
  }

  lemma DivCeilBrackets(x: nat, m: nat)
    requires m > 0
    ensures x <= DivCeil(x, m) * m < x + m
  {
    assert x + m - 1 == m * DivCeil(x, m) + (x + m - 1) % m;
  }

  /** Quotient and remainder are determined by their equation. */
  lemma DivModUnique(x: nat, m: nat, q: nat, r: nat)
    requires m > 0 && x == q * m + r && r < m
    ensures x / m == q && x % m == r
  {
    var q' := x / m;
    assert x == q' * m + x % m;
    if q < q' {
      MulAtLeast(q + 1, q', m);
    } else if q' < q {
      MulAtLeast(q' + 1, q, m);
    }
  }

  lemma MulAtLeast(a: nat, b: nat, m: nat)
    requires a <= b
    ensures a * m <= b * m
  {
  }

  /** `x.next_multiple_of(align)`. */
  function NextMultiple(x: nat, align: nat): (r: nat)
    requires align > 0
    ensures x <= r < x + align
  {
    if x % align == 0 then x else x - x % align + align
  }

  lemma NextIsMultiple(x: nat, m: nat)
    requires m > 0
    ensures NextMultiple(x, m) % m == 0
  {
    if x % m != 0 {
      var q := x / m;
      assert NextMultiple(x, m) == (q + 1) * m + 0;
      DivModUnique(NextMultiple(x, m), m, q + 1, 0);
    }
  }

  /** `x` is a multiple of `Pow2(k)`. */
  predicate MultipleOf(x: nat, k: nat) {
    x == Shl(Shr(x, k), k)
  }

  lemma MultipleIntro(q: nat, k: nat)
    ensures MultipleOf(Shl(q, k), k)
  {
    ShrShl(q, k);
  }
}
