/** Cutting an extent into power-of-two pieces for the buddy system. */
module AlignedSplit {
  import opened Options
  import opened Bits
  import opened Memblock
  import BootMemory

  /** `x.trailing_zeros()` of a 64-bit word. */
  function TrailingZeros(x: nat): nat {
    if x == 0 then 64 else if x % 2 == 1 then 0 else 1 + TrailingZeros(x / 2)
  }

  function Min(a: nat, b: nat): nat {
    if a <= b then a else b
  }

  /** The order of the piece that starts at `offset`. */
  function NextOrder(size: nat, offset: nat, maxOrder: nat): nat
    requires offset < size
  {
    Min(Min(TrailingZeros(offset), Log2(size - offset)), maxOrder)
  }

  /** The largest order not above `maxOrder` that fits into `d`. */
  function Greedy(d: nat, maxOrder: nat): (k: nat)
    requires d > 0
    ensures Pow2(k) <= d
  {
    Pow2Monotone(Min(Log2(d), maxOrder), Log2(d));
    Min(Log2(d), maxOrder)
  }

  /** The orders of the pieces of a range of length `d`. */
  function Orders(d: nat, maxOrder: nat): seq<nat>
    decreases d
  {
    if d == 0 then [] else [Greedy(d, maxOrder)] + Orders(d - Pow2(Greedy(d, maxOrder)), maxOrder)
  }

  lemma MultipleSmaller(x: nat, k: nat, j: nat)
    requires j <= k && MultipleOf(x, k)
    ensures MultipleOf(x, j)
  {
    ShlShl(Shr(x, k), k - j, j);
    MultipleIntro(Shl(Shr(x, k), k - j), j);
  }

  lemma MultipleAdd(x: nat, k: nat)
    requires MultipleOf(x, k)
    ensures MultipleOf(x + Pow2(k), k)
  {
    ShlAdd(Shr(x, k), 1, k);
    ShlPow2(0, k);
    MultipleIntro(Shr(x, k) + 1, k);
  }

  lemma {:induction false} MultipleZeros(x: nat, k: nat)
    requires x > 0 && MultipleOf(x, k)
    ensures TrailingZeros(x) >= k
    decreases k
  {
    if k > 0 {
      ShlDouble(Shr(x, k), k - 1);
      assert x == 2 * Shl(Shr(x / 2, k - 1), k - 1);
      MultipleZeros(x / 2, k - 1);
    }
  }

  lemma Log2Monotone(a: nat, b: nat)
    requires 0 < a <= b
    ensures Log2(a) <= Log2(b)
  {
    if Log2(b) < Log2(a) {
      Pow2Monotone(Log2(b) + 1, Log2(a));
    }
  }

  /** `offset` is where the greedy cut of `size` has got to. */
  predicate OnCut(size: nat, offset: nat, maxOrder: nat) {
    offset < size ==> MultipleOf(offset, Greedy(size - offset, maxOrder))
  }

  /** The cap by the trailing zeros of the offset never binds. */
  lemma CapNeverBinds(size: nat, offset: nat, maxOrder: nat)
    requires offset < size && Log2(size) < 64 && OnCut(size, offset, maxOrder)
    ensures NextOrder(size, offset, maxOrder) == Greedy(size - offset, maxOrder)
  {
    var k := Greedy(size - offset, maxOrder);
    if offset > 0 {
      MultipleZeros(offset, k);
    }
    MinCap(TrailingZeros(offset), Log2(size - offset), maxOrder);
  }

  lemma MinCap(a: nat, b: nat, c: nat)
    requires Min(b, c) <= a
    ensures Min(Min(a, b), c) == Min(b, c)
  {
  }

  /** The cut goes on at a multiple of the next piece. */
  lemma CutAdvances(size: nat, offset: nat, maxOrder: nat)
    requires offset < size && OnCut(size, offset, maxOrder)
    ensures OnCut(size, offset + Pow2(Greedy(size - offset, maxOrder)), maxOrder)
  {
    var k := Greedy(size - offset, maxOrder);
    var offset' := offset + Pow2(k);
    if offset' < size {
      var k' := Greedy(size - offset', maxOrder);
      assert k' <= k by { Log2Monotone(size - offset', size - offset); }
      MultipleAdd(offset, k);
      MultipleSmaller(offset', k, k');
    }
  }

  // ---------------------------------------------------------------- the whole cut

  function Sum(orders: seq<nat>): nat {
    if orders == [] then 0 else Pow2(orders[0]) + Sum(orders[1..])
  }

  /** The pieces fill the range, get no larger, and stay between the bounds. */
  lemma {:induction false} OrdersTile(d: nat, minOrder: nat, maxOrder: nat)
    requires minOrder <= maxOrder && MultipleOf(d, minOrder)
    ensures Sum(Orders(d, maxOrder)) == d
    ensures forall o | o in Orders(d, maxOrder) :: minOrder <= o <= maxOrder
    ensures forall o | o in Orders(d, maxOrder) :: d > 0 && o <= Greedy(d, maxOrder)
    ensures forall i, j | 0 <= i < j < |Orders(d, maxOrder)| :: Orders(d, maxOrder)[j] <= Orders(d, maxOrder)[i]
    decreases d
  {
    if d > 0 {
      var k := Greedy(d, maxOrder);
      var rest := d - Pow2(k);
      MultipleAtLeast(d, minOrder);
      MultipleMinus(d, minOrder, k);
      OrdersTile(rest, minOrder, maxOrder);
      if rest > 0 { Log2Monotone(rest, d); }
      assert Orders(d, maxOrder)[1..] == Orders(rest, maxOrder);
    }
  }

  lemma MultipleAtLeast(d: nat, k: nat)
    requires d > 0 && MultipleOf(d, k)
    ensures Pow2(k) <= d && k <= Log2(d)
  {
    if Shr(d, k) == 0 { ShlZero(k); }
    ShlMonotone(1, Shr(d, k), k);
    ShlPow2(0, k);
    if Log2(d) < k { Pow2Monotone(Log2(d) + 1, k); }
  }

  lemma MultipleMinus(d: nat, j: nat, k: nat)
    requires j <= k && Pow2(k) <= d && MultipleOf(d, j)
    ensures MultipleOf(d - Pow2(k), j)
  {
    ShlPow2(k - j, j);
    ShlCancel(Pow2(k - j), Shr(d, j), j);
    ShlAdd(Shr(d, j) - Pow2(k - j), Pow2(k - j), j);
    MultipleIntro(Shr(d, j) - Pow2(k - j), j);
  }

  function Popcount(x: nat): nat {
    if x == 0 then 0 else x % 2 + Popcount(x / 2)
  }

  lemma {:induction false} PopcountTop(x: nat)
    requires x > 0
    ensures Popcount(x) == 1 + Popcount(x - Pow2(Log2(x)))
  {
    if x > 1 {
      PopcountTop(x / 2);
      var y := x - Pow2(Log2(x));
      assert y / 2 == x / 2 - Pow2(Log2(x / 2)) && y % 2 == x % 2;
    }
  }

  /** The bits of `x` below bit `k`. */
  function LowBits(x: nat, k: nat): nat {
    ShrBrackets(x, k);
    x - Shl(Shr(x, k), k)
  }

  /** The number of pieces: one per largest block, then one per set bit of the remainder. */
  lemma {:induction false} OrdersCount(d: nat, maxOrder: nat)
    ensures |Orders(d, maxOrder)| == PieceCount(d, maxOrder)
    decreases d
  {
    if d == 0 {
      OnlyLowBits(d, maxOrder);
    } else {
      OrdersCount(d - Pow2(Greedy(d, maxOrder)), maxOrder);
      GreedyCases(d, maxOrder);
      if d >= Pow2(maxOrder) {
        CountLarge(d, maxOrder);
      } else {
        CountSmall(d, maxOrder);
      }
    }
  }

  /** The number of largest pieces, and one piece for every one bit of the rest. */
  function PieceCount(d: nat, maxOrder: nat): nat {
    Shr(d, maxOrder) + Popcount(LowBits(d, maxOrder))
  }

  lemma GreedyCases(d: nat, maxOrder: nat)
    requires d > 0
    ensures Greedy(d, maxOrder) == if d >= Pow2(maxOrder) then maxOrder else Log2(d)
  {
    Pow2Log(d, maxOrder);
  }

  /** Taking off the largest piece lowers the count by one. */
  lemma CountLarge(d: nat, k: nat)
    requires d >= Pow2(k)
    ensures PieceCount(d, k) == PieceCount(d - Pow2(k), k) + 1
  {
    LowBitsMinus(d, k);
  }

  lemma CountSmall(d: nat, k: nat)
    requires 0 < d < Pow2(k)
    ensures PieceCount(d, k) == PieceCount(d - Pow2(Log2(d)), k) + 1
  {
    OnlyLowBits(d, k);
    OnlyLowBits(d - Pow2(Log2(d)), k);
    PopcountTop(d);
  }

  lemma OnlyLowBits(d: nat, k: nat)
    requires d < Pow2(k)
    ensures Shr(d, k) == 0 && LowBits(d, k) == d
  {
    ShlZero(k);
    ShlPow2(0, k);
    ShrUnique(d, k, 0);
  }

  lemma LowBitsMinus(d: nat, k: nat)
    requires d >= Pow2(k)
    ensures Shr(d, k) == Shr(d - Pow2(k), k) + 1
    ensures LowBits(d, k) == LowBits(d - Pow2(k), k)
  {
    var q := Shr(d - Pow2(k), k);
    ShrBrackets(d - Pow2(k), k);
    ShlAdd(q, 1, k);
    ShlAdd(q + 1, 1, k);
    ShlPow2(0, k);
    ShrUnique(d, k, q + 1);
  }

  lemma Pow2Log(d: nat, m: nat)
    requires d > 0
    ensures d >= Pow2(m) <==> Log2(d) >= m
  {
    if Log2(d) >= m { Pow2Monotone(m, Log2(d)); } else { Pow2Monotone(Log2(d) + 1, m); }
  }

  // ---------------------------------------------------------------- trimming

  /** The range that `aligned_split` cuts up: the start rounded up, the length rounded down. */
  function Trimmed(b: Memblock, minOrder: nat): Memblock {
    var align := Pow2(minOrder);
    var base := NextMultiple(b.base, align);
    if base >= BootMemory.UMA_END then Memblock(b.base, 0)
    else
      var end := base + b.size - (base + b.size) % align;
      if end < base then Memblock(b.base, 0) else Memblock(base, end - base)
  }

  lemma FloorAbove(base: nat, size: nat, m: nat)
    requires m > 0 && base % m == 0
    ensures (base + size) % m == size % m
  {
    var p, q := base / m, size / m;
    assert base + size == (p + q) * m + size % m;
    DivModUnique(base + size, m, p + q, size % m);
  }

  /** Rounding the start up is not paid for by the length: only the length itself is rounded down. */
  lemma TrimmedSize(b: Memblock, minOrder: nat)
    requires NextMultiple(b.base, Pow2(minOrder)) < BootMemory.UMA_END
    ensures Trimmed(b, minOrder).size == b.size - b.size % Pow2(minOrder)
    ensures Trimmed(b, minOrder).base == NextMultiple(b.base, Pow2(minOrder))
  {
    NextIsMultiple(b.base, Pow2(minOrder));
    FloorAbove(NextMultiple(b.base, Pow2(minOrder)), b.size, Pow2(minOrder));
    RemainderSmaller(b.size, Pow2(minOrder));
  }

  /** The range stays inside the extent exactly when the start moves no further than the length is cut. */
  lemma TrimmedInside(b: Memblock, minOrder: nat)
    requires NextMultiple(b.base, Pow2(minOrder)) < BootMemory.UMA_END
    ensures var t := Trimmed(b, minOrder);
            (forall a: nat | t.Has(a) :: b.Has(a)) <==>
            b.size < Pow2(minOrder) || t.base - b.base <= b.size % Pow2(minOrder)
  {
    TrimmedSize(b, minOrder);
    var rest := b.size % Pow2(minOrder);
    RemainderSmaller(b.size, Pow2(minOrder));
    ShiftedInside(b, Trimmed(b, minOrder).base, rest);
  }

  lemma ShiftedInside(b: Memblock, base: nat, rest: nat)
    requires b.base <= base && rest <= b.size
    ensures (forall a: nat | Memblock(base, b.size - rest).Has(a) :: b.Has(a)) <==>
            b.size == rest || base - b.base <= rest
  {
    var t := Memblock(base, b.size - rest);
    if b.size > rest && forall a: nat | t.Has(a) :: b.Has(a) {
      assert t.Has(t.End() - 1);
    }
  }

  lemma RemainderSmaller(x: nat, m: nat)
    requires m > 0
    ensures x % m <= x && (x % m == x <==> x < m)
  {
  }

  // ---------------------------------------------------------------- the iterator

  class SplitIter {
    const block: Memblock
    const maxOrder: nat
    var offset: nat

    ghost predicate Valid()
      reads this
    {
      offset <= block.size && (block.size > 0 ==> Log2(block.size) < 64) && OnCut(block.size, offset, maxOrder)
    }

    constructor (b: Memblock, minOrder: nat, maxOrder: nat)
      requires Trimmed(b, minOrder).size > 0 ==> Log2(Trimmed(b, minOrder).size) < 64
      ensures Valid() && block == Trimmed(b, minOrder) && this.maxOrder == maxOrder && offset == 0
    {
      block, this.maxOrder, offset := Trimmed(b, minOrder), maxOrder, 0;
      new;
      if block.size > 0 {
        ShlZero(Greedy(block.size, maxOrder));
        MultipleIntro(0, Greedy(block.size, maxOrder));
      }
    }

    /** The next piece: the largest that still fits, at a multiple of its own size. */
    method Next() returns (r: Option<Memblock>)
      requires Valid()
      modifies this
      ensures Valid()
      ensures old(offset) >= block.size ==> r.None? && offset == old(offset)
      ensures old(offset) < block.size ==>
                var k := Greedy(block.size - old(offset), maxOrder);
                && r == Some(Memblock(block.base + old(offset), Pow2(k)))
                && offset == old(offset) + Pow2(k)
                && MultipleOf(old(offset), k)
    {
      if offset >= block.size {
        return None;
      }
      var offsetOrder := TrailingZeros(offset);
      var diff := block.size - offset;
      var diffOrder := Log2(diff);
      var nextOrder := Min(Min(offsetOrder, diffOrder), maxOrder);
      CapNeverBinds(block.size, offset, maxOrder);
      CutAdvances(block.size, offset, maxOrder);
      r := Some(Memblock(block.base + offset, Pow2(nextOrder)));
      offset := offset + Pow2(nextOrder);
    }
  }

  // ---------------------------------------------------------------- draining the iterator

  /** The pieces lie one behind the other from `base` on. */
  predicate Chained(base: nat, pieces: seq<Memblock>) {
    forall i: nat | i < |pieces| :: Follows(base, pieces, i)
  }

  predicate Follows(base: nat, pieces: seq<Memblock>, i: nat)
    requires i < |pieces|
  {
    pieces[i].base == EndBefore(base, pieces, i)
  }

  function EndBefore(base: nat, pieces: seq<Memblock>, i: nat): nat
    requires i <= |pieces|
  {
    if i == 0 then base else pieces[i - 1].End()
  }

  /** The pieces have these orders, and each starts at a multiple of its size behind `base`. */
  predicate HaveOrders(base: nat, pieces: seq<Memblock>, orders: seq<nat>) {
    && |pieces| == |orders|
    && forall i | 0 <= i < |pieces| :: HasOrder(base, pieces[i], orders[i])
  }

  predicate HasOrder(base: nat, piece: Memblock, k: nat) {
    piece.size == Pow2(k) && base <= piece.base && MultipleOf(piece.base - base, k)
  }

  /**
   All pieces of the iterator: they fill the range from its start to its end, their orders are those of the greedy cut,
   and there is one per largest block and then one per set bit of the remainder.
   */
  method Drain(it: SplitIter) returns (pieces: seq<Memblock>)
    requires it.Valid() && it.offset == 0
    modifies it
    ensures Chained(it.block.base, pieces) &&
            EndBefore(it.block.base, pieces, |pieces|) == it.block.base + it.block.size
    ensures HaveOrders(it.block.base, pieces, Orders(it.block.size, it.maxOrder))
    ensures |pieces| == PieceCount(it.block.size, it.maxOrder)
  {
    var base := it.block.base;
    pieces := [];
    ghost var orders: seq<nat> := [];
    while it.offset < it.block.size
      invariant it.Valid() && Chained(base, pieces) && EndBefore(base, pieces, |pieces|) == base + it.offset
      invariant HaveOrders(base, pieces, orders)
      invariant OrdersSoFar(it.block.size, it.offset, it.maxOrder, orders)
      decreases it.block.size - it.offset
    {
      ghost var offset := it.offset;
      ghost var k := Greedy(it.block.size - offset, it.maxOrder);
      var piece := it.Next();
      OnePiece(base, offset, pieces, orders, k);
      OrdersSnoc(it.block.size, offset, it.maxOrder, orders);
      pieces, orders := pieces + [piece.value], orders + [k];
    }
    assert orders + Orders(0, it.maxOrder) == orders;
    OrdersCount(it.block.size, it.maxOrder);
  }

  /** The orders of the pieces up to an offset are the first ones of the whole list. */
  predicate OrdersSoFar(size: nat, offset: nat, maxOrder: nat, orders: seq<nat>) {
    offset <= size && Orders(size, maxOrder) == orders + Orders(size - offset, maxOrder)
  }

  lemma OnePiece(base: nat, offset: nat, pieces: seq<Memblock>, orders: seq<nat>, k: nat)
    requires Chained(base, pieces) && EndBefore(base, pieces, |pieces|) == base + offset
    requires HaveOrders(base, pieces, orders) && MultipleOf(offset, k)
    ensures var pieces' := pieces + [Memblock(base + offset, Pow2(k))];
            && Chained(base, pieces') && EndBefore(base, pieces', |pieces'|) == base + (offset + Pow2(k))
            && HaveOrders(base, pieces', orders + [k])
  {
    var pieces' := pieces + [Memblock(base + offset, Pow2(k))];
    forall i: nat | i < |pieces'|
      ensures Follows(base, pieces', i)
    {
      if i < |pieces| { assert Follows(base, pieces, i); }
    }
    assert HasOrder(base, Memblock(base + offset, Pow2(k)), k);
  }

  lemma OrdersSnoc(size: nat, offset: nat, maxOrder: nat, orders: seq<nat>)
    requires offset < size && OrdersSoFar(size, offset, maxOrder, orders)
    ensures var k := Greedy(size - offset, maxOrder); OrdersSoFar(size, offset + Pow2(k), maxOrder, orders + [k])
  {
    var k := Greedy(size - offset, maxOrder);
    assert Orders(size - offset, maxOrder) == [k] + Orders(size - offset - Pow2(k), maxOrder);
  }
}
