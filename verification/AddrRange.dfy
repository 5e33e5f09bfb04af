/** Address ranges, hardware pages and the operations that relate them. */
module AddrRange {
  import opened Options
  import opened Bits

  datatype PageSize = Small | Large | Huge {
    function Order(): nat {
      match this
      case Small => 12
      case Large => 21
      case Huge => 30
    }

    function Bytes(): nat {
      match this
      case Small => 0x1000
      case Large => 0x20_0000
      case Huge => 0x4000_0000
    }
  }

  /** An address space; its bounds are multiples of the largest page. */
  datatype Space = Space(start: nat, end: nat) {
    predicate PageAligned() {
      start <= end && start % 0x4000_0000 == 0 && end % 0x4000_0000 == 0
    }

    predicate Contains(r: Range) {
      start <= r.base && r.End() <= end
    }
  }

  datatype Range = Range(base: nat, size: nat) {
    function End(): nat { base + size }

    predicate Has(a: nat) { base <= a < End() }
  }

  /** `len` pages of one size from `base` on. */
  datatype PageRange = PageRange(base: nat, pageSize: PageSize, len: nat) {
    /** The `j`-th page of this size is one of them. */
    predicate Covers(j: nat) {
      base <= j * pageSize.Bytes() < base + len * pageSize.Bytes()
    }
  }

  // ---------------------------------------------------------------- set difference

  function Clamp(x: int, max: nat): (r: nat)
    ensures r <= max
  {
    if x < 0 then 0 else if x < max then x else max
  }

  /** `range_sub`: what is left of `r` below and above `rhs`. */
  function RangeSub(space: Space, r: Range, rhs: Range): (Range, Range) {
    if r.size == 0 then (Range(space.start, 0), rhs)
    else if rhs.size == 0 then (r, Range(space.start, 0))
    else
      var lowSize := Clamp(rhs.base - r.base, r.size);
      var hiSize := Clamp(r.base - rhs.base + (r.size - rhs.size), r.size);
      (Range(r.base, lowSize), Range(r.base + (r.size - hiSize), hiSize))
  }

  /** The two pieces are disjoint; they are the set difference unless an empty range is subtracted from. */
  lemma RangeSubIsDifference(space: Space, r: Range, rhs: Range)
    ensures var (lo, hi) := RangeSub(space, r, rhs);
            && (forall a: nat :: !(lo.Has(a) && hi.Has(a)))
            && ((forall a: nat :: lo.Has(a) || hi.Has(a) <==> r.Has(a) && !rhs.Has(a)) <==> r.size > 0 || rhs.size == 0)
  {
    var (lo, hi) := RangeSub(space, r, rhs);
    if r.size == 0 && rhs.size > 0 {
      assert hi.Has(rhs.base) && !r.Has(rhs.base);
    } else if r.size > 0 && rhs.size > 0 {
      assert forall a: nat :: lo.Has(a) <==> r.Has(a) && a < rhs.base;
      assert forall a: nat :: hi.Has(a) <==> r.Has(a) && a >= rhs.End();
    }
  }

  // ---------------------------------------------------------------- pages of a range

  /** `align_ceil`: none if the result leaves the space. */
  function AlignCeil(space: Space, a: nat, align: nat): Option<nat>
    requires align > 0
  {
    var x := NextMultiple(a, align);
    if x < space.end then Some(x) else None
  }

  /** `align_floor`. */
  function AlignFloor(space: Space, a: nat, align: nat): Option<nat>
    requires align > 0
  {
    var x := a - a % align;
    if x >= space.start then Some(x) else None
  }

  /** `contained_pages`; none stands for a panic of `expect` or of the subtraction. */
  function ContainedPages(space: Space, r: Range, ps: PageSize): Option<PageRange> {
    if r.size < ps.Bytes() then Some(PageRange(space.start, ps, 0))
    else
      match AlignCeil(space, r.base, ps.Bytes())
      case None => None
      case Some(base) =>
        var residual := r.size - (base - r.base);
        if residual < 0 then None else Some(PageRange(base, ps, residual / ps.Bytes()))
  }

  /** `overlapped_pages`; none stands for the panic of `expect`. */
  function OverlappedPages(space: Space, r: Range, ps: PageSize): Option<PageRange> {
    match AlignFloor(space, r.base, ps.Bytes())
    case None => None
    case Some(base) => Some(PageRange(base, ps, DivCeil(r.size + (r.base - base), ps.Bytes())))
  }

  lemma MulLeDiv(k: nat, x: nat, m: nat)
    requires m > 0
    ensures k * m <= x <==> k <= x / m
  {
    var q := x / m;
    assert x == q * m + x % m;
    if k <= q {
      MulAtLeast(k, q, m);
    } else {
      MulAtLeast(q + 1, k, m);
    }
  }

  lemma MulLtCeil(k: nat, x: nat, m: nat)
    requires m > 0
    ensures k * m < x <==> k < DivCeil(x, m)
  {
    DivCeilBrackets(x, m);
    if k < DivCeil(x, m) {
      MulAtLeast(k + 1, DivCeil(x, m), m);
    } else {
      MulAtLeast(DivCeil(x, m), k, m);
    }
  }

  /** Rounding up gives the first multiple at or above. */
  lemma CeilIsFirst(a: nat, m: nat) returns (q: nat)
    requires m > 0
    ensures NextMultiple(a, m) == q * m
    ensures a <= q * m < a + m
  {
    q := if a % m == 0 then a / m else a / m + 1;
    assert a == (a / m) * m + a % m;
  }

  /**
   * `align_ceil` gives the least multiple at or above the address, and none exactly if no such multiple is below the
   * end.
   */
  lemma CeilExact(space: Space, a: nat, m: nat, k: nat)
    requires m > 0 && a <= k * m
    ensures AlignCeil(space, a, m).Some? ==>
              var x := AlignCeil(space, a, m).value;
              x % m == 0 && a <= x <= k * m && x < space.end
    ensures AlignCeil(space, a, m).None? ==> space.end <= k * m
  {
    var q := CeilIsFirst(a, m);
    if k < q {
      MulAtLeast(k + 1, q, m);
    } else {
      MulAtLeast(q, k, m);
    }
    NextIsMultiple(a, m);
  }

  /** Counting pages from `q` on: page `j` is among the first `len`. */
  lemma PageCount(q: nat, j: nat, len: nat, m: nat)
    requires m > 0
    ensures q * m <= j * m < q * m + len * m <==> q <= j < q + len
  {
    assert q * m + len * m == (q + len) * m;
    if q <= j { MulAtLeast(q, j, m); } else { MulAtLeast(j + 1, q, m); }
    if q + len <= j { MulAtLeast(q + len, j, m); } else { MulAtLeast(j + 1, q + len, m); }
  }

  /** The contained pages are exactly the pages that lie inside the range. */
  lemma ContainedPagesExact(space: Space, r: Range, ps: PageSize, j: nat)
    requires space.Contains(r)
    ensures ContainedPages(space, r, ps).Some?
    ensures ContainedPages(space, r, ps).value.Covers(j) <==>
            r.base <= j * ps.Bytes() && (j + 1) * ps.Bytes() <= r.End()
  {
    var m := ps.Bytes();
    if r.size < m {
      assert (j + 1) * m == j * m + m;
    } else {
      var q := CeilIsFirst(r.base, m);
      var residual := r.size - (q * m - r.base);
      PageCount(q, j, residual / m, m);
      if q <= j {
        MulAtLeast(q, j, m);
        assert (j + 1 - q) * m == (j + 1) * m - q * m;
        MulLeDiv(j + 1 - q, residual, m);
      } else {
        MulAtLeast(j + 1, q, m);
        assert (j + 1) * m == j * m + m;
      }
    }
  }

  /** The overlapped pages are exactly the pages that meet the range, when the range is not empty. */
  lemma OverlappedPagesExact(space: Space, r: Range, ps: PageSize, j: nat)
    requires space.PageAligned() && space.Contains(r)
    ensures OverlappedPages(space, r, ps).Some?
    ensures r.size > 0 ==>
              (OverlappedPages(space, r, ps).value.Covers(j) <==>
                j * ps.Bytes() < r.End() && r.base < (j + 1) * ps.Bytes())
    ensures r.size == 0 ==> (OverlappedPages(space, r, ps).value.len == 0 <==> r.base % ps.Bytes() == 0)
  {
    var m := ps.Bytes();
    var q := r.base / m;
    assert r.base == q * m + r.base % m;
    FloorInSpace(space, r, ps);
    var x := r.size + r.base % m;
    PageCount(q, j, DivCeil(x, m), m);
    assert (j + 1) * m == j * m + m;
    if q <= j {
      MulAtLeast(q, j, m);
      assert (j - q) * m == j * m - q * m;
      MulLtCeil(j - q, x, m);
    } else {
      MulAtLeast(j + 1, q, m);
    }
    MulLtCeil(0, x, m);
  }

  lemma FloorAtLeast(start: nat, x: nat, m: nat)
    requires m > 0 && start % m == 0 && start <= x
    ensures start <= x - x % m
  {
    var p, q := start / m, x / m;
    assert start == p * m && x == q * m + x % m;
    if q < p {
      MulAtLeast(q + 1, p, m);
    } else {
      MulAtLeast(p, q, m);
    }
  }

  lemma HugeIsMultiple(x: nat, ps: PageSize)
    requires x % 0x4000_0000 == 0
    ensures x % ps.Bytes() == 0
  {
    var q := x / 0x4000_0000;
    match ps
    case Small => DivModUnique(x, 0x1000, q * 0x4_0000, 0);
    case Large => DivModUnique(x, 0x20_0000, q * 0x200, 0);
    case Huge =>
  }

  /** In an aligned space, rounding down stays inside. */
  lemma FloorInSpace(space: Space, r: Range, ps: PageSize)
    requires space.PageAligned() && space.Contains(r)
    ensures AlignFloor(space, r.base, ps.Bytes()) == Some(r.base - r.base % ps.Bytes())
  {
    HugeIsMultiple(space.start, ps);
    FloorAtLeast(space.start, r.base, ps.Bytes());
  }

  // ---------------------------------------------------------------- PageSize::fit

  const VARIANTS: seq<PageSize> := [Small, Large, Huge]

  /** `usize::BITS - x.leading_zeros()`. */
  function BitLength(x: nat): nat {
    if x == 0 then 0 else Log2(x) + 1
  }

  /** The page size picked for a padded layout size. */
  method Fit(size: nat) returns (r: Option<PageSize>)
    ensures r == Fitting(size)
  {
    FitByOrder(size);
    var alignOrder := BitLength(size);
    var cur := 0;
    while cur < |VARIANTS|
      invariant cur <= |VARIANTS|
      invariant cur > 0 ==> size >= Small.Bytes()
      invariant cur > 1 ==> size >= Large.Bytes()
      invariant cur > 2 ==> size >= Huge.Bytes()
    {
      if alignOrder <= VARIANTS[cur].Order() {
        return Some(VARIANTS[cur]);
      }
      cur := cur + 1;
    }
    return None;
  }

  /** The smallest page strictly larger than `size`. */
  function Fitting(size: nat): Option<PageSize> {
    if size < Small.Bytes() then Some(Small)
    else if size < Large.Bytes() then Some(Large)
    else if size < Huge.Bytes() then Some(Huge)
    else None
  }

  /** The smallest page that holds `size` bytes. */
  function Holding(size: nat): Option<PageSize> {
    if size <= Small.Bytes() then Some(Small)
    else if size <= Large.Bytes() then Some(Large)
    else if size <= Huge.Bytes() then Some(Huge)
    else None
  }

  lemma BytesArePow2(ps: PageSize)
    ensures ps.Bytes() == Pow2(ps.Order())
  {
    Pow2Values();
  }

  lemma FitByOrder(size: nat)
    ensures forall ps: PageSize :: BitLength(size) <= ps.Order() <==> size < ps.Bytes()
  {
    if size > 0 {
      forall ps: PageSize
        ensures BitLength(size) <= ps.Order() <==> size < ps.Bytes()
      {
        BytesArePow2(ps);
        if Log2(size) + 1 <= ps.Order() {
          Pow2Monotone(Log2(size) + 1, ps.Order());
        } else {
          Pow2Monotone(ps.Order(), Log2(size));
        }
      }
    }
  }

  /** The fitting page is the smallest that holds the size, except for sizes that are themselves a page. */
  lemma FitIsSmallest(size: nat)
    ensures Fitting(size) == Holding(size) <==> size != Small.Bytes() && size != Large.Bytes() && size != Huge.Bytes()
  {
  }
}
