/** The record of all physical frames: which are free, and the order of each block handed out. */
module PhysicalMemory {
  import opened Options
  import opened Bits
  import opened AddrRange
  import opened Forest
  import opened BuddyForest
  import opened Buddy
  import BuddyTree
  import BootMemory

  const FRAME_ORDER: nat := 12
  const FRAME_SIZE: nat := 0x1000

  /** The first frame of a block. */
  function First(b: Block): nat {
    Shl(b.num, b.order)
  }

  /** `page_size.usize() / FRAME_SIZE`. */
  function FramesPer(ps: PageSize): nat {
    ps.Bytes() / FRAME_SIZE
  }

  /** The order of the block reserved for `cnt` pages. */
  function AllocOrder(cnt: nat, ps: PageSize): (o: nat)
    ensures cnt * FramesPer(ps) <= Pow2(o)
  {
    Log2(NextPow2(cnt * FramesPer(ps)))
  }

  /** No smaller order holds the pages. */
  lemma AllocIsSmallest(cnt: nat, ps: PageSize, k: nat)
    requires k < AllocOrder(cnt, ps)
    ensures Pow2(k) < cnt * FramesPer(ps)
  {
    NextIsSmallest(cnt * FramesPer(ps), k);
  }

  /** The pages reported cover the whole block and are at least as many as requested. */
  lemma EnoughPages(cnt: nat, ps: PageSize)
    requires cnt > 0
    ensures var len := Shr(NextPow2(cnt * FramesPer(ps)), ps.Order() - FRAME_ORDER);
            len >= cnt && len * FramesPer(ps) == Pow2(AllocOrder(cnt, ps))
  {
    var o, e := AllocOrder(cnt, ps), ps.Order() - FRAME_ORDER;
    FramesPerPow2(ps);
    ShlIsMul(cnt, e);
    OrderAtLeast(cnt, e, o);
    ShlPow2(o - e, e);
    ShrShl(Pow2(o - e), e);
    ShlCancel(cnt, Pow2(o - e), e);
    ShlIsMul(Pow2(o - e), e);
  }

  lemma FramesPerPow2(ps: PageSize)
    ensures FramesPer(ps) == Pow2(ps.Order() - FRAME_ORDER)
  {
    Pow2Values();
  }

  lemma OrderAtLeast(cnt: nat, e: nat, o: nat)
    requires cnt > 0 && Shl(cnt, e) <= Pow2(o)
    ensures e <= o
  {
    ShlMonotone(1, cnt, e);
    ShlPow2(0, e);
    if o < e {
      Pow2Strict(o, e);
    }
  }

  predicate PageAligned(addr: nat, ps: PageSize) {
    addr % ps.Bytes() == 0
  }

  /** Frames of a record that starts at a frame are frame-aligned. */
  lemma FrameAligned(base: nat, f: nat)
    requires base % FRAME_SIZE == 0
    ensures PageAligned(base + f * FRAME_SIZE, Small)
  {
  }

  /** A block reserved for `cnt` pages starts at a page boundary exactly when the record does. */
  lemma AlignedLikeBase(base: nat, cnt: nat, ps: PageSize, b: Block)
    requires cnt > 0 && b.order == AllocOrder(cnt, ps)
    ensures PageAligned(base + First(b) * FRAME_SIZE, ps) <==> PageAligned(base, ps)
  {
    var e := ps.Order() - FRAME_ORDER;
    FramesPerPow2(ps);
    ShlIsMul(cnt, e);
    OrderAtLeast(cnt, e, b.order);
    ShlShl(b.num, b.order - e, e);
    var k := Shl(b.num, b.order - e);
    ShlIsMul(k, e);
    ScalePages(First(b), k, ps);
    AddMultiple(base, k, ps.Bytes());
  }

  lemma ScalePages(f: nat, k: nat, ps: PageSize)
    requires f == k * FramesPer(ps)
    ensures f * FRAME_SIZE == k * ps.Bytes()
  {
    BytesInFrames(ps);
    MulAssoc(k, FramesPer(ps), FRAME_SIZE);
  }

  lemma BytesInFrames(ps: PageSize)
    ensures FramesPer(ps) * FRAME_SIZE == ps.Bytes()
  {
  }

  lemma MulAssoc(a: nat, b: nat, c: nat)
    ensures a * b * c == a * (b * c)
  {
  }

  lemma AddMultiple(x: nat, k: nat, m: nat)
    requires m > 0
    ensures (x + k * m) % m == x % m
  {
    var q := x / m;
    assert x + k * m == (q + k) * m + x % m;
    DivModUnique(x + k * m, m, q + k, x % m);
  }

  datatype AllocResult = NoMemory | Panic | Pages(base: nat, pageSize: PageSize, len: nat) {
    /** The byte belongs to one of the pages. */
    predicate Has(a: nat) {
      Pages? && base <= a < base + len * pageSize.Bytes()
    }
  }

  /** The byte belongs to a frame of the block, counted from `base`. */
  predicate InBlock(base: nat, b: Block, a: nat) {
    a >= base && (a - base) / FRAME_SIZE in Frames(b)
  }

  /** The bytes of a block are consecutive. */
  lemma BlockBytes(base: nat, b: Block, a: nat)
    ensures InBlock(base, b, a) <==>
            base + First(b) * FRAME_SIZE <= a < base + First(b) * FRAME_SIZE + Pow2(b.order) * FRAME_SIZE
  {
    ShlAdd(b.num, 1, b.order);
    ShlPow2(0, b.order);
  }

  /** Pages of the requested size whose bytes are exactly those of the block. */
  ghost predicate Reports(r: AllocResult, base: nat, b: Block, ps: PageSize) {
    r.Pages? && r.pageSize == ps && forall a: nat :: r.Has(a) <==> InBlock(base, b, a)
  }

  /** The range reported for a block; a base outside the address space or not on a page boundary is a panic. */
  function PagesAt(base: nat, first: nat, cnt: nat, ps: PageSize): AllocResult {
    var addr := base + first * FRAME_SIZE;
    if addr >= BootMemory.UMA_END || !PageAligned(addr, ps) then Panic
    else Pages(addr, ps, Shr(NextPow2(cnt * FramesPer(ps)), ps.Order() - FRAME_ORDER))
  }

  /**
   What a caller gets: for one page or more, a panic exactly when the record does not start at such
   a page, or when the block starts outside the address space, which no block of a record does;
   otherwise the whole block, at least as long as requested.
   */
  lemma PagesAtExact(base: nat, cnt: nat, ps: PageSize, b: Block)
    requires b.order == AllocOrder(cnt, ps)
    ensures var r := PagesAt(base, First(b), cnt, ps);
            && (cnt > 0 ==>
                  (r.Panic? <==> !PageAligned(base, ps) || base + First(b) * FRAME_SIZE >= BootMemory.UMA_END))
            && (r.Pages? && cnt > 0 ==> r.len >= cnt && r.len * FramesPer(ps) == Pow2(b.order))
  {
    if cnt > 0 {
      AlignedLikeBase(base, cnt, ps, b);
      EnoughPages(cnt, ps);
    }
  }

  /** Apart from a panic, the bytes reported are exactly those of the block. */
  lemma PagesAtBytes(base: nat, cnt: nat, ps: PageSize, b: Block)
    requires b.order == AllocOrder(cnt, ps) && (cnt > 0 || ps.Small?)
    ensures var r := PagesAt(base, First(b), cnt, ps);
            !r.Panic? ==> Reports(r, base, b, ps)
  {
    var r := PagesAt(base, First(b), cnt, ps);
    if r.Pages? {
      if cnt > 0 { EnoughPages(cnt, ps); }
      ScalePages(Pow2(b.order), r.len, ps);
      forall a: nat
        ensures r.Has(a) <==> InBlock(base, b, a)
      {
        BlockBytes(base, b, a);
      }
    }
  }

  /** Small pages never panic. */
  lemma SmallPagesAt(base: nat, cnt: nat, b: Block)
    requires base % FRAME_SIZE == 0 && b.order == AllocOrder(cnt, Small)
    requires base + First(b) * FRAME_SIZE < BootMemory.UMA_END
    ensures PagesAt(base, First(b), cnt, Small) == Pages(base + First(b) * FRAME_SIZE, Small, Pow2(b.order))
    ensures cnt <= Pow2(b.order)
  {
    FrameAligned(base, First(b));
  }

  /**
   A frame for a page table: the layout of a small page is answered with a large page, although a small one holds it.
   Each table takes 512 frames, and the request panics exactly if the record does not start at a multiple of 2 MiB.
   */
  lemma TableTakesLargePage(base: nat, b: Block)
    requires b.order == AllocOrder(1, Large) && base + First(b) * FRAME_SIZE < BootMemory.UMA_END
    ensures Fitting(Small.Bytes()) == Some(Large) && Holding(Small.Bytes()) == Some(Small)
    ensures b.order == 9 && Pow2(b.order) == 512
    ensures PagesAt(base, First(b), 1, Large).Panic? <==> base % 0x20_0000 != 0
  {
    PagesAtExact(base, 1, Large, b);
    FramesPerPow2(Large);
    NextOfPow2(Large.Order() - FRAME_ORDER);
    Pow2Values();
  }

  /** The order stored for every held block is the order it was reserved with. */
  ghost predicate OrdersMatch(held: set<Block>, orders: seq<Byte>) {
    forall b | b in held :: First(b) < |orders| && orders[First(b)] == b.order
  }

  lemma OrdersMatchTake(held: set<Block>, orders: seq<Byte>, b: Block)
    requires OrdersMatch(held, orders) && First(b) < |orders| && b.order < 256
    requires forall c | c in held :: Frames(c) !! Frames(b)
    ensures OrdersMatch(held + {b}, orders[First(b) := b.order])
  {
    BlockStart(b);
    forall c | c in held
      ensures First(c) != First(b)
    {
      BlockStart(c);
    }
  }

  lemma OrdersMatchDrop(held: set<Block>, orders: seq<Byte>, b: Block)
    requires OrdersMatch(held, orders) && b in held
    requires forall c | c in held && c != b :: Frames(c) !! Frames(b)
    ensures OrdersMatch(held - {b}, orders[First(b) := 0])
  {
    BlockStart(b);
    forall c | c in held - {b}
      ensures First(c) != First(b)
    {
      BlockStart(c);
    }
  }

  lemma HeldFacts(trees: seq<BuddyTree.Tree>, md: nat, held: set<Block>, managed: set<nat>, b: Block)
    requires Consistent(trees, md, held, managed) && b in held
    ensures First(b) in managed && InRange(|trees|, md, b)
    ensures forall c | c in held && c != b :: Frames(c) !! Frames(b)
  {
    BlockStart(b);
    assert First(b) in HeldFrames(held);
    HeldBlocksApart(trees, md, held, managed, b);
  }

  lemma BlockAround(cnt: nat, md: nat, idx: nat, order: nat)
    requires order <= md && idx < Shl(cnt, md)
    ensures InRange(cnt, md, Block(order, Shr(idx, order)))
  {
    ShrBrackets(idx, order);
    ShlShl(cnt, md - order, order);
    if Shr(idx, order) >= Shl(cnt, md - order) {
      ShlMonotone(Shl(cnt, md - order), Shr(idx, order), order);
    }
  }

  /** The double-free assertion sees a non-zero byte at the leaf of a free frame. */
  lemma ReturnedByte(b: seq<Byte>, cnt: nat, md: nat, f: nat)
    requires WellFormed(Trees(b, cnt, md), md) && f in FreeFrames(Trees(b, cnt, md), md)
    ensures Val(b, cnt, NodeOf(cnt, md, Block(0, Shr(f, 0)))) == 1
  {
    FreeFrameByte(b, cnt, md, f);
  }

  class PhysicalMemoryRecord {
    const frames: array<Byte>
    const base: nat
    const buddy: BuddySystem

    ghost predicate Valid()
      reads buddy, buddy.forest.buf, frames
    {
      && frames != buddy.forest.buf
      && base % FRAME_SIZE == 0 && base + frames.Length * FRAME_SIZE <= BootMemory.UMA_END
      && buddy.Valid()
      && frames.Length <= Shl(buddy.forest.treeCnt, buddy.maxOrder)
      && (forall f | f in buddy.managed :: f < frames.Length)
      && OrdersMatch(buddy.held, frames[..])
    }

    constructor (frames: array<Byte>, base: nat, buddy: BuddySystem)
      ensures this.frames == frames && this.base == base && this.buddy == buddy
    {
      this.frames, this.base, this.buddy := frames, base, buddy;
    }

    /** Index of the frame that contains an address. */
    function FrameIdx(addr: nat): (idx: Option<nat>)
      reads frames
    {
      if addr < base then None
      else
        var i := Shr(addr - base, FRAME_ORDER);
        if i < frames.Length then Some(i) else None
    }

    /** No block of the order can be reserved: there is no such order, or no tree has a larger free block. */
    ghost predicate OutOf(order: nat)
      reads buddy.forest.buf
    {
      order <= buddy.maxOrder ==> NoneFits(buddy.State(), buddy.maxOrder, order)
    }

    /** Reserves a block and notes its order in its first frame. */
    method TakeBlock(order: nat) returns (idx: Option<nat>, ghost blk: Block)
      requires Valid() && order <= buddy.maxOrder
      modifies buddy`held, buddy.forest.buf, frames
      ensures Valid()
      ensures idx.None? ==>
                && buddy.held == old(buddy.held) && buddy.State() == old(buddy.State())
                && NoneFits(buddy.State(), buddy.maxOrder, order) && frames[..] == old(frames[..])
      ensures idx.Some? ==>
                && blk.order == order && idx.value == First(blk) < frames.Length
                && blk !in old(buddy.held) && buddy.held == old(buddy.held) + {blk}
                && (forall c | c in old(buddy.held) :: Frames(c) !! Frames(blk))
                && FirstFit(old(buddy.State()), buddy.maxOrder, blk)
                && Shifted(old(buddy.State()), buddy.State(), buddy.maxOrder, blk, false)
                && frames[..] == old(frames[..])[idx.value := order]
    {
      ghost var held := buddy.held;
      idx, blk := buddy.Reserve(order);
      if idx.Some? {
        HeldFacts(buddy.State(), buddy.maxOrder, buddy.held, buddy.managed, blk);
        OrdersMatchTake(held, frames[..], blk);
        frames[idx.value] := order;
      }
    }

    /** Hands out at least `cnt` pages as one block of frames. */
    method AllocatePages(cnt: nat, pageSize: PageSize) returns (r: AllocResult, ghost blk: Block)
      requires Valid()
      modifies buddy`held, buddy.forest.buf, frames
      ensures Valid()
      ensures r.NoMemory? ==>
                && buddy.held == old(buddy.held) && buddy.State() == old(buddy.State())
                && OutOf(AllocOrder(cnt, pageSize)) && frames[..] == old(frames[..])
      ensures !r.NoMemory? ==>
                && blk.order == AllocOrder(cnt, pageSize) && FirstFit(old(buddy.State()), buddy.maxOrder, blk)
                && blk !in old(buddy.held) && buddy.held == old(buddy.held) + {blk}
                && (forall c | c in old(buddy.held) :: Frames(c) !! Frames(blk))
                && r == PagesAt(base, First(blk), cnt, pageSize) && base + First(blk) * FRAME_SIZE < BootMemory.UMA_END
                && (cnt > 0 ==> (r.Panic? <==> !PageAligned(base, pageSize)))
                && (r.Panic? || Reports(r, base, blk, pageSize) || (cnt == 0 && !pageSize.Small?))
                && (forall c, a: nat | c in old(buddy.held) && r.Has(a) && cnt > 0 :: !InBlock(base, c, a))
                && Shifted(old(buddy.State()), buddy.State(), buddy.maxOrder, blk, false)
                && First(blk) < frames.Length && frames[..] == old(frames[..])[First(blk) := blk.order]
    {
      var order := AllocOrder(cnt, pageSize);
      if order > buddy.maxOrder {
        return NoMemory, Block(0, 0);
      }
      var idx;
      idx, blk := TakeBlock(order);
      if idx.None? {
        return NoMemory, blk;
      }
      PagesAtExact(base, cnt, pageSize, blk);
      if cnt > 0 || pageSize.Small? { PagesAtBytes(base, cnt, pageSize, blk); }
      r := PagesAt(base, idx.value, cnt, pageSize);
    }

    /** One page for a layout of a padded size: the smallest page strictly larger than it. */
    method Allocate(size: nat) returns (r: AllocResult, ghost blk: Block)
      requires Valid()
      modifies buddy`held, buddy.forest.buf, frames
      ensures Valid()
      ensures Fitting(size).None? ==> r.NoMemory?
      ensures r.NoMemory? ==>
                && buddy.held == old(buddy.held) && buddy.State() == old(buddy.State())
                && frames[..] == old(frames[..])
      ensures r.NoMemory? && Fitting(size).Some? ==> OutOf(AllocOrder(1, Fitting(size).value))
      ensures !r.NoMemory? ==>
                && Fitting(size).Some? && blk.order == AllocOrder(1, Fitting(size).value)
                && blk !in old(buddy.held) && buddy.held == old(buddy.held) + {blk}
                && FirstFit(old(buddy.State()), buddy.maxOrder, blk)
                && (r.Panic? <==> !PageAligned(base, Fitting(size).value))
                && (r.Pages? <==> Reports(r, base, blk, Fitting(size).value))
                && (forall c, a: nat | c in old(buddy.held) && r.Has(a) :: !InBlock(base, c, a))
                && Shifted(old(buddy.State()), buddy.State(), buddy.maxOrder, blk, false)
                && First(blk) < frames.Length && frames[..] == old(frames[..])[First(blk) := blk.order]
    {
      var page := Fit(size);
      if page.None? {
        return NoMemory, Block(0, 0);
      }
      r, blk := AllocatePages(1, page.value);
    }

    /** The frame is free and carries no order, as `DeallocatePages` leaves the first frame of a block. */
    ghost predicate Returned(f: nat)
      requires Valid()
      reads buddy, buddy.forest.buf, frames
    {
      f < frames.Length && frames[f] == 0 && f in FreeFrames(buddy.State(), buddy.maxOrder)
    }

    /** Takes back the block that starts at a frame. `ok` is false on a panic. */
    method ReturnBlock(idx: nat, ghost b: Block) returns (ok: bool)
      requires Valid() && idx < frames.Length
      modifies buddy`held, buddy`managed, buddy.forest.buf, frames
      ensures old(b in buddy.held) && First(b) == idx ==>
                && ok && Valid() && buddy.held == old(buddy.held) - {b} && buddy.managed == old(buddy.managed)
                && Returned(idx) && Shifted(old(buddy.State()), buddy.State(), buddy.maxOrder, b, true)
      ensures frames[..] == if ok then old(frames[..])[idx := 0] else old(frames[..])
      ensures old(Returned(idx)) ==>
                !ok && Valid() && buddy.held == old(buddy.held) && buddy.managed == old(buddy.managed) && Returned(idx)
    {
      var order := frames[idx];
      ghost var live, held := b in buddy.held && First(b) == idx, buddy.held;
      if live { ShrShl(b.num, b.order); HeldFacts(buddy.State(), buddy.maxOrder, held, buddy.managed, b); }
      if Returned(idx) { ReturnedByte(buddy.forest.buf[..], buddy.forest.treeCnt, buddy.maxOrder, idx); }
      if order > buddy.maxOrder {
        return false;
      }
      BlockAround(buddy.forest.treeCnt, buddy.maxOrder, idx, order);
      ok := buddy.Free(idx, order);
      if ok {
        if live { OrdersMatchDrop(held, frames[..], b); BlockStart(b); }
        frames[idx] := 0;
      }
    }

    /** Takes back the pages at an address. `ok` is false on a panic: bad address, bad order or double free. */
    method DeallocatePages(addr: nat, ghost f: nat, ghost b: Block) returns (ok: bool)
      requires Valid() && (f < frames.Length ==> addr == base + f * FRAME_SIZE)
      modifies buddy`held, buddy`managed, buddy.forest.buf, frames
      ensures old(b in buddy.held) && First(b) == f ==>
                && ok && Valid() && buddy.held == old(buddy.held) - {b} && buddy.managed == old(buddy.managed)
                && Returned(f) && Shifted(old(buddy.State()), buddy.State(), buddy.maxOrder, b, true)
      ensures f < frames.Length ==> frames[..] == if ok then old(frames[..])[f := 0] else old(frames[..])
      ensures old(Returned(f)) ==>
                !ok && Valid() && buddy.held == old(buddy.held) && buddy.managed == old(buddy.managed) && Returned(f)
    {
      if f < frames.Length { FrameOfAddress(addr, f); }
      if b in buddy.held { HeldFacts(buddy.State(), buddy.maxOrder, buddy.held, buddy.managed, b); }
      var idx := FrameIdx(addr);
      if idx.None? {
        return false;
      }
      ok := ReturnBlock(idx.value, b);
    }

    /** The frame index of an address is the frame that holds it, and none exactly outside the frames of the record. */
    lemma FrameOfAddress(addr: nat, f: nat)
      ensures FrameIdx(addr) == Some(f) <==>
              f < frames.Length && base + f * FRAME_SIZE <= addr < base + (f + 1) * FRAME_SIZE
      ensures FrameIdx(addr).None? <==> addr < base || base + frames.Length * FRAME_SIZE <= addr
    {
      if addr >= base {
        Pow2Values();
        var x := addr - base;
        ShrBrackets(x, FRAME_ORDER);
        ShlIsMul(Shr(x, FRAME_ORDER), FRAME_ORDER);
        ShlIsMul(Shr(x, FRAME_ORDER) + 1, FRAME_ORDER);
      }
    }
  }
}
