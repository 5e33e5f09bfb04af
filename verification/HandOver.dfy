/** The hand-over from the boot allocator to the record of physical frames. */
module HandOver {
  import opened Options
  import opened Bits
  import opened Memblock
  import opened AlignedSplit
  import AddrRange
  import BuddyTree
  import opened BuddyForest
  import opened Buddy
  import opened FreePieces
  import Forest
  import opened PhysicalMemory
  import opened BootMemory

  /** The largest order in bytes that a free extent is cut into. */
  const MAX_SPLIT: nat := BUDDY_MAX_ORDER + FRAME_ORDER

  // ---------------------------------------------------------------- frames of an extent

  /** Frame `f`, counted from `base`, lies inside the extent. */
  predicate IsWhole(b: Memblock, base: nat, f: nat) {
    b.base <= base + f * FRAME_SIZE && base + (f + 1) * FRAME_SIZE <= b.End()
  }

  predicate WholeInSome(s: seq<Memblock>, base: nat, f: nat) {
    exists i :: 0 <= i < |s| && IsWhole(s[i], base, f)
  }

  /** The frames below `len` that lie inside an extent of the list. */
  function WholeFrames(s: seq<Memblock>, base: nat, len: nat): set<nat> {
    set f: nat | f < len && WholeInSome(s, base, f)
  }

  predicate InSpan(start: nat, n: nat, f: nat) {
    start <= f < start + n
  }

  function Span(start: nat, n: nat): set<nat> {
    set f: nat | f < start + n && InSpan(start, n, f)
  }

  /** The first frame that an extent is cut up from, with the start rounded up. */
  function FirstFrame(b: Memblock, base: nat): nat
    requires base <= b.base
  {
    (NextMultiple(b.base, FRAME_SIZE) - base) / FRAME_SIZE
  }

  /** The number of frames it is cut into, with the length rounded down. */
  function FrameCount(b: Memblock): nat {
    b.size / FRAME_SIZE
  }

  /** Rounding up the start takes no more than rounding down the length leaves. */
  predicate StaysInside(b: Memblock) {
    NextMultiple(b.base, FRAME_SIZE) - b.base <= b.size % FRAME_SIZE
  }

  /** The first frame is a multiple of the largest piece that the extent is cut into. */
  predicate OnPiece(b: Memblock, base: nat)
    requires base <= b.base && b.size >= FRAME_SIZE
  {
    MultipleOf(FirstFrame(b, base), CutOrder(FrameCount(b), BUDDY_MAX_ORDER))
  }

  /** An extent that the hand-over treats correctly. */
  predicate Eligible(b: Memblock, base: nat) {
    b.size >= FRAME_SIZE && base <= b.base ==> StaysInside(b) && OnPiece(b, base)
  }

  predicate AllEligible(s: seq<Memblock>, base: nat) {
    forall i | 0 <= i < |s| :: Eligible(s[i], base)
  }

  /** An extent with room for a frame lies in the managed frames. */
  predicate InManaged(b: Memblock, base: nat, len: nat) {
    b.size >= FRAME_SIZE ==> base <= b.base && b.End() <= base + len * FRAME_SIZE
  }

  /** The order in bytes of the next piece of `n` frames. */
  function PieceBytes(n: nat, cap: nat): nat
    requires n > 0
  {
    Greedy(n * FRAME_SIZE, cap + FRAME_ORDER)
  }

  lemma MultipleSum(x: nat, y: nat, k: nat)
    requires MultipleOf(x, k) && MultipleOf(y, k)
    ensures MultipleOf(x + y, k)
  {
    ShlAdd(Shr(x, k), Shr(y, k), k);
    MultipleIntro(Shr(x, k) + Shr(y, k), k);
  }

  /** Byte pieces of at least a frame, in frames. */
  lemma PieceInFrames(offset: nat, k: nat)
    requires k >= FRAME_ORDER && MultipleOf(offset * FRAME_SIZE, k)
    ensures Pow2(k) == Pow2(k - FRAME_ORDER) * FRAME_SIZE
    ensures MultipleOf(offset, k - FRAME_ORDER)
  {
    Pow2Values();
    Pow2Add(k - FRAME_ORDER, FRAME_ORDER);
    var q := Shr(offset * FRAME_SIZE, k);
    ShlShl(q, k - FRAME_ORDER, FRAME_ORDER);
    ShlIsMul(Shl(q, k - FRAME_ORDER), FRAME_ORDER);
    MultipleIntro(q, k - FRAME_ORDER);
  }

  /** `size.trailing_zeros()` of a piece is its order. */
  lemma {:induction false} PieceOrder(k: nat)
    ensures TrailingZeros(Pow2(k)) == k
  {
    if k > 0 {
      PieceOrder(k - 1);
    }
  }

  /** The frames of a block that starts at `idx` are consecutive. */
  lemma BlockSpan(idx: nat, order: nat)
    requires MultipleOf(idx, order)
    ensures Frames(Block(order, Shr(idx, order))) == Span(idx, Pow2(order))
  {
    ShlAdd(Shr(idx, order), 1, order);
    ShlPow2(0, order);
  }

  lemma SpanAdd(start: nat, n: nat, m: nat)
    ensures Span(start, n) + Span(start + n, m) == Span(start, n + m)
  {
  }

  /** Every piece of an extent in the managed frames has an order that the buddy system accepts. */
  lemma PieceLegal(order: nat, len: nat)
    requires order <= BUDDY_MAX_ORDER && Pow2(order) <= len
    ensures order <= Buddy.OrderFor(len)
  {
    if Buddy.OrderFor(len) < order {
      Pow2Strict(Buddy.OrderFor(len), order);
    }
  }

  /** A piece: its order and its end, in frames, and its place relative to the start of the extent. */
  lemma PieceFacts(total: nat, offset: nat, cap: nat)
    requires offset < total && MultipleOf(offset * FRAME_SIZE, PieceBytes(total - offset, cap))
    ensures var k := CutOrder(total - offset, cap);
            && PieceBytes(total - offset, cap) == k + FRAME_ORDER && k <= CutOrder(total, cap)
            && Pow2(k + FRAME_ORDER) == Pow2(k) * FRAME_SIZE
            && MultipleOf(offset, k)
  {
    PieceIsCut(total - offset, cap);
    CutSmaller(total - offset, total, cap);
    PieceInFrames(offset, PieceBytes(total - offset, cap));
  }

  /** The next piece is the largest block that the frames have room for. */
  lemma PieceIsCut(n: nat, cap: nat)
    requires n > 0
    ensures PieceBytes(n, cap) == CutOrder(n, cap) + FRAME_ORDER
  {
    Pow2Values();
    Pow2Add(Log2(n), FRAME_ORDER);
    Pow2Add(Log2(n) + 1, FRAME_ORDER);
    Log2Unique(n * FRAME_SIZE, Log2(n) + FRAME_ORDER);
  }

  /** The range that is cut up, in frames. It may stick out of the extent, but not out of the managed frames. */
  lemma TrimmedFrames(b: Memblock, base: nat, len: nat)
    requires InManaged(b, base, len) && base % FRAME_SIZE == 0 && base + len * FRAME_SIZE <= UMA_END
    ensures b.size < FRAME_SIZE ==> Trimmed(b, FRAME_ORDER).size == 0
    ensures b.size >= FRAME_SIZE ==>
              && Trimmed(b, FRAME_ORDER) ==
                 Memblock(base + FirstFrame(b, base) * FRAME_SIZE, FrameCount(b) * FRAME_SIZE)
              && FirstFrame(b, base) + FrameCount(b) <= len && FrameCount(b) > 0
  {
    Pow2Values();
    if NextMultiple(b.base, FRAME_SIZE) < UMA_END {
      TrimmedSize(b, FRAME_ORDER);
    }
    if b.size >= FRAME_SIZE {
      StartInFrames(b, base, len);
    }
  }

  lemma StartInFrames(b: Memblock, base: nat, len: nat)
    requires b.size >= FRAME_SIZE && InManaged(b, base, len) && base % FRAME_SIZE == 0 &&
             base + len * FRAME_SIZE <= UMA_END
    ensures NextMultiple(b.base, FRAME_SIZE) == base + FirstFrame(b, base) * FRAME_SIZE < UMA_END
    ensures b.size - b.size % FRAME_SIZE == FrameCount(b) * FRAME_SIZE
    ensures FirstFrame(b, base) + FrameCount(b) <= len && FrameCount(b) > 0
  {
    NextIsMultiple(b.base, FRAME_SIZE);
  }

  lemma SmallEnough(size: nat)
    requires 0 < size <= UMA_END
    ensures Log2(size) < 64
  {
    Pow2Values();
    Pow2Add(30, 17);
    Pow2Add(9, 8);
    if Log2(size) >= 47 {
      Pow2Monotone(47, Log2(size));
    }
  }

  /** Everything `FreeForced` demands of a piece. */
  predicate PieceReady(start: nat, done: nat, total: nat, len: nat, order: nat) {
    && order <= Buddy.OrderFor(len)
    && start + done + Pow2(order) <= Shl(TreesFor(len), Buddy.OrderFor(len))
    && done + Pow2(order) <= total
  }

  /** What a piece at a multiple of its size adds. */
  predicate PieceAdds(start: nat, done: nat, order: nat) {
    && MultipleOf(start + done, order)
    && Span(start, done) + Frames(Block(order, Shr(start + done, order))) == Span(start, done + Pow2(order))
  }

  lemma NextPieceReady(start: nat, done: nat, total: nat, cap: nat, len: nat)
    requires done < total && start + total <= len && cap <= BUDDY_MAX_ORDER
    requires MultipleOf(done * FRAME_SIZE, PieceBytes(total - done, cap))
    ensures var k, order := PieceBytes(total - done, cap), CutOrder(total - done, cap);
            && k == order + FRAME_ORDER && Pow2(k) == Pow2(order) * FRAME_SIZE && TrailingZeros(Pow2(k)) == k
            && PieceReady(start, done, total, len, order)
            && order <= CutOrder(total, cap) && MultipleOf(done, order)
  {
    var order := CutOrder(total - done, cap);
    PieceFacts(total, done, cap);
    PieceOrder(order + FRAME_ORDER);
    TreesSuffice(len);
    PieceLegal(order, len);
  }

  lemma AlignedPieceAdds(start: nat, done: nat, order: nat, largest: nat)
    requires order <= largest && MultipleOf(done, order) && MultipleOf(start, largest)
    ensures PieceAdds(start, done, order)
  {
    MultipleSmaller(start, largest, order);
    MultipleSum(start, done, order);
    BlockSpan(start + done, order);
    SpanAdd(start, done, Pow2(order));
  }

  /** The iterator stands `done` frames into an extent of `total` frames from frame `start` on. */
  ghost predicate Cutting(it: SplitIter, base: nat, start: nat, done: nat, total: nat, cap: nat)
    reads it
  {
    && it.Valid() && it.maxOrder == cap + FRAME_ORDER && done <= total
    && it.block.base == base + start * FRAME_SIZE && it.block.size == total * FRAME_SIZE
    && it.offset == done * FRAME_SIZE
  }

  /** A piece in bytes, read in frames. */
  lemma PieceRead(piece: Memblock, next: nat, base: nat, start: nat, done: nat, total: nat, cap: nat, len: nat)
    requires done < total && start + total <= len && cap <= BUDDY_MAX_ORDER
    requires MultipleOf(done * FRAME_SIZE, PieceBytes(total - done, cap))
    requires piece == Memblock(base + start * FRAME_SIZE + done * FRAME_SIZE, Pow2(PieceBytes(total - done, cap)))
    requires next == done * FRAME_SIZE + Pow2(PieceBytes(total - done, cap))
    ensures var order := CutOrder(total - done, cap);
            && piece.base - base == (start + done) * FRAME_SIZE && TrailingZeros(piece.size) == order + FRAME_ORDER
            && next == (done + Pow2(order)) * FRAME_SIZE && PieceReady(start, done, total, len, order)
            && order <= CutOrder(total, cap) && MultipleOf(done, order)
  {
    NextPieceReady(start, done, total, cap, len);
  }

  /** The next piece, in frames: the index and the order that are computed for it. */
  method NextPiece(it: SplitIter, base: nat, ghost start: nat, ghost done: nat, ghost total: nat, ghost cap: nat,
                   ghost len: nat)
    returns (idx: nat, order: nat)
    requires Cutting(it, base, start, done, total, cap) && done < total && start + total <= len
    requires base % FRAME_SIZE == 0 && cap <= BUDDY_MAX_ORDER
    modifies it
    ensures idx == start + done && PieceReady(start, done, total, len, order) && order == CutOrder(total - done, cap)
    ensures Cutting(it, base, start, done + Pow2(order), total, cap)
    ensures order <= CutOrder(total, cap) && MultipleOf(done, order)
  {
    assert it.block.size - it.offset == (total - done) * FRAME_SIZE;
    var next := it.Next();
    var aligned := next.value;
    PieceRead(aligned, it.offset, base, start, done, total, cap, len);
    FrameIndex(aligned.base, base, start + done);
    assert aligned.base % FRAME_SIZE == 0;
    idx := (aligned.base - base) / FRAME_SIZE;
    order := TrailingZeros(aligned.size) - FRAME_ORDER;
  }

  lemma FrameIndex(addr: nat, base: nat, n: nat)
    requires addr == base + n * FRAME_SIZE && base % FRAME_SIZE == 0
    ensures (addr - base) / FRAME_SIZE == n && addr % FRAME_SIZE == 0
  {
  }

  function Grown(before: set<nat>, start: nat, n: nat): set<nat> {
    before + Span(start, n)
  }

  lemma SpanEmpty(before: set<nat>, start: nat)
    ensures before == Grown(before, start, 0)
  {
  }

  lemma SpanStep(managed: set<nat>, managed': set<nat>, before: set<nat>, start: nat, done: nat, order: nat, done': nat)
    requires PieceAdds(start, done, order) && done' == done + Pow2(order) && managed == Grown(before, start, done)
    requires managed' == managed + Frames(Block(order, Shr(start + done, order)))
    ensures managed' == Grown(before, start, done')
  {
  }

  /**
   * The system has the first `done` frames of an extent added to it, and nothing is handed out. Of all pieces it offers
   * those that the other frames are not cut into.
   */
  ghost predicate Added(buddy: BuddySystem, before: set<nat>, start: nat, done: nat, total: nat, cap: nat,
                        all: set<Block>)
    reads buddy, buddy.forest.buf
  {
    && buddy.Valid() && buddy.held == {} && buddy.managed == Grown(before, start, done) && done <= total
    && OffersAllBut(buddy.State(), buddy.maxOrder, all, start + done, total - done, cap)
  }

  ghost predicate SpoiledBelow(buddy: BuddySystem, bound: nat)
    reads buddy.forest.buf
  {
    Spoiled(buddy.forest.buf[..], buddy.forest.treeCnt, buddy.maxOrder, bound)
  }

  /** The first `done` frames of an extent are added to a system in order, or all of them spoil it. */
  ghost predicate Giving(buddy: BuddySystem, before: set<nat>, start: nat, done: nat, total: nat, cap: nat,
                         all: set<Block>, good: bool, bad: bool)
    reads buddy, buddy.forest.buf
  {
    && (good ==> Added(buddy, before, start, done, total, cap, all))
    && (bad ==> if done == 0 then start > 0 && buddy.LeafOf(start - 1) == 0 else SpoiledBelow(buddy, start + done))
  }

  /** Forces one piece free. */
  method GivePiece(buddy: BuddySystem, ghost before: set<nat>, ghost start: nat, ghost done: nat, ghost total: nat,
                   ghost cap: nat, ghost all: set<Block>, idx: nat, order: nat, ghost len: nat, ghost done': nat,
                   ghost good: bool, ghost bad: bool)
    requires buddy.Ready() && buddy.maxOrder == Buddy.OrderFor(len) && buddy.forest.treeCnt == TreesFor(len)
    requires idx == start + done && done < total && PieceReady(start, done, total, len, order)
    requires done' == done + Pow2(order)
    requires Giving(buddy, before, start, done, total, cap, all, good, bad) && order == CutOrder(total - done, cap)
    requires (good ==> PieceAdds(start, done, order)) && (bad && done == 0 ==> !MultipleOf(start, order))
    modifies buddy`managed, buddy.forest.buf
    ensures Giving(buddy, before, start, done', total, cap, all, good, bad)
    ensures KeptBelow(old(buddy.forest.buf[..]), buddy.forest.buf[..], buddy.forest.treeCnt, buddy.maxOrder, idx)
  {
    ghost var b0, managed, trees := buddy.forest.buf[..], buddy.managed, buddy.State();
    NothingHeld(Frames(Block(order, Shr(idx, order))));
    buddy.FreeForced(idx, order);
    if good { PieceAdded(buddy, trees, managed, before, start, done, total, cap, all, order, done'); }
    if bad { PieceSpoils(b0, buddy.forest.buf[..], buddy.forest.treeCnt, buddy.maxOrder, start, done, order, done'); }
  }

  lemma PieceAdded(buddy: BuddySystem, trees: seq<BuddyTree.Tree>, managed: set<nat>, before: set<nat>, start: nat,
                   done: nat, total: nat, cap: nat, all: set<Block>, order: nat, done': nat)
    requires done < total && order == CutOrder(total - done, cap) && done' == done + Pow2(order)
    requires PieceAdds(start, done, order) && managed == Grown(before, start, done)
    requires OffersAllBut(trees, buddy.maxOrder, all, start + done, total - done, cap)
    requires var b := Block(order, Shr(start + done, order));
             && buddy.Valid() && buddy.held == {} && buddy.managed == managed + Frames(b)
             && Shifted(trees, buddy.State(), buddy.maxOrder, b, true)
    ensures Added(buddy, before, start, done', total, cap, all)
  {
    OffersNext(trees, buddy.State(), buddy.maxOrder, all, start + done, total - done, cap, order, start + done',
      total - done');
    SpanStep(managed, buddy.managed, before, start, done, order, done');
  }

  lemma PieceSpoils(b: seq<Forest.Byte>, b': seq<Forest.Byte>, cnt: nat, md: nat, start: nat, done: nat, order: nat,
                    done': nat)
    requires done' == done + Pow2(order)
    requires order <= md && KeptBelow(b, b', cnt, md, start + done) && Misfilled(b, b', cnt, md, start + done, order)
    requires done == 0 ==> start > 0 && !MultipleOf(start, order)
    requires done == 0 ==> Forest.Val(b, cnt, NodeOf(cnt, md, Block(0, start - 1))) == 0
    requires done > 0 ==> Spoiled(b, cnt, md, start + done)
    ensures Spoiled(b', cnt, md, start + done')
  {
    if done > 0 {
      StaysSpoiled(b, b', cnt, md, start + done, order);
    } else {
      FirstPieceSpoils(b, b', cnt, md, start, order);
    }
  }

  lemma NothingHeld(frames: set<nat>)
    ensures frames !! HeldFrames({})
  {
  }

  lemma StaysSpoiled(b: seq<Forest.Byte>, b': seq<Forest.Byte>, cnt: nat, md: nat, idx: nat, order: nat)
    requires Spoiled(b, cnt, md, idx) && KeptBelow(b, b', cnt, md, idx)
    ensures Spoiled(b', cnt, md, idx + Pow2(order))
  {
    SpoiledKept(b, b', cnt, md, idx, idx);
    SpoiledLater(b', cnt, md, idx, idx + Pow2(order));
  }

  lemma SpoiledLater(b: seq<Forest.Byte>, cnt: nat, md: nat, bound: nat, later: nat)
    requires Spoiled(b, cnt, md, bound) && bound <= later
    ensures Spoiled(b, cnt, md, later)
  {
    var blk, g :| Overclaimed(b, cnt, md, blk, g) && EndsBy(blk, bound);
    assert EndsBy(blk, later);
  }

  lemma FirstPieceSpoils(b: seq<Forest.Byte>, b': seq<Forest.Byte>, cnt: nat, md: nat, start: nat, order: nat)
    requires start > 0 && order <= md && !MultipleOf(start, order) && Misfilled(b, b', cnt, md, start, order)
    requires Forest.Val(b, cnt, NodeOf(cnt, md, Block(0, start - 1))) == 0
    ensures Spoiled(b', cnt, md, start + Pow2(order))
  {
    assert Overclaimed(b', cnt, md, Block(order, Shr(start, order)), start - 1) by {
      ShrBrackets(start, order);
    }
    ShrBrackets(start, order);
    ShlAdd(Shr(start, order), 1, order);
    ShlPow2(0, order);
    assert EndsBy(Block(order, Shr(start, order)), start + Pow2(order));
  }

  /** Forces the next piece free, the largest that the frames after the first `done` have room for. */
  method GiveNextPiece(buddy: BuddySystem, it: SplitIter, base: nat, ghost len: nat, ghost before: set<nat>,
                       ghost start: nat, ghost done: nat, ghost total: nat, ghost cap: nat, ghost all: set<Block>,
                       ghost b0: seq<Forest.Byte>, ghost good: bool, ghost bad: bool)
    returns (ghost done': nat)
    requires buddy.Ready() && buddy.maxOrder == Buddy.OrderFor(len) && buddy.forest.treeCnt == TreesFor(len)
    requires Cutting(it, base, start, done, total, cap) && done < total && start + total <= len
    requires base % FRAME_SIZE == 0 && cap <= BUDDY_MAX_ORDER
    requires Giving(buddy, before, start, done, total, cap, all, good, bad)
    requires (good ==> MultipleOf(start, CutOrder(total, cap))) && (bad ==> !MultipleOf(start, CutOrder(total, cap)))
    requires KeptBelow(b0, buddy.forest.buf[..], buddy.forest.treeCnt, buddy.maxOrder, start)
    modifies buddy`managed, buddy.forest.buf, it
    ensures Cutting(it, base, start, done', total, cap) && done < done'
    ensures Giving(buddy, before, start, done', total, cap, all, good, bad)
    ensures KeptBelow(b0, buddy.forest.buf[..], buddy.forest.treeCnt, buddy.maxOrder, start)
  {
    var idx, order := NextPiece(it, base, start, done, total, cap, len);
    done' := done + Pow2(order);
    if good { AlignedPieceAdds(start, done, order, CutOrder(total, cap)); }
    ghost var b1 := buddy.forest.buf[..];
    GivePiece(buddy, before, start, done, total, cap, all, idx, order, len, done', good, bad);
    KeptTransitive(b0, b1, buddy.forest.buf[..], buddy.forest.treeCnt, buddy.maxOrder, start, idx);
  }

  /** Gives the frames of one extent, piece by piece. */
  method GivePieces(buddy: BuddySystem, it: SplitIter, base: nat, ghost len: nat, ghost start: nat, ghost total: nat,
                    ghost cap: nat, ghost all: set<Block>, ghost good: bool, ghost bad: bool)
    requires buddy.Ready() && buddy.maxOrder == Buddy.OrderFor(len) && buddy.forest.treeCnt == TreesFor(len)
    requires Cutting(it, base, start, 0, total, cap) && start + total <= len && total > 0
    requires base % FRAME_SIZE == 0 && cap <= BUDDY_MAX_ORDER
    requires Giving(buddy, buddy.managed, start, 0, total, cap, all, good, bad)
    requires (good ==> MultipleOf(start, CutOrder(total, cap))) && (bad ==> !MultipleOf(start, CutOrder(total, cap)))
    modifies buddy`managed, buddy.forest.buf, it
    ensures Giving(buddy, old(buddy.managed), start, total, total, cap, all, good, bad)
    ensures KeptBelow(old(buddy.forest.buf[..]), buddy.forest.buf[..], buddy.forest.treeCnt, buddy.maxOrder, start)
  {
    ghost var before, b0, cnt, md := buddy.managed, buddy.forest.buf[..], buddy.forest.treeCnt, buddy.maxOrder;
    ghost var done: nat := 0;
    while it.offset < it.block.size
      invariant Cutting(it, base, start, done, total, cap)
      invariant Giving(buddy, before, start, done, total, cap, all, good, bad)
      invariant KeptBelow(b0, buddy.forest.buf[..], cnt, md, start)
      decreases it.block.size - it.offset
    {
      done := GiveNextPiece(buddy, it, base, len, before, start, done, total, cap, all, b0, good, bad);
    }
    assert done == total;
  }

  /** The iterator over the pieces of an extent. */
  method CutUp(b: Memblock, base: nat, ghost len: nat) returns (it: SplitIter)
    requires base % FRAME_SIZE == 0 && base + len * FRAME_SIZE <= UMA_END && InManaged(b, base, len)
    ensures fresh(it) && (it.block.size > 0 <==> b.size >= FRAME_SIZE)
    ensures b.size >= FRAME_SIZE ==> Cutting(it, base, FirstFrame(b, base), 0, FrameCount(b), BUDDY_MAX_ORDER)
    ensures b.size >= FRAME_SIZE ==> FirstFrame(b, base) + FrameCount(b) <= len && FrameCount(b) > 0
  {
    TrimmedFrames(b, base, len);
    if Trimmed(b, FRAME_ORDER).size > 0 { SmallEnough(Trimmed(b, FRAME_ORDER).size); }
    it := new SplitIter(b, FRAME_ORDER, MAX_SPLIT);
  }

  /** The blocks that an extent is cut into. */
  function ExtentPieces(b: Memblock, base: nat, cap: nat): set<Block> {
    if b.size < FRAME_SIZE || b.base < base then {} else Pieces(FirstFrame(b, base), FrameCount(b), cap)
  }

  lemma NoPieces(gave: set<Block>, b: Memblock, base: nat, cap: nat)
    ensures b.size < FRAME_SIZE ==> gave + ExtentPieces(b, base, cap) == gave
  {
  }

  /** The whole extent is given; one without room for a frame changes nothing. */
  ghost predicate ExtentGiven(buddy: BuddySystem, before: set<nat>, b: Memblock, base: nat, all: set<Block>, good: bool,
                              bad: bool)
    requires b.size >= FRAME_SIZE ==> base <= b.base
    reads buddy, buddy.forest.buf
  {
    if b.size < FRAME_SIZE
    then
      good ==>
        && buddy.Valid() && buddy.held == {} && buddy.managed == before
        && Offers(buddy.State(), buddy.maxOrder, all)
    else Giving(buddy, before, FirstFrame(b, base), FrameCount(b), FrameCount(b), BUDDY_MAX_ORDER, all, good, bad)
  }

  lemma StartGiving(buddy: BuddySystem, start: nat, total: nat, cap: nat, gave: set<Block>, good: bool, bad: bool)
    requires good ==> buddy.Valid() && buddy.held == {} && Offers(buddy.State(), buddy.maxOrder, gave)
    requires good ==> AllEndBy(gave, start)
    requires bad ==> start > 0 && buddy.LeafOf(start - 1) == 0
    ensures Giving(buddy, buddy.managed, start, 0, total, cap, gave + Pieces(start, total, cap), good, bad)
  {
    SpanEmpty(buddy.managed, start);
    if good { OffersStart(buddy.State(), buddy.maxOrder, gave, start, total, cap); }
  }

  /** Gives the frames of one free extent to the buddy system. */
  method GiveExtent(buddy: BuddySystem, b: Memblock, base: nat, len: nat, ghost gave: set<Block>, ghost good: bool,
                    ghost bad: bool)
    requires buddy.Ready() && buddy.maxOrder == Buddy.OrderFor(len) && buddy.forest.treeCnt == TreesFor(len)
    requires base % FRAME_SIZE == 0 && base + len * FRAME_SIZE <= UMA_END && InManaged(b, base, len)
    requires good ==> buddy.Valid() && buddy.held == {} && (b.size >= FRAME_SIZE ==> OnPiece(b, base))
    requires good ==> Offers(buddy.State(), buddy.maxOrder, gave)
    requires good && b.size >= FRAME_SIZE ==> AllEndBy(gave, FirstFrame(b, base))
    requires bad ==> b.size >= FRAME_SIZE && !OnPiece(b, base)
    requires bad ==> FirstFrame(b, base) > 0 && buddy.LeafOf(FirstFrame(b, base) - 1) == 0
    modifies buddy`managed, buddy.forest.buf
    ensures ExtentGiven(buddy, old(buddy.managed), b, base, gave + ExtentPieces(b, base, BUDDY_MAX_ORDER), good, bad)
    ensures b.size < FRAME_SIZE ==> buddy.forest.buf[..] == old(buddy.forest.buf[..])
    ensures b.size >= FRAME_SIZE ==>
              KeptBelow(old(buddy.forest.buf[..]), buddy.forest.buf[..], buddy.forest.treeCnt, buddy.maxOrder,
                FirstFrame(b, base))
  {
    var it := CutUp(b, base, len);
    NoPieces(gave, b, base, BUDDY_MAX_ORDER);
    if it.block.size > 0 {
      ghost var start, total, all := FirstFrame(b, base), FrameCount(b), gave + ExtentPieces(b, base, BUDDY_MAX_ORDER);
      StartGiving(buddy, start, total, BUDDY_MAX_ORDER, gave, good, bad);
      GivePieces(buddy, it, base, len, start, total, BUDDY_MAX_ORDER, all, good, bad);
    }
  }

  // ---------------------------------------------------------------- the whole list

  /** Sorted, with a gap after every extent. */
  predicate Gapped(s: seq<Memblock>) {
    forall i, j | 0 <= i < j < |s| :: s[i].End() < s[j].base
  }

  /** A list of extents in the managed frames. */
  predicate Extents(s: seq<Memblock>, base: nat, len: nat) {
    && base % FRAME_SIZE == 0 && base + len * FRAME_SIZE <= UMA_END && Gapped(s)
    && forall i | 0 <= i < |s| :: InManaged(s[i], base, len) && base <= s[i].base
  }

  /** The whole frames of an extent are the ones it is cut into, if these stay inside it. */
  lemma WholeIsSpan(b: Memblock, base: nat, len: nat, f: nat)
    requires InManaged(b, base, len) && base % FRAME_SIZE == 0 && base + len * FRAME_SIZE <= UMA_END
    requires b.size >= FRAME_SIZE ==> StaysInside(b)
    ensures b.size < FRAME_SIZE ==> !IsWhole(b, base, f)
    ensures b.size >= FRAME_SIZE ==> (IsWhole(b, base, f) <==> InSpan(FirstFrame(b, base), FrameCount(b), f))
    ensures IsWhole(b, base, f) ==> f < len
  {
    if b.size >= FRAME_SIZE {
      StartInFrames(b, base, len);
      WholeByCount(b, base, FirstFrame(b, base), FrameCount(b), f);
    }
  }

  lemma WholeByCount(b: Memblock, base: nat, start: nat, n: nat, f: nat)
    requires b.base <= base + start * FRAME_SIZE < b.base + FRAME_SIZE
    requires base + (start + n) * FRAME_SIZE <= b.End() < base + (start + n + 1) * FRAME_SIZE
    ensures IsWhole(b, base, f) <==> InSpan(start, n, f)
  {
  }

  /** Otherwise the last frame starts inside the extent and ends outside. */
  lemma LastSticksOut(b: Memblock, base: nat, len: nat)
    requires b.size >= FRAME_SIZE && InManaged(b, base, len) && base % FRAME_SIZE == 0 &&
             base + len * FRAME_SIZE <= UMA_END
    requires !StaysInside(b)
    ensures var g := FirstFrame(b, base) + FrameCount(b) - 1;
            0 <= g && !IsWhole(b, base, g) && b.Has(base + g * FRAME_SIZE)
  {
    StartInFrames(b, base, len);
  }

  lemma NotWholeElsewhere(s: seq<Memblock>, i: nat, base: nat, g: nat)
    requires Gapped(s) && i < |s| && !IsWhole(s[i], base, g) && s[i].Has(base + g * FRAME_SIZE)
    ensures !WholeInSome(s, base, g)
  {
    forall j | 0 <= j < |s|
      ensures !IsWhole(s[j], base, g)
    {
      assert j < i ==> s[j].End() < s[i].base;
      assert i < j ==> s[i].End() < s[j].base;
    }
  }

  /** The frame below the first frame of an extent lies in no extent before it. */
  lemma FrameBelow(s: seq<Memblock>, i: nat, base: nat, len: nat)
    requires Gapped(s) && i < |s| && s[i].size >= FRAME_SIZE && InManaged(s[i], base, len)
    requires base % FRAME_SIZE == 0 && base + len * FRAME_SIZE <= UMA_END && FirstFrame(s[i], base) > 0
    ensures !WholeInSome(s[..i], base, FirstFrame(s[i], base) - 1)
  {
    StartInFrames(s[i], base, len);
    forall j | 0 <= j < i
      ensures !IsWhole(s[..i][j], base, FirstFrame(s[i], base) - 1)
    {
      assert s[j].End() < s[i].base;
    }
  }

  /** Later extents start behind the frames of earlier ones, even if these stick out. */
  lemma LaterStarts(s: seq<Memblock>, i: nat, j: nat, base: nat, len: nat)
    requires Gapped(s) && i < j < |s| && s[i].size >= FRAME_SIZE && s[j].size >= FRAME_SIZE
    requires InManaged(s[i], base, len) && InManaged(s[j], base, len)
    requires base % FRAME_SIZE == 0 && base + len * FRAME_SIZE <= UMA_END
    ensures FirstFrame(s[i], base) + FrameCount(s[i]) <= FirstFrame(s[j], base)
  {
    StartInFrames(s[i], base, len);
    StartInFrames(s[j], base, len);
    assert s[i].End() < s[j].base;
  }

  lemma WholeSnoc(s: seq<Memblock>, i: nat, base: nat, len: nat)
    requires i < |s| && InManaged(s[i], base, len) && base % FRAME_SIZE == 0 && base + len * FRAME_SIZE <= UMA_END
    requires s[i].size >= FRAME_SIZE ==> StaysInside(s[i])
    ensures WholeFrames(s[..i + 1], base, len) ==
            if s[i].size < FRAME_SIZE then WholeFrames(s[..i], base, len)
            else Grown(WholeFrames(s[..i], base, len), FirstFrame(s[i], base), FrameCount(s[i]))
  {
    var b, pre, all := s[i], s[..i], s[..i + 1];
    forall f: nat
      ensures WholeInSome(all, base, f) <==> WholeInSome(pre, base, f) || IsWhole(b, base, f)
    {
      if WholeInSome(pre, base, f) {
        var j :| 0 <= j < |pre| && IsWhole(pre[j], base, f);
        assert IsWhole(all[j], base, f);
      }
      if IsWhole(b, base, f) {
        assert IsWhole(all[i], base, f);
      }
    }
    forall f: nat
      ensures IsWhole(b, base, f) <==> b.size >= FRAME_SIZE && f < len && InSpan(FirstFrame(b, base), FrameCount(b), f)
    {
      WholeIsSpan(b, base, len, f);
    }
  }

  /** A frame below the bound is free although it lies whole in no extent. */
  ghost predicate OddFrame(b: seq<Forest.Byte>, cnt: nat, md: nat, s: seq<Memblock>, base: nat, bound: nat) {
    exists g: nat :: OddAt(b, cnt, md, s, base, g) && g < bound
  }

  predicate OddAt(b: seq<Forest.Byte>, cnt: nat, md: nat, s: seq<Memblock>, base: nat, g: nat) {
    g < Shl(cnt, md) && Forest.Val(b, cnt, NodeOf(cnt, md, Block(0, g))) == 1 && !WholeInSome(s, base, g)
  }

  /** Something is wrong below the bound. */
  ghost predicate Marred(buddy: BuddySystem, s: seq<Memblock>, base: nat, bound: nat)
    reads buddy.forest.buf
  {
    SpoiledBelow(buddy, bound) || OddFrame(buddy.forest.buf[..], buddy.forest.treeCnt, buddy.maxOrder, s, base, bound)
  }

  lemma OddKept(b: seq<Forest.Byte>, b': seq<Forest.Byte>, cnt: nat, md: nat, s: seq<Memblock>, base: nat, bound: nat,
                idx: nat)
    requires OddFrame(b, cnt, md, s, base, bound) && bound <= idx
    requires KeptBelow(b, b', cnt, md, idx)
    ensures OddFrame(b', cnt, md, s, base, bound)
  {
    var g: nat :| OddAt(b, cnt, md, s, base, g) && g < bound;
    assert EndsBy(Block(0, g), idx);
    assert OddAt(b', cnt, md, s, base, g);
  }

  /** A marred system is not in order with the whole frames free. */
  lemma MarredBreaks(b: seq<Forest.Byte>, cnt: nat, md: nat, s: seq<Memblock>, base: nat, len: nat, bound: nat)
    requires Spoiled(b, cnt, md, bound) || OddFrame(b, cnt, md, s, base, bound)
    ensures !Consistent(Forest.Trees(b, cnt, md), md, {}, WholeFrames(s, base, len))
  {
    if Spoiled(b, cnt, md, bound) {
      SpoiledBreaks(b, cnt, md, bound);
    } else if Consistent(Forest.Trees(b, cnt, md), md, {}, WholeFrames(s, base, len)) {
      var g: nat :| OddAt(b, cnt, md, s, base, g) && g < bound;
      LeafIsManaged(b, cnt, md, WholeFrames(s, base, len), g);
    }
  }

  /** Every later extent starts at or behind the bound. */
  predicate Behind(s: seq<Memblock>, i: nat, base: nat, bound: nat) {
    forall j | i <= j < |s| && s[j].size >= FRAME_SIZE && base <= s[j].base :: bound <= FirstFrame(s[j], base)
  }

  /** The blocks that the extents of a list are cut into. */
  function PiecesOf(s: seq<Memblock>, base: nat, cap: nat): set<Block> {
    if s == [] then {} else PiecesOf(s[..|s| - 1], base, cap) + ExtentPieces(s[|s| - 1], base, cap)
  }

  lemma PiecesSnoc(s: seq<Memblock>, i: nat, base: nat, cap: nat)
    requires i < |s|
    ensures PiecesOf(s[..i + 1], base, cap) == PiecesOf(s[..i], base, cap) + ExtentPieces(s[i], base, cap)
  {
    assert s[..i + 1][..i] == s[..i];
  }

  /** The pieces of a list are those of its extents. */
  lemma {:induction false} PiecesOfExtents(s: seq<Memblock>, base: nat, cap: nat, p: Block)
    ensures p in PiecesOf(s, base, cap) <==> exists i :: 0 <= i < |s| && p in ExtentPieces(s[i], base, cap)
  {
    if |s| > 0 {
      var pre := s[..|s| - 1];
      PiecesOfExtents(pre, base, cap, p);
      if i :| 0 <= i < |pre| && p in ExtentPieces(pre[i], base, cap) {
        assert p in ExtentPieces(s[i], base, cap);
      }
      if i :| 0 <= i < |s| && p in ExtentPieces(s[i], base, cap) && i < |s| - 1 {
        assert p in ExtentPieces(pre[i], base, cap);
      }
    }
  }

  /** The pieces of earlier extents end before the frames of a later one. */
  lemma EarlierEnd(s: seq<Memblock>, i: nat, base: nat, len: nat, cap: nat)
    requires Extents(s, base, len) && i < |s|
    ensures s[i].size >= FRAME_SIZE ==> AllEndBy(PiecesOf(s[..i], base, cap), FirstFrame(s[i], base))
  {
    forall p | p in PiecesOf(s[..i], base, cap) && s[i].size >= FRAME_SIZE
      ensures EndsBy(p, FirstFrame(s[i], base))
    {
      PiecesOfExtents(s[..i], base, cap, p);
      var j :| 0 <= j < i && p in ExtentPieces(s[..i][j], base, cap);
      PiecesEnd(FirstFrame(s[j], base), FrameCount(s[j]), cap);
      StartInFrames(s[j], base, len);
      LaterStarts(s, j, i, base, len);
    }
  }

  /** What holds after the first `i` extents. */
  ghost predicate GivenTo(buddy: BuddySystem, s: seq<Memblock>, i: nat, base: nat, len: nat, bound: nat)
    requires i <= |s|
    reads buddy, buddy.forest.buf
  {
    if AllEligible(s[..i], base)
    then
      && buddy.Valid() && buddy.held == {} && buddy.managed == WholeFrames(s[..i], base, len)
      && Offers(buddy.State(), buddy.maxOrder, PiecesOf(s[..i], base, BUDDY_MAX_ORDER))
    else Marred(buddy, s, base, bound) && Behind(s, i, base, bound)
  }

  lemma ZeroMultiple(k: nat)
    ensures MultipleOf(0, k)
  {
    ShlZero(k);
    MultipleIntro(0, k);
  }

  /** Frame 0 is a multiple of every piece. */
  lemma NotAtZero(b: Memblock, base: nat)
    requires base <= b.base && b.size >= FRAME_SIZE && !OnPiece(b, base)
    ensures FirstFrame(b, base) > 0
  {
    ZeroMultiple(CutOrder(FrameCount(b), BUDDY_MAX_ORDER));
  }

  /** The leaf below the first frame of the next extent says that its frame is not free. */
  lemma LeafBelowZero(buddy: BuddySystem, s: seq<Memblock>, i: nat, base: nat, len: nat)
    requires buddy.Valid() && buddy.held == {} && buddy.maxOrder == Buddy.OrderFor(len) &&
             buddy.forest.treeCnt == TreesFor(len)
    requires base % FRAME_SIZE == 0 && base + len * FRAME_SIZE <= UMA_END && i < |s| && Gapped(s)
    requires s[i].size >= FRAME_SIZE && InManaged(s[i], base, len) && !OnPiece(s[i], base)
    requires buddy.managed == WholeFrames(s[..i], base, len)
    ensures FirstFrame(s[i], base) > 0 && buddy.LeafOf(FirstFrame(s[i], base) - 1) == 0
  {
    NotAtZero(s[i], base);
    var g := FirstFrame(s[i], base) - 1;
    assert g < Shl(buddy.forest.treeCnt, buddy.maxOrder) by {
      StartInFrames(s[i], base, len);
      TreesSuffice(len);
    }
    FrameBelow(s, i, base, len);
    LeafIsManaged(buddy.forest.buf[..], buddy.forest.treeCnt, buddy.maxOrder, buddy.managed, g);
  }

  /** The last frame of an extent that sticks out is free and whole in no extent. */
  lemma LastIsOdd(buddy: BuddySystem, s: seq<Memblock>, i: nat, base: nat, len: nat, all: set<Block>)
    requires buddy.maxOrder == Buddy.OrderFor(len) && buddy.forest.treeCnt == TreesFor(len)
    requires base % FRAME_SIZE == 0 && base + len * FRAME_SIZE <= UMA_END && i < |s| && Gapped(s)
    requires s[i].size >= FRAME_SIZE && InManaged(s[i], base, len) && !StaysInside(s[i])
    requires var n := FrameCount(s[i]);
             Added(buddy, WholeFrames(s[..i], base, len), FirstFrame(s[i], base), n, n, BUDDY_MAX_ORDER, all)
    ensures OddFrame(buddy.forest.buf[..], buddy.forest.treeCnt, buddy.maxOrder, s, base,
              FirstFrame(s[i], base) + FrameCount(s[i]))
  {
    StartInFrames(s[i], base, len);
    LastSticksOut(s[i], base, len);
    var g := FirstFrame(s[i], base) + FrameCount(s[i]) - 1;
    NotWholeElsewhere(s, i, base, g);
    TreesSuffice(len);
    assert InSpan(FirstFrame(s[i], base), FrameCount(s[i]), g);
    LeafIsManaged(buddy.forest.buf[..], buddy.forest.treeCnt, buddy.maxOrder, buddy.managed, g);
    assert OddAt(buddy.forest.buf[..], buddy.forest.treeCnt, buddy.maxOrder, s, base, g);
  }

  lemma ExtentOffered(buddy: BuddySystem, b: Memblock, base: nat, before: set<nat>, all: set<Block>)
    requires base <= b.base && ExtentGiven(buddy, before, b, base, all, true, false)
    ensures Offers(buddy.State(), buddy.maxOrder, all)
  {
    if b.size >= FRAME_SIZE {
      OffersAll(buddy.State(), buddy.maxOrder, all, FirstFrame(b, base) + FrameCount(b), BUDDY_MAX_ORDER);
    }
  }

  /** After one more extent, all before it being eligible. */
  lemma AfterFine(buddy: BuddySystem, s: seq<Memblock>, i: nat, base: nat, len: nat) returns (bound: nat)
    requires buddy.maxOrder == Buddy.OrderFor(len) && buddy.forest.treeCnt == TreesFor(len)
    requires Extents(s, base, len) && i < |s| && AllEligible(s[..i], base)
    requires var fits := s[i].size >= FRAME_SIZE ==> OnPiece(s[i], base);
             var gave := PiecesOf(s[..i], base, BUDDY_MAX_ORDER) + ExtentPieces(s[i], base, BUDDY_MAX_ORDER);
             ExtentGiven(buddy, WholeFrames(s[..i], base, len), s[i], base, gave, fits, !fits)
    ensures GivenTo(buddy, s, i + 1, base, len, bound)
  {
    EligibleSnoc(s, i, base);
    bound := 0;
    if Eligible(s[i], base) {
      WholeSnoc(s, i, base, len);
      PiecesSnoc(s, i, base, BUDDY_MAX_ORDER);
      ExtentOffered(buddy, s[i], base, WholeFrames(s[..i], base, len), PiecesOf(s[..i + 1], base, BUDDY_MAX_ORDER));
    } else {
      bound := FirstFrame(s[i], base) + FrameCount(s[i]);
      assert FrameCount(s[i]) > 0;
      forall j | i + 1 <= j < |s| && s[j].size >= FRAME_SIZE && base <= s[j].base
        ensures bound <= FirstFrame(s[j], base)
      {
        LaterStarts(s, i, j, base, len);
      }
      if OnPiece(s[i], base) {
        LastIsOdd(buddy, s, i, base, len,
          PiecesOf(s[..i], base, BUDDY_MAX_ORDER) + ExtentPieces(s[i], base, BUDDY_MAX_ORDER));
      }
    }
  }

  /** After one more extent, something being wrong already. */
  lemma AfterMarred(b0: seq<Forest.Byte>, buddy: BuddySystem, s: seq<Memblock>, i: nat, base: nat, len: nat, bound: nat)
    requires i < |s| && base <= s[i].base && !AllEligible(s[..i], base) && Behind(s, i, base, bound)
    requires var cnt, md := buddy.forest.treeCnt, buddy.maxOrder;
             Spoiled(b0, cnt, md, bound) || OddFrame(b0, cnt, md, s, base, bound)
    requires var b1, cnt, md := buddy.forest.buf[..], buddy.forest.treeCnt, buddy.maxOrder;
             if s[i].size < FRAME_SIZE then b1 == b0 else KeptBelow(b0, b1, cnt, md, FirstFrame(s[i], base))
    ensures GivenTo(buddy, s, i + 1, base, len, bound)
  {
    var b1, cnt, md := buddy.forest.buf[..], buddy.forest.treeCnt, buddy.maxOrder;
    var idx := if s[i].size >= FRAME_SIZE then FirstFrame(s[i], base) else bound;
    assert KeptBelow(b0, b1, cnt, md, idx);
    if Spoiled(b0, cnt, md, bound) {
      SpoiledKept(b0, b1, cnt, md, bound, idx);
    } else {
      OddKept(b0, b1, cnt, md, s, base, bound, idx);
    }
    EligibleSnoc(s, i, base);
  }

  /** One more extent. */
  method GiveNext(buddy: BuddySystem, s: seq<Memblock>, i: nat, base: nat, len: nat, ghost bound: nat)
    returns (ghost bound': nat)
    requires buddy.Ready() && i < |s| && GivenTo(buddy, s, i, base, len, bound)
    requires buddy.maxOrder == Buddy.OrderFor(len) && buddy.forest.treeCnt == TreesFor(len)
    requires Extents(s, base, len)
    modifies buddy`managed, buddy.forest.buf
    ensures GivenTo(buddy, s, i + 1, base, len, bound')
  {
    ghost var b0, fine := buddy.forest.buf[..], AllEligible(s[..i], base);
    ghost var fits := s[i].size >= FRAME_SIZE ==> OnPiece(s[i], base);
    if fine && !fits { LeafBelowZero(buddy, s, i, base, len); }
    EarlierEnd(s, i, base, len, BUDDY_MAX_ORDER);
    GiveExtent(buddy, s[i], base, len, PiecesOf(s[..i], base, BUDDY_MAX_ORDER), fine && fits, fine && !fits);
    if fine {
      bound' := AfterFine(buddy, s, i, base, len);
    } else {
      AfterMarred(b0, buddy, s, i, base, len, bound);
      bound' := bound;
    }
  }

  /**
   * Gives every free extent. All is in order with exactly the whole frames free if and only if every extent is
   * eligible. Then exactly the blocks inside the pieces of the extents can be handed out.
   */
  method GiveAll(buddy: BuddySystem, s: seq<Memblock>, base: nat, len: nat)
    requires buddy.Valid() && buddy.held == {} && buddy.managed == {}
    requires buddy.maxOrder == Buddy.OrderFor(len) && buddy.forest.treeCnt == TreesFor(len)
    requires Extents(s, base, len)
    modifies buddy`managed, buddy.forest.buf
    ensures Consistent(buddy.State(), buddy.maxOrder, {}, WholeFrames(s, base, len)) <==> AllEligible(s, base)
    ensures AllEligible(s, base) ==> buddy.Valid() && buddy.held == {} && buddy.managed == WholeFrames(s, base, len)
    ensures AllEligible(s, base) ==> Offers(buddy.State(), buddy.maxOrder, PiecesOf(s, base, BUDDY_MAX_ORDER))
  {
    NoneGiven(buddy, s, base, len);
    ghost var bound := GiveList(buddy, s, base, len);
    AllGiven(buddy, s, base, len, bound);
  }

  method GiveList(buddy: BuddySystem, s: seq<Memblock>, base: nat, len: nat) returns (ghost bound: nat)
    requires buddy.Ready() && buddy.maxOrder == Buddy.OrderFor(len) && buddy.forest.treeCnt == TreesFor(len)
    requires Extents(s, base, len) && GivenTo(buddy, s, 0, base, len, 0)
    modifies buddy`managed, buddy.forest.buf
    ensures GivenTo(buddy, s, |s|, base, len, bound)
  {
    bound := 0;
    for i := 0 to |s|
      invariant buddy.Ready() && GivenTo(buddy, s, i, base, len, bound)
    {
      bound := GiveNext(buddy, s, i, base, len, bound);
    }
  }

  lemma NoneGiven(buddy: BuddySystem, s: seq<Memblock>, base: nat, len: nat)
    requires buddy.Valid() && buddy.held == {} && buddy.managed == {}
    ensures GivenTo(buddy, s, 0, base, len, 0)
  {
    assert WholeFrames(s[..0], base, len) == {};
    OffersNothing(buddy.State(), buddy.maxOrder);
  }

  lemma AllGiven(buddy: BuddySystem, s: seq<Memblock>, base: nat, len: nat, bound: nat)
    requires GivenTo(buddy, s, |s|, base, len, bound)
    ensures Consistent(buddy.State(), buddy.maxOrder, {}, WholeFrames(s, base, len)) <==> AllEligible(s, base)
    ensures AllEligible(s, base) ==>
              && buddy.Valid() && buddy.held == {} && buddy.managed == WholeFrames(s, base, len)
              && Offers(buddy.State(), buddy.maxOrder, PiecesOf(s, base, BUDDY_MAX_ORDER))
  {
    assert s[..|s|] == s;
    if !AllEligible(s, base) {
      MarredBreaks(buddy.forest.buf[..], buddy.forest.treeCnt, buddy.maxOrder, s, base, len, bound);
    }
  }

  /**
   * The first block that can be reserved after the hand-over: one of order `order` exactly if some extent has room for
   * twice as many frames, and blocks of twice the size exist.
   */
  lemma FirstReserve(s: seq<Memblock>, base: nat, len: nat, cap: nat, trees: seq<BuddyTree.Tree>, order: nat)
    requires Extents(s, base, len) && |trees| == TreesFor(len) && order <= Buddy.OrderFor(len)
    requires Offers(trees, Buddy.OrderFor(len), PiecesOf(s, base, cap)) && cap <= BUDDY_MAX_ORDER
    ensures !NoneFits(trees, Buddy.OrderFor(len), order) <==>
            order < cap && exists i :: 0 <= i < |s| && s[i].size >= Pow2(order + 1) * FRAME_SIZE
  {
    forall p | p in PiecesOf(s, base, cap)
      ensures InRange(|trees|, Buddy.OrderFor(len), p)
    {
      PieceInForest(s, base, len, cap, p);
    }
    OffersFit(trees, Buddy.OrderFor(len), PiecesOf(s, base, cap), order);
    if i :| 0 <= i < |s| && s[i].size >= Pow2(order + 1) * FRAME_SIZE && order < cap {
      LargeExtent(s, i, base, len, cap, order);
    }
    if p :| p in PiecesOf(s, base, cap) && p.order > order {
      var i := LargePieceOf(s, base, cap, p, order);
    }
  }

  /** No extent has room for a block larger than the trees. */
  lemma NoLargerExtent(s: seq<Memblock>, base: nat, len: nat, cap: nat, order: nat)
    requires Extents(s, base, len) && cap <= BUDDY_MAX_ORDER && Buddy.OrderFor(len) <= order < cap
    ensures forall i | 0 <= i < |s| :: s[i].size < Pow2(order + 1) * FRAME_SIZE
  {
    forall i | 0 <= i < |s|
      ensures s[i].size < Pow2(order + 1) * FRAME_SIZE
    {
      if s[i].size >= Pow2(order + 1) * FRAME_SIZE {
        LargeExtent(s, i, base, len, cap, order);
        var p :| p in PiecesOf(s, base, cap) && p.order > order;
        PieceInForest(s, base, len, cap, p);
      }
    }
  }

  lemma PieceInForest(s: seq<Memblock>, base: nat, len: nat, cap: nat, p: Block)
    requires Extents(s, base, len) && p in PiecesOf(s, base, cap) && cap <= BUDDY_MAX_ORDER
    ensures InRange(TreesFor(len), Buddy.OrderFor(len), p)
  {
    PiecesOfExtents(s, base, cap, p);
    var i :| 0 <= i < |s| && p in ExtentPieces(s[i], base, cap);
    StartInFrames(s[i], base, len);
    PiecesEnd(FirstFrame(s[i], base), FrameCount(s[i]), cap);
    PieceOrders(FirstFrame(s[i], base), FrameCount(s[i]), cap, p);
    Pow2Monotone(p.order, CutOrder(FrameCount(s[i]), cap));
    PieceLegal(p.order, len);
    TreesSuffice(len);
    EndsInRange(TreesFor(len), Buddy.OrderFor(len), p, len);
  }

  lemma LargeExtent(s: seq<Memblock>, i: nat, base: nat, len: nat, cap: nat, order: nat)
    requires Extents(s, base, len) && i < |s| && s[i].size >= Pow2(order + 1) * FRAME_SIZE && order < cap
    ensures exists p | p in PiecesOf(s, base, cap) :: p.order > order
  {
    StartInFrames(s[i], base, len);
    LargePiece(FirstFrame(s[i], base), FrameCount(s[i]), cap, order);
    var p :| p in ExtentPieces(s[i], base, cap) && p.order > order;
    PiecesOfExtents(s, base, cap, p);
  }

  lemma LargePieceOf(s: seq<Memblock>, base: nat, cap: nat, p: Block, order: nat) returns (i: nat)
    requires p in PiecesOf(s, base, cap) && p.order > order
    ensures order < cap && i < |s| && s[i].size >= Pow2(order + 1) * FRAME_SIZE
  {
    PiecesOfExtents(s, base, cap, p);
    i :| 0 <= i < |s| && p in ExtentPieces(s[i], base, cap);
    LargePiece(FirstFrame(s[i], base), FrameCount(s[i]), cap, order);
  }

  lemma EligibleSnoc(s: seq<Memblock>, i: nat, base: nat)
    requires i < |s|
    ensures AllEligible(s[..i + 1], base) <==> AllEligible(s[..i], base) && Eligible(s[i], base)
  {
    assert s[..i + 1] == s[..i] + [s[i]];
  }

  // ---------------------------------------------------------------- PhysicalMemoryRecord::new

  const UMA := AddrRange.Space(0, UMA_END)

  /** First frame address and number of frames of the managed range. */
  function ManagedFrames(base: nat, size: nat): (r: (nat, nat)) {
    match AddrRange.OverlappedPages(UMA, AddrRange.Range(base, size), AddrRange.Small)
    case Some(pages) => (pages.base, pages.len)
    case None => (0, 0)
  }

  lemma ManagedFramesCover(base: nat, size: nat)
    requires size > 0 && base + size <= UMA_END
    ensures var (first, len) := ManagedFrames(base, size);
            && first % FRAME_SIZE == 0 && first <= base && base + size <= first + len * FRAME_SIZE
            && first + len * FRAME_SIZE <= UMA_END
  {
    var r := AddrRange.Range(base, size);
    AddrRange.FloorInSpace(UMA, r, AddrRange.Small);
    var x := size + base % FRAME_SIZE;
    DivCeilBrackets(x, FRAME_SIZE);
    CeilWithin(base - base % FRAME_SIZE, x);
  }

  lemma CeilWithin(first: nat, x: nat)
    requires first % FRAME_SIZE == 0 && first + x <= UMA_END
    ensures first + DivCeil(x, FRAME_SIZE) * FRAME_SIZE <= UMA_END
  {
  }

  /** Size of the buffer of the forest for `len` frames. */
  function ForestBytes(len: nat): nat {
    Shl(TreesFor(len), Buddy.OrderFor(len) + 1)
  }

  /** Bytes of one frame record. */
  const RECORD_SIZE: nat := 2

  /** The boot allocator after both tables were allocated from it. */
  function AfterTables(st: Boot, len: nat): Boot {
    Reserving(Reserving(st, RECORD_SIZE * len, 1).0, ForestBytes(len), 1).0
  }

  predicate TablesFit(st: Boot, len: nat) {
    && Reserving(st, RECORD_SIZE * len, 1).1.Some?
    && Reserving(Reserving(st, RECORD_SIZE * len, 1).0, ForestBytes(len), 1).1.Some?
  }

  ghost predicate OwnsWithin(st: Boot, base: nat, size: nat) {
    forall a: nat | st.Owns(a) :: base <= a < base + size
  }

  /** The free list once the boot allocator is frozen. */
  function FrozenFree(st: Boot, len: nat): seq<Memblock> {
    var st2 := AfterTables(st, len);
    if st2.partial.Some? && st2.offset <= st2.partial.value.size then st2.Cut().free else st2.free
  }

  lemma AfterTablesKeeps(st: Boot, len: nat)
    requires st.Active() && TablesFit(st, len)
    ensures AfterTables(st, len).Active() && AfterTables(st, len).partial.Some?
    ensures forall a: nat :: AfterTables(st, len).Owns(a) == st.Owns(a)
  {
    var st1 := Reserving(st, RECORD_SIZE * len, 1).0;
    ReservingKeeps(st, RECORD_SIZE * len, 1);
    ReservingKeeps(st1, ForestBytes(len), 1);
  }

  /** The frozen free list has no byte outside the managed range. */
  lemma FrozenWithin(st: Boot, len: nat, mbase: nat, msize: nat)
    requires st.Active() && OwnsWithin(st, mbase, msize) && TablesFit(st, len)
    ensures forall a: nat | Covers(FrozenFree(st, len), a) :: mbase <= a < mbase + msize
  {
    AfterTablesKeeps(st, len);
    CutKeeps(AfterTables(st, len));
  }

  /** The frozen free list is sorted with gaps and lies in the managed frames. */
  lemma FrozenInManaged(st: Boot, len: nat, mbase: nat, msize: nat, base: nat)
    requires st.Active() && OwnsWithin(st, mbase, msize) && TablesFit(st, len)
    requires base <= mbase && mbase + msize <= base + len * FRAME_SIZE <= UMA_END && base % FRAME_SIZE == 0
    ensures Extents(FrozenFree(st, len), base, len)
  {
    AfterTablesKeeps(st, len);
    FrozenWithin(st, len, mbase, msize);
    var st2, s := AfterTables(st, len), FrozenFree(st, len);
    assert st2.Owns(st2.partial.value.base);
    forall i | 0 <= i < |s|
      ensures InManaged(s[i], base, len) && base <= s[i].base
    {
      if s[i].size > 0 {
        assert s[i].Has(s[i].base) && s[i].Has(s[i].End() - 1);
        assert Covers(s, s[i].base) && Covers(s, s[i].End() - 1);
      }
    }
  }

  /** No byte of a frame that is handed over was handed out by the boot allocator. */
  lemma HandedFramesUnused(st: Boot, len: nat, base: nat, f: nat, a: nat)
    requires st.Active() && TablesFit(st, len) && f in WholeFrames(FrozenFree(st, len), base, len)
    requires base + f * FRAME_SIZE <= a < base + (f + 1) * FRAME_SIZE
    ensures st.Owns(a) && !AfterTables(st, len).Used(a)
  {
    AfterTablesKeeps(st, len);
    CutKeeps(AfterTables(st, len));
    var free := FrozenFree(st, len);
    var i :| 0 <= i < |free| && IsWhole(free[i], base, f);
    assert free[i].Has(a);
    assert Covers(free, a);
  }

  /** What `init` leaves: all memory lies in the managed range. */
  ghost predicate Ready(st: Boot, mbase: nat, msize: nat) {
    st.Active() && OwnsWithin(st, mbase, msize) && msize > 0 && mbase + msize <= UMA_END
  }

  // ---------------------------------------------------------------- where the tables are put

  /** The addresses that the code uses for the two tables: the numbers that the boot allocator returns. */
  function TablesAt(st: Boot, len: nat): (nat, nat)
    requires TablesFit(st, len)
  {
    var (st1, frames) := Reserving(st, RECORD_SIZE * len, 1);
    (frames.value, Reserving(st1, ForestBytes(len), 1).1.value)
  }

  /** The first table starts at the offset of the partial extent if it fits there, and at 0 otherwise. */
  function FramesAt(st: Boot, len: nat): nat {
    if FitsHere(st, RECORD_SIZE * len, 1) then st.offset else 0
  }

  /** Both tables fit in the extent that is chosen for the first. */
  predicate OneExtent(st: Boot, len: nat) {
    var first := Chosen(st, RECORD_SIZE * len, 1);
    first.Some? && FramesAt(st, len) + RECORD_SIZE * len + ForestBytes(len) <= first.value.size
  }

  lemma NextOfOne(x: nat)
    ensures NextMultiple(x, 1) == x
  {
  }

  /** Where the tables are put, from the state before. */
  lemma TablesAtOffsets(st: Boot, len: nat)
    requires TablesFit(st, len)
    ensures TablesAt(st, len) ==
            (FramesAt(st, len), if OneExtent(st, len) then FramesAt(st, len) + RECORD_SIZE * len else 0)
  {
    var st1 := Reserving(st, RECORD_SIZE * len, 1).0;
    ReservingChosen(st, RECORD_SIZE * len, 1);
    ReservingEnds(st, RECORD_SIZE * len);
    ReservingChosen(st1, ForestBytes(len), 1);
    NextOfOne(st.offset);
    NextOfOne(st1.offset);
  }

  lemma {:induction false} ReservingEnds(st: Boot, size: nat)
    requires Reserving(st, size, 1).1.Some?
    ensures Reserving(st, size, 1).0.offset == Reserving(st, size, 1).1.value + size
    decreases |st.free|, st.partial.Some?
  {
    if NextMultiple(st.offset, 1) + size > st.partial.value.size {
      ReservingEnds(st.Retired(), size);
    }
  }

  /** No frame of the set has a byte in `lo..hi`. */
  predicate Misses(frames: set<nat>, base: nat, lo: nat, hi: nat) {
    forall f, a: nat | f in frames && InFrame(base, f, a) :: !(lo <= a < hi)
  }

  predicate InFrame(base: nat, f: nat, a: nat) {
    base + f * FRAME_SIZE <= a < base + (f + 1) * FRAME_SIZE
  }

  /** The bytes that are written as tables belong to no frame that is handed over. */
  predicate TablesApart(st: Boot, len: nat, base: nat)
    requires TablesFit(st, len)
  {
    var whole := WholeFrames(FrozenFree(st, len), base, len);
    var (framesAt, forestAt) := TablesAt(st, len);
    Misses(whole, base, framesAt, framesAt + RECORD_SIZE * len) &&
    Misses(whole, base, forestAt, forestAt + ForestBytes(len))
  }

  /** Every frame of the set lies below `lo` or starts at or above `hi`. */
  predicate Beside(frames: set<nat>, base: nat, lo: nat, hi: nat) {
    forall f | f in frames :: base + (f + 1) * FRAME_SIZE <= lo || hi <= base + f * FRAME_SIZE
  }

  lemma MissesBeside(frames: set<nat>, base: nat, lo: nat, hi: nat)
    requires lo < hi
    ensures Misses(frames, base, lo, hi) <==> Beside(frames, base, lo, hi)
  {
    if Misses(frames, base, lo, hi) {
      forall f | f in frames
        ensures base + (f + 1) * FRAME_SIZE <= lo || hi <= base + f * FRAME_SIZE
      {
        assert InFrame(base, f, base + f * FRAME_SIZE);
        assert InFrame(base, f, lo) || base + (f + 1) * FRAME_SIZE <= lo || lo < base + f * FRAME_SIZE;
      }
    }
  }

  lemma ForestHasBytes(len: nat)
    requires len > 0
    ensures ForestBytes(len) > 0
  {
    TreesSuffice(len);
    ShlDouble(TreesFor(len), Buddy.OrderFor(len));
  }

  /** Exactly when the tables are apart from the frames, for every state of the boot allocator. */
  lemma TablesApartExactly(st: Boot, len: nat, base: nat)
    requires TablesFit(st, len) && len > 0
    ensures var whole, lo := WholeFrames(FrozenFree(st, len), base, len), FramesAt(st, len);
            var mid := lo + RECORD_SIZE * len;
            TablesApart(st, len, base) <==>
            && Beside(whole, base, lo, mid)
            && (if OneExtent(st, len) then Beside(whole, base, mid, mid + ForestBytes(len))
                else Beside(whole, base, 0, ForestBytes(len)))
  {
    TablesAtOffsets(st, len);
    ForestHasBytes(len);
    var whole := WholeFrames(FrozenFree(st, len), base, len);
    var (framesAt, forestAt) := TablesAt(st, len);
    MissesBeside(whole, base, framesAt, framesAt + RECORD_SIZE * len);
    MissesBeside(whole, base, forestAt, forestAt + ForestBytes(len));
  }

  /** The end of the tables if nothing was reserved before. */
  function TablesEnd(st: Boot, len: nat): nat {
    if OneExtent(st, len) then RECORD_SIZE * len + ForestBytes(len)
    else if ForestBytes(len) < RECORD_SIZE * len then RECORD_SIZE * len else ForestBytes(len)
  }

  /**
   * If nothing was reserved before, the tables are apart exactly if every handed-over frame starts at or above their
   * end.
   */
  lemma FreshTablesApart(st: Boot, len: nat, base: nat)
    requires TablesFit(st, len) && len > 0 && st.offset == 0
    ensures TablesApart(st, len, base) <==>
            forall f | f in WholeFrames(FrozenFree(st, len), base, len) :: TablesEnd(st, len) <= base + f * FRAME_SIZE
  {
    TablesApartExactly(st, len, base);
    ForestHasBytes(len);
    var whole, n, m := WholeFrames(FrozenFree(st, len), base, len), RECORD_SIZE * len, ForestBytes(len);
    assert Beside(whole, base, 0, n) <==> forall f | f in whole :: n <= base + f * FRAME_SIZE;
    assert Beside(whole, base, 0, m) <==> forall f | f in whole :: m <= base + f * FRAME_SIZE;
    StackedBeside(whole, base, n, m);
  }

  lemma StackedBeside(frames: set<nat>, base: nat, n: nat, m: nat)
    requires n > 0 && m > 0
    ensures Beside(frames, base, 0, n) && Beside(frames, base, n, n + m) <==>
            forall f | f in frames :: n + m <= base + f * FRAME_SIZE
  {
    if Beside(frames, base, 0, n) && Beside(frames, base, n, n + m) {
      forall f | f in frames
        ensures n + m <= base + f * FRAME_SIZE
      {
        assert base + (f + 1) * FRAME_SIZE <= n || n + m <= base + f * FRAME_SIZE;
        assert n <= base + f * FRAME_SIZE;
      }
    }
  }

  /** If nothing was reserved before and both tables fit, they are cut off the front of the partial extent. */
  lemma FreshFrozen(st: Boot, len: nat)
    requires st.partial.Some? && st.offset == 0 && RECORD_SIZE * len + ForestBytes(len) <= st.partial.value.size
    ensures TablesFit(st, len) && OneExtent(st, len) && TablesAt(st, len) == (0, RECORD_SIZE * len)
    ensures var b, n := st.partial.value, RECORD_SIZE * len + ForestBytes(len);
            FrozenFree(st, len) == st.free + [Memblock(b.base + n, b.size - n)]
  {
    var st1 := st.(offset := RECORD_SIZE * len);
    NextOfOne(st.offset);
    assert Reserving(st, RECORD_SIZE * len, 1) == (st1, Some(0));
    NextOfOne(st1.offset);
  }

  lemma SmallNotMultiple(x: nat, k: nat)
    requires 0 < x < Pow2(k)
    ensures !MultipleOf(x, k)
  {
    ShlZero(k);
    ShlPow2(0, k);
    ShrUnique(x, k, 0);
  }

  /** An extent that starts within the first piece of its own size does not start at a multiple of it. */
  lemma StartInsidePiece(b: Memblock, base: nat)
    requires base <= b.base && b.size >= FRAME_SIZE &&
             0 < FirstFrame(b, base) < Pow2(CutOrder(FrameCount(b), BUDDY_MAX_ORDER))
    ensures !OnPiece(b, base)
  {
    SmallNotMultiple(FirstFrame(b, base), CutOrder(FrameCount(b), BUDDY_MAX_ORDER));
  }

  // ---------------------------------------------------------------- boot states that go wrong

  lemma DivCeilSelf(n: nat)
    requires n > 0
    ensures DivCeil(n, n) == 1
  {
  }

  /** For a power of two of frames there is one tree, whose buffer is twice as long. */
  lemma OneTree(k: nat)
    requires k <= BUDDY_MAX_ORDER
    ensures ForestBytes(Pow2(k)) == Pow2(k + 1)
  {
    NextOfPow2(k);
    assert Buddy.OrderFor(Pow2(k)) == k;
    DivCeilSelf(Pow2(k));
    ShlPow2(0, k + 1);
  }

  /** The managed range of whole frames. */
  lemma ManagedExactly(first: nat, len: nat)
    requires first % FRAME_SIZE == 0 && len > 0 && first + len * FRAME_SIZE <= UMA_END
    ensures ManagedFrames(first, len * FRAME_SIZE) == (first, len)
  {
    AddrRange.FloorInSpace(UMA, AddrRange.Range(first, len * FRAME_SIZE), AddrRange.Small);
  }

  /** Two extents; the larger is the partial one. */
  function LowAndHigh(): Boot {
    Boot([Memblock(0x1000, 0x1000)], Some(Memblock(0xFF_C000, 0x5000)), 0, [])
  }

  lemma LowAndHighReady()
    ensures Ready(LowAndHigh(), 0x1000, 0x100_0000)
  {
  }

  /** A boot state of two extents for which the table of frames lies in a frame that is handed over. */
  lemma TableInFreeFrame()
    ensures var st, len := LowAndHigh(), 0x1000;
            && Ready(st, 0x1000, 0x100_0000) && ManagedFrames(0x1000, 0x100_0000) == (0x1000, len)
            && TablesFit(st, len) && TablesAt(st, len) == (0, 0x2000)
            && AllEligible(FrozenFree(st, len), 0x1000) && 0 in WholeFrames(FrozenFree(st, len), 0x1000, len)
            && !TablesApart(st, len, 0x1000)
  {
    LowAndHighReady();
    ManagedExactly(0x1000, 0x1000);
    LowAndHighTables(LowAndHigh(), 0x1000);
    LowFrameHanded(FrozenFree(LowAndHigh(), 0x1000));
    FirstFrameHit(LowAndHigh(), 0x1000, 0x1000);
  }

  lemma LowAndHighTables(st: Boot, len: nat)
    requires st == LowAndHigh() && len == 0x1000
    ensures TablesFit(st, len) && TablesAt(st, len) == (0, 0x2000) && TablesEnd(st, len) == 0x4000
    ensures FrozenFree(st, len) == [Memblock(0x1000, 0x1000), Memblock(0x100_0000, 0x1000)]
  {
    Pow2Values();
    OneTree(FRAME_ORDER);
    FreshFrozen(st, len);
  }

  lemma FirstFrameHit(st: Boot, len: nat, base: nat)
    requires TablesFit(st, len) && len > 0 && st.offset == 0
    requires 0 in WholeFrames(FrozenFree(st, len), base, len) && base < TablesEnd(st, len)
    ensures !TablesApart(st, len, base)
  {
    FreshTablesApart(st, len, base);
  }

  lemma LowFrameHanded(free: seq<Memblock>)
    requires free == [Memblock(0x1000, 0x1000), Memblock(0x100_0000, 0x1000)]
    ensures AllEligible(free, 0x1000) && 0 in WholeFrames(free, 0x1000, 0x1000)
  {
    OneFrame(free[0], 0x1000);
    OneFrame(free[1], 0x1000);
    assert IsWhole(free[0], 0x1000, 0);
  }

  /** An extent of one frame on a frame is eligible. */
  lemma OneFrame(b: Memblock, base: nat)
    requires b.size == FRAME_SIZE && b.base % FRAME_SIZE == 0
    ensures Eligible(b, base)
  {
    Pow2Values();
    Log2Unique(FRAME_SIZE, FRAME_ORDER);
  }

  /** One extent of eight frames. */
  function EightFrames(): Boot {
    Boot([], Some(Memblock(0x1000, 0x8000)), 0, [])
  }

  lemma EightFramesReady()
    ensures Ready(EightFrames(), 0x1000, 0x8000)
  {
  }

  /** A boot state of one extent that is not handed over correctly. */
  lemma RestNotEligible()
    ensures var st, len := EightFrames(), 8;
            && Ready(st, 0x1000, 0x8000) && ManagedFrames(0x1000, 0x8000) == (0x1000, len)
            && TablesFit(st, len) && FrozenFree(st, len) == [Memblock(0x1020, 0x7FE0)]
            && !AllEligible(FrozenFree(st, len), 0x1000)
  {
    EightFramesReady();
    ManagedExactly(0x1000, 8);
    assert Pow2(3) == 8 && Pow2(4) == 16;
    OneTree(3);
    FreshFrozen(EightFrames(), 8);
    SevenFrames(Memblock(0x1020, 0x7FE0));
    assert !Eligible(FrozenFree(EightFrames(), 8)[0], 0x1000);
  }

  lemma SevenFrames(b: Memblock)
    requires b == Memblock(0x1020, 0x7FE0)
    ensures !Eligible(b, 0x1000)
  {
    Log2Unique(7, 2);
    assert FirstFrame(b, 0x1000) == 1 && FrameCount(b) == 7;
    assert CutOrder(7, BUDDY_MAX_ORDER) == 2;
    StartInsidePiece(b, 0x1000);
  }

  // ---------------------------------------------------------------- the record

  /** Allocates both tables from the boot allocator and freezes it. */
  method ReserveTables(bmm: MemblockSystem, len: nat) returns (ok: bool, framesAt: nat, forestAt: nat)
    requires bmm.Valid() && !bmm.frozen
    modifies bmm, bmm.freeBlocks, bmm.reservedBlocks
    ensures bmm.Valid() && bmm.managedBase == old(bmm.managedBase) && bmm.managedSize == old(bmm.managedSize)
    ensures ok <==> TablesFit(old(bmm.State()), len)
    ensures ok ==> bmm.frozen && bmm.freeBlocks.data == FrozenFree(old(bmm.State()), len)
    ensures ok ==> (framesAt, forestAt) == TablesAt(old(bmm.State()), len)
  {
    ghost var st := bmm.State();
    framesAt, forestAt := 0, 0;
    var frames := bmm.Reserve(RECORD_SIZE * len, 1);
    if frames.None? {
      return false, 0, 0;
    }
    var forest := bmm.Reserve(ForestBytes(len), 1);
    if forest.None? {
      return false, 0, 0;
    }
    AfterTablesKeeps(st, len);
    bmm.Freeze();
    return true, frames.value, forest.value;
  }

  /**
   Builds the record from the boot allocator. None stands for the panic when a table does not fit. The record is in
   order with exactly the whole frames of the frozen free list free, if and only if every extent of that list is
   eligible.
   */
  method New(bmm: MemblockSystem) returns (pmr: Option<PhysicalMemoryRecord>, framesAt: nat, forestAt: nat)
    requires bmm.Valid() && !bmm.frozen && Ready(bmm.State(), bmm.managedBase, bmm.managedSize)
    modifies bmm, bmm.freeBlocks, bmm.reservedBlocks
    ensures bmm.Valid() && bmm.managedBase == old(bmm.managedBase) && bmm.managedSize == old(bmm.managedSize)
    ensures pmr.Some? <==> TablesFit(old(bmm.State()), ManagedFrames(bmm.managedBase, bmm.managedSize).1)
    ensures pmr.Some? ==>
              var (base, len) := ManagedFrames(bmm.managedBase, bmm.managedSize);
              && bmm.frozen && bmm.freeBlocks.data == FrozenFree(old(bmm.State()), len)
              && (framesAt, forestAt) == TablesAt(old(bmm.State()), len)
              && HandedOver(pmr.value, bmm.freeBlocks.data, base, len)
    ensures pmr.Some? ==> fresh(pmr.value.buddy) && fresh(pmr.value.buddy.forest.buf) && fresh(pmr.value.frames)
  {
    ghost var st := bmm.State();
    var (base, len) := ManagedFrames(bmm.managedBase, bmm.managedSize);
    ManagedFramesCover(bmm.managedBase, bmm.managedSize);
    if TablesFit(st, len) { FrozenInManaged(st, len, bmm.managedBase, bmm.managedSize, base); }
    var ok;
    ok, framesAt, forestAt := ReserveTables(bmm, len);
    if !ok {
      return None, 0, 0;
    }
    var p := Build(bmm.freeBlocks.data, base, len);
    pmr := Some(p);
  }

  /** The whole frames are the free frames of a record in order, if and only if every extent is eligible. */
  ghost predicate HandedOver(pmr: PhysicalMemoryRecord, free: seq<Memblock>, base: nat, len: nat)
    reads pmr.buddy, pmr.buddy.forest.buf, pmr.frames
  {
    && Extents(free, base, len)
    && pmr.base == base && pmr.frames.Length == len && pmr.buddy.maxOrder == Buddy.OrderFor(len)
    && pmr.buddy.forest.treeCnt == TreesFor(len) && pmr.buddy.forest.buf.Length == ForestBytes(len)
    && (Consistent(pmr.buddy.State(), pmr.buddy.maxOrder, {}, WholeFrames(free, base, len)) <==>
         AllEligible(free, base))
    && (AllEligible(free, base) ==>
          && pmr.Valid() && pmr.buddy.held == {}
          && FreeFrames(pmr.buddy.State(), pmr.buddy.maxOrder) == WholeFrames(free, base, len) == pmr.buddy.managed
          && Offers(pmr.buddy.State(), pmr.buddy.maxOrder, PiecesOf(free, base, BUDDY_MAX_ORDER)))
  }

  /** A record over a list of free extents. */
  method Build(free: seq<Memblock>, base: nat, len: nat) returns (pmr: PhysicalMemoryRecord)
    requires Extents(free, base, len)
    ensures HandedOver(pmr, free, base, len)
    ensures fresh(pmr.buddy) && fresh(pmr.buddy.forest.buf) && fresh(pmr.frames)
  {
    var frames := new Forest.Byte[len];
    var buddy := new BuddySystem(len);
    GiveAll(buddy, free, base, len);
    TreesSuffice(len);
    pmr := new PhysicalMemoryRecord(frames, base, buddy);
    assert HeldFrames({}) == {};
  }
}
