/** Whole runs of page allocation and deallocation. */
module PhysicalRuns {
  import opened Bits
  import opened AddrRange
  import BuddyTree
  import opened BuddyForest
  import opened Buddy
  import opened PhysicalMemory

  /** One request of a caller that only gives back what it got. */
  datatype Request = Alloc(cnt: nat) | Dealloc(which: nat)

  /** A range of `len` frames in the hands of a caller that asked for `asked` of them. */
  datatype Held = Held(addr: nat, len: nat, asked: nat) {
    predicate Has(a: nat) { addr <= a < addr + len * FRAME_SIZE }
  }

  /** The range is that of the block, and at least as long as it was asked for. */
  predicate IsRange(h: Held, base: nat, b: Block) {
    h.addr == base + First(b) * FRAME_SIZE && h.len == Pow2(b.order) && h.asked <= h.len
  }

  /** `live` lists the held blocks, each once, at its address and with its length. */
  ghost predicate Lists(live: seq<Held>, blks: seq<Block>, held: set<Block>, base: nat) {
    && |live| == |blks|
    && (forall b :: b in held <==> b in blks)
    && (forall i, j | 0 <= i < j < |blks| :: blks[i] != blks[j])
    && (forall i | 0 <= i < |blks| :: IsRange(live[i], base, blks[i]))
  }

  function Without<T>(s: seq<T>, i: nat): seq<T>
    requires i < |s|
  {
    s[..i] + s[i + 1..]
  }

  lemma ListsAdd(live: seq<Held>, blks: seq<Block>, held: set<Block>, base: nat, b: Block, h: Held)
    requires Lists(live, blks, held, base) && b !in held
    requires IsRange(h, base, b)
    ensures Lists(live + [h], blks + [b], held + {b}, base)
  {
  }

  lemma ListsRemove(live: seq<Held>, blks: seq<Block>, held: set<Block>, base: nat, i: nat)
    requires Lists(live, blks, held, base) && i < |live|
    ensures Lists(Without(live, i), Without(blks, i), held - {blks[i]}, base)
  {
    var blks' := Without(blks, i);
    assert forall k | 0 <= k < |blks'| :: blks'[k] == if k < i then blks[k] else blks[k + 1];
    forall b
      ensures b in held - {blks[i]} <==> b in blks'
    {
      if b in held && b != blks[i] {
        var k :| 0 <= k < |blks| && blks[k] == b;
        assert blks'[if k < i then k else k - 1] == b;
      }
    }
  }

  /** Ranges of disjoint blocks share no byte. */
  lemma RangesApart(base: nat, b: Block, c: Block, h: Held, k: Held, a: nat)
    requires Frames(b) !! Frames(c) && IsRange(h, base, b) && IsRange(k, base, c)
    ensures !(h.Has(a) && k.Has(a))
  {
    if h.Has(a) && k.Has(a) {
      InHeldFrames(base, b, h, a);
      InHeldFrames(base, c, k, a);
      assert false;
    }
  }

  lemma InHeldFrames(base: nat, b: Block, h: Held, a: nat)
    requires IsRange(h, base, b) && h.Has(a)
    ensures a >= base && (a - base) / FRAME_SIZE in Frames(b)
  {
    ShlAdd(b.num, 1, b.order);
    ShlPow2(0, b.order);
  }

  lemma LiveApart(live: seq<Held>, blks: seq<Block>, trees: seq<BuddyTree.Tree>, md: nat, held: set<Block>,
                  managed: set<nat>, base: nat)
    requires Lists(live, blks, held, base) && Consistent(trees, md, held, managed)
    ensures forall i, j, a: nat | 0 <= i < j < |live| && live[i].Has(a) :: !live[j].Has(a)
    ensures FreeFrames(trees, md) == managed - HeldFrames(held)
  {
    forall i, j, a: nat | 0 <= i < j < |live| && live[i].Has(a)
      ensures !live[j].Has(a)
    {
      HeldBlocksApart(trees, md, held, managed, blks[i]);
      RangesApart(base, blks[i], blks[j], live[i], live[j], a);
    }
    FreeByHeld(trees, md, held, managed);
  }

  // ---------------------------------------------------------------- runs

  /** The state of a run: the trees, and the ranges in the callers' hands with their blocks. */
  datatype State = State(trees: seq<BuddyTree.Tree>, live: seq<Held>, blks: seq<Block>)

  /** What the request does: the first fitting block is handed out, or none fits; or a live range is returned. */
  ghost predicate Serves(s: State, req: Request, s': State, md: nat, base: nat)
    requires |s.live| == |s.blks|
  {
    match req
    case Alloc(cnt) =>
      var order := AllocOrder(cnt, Small);
      if order <= md && !NoneFits(s.trees, md, order) then Hands(s, cnt, order, s', md, base) else s' == s
    case Dealloc(which) =>
      if which < |s.live| then Returns(s, which, s', md) else s' == s
  }

  ghost predicate Hands(s: State, cnt: nat, order: nat, s': State, md: nat, base: nat) {
    exists b, h ::
      && s'.live == s.live + [h] && s'.blks == s.blks + [b] && h.asked == cnt && b.order == order
      && IsRange(h, base, b) && FirstFit(s.trees, md, b) && Shifted(s.trees, s'.trees, md, b, false)
      && FreeFrames(s'.trees, md) == FreeFrames(s.trees, md) - Frames(b)
  }

  ghost predicate Returns(s: State, which: nat, s': State, md: nat)
    requires which < |s.live| == |s.blks|
  {
    && s'.live == Without(s.live, which) && s'.blks == Without(s.blks, which)
    && Shifted(s.trees, s'.trees, md, s.blks[which], true)
    && FreeFrames(s'.trees, md) == FreeFrames(s.trees, md) + Frames(s.blks[which])
  }

  /** The states of a run: one before each request, and one at the end. */
  ghost predicate Trace(trace: seq<State>, script: seq<Request>, md: nat, base: nat) {
    && |trace| == |script| + 1 && (forall n | 0 <= n < |trace| :: |trace[n].live| == |trace[n].blks|)
    && forall n: nat | n < |script| :: StepOf(trace, script, n, md, base)
  }

  ghost predicate StepOf(trace: seq<State>, script: seq<Request>, n: nat, md: nat, base: nat)
    requires |trace| == |script| + 1 && n < |script| && |trace[n].live| == |trace[n].blks|
  {
    Serves(trace[n], script[n], trace[n + 1], md, base)
  }

  lemma TraceSnoc(trace: seq<State>, script: seq<Request>, n: nat, s: State, md: nat, base: nat)
    requires n < |script| && Trace(trace, script[..n], md, base) && |s.live| == |s.blks|
    requires Serves(trace[n], script[n], s, md, base)
    ensures Trace(trace + [s], script[..n + 1], md, base)
  {
    var trace', script' := trace + [s], script[..n + 1];
    forall k: nat | k < |script'|
      ensures StepOf(trace', script', k, md, base)
    {
      if k < n { assert StepOf(trace, script[..n], k, md, base); }
    }
  }

  /** The record and the callers' ranges are in this state. */
  ghost predicate At(pmr: PhysicalMemoryRecord, s: State)
    reads pmr.buddy, pmr.buddy.forest.buf, pmr.frames
  {
    pmr.Valid() && s.trees == pmr.buddy.State() && Lists(s.live, s.blks, pmr.buddy.held, pmr.base)
  }

  /** The free frames, from the blocks that are held. */
  lemma FreeByHeld(trees: seq<BuddyTree.Tree>, md: nat, held: set<Block>, managed: set<nat>)
    requires Consistent(trees, md, held, managed)
    ensures FreeFrames(trees, md) == managed - HeldFrames(held)
  {
    forall b | b in held
      ensures Frames(b) !! FreeFrames(trees, md)
    {
      HeldBlocksApart(trees, md, held, managed, b);
    }
  }

  /** Handing out a block takes exactly its frames off the free ones. */
  lemma FreeAfterTake(trees: seq<BuddyTree.Tree>, trees': seq<BuddyTree.Tree>, md: nat, held: set<Block>,
                      managed: set<nat>, b: Block)
    requires Consistent(trees, md, held, managed) && Consistent(trees', md, held + {b}, managed)
    ensures FreeFrames(trees', md) == FreeFrames(trees, md) - Frames(b)
  {
    FreeByHeld(trees, md, held, managed);
    FreeByHeld(trees', md, held + {b}, managed);
    assert HeldFrames(held + {b}) == HeldFrames(held) + Frames(b);
  }

  /** Returning one adds exactly its frames. */
  lemma FreeAfterReturn(trees: seq<BuddyTree.Tree>, trees': seq<BuddyTree.Tree>, md: nat, held: set<Block>,
                        managed: set<nat>, b: Block)
    requires Consistent(trees, md, held, managed) && Consistent(trees', md, held - {b}, managed) && b in held
    ensures FreeFrames(trees', md) == FreeFrames(trees, md) + Frames(b)
  {
    FreeByHeld(trees, md, held, managed);
    FreeByHeld(trees', md, held - {b}, managed);
    assert HeldFrames(held) == HeldFrames(held - {b}) + Frames(b);
    HeldBlocksApart(trees, md, held, managed, b);
    assert Frames(b) !! HeldFrames(held - {b});
    assert Frames(b) <= HeldFrames(held) <= managed;
  }

  /** A first fit and no fit exclude each other. */
  lemma FitOrNone(trees: seq<BuddyTree.Tree>, md: nat, b: Block)
    requires FirstFit(trees, md, b)
    ensures b.order <= md && !NoneFits(trees, md, b.order)
  {
    RootInRange(|trees|, md, b);
  }

  method Allocate(pmr: PhysicalMemoryRecord, cnt: nat, live: seq<Held>, ghost blks: seq<Block>)
    returns (live': seq<Held>, ok: bool, ghost blks': seq<Block>)
    requires At(pmr, State(pmr.buddy.State(), live, blks))
    modifies pmr.buddy`held, pmr.buddy.forest.buf, pmr.frames
    ensures ok && At(pmr, State(pmr.buddy.State(), live', blks'))
    ensures Serves(State(old(pmr.buddy.State()), live, blks), Alloc(cnt), State(pmr.buddy.State(), live', blks'),
              pmr.buddy.maxOrder, pmr.base)
  {
    live', ok, blks' := live, true, blks;
    ghost var trees, held := pmr.buddy.State(), pmr.buddy.held;
    var r, blk := pmr.AllocatePages(cnt, Small);
    if !r.NoMemory? {
      SmallPagesAt(pmr.base, cnt, blk);
      ok := r.Pages?;
      ghost var h := Held(r.base, r.len, cnt);
      ListsAdd(live, blks, held, pmr.base, blk, h);
      FitOrNone(trees, pmr.buddy.maxOrder, blk);
      FreeAfterTake(trees, pmr.buddy.State(), pmr.buddy.maxOrder, held, pmr.buddy.managed, blk);
      live', blks' := live + [Held(r.base, r.len, cnt)], blks + [blk];
      assert IsRange(h, pmr.base, blk);
    }
  }

  method Deallocate(pmr: PhysicalMemoryRecord, which: nat, live: seq<Held>, ghost blks: seq<Block>)
    returns (live': seq<Held>, ok: bool, ghost blks': seq<Block>)
    requires At(pmr, State(pmr.buddy.State(), live, blks))
    modifies pmr.buddy`held, pmr.buddy`managed, pmr.buddy.forest.buf, pmr.frames
    ensures ok && At(pmr, State(pmr.buddy.State(), live', blks')) && pmr.buddy.managed == old(pmr.buddy.managed)
    ensures Serves(State(old(pmr.buddy.State()), live, blks), Dealloc(which), State(pmr.buddy.State(), live', blks'),
              pmr.buddy.maxOrder, pmr.base)
  {
    live', ok, blks' := live, true, blks;
    if which < |live| {
      ghost var trees, held := pmr.buddy.State(), pmr.buddy.held;
      assert blks[which] in held && IsRange(live[which], pmr.base, blks[which]);
      ok := pmr.DeallocatePages(live[which].addr, First(blks[which]), blks[which]);
      ListsRemove(live, blks, held, pmr.base, which);
      FreeAfterReturn(trees, pmr.buddy.State(), pmr.buddy.maxOrder, held, pmr.buddy.managed, blks[which]);
      live', blks' := Without(live, which), Without(blks, which);
    }
  }

  /**
   Any sequence of small-page requests: `ok` says that nothing panicked, so every deallocation of a
   live range passes the double-free assertion. Every request is served as described. The ranges in
   the caller's hands are as long as asked for and never overlap.
   */
  method Run(pmr: PhysicalMemoryRecord, script: seq<Request>)
    returns (live: seq<Held>, ok: bool, ghost blks: seq<Block>, ghost trace: seq<State>)
    requires pmr.Valid() && pmr.buddy.held == {}
    modifies pmr.buddy`held, pmr.buddy`managed, pmr.buddy.forest.buf, pmr.frames
    ensures ok && pmr.Valid() && Lists(live, blks, pmr.buddy.held, pmr.base)
    ensures Trace(trace, script, pmr.buddy.maxOrder, pmr.base)
    ensures trace[0] == State(old(pmr.buddy.State()), [], []) && trace[|script|] == State(pmr.buddy.State(), live, blks)
    ensures forall i | 0 <= i < |live| :: live[i].asked <= live[i].len
    ensures forall i, j, a: nat | 0 <= i < j < |live| && live[i].Has(a) :: !live[j].Has(a)
    ensures pmr.buddy.managed == old(pmr.buddy.managed)
    ensures FreeFrames(pmr.buddy.State(), pmr.buddy.maxOrder) == pmr.buddy.managed - HeldFrames(pmr.buddy.held)
  {
    live, ok, blks := [], true, [];
    trace := [State(pmr.buddy.State(), [], [])];
    for n := 0 to |script|
      invariant ok && At(pmr, State(pmr.buddy.State(), live, blks)) && pmr.buddy.managed == old(pmr.buddy.managed)
      invariant Trace(trace, script[..n], pmr.buddy.maxOrder, pmr.base)
      invariant trace[0] == State(old(pmr.buddy.State()), [], []) && trace[n] == State(pmr.buddy.State(), live, blks)
    {
      match script[n] {
        case Alloc(cnt) => live, ok, blks := Allocate(pmr, cnt, live, blks);
        case Dealloc(which) => live, ok, blks := Deallocate(pmr, which, live, blks);
      }
      TraceSnoc(trace, script, n, State(pmr.buddy.State(), live, blks), pmr.buddy.maxOrder, pmr.base);
      trace := trace + [State(pmr.buddy.State(), live, blks)];
    }
    assert script[..|script|] == script;
    LiveApart(live, blks, pmr.buddy.State(), pmr.buddy.maxOrder, pmr.buddy.held, pmr.buddy.managed, pmr.base);
  }
}
