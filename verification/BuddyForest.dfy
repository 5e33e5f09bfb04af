/**
 The state of the whole buddy system as a value: one tree per largest block, the blocks held by
 callers, and the frames that were ever given to the system. Every operation is one `Put` in one
 tree; the lemmas here show what each operation keeps.
 */
module BuddyForest {
  import opened Bits
  import opened BuddyTree

  /** The `num`-th block of `Pow2(order)` frames. */
  datatype Block = Block(order: nat, num: nat)

  predicate CoversFrame(b: Block, f: nat) {
    Shl(b.num, b.order) <= f < Shl(b.num + 1, b.order)
  }

  function Frames(b: Block): set<nat> {
    set f: nat | f < Shl(b.num + 1, b.order) && CoversFrame(b, f)
  }

  function RootOf(md: nat, b: Block): nat
    requires b.order <= md
  {
    Shr(b.num, md - b.order)
  }

  function LocalOf(md: nat, b: Block): (j: nat)
    requires b.order <= md
    ensures j < Pow2(md - b.order)
    ensures b.num == Shl(RootOf(md, b), md - b.order) + j
  {
    ShrBrackets(b.num, md - b.order);
    ShlAdd(RootOf(md, b), 1, md - b.order);
    ShlPow2(0, md - b.order);
    b.num - Shl(RootOf(md, b), md - b.order)
  }

  /** `trees` is a forest of classified trees of height `md`. */
  predicate WellFormed(trees: seq<Tree>, md: nat) {
    forall r | 0 <= r < |trees| :: Shape(trees[r], md) && Classified(trees[r], md)
  }

  predicate InRange(cnt: nat, md: nat, b: Block) {
    b.order <= md && b.num < Shl(cnt, md - b.order)
  }

  lemma RootInRange(cnt: nat, md: nat, b: Block)
    requires InRange(cnt, md, b)
    ensures RootOf(md, b) < cnt
  {
    ShrBrackets(b.num, md - b.order);
    if RootOf(md, b) >= cnt {
      ShlMonotone(cnt, RootOf(md, b), md - b.order);
    }
  }

  predicate FrameFree(trees: seq<Tree>, md: nat, f: nat)
    requires WellFormed(trees, md) && f < Shl(|trees|, md)
  {
    var b := Block(0, f);
    RootInRange(|trees|, md, b);
    IsFree(trees[RootOf(md, b)], md, LocalOf(md, b))
  }

  predicate BlockHeld(trees: seq<Tree>, md: nat, b: Block)
    requires WellFormed(trees, md) && InRange(|trees|, md, b)
  {
    RootInRange(|trees|, md, b);
    HeldAt(trees[RootOf(md, b)], md, b.order, LocalOf(md, b))
  }

  predicate BlockOpen(trees: seq<Tree>, md: nat, b: Block)
    requires WellFormed(trees, md) && InRange(|trees|, md, b)
  {
    RootInRange(|trees|, md, b);
    Open(trees[RootOf(md, b)], md, b.order, LocalOf(md, b))
  }

  function BlockTree(trees: seq<Tree>, md: nat, b: Block): (s: Tree)
    requires WellFormed(trees, md) && InRange(|trees|, md, b)
    ensures Shape(s, b.order)
  {
    RootInRange(|trees|, md, b);
    At(trees[RootOf(md, b)], md, b.order, LocalOf(md, b))
  }

  /** Replaces the tree of block `b` and recomputes the summaries above it. */
  function PutBlock(trees: seq<Tree>, md: nat, b: Block, s: Tree): (trees': seq<Tree>)
    requires WellFormed(trees, md) && InRange(|trees|, md, b) && Shape(s, b.order)
    ensures |trees'| == |trees|
  {
    RootInRange(|trees|, md, b);
    var r := RootOf(md, b);
    trees[r := Put(trees[r], md, b.order, LocalOf(md, b), s)]
  }

  function FreeFrames(trees: seq<Tree>, md: nat): set<nat>
    requires WellFormed(trees, md)
  {
    set f: nat | f < Shl(|trees|, md) && FrameFree(trees, md, f)
  }

  function HeldFrames(held: set<Block>): set<nat> {
    set b, f | b in held && f in Frames(b) :: f
  }

  /** Every reachable block of more than one frame that is taken as a unit is held by someone. */
  ghost predicate TakenAreHeld(trees: seq<Tree>, md: nat, held: set<Block>)
    requires WellFormed(trees, md)
  {
    forall b | InRange(|trees|, md, b) && b.order > 0 && BlockOpen(trees, md, b) &&
               Taken(BlockTree(trees, md, b), b.order) :: b in held
  }

  /** What every reachable state of the buddy system satisfies. */
  ghost predicate Consistent(trees: seq<Tree>, md: nat, held: set<Block>, managed: set<nat>) {
    && WellFormed(trees, md)
    && (forall b | b in held :: InRange(|trees|, md, b) && BlockHeld(trees, md, b))
    && TakenAreHeld(trees, md, held)
    && managed == FreeFrames(trees, md) + HeldFrames(held)
  }

  // ---------------------------------------------------------------- geometry

  /** Frame membership in a block, seen from the tree that contains the block. */
  lemma FramesAreWithin(cnt: nat, md: nat, b: Block, f: nat)
    requires InRange(cnt, md, b) && f < Shl(cnt, md)
    ensures f in Frames(b) <==>
            && RootOf(md, Block(0, f)) == RootOf(md, b)
            && Within(md, b.order, LocalOf(md, b), LocalOf(md, Block(0, f)))
  {
    var r, j, rf := RootOf(md, b), LocalOf(md, b), RootOf(md, Block(0, f));
    FramesInterval(cnt, md, b, f);
    WithinIsInterval(md, b.order, j, LocalOf(md, Block(0, f)));
    assert f == Shl(rf, md) + LocalOf(md, Block(0, f));
    if f in Frames(b) {
      RootUnique(md, r, f);
    }
  }

  /** The frames of a block, counted from the start of its tree. */
  lemma FramesInterval(cnt: nat, md: nat, b: Block, f: nat)
    requires InRange(cnt, md, b)
    ensures var r, j := RootOf(md, b), LocalOf(md, b);
            f in Frames(b) <==> Shl(r, md) + Shl(j, b.order) <= f < Shl(r, md) + Shl(j + 1, b.order)
  {
    TreeSpan(md, RootOf(md, b), b.order, LocalOf(md, b));
    TreeSpan(md, RootOf(md, b), b.order, LocalOf(md, b) + 1);
  }

  /** Shifting a block number inside a tree shifts the tree's start and the position separately. */
  lemma TreeSpan(md: nat, r: nat, k: nat, j: nat)
    requires k <= md
    ensures Shl(Shl(r, md - k) + j, k) == Shl(r, md) + Shl(j, k)
  {
    ShlAdd(Shl(r, md - k), j, k);
    ShlShl(r, md - k, k);
  }

  lemma RootUnique(md: nat, r: nat, f: nat)
    requires Shl(r, md) <= f < Shl(r, md) + Pow2(md)
    ensures RootOf(md, Block(0, f)) == r
  {
    ShlAdd(r, 1, md);
    ShlPow2(0, md);
    ShrUnique(f, md, r);
  }

  /** The frames of a block in range are frames of the forest. */
  lemma FramesInRange(cnt: nat, md: nat, b: Block, f: nat)
    requires InRange(cnt, md, b) && f in Frames(b)
    ensures f < Shl(cnt, md)
  {
    ShlMonotone(b.num + 1, Shl(cnt, md - b.order), b.order);
    ShlShl(cnt, md - b.order, b.order);
  }

  lemma SameBlock(md: nat, b: Block, c: Block)
    requires b.order <= md && c.order <= md
    requires b.order == c.order && RootOf(md, b) == RootOf(md, c) && LocalOf(md, b) == LocalOf(md, c)
    ensures b == c
  {
  }

  // ---------------------------------------------------------------- consequences of consistency

  /** Held blocks share no frame with each other and none with the free frames. */
  lemma HeldBlocksApart(trees: seq<Tree>, md: nat, held: set<Block>, managed: set<nat>, b: Block)
    requires Consistent(trees, md, held, managed) && b in held
    ensures Frames(b) !! FreeFrames(trees, md)
    ensures forall c | c in held && c != b :: Frames(c) !! Frames(b)
  {
    HeldBlockNotFree(trees, md, b);
    forall c | c in held && c != b
      ensures Frames(c) !! Frames(b)
    {
      HeldPairApart(trees, md, b, c);
    }
  }

  lemma HeldBlockNotFree(trees: seq<Tree>, md: nat, b: Block)
    requires WellFormed(trees, md) && InRange(|trees|, md, b) && BlockHeld(trees, md, b)
    ensures Frames(b) !! FreeFrames(trees, md)
  {
    RootInRange(|trees|, md, b);
    forall f | f in Frames(b)
      ensures f !in FreeFrames(trees, md)
    {
      FramesInRange(|trees|, md, b, f);
      FramesAreWithin(|trees|, md, b, f);
      HeldNotFree(trees[RootOf(md, b)], md, b.order, LocalOf(md, b), LocalOf(md, Block(0, f)));
    }
  }

  lemma HeldPairApart(trees: seq<Tree>, md: nat, b: Block, c: Block)
    requires WellFormed(trees, md) && InRange(|trees|, md, b) && InRange(|trees|, md, c) && b != c
    requires BlockHeld(trees, md, b) && BlockHeld(trees, md, c)
    ensures Frames(c) !! Frames(b)
  {
    RootInRange(|trees|, md, b);
    HeldIsOpen(trees[RootOf(md, b)], md, b.order, LocalOf(md, b));
    UnitHeldApart(trees, md, b, c);
  }

  /** A block that is taken as a unit shares no frame with another block that is held. */
  lemma UnitHeldApart(trees: seq<Tree>, md: nat, b: Block, c: Block)
    requires WellFormed(trees, md) && InRange(|trees|, md, b) && InRange(|trees|, md, c) && b != c
    requires BlockOpen(trees, md, b) && Taken(BlockTree(trees, md, b), b.order) && BlockHeld(trees, md, c)
    ensures Frames(c) !! Frames(b)
  {
    RootInRange(|trees|, md, b);
    if RootOf(md, b) == RootOf(md, c) {
      HeldApart(trees[RootOf(md, b)], md, b.order, LocalOf(md, b), c.order, LocalOf(md, c));
    }
    forall f | f in Frames(b)
      ensures f !in Frames(c)
    {
      if f in Frames(c) && RootOf(md, b) == RootOf(md, c) { SharedNotApart(|trees|, md, b, c, f); }
      if f in Frames(c) { SharedSameTree(|trees|, md, b, c, f); }
    }
  }

  lemma SharedSameTree(cnt: nat, md: nat, b: Block, c: Block, f: nat)
    requires InRange(cnt, md, b) && InRange(cnt, md, c) && f in Frames(b) && f in Frames(c)
    ensures RootOf(md, b) == RootOf(md, c)
  {
    FramesInRange(cnt, md, b, f);
    FramesAreWithin(cnt, md, b, f);
    FramesAreWithin(cnt, md, c, f);
  }

  /** Blocks with a common frame do not lie apart. */
  lemma SharedNotApart(cnt: nat, md: nat, b: Block, c: Block, f: nat)
    requires InRange(cnt, md, b) && InRange(cnt, md, c) && f in Frames(b) && f in Frames(c)
    ensures RootOf(md, b) == RootOf(md, c) && !Apart(md, b.order, LocalOf(md, b), c.order, LocalOf(md, c))
  {
    SharedSameTree(cnt, md, b, c, f);
    FramesInRange(cnt, md, b, f);
    FramesAreWithin(cnt, md, b, f);
    FramesAreWithin(cnt, md, c, f);
    if Apart(md, b.order, LocalOf(md, b), c.order, LocalOf(md, c)) {
      ApartDisjoint(md, b.order, LocalOf(md, b), c.order, LocalOf(md, c), LocalOf(md, Block(0, f)));
    }
  }

  /** Blocks without a common frame lie in different trees or apart in one tree. */
  lemma DisjointBlocksApart(cnt: nat, md: nat, b: Block, c: Block)
    requires InRange(cnt, md, b) && InRange(cnt, md, c) && Frames(b) !! Frames(c)
    requires RootOf(md, b) == RootOf(md, c)
    ensures Apart(md, b.order, LocalOf(md, b), c.order, LocalOf(md, c))
  {
    if !Apart(md, b.order, LocalOf(md, b), c.order, LocalOf(md, c)) {
      var j := NotApartShare(md, b.order, LocalOf(md, b), c.order, LocalOf(md, c));
      var f := FrameFromLocal(cnt, md, b, j);
      FramesAreWithin(cnt, md, b, f);
      FramesAreWithin(cnt, md, c, f);
      assert false;
    }
  }

  lemma FrameFromLocal(cnt: nat, md: nat, b: Block, j: nat) returns (f: nat)
    requires InRange(cnt, md, b) && j < Pow2(md)
    ensures f < Shl(cnt, md) && RootOf(md, Block(0, f)) == RootOf(md, b) && LocalOf(md, Block(0, f)) == j
  {
    var r := RootOf(md, b);
    f := Shl(r, md) + j;
    RootInRange(cnt, md, b);
    ShlAdd(r, 1, md);
    ShlPow2(0, md);
    ShrUnique(f, md, r);
    ShlMonotone(r + 1, cnt, md);
  }

  /** A block that no held block overlaps can be reached. */
  lemma UnheldIsOpen(trees: seq<Tree>, md: nat, held: set<Block>, managed: set<nat>, b: Block)
    requires Consistent(trees, md, held, managed) && InRange(|trees|, md, b)
    requires Frames(b) !! HeldFrames(held)
    ensures BlockOpen(trees, md, b)
  {
    RootInRange(|trees|, md, b);
    if !BlockOpen(trees, md, b) {
      var r, k, j := RootOf(md, b), b.order, LocalOf(md, b);
      var k', j' := ClosedBelowTaken(trees[r], md, k, j);
      var c := BlockFromLocal(|trees|, md, r, k', j');
      assert Frames(c) <= HeldFrames(held);
      DisjointBlocksApart(|trees|, md, b, c);
      assert false;
    }
  }

  lemma BlockFromLocal(cnt: nat, md: nat, r: nat, k: nat, j: nat) returns (b: Block)
    requires r < cnt && k <= md && j < Pow2(md - k)
    ensures b.order == k && InRange(cnt, md, b) && RootOf(md, b) == r && LocalOf(md, b) == j
  {
    b := Block(k, Shl(r, md - k) + j);
    ShlAdd(r, 1, md - k);
    ShlPow2(0, md - k);
    ShrUnique(b.num, md - k, r);
    ShlMonotone(r + 1, cnt, md - k);
  }

  // ---------------------------------------------------------------- transitions

  lemma PutBlockWellFormed(trees: seq<Tree>, md: nat, b: Block, s: Tree)
    requires WellFormed(trees, md) && InRange(|trees|, md, b) && BlockOpen(trees, md, b)
    requires Shape(s, b.order) && Classified(s, b.order)
    ensures WellFormed(PutBlock(trees, md, b, s), md)
  {
    RootInRange(|trees|, md, b);
    PutClassified(trees[RootOf(md, b)], md, b.order, LocalOf(md, b), s);
  }

  /** The free frames after a block was made full or taken. */
  lemma PutBlockFree(trees: seq<Tree>, md: nat, b: Block, s: Tree)
    requires WellFormed(trees, md) && InRange(|trees|, md, b) && BlockOpen(trees, md, b)
    requires Shape(s, b.order) && (Full(s, b.order) || Taken(s, b.order))
    ensures WellFormed(PutBlock(trees, md, b, s), md)
    ensures FreeFrames(PutBlock(trees, md, b, s), md) ==
            if Full(s, b.order) then FreeFrames(trees, md) + Frames(b) else FreeFrames(trees, md) - Frames(b)
  {
    PutBlockWellFormed(trees, md, b, s);
    var trees' := PutBlock(trees, md, b, s);
    RootInRange(|trees|, md, b);
    forall f: nat | f < Shl(|trees|, md)
      ensures FrameFree(trees', md, f) == if f in Frames(b) then Full(s, b.order) else FrameFree(trees, md, f)
    {
      FramesAreWithin(|trees|, md, b, f);
      RootInRange(|trees|, md, Block(0, f));
      PutFree(trees[RootOf(md, b)], md, b.order, LocalOf(md, b), s, LocalOf(md, Block(0, f)));
    }
    forall f | f in Frames(b)
      ensures f < Shl(|trees|, md)
    {
      FramesInRange(|trees|, md, b, f);
    }
  }

  /** A held block stays held when a block apart from it is replaced. */
  lemma PutBlockKeepsHeld(trees: seq<Tree>, md: nat, b: Block, s: Tree, c: Block)
    requires WellFormed(trees, md) && InRange(|trees|, md, b) && BlockOpen(trees, md, b)
    requires Shape(s, b.order) && Classified(s, b.order)
    requires InRange(|trees|, md, c) && BlockHeld(trees, md, c) && Frames(b) !! Frames(c)
    ensures WellFormed(PutBlock(trees, md, b, s), md)
    ensures BlockHeld(PutBlock(trees, md, b, s), md, c)
  {
    PutBlockWellFormed(trees, md, b, s);
    RootInRange(|trees|, md, b);
    RootInRange(|trees|, md, c);
    if RootOf(md, b) == RootOf(md, c) {
      DisjointBlocksApart(|trees|, md, b, c);
      PutKeepsHeld(trees[RootOf(md, b)], md, b.order, LocalOf(md, b), s, c.order, LocalOf(md, c));
    }
  }

  /** After `PutBlock`, whatever is taken as a unit is held, given that the block put in is held if taken. */
  lemma PutBlockTaken(trees: seq<Tree>, md: nat, held: set<Block>, held': set<Block>, b: Block, s: Tree)
    requires WellFormed(trees, md) && TakenAreHeld(trees, md, held)
    requires InRange(|trees|, md, b) && BlockOpen(trees, md, b)
    requires Shape(s, b.order) && (Full(s, b.order) || (Taken(s, b.order) && b in held'))
    requires held - {b} <= held'
    ensures WellFormed(PutBlock(trees, md, b, s), md)
    ensures TakenAreHeld(PutBlock(trees, md, b, s), md, held')
  {
    PutBlockWellFormed(trees, md, b, s);
    RootInRange(|trees|, md, b);
    var trees' := PutBlock(trees, md, b, s);
    var t, k, j := trees[RootOf(md, b)], b.order, LocalOf(md, b);
    forall c | InRange(|trees'|, md, c) && c.order > 0 && BlockOpen(trees', md, c) &&
               Taken(BlockTree(trees', md, c), c.order)
      ensures c in held'
    {
      if RootOf(md, b) == RootOf(md, c) {
        PutTaken(t, md, k, j, s, c.order, LocalOf(md, c));
        if (k, j) == (c.order, LocalOf(md, c)) {
          SameBlock(md, b, c);
          PutAt(t, md, k, j, s);
        } else {
          assert BlockOpen(trees, md, c) && Taken(BlockTree(trees, md, c), c.order);
          if c == b { assert false; }
        }
      } else {
        RootInRange(|trees|, md, c);
        assert BlockOpen(trees, md, c) && Taken(BlockTree(trees, md, c), c.order);
      }
    }
  }

  /** Handing out a full block keeps the state consistent and takes only free frames. */
  lemma ReserveKeepsConsistent(trees: seq<Tree>, md: nat, held: set<Block>, managed: set<nat>, b: Block, s: Tree)
    requires Consistent(trees, md, held, managed)
    requires InRange(|trees|, md, b) && BlockOpen(trees, md, b) && Full(BlockTree(trees, md, b), b.order)
    requires Shape(s, b.order) && Taken(s, b.order)
    ensures Consistent(PutBlock(trees, md, b, s), md, held + {b}, managed)
    ensures Frames(b) <= FreeFrames(trees, md)
    ensures FreeFrames(PutBlock(trees, md, b, s), md) == FreeFrames(trees, md) - Frames(b)
    ensures b !in held
  {
    var trees' := PutBlock(trees, md, b, s);
    PutBlockFree(trees, md, b, s);
    PutBlockTaken(trees, md, held, held + {b}, b, s);
    FullBlockIsFree(trees, md, b);
    RootInRange(|trees|, md, b);
    var t, k, j := trees[RootOf(md, b)], b.order, LocalOf(md, b);
    PutHolds(t, md, k, j, s);
    forall c | c in held
      ensures BlockHeld(trees', md, c)
    {
      HeldBlocksApart(trees, md, held, managed, c);
      PutBlockKeepsHeld(trees, md, b, s, c);
    }
    if b in held { HeldIsOpen(t, md, k, j); }
    assert HeldFrames(held + {b}) == HeldFrames(held) + Frames(b);
  }

  /** Every frame of a reachable full block is free. */
  lemma FullBlockIsFree(trees: seq<Tree>, md: nat, b: Block)
    requires WellFormed(trees, md) && InRange(|trees|, md, b)
    requires BlockOpen(trees, md, b) && Full(BlockTree(trees, md, b), b.order)
    ensures Frames(b) <= FreeFrames(trees, md)
  {
    RootInRange(|trees|, md, b);
    var t, k, j := trees[RootOf(md, b)], b.order, LocalOf(md, b);
    forall f | f in Frames(b)
      ensures f in FreeFrames(trees, md)
    {
      FramesInRange(|trees|, md, b, f);
      FramesAreWithin(|trees|, md, b, f);
      FullAtIsFree(t, md, k, j, LocalOf(md, Block(0, f)));
    }
  }

  lemma {:induction false} FullAtIsFree(t: Tree, o: nat, k: nat, j: nat, f: nat)
    requires Shape(t, o) && Classified(t, o) && k <= o && j < Pow2(o - k) && f < Pow2(o)
    requires Open(t, o, k, j) && Full(At(t, o, k, j), k) && Within(o, k, j, f)
    ensures IsFree(t, o, f)
    decreases o
  {
    if o > k {
      OpenChildren(t, o, k, j);
      ChildrenDecide(t, o, f);
      if j < Pow2(o - 1 - k) {
        FullAtIsFree(t.left, o - 1, k, j, f);
      } else {
        FullAtIsFree(t.right, o - 1, k, j - Pow2(o - 1 - k), f - Pow2(o - 1));
      }
    }
  }

  /** Returning a held block keeps the state consistent and frees exactly its frames. */
  lemma FreeKeepsConsistent(trees: seq<Tree>, md: nat, held: set<Block>, managed: set<nat>, b: Block, s: Tree)
    requires Consistent(trees, md, held, managed) && b in held
    requires Shape(s, b.order) && Full(s, b.order)
    ensures BlockOpen(trees, md, b) && Taken(BlockTree(trees, md, b), b.order)
    ensures Consistent(PutBlock(trees, md, b, s), md, held - {b}, managed)
    ensures FreeFrames(PutBlock(trees, md, b, s), md) == FreeFrames(trees, md) + Frames(b)
  {
    RootInRange(|trees|, md, b);
    HeldIsOpen(trees[RootOf(md, b)], md, b.order, LocalOf(md, b));
    PutBlockFree(trees, md, b, s);
    PutBlockTaken(trees, md, held, held - {b}, b, s);
    HeldBlocksApart(trees, md, held, managed, b);
    forall c | c in held - {b}
      ensures BlockHeld(PutBlock(trees, md, b, s), md, c)
    {
      PutBlockKeepsHeld(trees, md, b, s, c);
    }
    assert HeldFrames(held) == HeldFrames(held - {b}) + Frames(b);
  }

  /** Forcing a block free adds exactly its frames, whatever they were, as long as nobody holds them. */
  lemma ForceKeepsConsistent(trees: seq<Tree>, md: nat, held: set<Block>, managed: set<nat>, b: Block, s: Tree)
    requires Consistent(trees, md, held, managed) && InRange(|trees|, md, b)
    requires Frames(b) !! HeldFrames(held)
    requires Shape(s, b.order) && Full(s, b.order)
    ensures Consistent(PutBlock(trees, md, b, s), md, held, managed + Frames(b))
  {
    UnheldIsOpen(trees, md, held, managed, b);
    PutBlockFree(trees, md, b, s);
    PutBlockTaken(trees, md, held, held, b, s);
    forall c | c in held
      ensures BlockHeld(PutBlock(trees, md, b, s), md, c)
    {
      assert Frames(c) <= HeldFrames(held);
      PutBlockKeepsHeld(trees, md, b, s, c);
    }
  }

  // ---------------------------------------------------------------- blocks are never joined

  /** The block lies inside one free block. */
  predicate BlockAvailable(trees: seq<Tree>, md: nat, b: Block)
    requires WellFormed(trees, md) && InRange(|trees|, md, b)
  {
    RootInRange(|trees|, md, b);
    Available(trees[RootOf(md, b)], md, b.order, LocalOf(md, b))
  }

  /** Block `c` is `b` or a larger block around it. */
  predicate Encloses(c: Block, b: Block) {
    c.order >= b.order && CoversFrame(c, Shl(b.num, b.order))
  }

  lemma BlockStart(b: Block)
    ensures Shl(b.num, b.order) in Frames(b)
  {
    ShlAdd(b.num, 1, b.order);
    ShlPow2(0, b.order);
  }

  lemma EnclosesEqual(c: Block, b: Block)
    requires Encloses(c, b) && c.order == b.order
    ensures c == b
  {
    ShlAdd(b.num, 1, b.order);
    ShlPow2(0, b.order);
    ShrUnique(Shl(b.num, b.order), b.order, b.num);
    ShrUnique(Shl(b.num, b.order), b.order, c.num);
  }

  /** Of two blocks with a common frame, the larger one is around the other. */
  lemma SharedEncloses(b: Block, c: Block, f: nat)
    requires f in Frames(b) && f in Frames(c) && c.order <= b.order
    ensures Encloses(b, c)
  {
    var e := b.order - c.order;
    ShrUnique(f, b.order, b.num);
    ShrUnique(f, c.order, c.num);
    ShrShr(f, c.order, e);
    ShlShl(b.num, e, c.order);
    ShlShl(b.num + 1, e, c.order);
    ShrBrackets(c.num, e);
    ShlMonotone(Shl(b.num, e), c.num, c.order);
    BlockBefore(c, Shl(b.num + 1, e));
  }

  lemma BlockBefore(c: Block, n: nat)
    requires c.num < n
    ensures Shl(c.num, c.order) < Shl(n, c.order)
  {
    ShlAdd(c.num, 1, c.order);
    ShlPow2(0, c.order);
    ShlMonotone(c.num + 1, n, c.order);
  }

  /** Without a free frame no block can be handed out. */
  lemma NoneAvailable(trees: seq<Tree>, md: nat, c: Block)
    requires WellFormed(trees, md) && InRange(|trees|, md, c) && FreeFrames(trees, md) == {}
    ensures !BlockAvailable(trees, md, c)
  {
    if BlockAvailable(trees, md, c) { var f := AvailableFree(trees, md, c); }
  }

  lemma AvailableFree(trees: seq<Tree>, md: nat, c: Block) returns (f: nat)
    requires WellFormed(trees, md) && InRange(|trees|, md, c) && BlockAvailable(trees, md, c)
    ensures f in FreeFrames(trees, md)
  {
    RootInRange(|trees|, md, c);
    var j := AvailableHasFree(trees[RootOf(md, c)], md, c.order, LocalOf(md, c));
    f := FrameFromLocal(|trees|, md, c, j);
  }

  /**
   * Which blocks can be handed out after one block was handed out or became free: those apart from it as before; of
   * the others none if it was handed out, and exactly the block and what lies inside it if it became free.
   */
  ghost predicate Shifted(trees: seq<Tree>, trees': seq<Tree>, md: nat, b: Block, free: bool) {
    && WellFormed(trees, md) && WellFormed(trees', md) && |trees'| == |trees|
    && forall c | InRange(|trees|, md, c) ::
         BlockAvailable(trees', md, c) <==>
         if Frames(b) !! Frames(c) then BlockAvailable(trees, md, c) else free && Encloses(b, c)
  }

  lemma PutBlockShifts(trees: seq<Tree>, md: nat, b: Block, s: Tree)
    requires WellFormed(trees, md) && InRange(|trees|, md, b) && BlockOpen(trees, md, b)
    requires Shape(s, b.order) && (Full(s, b.order) || Taken(s, b.order))
    ensures Shifted(trees, PutBlock(trees, md, b, s), md, b, Full(s, b.order))
  {
    PutBlockWellFormed(trees, md, b, s);
    forall c | InRange(|trees|, md, c)
      ensures BlockAvailable(PutBlock(trees, md, b, s), md, c) <==>
              if Frames(b) !! Frames(c) then BlockAvailable(trees, md, c) else Full(s, b.order) && Encloses(b, c)
    {
      PutBlockAvailable(trees, md, b, s, c);
    }
  }

  lemma PutBlockAvailable(trees: seq<Tree>, md: nat, b: Block, s: Tree, c: Block)
    requires WellFormed(trees, md) && InRange(|trees|, md, b) && BlockOpen(trees, md, b) && InRange(|trees|, md, c)
    requires Shape(s, b.order) && (Full(s, b.order) || Taken(s, b.order))
    ensures WellFormed(PutBlock(trees, md, b, s), md)
    ensures BlockAvailable(PutBlock(trees, md, b, s), md, c) <==>
            if Frames(b) !! Frames(c) then BlockAvailable(trees, md, c) else Full(s, b.order) && Encloses(b, c)
  {
    if !(Frames(b) !! Frames(c)) {
      var f :| f in Frames(b) && f in Frames(c);
      PutBlockShared(trees, md, b, s, c, f);
    } else {
      PutBlockApart(trees, md, b, s, c);
    }
  }

  lemma PutBlockShared(trees: seq<Tree>, md: nat, b: Block, s: Tree, c: Block, f: nat)
    requires WellFormed(trees, md) && InRange(|trees|, md, b) && BlockOpen(trees, md, b) && InRange(|trees|, md, c)
    requires Shape(s, b.order) && (Full(s, b.order) || Taken(s, b.order)) && f in Frames(b) && f in Frames(c)
    ensures WellFormed(PutBlock(trees, md, b, s), md)
    ensures BlockAvailable(PutBlock(trees, md, b, s), md, c) <==> Full(s, b.order) && Encloses(b, c)
  {
    PutBlockWellFormed(trees, md, b, s);
    RootInRange(|trees|, md, b);
    var t := trees[RootOf(md, b)];
    SharedNotApart(|trees|, md, b, c, f);
    if c.order <= b.order {
      SharedEncloses(b, c, f);
      PutInside(t, md, b.order, LocalOf(md, b), s, c.order, LocalOf(md, c));
    } else {
      PutNotJoined(t, md, b.order, LocalOf(md, b), s, c.order, LocalOf(md, c));
    }
  }

  lemma PutBlockApart(trees: seq<Tree>, md: nat, b: Block, s: Tree, c: Block)
    requires WellFormed(trees, md) && InRange(|trees|, md, b) && BlockOpen(trees, md, b) && InRange(|trees|, md, c)
    requires Shape(s, b.order) && Classified(s, b.order) && Frames(b) !! Frames(c)
    ensures WellFormed(PutBlock(trees, md, b, s), md)
    ensures BlockAvailable(PutBlock(trees, md, b, s), md, c) <==> BlockAvailable(trees, md, c)
  {
    PutBlockWellFormed(trees, md, b, s);
    RootInRange(|trees|, md, b);
    RootInRange(|trees|, md, c);
    if RootOf(md, b) == RootOf(md, c) {
      DisjointBlocksApart(|trees|, md, b, c);
      PutKeepsAvailable(trees[RootOf(md, b)], md, b.order, LocalOf(md, b), s, c.order, LocalOf(md, c));
    }
  }

  /** When a block is returned, that block can be handed out again, and no larger block around it can. */
  lemma FreeJoinsNothing(trees: seq<Tree>, md: nat, b: Block, s: Tree, c: Block)
    requires WellFormed(trees, md) && InRange(|trees|, md, b) && BlockOpen(trees, md, b)
    requires Shape(s, b.order) && Full(s, b.order) && InRange(|trees|, md, c) && Encloses(c, b)
    ensures WellFormed(PutBlock(trees, md, b, s), md)
    ensures BlockAvailable(PutBlock(trees, md, b, s), md, c) <==> c == b
  {
    PutBlockWellFormed(trees, md, b, s);
    RootInRange(|trees|, md, b);
    var t := trees[RootOf(md, b)];
    if c.order == b.order {
      EnclosesEqual(c, b);
      BlockStart(b);
      SharedNotApart(|trees|, md, b, c, Shl(b.num, b.order));
      PutInside(t, md, b.order, LocalOf(md, b), s, b.order, LocalOf(md, b));
    } else {
      BlockStart(b);
      assert Shl(b.num, b.order) in Frames(c);
      SharedNotApart(|trees|, md, b, c, Shl(b.num, b.order));
      PutNotJoined(t, md, b.order, LocalOf(md, b), s, c.order, LocalOf(md, c));
    }
  }

  /**
   * A block with a zero byte that nobody holds: a single frame is not held in any block, a larger block is not taken.
   */
  lemma UnheldZero(trees: seq<Tree>, md: nat, held: set<Block>, managed: set<nat>, b: Block)
    requires Consistent(trees, md, held, managed) && InRange(|trees|, md, b) && b !in held
    requires BlockTree(trees, md, b).val == 0
    ensures BlockOpen(trees, md, b)
    ensures b.order == 0 ==> Frames(b) !! HeldFrames(held)
    ensures b.order > 0 ==> !Taken(BlockTree(trees, md, b), b.order)
  {
    RootInRange(|trees|, md, b);
    ZeroIsOpen(trees[RootOf(md, b)], md, b.order, LocalOf(md, b));
    if b.order == 0 {
      forall c | c in held
        ensures Frames(b) !! Frames(c)
      {
        UnitHeldApart(trees, md, b, c);
      }
    }
  }
}
