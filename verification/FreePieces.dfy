/** The blocks that a list of free frames is cut into, and what a buddy system that holds them can hand out. */
module FreePieces {
  import opened Bits
  import opened BuddyTree
  import opened BuddyForest
  import opened Buddy

  /** The order of the largest block that `n` frames have room for, where none is larger than `cap`. */
  function CutOrder(n: nat, cap: nat): (o: nat)
    requires n > 0
    ensures Pow2(o) <= n && o <= cap && (o < cap ==> n < Pow2(o + 1))
  {
    var o := if Log2(n) < cap then Log2(n) else cap;
    Pow2Monotone(o, Log2(n));
    o
  }

  /** The blocks that `n` frames from `start` on are cut into, each as large as fits. */
  function Pieces(start: nat, n: nat, cap: nat): set<Block>
    decreases n
  {
    if n == 0 then {}
    else
      var k := CutOrder(n, cap);
      {Block(k, Shr(start, k))} + Pieces(start + Pow2(k), n - Pow2(k), cap)
  }

  lemma PieceEnds(start: nat, k: nat)
    ensures EndsBy(Block(k, Shr(start, k)), start + Pow2(k))
  {
    ShrBrackets(start, k);
    ShlAdd(Shr(start, k), 1, k);
    ShlPow2(0, k);
  }

  /** Every block of the set ends at or before frame `bound`. */
  ghost predicate AllEndBy(pieces: set<Block>, bound: nat) {
    forall p | p in pieces :: EndsBy(p, bound)
  }

  lemma {:induction false} PiecesEnd(start: nat, n: nat, cap: nat)
    ensures AllEndBy(Pieces(start, n, cap), start + n)
    decreases n
  {
    if n > 0 {
      var k := CutOrder(n, cap);
      PiecesEnd(start + Pow2(k), n - Pow2(k), cap);
      PieceEnds(start, k);
    }
  }

  lemma {:induction false} PieceOrders(start: nat, n: nat, cap: nat, p: Block)
    requires n > 0 && p in Pieces(start, n, cap)
    ensures p.order <= CutOrder(n, cap)
    decreases n
  {
    var k := CutOrder(n, cap);
    if p != Block(k, Shr(start, k)) {
      PieceOrders(start + Pow2(k), n - Pow2(k), cap, p);
      CutSmaller(n - Pow2(k), n, cap);
    }
  }

  lemma CutSmaller(m: nat, n: nat, cap: nat)
    requires 0 < m <= n
    ensures CutOrder(m, cap) <= CutOrder(n, cap)
  {
    if CutOrder(n, cap) < CutOrder(m, cap) { Pow2Monotone(CutOrder(n, cap) + 1, CutOrder(m, cap)); }
  }

  /** Of `n` frames one piece is larger than `order` exactly if the frames have room for it. */
  lemma LargePiece(start: nat, n: nat, cap: nat, order: nat)
    ensures (exists p | p in Pieces(start, n, cap) :: p.order > order) <==> order < cap && Pow2(order + 1) <= n
  {
    if n > 0 {
      var k := CutOrder(n, cap);
      forall p | p in Pieces(start, n, cap)
        ensures p.order <= k
      {
        PieceOrders(start, n, cap, p);
      }
      assert Block(k, Shr(start, k)) in Pieces(start, n, cap);
      if k > order { Pow2Monotone(order + 1, k); } else { Pow2Monotone(k + 1, order + 1); }
    }
  }

  function WithPiece(gave: set<Block>, idx: nat, order: nat): set<Block> {
    gave + {Block(order, Shr(idx, order))}
  }

  /** The set once the pieces of `n` frames from `idx` on are added to it one by one. */
  function WithPieces(gave: set<Block>, idx: nat, n: nat, cap: nat): set<Block>
    decreases n
  {
    if n == 0 then gave
    else
      var k := CutOrder(n, cap);
      WithPieces(WithPiece(gave, idx, k), idx + Pow2(k), n - Pow2(k), cap)
  }

  lemma {:induction false} WithPiecesAdds(gave: set<Block>, idx: nat, n: nat, cap: nat)
    ensures WithPieces(gave, idx, n, cap) == gave + Pieces(idx, n, cap)
    decreases n
  {
    if n > 0 {
      var k := CutOrder(n, cap);
      WithPiecesAdds(WithPiece(gave, idx, k), idx + Pow2(k), n - Pow2(k), cap);
    }
  }

  // ---------------------------------------------------------------- what can be handed out

  /** The block lies inside one of the set. */
  ghost predicate InsideOne(pieces: set<Block>, c: Block) {
    exists p :: p in pieces && Encloses(p, c)
  }

  /** A block can be handed out exactly if it lies inside one of the pieces. */
  ghost predicate Offers(trees: seq<Tree>, md: nat, pieces: set<Block>) {
    && WellFormed(trees, md)
    && forall c | InRange(|trees|, md, c) :: BlockAvailable(trees, md, c) <==> InsideOne(pieces, c)
  }

  lemma OffersNothing(trees: seq<Tree>, md: nat)
    requires WellFormed(trees, md) && FreeFrames(trees, md) == {}
    ensures Offers(trees, md, {})
  {
    forall c | InRange(|trees|, md, c)
      ensures !BlockAvailable(trees, md, c)
    {
      NoneAvailable(trees, md, c);
    }
  }

  /** A piece in front of another shares no frame with it. */
  lemma EndsApart(p: Block, b: Block, idx: nat)
    requires EndsBy(p, idx) && idx <= Shl(b.num, b.order)
    ensures Frames(p) !! Frames(b)
  {
  }

  lemma InsideShares(p: Block, b: Block, c: Block)
    requires Encloses(p, c) && Frames(p) !! Frames(b)
    ensures Frames(b) !! Frames(c)
  {
    forall f | f in Frames(c) && f in Frames(b)
      ensures false
    {
      BlockStart(c);
      SharedBoth(p, c, f);
    }
  }

  /** Every frame of an enclosed block is one of the enclosing block. */
  lemma SharedBoth(p: Block, c: Block, f: nat)
    requires Encloses(p, c) && f in Frames(c)
    ensures f in Frames(p)
  {
    var e, start := p.order - c.order, Shl(c.num, c.order);
    BlockStart(c);
    ShrUnique(start, p.order, p.num);
    ShrUnique(start, c.order, c.num);
    ShrUnique(f, c.order, c.num);
    ShrShr(start, c.order, e);
    ShrShr(f, c.order, e);
    ShrBrackets(f, p.order);
  }

  /** One more piece became free. */
  lemma OffersMore(trees: seq<Tree>, trees': seq<Tree>, md: nat, pieces: set<Block>, b: Block)
    requires Offers(trees, md, pieces) && Shifted(trees, trees', md, b, true)
    requires forall p | p in pieces :: Frames(p) !! Frames(b)
    ensures Offers(trees', md, pieces + {b})
  {
    forall c | InRange(|trees'|, md, c)
      ensures BlockAvailable(trees', md, c) <==> InsideOne(pieces + {b}, c)
    {
      OffersMoreAt(trees, trees', md, pieces, b, c);
    }
  }

  lemma OffersMoreAt(trees: seq<Tree>, trees': seq<Tree>, md: nat, pieces: set<Block>, b: Block, c: Block)
    requires Offers(trees, md, pieces) && Shifted(trees, trees', md, b, true) && InRange(|trees|, md, c)
    requires forall p | p in pieces :: Frames(p) !! Frames(b)
    ensures BlockAvailable(trees', md, c) <==> InsideOne(pieces + {b}, c)
  {
    BlockStart(c);
    InsideSnoc(pieces, b, c);
    if InsideOne(pieces, c) {
      var p :| p in pieces && Encloses(p, c);
      InsideShares(p, b, c);
    }
    if Encloses(b, c) {
      SharedBoth(b, c, Shl(c.num, c.order));
    }
  }

  lemma InsideSnoc(pieces: set<Block>, b: Block, c: Block)
    ensures InsideOne(pieces + {b}, c) <==> InsideOne(pieces, c) || Encloses(b, c)
  {
    if InsideOne(pieces, c) {
      var p :| p in pieces && Encloses(p, c);
      assert p in pieces + {b};
    }
    assert b in pieces + {b};
  }

  /** All pieces are offered but those that the `n` frames from `idx` on are cut into; the others end before. */
  ghost predicate OffersAllBut(trees: seq<Tree>, md: nat, all: set<Block>, idx: nat, n: nat, cap: nat) {
    exists gave :: Offers(trees, md, gave) && PiecesLeft(all, gave, idx, n, cap)
  }

  ghost predicate PiecesLeft(all: set<Block>, gave: set<Block>, idx: nat, n: nat, cap: nat) {
    AllEndBy(gave, idx) && all == WithPieces(gave, idx, n, cap)
  }

  lemma OffersStart(trees: seq<Tree>, md: nat, gave: set<Block>, idx: nat, n: nat, cap: nat)
    requires Offers(trees, md, gave) && AllEndBy(gave, idx)
    ensures OffersAllBut(trees, md, gave + Pieces(idx, n, cap), idx, n, cap)
  {
    WithPiecesAdds(gave, idx, n, cap);
    assert PiecesLeft(gave + Pieces(idx, n, cap), gave, idx, n, cap);
  }

  lemma OffersAll(trees: seq<Tree>, md: nat, all: set<Block>, idx: nat, cap: nat)
    requires OffersAllBut(trees, md, all, idx, 0, cap)
    ensures Offers(trees, md, all)
  {
  }

  /** The largest piece that the frames left have room for became free. */
  lemma OffersNext(trees: seq<Tree>, trees': seq<Tree>, md: nat, all: set<Block>, idx: nat, n: nat, cap: nat, k: nat,
                   idx': nat, n': nat)
    requires OffersAllBut(trees, md, all, idx, n, cap) && n > 0 && k == CutOrder(n, cap)
    requires idx' == idx + Pow2(k) && n' == n - Pow2(k)
    requires Shl(Shr(idx, k), k) == idx && Shifted(trees, trees', md, Block(k, Shr(idx, k)), true)
    ensures OffersAllBut(trees', md, all, idx', n', cap)
  {
    var gave :| Offers(trees, md, gave) && PiecesLeft(all, gave, idx, n, cap);
    var b := Block(k, Shr(idx, k));
    forall p | p in gave
      ensures Frames(p) !! Frames(b)
    {
      EndsApart(p, b, idx);
    }
    OffersMore(trees, trees', md, gave, b);
    EndsMore(gave, idx, k);
    assert PiecesLeft(all, WithPiece(gave, idx, k), idx', n', cap);
  }

  lemma EndsMore(gave: set<Block>, idx: nat, k: nat)
    requires AllEndBy(gave, idx)
    ensures AllEndBy(WithPiece(gave, idx, k), idx + Pow2(k))
  {
    PieceEnds(idx, k);
  }

  /** A block that ends in the forest is one of the forest. */
  lemma EndsInRange(cnt: nat, md: nat, p: Block, len: nat)
    requires p.order <= md && EndsBy(p, len) && len <= Shl(cnt, md)
    ensures InRange(cnt, md, p)
  {
    ShlShl(cnt, md - p.order, p.order);
    ShlCancel(p.num + 1, Shl(cnt, md - p.order), p.order);
  }

  /** Nothing larger than `order` can be handed out exactly if no piece is larger. */
  lemma OffersFit(trees: seq<Tree>, md: nat, pieces: set<Block>, order: nat)
    requires Offers(trees, md, pieces) && order <= md && forall p | p in pieces :: InRange(|trees|, md, p)
    ensures NoneFits(trees, md, order) <==> forall p | p in pieces :: p.order <= order
  {
    if p :| p in pieces && p.order > order {
      PieceFits(trees, md, pieces, order, p);
    } else if !NoneFits(trees, md, order) {
      FitIsPiece(trees, md, pieces, order);
    }
  }

  lemma PieceFits(trees: seq<Tree>, md: nat, pieces: set<Block>, order: nat, p: Block)
    requires Offers(trees, md, pieces) && order < p.order && p in pieces && InRange(|trees|, md, p)
    ensures !NoneFits(trees, md, order)
  {
    RootInRange(|trees|, md, p);
    BlockStart(p);
    assert Encloses(p, p);
    assert BlockAvailable(trees, md, p);
    var t := trees[RootOf(md, p)];
    ValueIsLargestFree(t, md, p.order);
    FreeAboveByValue(t, md, order);
  }

  lemma FitIsPiece(trees: seq<Tree>, md: nat, pieces: set<Block>, order: nat)
    requires Offers(trees, md, pieces) && order <= md && !NoneFits(trees, md, order)
    ensures exists p | p in pieces :: p.order > order
  {
    var r :| 0 <= r < |trees| && FreeAbove(trees[r], md, order);
    var j: nat :| j < Pow2(md - (order + 1)) && Available(trees[r], md, order + 1, j);
    var c := BlockFromLocal(|trees|, md, r, order + 1, j);
    assert BlockAvailable(trees, md, c);
    var p :| p in pieces && Encloses(p, c);
  }
}
