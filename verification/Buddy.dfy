/** The buddy allocator: blocks of `Pow2(order)` frames, tracked by one byte per tree node. */
module Buddy {
  import opened Options
  import opened Bits
  import opened BuddyTree
  import opened BuddyForest
  import opened Forest

  const BUDDY_MAX_ORDER: nat := 18

  // ---------------------------------------------------------------- the upward repair

  /** Every strict ancestor of node `c` (height `h`) is full or a summary, and classified. */
  predicate UpPath(b: seq<Byte>, cnt: nat, c: nat, h: nat, md: nat)
    requires h <= md
    decreases md - h
  {
    h == md ||
    (var p := TreeOf(b, cnt, c / 2, h + 1);
     && Classified(p, h + 1) && (Full(p, h + 1) || Summary(p))
     && UpPath(b, cnt, c / 2, h + 1, md))
  }

  /** An open path, seen from its lower end. */
  lemma {:induction false} OpenUp(b: seq<Byte>, cnt: nat, n: nat, h: nat, md: nat, k: nat, j: nat)
    requires k <= h <= md && j < Pow2(h - k)
    requires Classified(TreeOf(b, cnt, n, h), h) && Open(TreeOf(b, cnt, n, h), h, k, j)
    requires UpPath(b, cnt, n, h, md)
    ensures UpPath(b, cnt, Shl(n, h - k) + j, k, md)
    decreases h
  {
    if h > k {
      var c, j' := OpenChild(b, cnt, n, h, k, j);
      StepUp(b, cnt, n, c, h - 1, md);
      OpenUp(b, cnt, c, h - 1, md, k, j');
    }
  }

  /** The first step of an open path. */
  lemma OpenChild(b: seq<Byte>, cnt: nat, n: nat, h: nat, k: nat, j: nat) returns (c: nat, j': nat)
    requires k < h && j < Pow2(h - k)
    requires Classified(TreeOf(b, cnt, n, h), h) && Open(TreeOf(b, cnt, n, h), h, k, j)
    ensures c / 2 == n && j' < Pow2(h - 1 - k) && Shl(c, h - 1 - k) + j' == Shl(n, h - k) + j
    ensures Full(TreeOf(b, cnt, n, h), h) || Summary(TreeOf(b, cnt, n, h))
    ensures Classified(TreeOf(b, cnt, c, h - 1), h - 1) && Open(TreeOf(b, cnt, c, h - 1), h - 1, k, j')
  {
    var half := Pow2(h - 1 - k);
    OpenChildren(TreeOf(b, cnt, n, h), h, k, j);
    if j < half {
      c, j' := 2 * n, j;
    } else {
      c, j' := 2 * n + 1, j - half;
      ShlAdd(2 * n, 1, h - 1 - k);
      ShlPow2(0, h - 1 - k);
    }
  }

  lemma StepUp(b: seq<Byte>, cnt: nat, n: nat, c: nat, h: nat, md: nat)
    requires h < md && c / 2 == n && UpPath(b, cnt, n, h + 1, md)
    requires var p := TreeOf(b, cnt, n, h + 1);
             Classified(p, h + 1) && (Full(p, h + 1) || Summary(p))
    ensures UpPath(b, cnt, c, h, md)
  {
  }

  /** Between `b0` and `b`, the node `c` got the tree that `Put` gives it, and nothing outside changed. */
  ghost predicate Repaired(b0: seq<Byte>, b: seq<Byte>, cnt: nat, c: nat, h: nat, k: nat, j: nat, s: Tree) {
    && k <= h && j < Pow2(h - k) && Shape(s, k)
    && TreeOf(b, cnt, c, h) == Put(TreeOf(b0, cnt, c, h), h, k, j, s)
    && (forall x: nat | Val(b, cnt, x) != Val(b0, cnt, x) :: InSub(x, c, h))
  }

  /** The position of node `c`'s block below its parent. */
  function JUp(c: nat, h: nat, k: nat, j: nat): (j': nat)
    requires k <= h && j < Pow2(h - k)
    ensures j' < Pow2(h + 1 - k)
    ensures Shl(c, h - k) + j == Shl(c / 2, h + 1 - k) + j'
  {
    if c % 2 == 0 then j
    else
      ShlAdd(c - 1, 1, h - k);
      ShlPow2(0, h - k);
      j + Pow2(h - k)
  }

  /** One level of repair: the parent's byte becomes the summary. */
  lemma RepairStep(b0: seq<Byte>, b: seq<Byte>, b': seq<Byte>, cnt: nat, c: nat, h: nat, k: nat, j: nat, s: Tree)
    returns (j': nat)
    requires c >= 2 && Repaired(b0, b, cnt, c, h, k, j, s)
    requires Written(b, b', cnt, c / 2, Max(Val(b, cnt, c), Val(b, cnt, SiblingOf(c))))
    ensures Repaired(b0, b', cnt, c / 2, h + 1, k, j', s)
    ensures Shl(c / 2, h + 1 - k) + j' == Shl(c, h - k) + j
  {
    RepairFrame(b0, b, b', cnt, c, h);
    j' := JUp(c, h, k, j);
  }

  /** Writing the parent changes neither child's tree. */
  lemma RepairFrame(b0: seq<Byte>, b: seq<Byte>, b': seq<Byte>, cnt: nat, c: nat, h: nat)
    requires c >= 2 && forall x: nat | Val(b, cnt, x) != Val(b0, cnt, x) :: InSub(x, c, h)
    requires Written(b, b', cnt, c / 2, Max(Val(b, cnt, c), Val(b, cnt, SiblingOf(c))))
    ensures forall x: nat | Val(b', cnt, x) != Val(b0, cnt, x) :: InSub(x, c / 2, h + 1)
    ensures TreeOf(b', cnt, c, h) == TreeOf(b, cnt, c, h)
    ensures TreeOf(b', cnt, SiblingOf(c), h) == TreeOf(b0, cnt, SiblingOf(c), h)
  {
    var q := c / 2;
    forall x: nat | Val(b', cnt, x) != Val(b0, cnt, x)
      ensures InSub(x, q, h + 1) && !InSub(x, SiblingOf(c), h)
    {
      if x == q {
        if InSub(q, SiblingOf(c), h) { InSubAbove(q, SiblingOf(c), h); }
      } else {
        InSubChild(x, q, c, h + 1);
        SiblingsDisjoint(x, c, h);
      }
    }
    forall x: nat | Val(b', cnt, x) != Val(b, cnt, x)
      ensures !InSub(x, c, h)
    {
      if InSub(q, c, h) { InSubAbove(q, c, h); }
    }
    TreeFrame(b, b', cnt, c, h);
    TreeFrame(b0, b', cnt, SiblingOf(c), h);
  }

  /** Node `n` lies `d` levels below the roots. */
  predicate OnRow(cnt: nat, d: nat, n: nat) {
    cnt > 0 && Shl(cnt, d) <= n < Shl(cnt, d + 1)
  }

  lemma RowUp(cnt: nat, d: nat, n: nat)
    requires d > 0 && OnRow(cnt, d, n)
    ensures OnRow(cnt, d - 1, n / 2) && n >= 2
  {
    ShlDouble(cnt, d - 1);
    ShlDouble(cnt, d);
    ShlAtLeast(cnt, d - 1);
  }

  /** Stopping early is sound: above a byte that did not change, every summary is already right. */
  lemma {:induction false} EarlyExit(b0: seq<Byte>, b: seq<Byte>, cnt: nat, q: nat, h: nat, md: nat, k: nat, j: nat,
                                     s: Tree)
    returns (n: nat, j': nat)
    requires h <= md && OnRow(cnt, md - h, q) && Repaired(b0, b, cnt, q, h, k, j, s)
    requires UpPath(b0, cnt, q, h, md) && Val(b, cnt, q) == Val(b0, cnt, q) <= h
    ensures OnRow(cnt, 0, n) && Repaired(b0, b, cnt, n, md, k, j', s)
    ensures Shl(n, md - k) + j' == Shl(q, h - k) + j
    decreases md - h
  {
    if h == md {
      n, j' := q, j;
    } else {
      var p := TreeOf(b0, cnt, q / 2, h + 1);
      ClassifiedValue(p, h + 1);
      RowUp(cnt, md - h, q);
      assert Val(b, cnt, q / 2) == Val(b0, cnt, q / 2) by {
        if InSub(q / 2, q, h) { InSubAbove(q / 2, q, h); }
      }
      assert Val(b, cnt, SiblingOf(q)) == Val(b0, cnt, SiblingOf(q)) by {
        if InSub(SiblingOf(q), q, h) { SiblingsDisjoint(SiblingOf(q), q, h); }
      }
      var j1 := RepairStep(b0, b, b, cnt, q, h, k, j, s);
      n, j' := EarlyExit(b0, b, cnt, q / 2, h + 1, md, k, j1, s);
    }
  }

  /** The node of a block. */
  function NodeOf(cnt: nat, md: nat, blk: Block): nat
    requires blk.order <= md
  {
    Shl(cnt, md - blk.order) + blk.num
  }

  function NodeTree(b: seq<Byte>, cnt: nat, md: nat, blk: Block): (t: Tree)
    requires blk.order <= md
    ensures Shape(t, blk.order)
  {
    TreeOf(b, cnt, NodeOf(cnt, md, blk), blk.order)
  }

  /** `b` came from the well-formed `b0` by changing the reachable block `blk` only. */
  ghost predicate Repairable(b0: seq<Byte>, b: seq<Byte>, cnt: nat, md: nat, blk: Block) {
    && InRange(cnt, md, blk)
    && WellFormed(Trees(b0, cnt, md), md)
    && BlockOpen(Trees(b0, cnt, md), md, blk)
    && Val(b, cnt, NodeOf(cnt, md, blk)) <= blk.order + 1
    && forall x: nat | Val(b, cnt, x) != Val(b0, cnt, x) :: InSub(x, NodeOf(cnt, md, blk), blk.order)
  }

  /** The state of the repair loop with the cursor at `c`. */
  ghost predicate Repairing(b0: seq<Byte>, b: seq<Byte>, cnt: nat, md: nat, c: Cursor, blk: Block, j: nat, s: Tree) {
    var h := md - c.depth;
    && c.depth <= md && OnRow(cnt, c.depth, c.offset) && blk.order <= h
    && UpPath(b0, cnt, c.offset, h, md)
    && Repaired(b0, b, cnt, c.offset, h, blk.order, j, s)
    && Val(b, cnt, c.offset) <= h + 1
    && Shl(c.offset, h - blk.order) + j == NodeOf(cnt, md, blk)
  }

  lemma NodeFromRoot(cnt: nat, md: nat, blk: Block)
    requires InRange(cnt, md, blk)
    ensures RootOf(md, blk) < cnt
    ensures Shl(cnt + RootOf(md, blk), md - blk.order) + LocalOf(md, blk) == NodeOf(cnt, md, blk)
    ensures OnRow(cnt, md - blk.order, NodeOf(cnt, md, blk))
  {
    RootInRange(cnt, md, blk);
    ShlAdd(cnt, RootOf(md, blk), md - blk.order);
    ShlDouble(cnt, md - blk.order);
  }

  lemma RootFromNode(cnt: nat, md: nat, blk: Block, n: nat, j: nat)
    requires InRange(cnt, md, blk) && OnRow(cnt, 0, n) && j < Pow2(md - blk.order)
    requires Shl(n, md - blk.order) + j == NodeOf(cnt, md, blk)
    ensures RootOf(md, blk) == n - cnt && LocalOf(md, blk) == j
  {
    var r, d := n - cnt, md - blk.order;
    ShlAdd(cnt, r, d);
    ShlAdd(r, 1, d);
    ShlPow2(0, d);
    ShrUnique(blk.num, d, r);
  }

  lemma BlockTreeIsNode(b: seq<Byte>, cnt: nat, md: nat, blk: Block)
    requires InRange(cnt, md, blk) && WellFormed(Trees(b, cnt, md), md)
    ensures BlockTree(Trees(b, cnt, md), md, blk) == NodeTree(b, cnt, md, blk)
  {
    NodeFromRoot(cnt, md, blk);
    TreesAt(b, cnt, md, RootOf(md, blk));
    TreeOfAt(b, cnt, cnt + RootOf(md, blk), md, blk.order, LocalOf(md, blk));
  }

  /** Writing one node changes the value at the top of its tree. */
  lemma SetNode(b: seq<Byte>, b': seq<Byte>, cnt: nat, n: nat, h: nat, v: Byte)
    requires n > 0 && Written(b, b', cnt, n, v)
    ensures TreeOf(b', cnt, n, h) == TreeOf(b, cnt, n, h).(val := v)
  {
    if h > 0 {
      forall x: nat | Val(b, cnt, x) != Val(b', cnt, x)
        ensures !InSub(x, 2 * n, h - 1) && !InSub(x, 2 * n + 1, h - 1)
      {
      }
      TreeFrame(b, b', cnt, 2 * n, h - 1);
      TreeFrame(b, b', cnt, 2 * n + 1, h - 1);
    }
  }

  lemma NodeUpPath(b: seq<Byte>, cnt: nat, md: nat, blk: Block)
    requires InRange(cnt, md, blk) && WellFormed(Trees(b, cnt, md), md) && BlockOpen(Trees(b, cnt, md), md, blk)
    ensures UpPath(b, cnt, NodeOf(cnt, md, blk), blk.order, md)
    ensures OnRow(cnt, md - blk.order, NodeOf(cnt, md, blk))
  {
    NodeFromRoot(cnt, md, blk);
    var r := RootOf(md, blk);
    TreesAt(b, cnt, md, r);
    OpenUp(b, cnt, cnt + r, md, md, blk.order, LocalOf(md, blk));
  }

  lemma StartRepair(b0: seq<Byte>, b: seq<Byte>, cnt: nat, md: nat, c: Cursor, blk: Block)
    requires Repairable(b0, b, cnt, md, blk)
    requires c.depth == md - blk.order && c.offset == NodeOf(cnt, md, blk)
    ensures Repairing(b0, b, cnt, md, c, blk, 0, NodeTree(b, cnt, md, blk))
  {
    NodeUpPath(b0, cnt, md, blk);
  }

  lemma RepairOne(b0: seq<Byte>, b: seq<Byte>, b': seq<Byte>, cnt: nat, md: nat, c: Cursor, blk: Block, j: nat, s: Tree)
    returns (j': nat)
    requires Repairing(b0, b, cnt, md, c, blk, j, s) && c.depth > 0
    requires Written(b, b', cnt, c.offset / 2, Max(Val(b, cnt, c.offset), Val(b, cnt, SiblingOf(c.offset))))
    ensures Repairing(b0, b', cnt, md, c.Up().0, blk, j', s)
    ensures Val(b', cnt, c.offset / 2) <= md - c.depth + 1
  {
    RowUp(cnt, c.depth, c.offset);
    SiblingValue(b0, b, cnt, c.offset, md - c.depth, md, blk.order, j, s);
    j' := RepairStep(b0, b, b', cnt, c.offset, md - c.depth, blk.order, j, s);
  }

  lemma SiblingValue(b0: seq<Byte>, b: seq<Byte>, cnt: nat, c: nat, h: nat, md: nat, k: nat, j: nat, s: Tree)
    requires h < md && c >= 2 && UpPath(b0, cnt, c, h, md) && Repaired(b0, b, cnt, c, h, k, j, s)
    ensures Val(b, cnt, SiblingOf(c)) == Val(b0, cnt, SiblingOf(c)) <= h + 1
  {
    if InSub(SiblingOf(c), c, h) { SiblingsDisjoint(SiblingOf(c), c, h); }
    var p := TreeOf(b0, cnt, c / 2, h + 1);
    assert Classified(p.left, h) && Classified(p.right, h);
    ClassifiedValue(p.left, h);
    ClassifiedValue(p.right, h);
  }

  lemma FinishRepair(b0: seq<Byte>, b: seq<Byte>, cnt: nat, md: nat, n: nat, blk: Block, j: nat, s: Tree)
    requires InRange(cnt, md, blk) && WellFormed(Trees(b0, cnt, md), md)
    requires OnRow(cnt, 0, n) && Repaired(b0, b, cnt, n, md, blk.order, j, s)
    requires Shl(n, md - blk.order) + j == NodeOf(cnt, md, blk)
    ensures Trees(b, cnt, md) == PutBlock(Trees(b0, cnt, md), md, blk, s)
  {
    RootFromNode(cnt, md, blk, n, j);
    OtherTrees(b0, b, cnt, md, n);
    TreesAt(b, cnt, md, n - cnt);
    TreesAt(b0, cnt, md, n - cnt);
  }

  /** A change below one root leaves the other trees alone. */
  lemma OtherTrees(b0: seq<Byte>, b: seq<Byte>, cnt: nat, md: nat, n: nat)
    requires OnRow(cnt, 0, n)
    requires forall x: nat | Val(b, cnt, x) != Val(b0, cnt, x) :: InSub(x, n, md)
    ensures cnt <= n < 2 * cnt
    ensures Trees(b, cnt, md) == Trees(b0, cnt, md)[n - cnt := Trees(b, cnt, md)[n - cnt]]
  {
    assert Shl(cnt, 1) == Shl(2 * cnt, 0);
    var ts, ts0 := Trees(b, cnt, md), Trees(b0, cnt, md);
    forall r | 0 <= r < cnt && r != n - cnt
      ensures ts[r] == ts0[r]
    {
      OtherTree(b0, b, cnt, md, n, cnt + r);
      TreesAt(b, cnt, md, r);
      TreesAt(b0, cnt, md, r);
    }
  }

  lemma OtherTree(b0: seq<Byte>, b: seq<Byte>, cnt: nat, md: nat, n: nat, n': nat)
    requires OnRow(cnt, 0, n) && OnRow(cnt, 0, n') && n != n'
    requires forall x: nat | Val(b, cnt, x) != Val(b0, cnt, x) :: InSub(x, n, md)
    ensures TreeOf(b, cnt, n', md) == TreeOf(b0, cnt, n', md)
  {
    assert Shl(cnt, 1) == Shl(2 * cnt, 0);
    forall x: nat | Val(b, cnt, x) != Val(b0, cnt, x)
      ensures !InSub(x, n', md)
    {
      if InSub(x, n', md) {
        if n' < n { TwoAncestors(x, n', n, md); } else { TwoAncestors(x, n, n', md); }
      }
    }
    TreeFrame(b, b0, cnt, n', md);
  }

  lemma FinishAtRoot(b0: seq<Byte>, b: seq<Byte>, bs: seq<Byte>, cnt: nat, md: nat, c: Cursor, blk: Block, j: nat,
                     s: Tree)
    requires Repairable(b0, bs, cnt, md, blk)
    requires Repairing(b0, b, cnt, md, c, blk, j, s) && c.depth == 0
    ensures Trees(b, cnt, md) == PutBlock(Trees(b0, cnt, md), md, blk, s)
  {
    FinishRepair(b0, b, cnt, md, c.offset, blk, j, s);
  }

  lemma FinishEarly(b0: seq<Byte>, b: seq<Byte>, bs: seq<Byte>, cnt: nat, md: nat, c: Cursor, blk: Block, j: nat,
                    s: Tree)
    requires Repairable(b0, bs, cnt, md, blk)
    requires Repairing(b0, b, cnt, md, c, blk, j, s) && c.depth > 0
    requires Written(b, b, cnt, c.offset / 2, Max(Val(b, cnt, c.offset), Val(b, cnt, SiblingOf(c.offset))))
    ensures Trees(b, cnt, md) == PutBlock(Trees(b0, cnt, md), md, blk, s)
  {
    ParentUnchanged(b0, b, cnt, md, c, blk, j, s);
    var j1 := RepairOne(b0, b, b, cnt, md, c, blk, j, s);
    var n, j2 := ExitAbove(b0, b, cnt, md, c.Up().0, blk, j1, s);
    FinishRepair(b0, b, cnt, md, n, blk, j2, s);
  }

  lemma ExitAbove(b0: seq<Byte>, b: seq<Byte>, cnt: nat, md: nat, c: Cursor, blk: Block, j: nat, s: Tree)
    returns (n: nat, j': nat)
    requires Repairing(b0, b, cnt, md, c, blk, j, s)
    requires Val(b, cnt, c.offset) == Val(b0, cnt, c.offset) <= md - c.depth
    ensures OnRow(cnt, 0, n) && Repaired(b0, b, cnt, n, md, blk.order, j', s)
    ensures blk.order <= md && Shl(n, md - blk.order) + j' == NodeOf(cnt, md, blk)
  {
    n, j' := EarlyExit(b0, b, cnt, c.offset, md - c.depth, md, blk.order, j, s);
  }

  lemma ParentUnchanged(b0: seq<Byte>, b: seq<Byte>, cnt: nat, md: nat, c: Cursor, blk: Block, j: nat, s: Tree)
    requires Repairing(b0, b, cnt, md, c, blk, j, s) && c.depth > 0
    ensures Val(b, cnt, c.offset / 2) == Val(b0, cnt, c.offset / 2)
  {
    RowUp(cnt, c.depth, c.offset);
  }

  lemma HeldByte(b: seq<Byte>, cnt: nat, md: nat, held: set<Block>, managed: set<nat>, blk: Block)
    requires Consistent(Trees(b, cnt, md), md, held, managed) && blk in held
    ensures InRange(cnt, md, blk) && Val(b, cnt, NodeOf(cnt, md, blk)) == 0
  {
    RootInRange(cnt, md, blk);
    HeldIsOpen(Trees(b, cnt, md)[RootOf(md, blk)], md, blk.order, LocalOf(md, blk));
    BlockTreeIsNode(b, cnt, md, blk);
  }

  /** The leaf of a free frame says so, whichever ancestor makes the frame free. */
  lemma FreeFrameByte(b: seq<Byte>, cnt: nat, md: nat, f: nat)
    requires WellFormed(Trees(b, cnt, md), md) && f < Shl(cnt, md) && FrameFree(Trees(b, cnt, md), md, f)
    ensures InRange(cnt, md, Block(0, f)) && Val(b, cnt, NodeOf(cnt, md, Block(0, f))) == 1
  {
    var blk := Block(0, f);
    RootInRange(cnt, md, blk);
    BlockTreeIsNode(b, cnt, md, blk);
    FreeLeaf(Trees(b, cnt, md)[RootOf(md, blk)], md, LocalOf(md, blk));
  }

  lemma {:induction false} FreeLeaf(t: Tree, o: nat, f: nat)
    requires Shape(t, o) && Classified(t, o) && f < Pow2(o) && IsFree(t, o, f)
    ensures At(t, o, 0, f).val == 1
    decreases o
  {
    if o > 0 {
      ClassifiedValue(t, o);
      if Full(t, o) {
        FullBelow(t, o, 0, f);
      } else if f < Pow2(o - 1) {
        FreeLeaf(t.left, o - 1, f);
      } else {
        FreeLeaf(t.right, o - 1, f - Pow2(o - 1));
      }
    }
  }

  /** Marking a held node as free and repairing above it returns exactly that block. */
  lemma FreedBlock(b0: seq<Byte>, b1: seq<Byte>, cnt: nat, md: nat, held: set<Block>, managed: set<nat>, blk: Block)
    requires Consistent(Trees(b0, cnt, md), md, held, managed) && blk in held
    requires InRange(cnt, md, blk) && blk.order < 255 && Written(b0, b1, cnt, NodeOf(cnt, md, blk), blk.order + 1)
    ensures Repairable(b0, b1, cnt, md, blk)
    ensures var trees' := PutBlock(Trees(b0, cnt, md), md, blk, NodeTree(b1, cnt, md, blk));
            && Consistent(trees', md, held - {blk}, managed)
            && FreeFrames(trees', md) == FreeFrames(Trees(b0, cnt, md), md) + Frames(blk)
  {
    var trees, s := Trees(b0, cnt, md), NodeTree(b1, cnt, md, blk);
    NodeFromRoot(cnt, md, blk);
    HeldIsOpen(trees[RootOf(md, blk)], md, blk.order, LocalOf(md, blk));
    BlockTreeIsNode(b0, cnt, md, blk);
    ShlAtLeast(cnt, md - blk.order);
    SetNode(b0, b1, cnt, NodeOf(cnt, md, blk), blk.order, blk.order + 1);
    FreeKeepsConsistent(trees, md, held, managed, blk, s);
  }

  /** Marking a single frame that nobody holds and that was never free makes it a managed frame. */
  lemma FreedHole(b0: seq<Byte>, b1: seq<Byte>, cnt: nat, md: nat, held: set<Block>, managed: set<nat>, blk: Block)
    requires Consistent(Trees(b0, cnt, md), md, held, managed) && InRange(cnt, md, blk) && blk !in held &&
             blk.order == 0
    requires Val(b0, cnt, NodeOf(cnt, md, blk)) == 0 && Written(b0, b1, cnt, NodeOf(cnt, md, blk), 1)
    ensures Repairable(b0, b1, cnt, md, blk)
    ensures Consistent(PutBlock(Trees(b0, cnt, md), md, blk, NodeTree(b1, cnt, md, blk)), md, held,
              managed + Frames(blk))
    ensures var trees := Trees(b0, cnt, md);
            Shifted(trees, PutBlock(trees, md, blk, NodeTree(b1, cnt, md, blk)), md, blk, true)
  {
    NodeFromRoot(cnt, md, blk);
    BlockTreeIsNode(b0, cnt, md, blk);
    UnheldZero(Trees(b0, cnt, md), md, held, managed, blk);
    ShlAtLeast(cnt, md);
    SetNode(b0, b1, cnt, NodeOf(cnt, md, blk), 0, 1);
    ForceKeepsConsistent(Trees(b0, cnt, md), md, held, managed, blk, NodeTree(b1, cnt, md, blk));
    PutBlockShifts(Trees(b0, cnt, md), md, blk, NodeTree(b1, cnt, md, blk));
  }

  /** Marking a larger block that nobody holds leaves a node that claims frames its children do not have. */
  lemma FreedUnheld(b0: seq<Byte>, b1: seq<Byte>, b2: seq<Byte>, cnt: nat, md: nat, held: set<Block>,
                    managed: set<nat>, blk: Block)
    requires Consistent(Trees(b0, cnt, md), md, held, managed) && InRange(cnt, md, blk) && blk !in held &&
             0 < blk.order < 255
    requires Val(b0, cnt, NodeOf(cnt, md, blk)) == 0 && Written(b0, b1, cnt, NodeOf(cnt, md, blk), blk.order + 1)
    requires forall x: nat | x >= NodeOf(cnt, md, blk) :: Val(b2, cnt, x) == Val(b1, cnt, x)
    ensures !WellFormed(Trees(b2, cnt, md), md)
  {
    var n, k := NodeOf(cnt, md, blk), blk.order;
    NodeFromRoot(cnt, md, blk);
    BlockTreeIsNode(b0, cnt, md, blk);
    UnheldZero(Trees(b0, cnt, md), md, held, managed, blk);
    if WellFormed(Trees(b2, cnt, md), md) {
      BlockTreeIsNode(b2, cnt, md, blk);
      ClaimedFull(Trees(b2, cnt, md)[RootOf(md, blk)], md, k, LocalOf(md, blk));
      ShlAtLeast(cnt, md - k);
      SameBelow(b0, b2, cnt, n, k);
    }
  }

  /** Buffers that agree above node `n` have the same trees below it. */
  lemma SameBelow(b: seq<Byte>, b': seq<Byte>, cnt: nat, n: nat, h: nat)
    requires n > 0 && h > 0 && forall x: nat | x > n :: Val(b, cnt, x) == Val(b', cnt, x)
    ensures TreeOf(b, cnt, n, h).left == TreeOf(b', cnt, n, h).left &&
            TreeOf(b, cnt, n, h).right == TreeOf(b', cnt, n, h).right
  {
    forall x: nat | Val(b, cnt, x) != Val(b', cnt, x)
      ensures !InSub(x, 2 * n, h - 1) && !InSub(x, 2 * n + 1, h - 1)
    {
    }
    TreeFrame(b, b', cnt, 2 * n, h - 1);
    TreeFrame(b, b', cnt, 2 * n + 1, h - 1);
  }

  /** Of the blocks around `blk` and `blk` itself, only `blk` can be handed out. */
  ghost predicate OnlyItself(trees: seq<Tree>, md: nat, blk: Block) {
    && WellFormed(trees, md)
    && forall c | InRange(|trees|, md, c) && Encloses(c, blk) :: BlockAvailable(trees, md, c) <==> c == blk
  }

  /** Returning a block joins it with nothing. */
  lemma FreedNotJoined(b0: seq<Byte>, b1: seq<Byte>, cnt: nat, md: nat, held: set<Block>, managed: set<nat>, blk: Block)
    requires Consistent(Trees(b0, cnt, md), md, held, managed) && blk in held
    requires InRange(cnt, md, blk) && blk.order < 255 && Written(b0, b1, cnt, NodeOf(cnt, md, blk), blk.order + 1)
    ensures OnlyItself(PutBlock(Trees(b0, cnt, md), md, blk, NodeTree(b1, cnt, md, blk)), md, blk)
    ensures var trees := Trees(b0, cnt, md);
            Shifted(trees, PutBlock(trees, md, blk, NodeTree(b1, cnt, md, blk)), md, blk, true)
  {
    var trees, s := Trees(b0, cnt, md), NodeTree(b1, cnt, md, blk);
    NodeFromRoot(cnt, md, blk);
    HeldIsOpen(trees[RootOf(md, blk)], md, blk.order, LocalOf(md, blk));
    BlockTreeIsNode(b0, cnt, md, blk);
    ShlAtLeast(cnt, md - blk.order);
    SetNode(b0, b1, cnt, NodeOf(cnt, md, blk), blk.order, blk.order + 1);
    PutBlockShifts(trees, md, blk, s);
    forall c | InRange(cnt, md, c) && Encloses(c, blk)
      ensures BlockAvailable(PutBlock(trees, md, blk, s), md, c) <==> c == blk
    {
      FreeJoinsNothing(trees, md, blk, s, c);
    }
  }

  /**
   What the return of a block with a zero byte does. A block that is held becomes available again, and no larger block
   around it does. Of the others, a single frame becomes managed, and a larger block breaks the invariant.
   */
  ghost predicate Freed(trees: seq<Tree>, trees': seq<Tree>, md: nat, held: set<Block>, managed: set<nat>, blk: Block)
    requires WellFormed(trees, md)
  {
    && (blk in held ==>
          && Consistent(trees', md, held - {blk}, managed)
          && FreeFrames(trees', md) == FreeFrames(trees, md) + Frames(blk)
          && OnlyItself(trees', md, blk) && Shifted(trees, trees', md, blk, true))
    && (blk !in held && blk.order == 0 ==>
          && Consistent(trees', md, held - {blk}, managed + Frames(blk))
          && Shifted(trees, trees', md, blk, true))
    && (blk !in held && blk.order > 0 ==> !WellFormed(trees', md))
  }

  lemma FreedRepaired(b0: seq<Byte>, b1: seq<Byte>, cnt: nat, md: nat, held: set<Block>, managed: set<nat>, blk: Block)
    requires Consistent(Trees(b0, cnt, md), md, held, managed) && InRange(cnt, md, blk) && blk.order < 255
    requires Val(b0, cnt, NodeOf(cnt, md, blk)) == 0 && Written(b0, b1, cnt, NodeOf(cnt, md, blk), blk.order + 1)
    requires blk in held || blk.order == 0
    ensures Repairable(b0, b1, cnt, md, blk)
    ensures Freed(Trees(b0, cnt, md), PutBlock(Trees(b0, cnt, md), md, blk, NodeTree(b1, cnt, md, blk)), md, held,
              managed, blk)
  {
    if blk in held {
      FreedBlock(b0, b1, cnt, md, held, managed, blk);
      FreedNotJoined(b0, b1, cnt, md, held, managed, blk);
    } else {
      FreedHole(b0, b1, cnt, md, held, managed, blk);
      assert held - {blk} == held;
    }
  }

  // ---------------------------------------------------------------- the search

  /** Node `n` (height `h`) holds the block that the search of `order` is to find, at node `goal`. */
  predicate Leads(b: seq<Byte>, cnt: nat, n: nat, h: nat, order: nat, goal: nat) {
    var t := TreeOf(b, cnt, n, h);
    && Classified(t, h) && order <= h && t.val > order
    && Find(t, h, order) >= 0
    && Shl(n, h - order) + Find(t, h, order) == goal
  }

  /** The search goes into the left child if that has a block, and else into the right child. */
  lemma FindDown(t: Tree, h: nat, order: nat)
    requires Shape(t, h) && Classified(t, h) && order <= h && t.val > order && !(t.val - 1 == order == h)
    ensures h > order && Classified(t.left, h - 1) && Classified(t.right, h - 1)
    ensures Find(t, h, order) == if t.left.val > order then Find(t.left, h - 1, order)
            else Find(t.right, h - 1, order) + Pow2(h - 1 - order)
    ensures t.left.val > order ==> Find(t.left, h - 1, order) >= 0
    ensures t.left.val <= order ==> t.right.val > order && Find(t.right, h - 1, order) >= 0
  {
    ClassifiedValue(t, h);
    assert !Taken(t, h);
    FindsFirstAvailable(t.left, h - 1, order);
    FindsFirstAvailable(t.right, h - 1, order);
  }

  /** Below a node that leads to the goal, the left child does, or it can be skipped and the right does. */
  lemma LeadsDown(b: seq<Byte>, cnt: nat, n: nat, h: nat, order: nat, goal: nat)
    requires Leads(b, cnt, n, h, order, goal)
    requires !(Val(b, cnt, n) - 1 == order == h)
    ensures h > order
    ensures OnTrack(b, cnt, h - 1, 2 * n, 2 * n + 1, order, goal)
  {
    var t := TreeOf(b, cnt, n, h);
    FindDown(t, h, order);
    var l, r := TreeOf(b, cnt, 2 * n, h - 1), TreeOf(b, cnt, 2 * n + 1, h - 1);
    GoalBelow(n, h, order);
    if l.val > order {
      TrackNode(b, cnt, 2 * n, 2 * n + 1, h - 1, order, l, goal);
    } else {
      TrackOther(b, cnt, 2 * n, 2 * n + 1, h - 1, order, l, r, goal);
    }
  }

  lemma GoalBelow(n: nat, h: nat, order: nat)
    requires order < h
    ensures Shl(2 * n, h - 1 - order) == Shl(n, h - order)
    ensures Shl(2 * n + 1, h - 1 - order) == Shl(n, h - order) + Pow2(h - 1 - order)
  {
    ShlAdd(2 * n, 1, h - 1 - order);
    ShlPow2(0, h - 1 - order);
  }

  lemma TrackNode(b: seq<Byte>, cnt: nat, n: nat, m: nat, h: nat, order: nat, t: Tree, goal: nat)
    requires t == TreeOf(b, cnt, n, h) && order <= h && Shape(t, h) && Classified(t, h) && t.val > order
    requires Find(t, h, order) >= 0 && Shl(n, h - order) + Find(t, h, order) == goal
    ensures OnTrack(b, cnt, h, n, m, order, goal)
  {
  }

  lemma TrackOther(b: seq<Byte>, cnt: nat, n: nat, m: nat, h: nat, order: nat, dead: Tree, t: Tree, goal: nat)
    requires dead == TreeOf(b, cnt, n, h) && dead.val <= order
    requires t == TreeOf(b, cnt, m, h) && order <= h && Shape(t, h) && Classified(t, h) && t.val > order
    requires Find(t, h, order) >= 0 && Shl(m, h - order) + Find(t, h, order) == goal
    ensures OnTrack(b, cnt, h, n, m, order, goal)
  {
  }

  /**
   The state of the search: the cursor leads to the goal, or it is a dead end and the top of the
   stack is its right sibling, which does. Stack entries lie on different levels, and each level
   costs at most two iterations.
   */
  ghost predicate Searching(b: seq<Byte>, cnt: nat, md: nat, c: Cursor, stack: seq<Cursor>, order: nat, goal: nat,
                            steps: nat)
  {
    && c.depth <= md
    && OneEach(stack, c)
    && steps + (if Pending(c, stack) then 1 else 0) <= 2 * c.depth
    && OnTrack(b, cnt, md - c.depth, c.offset, Next(c, stack), order, goal)
  }

  /** Node `n` leads to the goal, or it is a dead end and node `m` leads there. */
  predicate OnTrack(b: seq<Byte>, cnt: nat, h: nat, n: nat, m: nat, order: nat, goal: nat) {
    || Leads(b, cnt, n, h, order, goal)
    || (Val(b, cnt, n) <= order && Leads(b, cnt, m, h, order, goal))
  }

  /** The node of the cursor's right sibling if that is still on the stack, else of the cursor. */
  function Next(c: Cursor, stack: seq<Cursor>): nat {
    if Pending(c, stack) then stack[|stack| - 1].offset else c.offset
  }

  /** Stack entries lie on different levels below the roots, none deeper than the cursor. */
  ghost predicate OneEach(stack: seq<Cursor>, c: Cursor) {
    && (forall i | 0 <= i < |stack| :: i < stack[i].depth <= c.depth)
    && (forall i, j | 0 <= i < j < |stack| :: stack[i].depth < stack[j].depth)
  }

  /** The right sibling of the cursor is still on the stack. */
  predicate Pending(c: Cursor, stack: seq<Cursor>) {
    stack != [] && stack[|stack| - 1].depth == c.depth
  }

  lemma SearchStart(b: seq<Byte>, cnt: nat, md: nat, c: Cursor, order: nat) returns (goal: nat)
    requires c.depth == 0 && order <= md
    requires Classified(TreeOf(b, cnt, c.offset, md), md) && Val(b, cnt, c.offset) > order
    ensures Searching(b, cnt, md, c, [], order, goal, 0)
    ensures goal == GoalOf(b, cnt, md, c.offset, order)
  {
    FindsFirstAvailable(TreeOf(b, cnt, c.offset, md), md, order);
    goal := GoalOf(b, cnt, md, c.offset, order);
  }

  /** The node that the search below root node `n` is to find. */
  function GoalOf(b: seq<Byte>, cnt: nat, md: nat, n: nat, order: nat): int
    requires order <= md
  {
    Shl(n, md - order) + Find(TreeOf(b, cnt, n, md), md, order)
  }

  /** A dead end is left for its right sibling. */
  lemma SearchPop(b: seq<Byte>, cnt: nat, md: nat, c: Cursor, stack: seq<Cursor>, order: nat, goal: nat, steps: nat)
    requires Searching(b, cnt, md, c, stack, order, goal, steps) && Val(b, cnt, c.offset) <= order
    ensures stack != [] && steps < 2 * md
    ensures Searching(b, cnt, md, stack[|stack| - 1], stack[..|stack| - 1], order, goal, steps + 1)
  {
  }

  lemma SearchFound(b: seq<Byte>, cnt: nat, md: nat, c: Cursor, stack: seq<Cursor>, order: nat, goal: nat, steps: nat)
    requires Searching(b, cnt, md, c, stack, order, goal, steps)
    requires Val(b, cnt, c.offset) - 1 == order == md - c.depth
    ensures c.offset == goal && steps <= 2 * md
  {
  }

  lemma SearchDown(b: seq<Byte>, cnt: nat, md: nat, c: Cursor, stack: seq<Cursor>, order: nat, goal: nat, steps: nat)
    requires Searching(b, cnt, md, c, stack, order, goal, steps) && c.maxDepth == md
    requires Val(b, cnt, c.offset) > order && !(Val(b, cnt, c.offset) - 1 == order == md - c.depth)
    ensures c.Right().1 && c.Left().1
    ensures |stack| < md && steps < 2 * md
    ensures Searching(b, cnt, md, c.Left().0, stack + [c.Right().0], order, goal, steps + 1)
  {
    LeadsDown(b, cnt, c.offset, md - c.depth, order, goal);
    StackDown(md, c, stack);
  }

  /** Pushing the right child while moving to the left keeps one entry per level. */
  lemma StackDown(md: nat, c: Cursor, stack: seq<Cursor>)
    requires c.depth < md && c.maxDepth == md && OneEach(stack, c)
    ensures |stack| <= c.depth && OneEach(stack + [c.Right().0], c.Left().0)
    ensures Next(c.Left().0, stack + [c.Right().0]) == 2 * c.offset + 1
  {
    if stack != [] { assert stack[|stack| - 1].depth > |stack| - 1; }
  }

  /** Some free block of the tree is larger than `order`. */
  ghost predicate FreeAbove(t: Tree, md: nat, order: nat)
    requires Shape(t, md)
  {
    order < md && SomeAvailable(t, md, order + 1)
  }

  ghost predicate SomeAvailable(t: Tree, md: nat, k: nat)
    requires Shape(t, md) && k <= md
  {
    exists j: nat :: j < Pow2(md - k) && Available(t, md, k, j)
  }

  lemma FreeAboveByValue(t: Tree, md: nat, order: nat)
    requires Shape(t, md) && Classified(t, md) && order <= md
    ensures FreeAbove(t, md, order) <==> t.val > order + 1
  {
    ClassifiedValue(t, md);
    if order < md {
      var k := order + 1;
      ValueIsLargestFree(t, md, k);
    }
  }

  /** No tree has a free block larger than `order`. */
  ghost predicate NoneFits(trees: seq<Tree>, md: nat, order: nat) {
    && WellFormed(trees, md)
    && forall r | 0 <= r < |trees| :: !FreeAbove(trees[r], md, order)
  }

  /** The whole block is free and can be reached. */
  predicate Reservable(trees: seq<Tree>, md: nat, b: Block) {
    && WellFormed(trees, md) && InRange(|trees|, md, b)
    && BlockOpen(trees, md, b) && Full(BlockTree(trees, md, b), b.order)
  }

  /** `b` is the first available block of its order in the first tree with a larger free block. */
  ghost predicate FirstFit(trees: seq<Tree>, md: nat, b: Block) {
    && WellFormed(trees, md)
    && InRange(|trees|, md, b)
    && (RootInRange(|trees|, md, b);
        var r := RootOf(md, b);
        && FreeAbove(trees[r], md, b.order)
        && (forall r' | 0 <= r' < r :: !FreeAbove(trees[r'], md, b.order))
        && Available(trees[r], md, b.order, LocalOf(md, b))
        && forall j: nat | j < LocalOf(md, b) :: !Available(trees[r], md, b.order, j))
  }

  /** The byte of the `r`-th root. */
  function RootVal(b: seq<Byte>, cnt: nat, r: nat): Byte {
    Val(b, cnt, cnt + r)
  }

  /** The block that the search of the first suitable tree finds. */
  lemma FoundBlock(b: seq<Byte>, cnt: nat, md: nat, root: nat, order: nat) returns (blk: Block)
    requires WellFormed(Trees(b, cnt, md), md) && order <= md && root < cnt
    requires RootVal(b, cnt, root) > order + 1
    requires forall r: nat | r < root :: RootVal(b, cnt, r) <= order + 1
    ensures blk.order == order && InRange(cnt, md, blk)
    ensures NodeOf(cnt, md, blk) == GoalOf(b, cnt, md, cnt + root, order)
    ensures Reservable(Trees(b, cnt, md), md, blk)
    ensures FirstFit(Trees(b, cnt, md), md, blk)
  {
    var trees := Trees(b, cnt, md);
    TreesAt(b, cnt, md, root);
    blk := FoundInTree(trees, md, root, order);
    NodeFromRoot(cnt, md, blk);
    forall r: nat | r <= root
      ensures FreeAbove(trees[r], md, order) <==> r == root
    {
      TreesAt(b, cnt, md, r);
      assert trees[r].val == RootVal(b, cnt, r);
      FreeAboveByValue(trees[r], md, order);
    }
  }

  lemma FoundInTree(trees: seq<Tree>, md: nat, root: nat, order: nat) returns (blk: Block)
    requires WellFormed(trees, md) && order <= md && root < |trees| && trees[root].val > order
    ensures blk.order == order && InRange(|trees|, md, blk)
    ensures RootOf(md, blk) == root && LocalOf(md, blk) == Find(trees[root], md, order)
    ensures Reservable(trees, md, blk)
    ensures Available(trees[root], md, order, LocalOf(md, blk))
    ensures forall j: nat | j < LocalOf(md, blk) :: !Available(trees[root], md, order, j)
  {
    FindsFirstAvailable(trees[root], md, order);
    blk := BlockFromLocal(|trees|, md, root, order, Find(trees[root], md, order));
  }

  /** With no root byte above the request, no tree has a larger free block. */
  lemma NothingFound(b: seq<Byte>, cnt: nat, md: nat, order: nat)
    requires WellFormed(Trees(b, cnt, md), md) && order <= md
    requires forall r: nat | r < cnt :: RootVal(b, cnt, r) <= order + 1
    ensures NoneFits(Trees(b, cnt, md), md, order)
  {
    var trees := Trees(b, cnt, md);
    forall r: nat | r < cnt
      ensures !FreeAbove(trees[r], md, order)
    {
      TreesAt(b, cnt, md, r);
      assert trees[r].val == RootVal(b, cnt, r);
      FreeAboveByValue(trees[r], md, order);
    }
  }

  /** Marking a free node as taken and repairing above it hands out exactly that block. */
  lemma ReservedBlock(b0: seq<Byte>, b1: seq<Byte>, cnt: nat, md: nat, held: set<Block>, managed: set<nat>, blk: Block)
    requires Consistent(Trees(b0, cnt, md), md, held, managed)
    requires Reservable(Trees(b0, cnt, md), md, blk) && Written(b0, b1, cnt, NodeOf(cnt, md, blk), 0)
    ensures Repairable(b0, b1, cnt, md, blk)
    ensures blk !in held && Frames(blk) <= FreeFrames(Trees(b0, cnt, md), md)
    ensures var trees' := PutBlock(Trees(b0, cnt, md), md, blk, NodeTree(b1, cnt, md, blk));
            && Consistent(trees', md, held + {blk}, managed)
            && FreeFrames(trees', md) == FreeFrames(Trees(b0, cnt, md), md) - Frames(blk)
            && Shifted(Trees(b0, cnt, md), trees', md, blk, false)
  {
    NodeFromRoot(cnt, md, blk);
    BlockTreeIsNode(b0, cnt, md, blk);
    ShlAtLeast(cnt, md - blk.order);
    SetNode(b0, b1, cnt, NodeOf(cnt, md, blk), blk.order, 0);
    ReserveKeepsConsistent(Trees(b0, cnt, md), md, held, managed, blk, NodeTree(b1, cnt, md, blk));
    PutBlockShifts(Trees(b0, cnt, md), md, blk, NodeTree(b1, cnt, md, blk));
  }

  // ---------------------------------------------------------------- forcing blocks free

  /** `FreeForced(idx, k)` fills node `x` of height `h`. */
  predicate Fills(cnt: nat, md: nat, idx: nat, k: nat, h: nat, x: nat)
    requires h <= k <= md
  {
    Shl(cnt, md - h) + Shr(idx, h) <= x < Shl(cnt, md - h) + Shr(idx, h) + Pow2(k - h)
  }

  /** The nodes of heights `lo .. k` are filled, each with its own order, and no others changed. */
  ghost predicate Filled(b0: seq<Byte>, b: seq<Byte>, cnt: nat, md: nat, idx: nat, k: nat, lo: nat)
    requires k <= md
  {
    && (forall h: nat, x: nat | lo <= h <= k && Fills(cnt, md, idx, k, h, x) :: Val(b, cnt, x) == h + 1)
    && (forall x: nat | Val(b, cnt, x) != Val(b0, cnt, x) :: FilledBy(cnt, md, idx, k, lo, x))
  }

  ghost predicate FilledBy(cnt: nat, md: nat, idx: nat, k: nat, lo: nat, x: nat)
    requires k <= md
  {
    exists h: nat :: lo <= h <= k && Fills(cnt, md, idx, k, h, x)
  }

  /** Every slice that is filled lies on its level. */
  lemma FillOnRow(cnt: nat, md: nat, idx: nat, k: nat, h: nat)
    requires h <= k <= md && idx + Pow2(k) <= Shl(cnt, md)
    ensures Shr(idx, h) + Pow2(k - h) <= Shl(cnt, md - h)
  {
    ShrBrackets(idx, h);
    ShlAdd(Shr(idx, h), Pow2(k - h), h);
    ShlPow2(k - h, h);
    ShlShl(cnt, md - h, h);
    ShlCancel(Shr(idx, h) + Pow2(k - h), Shl(cnt, md - h), h);
  }

  lemma FillsRow(cnt: nat, md: nat, idx: nat, k: nat, h: nat, x: nat)
    requires h <= k <= md && idx + Pow2(k) <= Shl(cnt, md) && Fills(cnt, md, idx, k, h, x)
    ensures Shl(cnt, md - h) <= x < 2 * Shl(cnt, md - h)
  {
    FillOnRow(cnt, md, idx, k, h);
  }

  lemma RowsGrow(cnt: nat, md: nat, h: nat, h': nat)
    requires h < h' <= md
    ensures 2 * Shl(cnt, md - h') <= Shl(cnt, md - h)
  {
    ShlDouble(cnt, md - h');
    ShlGrows(cnt, md - h' + 1, md - h);
  }

  lemma FillsOneLevel(cnt: nat, md: nat, idx: nat, k: nat, h: nat, h': nat, x: nat)
    requires h <= k <= md && h' <= k && idx + Pow2(k) <= Shl(cnt, md)
    requires Fills(cnt, md, idx, k, h, x) && Fills(cnt, md, idx, k, h', x)
    ensures h == h'
  {
    FillsRow(cnt, md, idx, k, h, x);
    FillsRow(cnt, md, idx, k, h', x);
    if h < h' { RowsGrow(cnt, md, h, h'); }
    if h' < h { RowsGrow(cnt, md, h', h); }
  }

  /** Filling one more level. */
  lemma FillLevel(b0: seq<Byte>, b: seq<Byte>, b': seq<Byte>, cnt: nat, md: nat, idx: nat, k: nat, lo: nat)
    requires lo < k + 1 <= md + 1 && idx + Pow2(k) <= Shl(cnt, md) && Filled(b0, b, cnt, md, idx, k, lo + 1)
    requires forall x: nat | Fills(cnt, md, idx, k, lo, x) :: Val(b', cnt, x) == lo + 1
    requires forall x: nat | !Fills(cnt, md, idx, k, lo, x) :: Val(b', cnt, x) == Val(b, cnt, x)
    ensures Filled(b0, b', cnt, md, idx, k, lo)
  {
    forall h: nat, x: nat | lo <= h <= k && Fills(cnt, md, idx, k, h, x)
      ensures Val(b', cnt, x) == h + 1
    {
      if h != lo && Fills(cnt, md, idx, k, lo, x) { FillsOneLevel(cnt, md, idx, k, lo, h, x); }
    }
    forall x: nat | Val(b', cnt, x) != Val(b0, cnt, x)
      ensures FilledBy(cnt, md, idx, k, lo, x)
    {
      if !Fills(cnt, md, idx, k, lo, x) {
        assert FilledBy(cnt, md, idx, k, lo + 1, x);
      }
    }
  }

  /** When the first frame is a multiple of the block size, the filled nodes are one subtree. */
  lemma AlignedFills(cnt: nat, md: nat, blk: Block, h: nat, x: nat)
    requires h <= blk.order <= md
    ensures Fills(cnt, md, Shl(blk.num, blk.order), blk.order, h, x) <==>
            Shl(NodeOf(cnt, md, blk), blk.order - h) <= x < Shl(NodeOf(cnt, md, blk) + 1, blk.order - h)
  {
    var k, d := blk.order, blk.order - h;
    ShlShl(blk.num, d, h);
    ShrShl(Shl(blk.num, d), h);
    ShlShl(cnt, md - k, d);
    ShlAdd(Shl(cnt, md - k), blk.num, d);
    ShlAdd(NodeOf(cnt, md, blk), 1, d);
    ShlPow2(0, d);
  }

  lemma {:induction false} IntervalInSub(x: nat, n: nat, d: nat, h: nat)
    requires n > 0 && d <= h && Shl(n, d) <= x < Shl(n + 1, d)
    ensures InSub(x, n, h)
    decreases d
  {
    if d > 0 {
      ShlDouble(n, d - 1);
      ShlDouble(n + 1, d - 1);
      ShlAtLeast(n, d - 1);
      IntervalInSub(x / 2, n, d - 1, h - 1);
    }
  }

  /** Node `x` lies `d` levels below node `n`. */
  predicate Spans(n: nat, d: nat, x: nat) {
    Shl(n, d) <= x < Shl(n + 1, d)
  }

  lemma {:induction false} FilledIsFull(b: seq<Byte>, cnt: nat, n: nat, h: nat)
    requires forall d: nat, x: nat | d <= h && Spans(n, d, x) :: Val(b, cnt, x) == h - d + 1
    ensures Full(TreeOf(b, cnt, n, h), h)
    decreases h
  {
    assert Spans(n, 0, n);
    if h > 0 {
      forall c: nat, d: nat, x: nat | 2 * n <= c <= 2 * n + 1 && d <= h - 1 && Spans(c, d, x)
        ensures Val(b, cnt, x) == h - 1 - d + 1
      {
        ShlMonotone(2 * n, c, d);
        ShlMonotone(c + 1, 2 * n + 2, d);
        assert Spans(n, d + 1, x);
      }
      FilledIsFull(b, cnt, 2 * n, h - 1);
      FilledIsFull(b, cnt, 2 * n + 1, h - 1);
    }
  }

  /** Filling an aligned block that nobody holds frees exactly its frames. */
  lemma ForcedBlock(b0: seq<Byte>, b1: seq<Byte>, cnt: nat, md: nat, held: set<Block>, managed: set<nat>, blk: Block)
    requires Consistent(Trees(b0, cnt, md), md, held, managed) && InRange(cnt, md, blk)
    requires Frames(blk) !! HeldFrames(held)
    requires Filled(b0, b1, cnt, md, Shl(blk.num, blk.order), blk.order, 0)
    ensures Repairable(b0, b1, cnt, md, blk)
    ensures Consistent(PutBlock(Trees(b0, cnt, md), md, blk, NodeTree(b1, cnt, md, blk)), md, held,
              managed + Frames(blk))
    ensures var trees := Trees(b0, cnt, md);
            Shifted(trees, PutBlock(trees, md, blk, NodeTree(b1, cnt, md, blk)), md, blk, true)
  {
    UnheldIsOpen(Trees(b0, cnt, md), md, held, managed, blk);
    ForcedSubtree(b0, b1, cnt, md, blk);
    ForceKeepsConsistent(Trees(b0, cnt, md), md, held, managed, blk, NodeTree(b1, cnt, md, blk));
    PutBlockShifts(Trees(b0, cnt, md), md, blk, NodeTree(b1, cnt, md, blk));
  }

  lemma ForcedSubtree(b0: seq<Byte>, b1: seq<Byte>, cnt: nat, md: nat, blk: Block)
    requires InRange(cnt, md, blk) && Filled(b0, b1, cnt, md, Shl(blk.num, blk.order), blk.order, 0)
    ensures Full(NodeTree(b1, cnt, md, blk), blk.order)
    ensures forall x: nat | Val(b1, cnt, x) != Val(b0, cnt, x) :: InSub(x, NodeOf(cnt, md, blk), blk.order)
  {
    var n, k := NodeOf(cnt, md, blk), blk.order;
    forall d: nat, x: nat | d <= k && Spans(n, d, x)
      ensures Val(b1, cnt, x) == k - d + 1
    {
      AlignedFills(cnt, md, blk, k - d, x);
    }
    FilledIsFull(b1, cnt, n, k);
    NodeFromRoot(cnt, md, blk);
    ShlAtLeast(cnt, md - k);
    forall x: nat | Val(b1, cnt, x) != Val(b0, cnt, x)
      ensures InSub(x, n, k)
    {
      var h: nat :| 0 <= h <= k && Fills(cnt, md, Shl(blk.num, k), k, h, x);
      AlignedFills(cnt, md, blk, h, x);
      IntervalInSub(x, n, k - h, k);
    }
  }

  /** The node of the block claims all of its frames, and the leaf of frame `g` in it says that `g` is not free. */
  predicate Overclaimed(b: seq<Byte>, cnt: nat, md: nat, blk: Block, g: nat) {
    && InRange(cnt, md, blk) && CoversFrame(blk, g)
    && Val(b, cnt, NodeOf(cnt, md, blk)) == blk.order + 1
    && Val(b, cnt, NodeOf(cnt, md, Block(0, g))) == 0
  }

  /** The leaf of a frame, seen from the node of a block around it. */
  lemma LeafBelow(cnt: nat, md: nat, blk: Block, g: nat)
    requires blk.order <= md && CoversFrame(blk, g)
    ensures Shl(blk.num, blk.order) <= g && g - Shl(blk.num, blk.order) < Pow2(blk.order)
    ensures NodeOf(cnt, md, Block(0, g)) == Shl(NodeOf(cnt, md, blk), blk.order) + (g - Shl(blk.num, blk.order))
  {
    var k := blk.order;
    ShlAdd(blk.num, 1, k);
    ShlPow2(0, k);
    ShlShl(cnt, md - k, k);
    ShlAdd(Shl(cnt, md - k), blk.num, k);
  }

  /** Such a state is not well formed. */
  lemma OverclaimedBreaks(b: seq<Byte>, cnt: nat, md: nat, blk: Block, g: nat)
    requires Overclaimed(b, cnt, md, blk, g)
    ensures !WellFormed(Trees(b, cnt, md), md)
  {
    if WellFormed(Trees(b, cnt, md), md) {
      LeafBelow(cnt, md, blk, g);
      var n, k, j := NodeOf(cnt, md, blk), blk.order, g - Shl(blk.num, blk.order);
      NodeFromRoot(cnt, md, blk);
      BlockTreeIsNode(b, cnt, md, blk);
      ClaimedFull(Trees(b, cnt, md)[RootOf(md, blk)], md, k, LocalOf(md, blk));
      FullBelow(NodeTree(b, cnt, md, blk), k, 0, j);
      TreeOfAt(b, cnt, n, k, 0, j);
    }
  }

  /**
   * Filling a block that is not aligned, while a frame below its start is not free, leaves a node that claims too much.
   */
  lemma MisalignedFill(b0: seq<Byte>, b1: seq<Byte>, b2: seq<Byte>, cnt: nat, md: nat, idx: nat, k: nat, g: nat)
    requires k <= md && idx + Pow2(k) <= Shl(cnt, md)
    requires Shl(Shr(idx, k), k) <= g < idx && Val(b0, cnt, NodeOf(cnt, md, Block(0, g))) == 0
    requires Filled(b0, b1, cnt, md, idx, k, 0)
    requires forall x: nat | x >= Shl(cnt, md - k) + Shr(idx, k) :: Val(b2, cnt, x) == Val(b1, cnt, x)
    ensures Overclaimed(b2, cnt, md, Block(k, Shr(idx, k)), g)
  {
    var blk := Block(k, Shr(idx, k));
    var n := NodeOf(cnt, md, blk);
    FillOnRow(cnt, md, idx, k, k);
    assert Fills(cnt, md, idx, k, k, n);
    ShrBrackets(idx, k);
    LeafNotFilled(cnt, md, idx, k, g);
    LeafBelow(cnt, md, blk, g);
    ShlAtLeast(n, k);
  }

  /** The leaf of a frame below the start of a block is not filled. */
  lemma LeafNotFilled(cnt: nat, md: nat, idx: nat, k: nat, g: nat)
    requires k <= md && idx + Pow2(k) <= Shl(cnt, md) && g < idx
    ensures !FilledBy(cnt, md, idx, k, 0, NodeOf(cnt, md, Block(0, g)))
  {
    var leaf := NodeOf(cnt, md, Block(0, g));
    if FilledBy(cnt, md, idx, k, 0, leaf) {
      var h: nat :| 0 <= h <= k && Fills(cnt, md, idx, k, h, leaf);
      if h > 0 {
        FillsRow(cnt, md, idx, k, h, leaf);
        RowsGrow(cnt, md, 0, h);
      }
    }
  }

  // ---------------------------------------------------------------- what forcing leaves alone

  /** Node `x` lies one to `d` levels above node `n`. */
  predicate AboveNode(x: nat, n: nat, d: nat) {
    exists i :: 1 <= i <= d && x == Shr(n, i)
  }

  /** All frames of the block lie below frame `idx`. */
  predicate EndsBy(c: Block, idx: nat) {
    Shl(c.num + 1, c.order) <= idx
  }

  /** The bytes of all blocks that end at or before frame `idx` are the same. */
  ghost predicate KeptBelow(b: seq<Byte>, b': seq<Byte>, cnt: nat, md: nat, idx: nat) {
    forall c: Block | c.order <= md && EndsBy(c, idx) ::
      Val(b', cnt, NodeOf(cnt, md, c)) == Val(b, cnt, NodeOf(cnt, md, c))
  }

  lemma KeptTransitive(b: seq<Byte>, b': seq<Byte>, b'': seq<Byte>, cnt: nat, md: nat, idx: nat, idx': nat)
    requires KeptBelow(b, b', cnt, md, idx) && KeptBelow(b', b'', cnt, md, idx') && idx <= idx'
    ensures KeptBelow(b, b'', cnt, md, idx)
  {
    forall c: Block | c.order <= md && EndsBy(c, idx)
      ensures Val(b'', cnt, NodeOf(cnt, md, c)) == Val(b, cnt, NodeOf(cnt, md, c))
    {
      assert EndsBy(c, idx');
    }
  }

  lemma EndsByNumber(c: Block, idx: nat)
    requires EndsBy(c, idx)
    ensures c.num < Shr(idx, c.order)
  {
    ShrBrackets(idx, c.order);
    if Shr(idx, c.order) <= c.num {
      ShlMonotone(Shr(idx, c.order) + 1, c.num + 1, c.order);
    }
  }

  /** Where a block node lies in the buffer. */
  lemma NodeRow(cnt: nat, md: nat, c: Block, idx: nat)
    requires c.order <= md && EndsBy(c, idx) && idx <= Shl(cnt, md)
    ensures Shl(cnt, md - c.order) <= NodeOf(cnt, md, c) < 2 * Shl(cnt, md - c.order)
  {
    ShlShl(cnt, md - c.order, c.order);
    ShlCancel(c.num + 1, Shl(cnt, md - c.order), c.order);
  }

  lemma SameRow(cnt: nat, md: nat, h: nat, h': nat, x: nat)
    requires h <= md && h' <= md
    requires Shl(cnt, md - h) <= x < 2 * Shl(cnt, md - h) && Shl(cnt, md - h') <= x < 2 * Shl(cnt, md - h')
    ensures h == h'
  {
    if h < h' { RowsGrow(cnt, md, h, h'); }
    if h' < h { RowsGrow(cnt, md, h', h); }
  }

  /** Forcing a block free does not fill the node of a block that ends by its start. */
  lemma BelowNotFilled(cnt: nat, md: nat, idx: nat, k: nat, c: Block)
    requires k <= md && idx + Pow2(k) <= Shl(cnt, md) && c.order <= md && EndsBy(c, idx)
    ensures !FilledBy(cnt, md, idx, k, 0, NodeOf(cnt, md, c))
  {
    var x := NodeOf(cnt, md, c);
    if FilledBy(cnt, md, idx, k, 0, x) {
      var h: nat :| 0 <= h <= k && Fills(cnt, md, idx, k, h, x);
      FillsRow(cnt, md, idx, k, h, x);
      NodeRow(cnt, md, c, idx);
      SameRow(cnt, md, h, c.order, x);
      EndsByNumber(c, idx);
    }
  }

  /** Nor is that node above the node of the forced block. */
  lemma BelowNotAbove(cnt: nat, md: nat, idx: nat, k: nat, c: Block)
    requires k <= md && idx + Pow2(k) <= Shl(cnt, md) && c.order <= md && EndsBy(c, idx)
    ensures !AboveNode(NodeOf(cnt, md, c), Shl(cnt, md - k) + Shr(idx, k), md - k)
  {
    var x := NodeOf(cnt, md, c);
    if AboveNode(x, Shl(cnt, md - k) + Shr(idx, k), md - k) {
      var i :| 1 <= i <= md - k && x == Shr(Shl(cnt, md - k) + Shr(idx, k), i);
      var h := k + i;
      ShrSum(cnt, Shr(idx, k), md - k, i);
      ShrShr(idx, k, i);
      assert x == Shl(cnt, md - h) + Shr(idx, h);
      ShrBelow(idx, cnt, md, h);
      NodeRow(cnt, md, c, idx);
      SameRow(cnt, md, h, c.order, x);
      EndsByNumber(c, idx);
    }
  }

  lemma ShrBelow(idx: nat, cnt: nat, md: nat, h: nat)
    requires h <= md && idx < Shl(cnt, md)
    ensures Shr(idx, h) < Shl(cnt, md - h)
  {
    ShrBrackets(idx, h);
    ShlShl(cnt, md - h, h);
    if Shl(cnt, md - h) <= Shr(idx, h) {
      ShlMonotone(Shl(cnt, md - h), Shr(idx, h), h);
    }
  }

  /** Forcing a block free changes no node of a block that ends by its start. */
  lemma ForcedLeavesBelow(b0: seq<Byte>, b1: seq<Byte>, b2: seq<Byte>, cnt: nat, md: nat, idx: nat, k: nat, c: Block)
    requires k <= md && idx + Pow2(k) <= Shl(cnt, md) && c.order <= md && EndsBy(c, idx)
    requires Filled(b0, b1, cnt, md, idx, k, 0)
    requires forall x: nat | Val(b2, cnt, x) != Val(b1, cnt, x) :: AboveNode(x, Shl(cnt, md - k) + Shr(idx, k), md - k)
    ensures Val(b2, cnt, NodeOf(cnt, md, c)) == Val(b0, cnt, NodeOf(cnt, md, c))
  {
    BelowNotFilled(cnt, md, idx, k, c);
    BelowNotAbove(cnt, md, idx, k, c);
  }

  lemma ForcedEffects(b0: seq<Byte>, b1: seq<Byte>, b2: seq<Byte>, cnt: nat, md: nat, idx: nat, k: nat)
    requires k <= md && idx + Pow2(k) <= Shl(cnt, md) && Filled(b0, b1, cnt, md, idx, k, 0)
    requires forall x: nat | x >= Shl(cnt, md - k) + Shr(idx, k) :: Val(b2, cnt, x) == Val(b1, cnt, x)
    requires forall x: nat | Val(b2, cnt, x) != Val(b1, cnt, x) :: AboveNode(x, Shl(cnt, md - k) + Shr(idx, k), md - k)
    ensures Misfilled(b0, b2, cnt, md, idx, k) && KeptBelow(b0, b2, cnt, md, idx)
  {
    forall g: nat | Shl(Shr(idx, k), k) <= g < idx && Val(b0, cnt, NodeOf(cnt, md, Block(0, g))) == 0
      ensures Overclaimed(b2, cnt, md, Block(k, Shr(idx, k)), g)
    {
      MisalignedFill(b0, b1, b2, cnt, md, idx, k, g);
    }
    forall c: Block | c.order <= md && EndsBy(c, idx)
      ensures Val(b2, cnt, NodeOf(cnt, md, c)) == Val(b0, cnt, NodeOf(cnt, md, c))
    {
      ForcedLeavesBelow(b0, b1, b2, cnt, md, idx, k, c);
    }
  }

  /** With nothing handed out, the leaf of a frame says exactly whether the frame is managed. */
  lemma LeafIsManaged(b: seq<Byte>, cnt: nat, md: nat, managed: set<nat>, f: nat)
    requires Consistent(Trees(b, cnt, md), md, {}, managed) && f < Shl(cnt, md)
    ensures Val(b, cnt, NodeOf(cnt, md, Block(0, f))) == if f in managed then 1 else 0
  {
    var trees, blk := Trees(b, cnt, md), Block(0, f);
    RootInRange(cnt, md, blk);
    UnheldIsOpen(trees, md, {}, managed, blk);
    BlockTreeIsNode(b, cnt, md, blk);
    OpenLeaf(trees[RootOf(md, blk)], md, LocalOf(md, blk));
    assert HeldFrames({}) == {};
  }

  /** Some node of a block that ends by frame `bound` claims too much. */
  ghost predicate Spoiled(b: seq<Byte>, cnt: nat, md: nat, bound: nat) {
    exists blk, g :: Overclaimed(b, cnt, md, blk, g) && EndsBy(blk, bound)
  }

  /** Every frame below the piece, in the block that the piece starts in, was free before or is now claimed wrongly. */
  ghost predicate Misfilled(b: seq<Byte>, b': seq<Byte>, cnt: nat, md: nat, idx: nat, order: nat)
    requires order <= md
  {
    forall g: nat | Shl(Shr(idx, order), order) <= g < idx && Val(b, cnt, NodeOf(cnt, md, Block(0, g))) == 0 ::
      Overclaimed(b', cnt, md, Block(order, Shr(idx, order)), g)
  }

  /** Changes above the bound do not mend this. */
  lemma SpoiledKept(b: seq<Byte>, b': seq<Byte>, cnt: nat, md: nat, bound: nat, idx: nat)
    requires Spoiled(b, cnt, md, bound) && bound <= idx
    requires KeptBelow(b, b', cnt, md, idx)
    ensures Spoiled(b', cnt, md, bound)
  {
    var blk, g :| Overclaimed(b, cnt, md, blk, g) && EndsBy(blk, bound);
    assert EndsBy(blk, idx);
    assert EndsBy(Block(0, g), idx);
    assert Overclaimed(b', cnt, md, blk, g);
  }

  lemma SpoiledBreaks(b: seq<Byte>, cnt: nat, md: nat, bound: nat)
    requires Spoiled(b, cnt, md, bound)
    ensures !WellFormed(Trees(b, cnt, md), md)
  {
    var blk, g :| Overclaimed(b, cnt, md, blk, g) && EndsBy(blk, bound);
    OverclaimedBreaks(b, cnt, md, blk, g);
  }

  /** The order of the trees of a system for `pageCnt` frames. */
  function OrderFor(pageCnt: nat): (o: nat)
    ensures o <= BUDDY_MAX_ORDER
    ensures o < BUDDY_MAX_ORDER ==> pageCnt <= Pow2(o)
  {
    var o := Log2(NextPow2(pageCnt));
    if o < BUDDY_MAX_ORDER then o else BUDDY_MAX_ORDER
  }

  /** No smaller order holds all frames. */
  lemma OrderIsSmallest(pageCnt: nat, k: nat)
    requires k < OrderFor(pageCnt)
    ensures Pow2(k) < pageCnt
  {
    NextIsSmallest(pageCnt, k);
  }

  /** `page_cnt.div_ceil(1 << max_order)`. */
  function TreesFor(pageCnt: nat): nat {
    DivCeil(pageCnt, Pow2(OrderFor(pageCnt)))
  }

  /** The trees cover all frames, and the last tree is needed. */
  lemma TreesSuffice(pageCnt: nat)
    ensures pageCnt <= Shl(TreesFor(pageCnt), OrderFor(pageCnt)) < pageCnt + Pow2(OrderFor(pageCnt))
  {
    ShlIsMul(TreesFor(pageCnt), OrderFor(pageCnt));
    DivCeilBrackets(pageCnt, Pow2(OrderFor(pageCnt)));
  }

  /** A forest of zero bytes has no free frame and no taken block. */
  lemma ZeroForest(b: seq<Byte>, cnt: nat, md: nat)
    requires forall x: nat :: Val(b, cnt, x) == 0
    ensures Consistent(Trees(b, cnt, md), md, {}, {})
  {
    var trees := Trees(b, cnt, md);
    forall r | 0 <= r < cnt
      ensures trees[r] == TreeOf(b, cnt, cnt + r, md) && Classified(trees[r], md)
    {
      TreesAt(b, cnt, md, r);
      ZeroTree(b, cnt, cnt + r, md);
    }
    forall f: nat | f < Shl(cnt, md)
      ensures !FrameFree(trees, md, f)
    {
      RootInRange(cnt, md, Block(0, f));
    }
    forall c | InRange(cnt, md, c) && c.order > 0
      ensures !Taken(BlockTree(trees, md, c), c.order)
    {
      RootInRange(cnt, md, c);
      TreeOfAt(b, cnt, cnt + RootOf(md, c), md, c.order, LocalOf(md, c));
    }
  }

  lemma {:induction false} ZeroTree(b: seq<Byte>, cnt: nat, n: nat, h: nat)
    requires forall x: nat :: Val(b, cnt, x) == 0
    ensures Classified(TreeOf(b, cnt, n, h), h)
    decreases h
  {
    if h > 0 {
      ZeroTree(b, cnt, 2 * n, h - 1);
      ZeroTree(b, cnt, 2 * n + 1, h - 1);
    }
  }

  class BuddySystem {
    const forest: ArrayForest
    const maxOrder: nat

    /** Blocks handed out by `Reserve` and not returned yet. */
    ghost var held: set<Block>
    /** Frames ever given to the system by `FreeForced`. */
    ghost var managed: set<nat>

    predicate Ready() {
      forest.Valid() && forest.treeDepth == maxOrder + 1 && maxOrder <= BUDDY_MAX_ORDER
    }

    ghost function State(): seq<Tree>
      reads forest.buf
    {
      Trees(forest.buf[..], forest.treeCnt, maxOrder)
    }

    ghost predicate Valid()
      reads this, forest.buf
    {
      Ready() && Consistent(State(), maxOrder, held, managed)
    }

    /** The byte of the node of a block. */
    ghost function ByteOf(c: Block): Byte
      requires c.order <= maxOrder
      reads forest.buf
    {
      Val(forest.buf[..], forest.treeCnt, NodeOf(forest.treeCnt, maxOrder, c))
    }

    /** The byte of the leaf of a frame. */
    ghost function LeafOf(f: nat): Byte
      reads forest.buf
    {
      ByteOf(Block(0, f))
    }

    /** A system for `pageCnt` frames, none of them free yet. */
    constructor (pageCnt: nat)
      ensures Valid() && fresh(forest.buf) && held == {} && managed == {}
      ensures maxOrder == OrderFor(pageCnt) && forest.treeCnt == TreesFor(pageCnt)
      ensures forall x: nat :: Val(forest.buf[..], forest.treeCnt, x) == 0
    {
      var f := new ArrayForest(TreesFor(pageCnt), OrderFor(pageCnt) + 1, 0);
      forest, maxOrder := f, OrderFor(pageCnt);
      held, managed := {}, {};
      new;
      ZeroForest(forest.buf[..], forest.treeCnt, maxOrder);
    }

    ghost function RootTree(root: nat): (t: Tree)
      reads forest.buf
      ensures Shape(t, maxOrder)
    {
      TreeOf(forest.buf[..], forest.treeCnt, forest.treeCnt + root, maxOrder)
    }

    function RootCursor(root: nat): (c: Cursor)
      requires Ready() && root < forest.treeCnt
      ensures forest.OnLevel(c) && c.depth == 0 && c.offset == forest.treeCnt + root
    {
      forest.CursorAt(0, root)
    }

    /** The cursor at the `num`-th block of an order. */
    function BlockCursor(order: nat, num: nat): (c: Cursor)
      requires Ready() && InRange(forest.treeCnt, maxOrder, Block(order, num))
      ensures forest.OnLevel(c) && c.depth == maxOrder - order && forest.Idx(c) == num
      ensures c.offset == NodeOf(forest.treeCnt, maxOrder, Block(order, num))
    {
      forest.CursorAt(forest.MaxDepth() - order, num)
    }

    /** Moves the cursor to the parent and makes the parent the summary of its children. */
    method FixupParent(c: Cursor) returns (up: Cursor, stop: bool)
      requires Ready() && forest.OnLevel(c) && c.depth > 0
      modifies forest.buf
      ensures forest.OnLevel(up) && up == c.Up().0
      ensures stop ==> forest.buf[..] == old(forest.buf[..])
      ensures Written(old(forest.buf[..]), forest.buf[..], forest.treeCnt, c.offset / 2,
                      Max(Val(old(forest.buf[..]), forest.treeCnt, c.offset),
                          Val(old(forest.buf[..]), forest.treeCnt, SiblingOf(c.offset))))
    {
      forest.MovesStayInside(c);
      forest.InsideBuffer(c);
      var me := forest.Get(c);
      var (s, _) := c.Sibling();
      forest.MovesStayInside(s);
      forest.InsideBuffer(s);
      var sib := forest.Get(s);
      var par := if me >= sib then me else sib;
      var (p, _) := s.Up();
      up := p;
      forest.InsideBuffer(up);
      if forest.Get(up) == par {
        stop := true;
      } else {
        forest.Set(up, par);
        stop := false;
      }
    }

    /** Recomputes the summaries above the cursor, stopping at the first that is already right. */
    method FixupMap(c0: Cursor, ghost ok: bool, ghost b0: seq<Byte>, ghost blk: Block)
      requires Ready() && forest.OnLevel(c0) && blk == Block(maxOrder - c0.depth, forest.Idx(c0))
      requires ok ==> Repairable(b0, forest.buf[..], forest.treeCnt, maxOrder, blk)
      modifies forest.buf
      ensures forall x: nat | x >= c0.offset ::
                Val(forest.buf[..], forest.treeCnt, x) == Val(old(forest.buf[..]), forest.treeCnt, x)
      ensures forall x: nat | Val(forest.buf[..], forest.treeCnt, x) != Val(old(forest.buf[..]), forest.treeCnt, x) ::
                AboveNode(x, c0.offset, c0.depth)
      ensures ok ==>
              State() == PutBlock(Trees(b0, forest.treeCnt, maxOrder), maxOrder, blk,
                                  NodeTree(old(forest.buf[..]), forest.treeCnt, maxOrder, blk))
    {
      ghost var cnt, md, bs := forest.treeCnt, maxOrder, forest.buf[..];
      ghost var b, j, s := bs, 0, NodeTree(bs, cnt, md, blk);
      var c := c0;
      if ok { StartRepair(b0, bs, cnt, md, c, blk); }
      while c.depth != 0
        invariant forest.OnLevel(c) && c.offset <= c0.offset && c.depth <= c0.depth
        invariant c.offset == Shr(c0.offset, c0.depth - c.depth)
        invariant b == forest.buf[..]
        invariant forall x: nat | x >= c0.offset :: Val(b, cnt, x) == Val(bs, cnt, x)
        invariant forall x: nat | Val(b, cnt, x) != Val(bs, cnt, x) :: AboveNode(x, c0.offset, c0.depth)
        invariant ok ==> Repairing(b0, b, cnt, md, c, blk, j, s)
      {
        forest.InsideBuffer(c);
        ShrStep(c0.offset, c0.depth - c.depth);
        var up, stop := FixupParent(c);
        if stop {
          if ok { FinishEarly(b0, b, bs, cnt, md, c, blk, j, s); }
          return;
        }
        ghost var b' := forest.buf[..];
        if ok { j := RepairOne(b0, b, b', cnt, md, c, blk, j, s); }
        b, c := b', up;
      }
      if ok { FinishAtRoot(b0, b, bs, cnt, md, c, blk, j, s); }
    }

    /**
     * Returns a block. `ok` is false when the double-free assertion fires, which is exactly for a byte that is not
     * zero.
     */
    method Free(idx: nat, order: nat) returns (ok: bool)
      requires Valid() && order <= maxOrder && InRange(forest.treeCnt, maxOrder, Block(order, Shr(idx, order)))
      modifies this`held, this`managed, forest.buf
      ensures var blk := Block(order, Shr(idx, order));
              && (ok <==> old(ByteOf(blk)) == 0) && (blk in old(held) ==> ok)
              && (!ok ==> forest.buf[..] == old(forest.buf[..]) && held == old(held) && managed == old(managed))
              && (ok ==>
                    && held == old(held) - {blk}
                    && managed == (if blk in old(held) then old(managed) else old(managed) + Frames(blk))
                    && Freed(old(State()), State(), maxOrder, old(held), old(managed), blk))
    {
      ghost var blk, cnt, md, b0 := Block(order, Shr(idx, order)), forest.treeCnt, maxOrder, forest.buf[..];
      var cursor := BlockCursor(order, Shr(idx, order));
      ghost var repairs := blk in held || order == 0;
      if blk in held { HeldByte(b0, cnt, md, held, managed, blk); }
      if forest.Get(cursor) != 0 {
        return false;
      }
      forest.Set(cursor, order + 1);
      ghost var b1 := forest.buf[..];
      if repairs { FreedRepaired(b0, b1, cnt, md, held, managed, blk); }
      FixupMap(cursor, repairs, b0, blk);
      if !repairs { FreedUnheld(b0, b1, forest.buf[..], cnt, md, held, managed, blk); }
      ok := true;
      managed := if blk in held then managed else managed + Frames(blk);
      held := held - {blk};
    }

    /** The first tree that holds a free block larger than `order`. */
    method FirstRoot(order: nat) returns (root: Option<nat>)
      requires Ready()
      ensures forest.buf[..] == old(forest.buf[..])
      ensures root.None? ==>
                forall r: nat | r < forest.treeCnt :: RootVal(forest.buf[..], forest.treeCnt, r) <= order + 1
      ensures root.Some? ==>
                && root.value < forest.treeCnt && RootVal(forest.buf[..], forest.treeCnt, root.value) > order + 1
                && forall r: nat | r < root.value :: RootVal(forest.buf[..], forest.treeCnt, r) <= order + 1
    {
      for i := 0 to forest.treeCnt
        invariant forall r: nat | r < i :: RootVal(forest.buf[..], forest.treeCnt, r) <= order + 1
      {
        var v := forest.Get(RootCursor(i));
        assert v == RootVal(forest.buf[..], forest.treeCnt, i);
        if v != 0 && v - 1 > order {
          return Some(i);
        }
      }
      return None;
    }

    predicate AllOnLevel(cs: seq<Cursor>)
      requires Ready()
    {
      forall i | 0 <= i < |cs| :: forest.OnLevel(cs[i])
    }

    lemma PopOnLevel(c: Cursor, stack: seq<Cursor>)
      requires Ready() && stack != [] && AllOnLevel([c] + stack)
      ensures AllOnLevel([stack[|stack| - 1]] + stack[..|stack| - 1])
    {
      var cs := [c] + stack;
      assert forall i | 0 <= i < |stack| :: stack[i] == cs[i + 1] && forest.OnLevel(cs[i + 1]);
    }

    lemma ChildrenOnLevel(c: Cursor, stack: seq<Cursor>)
      requires Ready() && AllOnLevel([c] + stack) && c.Left().1 && c.Right().1
      ensures AllOnLevel([c.Left().0] + (stack + [c.Right().0]))
    {
      var cs := [c] + stack;
      assert forest.OnLevel(cs[0]);
      forest.MovesStayInside(c);
      assert forall i | 0 <= i < |stack| :: stack[i] == cs[i + 1] && forest.OnLevel(cs[i + 1]);
    }

    /** The depth-first search below one root, with its explicit stack. */
    method Search(root: nat, order: nat) returns (found: Cursor, ghost steps: nat, ghost deepest: nat)
      requires Ready() && order <= maxOrder && root < forest.treeCnt
      requires Classified(RootTree(root), maxOrder) && RootVal(forest.buf[..], forest.treeCnt, root) > order
      ensures forest.buf[..] == old(forest.buf[..])
      ensures forest.OnLevel(found) && found.depth == maxOrder - order
      ensures found.offset == GoalOf(forest.buf[..], forest.treeCnt, maxOrder, forest.treeCnt + root, order)
      ensures steps <= 2 * maxOrder + 1 && deepest <= BUDDY_MAX_ORDER
    {
      ghost var cnt, md, b := forest.treeCnt, maxOrder, forest.buf[..];
      var cursor := RootCursor(root);
      var stack: seq<Cursor> := [];
      steps, deepest := 0, 0;
      ghost var goal := SearchStart(b, cnt, md, cursor, order);
      while true
        invariant AllOnLevel([cursor] + stack)
        invariant Searching(b, cnt, md, cursor, stack, order, goal, steps)
        invariant |stack| <= deepest <= BUDDY_MAX_ORDER
        decreases 2 * md - steps
      {
        assert forest.OnLevel(([cursor] + stack)[0]);
        if forest.Get(cursor) == 0 || forest.Get(cursor) - 1 < order {
          SearchPop(b, cnt, md, cursor, stack, order, goal, steps);
          PopOnLevel(cursor, stack);
          cursor, stack, steps := stack[|stack| - 1], stack[..|stack| - 1], steps + 1;
          continue;
        }
        var curMaxOrder := maxOrder - cursor.depth;
        var curOrder := forest.Get(cursor) - 1;
        if curOrder == order && curOrder == curMaxOrder {
          SearchFound(b, cnt, md, cursor, stack, order, goal, steps);
          found, steps := cursor, steps + 1;
          return;
        }
        SearchDown(b, cnt, md, cursor, stack, order, goal, steps);
        ChildrenOnLevel(cursor, stack);
        var (rewind, notEnd) := cursor.Right();
        assert notEnd;
        assert |stack| < BUDDY_MAX_ORDER;
        stack := stack + [rewind];
        deepest := if deepest < |stack| then |stack| else deepest;
        var (left, _) := cursor.Left();
        cursor, steps := left, steps + 1;
      }
    }

    /** Finds the block to hand out without changing anything. */
    method Locate(order: nat) returns (found: Option<Cursor>, ghost blk: Block)
      requires Ready() && order <= maxOrder && WellFormed(State(), maxOrder)
      ensures forest.buf[..] == old(forest.buf[..])
      ensures found.None? ==> NoneFits(State(), maxOrder, order)
      ensures found.Some? ==>
                && blk.order == order && Reservable(State(), maxOrder, blk) && FirstFit(State(), maxOrder, blk)
                && IsCursorOf(found.value, blk)
    {
      var root := FirstRoot(order);
      if root.None? {
        NothingFound(forest.buf[..], forest.treeCnt, maxOrder, order);
        return None, Block(0, 0);
      }
      TreesAt(forest.buf[..], forest.treeCnt, maxOrder, root.value);
      var cursor, _, _ := Search(root.value, order);
      blk := FoundBlock(forest.buf[..], forest.treeCnt, maxOrder, root.value, order);
      CursorOfBlock(cursor, blk);
      found := Some(cursor);
    }

    predicate IsCursorOf(c: Cursor, blk: Block)
      requires Ready()
    {
      && forest.OnLevel(c) && blk.order <= maxOrder && c.depth == maxOrder - blk.order
      && c.offset == NodeOf(forest.treeCnt, maxOrder, blk) && forest.Idx(c) == blk.num
    }

    lemma CursorOfBlock(c: Cursor, blk: Block)
      requires Ready() && forest.OnLevel(c) && blk.order <= maxOrder && c.depth == maxOrder - blk.order
      requires c.offset == NodeOf(forest.treeCnt, maxOrder, blk)
      ensures IsCursorOf(c, blk)
    {
    }

    /** Marks a free block as handed out. */
    method Take(cursor: Cursor, ghost blk: Block)
      requires Valid() && Reservable(State(), maxOrder, blk) && IsCursorOf(cursor, blk)
      modifies this`held, forest.buf
      ensures Valid() && blk !in old(held) && held == old(held) + {blk}
      ensures Frames(blk) <= old(FreeFrames(State(), maxOrder))
      ensures FreeFrames(State(), maxOrder) == old(FreeFrames(State(), maxOrder)) - Frames(blk)
      ensures Shifted(old(State()), State(), maxOrder, blk, false)
    {
      ghost var b0 := forest.buf[..];
      forest.Set(cursor, 0);
      ReservedBlock(b0, forest.buf[..], forest.treeCnt, maxOrder, held, managed, blk);
      FixupMap(cursor, true, b0, blk);
      held := held + {blk};
    }

    /** Hands out a block of `Pow2(order)` frames; the result is its first frame. */
    method Reserve(order: nat) returns (r: Option<nat>, ghost blk: Block)
      requires Valid() && order <= maxOrder
      modifies this`held, forest.buf
      ensures Valid()
      ensures r.None? ==>
                && forest.buf[..] == old(forest.buf[..]) && held == old(held)
                && NoneFits(State(), maxOrder, order)
      ensures r.Some? ==>
                && blk.order == order && r.value == Shl(blk.num, order)
                && blk !in old(held) && held == old(held) + {blk}
                && FirstFit(old(State()), maxOrder, blk)
                && Frames(blk) <= old(FreeFrames(State(), maxOrder))
                && FreeFrames(State(), maxOrder) == old(FreeFrames(State(), maxOrder)) - Frames(blk)
                && Shifted(old(State()), State(), maxOrder, blk, false)
    {
      var found, b := Locate(order);
      blk := b;
      if found.None? {
        return None, blk;
      }
      var idx := forest.Idx(found.value);
      Take(found.value, blk);
      r := Some(Shl(idx, order));
    }

    /** Fills every level of a block with its own order. */
    method FillBlock(idx: nat, order: nat)
      requires Ready() && order <= maxOrder && idx + Pow2(order) <= Shl(forest.treeCnt, maxOrder)
      modifies forest.buf
      ensures Filled(old(forest.buf[..]), forest.buf[..], forest.treeCnt, maxOrder, idx, order, 0)
    {
      ghost var cnt, md, b0 := forest.treeCnt, maxOrder, forest.buf[..];
      ghost var b := b0;
      var targetDepth := forest.MaxDepth() - order;
      for depth := targetDepth to forest.MaxDepth() + 1
        invariant b == forest.buf[..]
        invariant Filled(b0, b, cnt, md, idx, order, md + 1 - depth)
      {
        var h := forest.MaxDepth() - depth;
        var start := Shr(idx, h);
        FillOnRow(cnt, md, idx, order, h);
        forest.FillSlice(depth, start, start + Pow2(depth - targetDepth), h + 1);
        FillLevel(b0, b, forest.buf[..], cnt, md, idx, order, h);
        b := forest.buf[..];
      }
    }

    method FillAndRepair(idx: nat, order: nat, ghost ok: bool)
      requires Ready() && order <= maxOrder && idx + Pow2(order) <= Shl(forest.treeCnt, maxOrder)
      requires ok ==> Valid() && MultipleOf(idx, order) && Frames(Block(order, Shr(idx, order))) !! HeldFrames(held)
      modifies forest.buf
      ensures ok ==>
                && Consistent(State(), maxOrder, held, managed + Frames(Block(order, Shr(idx, order))))
                && Shifted(old(State()), State(), maxOrder, Block(order, Shr(idx, order)), true)
      ensures Misfilled(old(forest.buf[..]), forest.buf[..], forest.treeCnt, maxOrder, idx, order)
      ensures KeptBelow(old(forest.buf[..]), forest.buf[..], forest.treeCnt, maxOrder, idx)
    {
      ghost var cnt, md, b0, blk := forest.treeCnt, maxOrder, forest.buf[..], Block(order, Shr(idx, order));
      FillOnRow(cnt, md, idx, order, order);
      var cursor := BlockCursor(order, Shr(idx, order));
      FillBlock(idx, order);
      ghost var b1 := forest.buf[..];
      if ok { ForcedBlock(b0, b1, cnt, md, held, managed, blk); }
      FixupMap(cursor, ok, b0, blk);
      ForcedEffects(b0, b1, forest.buf[..], cnt, md, idx, order);
    }

    /**
     Marks a block as free whatever it was; used while the system is being set up. A start that is not aligned, above a
     frame that is not free, leaves a node that claims too much. Blocks that end by the start keep their bytes. From an
     aligned start the block becomes free as one block, and blocks apart from it can be handed out as before.
     */
    method FreeForced(idx: nat, order: nat)
      requires Ready() && order <= maxOrder && idx + Pow2(order) <= Shl(forest.treeCnt, maxOrder)
      modifies this`managed, forest.buf
      ensures old(Valid()) && MultipleOf(idx, order) && Frames(Block(order, Shr(idx, order))) !! HeldFrames(held) ==>
                && Valid() && managed == old(managed) + Frames(Block(order, Shr(idx, order)))
                && Shifted(old(State()), State(), maxOrder, Block(order, Shr(idx, order)), true)
      ensures Misfilled(old(forest.buf[..]), forest.buf[..], forest.treeCnt, maxOrder, idx, order)
      ensures KeptBelow(old(forest.buf[..]), forest.buf[..], forest.treeCnt, maxOrder, idx)
    {
      ghost var blk := Block(order, Shr(idx, order));
      FillAndRepair(idx, order, Valid() && MultipleOf(idx, order) && Frames(blk) !! HeldFrames(held));
      managed := managed + Frames(blk);
    }
  }

  // ---------------------------------------------------------------- what is lost without joining

  /** In a well-formed forest of one tree, a free block of the largest order is the whole tree. */
  lemma OnlyLargest(trees: seq<Tree>, md: nat)
    requires WellFormed(trees, md) && |trees| == 1 && md > 0
    ensures InRange(1, md, Block(md, 0)) && Encloses(Block(md, 0), Block(md - 1, 0))
    ensures FreeAbove(trees[0], md, md - 1) <==> BlockAvailable(trees, md, Block(md, 0))
  {
    ShlZero(md);
    ShlZero(md - 1);
    ShlPow2(0, md);
    assert LocalOf(md, Block(md, 0)) == 0 && RootOf(md, Block(md, 0)) == 0;
    assert Pow2(0) == 1;
  }

  lemma FirstHalf(trees: seq<Tree>, md: nat, blk: Block)
    requires WellFormed(trees, md) && |trees| == 1 && md > 0 && Full(trees[0], md)
    requires blk.order == md - 1 && FirstFit(trees, md, blk)
    ensures blk == Block(md - 1, 0) && Shl(blk.num, blk.order) == 0
  {
    RootInRange(1, md, blk);
    FirstOfFirst(trees[0], md, blk);
  }

  lemma FirstOfFirst(t: Tree, md: nat, blk: Block)
    requires Shape(t, md) && Full(t, md) && md > 0 && blk.order == md - 1 && RootOf(md, blk) == 0
    requires forall j: nat | j < LocalOf(md, blk) :: !Available(t, md, blk.order, j)
    ensures blk.num == 0 && Shl(0, blk.order) == 0
  {
    assert Available(t, md, blk.order, 0);
    ShlZero(md - blk.order);
    ShlZero(blk.order);
  }

  lemma FullFits(trees: seq<Tree>, md: nat)
    requires WellFormed(trees, md) && |trees| == 1 && md > 0 && Full(trees[0], md)
    ensures !NoneFits(trees, md, md - 1)
  {
    FreeAboveByValue(trees[0], md, md - 1);
  }

  /**
   * A system that is one free block: after half of it was reserved and returned, all is free and half cannot be
   * reserved.
   */
  method ReserveFreeReserve(buddy: BuddySystem) returns (first: Option<nat>, again: Option<nat>)
    requires buddy.Valid() && buddy.held == {} && buddy.forest.treeCnt == 1 && buddy.maxOrder > 0
    requires Full(buddy.State()[0], buddy.maxOrder)
    modifies buddy`held, buddy`managed, buddy.forest.buf
    ensures first == Some(0) && again == None
    ensures buddy.Valid() && FreeFrames(buddy.State(), buddy.maxOrder) == old(FreeFrames(buddy.State(), buddy.maxOrder))
  {
    ghost var other;
    first := ReserveFree(buddy);
    ghost var after, md := buddy.State(), buddy.maxOrder;
    again, other := buddy.Reserve(buddy.maxOrder - 1);
    if again.Some? { NoOtherHalf(after, md, other); }
  }

  method ReserveFree(buddy: BuddySystem) returns (first: Option<nat>)
    requires buddy.Valid() && buddy.held == {} && buddy.forest.treeCnt == 1 && buddy.maxOrder > 0
    requires Full(buddy.State()[0], buddy.maxOrder)
    modifies buddy`held, buddy`managed, buddy.forest.buf
    ensures first == Some(0) && buddy.Valid()
    ensures OnlyItself(buddy.State(), buddy.maxOrder, Block(buddy.maxOrder - 1, 0))
    ensures FreeFrames(buddy.State(), buddy.maxOrder) == old(FreeFrames(buddy.State(), buddy.maxOrder))
  {
    ghost var blk;
    first, blk := ReserveHalf(buddy);
    FreeHeldBlock(buddy, 0, buddy.maxOrder - 1, blk);
  }

  method ReserveHalf(buddy: BuddySystem) returns (first: Option<nat>, ghost blk: Block)
    requires buddy.Valid() && buddy.held == {} && buddy.forest.treeCnt == 1 && buddy.maxOrder > 0
    requires Full(buddy.State()[0], buddy.maxOrder)
    modifies buddy`held, buddy.forest.buf
    ensures first == Some(0) && buddy.Valid() && buddy.held == {blk}
    ensures blk == Block(buddy.maxOrder - 1, 0) == Block(buddy.maxOrder - 1, Shr(0, buddy.maxOrder - 1))
    ensures FreeFrames(buddy.State(), buddy.maxOrder) + Frames(blk) == old(FreeFrames(buddy.State(), buddy.maxOrder))
  {
    ghost var md, trees := buddy.maxOrder, buddy.State();
    FullFits(trees, md);
    first, blk := ReserveFitting(buddy, buddy.maxOrder - 1);
    FirstHalf(trees, md, blk);
    ShrShl(0, md - 1);
  }

  /** Reserves a block when one fits. */
  method ReserveFitting(buddy: BuddySystem, order: nat) returns (first: Option<nat>, ghost blk: Block)
    requires buddy.Valid() && order <= buddy.maxOrder && !NoneFits(buddy.State(), buddy.maxOrder, order)
    modifies buddy`held, buddy.forest.buf
    ensures buddy.Valid() && buddy.held == old(buddy.held) + {blk}
    ensures blk.order == order && first == Some(Shl(blk.num, order))
    ensures FirstFit(old(buddy.State()), buddy.maxOrder, blk)
    ensures FreeFrames(buddy.State(), buddy.maxOrder) + Frames(blk) == old(FreeFrames(buddy.State(), buddy.maxOrder))
  {
    first, blk := buddy.Reserve(order);
  }

  /** Returns a block that is handed out. */
  method FreeHeldBlock(buddy: BuddySystem, idx: nat, order: nat, ghost blk: Block)
    requires buddy.Valid() && order <= buddy.maxOrder && blk == Block(order, Shr(idx, order)) && blk in buddy.held
    modifies buddy`held, buddy`managed, buddy.forest.buf
    ensures buddy.Valid() && buddy.held == old(buddy.held) - {blk}
    ensures OnlyItself(buddy.State(), buddy.maxOrder, blk)
    ensures FreeFrames(buddy.State(), buddy.maxOrder) == old(FreeFrames(buddy.State(), buddy.maxOrder)) + Frames(blk)
  {
    ghost var trees, md, held, managed := buddy.State(), buddy.maxOrder, buddy.held, buddy.managed;
    assert InRange(buddy.forest.treeCnt, md, blk);
    var _ := buddy.Free(idx, order);
    FreedHeld(trees, buddy.State(), md, held, managed, blk);
  }

  lemma FreedHeld(trees: seq<Tree>, trees': seq<Tree>, md: nat, held: set<Block>, managed: set<nat>, blk: Block)
    requires WellFormed(trees, md) && blk in held && Freed(trees, trees', md, held, managed, blk)
    ensures WellFormed(trees', md) && OnlyItself(trees', md, blk)
    ensures Consistent(trees', md, held - {blk}, managed)
    ensures FreeFrames(trees', md) == FreeFrames(trees, md) + Frames(blk)
  {
  }

  /** If nothing around the first half is free as one block, no half can be reserved. */
  lemma NoOtherHalf(trees: seq<Tree>, md: nat, blk: Block)
    requires WellFormed(trees, md) && |trees| == 1 && md > 0 && OnlyItself(trees, md, Block(md - 1, 0))
    requires blk.order == md - 1
    ensures !FirstFit(trees, md, blk)
  {
    OnlyLargest(trees, md);
    if FirstFit(trees, md, blk) { LargestNeeded(trees, md, blk); }
  }

  lemma LargestNeeded(trees: seq<Tree>, md: nat, blk: Block)
    requires WellFormed(trees, md) && |trees| == 1 && md > 0 && blk.order == md - 1 && FirstFit(trees, md, blk)
    ensures FreeAbove(trees[0], md, md - 1)
  {
    RootInRange(1, md, blk);
  }
}
