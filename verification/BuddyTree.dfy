/**
 One tree of the buddy forest as a value. A node of height `o` summarises a block of `Pow2(o)`
 frames in one number: 0 for nothing to hand out, otherwise one more than the order of the
 largest free block below.
 */
module BuddyTree {
  import opened Bits

  datatype Tree = Leaf(val: nat) | Node(val: nat, left: Tree, right: Tree)

  function Max(a: nat, b: nat): nat {
    if a >= b then a else b
  }

  /** `t` is a perfect binary tree of height `o`. */
  predicate Shape(t: Tree, o: nat) {
    if t.Leaf? then o == 0 else o > 0 && Shape(t.left, o - 1) && Shape(t.right, o - 1)
  }

  /** Every node says that its whole block is free. */
  predicate Full(t: Tree, o: nat) {
    && t.val == o + 1
    && (t.Node? ==> o > 0 && Full(t.left, o - 1) && Full(t.right, o - 1))
  }

  /** A block handed out as a unit, or a frame that was never freed. */
  predicate Taken(t: Tree, o: nat) {
    && t.val == 0
    && (t.Node? ==> o > 0 && Full(t.left, o - 1) && Full(t.right, o - 1))
  }

  /** The node summarises its two children. */
  predicate Summary(t: Tree) {
    t.Node? && t.val == Max(t.left.val, t.right.val)
  }

  /** The classification invariant: every node is full, taken, or the summary of two such trees. */
  predicate Classified(t: Tree, o: nat) {
    || Full(t, o)
    || Taken(t, o)
    || (Summary(t) && o > 0 && Classified(t.left, o - 1) && Classified(t.right, o - 1))
  }

  /** Frame `f` of the block can be handed out: the walk from the root meets a full node first. */
  predicate IsFree(t: Tree, o: nat, f: nat)
    requires Shape(t, o) && f < Pow2(o)
    decreases o, t
  {
    if t.val == 0 then false
    else if t.val == o + 1 then true
    else if t.Leaf? then false
    else if f < Pow2(o - 1) then IsFree(t.left, o - 1, f)
    else IsFree(t.right, o - 1, f - Pow2(o - 1))
  }

  /** The subtree for the `j`-th block of order `k`. */
  function At(t: Tree, o: nat, k: nat, j: nat): (s: Tree)
    requires Shape(t, o) && k <= o && j < Pow2(o - k)
    ensures Shape(s, k)
    decreases o, t
  {
    if o == k then t
    else if j < Pow2(o - 1 - k) then At(t.left, o - 1, k, j)
    else At(t.right, o - 1, k, j - Pow2(o - 1 - k))
  }

  /** No strict ancestor of the `j`-th block of order `k` is taken as a unit. */
  predicate Open(t: Tree, o: nat, k: nat, j: nat)
    requires Shape(t, o) && k <= o && j < Pow2(o - k)
    decreases o, t
  {
    o == k ||
    ((Full(t, o) || Summary(t)) &&
     if j < Pow2(o - 1 - k) then Open(t.left, o - 1, k, j)
     else Open(t.right, o - 1, k, j - Pow2(o - 1 - k)))
  }

  /** The `j`-th block of order `k` is taken as a unit, below summaries only. */
  predicate HeldAt(t: Tree, o: nat, k: nat, j: nat)
    requires Shape(t, o) && k <= o && j < Pow2(o - k)
    decreases o, t
  {
    if o == k then Taken(t, o)
    else
      Summary(t) &&
      if j < Pow2(o - 1 - k) then HeldAt(t.left, o - 1, k, j)
      else HeldAt(t.right, o - 1, k, j - Pow2(o - 1 - k))
  }

  /** The `j`-th block of order `k` lies inside one free block. */
  predicate Available(t: Tree, o: nat, k: nat, j: nat)
    requires Shape(t, o) && k <= o && j < Pow2(o - k)
    decreases o, t
  {
    || Full(t, o)
    || (o > k && Summary(t) &&
        if j < Pow2(o - 1 - k) then Available(t.left, o - 1, k, j)
        else Available(t.right, o - 1, k, j - Pow2(o - 1 - k)))
  }

  function Join(l: Tree, r: Tree): (t: Tree) {
    Node(Max(l.val, r.val), l, r)
  }

  /** Replaces the `j`-th block of order `k` by `s` and recomputes every summary above it. */
  function Put(t: Tree, o: nat, k: nat, j: nat, s: Tree): (t': Tree)
    requires Shape(t, o) && Shape(s, k) && k <= o && j < Pow2(o - k)
    ensures Shape(t', o)
    decreases o, t
  {
    if o == k then s
    else if j < Pow2(o - 1 - k) then Join(Put(t.left, o - 1, k, j, s), t.right)
    else Join(t.left, Put(t.right, o - 1, k, j - Pow2(o - 1 - k), s))
  }

  /** The depth-first, left-first search of `reserve`. */
  function Find(t: Tree, o: nat, k: nat): (r: int)
    requires Shape(t, o)
    ensures r >= -1
    decreases o, t
  {
    if t.val == 0 || t.val - 1 < k then -1
    else if t.val - 1 == k && o == k then 0
    else if t.Leaf? || o <= k then -1
    else
      var l := Find(t.left, o - 1, k);
      if l >= 0 then l
      else
        var r := Find(t.right, o - 1, k);
        if r >= 0 then r + Pow2(o - 1 - k) else -1
  }

  // ---------------------------------------------------------------- values of summaries

  lemma {:induction false} ClassifiedValue(t: Tree, o: nat)
    requires Shape(t, o) && Classified(t, o)
    ensures t.val <= o + 1
    ensures t.val == o + 1 ==> Full(t, o)
  {
    if !Full(t, o) && !Taken(t, o) {
      ClassifiedValue(t.left, o - 1);
      ClassifiedValue(t.right, o - 1);
    }
  }

  /** A byte that claims a whole block is never wrong. */
  lemma {:induction false} ClaimedFull(t: Tree, o: nat, k: nat, j: nat)
    requires Shape(t, o) && Classified(t, o) && k <= o && j < Pow2(o - k)
    requires At(t, o, k, j).val == k + 1
    ensures Full(At(t, o, k, j), k)
    decreases o
  {
    if o == k {
      ClassifiedValue(t, o);
    } else if j < Pow2(o - 1 - k) {
      ClaimedFull(t.left, o - 1, k, j);
    } else {
      ClaimedFull(t.right, o - 1, k, j - Pow2(o - 1 - k));
    }
  }

  lemma {:induction false} FullBelow(t: Tree, o: nat, k: nat, j: nat)
    requires Shape(t, o) && Full(t, o) && k <= o && j < Pow2(o - k)
    ensures Full(At(t, o, k, j), k) && Open(t, o, k, j)
    decreases o
  {
    if o > k {
      if j < Pow2(o - 1 - k) {
        FullBelow(t.left, o - 1, k, j);
      } else {
        FullBelow(t.right, o - 1, k, j - Pow2(o - 1 - k));
      }
    }
  }

  // ---------------------------------------------------------------- Put

  lemma {:induction false} PutClassified(t: Tree, o: nat, k: nat, j: nat, s: Tree)
    requires Shape(t, o) && Shape(s, k) && k <= o && j < Pow2(o - k)
    requires Classified(t, o) && Classified(s, k) && Open(t, o, k, j)
    ensures Classified(Put(t, o, k, j, s), o)
    decreases o
  {
    if o > k {
      OpenChildren(t, o, k, j);
      if j < Pow2(o - 1 - k) {
        PutClassified(t.left, o - 1, k, j, s);
      } else {
        PutClassified(t.right, o - 1, k, j - Pow2(o - 1 - k), s);
      }
    }
  }

  /** Below a node that is not taken as a unit, both children are classified. */
  lemma OpenChildren(t: Tree, o: nat, k: nat, j: nat)
    requires Shape(t, o) && k < o && j < Pow2(o - k)
    requires Classified(t, o) && Open(t, o, k, j)
    ensures Classified(t.left, o - 1) && Classified(t.right, o - 1)
  {
  }

  /** Frame `f` belongs to the `j`-th block of order `k`. */
  predicate Within(o: nat, k: nat, j: nat, f: nat)
    requires k <= o && j < Pow2(o - k) && f < Pow2(o)
    decreases o, j
  {
    o == k ||
    if j < Pow2(o - 1 - k) then f < Pow2(o - 1) && Within(o - 1, k, j, f)
    else f >= Pow2(o - 1) && Within(o - 1, k, j - Pow2(o - 1 - k), f - Pow2(o - 1))
  }

  /** The `j`-th block of order `k` is the frames from `j << k` to `(j + 1) << k`. */
  lemma {:induction false} WithinIsInterval(o: nat, k: nat, j: nat, f: nat)
    requires k <= o && j < Pow2(o - k) && f < Pow2(o)
    ensures Within(o, k, j, f) <==> Shl(j, k) <= f < Shl(j + 1, k)
    ensures Shl(j + 1, k) <= Pow2(o)
    decreases o
  {
    if o == k {
      ShlPow2(0, k);
      ShlZero(k);
      return;
    }
    var half, mid := Pow2(o - 1 - k), Pow2(o - 1);
    if j < half {
      WithinIsInterval(o - 1, k, j, if f < mid then f else 0);
    } else {
      WithinIsInterval(o - 1, k, j - half, if f >= mid then f - mid else 0);
      ShlPow2(o - 1 - k, k);
      ShlAdd(j - half, half, k);
      ShlAdd(j + 1 - half, half, k);
    }
  }

  /** A node that is not taken has the free frames of its children. */
  lemma ChildrenDecide(t: Tree, o: nat, f: nat)
    requires Shape(t, o) && o > 0 && f < Pow2(o)
    requires Full(t, o) || (Summary(t) && Classified(t.left, o - 1) && Classified(t.right, o - 1))
    ensures f < Pow2(o - 1) ==> IsFree(t, o, f) == IsFree(t.left, o - 1, f)
    ensures f >= Pow2(o - 1) ==> IsFree(t, o, f) == IsFree(t.right, o - 1, f - Pow2(o - 1))
  {
    if !Full(t, o) {
      ClassifiedValue(t.left, o - 1);
      ClassifiedValue(t.right, o - 1);
    }
  }

  /** `Put` of a full or taken block changes the frames of that block and no others. */
  lemma {:induction false} PutFree(t: Tree, o: nat, k: nat, j: nat, s: Tree, f: nat)
    requires Shape(t, o) && Shape(s, k) && k <= o && j < Pow2(o - k) && f < Pow2(o)
    requires Classified(t, o) && Open(t, o, k, j)
    requires Full(s, k) || Taken(s, k)
    ensures IsFree(Put(t, o, k, j, s), o, f) == if Within(o, k, j, f) then Full(s, k) else IsFree(t, o, f)
    decreases o
  {
    if o == k {
      WholeFree(s, k, f);
    } else {
      OpenChildren(t, o, k, j);
      var half, mid := Pow2(o - 1 - k), Pow2(o - 1);
      if j < half {
        if f < mid { PutFree(t.left, o - 1, k, j, s, f); }
        PutFreeLeft(t, o, k, j, s, f);
      } else {
        if f >= mid { PutFree(t.right, o - 1, k, j - half, s, f - mid); }
        PutFreeRight(t, o, k, j, s, f);
      }
    }
  }

  lemma PutFreeLeft(t: Tree, o: nat, k: nat, j: nat, s: Tree, f: nat)
    requires Shape(t, o) && Shape(s, k) && k < o && j < Pow2(o - 1 - k) && f < Pow2(o)
    requires Classified(t, o) && Open(t, o, k, j) && Classified(t.left, o - 1) && Classified(t.right, o - 1)
    requires Full(s, k) || Taken(s, k)
    requires f < Pow2(o - 1) ==>
               IsFree(Put(t.left, o - 1, k, j, s), o - 1, f) == if Within(o - 1, k, j, f) then Full(s, k)
               else IsFree(t.left, o - 1, f)
    ensures IsFree(Put(t, o, k, j, s), o, f) == if Within(o, k, j, f) then Full(s, k) else IsFree(t, o, f)
  {
    ChildrenDecide(t, o, f);
    PutClassified(t.left, o - 1, k, j, s);
    ChildrenDecide(Put(t, o, k, j, s), o, f);
    assert Within(o, k, j, f) <==> f < Pow2(o - 1) && Within(o - 1, k, j, f);
  }

  lemma PutFreeRight(t: Tree, o: nat, k: nat, j: nat, s: Tree, f: nat)
    requires Shape(t, o) && Shape(s, k) && k < o && Pow2(o - 1 - k) <= j < Pow2(o - k) && f < Pow2(o)
    requires Classified(t, o) && Open(t, o, k, j) && Classified(t.left, o - 1) && Classified(t.right, o - 1)
    requires Full(s, k) || Taken(s, k)
    requires f >= Pow2(o - 1) ==>
               IsFree(Put(t.right, o - 1, k, j - Pow2(o - 1 - k), s), o - 1, f - Pow2(o - 1)) ==
               if Within(o - 1, k, j - Pow2(o - 1 - k), f - Pow2(o - 1)) then Full(s, k)
               else IsFree(t.right, o - 1, f - Pow2(o - 1))
    ensures IsFree(Put(t, o, k, j, s), o, f) == if Within(o, k, j, f) then Full(s, k) else IsFree(t, o, f)
  {
    ChildrenDecide(t, o, f);
    PutClassified(t.right, o - 1, k, j - Pow2(o - 1 - k), s);
    ChildrenDecide(Put(t, o, k, j, s), o, f);
    assert Within(o, k, j, f) <==> f >= Pow2(o - 1) && Within(o - 1, k, j - Pow2(o - 1 - k), f - Pow2(o - 1));
  }

  lemma WholeFree(s: Tree, k: nat, f: nat)
    requires Shape(s, k) && f < Pow2(k) && (Full(s, k) || Taken(s, k))
    ensures IsFree(s, k, f) == Full(s, k)
  {
  }

  /** The paths to two blocks part before either ends: neither block contains the other. */
  predicate Apart(o: nat, k: nat, j: nat, k': nat, j': nat)
    requires k <= o && j < Pow2(o - k) && k' <= o && j' < Pow2(o - k')
    decreases o, j
  {
    && o > k && o > k'
    && var left, left' := j < Pow2(o - 1 - k), j' < Pow2(o - 1 - k');
       || left != left'
       || (left && Apart(o - 1, k, j, k', j'))
       || (!left && Apart(o - 1, k, j - Pow2(o - 1 - k), k', j' - Pow2(o - 1 - k')))
  }

  /** Blocks that do not lie apart have a frame in common. */
  lemma {:induction false} NotApartShare(o: nat, k: nat, j: nat, k': nat, j': nat) returns (f: nat)
    requires k <= o && j < Pow2(o - k) && k' <= o && j' < Pow2(o - k')
    requires !Apart(o, k, j, k', j')
    ensures f < Pow2(o) && Within(o, k, j, f) && Within(o, k', j', f)
    decreases o
  {
    if o == k {
      f := SomeFrame(o, k', j');
    } else if o == k' {
      f := SomeFrame(o, k, j);
    } else if j < Pow2(o - 1 - k) {
      f := NotApartShare(o - 1, k, j, k', j');
    } else {
      f := NotApartShare(o - 1, k, j - Pow2(o - 1 - k), k', j' - Pow2(o - 1 - k'));
      f := f + Pow2(o - 1);
    }
  }

  lemma {:induction false} SomeFrame(o: nat, k: nat, j: nat) returns (f: nat)
    requires k <= o && j < Pow2(o - k)
    ensures f < Pow2(o) && Within(o, k, j, f)
    decreases o
  {
    if o == k {
      f := 0;
    } else if j < Pow2(o - 1 - k) {
      f := SomeFrame(o - 1, k, j);
    } else {
      f := SomeFrame(o - 1, k, j - Pow2(o - 1 - k));
      f := f + Pow2(o - 1);
    }
  }

  /** Recomputing summaries above one block keeps every held block that lies apart from it. */
  lemma {:induction false} PutKeepsHeld(t: Tree, o: nat, k: nat, j: nat, s: Tree, k': nat, j': nat)
    requires Shape(t, o) && Shape(s, k) && k <= o && j < Pow2(o - k) && k' <= o && j' < Pow2(o - k')
    requires HeldAt(t, o, k', j') && Apart(o, k, j, k', j')
    ensures HeldAt(Put(t, o, k, j, s), o, k', j')
    decreases o
  {
    var left, left' := j < Pow2(o - 1 - k), j' < Pow2(o - 1 - k');
    if left && left' {
      PutKeepsHeld(t.left, o - 1, k, j, s, k', j');
    } else if !left && !left' {
      PutKeepsHeld(t.right, o - 1, k, j - Pow2(o - 1 - k), s, k', j' - Pow2(o - 1 - k'));
    }
  }

  /** A held block lies apart from every reachable block that is full, or taken and not the same. */
  lemma {:induction false} HeldApart(t: Tree, o: nat, k: nat, j: nat, k': nat, j': nat)
    requires Shape(t, o) && k <= o && j < Pow2(o - k) && k' <= o && j' < Pow2(o - k')
    requires Open(t, o, k, j) && HeldAt(t, o, k', j')
    requires Full(At(t, o, k, j), k) || (Taken(At(t, o, k, j), k) && (k, j) != (k', j'))
    ensures Apart(o, k, j, k', j')
    decreases o
  {
    if o > k && o > k' {
      var left, left' := j < Pow2(o - 1 - k), j' < Pow2(o - 1 - k');
      if left && left' {
        HeldApart(t.left, o - 1, k, j, k', j');
      } else if !left && !left' {
        HeldApart(t.right, o - 1, k, j - Pow2(o - 1 - k), k', j' - Pow2(o - 1 - k'));
      }
    }
  }

  /** After `Put`, every block taken as a unit is the one put in or was taken before. */
  lemma {:induction false} PutTaken(t: Tree, o: nat, k: nat, j: nat, s: Tree, k': nat, j': nat)
    requires Shape(t, o) && Shape(s, k) && k <= o && j < Pow2(o - k) && 0 < k' <= o && j' < Pow2(o - k')
    requires Open(t, o, k, j) && (Full(s, k) || Taken(s, k))
    requires Open(Put(t, o, k, j, s), o, k', j') && Taken(At(Put(t, o, k, j, s), o, k', j'), k')
    ensures (k, j) == (k', j') ||
            (Apart(o, k, j, k', j') && Open(t, o, k', j') && Taken(At(t, o, k', j'), k'))
    decreases o
  {
    if o == k {
      if Full(s, k) { FullBelow(s, o, k', j'); }
    } else if o > k' {
      var left, left' := j < Pow2(o - 1 - k), j' < Pow2(o - 1 - k');
      if left && left' {
        PutTaken(t.left, o - 1, k, j, s, k', j');
      } else if !left && !left' {
        PutTaken(t.right, o - 1, k, j - Pow2(o - 1 - k), s, k', j' - Pow2(o - 1 - k'));
      }
    }
  }

  /** If a block cannot be reached, some larger reachable block around it is taken as a unit. */
  lemma {:induction false} ClosedBelowTaken(t: Tree, o: nat, k: nat, j: nat) returns (k': nat, j': nat)
    requires Shape(t, o) && Classified(t, o) && k <= o && j < Pow2(o - k) && !Open(t, o, k, j)
    ensures k < k' <= o && j' < Pow2(o - k') && !Apart(o, k, j, k', j')
    ensures Open(t, o, k', j') && Taken(At(t, o, k', j'), k')
    decreases o
  {
    if Full(t, o) { FullBelow(t, o, k, j); }
    if Taken(t, o) {
      k', j' := o, 0;
    } else if j < Pow2(o - 1 - k) {
      k', j' := ClosedBelowTaken(t.left, o - 1, k, j);
      Pow2Monotone(o - 1 - k', o - k');
    } else {
      k', j' := ClosedBelowTaken(t.right, o - 1, k, j - Pow2(o - 1 - k));
      j' := j' + Pow2(o - 1 - k');
    }
  }

  /** A block put in as taken below an open path is held. */
  lemma {:induction false} PutHolds(t: Tree, o: nat, k: nat, j: nat, s: Tree)
    requires Shape(t, o) && Shape(s, k) && k <= o && j < Pow2(o - k)
    requires Open(t, o, k, j) && Taken(s, k)
    ensures HeldAt(Put(t, o, k, j, s), o, k, j)
    decreases o
  {
    if o > k {
      if j < Pow2(o - 1 - k) {
        PutHolds(t.left, o - 1, k, j, s);
      } else {
        PutHolds(t.right, o - 1, k, j - Pow2(o - 1 - k), s);
      }
    }
  }

  lemma {:induction false} PutAt(t: Tree, o: nat, k: nat, j: nat, s: Tree)
    requires Shape(t, o) && Shape(s, k) && k <= o && j < Pow2(o - k)
    ensures At(Put(t, o, k, j, s), o, k, j) == s
    decreases o
  {
    if o > k {
      if j < Pow2(o - 1 - k) {
        PutAt(t.left, o - 1, k, j, s);
      } else {
        PutAt(t.right, o - 1, k, j - Pow2(o - 1 - k), s);
      }
    }
  }

  // ---------------------------------------------------------------- held blocks

  lemma {:induction false} HeldIsOpen(t: Tree, o: nat, k: nat, j: nat)
    requires Shape(t, o) && k <= o && j < Pow2(o - k) && HeldAt(t, o, k, j)
    ensures Open(t, o, k, j) && Taken(At(t, o, k, j), k)
    decreases o
  {
    if o > k {
      if j < Pow2(o - 1 - k) {
        HeldIsOpen(t.left, o - 1, k, j);
      } else {
        HeldIsOpen(t.right, o - 1, k, j - Pow2(o - 1 - k));
      }
    }
  }

  /** No frame of a held block is free. */
  lemma {:induction false} HeldNotFree(t: Tree, o: nat, k: nat, j: nat, f: nat)
    requires Shape(t, o) && Classified(t, o) && k <= o && j < Pow2(o - k) && f < Pow2(o)
    requires HeldAt(t, o, k, j) && Within(o, k, j, f)
    ensures !IsFree(t, o, f)
    decreases o
  {
    if o > k {
      HeldIsOpen(t, o, k, j);
      OpenChildren(t, o, k, j);
      ChildrenDecide(t, o, f);
      if j < Pow2(o - 1 - k) {
        HeldNotFree(t.left, o - 1, k, j, f);
      } else {
        HeldNotFree(t.right, o - 1, k, j - Pow2(o - 1 - k), f - Pow2(o - 1));
      }
    }
  }

  /** Blocks that lie apart share no frame. */
  lemma {:induction false} ApartDisjoint(o: nat, k: nat, j: nat, k': nat, j': nat, f: nat)
    requires k <= o && j < Pow2(o - k) && k' <= o && j' < Pow2(o - k') && f < Pow2(o)
    requires Apart(o, k, j, k', j')
    ensures !(Within(o, k, j, f) && Within(o, k', j', f))
    decreases o
  {
    var left, left' := j < Pow2(o - 1 - k), j' < Pow2(o - 1 - k');
    if left && left' && f < Pow2(o - 1) {
      ApartDisjoint(o - 1, k, j, k', j', f);
    } else if !left && !left' && f >= Pow2(o - 1) {
      ApartDisjoint(o - 1, k, j - Pow2(o - 1 - k), k', j' - Pow2(o - 1 - k'), f - Pow2(o - 1));
    }
  }

  // ---------------------------------------------------------------- the search

  /** The summary byte is one more than the order of the largest free block. */
  lemma {:induction false} ValueIsLargestFree(t: Tree, o: nat, k: nat)
    requires Shape(t, o) && Classified(t, o) && k <= o
    ensures t.val > k ==> exists j: nat :: j < Pow2(o - k) && Available(t, o, k, j)
    ensures forall j: nat | j < Pow2(o - k) && Available(t, o, k, j) :: t.val > k
    decreases o
  {
    ClassifiedValue(t, o);
    if Full(t, o) {
      var j: nat :| j == 0;
      assert j < Pow2(o - k) && Available(t, o, k, j);
    } else if Taken(t, o) || o == k {
      assert forall j: nat | j < Pow2(o - k) :: !Available(t, o, k, j);
    } else {
      var half := Pow2(o - 1 - k);
      ValueIsLargestFree(t.left, o - 1, k);
      ValueIsLargestFree(t.right, o - 1, k);
      if t.left.val > k {
        var j: nat :| j < half && Available(t.left, o - 1, k, j);
        assert Available(t, o, k, j);
      } else if t.right.val > k {
        var j: nat :| j < half && Available(t.right, o - 1, k, j);
        assert Available(t, o, k, j + half);
      } else {
        forall j: nat | j < Pow2(o - k)
          ensures !Available(t, o, k, j)
        {
          assert j < half ==> !Available(t.left, o - 1, k, j);
          assert j >= half ==> !Available(t.right, o - 1, k, j - half);
        }
      }
    }
  }

  /** The search succeeds whenever the summary byte says so, and finds the first available block. */
  lemma {:induction false} FindsFirstAvailable(t: Tree, o: nat, k: nat)
    requires Shape(t, o) && Classified(t, o) && k <= o
    ensures Find(t, o, k) >= 0 <==> t.val > k
    ensures Find(t, o, k) >= 0 ==> FirstFound(t, o, k)
    decreases o
  {
    ClassifiedValue(t, o);
    if t.val > k && o > k {
      if Full(t, o) {
        FullFind(t, o, k);
        FullBelow(t, o, k, 0);
      } else {
        FindsFirstAvailable(t.left, o - 1, k);
        if t.left.val > k {
          FoundLeft(t, o, k);
        } else {
          FindsFirstAvailable(t.right, o - 1, k);
          ValueIsLargestFree(t.left, o - 1, k);
          SkipLeft(t, o, o - 1, t.left, t.right, k);
          FoundRight(t, o, k);
        }
      }
    }
  }

  /** The block found is available, can be written, is full, and is the first available one. */
  predicate FirstFound(t: Tree, o: nat, k: nat)
    requires Shape(t, o) && k <= o && Find(t, o, k) >= 0
  {
    && Find(t, o, k) < Pow2(o - k)
    && Available(t, o, k, Find(t, o, k))
    && Open(t, o, k, Find(t, o, k))
    && Full(At(t, o, k, Find(t, o, k)), k)
    && forall j: nat | j < Find(t, o, k) :: !Available(t, o, k, j)
  }

  lemma FoundLeft(t: Tree, o: nat, k: nat)
    requires Shape(t, o) && k < o && !Full(t, o) && Summary(t) && t.val > k && Find(t.left, o - 1, k) >= 0 &&
             FirstFound(t.left, o - 1, k)
    ensures Find(t, o, k) == Find(t.left, o - 1, k) && FirstFound(t, o, k)
  {
  }

  lemma FoundRight(t: Tree, o: nat, k: nat)
    requires Shape(t, o) && k < o && !Full(t, o) && Summary(t) && t.val > k
    requires Find(t.left, o - 1, k) < 0 && Find(t.right, o - 1, k) >= 0 && FirstFound(t.right, o - 1, k)
    requires 0 <= Find(t, o, k) < Pow2(o - k) && forall j: nat | j < Find(t, o, k) :: !Available(t, o, k, j)
    ensures FirstFound(t, o, k)
  {
  }

  lemma SkipLeft(t: Tree, o': nat, o: nat, l: Tree, r: Tree, k: nat)
    requires o' == o + 1 && Shape(t, o') && k <= o && !Full(t, o') && t.left == l && t.right == r
    requires Find(t, o', k) >= 0 && Find(l, o, k) < 0
    requires forall j: nat | j < Pow2(o - k) :: !Available(l, o, k, j)
    requires 0 <= Find(r, o, k) < Pow2(o - k)
    requires forall j: nat | j < Find(r, o, k) :: !Available(r, o, k, j)
    ensures forall j: nat | j < Find(t, o', k) :: !Available(t, o', k, j)
  {
    forall j: nat | j < Find(t, o', k)
      ensures !Available(t, o', k, j)
    {
      if j < Pow2(o - k) {
        assert !Available(l, o, k, j);
      } else {
        assert !Available(r, o, k, j - Pow2(o - k));
      }
    }
  }

  lemma {:induction false} FullFind(t: Tree, o: nat, k: nat)
    requires Shape(t, o) && Full(t, o) && k <= o
    ensures Find(t, o, k) == 0
    decreases o
  {
    if o > k {
      FullFind(t.left, o - 1, k);
    }
  }

  // ---------------------------------------------------------------- leaves, zero bytes and joined blocks

  /** Below an open path a leaf says exactly whether its frame is free. */
  lemma {:induction false} OpenLeaf(t: Tree, o: nat, f: nat)
    requires Shape(t, o) && Classified(t, o) && f < Pow2(o) && Open(t, o, 0, f)
    ensures At(t, o, 0, f).val == if IsFree(t, o, f) then 1 else 0
    decreases o
  {
    if o > 0 {
      ClassifiedValue(t, o);
      if Full(t, o) {
        FullBelow(t, o, 0, f);
      } else if f < Pow2(o - 1) {
        OpenLeaf(t.left, o - 1, f);
      } else {
        OpenLeaf(t.right, o - 1, f - Pow2(o - 1));
      }
    }
  }

  /** A block with a zero byte can be reached. */
  lemma {:induction false} ZeroIsOpen(t: Tree, o: nat, k: nat, j: nat)
    requires Shape(t, o) && Classified(t, o) && k <= o && j < Pow2(o - k) && At(t, o, k, j).val == 0
    ensures Open(t, o, k, j)
    decreases o
  {
    if o > k {
      var half := Pow2(o - 1 - k);
      if Full(t, o) {
        FullBelow(t, o, k, j);
      } else if Taken(t, o) {
        if j < half { FullBelow(t.left, o - 1, k, j); } else { FullBelow(t.right, o - 1, k, j - half); }
      } else if j < half {
        ZeroIsOpen(t.left, o - 1, k, j);
      } else {
        ZeroIsOpen(t.right, o - 1, k, j - half);
      }
    }
  }

  /** Where a block can be handed out, some frame is free. */
  lemma {:induction false} AvailableHasFree(t: Tree, o: nat, k: nat, j: nat) returns (f: nat)
    requires Shape(t, o) && k <= o && j < Pow2(o - k) && Available(t, o, k, j)
    ensures f < Pow2(o) && IsFree(t, o, f)
    decreases o
  {
    f := 0;
    if !Full(t, o) {
      if j < Pow2(o - 1 - k) {
        f := AvailableHasFree(t.left, o - 1, k, j);
      } else {
        f := AvailableHasFree(t.right, o - 1, k, j - Pow2(o - 1 - k));
        f := f + Pow2(o - 1);
      }
    }
  }

  /** A tree in which a smaller block was replaced is not one free block, whatever its frames are. */
  lemma PutNotFull(t: Tree, o: nat, k: nat, j: nat, s: Tree)
    requires Shape(t, o) && Shape(s, k) && k < o && j < Pow2(o - k)
    requires Classified(t, o) && Classified(s, k) && Open(t, o, k, j)
    ensures Put(t, o, k, j, s).val <= o && !Full(Put(t, o, k, j, s), o)
  {
    OpenChildren(t, o, k, j);
    if j < Pow2(o - 1 - k) {
      PutClassified(t.left, o - 1, k, j, s);
      JoinNotFull(Put(t.left, o - 1, k, j, s), t.right, o);
    } else {
      PutClassified(t.right, o - 1, k, j - Pow2(o - 1 - k), s);
      JoinNotFull(t.left, Put(t.right, o - 1, k, j - Pow2(o - 1 - k), s), o);
    }
  }

  /** A node that was repaired never claims its whole block. */
  lemma JoinNotFull(l: Tree, r: Tree, o: nat)
    requires o > 0 && Shape(l, o - 1) && Shape(r, o - 1) && Classified(l, o - 1) && Classified(r, o - 1)
    ensures Join(l, r).val <= o && !Full(Join(l, r), o)
  {
    ClassifiedValue(l, o - 1);
    ClassifiedValue(r, o - 1);
  }

  /** No block around the replaced one can be handed out. */
  lemma {:induction false} PutNotJoined(t: Tree, o: nat, k: nat, j: nat, s: Tree, k': nat, j': nat)
    requires Shape(t, o) && Shape(s, k) && k < k' <= o && j < Pow2(o - k) && j' < Pow2(o - k')
    requires Classified(t, o) && Classified(s, k) && Open(t, o, k, j) && !Apart(o, k, j, k', j')
    ensures !Available(Put(t, o, k, j, s), o, k', j')
    decreases o
  {
    PutNotFull(t, o, k, j, s);
    if o > k' {
      OpenChildren(t, o, k, j);
      var half, half' := Pow2(o - 1 - k), Pow2(o - 1 - k');
      if j < half {
        PutNotJoined(t.left, o - 1, k, j, s, k', j');
      } else {
        PutNotJoined(t.right, o - 1, k, j - half, s, k', j' - half');
      }
    }
  }

  /** Blocks apart from the replaced one can be handed out exactly if they could before. */
  lemma {:induction false} PutKeepsAvailable(t: Tree, o: nat, k: nat, j: nat, s: Tree, k': nat, j': nat)
    requires Shape(t, o) && Shape(s, k) && k <= o && k' <= o && j < Pow2(o - k) && j' < Pow2(o - k')
    requires Classified(t, o) && Classified(s, k) && Open(t, o, k, j) && Apart(o, k, j, k', j')
    ensures Available(Put(t, o, k, j, s), o, k', j') <==> Available(t, o, k', j')
    decreases o
  {
    PutNotFull(t, o, k, j, s);
    OpenChildren(t, o, k, j);
    var half, half' := Pow2(o - 1 - k), Pow2(o - 1 - k');
    if j < half && j' < half' {
      PutKeepsAvailable(t.left, o - 1, k, j, s, k', j');
    } else if j >= half && j' >= half' {
      PutKeepsAvailable(t.right, o - 1, k, j - half, s, k', j' - half');
    }
  }

  /** The block put in, and what lies inside it, can be handed out exactly if it is free. */
  lemma {:induction false} PutInside(t: Tree, o: nat, k: nat, j: nat, s: Tree, k': nat, j': nat)
    requires Shape(t, o) && Shape(s, k) && k' <= k <= o && j < Pow2(o - k) && j' < Pow2(o - k')
    requires Classified(t, o) && (Full(s, k) || Taken(s, k)) && Open(t, o, k, j) && !Apart(o, k, j, k', j')
    ensures Available(Put(t, o, k, j, s), o, k', j') <==> Full(s, k)
    decreases o
  {
    if o > k {
      PutNotFull(t, o, k, j, s);
      OpenChildren(t, o, k, j);
      var half, half' := Pow2(o - 1 - k), Pow2(o - 1 - k');
      if j < half {
        PutInside(t.left, o - 1, k, j, s, k', j');
      } else {
        PutInside(t.right, o - 1, k, j - half, s, k', j' - half');
      }
    }
  }
}
