/** Which tables hang below a table, and in what order they may be given back. */
module TableReach {
  import opened Options
  import opened Entry
  import opened PageTable
  import opened Sequences

  ghost predicate Reach(tables: Tables, own: Owners, f: nat, x: nat)
    requires Sound(tables, own) && f in own
    decreases 4 - Rank(own[f].level), x
  {
    assert TableOk(tables, own, f);
    x == f || exists i :: 0 <= i < 512 && tables[f][i].Table? && Reach(tables, own, tables[f][i].addr, x)
  }

  /** x hangs below the entry at index i of f. */
  ghost predicate Through(tables: Tables, own: Owners, f: nat, i: nat, x: nat)
    requires Sound(tables, own) && f in own && i < 512
  {
    assert TableOk(tables, own, f) && EntryOk(tables[f][i], own, own[f], i);
    tables[f][i].Table? && Reach(tables, own, tables[f][i].addr, x)
  }

  /** x hangs below one of the first n entries of f. */
  ghost predicate ReachBelow(tables: Tables, own: Owners, f: nat, n: nat, x: nat)
    requires Sound(tables, own) && f in own && n <= 512
  {
    exists i :: 0 <= i < n && Through(tables, own, f, i, x)
  }

  lemma ReachSplits(tables: Tables, own: Owners, f: nat, x: nat)
    requires Sound(tables, own) && f in own
    ensures Reach(tables, own, f, x) <==> x == f || ReachBelow(tables, own, f, 512, x)
  {
    assert TableOk(tables, own, f);
    if Reach(tables, own, f, x) && x != f {
      var i :| 0 <= i < 512 && tables[f][i].Table? && Reach(tables, own, tables[f][i].addr, x);
      assert Through(tables, own, f, i, x);
    }
  }

  /** The place of the table of a level above a place. */
  function Ancestor(pos: Pos, level: Level): Pos
    requires !level.CR3? && Rank(level) <= Rank(pos.level)
    decreases Rank(pos.level), pos
  {
    if pos.level == level then pos else Ancestor(Pos(pos.space, Above(pos.level), pos.prefix / 512), level)
  }

  lemma {:induction false} AncestorStep(pos: Pos, level: Level)
    requires !level.CR3? && !level.PML4? && Rank(level) <= Rank(pos.level)
    ensures Ancestor(pos, level).level == level && Ancestor(pos, level).space == pos.space
    ensures Ancestor(pos, Above(level)) == Pos(pos.space, Above(level), Ancestor(pos, level).prefix / 512)
    decreases Rank(pos.level)
  {
    if pos.level != level {
      AncestorStep(Pos(pos.space, Above(pos.level), pos.prefix / 512), level);
    }
  }

  predicate Under(top: Pos, pos: Pos) {
    !top.level.CR3? && Rank(top.level) <= Rank(pos.level) && Ancestor(pos, top.level) == top
  }

  lemma UnderChild(top: Pos, i: nat, pos: Pos)
    requires !top.level.PT? && !top.level.PML4? && !top.level.CR3? && i < 512 && Under(Child(top, i), pos)
    ensures Under(top, pos)
  {
    AncestorStep(pos, Child(top, i).level);
  }

  /** What hangs below a table has a place below its place. */
  lemma {:induction false} ReachUnder(tables: Tables, own: Owners, f: nat, x: nat)
    requires Sound(tables, own) && f in own && !own[f].level.PML4? && Reach(tables, own, f, x)
    ensures x in own && Under(own[f], own[x])
    decreases 4 - Rank(own[f].level)
  {
    assert TableOk(tables, own, f);
    if x != f {
      ReachSplits(tables, own, f, x);
      var i :| 0 <= i < 512 && Through(tables, own, f, i, x);
      assert EntryOk(tables[f][i], own, own[f], i);
      ReachUnder(tables, own, tables[f][i].addr, x);
      UnderChild(own[f], i, own[x]);
    }
  }

  /** Different entries have nothing in common below them. */
  lemma ThroughOne(tables: Tables, own: Owners, f: nat, i: nat, j: nat, x: nat)
    requires Sound(tables, own) && f in own && i < 512 && j < 512 && TableOk(tables, own, f)
    requires Through(tables, own, f, i, x) && Through(tables, own, f, j, x)
    ensures i == j
  {
    assert EntryOk(tables[f][i], own, own[f], i);
    assert EntryOk(tables[f][j], own, own[f], j);
    ReachUnder(tables, own, tables[f][i].addr, x);
    ReachUnder(tables, own, tables[f][j].addr, x);
  }

  /** A table is deeper than every table above it. */
  lemma ThroughDeeper(tables: Tables, own: Owners, f: nat, i: nat, x: nat)
    requires Sound(tables, own) && f in own && i < 512 && TableOk(tables, own, f) && Through(tables, own, f, i, x)
    ensures x in own && Rank(own[f].level) < Rank(own[x].level)
    ensures own[x].space == Child(own[f], i).space
  {
    assert EntryOk(tables[f][i], own, own[f], i);
    ReachUnder(tables, own, tables[f][i].addr, x);
    AncestorStep(own[x], own[tables[f][i].addr].level);
  }

  // ---------------------------------------------------------------- reachable tables are the tables of walks

  lemma {:induction false} AncestorOnWalk(root: nat, low: Level, high: Level, v: nat)
    requires !high.CR3? && !high.PML4? && Rank(high) <= Rank(low)
    ensures Ancestor(PosAt(root, low, v), high) == PosAt(root, high, v)
    decreases Rank(low)
  {
    if low != high {
      assert Slot(Above(low), v) == Slot(low, v) / 512;
      AncestorOnWalk(root, Above(low), high, v);
    }
  }

  /** A table that hangs below a table of a walk, at a place of the walk, is the table of the walk there. */
  lemma {:induction false} ReachIsOnWalk(tables: Tables, own: Owners, root: nat, f: nat, x: nat, v: nat)
    requires Sound(tables, own) && f in own && x in own && Reach(tables, own, f, x) && !own[x].level.CR3? &&
             !own[f].level.CR3?
    requires TableAt(tables, own, root, own[f].level, v) == Some(f) && own[x] == PosAt(root, own[x].level, v)
    ensures TableAt(tables, own, root, own[x].level, v) == Some(x)
    decreases 4 - Rank(own[f].level)
  {
    assert TableOk(tables, own, f);
    if x != f {
      ReachSplits(tables, own, f, x);
      var i :| 0 <= i < 512 && Through(tables, own, f, i, x);
      var c := tables[f][i].addr;
      assert EntryOk(tables[f][i], own, own[f], i);
      ReachUnder(tables, own, c, x);
      AncestorOnWalk(root, own[x].level, own[c].level, v);
      TableAtOwned(tables, own, root, own[f].level, v);
      ChildOnWalk(root, own[f].level, v);
      assert i == Idx(own[f].level, v);
      ReachIsOnWalk(tables, own, root, c, x, v);
    }
  }

  lemma {:induction false} AncestorTwice(pos: Pos, low: Level, high: Level)
    requires !high.CR3? && Rank(high) <= Rank(low) <= Rank(pos.level) && !low.CR3?
    ensures Ancestor(pos, low).level == low && Ancestor(Ancestor(pos, low), high) == Ancestor(pos, high)
    decreases Rank(pos.level)
  {
    if pos.level != low {
      AncestorTwice(Pos(pos.space, Above(pos.level), pos.prefix / 512), low, high);
    }
  }

  /** A table is reached only through the tables of the walk for its place. */
  lemma {:induction false} ReachFollowsWalk(tables: Tables, own: Owners, r: nat, f: nat, x: nat, v: nat, low: Level)
    requires Sound(tables, own) && f in own && x in own && Reach(tables, own, f, x) && !low.CR3? && !low.PML4?
    requires Rank(own[f].level) < Rank(low) <= Rank(own[x].level) && Ancestor(own[x], low) == PosAt(r, low, v)
    requires !own[f].level.CR3? && TableAt(tables, own, r, own[f].level, v) == Some(f)
    ensures TableAt(tables, own, r, low, v).Some?
    decreases 4 - Rank(own[f].level)
  {
    assert TableOk(tables, own, f);
    ReachSplits(tables, own, f, x);
    var i :| 0 <= i < 512 && Through(tables, own, f, i, x);
    var y := tables[f][i].addr;
    assert EntryOk(tables[f][i], own, own[f], i);
    ReachUnder(tables, own, y, x);
    AncestorTwice(own[x], low, own[y].level);
    AncestorOnWalk(r, low, own[y].level, v);
    TableAtOwned(tables, own, r, own[f].level, v);
    ChildOnWalk(r, own[f].level, v);
    assert i == Idx(own[f].level, v);
    if own[y].level != low {
      ReachFollowsWalk(tables, own, r, y, x, v, low);
    }
  }

  /** The space of what hangs below a root. */
  lemma RootSpaces(tables: Tables, own: Owners, r: nat, x: nat)
    requires Sound(tables, own) && r in own && own[r] == Pos(User(r), PML4, 0) && Reach(tables, own, r, x)
    ensures x in own && (own[x].space == User(r) || own[x].space == Kernel)
  {
    assert TableOk(tables, own, r);
    if x != r {
      ReachSplits(tables, own, r, x);
      var i :| 0 <= i < 512 && Through(tables, own, r, i, x);
      ThroughDeeper(tables, own, r, i, x);
    }
  }

  /** The table c is linked at an entry of table f, which is on the walk for v0, below the root. */
  predicate Linked(tables: Tables, own: Owners, roots: set<nat>, r0: nat, v0: nat, level: Level, f: nat, c: nat) {
    && Inv(tables, own, roots) && r0 in roots && !level.CR3? && !level.PML4? && !level.PT?
    && TableAt(tables, own, r0, level, v0) == Some(f) && f in own && TableOk(tables, own, f)
    && tables[f][Idx(level, v0)] == Table(Below(level), c)
  }

  /** Through every root that shares the place, the walk stops at the overwritten entry. */
  lemma WalkStops(tables: Tables, own: Owners, roots: set<nat>, r0: nat, v0: nat, level: Level, f: nat, c: nat,
                  e: Target, r: nat)
    requires Linked(tables, own, roots, r0, v0, level, f, c) && !e.Table? && r in roots
    requires Sound(Put(tables, f, Idx(level, v0), e), own) && (r == r0 || IsKernel(v0))
    ensures TableAt(Put(tables, f, Idx(level, v0), e), own, r, Below(level), v0) == None
  {
    SameTable(tables, own, roots, r0, v0, r, v0, level);
    TableAtOwned(tables, own, r0, level, v0);
    PutTableAt(tables, own, f, Idx(level, v0), e, r, level, v0);
  }

  /**
   * A table whose entry is overwritten with a page, and every table below it, can no longer be reached through any
   * root.
   */
  lemma OverwrittenTableLeaks(tables: Tables, own: Owners, roots: set<nat>, r0: nat, v0: nat, level: Level, f: nat,
                              c: nat, e: Target, r: nat, x: nat)
    requires Linked(tables, own, roots, r0, v0, level, f, c) && !e.Table? && r in roots
    requires c in own && Reach(tables, own, c, x) && Sound(Put(tables, f, Idx(level, v0), e), own)
    ensures !Reach(Put(tables, f, Idx(level, v0), e), own, r, x)
  {
    var i := Idx(level, v0);
    var tables' := Put(tables, f, i, e);
    TableAtOwned(tables, own, r0, level, v0);
    assert EntryOk(tables[f][i], own, own[f], i);
    ChildOnWalk(r0, level, v0);
    ReachUnder(tables, own, c, x);
    AncestorStep(own[x], own[c].level);
    if Reach(tables', own, r, x) {
      RootSpaces(tables', own, r, x);
      WalkStops(tables, own, roots, r0, v0, level, f, c, e, r);
      ReachFollowsWalk(tables', own, r, r, x, v0, Below(level));
    }
  }

  // ---------------------------------------------------------------- the order of giving back

  /** The tables directly below a listed table come before it in the list. */
  ghost predicate ChildrenFirst(tables: Tables, list: seq<nat>) {
    forall k | 0 <= k < |list| :: ChildrenIn(tables, list[k], list[..k])
  }

  ghost predicate ChildrenIn(tables: Tables, f: nat, before: seq<nat>) {
    f in tables && forall i | 0 <= i < |tables[f]| && tables[f][i].Table? :: tables[f][i].addr in before
  }

  /** The list holds every table below the first n entries of f exactly once, children before parents. */
  ghost predicate GivenBelow(tables: Tables, own: Owners, list: seq<nat>, f: nat, n: nat)
    requires Sound(tables, own) && f in own && n <= 512
  {
    && NoDup(list) && ChildrenFirst(tables, list)
    && forall x: nat :: x in list <==> ReachBelow(tables, own, f, n, x)
  }

  /** The list holds f and every table below it exactly once, children before parents. */
  ghost predicate Given(tables: Tables, own: Owners, list: seq<nat>, f: nat)
    requires Sound(tables, own) && f in own
  {
    && NoDup(list) && ChildrenFirst(tables, list)
    && forall x: nat :: x in list <==> Reach(tables, own, f, x)
  }

  lemma ChildrenFirstAppend(tables: Tables, a: seq<nat>, b: seq<nat>)
    requires ChildrenFirst(tables, a) && ChildrenFirst(tables, b)
    ensures ChildrenFirst(tables, a + b)
  {
    forall k | 0 <= k < |a + b|
      ensures ChildrenIn(tables, (a + b)[k], (a + b)[..k])
    {
      if k < |a| {
        assert (a + b)[..k] == a[..k];
        assert ChildrenIn(tables, a[k], a[..k]);
      } else {
        assert (a + b)[..k] == a + b[..k - |a|];
        assert ChildrenIn(tables, b[k - |a|], b[..k - |a|]);
      }
    }
  }

  lemma NoneBelow(tables: Tables, own: Owners, f: nat)
    requires Sound(tables, own) && f in own
    ensures GivenBelow(tables, own, [], f, 0)
  {
  }

  lemma OneMore(tables: Tables, own: Owners, f: nat, n: nat, x: nat)
    requires Sound(tables, own) && f in own && n < 512 && TableOk(tables, own, f)
    ensures ReachBelow(tables, own, f, n + 1, x) <==> ReachBelow(tables, own, f, n, x) || Through(tables, own, f, n, x)
  {
    if ReachBelow(tables, own, f, n + 1, x) {
      var i :| 0 <= i < n + 1 && Through(tables, own, f, i, x);
      if i < n {
        assert 0 <= i < n && Through(tables, own, f, i, x);
      }
    }
    if ReachBelow(tables, own, f, n, x) {
      var i :| 0 <= i < n && Through(tables, own, f, i, x);
      assert 0 <= i < n + 1 && Through(tables, own, f, i, x);
    }
  }

  lemma GiveSkip(tables: Tables, own: Owners, list: seq<nat>, f: nat, n: nat)
    requires Sound(tables, own) && f in own && n < 512 && TableOk(tables, own, f)
    requires GivenBelow(tables, own, list, f, n) && !tables[f][n].Table?
    ensures GivenBelow(tables, own, list, f, n + 1)
  {
    forall x: nat
      ensures x in list <==> ReachBelow(tables, own, f, n + 1, x)
    {
      OneMore(tables, own, f, n, x);
    }
  }

  lemma GiveEntry(tables: Tables, own: Owners, list: seq<nat>, sub: seq<nat>, f: nat, n: nat)
    requires Sound(tables, own) && f in own && n < 512 && TableOk(tables, own, f)
    requires GivenBelow(tables, own, list, f, n) && tables[f][n].Table? && tables[f][n].addr in own
    requires Given(tables, own, sub, tables[f][n].addr)
    ensures GivenBelow(tables, own, list + sub, f, n + 1)
  {
    ChildrenFirstAppend(tables, list, sub);
    forall x | x in list
      ensures x !in sub
    {
      assert ReachBelow(tables, own, f, n, x);
      var i :| 0 <= i < n && Through(tables, own, f, i, x);
      if Through(tables, own, f, n, x) {
        ThroughOne(tables, own, f, i, n, x);
      }
    }
    NoDupAppend(list, sub);
    forall x: nat
      ensures x in list + sub <==> ReachBelow(tables, own, f, n + 1, x)
    {
      OneMore(tables, own, f, n, x);
      assert x in sub <==> Through(tables, own, f, n, x);
    }
  }

  lemma GiveLast(tables: Tables, own: Owners, list: seq<nat>, f: nat)
    requires Sound(tables, own) && f in own && TableOk(tables, own, f) && GivenBelow(tables, own, list, f, 512)
    ensures Given(tables, own, list + [f], f)
  {
    forall x: nat
      ensures x in list + [f] <==> Reach(tables, own, f, x)
    {
      ReachSplits(tables, own, f, x);
    }
    if f in list {
      assert ReachBelow(tables, own, f, 512, f);
      var i :| 0 <= i < 512 && Through(tables, own, f, i, f);
      ThroughDeeper(tables, own, f, i, f);
    }
    assert ChildrenIn(tables, f, list) by {
      forall i | 0 <= i < 512 && tables[f][i].Table?
        ensures tables[f][i].addr in list
      {
        assert EntryOk(tables[f][i], own, own[f], i);
        assert Through(tables, own, f, i, tables[f][i].addr);
      }
    }
    assert ChildrenFirst(tables, list + [f]) by {
      forall k | 0 <= k < |list + [f]|
        ensures ChildrenIn(tables, (list + [f])[k], (list + [f])[..k])
      {
        assert (list + [f])[..k] == list[..k];
      }
    }
  }
}
