/** Which tables can no longer be reached, and what the operations on memory maps add to them. */
module TableLoss {
  import opened Options
  import opened Entry
  import opened PageTable
  import opened TableReach

  ghost predicate Reached(tables: Tables, own: Owners, roots: set<nat>, x: nat)
    requires Inv(tables, own, roots)
  {
    exists r :: r in roots && Reach(tables, own, r, x)
  }

  /** The tables that no memory map reaches any more. */
  ghost function Lost(tables: Tables, own: Owners, roots: set<nat>): set<nat>
    requires Inv(tables, own, roots)
  {
    set x | x in own && !Reached(tables, own, roots, x)
  }

  /** The tables of a memory map: its root and what was made for its lower half. */
  function TablesOf(own: Owners, root: nat): set<nat> {
    set x | x in own && own[x].space == User(root)
  }

  /** Every table of the map can be reached from its root. */
  ghost predicate Attached(tables: Tables, own: Owners, root: nat)
    requires Sound(tables, own) && root in own
  {
    forall x | x in TablesOf(own, root) :: Reach(tables, own, root, x)
  }

  /** The tables below the entry at index i of f. */
  ghost function BelowEntry(tables: Tables, own: Owners, f: nat, i: nat): set<nat>
    requires Sound(tables, own) && f in own && i < 512
  {
    set x | x in own && Through(tables, own, f, i, x)
  }

  /** The tables of a memory map are reached from its own root or not at all. */
  lemma OnlyOwnRoot(tables: Tables, own: Owners, roots: set<nat>, root: nat, x: nat)
    requires Inv(tables, own, roots) && root in roots && x in TablesOf(own, root)
    ensures x in Lost(tables, own, roots) <==> !Reach(tables, own, root, x)
  {
    if x !in Lost(tables, own, roots) {
      var r :| r in roots && Reach(tables, own, r, x);
      RootSpaces(tables, own, r, x);
    }
  }

  lemma AttachedIfNoneLost(tables: Tables, own: Owners, roots: set<nat>, root: nat)
    requires Inv(tables, own, roots) && root in roots
    ensures Attached(tables, own, root) <==> TablesOf(own, root) !! Lost(tables, own, roots)
  {
    forall x | x in TablesOf(own, root)
      ensures x in Lost(tables, own, roots) <==> !Reach(tables, own, root, x)
    {
      OnlyOwnRoot(tables, own, roots, root, x);
    }
  }

  // ---------------------------------------------------------------- writing an entry

  /** A write keeps in reach what does not hang below the old entry. */
  lemma {:induction false} WriteKeeps(tables: Tables, own: Owners, f: nat, i: nat, e: Target, g: nat, x: nat)
    requires Sound(tables, own) && f in own && i < 512 && TableOk(tables, own, f) && Sound(Put(tables, f, i, e), own)
    requires g in own && Reach(tables, own, g, x) && !Through(tables, own, f, i, x)
    ensures Reach(Put(tables, f, i, e), own, g, x)
    decreases 4 - Rank(own[g].level)
  {
    var tables' := Put(tables, f, i, e);
    assert TableOk(tables, own, g) && TableOk(tables', own, g);
    if x != g {
      ReachSplits(tables, own, g, x);
      var j :| 0 <= j < 512 && Through(tables, own, g, j, x);
      assert EntryOk(tables[g][j], own, own[g], j);
      assert tables'[g][j] == tables[g][j];
      WriteKeeps(tables, own, f, i, e, tables[g][j].addr, x);
    }
  }

  /** A write of an entry that is no table brings nothing into reach. */
  lemma {:induction false} WriteAddsNone(tables: Tables, own: Owners, f: nat, i: nat, e: Target, g: nat, x: nat)
    requires Sound(tables, own) && f in own && i < 512 && TableOk(tables, own, f) && Sound(Put(tables, f, i, e), own)
    requires g in own && !e.Table? && Reach(Put(tables, f, i, e), own, g, x)
    ensures Reach(tables, own, g, x)
    decreases 4 - Rank(own[g].level)
  {
    var tables' := Put(tables, f, i, e);
    assert TableOk(tables, own, g) && TableOk(tables', own, g);
    if x != g {
      ReachSplits(tables', own, g, x);
      var j :| 0 <= j < 512 && Through(tables', own, g, j, x);
      assert EntryOk(tables[g][j], own, own[g], j);
      assert tables'[g][j] == tables[g][j];
      WriteAddsNone(tables, own, f, i, e, tables[g][j].addr, x);
    }
  }

  /** Exactly the tables below the old entry are lost by writing an entry that is no table. */
  lemma WriteLoses(tables: Tables, own: Owners, roots: set<nat>, r0: nat, v0: nat, level: Level, f: nat, e: Target)
    requires Inv(tables, own, roots) && r0 in roots && !level.CR3? && !level.PML4? && !e.Table?
    requires TableAt(tables, own, r0, level, v0) == Some(f) && f in own && TableOk(tables, own, f)
    requires Inv(Put(tables, f, Idx(level, v0), e), own, roots)
    ensures Lost(Put(tables, f, Idx(level, v0), e), own, roots) ==
            Lost(tables, own, roots) + BelowEntry(tables, own, f, Idx(level, v0))
  {
    forall x | x in own
      ensures Reached(Put(tables, f, Idx(level, v0), e), own, roots, x) <==>
              Reached(tables, own, roots, x) && !Through(tables, own, f, Idx(level, v0), x)
    {
      WriteReached(tables, own, roots, r0, v0, level, f, e, x);
    }
  }

  lemma WriteReached(tables: Tables, own: Owners, roots: set<nat>, r0: nat, v0: nat, level: Level, f: nat, e: Target,
                     x: nat)
    requires Inv(tables, own, roots) && r0 in roots && !level.CR3? && !level.PML4? && !e.Table?
    requires TableAt(tables, own, r0, level, v0) == Some(f) && f in own && TableOk(tables, own, f)
    requires Inv(Put(tables, f, Idx(level, v0), e), own, roots)
    ensures Reached(Put(tables, f, Idx(level, v0), e), own, roots, x) <==>
            Reached(tables, own, roots, x) && !Through(tables, own, f, Idx(level, v0), x)
  {
    var i := Idx(level, v0);
    var tables' := Put(tables, f, i, e);
    forall r | r in roots
      ensures Reach(tables', own, r, x) <==> Reach(tables, own, r, x) && !Through(tables, own, f, i, x)
    {
      if Reach(tables', own, r, x) {
        WriteAddsNone(tables, own, f, i, e, r, x);
      }
      if Through(tables, own, f, i, x) {
        TableAtOwned(tables, own, r0, level, v0);
        assert EntryOk(tables[f][i], own, own[f], i);
        OverwrittenTableLeaks(tables, own, roots, r0, v0, level, f, tables[f][i].addr, e, r, x);
      } else if Reach(tables, own, r, x) {
        WriteKeeps(tables, own, f, i, e, r, x);
      }
    }
  }

  // ---------------------------------------------------------------- linking a frame

  lemma {:induction false} ReachSnoc(tables: Tables, own: Owners, h: nat, g: nat, j: nat)
    requires Sound(tables, own) && h in own && g in own && Reach(tables, own, h, g) && j < 512
    requires TableOk(tables, own, g) && tables[g][j].Table?
    ensures Reach(tables, own, h, tables[g][j].addr)
    decreases 4 - Rank(own[h].level)
  {
    assert TableOk(tables, own, h) && EntryOk(tables[g][j], own, own[g], j);
    if h == g {
      assert Reach(tables, own, tables[g][j].addr, tables[g][j].addr);
    } else {
      ReachSplits(tables, own, h, g);
      var k :| 0 <= k < 512 && Through(tables, own, h, k, g);
      assert EntryOk(tables[h][k], own, own[h], k);
      ReachSnoc(tables, own, tables[h][k].addr, g, j);
    }
  }

  /** The tables of a walk are reached. */
  lemma {:induction false} WalkReached(tables: Tables, own: Owners, root: nat, level: Level, v: nat)
    requires Sound(tables, own) && root in own && !level.CR3? && TableAt(tables, own, root, level, v).Some?
    ensures Reach(tables, own, root, TableAt(tables, own, root, level, v).value)
    decreases Rank(level)
  {
    if !level.PML4? {
      WalkReached(tables, own, root, Above(level), v);
      var g := TableAt(tables, own, root, Above(level), v).value;
      assert TableOk(tables, own, g);
      ReachSnoc(tables, own, root, g, Idx(Above(level), v));
    }
  }

  /** Places and contents of the owned tables are the same. */
  ghost predicate Extends(t1: Tables, o1: Owners, t2: Tables, o2: Owners) {
    && Sound(t1, o1) && Sound(t2, o2)
    && forall g | g in o1 :: g in o2 && o2[g] == o1[g] && g in t1 && g in t2 && t2[g] == t1[g]
  }

  lemma {:induction false} ReachExtends(t1: Tables, o1: Owners, t2: Tables, o2: Owners, g: nat, x: nat)
    requires Extends(t1, o1, t2, o2) && g in o1
    ensures Reach(t2, o2, g, x) <==> Reach(t1, o1, g, x)
    decreases 4 - Rank(o1[g].level)
  {
    assert TableOk(t1, o1, g);
    forall i | 0 <= i < 512
      ensures Through(t2, o2, g, i, x) <==> Through(t1, o1, g, i, x)
    {
      assert EntryOk(t1[g][i], o1, o1[g], i);
      if t1[g][i].Table? {
        ReachExtends(t1, o1, t2, o2, t1[g][i].addr, x);
      }
    }
    ReachSplits(t1, o1, g, x);
    ReachSplits(t2, o2, g, x);
  }

  lemma BlankReach(tables: Tables, own: Owners, a: nat, x: nat)
    requires Sound(tables, own) && a in own && Blank(tables, a)
    ensures Reach(tables, own, a, x) <==> x == a
  {
    ReachSplits(tables, own, a, x);
  }

  /** Linking a blank table where there was none brings that table into reach, and changes nothing else. */
  lemma {:induction false} LinkReach(tables: Tables, own: Owners, f: nat, i: nat, a: nat, g: nat, x: nat)
    requires Sound(tables, own) && f in own && i < 512 && TableOk(tables, own, f) && !tables[f][i].Table?
    requires a in own && a != f && Blank(tables, a) && !own[f].level.PT?
    requires Sound(Put(tables, f, i, Table(Below(own[f].level), a)), own) && g in own
    ensures Reach(Put(tables, f, i, Table(Below(own[f].level), a)), own, g, x) <==>
            Reach(tables, own, g, x) || (x == a && Reach(tables, own, g, f))
    decreases 4 - Rank(own[g].level)
  {
    var tables' := Put(tables, f, i, Table(Below(own[f].level), a));
    assert TableOk(tables, own, g) && TableOk(tables', own, g) && TableOk(tables', own, f);
    BlankReach(tables', own, a, x);
    BlankReach(tables', own, a, f);
    forall j | 0 <= j < 512
      ensures Through(tables', own, g, j, x) <==>
              Through(tables, own, g, j, x) || (x == a && Through(tables, own, g, j, f)) || (g == f && j == i && x == a)
    {
      assert EntryOk(tables[g][j], own, own[g], j) && EntryOk(tables'[g][j], own, own[g], j);
      if !(g == f && j == i) {
        assert tables'[g][j] == tables[g][j];
        if tables[g][j].Table? {
          LinkReach(tables, own, f, i, a, tables[g][j].addr, x);
        }
      }
    }
    ReachSplits(tables, own, g, x);
    ReachSplits(tables, own, g, f);
    ReachSplits(tables', own, g, x);
    if ReachBelow(tables', own, g, 512, x) {
      var j :| 0 <= j < 512 && Through(tables', own, g, j, x);
      assert ReachBelow(tables, own, g, 512, x) || (x == a && Reach(tables, own, g, f));
    }
    if ReachBelow(tables, own, g, 512, x) {
      var j :| 0 <= j < 512 && Through(tables, own, g, j, x);
      assert Through(tables', own, g, j, x);
    }
    if x == a && g == f {
      assert Through(tables', own, g, i, x);
    } else if x == a && Reach(tables, own, g, f) {
      var j :| 0 <= j < 512 && Through(tables, own, g, j, f);
      assert Through(tables', own, g, j, x);
    }
  }

  /** Making a table where there was none loses nothing. */
  lemma LinkLoses(tables: Tables, own: Owners, roots: set<nat>, r0: nat, v0: nat, level: Level, f: nat, a: nat)
    requires Inv(tables, own, roots) && r0 in roots && !level.CR3? && !level.PT? && Fresh(tables, own, a)
    requires TableAt(tables, own, r0, level, v0) == Some(f) && f in own && own[f].level == level &&
             TableOk(tables, own, f)
    requires !tables[f][Idx(level, v0)].Table?
    requires var i := Idx(level, v0); Inv(Put(tables, f, i, Table(Below(level), a)), own[a := Child(own[f], i)], roots)
    ensures var i := Idx(level, v0);
            Lost(Put(tables, f, i, Table(Below(level), a)), own[a := Child(own[f], i)], roots) ==
              Lost(tables, own, roots)
  {
    var i := Idx(level, v0);
    var own', tables' := own[a := Child(own[f], i)], Put(tables, f, i, Table(Below(level), a));
    AdoptInv(tables, own, roots, a, Child(own[f], i));
    WalkReached(tables, own, r0, level, v0);
    assert Extends(tables, own, tables, own') by {
      forall g | g in own
        ensures g in tables
      {
        assert TableOk(tables, own, g);
      }
    }
    forall x | x in own'
      ensures Reached(tables', own', roots, x) <==> x == a || Reached(tables, own, roots, x)
    {
      assert TableOk(tables, own', f);
      forall r | r in roots
        ensures Reach(tables', own', r, x) <==> Reach(tables, own, r, x) || (x == a && Reach(tables, own, r, f))
      {
        LinkReach(tables, own', f, i, a, r, x);
        ReachExtends(tables, own, tables, own', r, x);
        ReachExtends(tables, own, tables, own', r, f);
      }
    }
    forall r | r in roots
      ensures !Reach(tables, own, r, a)
    {
      if Reach(tables, own, r, a) {
        RootSpaces(tables, own, r, a);
      }
    }
  }

  // ---------------------------------------------------------------- new and drop

  /** A new memory map loses nothing. */
  lemma NewLoses(tables: Tables, own: Owners, roots: set<nat>, root: nat, a: nat)
    requires Inv(tables, own, roots) && root in roots && Fresh(tables, own, a) && TableOk(tables, own, root)
    requires Inv(WithRoot(tables, root, a), own[a := Pos(User(a), PML4, 0)], roots + {a})
    ensures Lost(WithRoot(tables, root, a), own[a := Pos(User(a), PML4, 0)], roots + {a}) == Lost(tables, own, roots)
  {
    var tables', own' := WithRoot(tables, root, a), own[a := Pos(User(a), PML4, 0)];
    assert Extends(tables, own, tables', own') by {
      forall g | g in own
        ensures g in tables
      {
        assert TableOk(tables, own, g);
      }
    }
    forall x | x in own'
      ensures Reached(tables', own', roots + {a}, x) <==> x == a || Reached(tables, own, roots, x)
    {
      forall r | r in roots
        ensures Reach(tables', own', r, x) <==> Reach(tables, own, r, x)
      {
        ReachExtends(tables, own, tables', own', r, x);
      }
      NewRootReach(tables, own, tables', own', root, a, x);
      assert Reach(tables', own', a, a);
    }
  }

  lemma NewRootReach(tables: Tables, own: Owners, tables': Tables, own': Owners, root: nat, a: nat, x: nat)
    requires Extends(tables, own, tables', own') && root in own && Fresh(tables, own, a) && TableOk(tables, own, root)
    requires own' == own[a := Pos(User(a), PML4, 0)] && tables' == WithRoot(tables, root, a)
    ensures Reach(tables', own', a, x) ==> x == a || Reach(tables, own, root, x)
  {
    assert TableOk(tables', own', a);
    if Reach(tables', own', a, x) && x != a {
      ReachSplits(tables', own', a, x);
      var i :| 0 <= i < 512 && Through(tables', own', a, i, x);
      assert tables'[a][i] == tables[root][i] && EntryOk(tables[root][i], own, own[root], i);
      ReachExtends(tables, own, tables', own', tables[root][i].addr, x);
      assert Through(tables, own, root, i, x);
      ReachSplits(tables, own, root, x);
    }
  }

  /** Dropping a memory map gives back exactly those of its tables that can be reached from it. */
  lemma DropGives(tables: Tables, own: Owners, roots: set<nat>, root: nat, list: seq<nat>, x: nat)
    requires Inv(tables, own, roots) && root in roots && GivenBelow(tables, own, list, root, 256)
    ensures x in list + [root] <==> x in TablesOf(own, root) && Reach(tables, own, root, x)
  {
    assert TableOk(tables, own, root);
    ReachSplits(tables, own, root, x);
    forall i | 0 <= i < 512 && Through(tables, own, root, i, x)
      ensures x in own && (own[x].space == User(root) <==> i < 256) && x != root
    {
      ThroughDeeper(tables, own, root, i, x);
    }
    if x in list {
      var i :| 0 <= i < 256 && Through(tables, own, root, i, x);
      assert ReachBelow(tables, own, root, 512, x);
    }
  }

  /** What is lost after another memory map was dropped: what was lost before, except the tables of that map. */
  lemma DropLoses(tables: Tables, own: Owners, roots: set<nat>, root: nat, other: nat)
    requires Inv(tables, own, roots) && root in roots && other in roots && other != root
    requires Inv(tables, Without(own, root), roots - {root})
    ensures Lost(tables, Without(own, root), roots - {root}) == Lost(tables, own, roots) - TablesOf(own, root)
  {
    var own' := Without(own, root);
    assert Extends(tables, own', tables, own) by {
      forall g | g in own
        ensures g in tables
      {
        assert TableOk(tables, own, g);
      }
    }
    forall x | x in own'
      ensures Reached(tables, own', roots - {root}, x) <==> Reached(tables, own, roots, x)
    {
      forall r | r in roots - {root}
        ensures Reach(tables, own', r, x) <==> Reach(tables, own, r, x)
      {
        ReachExtends(tables, own', tables, own, r, x);
      }
      if Reach(tables, own, root, x) {
        KernelReach(tables, own, roots, root, other, x);
      }
    }
  }

  /** What hangs below the upper half of one root hangs below that of every root. */
  lemma KernelReach(tables: Tables, own: Owners, roots: set<nat>, root: nat, other: nat, x: nat)
    requires Inv(tables, own, roots) && root in roots && other in roots
    requires x in own && own[x].space != User(root) && Reach(tables, own, root, x)
    ensures Reach(tables, own, other, x)
  {
    assert TableOk(tables, own, root) && TableOk(tables, own, other);
    ReachSplits(tables, own, root, x);
    var i :| 0 <= i < 512 && Through(tables, own, root, i, x);
    ThroughDeeper(tables, own, root, i, x);
    assert tables[other][i] == tables[root][i];
    assert Through(tables, own, other, i, x);
    ReachSplits(tables, own, other, x);
  }

  // ---------------------------------------------------------------- map

  /** The entry of the target level on the walk for v refers to a table. */
  predicate FindsTable(tables: Tables, own: Owners, root: nat, v: nat, target: Level)
    requires Sound(tables, own) && !target.CR3?
  {
    !target.PT? && TableAt(tables, own, root, Below(target), v).Some?
  }

  /** The tables below the entry of the target level on the walk for v. */
  ghost function Hit(tables: Tables, own: Owners, root: nat, v: nat, target: Level): set<nat>
    requires Sound(tables, own) && !target.CR3?
  {
    if FindsTable(tables, own, root, v, target) then
      TableAtOwned(tables, own, root, Below(target), v);
      set x | x in own && Reach(tables, own, TableAt(tables, own, root, Below(target), v).value, x)
    else {}
  }

  /** Only tables were added, and nothing was lost. */
  ghost predicate OnlyGrew(t0: Tables, o0: Owners, t1: Tables, o1: Owners, roots: set<nat>) {
    && Inv(t0, o0, roots) && Inv(t1, o1, roots) && Lost(t1, o1, roots) == Lost(t0, o0, roots)
    && forall x | x in o0 :: x in o1 && o1[x] == o0[x]
  }

  lemma LinkGrows(t0: Tables, o0: Owners, t1: Tables, o1: Owners, roots: set<nat>, r0: nat, v0: nat, level: Level,
                  f: nat, a: nat)
    requires OnlyGrew(t0, o0, t1, o1, roots) && r0 in roots && !level.CR3? && !level.PT? && Fresh(t1, o1, a)
    requires TableAt(t1, o1, r0, level, v0) == Some(f) && f in o1 && o1[f].level == level && TableOk(t1, o1, f)
    requires !t1[f][Idx(level, v0)].Table?
    requires var i := Idx(level, v0); Inv(Put(t1, f, i, Table(Below(level), a)), o1[a := Child(o1[f], i)], roots)
    ensures var i := Idx(level, v0);
            OnlyGrew(t0, o0, Put(t1, f, i, Table(Below(level), a)), o1[a := Child(o1[f], i)], roots)
  {
    LinkLoses(t1, o1, roots, r0, v0, level, f, a);
  }

  /** The walk of `map` went down to table f, and nothing was lost. */
  ghost predicate Going(t0: Tables, o0: Owners, t1: Tables, o1: Owners, roots: set<nat>, r0: nat, v0: nat,
                        level: Level, f: nat, cut: Option<Level>) {
    Descended(t0, o0, t1, o1, roots, r0, v0, level, f, cut) && OnlyGrew(t0, o0, t1, o1, roots)
  }

  lemma GoingAt(t0: Tables, o0: Owners, t1: Tables, o1: Owners, roots: set<nat>, r0: nat, v0: nat, level: Level,
                f: nat, cut: Option<Level>)
    requires Going(t0, o0, t1, o1, roots, r0, v0, level, f, cut)
    ensures f in o1 && o1[f].level == level && TableOk(t1, o1, f)
  {
    TableAtOwned(t1, o1, r0, level, v0);
    assert TableOk(t1, o1, f);
  }

  lemma GoingSplit(t0: Tables, o0: Owners, t1: Tables, o1: Owners, roots: set<nat>, r0: nat, v0: nat, level: Level,
                   f: nat, cut: Option<Level>, a: nat)
    requires Going(t0, o0, t1, o1, roots, r0, v0, level, f, cut)
    requires !level.PT? && f in o1 && TableOk(t1, o1, f) && !t1[f][Idx(level, v0)].Table? && Fresh(t1, o1, a)
    ensures o1[f].level == level
    ensures Going(t0, o0, Put(t1, f, Idx(level, v0), Table(Below(level), a)), o1[a := Child(o1[f], Idx(level, v0))],
                  roots, r0, v0, Below(level), a, if cut.Some? then cut else Some(level))
  {
    StepSplit(t0, o0, t1, o1, roots, r0, v0, level, f, cut, a);
    LinkGrows(t0, o0, t1, o1, roots, r0, v0, level, f, a);
  }

  lemma {:induction false} EndsAbove(tables: Tables, own: Owners, r0: nat, v0: nat, cut: Level, level: Level)
    requires Sound(tables, own) && EndsAt(tables, own, r0, v0, cut) && !level.CR3? && Rank(cut) < Rank(level)
    ensures TableAt(tables, own, r0, level, v0) == None
    decreases Rank(level)
  {
    if Above(level) != cut {
      EndsAbove(tables, own, r0, v0, cut, Above(level));
    }
  }

  /** The number of tables down to a level that the walk for v lacks. */
  function Missing(tables: Tables, own: Owners, root: nat, level: Level, v: nat): nat
    requires Sound(tables, own) && !level.CR3?
    decreases Rank(level), v
  {
    if level.PML4? then 0
    else Missing(tables, own, root, Above(level), v) + if TableAt(tables, own, root, level, v).None? then 1 else 0
  }

  lemma {:induction false} MissingGrows(tables: Tables, own: Owners, root: nat, low: Level, high: Level, v: nat)
    requires Sound(tables, own) && !high.CR3? && Rank(high) <= Rank(low)
    ensures Missing(tables, own, root, high, v) <= Missing(tables, own, root, low, v) < Rank(low)
    decreases Rank(low)
  {
    if low != high {
      MissingGrows(tables, own, root, Above(low), high, v);
    } else if !low.PML4? {
      MissingGrows(tables, own, root, Above(low), Above(low), v);
    }
  }

  lemma {:induction false} NoneMissing(tables: Tables, own: Owners, root: nat, level: Level, v: nat)
    requires Sound(tables, own) && !level.CR3? && TableAt(tables, own, root, level, v).Some?
    ensures Missing(tables, own, root, level, v) == 0
    decreases Rank(level)
  {
    if !level.PML4? {
      NoneMissing(tables, own, root, Above(level), v);
    }
  }

  lemma FoundNoneMissing(tables: Tables, own: Owners, root: nat, v: nat, target: Level)
    requires Sound(tables, own) && !target.CR3?
    ensures FindsTable(tables, own, root, v, target) ==> Missing(tables, own, root, target, v) == 0
  {
    if FindsTable(tables, own, root, v, target) {
      NoneMissing(tables, own, root, Below(target), v);
    }
  }

  /** A step of `map` makes a table exactly if the walk lacked one before. */
  lemma StepMissing(t0: Tables, o0: Owners, t1: Tables, o1: Owners, roots: set<nat>, r0: nat, v0: nat, level: Level,
                    f: nat, cut: Option<Level>)
    requires Going(t0, o0, t1, o1, roots, r0, v0, level, f, cut) && !level.PT? && f in o1 && TableOk(t1, o1, f)
    ensures Missing(t0, o0, r0, Below(level), v0) ==
            Missing(t0, o0, r0, level, v0) + if t1[f][Idx(level, v0)].Table? then 0 else 1
  {
    TableAtOwned(t1, o1, r0, level, v0);
    if cut.Some? {
      EndsAbove(t0, o0, r0, v0, cut.value, Below(level));
    }
  }

  /** The translations if `map` stopped for want of frames: only a page in the way is lost, if a table was made. */
  ghost predicate Stopped(t0: Tables, o0: Owners, t1: Tables, o1: Owners, roots: set<nat>, r0: nat, v0: nat,
                          target: Level, made: bool)
    requires Inv(t0, o0, roots) && Inv(t1, o1, roots) && r0 in roots
  {
    forall r, x: nat | r in roots ::
      Trans(t1, o1, r, x) ==
      if made then Expected(t0, o0, r0, v0, target, None, r, x) else Trans(t0, o0, r, x)
  }

  lemma StoppedTrans(t0: Tables, o0: Owners, t1: Tables, o1: Owners, roots: set<nat>, r0: nat, v0: nat, level: Level,
                     f: nat, cut: Option<Level>, target: Level)
    requires Going(t0, o0, t1, o1, roots, r0, v0, level, f, cut) && Rank(level) <= Rank(target)
    ensures Stopped(t0, o0, t1, o1, roots, r0, v0, target, cut.Some?)
  {
    if cut.Some? {
      SameAnswer(t0, o0, roots, r0, v0, cut.value, r0, v0);
      forall r, x: nat | r in roots
        ensures Trans(t1, o1, r, x) == Expected(t0, o0, r0, v0, target, None, r, x)
      {
        DescendedTrans(t0, o0, t1, o1, roots, r0, v0, level, f, cut, r, x);
      }
    }
  }

  /** What hangs below the last entry is what hung below it before the walk went down. */
  lemma HitIsBelow(t0: Tables, o0: Owners, t1: Tables, o1: Owners, roots: set<nat>, r0: nat, v0: nat, level: Level,
                   f: nat, cut: Option<Level>)
    requires Descended(t0, o0, t1, o1, roots, r0, v0, level, f, cut) && f in o1
    ensures BelowEntry(t1, o1, f, Idx(level, v0)) == Hit(t0, o0, r0, v0, level)
  {
    TableAtOwned(t1, o1, r0, level, v0);
    assert TableOk(t1, o1, f) && EntryOk(t1[f][Idx(level, v0)], o1, o1[f], Idx(level, v0));
    if cut.Some? && !level.PT? {
      EndsAbove(t0, o0, r0, v0, cut.value, Below(level));
    }
  }

  /** What hangs below an entry of a walk was in reach. */
  lemma HitReached(tables: Tables, own: Owners, roots: set<nat>, root: nat, v: nat, target: Level)
    requires Inv(tables, own, roots) && root in roots && !target.CR3?
    ensures Hit(tables, own, root, v, target) !! Lost(tables, own, roots)
    ensures Hit(tables, own, root, v, target) == {} <==> !FindsTable(tables, own, root, v, target)
  {
    if FindsTable(tables, own, root, v, target) {
      TableAtOwned(tables, own, root, Below(target), v);
      var c := TableAt(tables, own, root, Below(target), v).value;
      assert c in Hit(tables, own, root, v, target);
      WalkReached(tables, own, root, Below(target), v);
      forall x | x in Hit(tables, own, root, v, target)
        ensures Reached(tables, own, roots, x)
      {
        ReachTransitive(tables, own, root, c, x);
      }
    }
  }

  lemma {:induction false} ReachTransitive(tables: Tables, own: Owners, h: nat, g: nat, x: nat)
    requires Sound(tables, own) && h in own && g in own && Reach(tables, own, h, g) && Reach(tables, own, g, x)
    ensures Reach(tables, own, h, x)
    decreases 4 - Rank(own[h].level)
  {
    assert TableOk(tables, own, h);
    if h != g {
      ReachSplits(tables, own, h, g);
      var k :| 0 <= k < 512 && Through(tables, own, h, k, g);
      assert EntryOk(tables[h][k], own, own[h], k);
      ReachTransitive(tables, own, tables[h][k].addr, g, x);
      assert Through(tables, own, h, k, x);
      ReachSplits(tables, own, h, x);
    }
  }

  /** What `map` loses: the tables below the entry that it writes over. */
  ghost predicate MapLoses(t0: Tables, o0: Owners, t1: Tables, o1: Owners, roots: set<nat>, r0: nat, v0: nat,
                           level: Level, writes: bool) {
    && Inv(t0, o0, roots) && Inv(t1, o1, roots) && !level.CR3?
    && Lost(t1, o1, roots) == Lost(t0, o0, roots) + (if writes then Hit(t0, o0, r0, v0, level) else {})
    && forall x | x in o0 :: x in o1 && o1[x] == o0[x]
  }

  lemma LeafLoses(t0: Tables, o0: Owners, t1: Tables, o1: Owners, roots: set<nat>, r0: nat, v0: nat, level: Level,
                  f: nat, cut: Option<Level>, e: Target)
    requires Descended(t0, o0, t1, o1, roots, r0, v0, level, f, cut) && OnlyGrew(t0, o0, t1, o1, roots)
    requires f in o1 && TableOk(t1, o1, f) && !level.PML4? && !e.Table?
    requires Inv(Put(t1, f, Idx(level, v0), e), o1, roots)
    ensures MapLoses(t0, o0, Put(t1, f, Idx(level, v0), e), o1, roots, r0, v0, level, true)
  {
    WriteLoses(t1, o1, roots, r0, v0, level, f, e);
    HitIsBelow(t0, o0, t1, o1, roots, r0, v0, level, f, cut);
  }

  /** A memory map all of whose tables could be reached stays like that exactly if no table is written over. */
  lemma MapAttached(t0: Tables, o0: Owners, t1: Tables, o1: Owners, roots: set<nat>, r0: nat, v0: nat, level: Level,
                    writes: bool, r: nat)
    requires MapLoses(t0, o0, t1, o1, roots, r0, v0, level, writes) && r0 in roots && r in roots
    requires Attached(t0, o0, r)
    ensures Attached(t1, o1, r) <==> !(writes && FindsTable(t0, o0, r0, v0, level) && r == r0 && !IsKernel(v0))
  {
    AttachedIfNoneLost(t0, o0, roots, r);
    AttachedIfNoneLost(t1, o1, roots, r);
    if writes && FindsTable(t0, o0, r0, v0, level) {
      TableAtOwned(t0, o0, r0, Below(level), v0);
      var c := TableAt(t0, o0, r0, Below(level), v0).value;
      assert c in Hit(t0, o0, r0, v0, level);
      forall x | x in Hit(t0, o0, r0, v0, level)
        ensures o0[x].space == SpaceOf(r0, v0)
      {
        ReachUnder(t0, o0, c, x);
        AncestorStep(o0[x], o0[c].level);
      }
    }
  }

  /** The same for all memory maps at once. */
  lemma AttachedAfter(t0: Tables, o0: Owners, t1: Tables, o1: Owners, roots: set<nat>, r0: nat, v0: nat, level: Level,
                      writes: bool)
    requires MapLoses(t0, o0, t1, o1, roots, r0, v0, level, writes) && r0 in roots
    ensures forall r | r in roots && Attached(t0, o0, r) ::
              Attached(t1, o1, r) <==> !(writes && FindsTable(t0, o0, r0, v0, level) && r == r0 && !IsKernel(v0))
  {
    forall r | r in roots && Attached(t0, o0, r)
      ensures Attached(t1, o1, r) <==> !(writes && FindsTable(t0, o0, r0, v0, level) && r == r0 && !IsKernel(v0))
    {
      MapAttached(t0, o0, t1, o1, roots, r0, v0, level, writes, r);
    }
  }

  /** What is given back, in terms of what is lost. All is given back exactly if the map was attached. */
  lemma GivesReached(tables: Tables, own: Owners, roots: set<nat>, root: nat, list: seq<nat>)
    requires Inv(tables, own, roots) && root in roots && GivenBelow(tables, own, list, root, 256)
    ensures (set x | x in list + [root]) == TablesOf(own, root) - Lost(tables, own, roots)
    ensures (forall x | x in TablesOf(own, root) :: x in list + [root]) <==> Attached(tables, own, root)
  {
    forall x: nat
      ensures x in list + [root] <==> x in TablesOf(own, root) && Reach(tables, own, root, x)
    {
      DropGives(tables, own, roots, root, list, x);
    }
    forall x | x in TablesOf(own, root)
      ensures x in Lost(tables, own, roots) <==> !Reach(tables, own, root, x)
    {
      OnlyOwnRoot(tables, own, roots, root, x);
    }
  }

  /** The owned tables have the same contents. */
  ghost predicate SameTables(t1: Tables, t2: Tables, own: Owners) {
    forall g | g in own :: g in t1 && g in t2 && t2[g] == t1[g]
  }

  /** Only the contents of the tables matter. */
  lemma SameReached(t1: Tables, t2: Tables, own: Owners, roots: set<nat>)
    requires Inv(t1, own, roots) && Inv(t2, own, roots)
    requires SameTables(t1, t2, own)
    ensures Lost(t2, own, roots) == Lost(t1, own, roots)
  {
    forall r, x | r in roots && x in own
      ensures Reach(t2, own, r, x) <==> Reach(t1, own, r, x)
    {
      ReachExtends(t1, own, t2, own, r, x);
    }
  }
}
