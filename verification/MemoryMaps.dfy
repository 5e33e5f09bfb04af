/** Memory maps over physical memory: `new`, `map`, `translate` and the walker behind them. */
module MemoryMaps {
  import opened Options
  import Bits
  import opened MachineWord
  import opened Entry
  import opened PageTable
  import opened TableReach
  import opened TableLoss
  import opened Sequences
  import opened WalkWords

  const TABLE_FLAGS: seq<Flag> := [Present, ReadWrite]

  /** The decoded tables agree with the words of memory. Of the frames that are not tables only zero words matter. */
  ghost predicate Decodes(words: map<nat, seq<Word>>, own: Owners, tables: Tables) {
    && tables.Keys == words.Keys
    && (forall f | f in words :: |tables[f]| == |words[f]|)
    && (forall f | f in own :: IsFrame(f))
    && (forall f, i {:trigger words[f][i]} | f in words && 0 <= i < |words[f]| ::
         DecodesEntry(words[f][i], own, f, tables[f][i]))
  }

  /** The address of a frame of physical memory. */
  predicate IsFrame(a: nat) {
    a % 0x1000 == 0 && Narrow(a)
  }

  predicate DecodesEntry(w: Word, own: Owners, f: nat, t: Target) {
    if f in own then t == TargetOf(w, own[f].level) else w == {} ==> t == Nothing
  }

  /** What the frame allocator returns: an aligned, zero-filled frame that is not a table. */
  predicate Allocated(words: map<nat, seq<Word>>, own: Owners, a: nat) {
    && a !in own && a in words && |words[a]| == 512 && (forall i | 0 <= i < 512 :: words[a][i] == {})
    && IsFrame(a)
  }

  lemma ZeroDecodes(level: Level)
    requires !level.CR3?
    ensures TargetOf({}, level) == Nothing
  {
  }

  lemma AllocatedIsFresh(words: map<nat, seq<Word>>, own: Owners, tables: Tables, a: nat)
    requires Decodes(words, own, tables) && Allocated(words, own, a)
    ensures Fresh(tables, own, a)
  {
    forall i | 0 <= i < 512 ensures tables[a][i] == Nothing {
      assert words[a][i] == {};
    }
  }

  lemma AdoptDecodes(words: map<nat, seq<Word>>, own: Owners, tables: Tables, a: nat, pos: Pos)
    requires Decodes(words, own, tables) && Allocated(words, own, a) && !pos.level.CR3?
    ensures Decodes(words, own[a := pos], tables)
  {
    ZeroDecodes(pos.level);
  }

  lemma DropDecodes(words: map<nat, seq<Word>>, own: Owners, tables: Tables, root: nat)
    requires Decodes(words, own, tables) && Sound(tables, own)
    ensures Decodes(words, Without(own, root), tables)
  {
    forall f, i {:trigger words[f][i]} | f in words && 0 <= i < |words[f]|
      ensures DecodesEntry(words[f][i], Without(own, root), f, tables[f][i])
    {
      if f in own {
        assert TableOk(tables, own, f);
        ZeroDecodes(own[f].level);
      }
    }
  }

  /** The entries of a zero-filled table. */
  function NoTargets(): (t: seq<Target>)
    ensures |t| == 512 && forall i | 0 <= i < 512 :: t[i] == Nothing
  {
    seq(512, i => Nothing)
  }

  lemma ScrubKeeps(words: map<nat, seq<Word>>, tables: Tables, own: Owners, roots: set<nat>, a: nat)
    requires Decodes(words, own, tables) && Inv(tables, own, roots) && a !in own && a in words
    ensures Decodes(words[a := seq(512, i => {})], own, tables[a := NoTargets()])
    ensures Inv(tables[a := NoTargets()], own, roots)
    ensures Lost(tables[a := NoTargets()], own, roots) == Lost(tables, own, roots)
  {
    forall f | f in own
      ensures TableOk(tables[a := NoTargets()], own, f)
    {
      assert TableOk(tables, own, f);
    }
    assert forall g | g in own :: TableOk(tables, own, g);
    SameReached(tables, tables[a := NoTargets()], own, roots);
  }

  /** The table flags are valid at the three upper levels and make a table entry. */
  lemma TableFlagsValid(level: Level, addr: nat)
    requires level.PML4? || level.PDPT? || level.PD?
    ensures Allowed(level, TABLE_FLAGS) && KindOf(level, TABLE_FLAGS, addr) == Table(Below(level), addr)
    ensures Unit(level, TABLE_FLAGS) == 0x1000 && FlagNumber(TABLE_FLAGS) == 3
  {
  }

  lemma TowardsTarget(level: Level, target: Level)
    requires Rank(level) <= Rank(target) && level != target
    ensures !level.PT? && Rank(Below(level)) == Rank(level) + 1 && Rank(Below(level)) <= Rank(target)
  {
  }

  /** What the last `reinit` of `map` leaves in the entry, if it writes it. */
  function FinalEntry(level: Level, flags: seq<Flag>, p: nat): Option<Target> {
    if Allowed(level, flags) then Some(KindOf(level, flags, p)) else if flags == [] then Some(Nothing) else None
  }

  /** The flags make `map` write a reference to a table: the caller left out the flag for a large page. */
  predicate Links(level: Level, flags: seq<Flag>) {
    Allowed(level, flags) && IsMiddle(level) && PageSize !in flags
  }

  /** The tables are those of before and the frames of the pool from one index up to another. */
  predicate Took(before: set<nat>, after: set<nat>, pool: seq<nat>, from: nat, to: nat)
    requires from <= to <= |pool|
  {
    after == before + set x | x in pool[from..to]
  }

  lemma TookStep(before: set<nat>, mid: set<nat>, after: set<nat>, pool: seq<nat>, from: nat, to: nat, to': nat)
    requires from <= to <= to' <= |pool| && to' <= to + 1 && Took(before, mid, pool, from, to)
    requires after == if to' == to then mid else mid + {pool[to]}
    ensures Took(before, after, pool, from, to')
  {
    if to < to' {
      assert pool[from..to'] == pool[from..to] + [pool[to]];
    }
  }

  /** How a flag reads in an entry made of a flag list. */
  function ReadingOf(level: Level, flags: seq<Flag>, g: Flag): Reading {
    if !HasFlag(level, Present in flags, PageSize in flags, g) then Unavailable else if g in flags then Set else Clear
  }

  lemma FlagsWritten(w: Word, level: Level, addr: nat, flags: seq<Flag>)
    requires Allowed(level, flags) && addr % Unit(level, flags) == 0 && Narrow(addr)
    ensures forall g: Flag :: FlagOf(Reinited(w, level, addr, flags).0, level, g) == ReadingOf(level, flags, g)
  {
    forall g: Flag
      ensures FlagOf(Reinited(w, level, addr, flags).0, level, g) == ReadingOf(level, flags, g)
    {
      ReinitRoundTrip(w, level, addr, flags, g);
    }
  }

  /** An address on a page of a level fits every entry of that level. */
  lemma PageFits(level: Level, flags: seq<Flag>, p: nat)
    requires p % Align(Page(level, p)) == 0
    ensures p % Unit(level, flags) == 0
  {
    if p % 0x4000_0000 == 0 {
      Bits.DivModUnique(p, 0x1000, p / 0x4000_0000 * 0x4_0000, 0);
    } else if p % 0x20_0000 == 0 {
      Bits.DivModUnique(p, 0x1000, p / 0x20_0000 * 0x200, 0);
    }
  }

  lemma FinalWord(w: Word, level: Level, flags: seq<Flag>, p: nat)
    requires (IsMiddle(level) || level.PT?) && Narrow(p) && p % Align(Page(level, p)) == 0
    ensures Links(level, flags) <==> FinalEntry(level, flags, p).Some? && FinalEntry(level, flags, p).value.Table?
    ensures FinalEntry(level, flags, p).None? ==> Reinited(w, level, p, flags).0 == w
    ensures FinalEntry(level, flags, p).Some? ==>
              TargetOf(Reinited(w, level, p, flags).0, level) == FinalEntry(level, flags, p).value
  {
    PageFits(level, flags, p);
    ReinitNumber(w, level, p, flags);
    if Allowed(level, flags) {
      ReinitRoundTrip(w, level, p, flags, Present);
    }
  }

  /** The entry of the target level on the walk for v carries exactly the listed flags. */
  ghost predicate LeafFlags(words: map<nat, seq<Word>>, tables: Tables, own: Owners, root: nat, v: nat, target: Level,
                            flags: seq<Flag>)
    requires Sound(tables, own) && !target.CR3?
  {
    var f := TableAt(tables, own, root, target, v);
    && f.Some? && f.value in words && Idx(target, v) < |words[f.value]|
    && forall g: Flag :: FlagOf(words[f.value][Idx(target, v)], target, g) == ReadingOf(target, flags, g)
  }

  /** All that the last `reinit` of `map` does, for the word w that was in the entry. */
  lemma LeafStep(t0: Tables, o0: Owners, t1: Tables, o1: Owners, roots: set<nat>, root: nat, v: nat, target: Level,
                 f: nat, cut: Option<Level>, w: Word, p: nat, flags: seq<Flag>)
    requires Descended(t0, o0, t1, o1, roots, root, v, target, f, cut) && (IsMiddle(target) || target.PT?)
    requires !Links(target, flags) && Narrow(p) && p % Align(Page(target, p)) == 0
    requires f in o1 && o1[f].level == target && TableOk(t1, o1, f) && t1[f][Idx(target, v)] == TargetOf(w, target)
    ensures var t2 := Put(t1, f, Idx(target, v), TargetOf(Reinited(w, target, p, flags).0, target));
            && Inv(t2, o1, roots) && TableAt(t2, o1, root, target, v) == Some(f)
            && forall r, x: nat | r in roots ::
                 Trans(t2, o1, r, x) == Expected(t0, o0, root, v, target, FinalEntry(target, flags, p), r, x)
    ensures Allowed(target, flags) ==>
              forall g: Flag :: FlagOf(Reinited(w, target, p, flags).0, target, g) == ReadingOf(target, flags, g)
  {
    var e := TargetOf(Reinited(w, target, p, flags).0, target);
    FinalWord(w, target, flags, p);
    LeafRefines(t0, o0, t1, o1, roots, root, v, target, f, cut, FinalEntry(target, flags, p), e);
    PutTableAt(t1, o1, f, Idx(target, v), e, root, target, v);
    if Allowed(target, flags) {
      PageFits(target, flags, p);
      FlagsWritten(w, target, p, flags);
    }
  }

  // ---------------------------------------------------------------- frames of any contents

  /** The walk for v from frame f, read as a table of a level, whatever the words in memory are. */
  function RawWalk(words: map<nat, seq<Word>>, f: nat, level: Level, v: nat): Target
    decreases 4 - Rank(level), v
  {
    if f !in words || |words[f]| != 512 then Nothing
    else
      var t := TargetOf(words[f][Idx(level, v)], level);
      if t.Table? then RawWalk(words, t.addr, t.level, v) else t
  }

  /** No page entry can be reached from frame f. */
  predicate NoPages(words: map<nat, seq<Word>>, f: nat, level: Level)
    decreases 4 - Rank(level), f
  {
    f in words && |words[f]| == 512 ==>
      forall i | 0 <= i < 512 ::
        var t := TargetOf(words[f][i], level);
        !t.Page? && (t.Table? ==> NoPages(words, t.addr, t.level))
  }

  /** In a memory of well-formed trees this is the walk of the tables. */
  lemma {:induction false} RawIsWalk(words: map<nat, seq<Word>>, own: Owners, tables: Tables, f: nat, v: nat)
    requires Decodes(words, own, tables) && Sound(tables, own) && f in own
    ensures RawWalk(words, f, own[f].level, v) == Walk(tables, own, f, v)
    decreases 4 - Rank(own[f].level)
  {
    assert TableOk(tables, own, f);
    var i := Idx(own[f].level, v);
    assert DecodesEntry(words[f][i], own, f, tables[f][i]);
    assert EntryOk(tables[f][i], own, own[f], i);
    if tables[f][i].Table? {
      RawIsWalk(words, own, tables, tables[f][i].addr, v);
    }
  }

  lemma {:induction false} NoPageFound(words: map<nat, seq<Word>>, f: nat, level: Level, v: nat)
    requires NoPages(words, f, level)
    ensures !RawWalk(words, f, level, v).Page?
    decreases 4 - Rank(level)
  {
    if f in words && |words[f]| == 512 {
      var t := TargetOf(words[f][Idx(level, v)], level);
      if t.Table? {
        NoPageFound(words, t.addr, t.level, v);
      }
    }
  }

  /** A page entry that can be reached from a frame maps some address below the link. */
  lemma {:induction false} PageFound(words: map<nat, seq<Word>>, a: nat, level: Level, v0: nat) returns (v: nat)
    requires !level.CR3? && !level.PT? && !NoPages(words, a, Below(level))
    ensures Slot(level, v) == Slot(level, v0) && RawWalk(words, a, Below(level), v).Page?
    decreases 4 - Rank(level)
  {
    var k :| 0 <= k < 512 &&
      var t := TargetOf(words[a][k], Below(level));
      t.Page? || (t.Table? && !NoPages(words, t.addr, t.level));
    var t := TargetOf(words[a][k], Below(level));
    v := AddrBelow(level, v0, k);
    SlotIsBelow(level, v0, k, v);
    if t.Table? {
      v := PageFound(words, t.addr, Below(level), v);
    }
  }

  /**
   * For a frame of any contents that is linked as a table: all addresses below the link are unmapped if and only if
   * no page entry can be reached from the frame.
   */
  lemma NewFrameNeedsZeroes(words: map<nat, seq<Word>>, a: nat, level: Level, v0: nat)
    requires !level.CR3? && !level.PT?
    ensures (forall v: nat | Slot(level, v) == Slot(level, v0) :: !RawWalk(words, a, Below(level), v).Page?) <==>
            NoPages(words, a, Below(level))
  {
    if NoPages(words, a, Below(level)) {
      forall v: nat | Slot(level, v) == Slot(level, v0)
        ensures !RawWalk(words, a, Below(level), v).Page?
      {
        NoPageFound(words, a, Below(level), v);
      }
    } else {
      var v := PageFound(words, a, level, v0);
    }
  }

  /** The walk still comes to the tables at or above the level of the changed one. */
  lemma {:induction false} RawToTable(words: map<nat, seq<Word>>, words': map<nat, seq<Word>>, own: Owners,
                                      tables: Tables, f: nat, i: nat, r: nat, level: Level, x: nat)
    requires Decodes(words, own, tables) && Sound(tables, own) && f in own && OneWord(words, words', f, i)
    requires !level.CR3? && Rank(level) <= Rank(own[f].level) && TableAt(tables, own, r, level, x).Some?
    ensures RawWalk(words', r, PML4, x) == RawWalk(words', TableAt(tables, own, r, level, x).value, level, x)
    decreases Rank(level)
  {
    if !level.PML4? {
      RawToTable(words, words', own, tables, f, i, r, Above(level), x);
      var g := TableAt(tables, own, r, Above(level), x).value;
      assert TableOk(tables, own, g);
      assert words'[g] == words[g];
      var j := Idx(Above(level), x);
      assert DecodesEntry(words[g][j], own, g, tables[g][j]);
      assert EntryOk(tables[g][j], own, own[g], j);
    }
  }

  /** A walk that does not use the changed word ends as before. */
  lemma {:induction false} RawElsewhere(words: map<nat, seq<Word>>, words': map<nat, seq<Word>>, own: Owners,
                                        tables: Tables, f: nat, i: nat, g: nat, r: nat, x: nat)
    requires Decodes(words, own, tables) && Sound(tables, own) && f in own && OneWord(words, words', f, i)
    requires g in own && !own[g].level.CR3? && !own[f].level.CR3? && own[g] == PosAt(r, own[g].level, x)
    requires own[f] == PosAt(r, own[f].level, x) ==> Idx(own[f].level, x) != i
    ensures RawWalk(words', g, own[g].level, x) == Walk(tables, own, g, x)
    decreases 4 - Rank(own[g].level)
  {
    assert TableOk(tables, own, g);
    var j := Idx(own[g].level, x);
    assert DecodesEntry(words[g][j], own, g, tables[g][j]);
    assert EntryOk(tables[g][j], own, own[g], j);
    assert words'[g][j] == words[g][j];
    if tables[g][j].Table? {
      ChildOnWalk(r, own[g].level, x);
      assert TableOk(tables, own, tables[g][j].addr);
      RawElsewhere(words, words', own, tables, f, i, tables[g][j].addr, r, x);
    }
  }

  /**
   * All walks after `map` wrote a reference to a table at p: addresses of the page go on in the frame at p, whatever is
   * in it, and all others are answered as expected.
   */
  ghost predicate Linking(words: map<nat, seq<Word>>, t0: Tables, o0: Owners, roots: set<nat>, root: nat, v: nat,
                          target: Level, p: nat)
    requires Inv(t0, o0, roots) && root in roots && !target.PT?
  {
    forall r, x: nat | r in roots ::
      if Same(target, root, v, r, x) then RawWalk(words, r, PML4, x) == RawWalk(words, p, Below(target), x)
      else Answer(RawWalk(words, r, PML4, x)) == Expected(t0, o0, root, v, target, None, r, x)
  }

  lemma LinkingWalks(t0: Tables, o0: Owners, t1: Tables, o1: Owners, roots: set<nat>, root: nat, v: nat, target: Level,
                     f: nat, cut: Option<Level>, words: map<nat, seq<Word>>, words': map<nat, seq<Word>>, p: nat)
    requires Descended(t0, o0, t1, o1, roots, root, v, target, f, cut) && IsMiddle(target)
    requires Decodes(words, o1, t1) && f in o1 && TableOk(t1, o1, f) && OneWord(words, words', f, Idx(target, v))
    requires f in words && |words[f]| == 512 && TargetOf(words'[f][Idx(target, v)], target) == Table(Below(target), p)
    ensures Linking(words', t0, o0, roots, root, v, target, p)
  {
    TableAtOwned(t1, o1, root, target, v);
    forall r, x: nat | r in roots
      ensures if Same(target, root, v, r, x) then RawWalk(words', r, PML4, x) == RawWalk(words', p, Below(target), x)
              else Answer(RawWalk(words', r, PML4, x)) == Expected(t0, o0, root, v, target, None, r, x)
    {
      SameIsPlace(target, root, v, r, x);
      if Same(target, root, v, r, x) {
        SameTable(t1, o1, roots, root, v, r, x, target);
        RawToTable(words, words', o1, t1, f, Idx(target, v), r, target, x);
      } else {
        RawElsewhere(words, words', o1, t1, f, Idx(target, v), r, r, x);
        DescendedTrans(t0, o0, t1, o1, roots, root, v, target, f, cut, r, x);
      }
    }
  }

  /** What the last write of `map` loses. */
  lemma LeafLoss(t0: Tables, o0: Owners, t1: Tables, o1: Owners, roots: set<nat>, root: nat, v: nat, target: Level,
                 f: nat, cut: Option<Level>, w: Word, p: nat, flags: seq<Flag>)
    requires Descended(t0, o0, t1, o1, roots, root, v, target, f, cut) && OnlyGrew(t0, o0, t1, o1, roots)
    requires (IsMiddle(target) || target.PT?) && !Links(target, flags) && Narrow(p) && p % Align(Page(target, p)) == 0
    requires f in o1 && TableOk(t1, o1, f) && t1[f][Idx(target, v)] == TargetOf(w, target)
    requires Inv(Put(t1, f, Idx(target, v), TargetOf(Reinited(w, target, p, flags).0, target)), o1, roots)
    ensures MapLoses(t0, o0, Put(t1, f, Idx(target, v), TargetOf(Reinited(w, target, p, flags).0, target)), o1, roots,
              root, v, target, FinalEntry(target, flags, p).Some?)
  {
    var e := TargetOf(Reinited(w, target, p, flags).0, target);
    FinalWord(w, target, flags, p);
    if FinalEntry(target, flags, p).Some? {
      LeafLoses(t0, o0, t1, o1, roots, root, v, target, f, cut, e);
    } else {
      assert t1[f][Idx(target, v) := e] == t1[f];
      assert Put(t1, f, Idx(target, v), e) == t1;
    }
  }

  /** Memory after `reinit` of one word. */
  function WordWritten(words: map<nat, seq<Word>>, f: nat, i: nat, level: Level, addr: nat, flags: seq<Flag>):
    map<nat, seq<Word>>
    requires f in words && i < |words[f]|
  {
    words[f := words[f][i := Reinited(words[f][i], level, addr, flags).0]]
  }

  /** The word of the last entry. */
  lemma LeafWritesWord(w: Word, level: Level, p: nat, flags: seq<Flag>)
    requires (IsMiddle(level) || level.PT?) && Narrow(p) && p % Align(Page(level, p)) == 0
    ensures LeafOf(w, Reinited(w, level, p, flags).0, level, p, flags)
  {
    PageFits(level, flags, p);
    ReinitNumber(w, level, p, flags);
  }

  /** In a memory of well-formed trees the walk of the words is that of the tables. */
  lemma {:induction false} RawTableIs(words: Memory, own: Owners, tables: Tables, root: nat, level: Level, v: nat)
    requires Decodes(words, own, tables) && Sound(tables, own) && !level.CR3?
    requires TableAt(tables, own, root, level, v).Some?
    ensures RawTable(words, root, level, v) == TableAt(tables, own, root, level, v)
    decreases Rank(level)
  {
    if !level.PML4? {
      var above := Above(level);
      RawTableIs(words, own, tables, root, above, v);
      TableAtOwned(tables, own, root, above, v);
      var f := TableAt(tables, own, root, above, v).value;
      assert TableOk(tables, own, f);
      assert DecodesEntry(words[f][Idx(above, v)], own, f, tables[f][Idx(above, v)]);
    }
  }

  lemma {:induction false} TablesAbove(tables: Tables, own: Owners, root: nat, level: Level, v: nat, l: Level)
    requires Sound(tables, own) && 0 < Rank(l) <= Rank(level) && TableAt(tables, own, root, level, v).Some?
    ensures TableAt(tables, own, root, l, v).Some?
    decreases Rank(level)
  {
    if l != level {
      TablesAbove(tables, own, root, Above(level), v, l);
    }
  }

  /** The walk comes to each table once. */
  lemma EntryOnWalk(words: Memory, own: Owners, tables: Tables, root: nat, level: Level, v: nat, f: nat)
    requires Decodes(words, own, tables) && Sound(tables, own) && !level.CR3?
    requires TableAt(tables, own, root, level, v) == Some(f)
    ensures IsEntry(words, root, v, level, f, Idx(level, v)) && Before(words, root, v, level, f)
  {
    RawTableIs(words, own, tables, root, level, v);
    TableAtOwned(tables, own, root, level, v);
    forall l: Level | 0 < Rank(l) < Rank(level)
      ensures RawTable(words, root, l, v) != Some(f)
    {
      TablesAbove(tables, own, root, level, v, l);
      RawTableIs(words, own, tables, root, l, v);
      TableAtOwned(tables, own, root, l, v);
    }
  }

  /** The step to a table that is there writes nothing. */
  lemma LinkFound(words: Memory, own: Owners, tables: Tables, root: nat, level: Level, v: nat, f: nat, w0: Memory)
    requires Decodes(words, own, tables) && Sound(tables, own) && !level.CR3? && !level.PT? && f in own
    requires TableAt(tables, own, root, level, v) == Some(f) && own[f].level == level && TableOk(tables, own, f)
    requires tables[f][Idx(level, v)].Table? && Trail(w0, words, root, v, level)
    ensures Trail(w0, words, root, v, Below(level))
  {
    EntryOnWalk(words, own, tables, root, level, v, f);
    assert DecodesEntry(words[f][Idx(level, v)], own, f, tables[f][Idx(level, v)]);
    TrailStep(w0, words, words, root, v, level, f, Idx(level, v));
  }

  lemma AtMostThree(tables: Tables, own: Owners, root: nat, target: Level, v: nat)
    requires Sound(tables, own) && !target.CR3?
    ensures Missing(tables, own, root, target, v) <= 3
  {
    MissingGrows(tables, own, root, target, target, v);
  }

  /** What holds after the last write of `map`. */
  ghost predicate LeafWritten(words: map<nat, seq<Word>>, t0: Tables, o0: Owners, t1: Tables, o1: Owners,
                              roots: set<nat>, root: nat, v: nat, target: Level, p: nat, flags: seq<Flag>)
    requires Inv(t0, o0, roots) && root in roots && !target.CR3?
  {
    if Links(target, flags) then Linking(words, t0, o0, roots, root, v, target, p)
    else
      && Inv(t1, o1, roots)
      && (forall r, x: nat | r in roots ::
            Trans(t1, o1, r, x) == Expected(t0, o0, root, v, target, FinalEntry(target, flags, p), r, x))
      && (Allowed(target, flags) ==> LeafFlags(words, t1, o1, root, v, target, flags))
      && MapLoses(t0, o0, t1, o1, roots, root, v, target, FinalEntry(target, flags, p).Some?)
  }

  lemma LeafResult(t0: Tables, o0: Owners, t1: Tables, o1: Owners, roots: set<nat>, root: nat, v: nat, target: Level,
                   f: nat, cut: Option<Level>, words: map<nat, seq<Word>>, p: nat, flags: seq<Flag>)
    requires Going(t0, o0, t1, o1, roots, root, v, target, f, cut) && (IsMiddle(target) || target.PT?)
    requires Decodes(words, o1, t1) && Narrow(p) && p % Align(Page(target, p)) == 0
    requires f in o1 && o1[f].level == target && TableOk(t1, o1, f) && f in words && |words[f]| == 512
    ensures var i := Idx(target, v);
            LeafWritten(WordWritten(words, f, i, target, p, flags), t0, o0,
              Put(t1, f, i, TargetOf(Reinited(words[f][i], target, p, flags).0, target)), o1, roots, root, v, target, p,
              flags)
  {
    var i := Idx(target, v);
    var w := words[f][i];
    assert DecodesEntry(w, o1, f, t1[f][i]);
    if Links(target, flags) {
      FinalWord(w, target, flags, p);
      LinkingWalks(t0, o0, t1, o1, roots, root, v, target, f, cut, words, WordWritten(words, f, i, target, p, flags),
        p);
    } else {
      LeafStep(t0, o0, t1, o1, roots, root, v, target, f, cut, w, p, flags);
      LeafLoss(t0, o0, t1, o1, roots, root, v, target, f, cut, w, p, flags);
    }
  }

  // ---------------------------------------------------------------- the memory maps

  class MemoryManager {
    var words: map<nat, seq<Word>>
    ghost var tables: Tables
    ghost var own: Owners
    ghost var roots: set<nat>

    ghost predicate Valid()
      reads this
    {
      Decodes(words, own, tables) && Inv(tables, own, roots)
    }

    constructor (words: map<nat, seq<Word>>, ghost tables: Tables, ghost own: Owners, ghost roots: set<nat>)
      requires Decodes(words, own, tables)
      ensures this.words == words && this.tables == tables && this.own == own && this.roots == roots
    {
      this.words, this.tables, this.own, this.roots := words, tables, own, roots;
    }

    method ReadEntry(f: nat, level: Level, i: nat) returns (t: Target)
      requires Decodes(words, own, tables) && f in own && own[f].level == level && f in tables && i < |tables[f]|
      ensures t == tables[f][i]
    {
      t := TargetOf(words[f][i], level);
    }

    /** `reinit` of the entry at index i of table f. */
    method WriteEntry(f: nat, level: Level, i: nat, addr: nat, flags: seq<Flag>, ghost e: Target)
      requires Decodes(words, own, tables) && f in own && own[f].level == level && f in tables && i < |tables[f]|
      requires f in words && i < |words[f]| && e == TargetOf(Reinited(words[f][i], level, addr, flags).0, level)
      modifies `words, `tables
      ensures Decodes(words, own, tables) && tables == Put(old(tables), f, i, e)
      ensures words == WordWritten(old(words), f, i, level, addr, flags)
    {
      words := WordWritten(words, f, i, level, addr, flags);
      tables := Put(tables, f, i, e);
    }

    /** The physical page that v is mapped to, by its base. The walk never ends at a table. */
    method Translate(root: nat, v: nat) returns (p: Option<nat>)
      requires Valid() && root in roots
      ensures p == Trans(tables, own, root, v)
      ensures var t := Walk(tables, own, root, v);
              p == Phys(tables, own, root, v) <==> (t.Page? ==> v % Align(t) == 0)
    {
      TransDropsOffset(tables, own, root, v);
      var f, level := root, PML4;
      assert TableOk(tables, own, root);
      var t := ReadEntry(f, level, Idx(level, v));
      while NextLevel(level).Some? && t.Table?
        invariant f in own && own[f].level == level && TableOk(tables, own, f) && t == tables[f][Idx(level, v)]
        invariant Walk(tables, own, root, v) == Walk(tables, own, f, v)
        decreases 4 - Rank(level)
      {
        assert EntryOk(t, own, own[f], Idx(level, v));
        f, level := t.addr, t.level;
        assert TableOk(tables, own, f);
        t := ReadEntry(f, level, Idx(level, v));
      }
      assert EntryOk(t, own, own[f], Idx(level, v));
      match t {
        case Nothing => return None;
        case Page(_, addr) => return Some(addr);
      }
    }

    /** Link a zero-filled frame below the entry at index i of table f. */
    method MakeTable(f: nat, level: Level, i: nat, a: nat)
      requires Decodes(words, own, tables) && f in own && own[f].level == level && f in tables && |tables[f]| == 512 &&
               i < 512
      requires !level.CR3? && !level.PT? && Allocated(words, own, a)
      modifies this
      ensures Decodes(words, own, tables) && roots == old(roots)
      ensures tables == Put(old(tables), f, i, Table(Below(level), a)) && own == old(own)[a := Child(old(own)[f], i)]
      ensures OneWord(old(words), words, f, i) && i < |words[f]|
      ensures TargetOf(words[f][i], level) == Table(Below(level), a) && Value(words[f][i], 0, 64) == a + 3
      ensures forall g: Flag ::
                FlagOf(words[f][i], level, g) == ReadingOf(level, TABLE_FLAGS, g)
    {
      TableFlagsValid(level, a);
      ReinitRoundTrip(words[f][i], level, a, TABLE_FLAGS, Present);
      AdoptDecodes(words, own, tables, a, Child(own[f], i));
      own := own[a := Child(own[f], i)];
      FlagsWritten(words[f][i], level, a, TABLE_FLAGS);
      WriteEntry(f, level, i, a, TABLE_FLAGS, Table(Below(level), a));
    }

    /**
     * One step of the walker towards v; it makes a new table where there is none. It fails only if no frame is left.
     */
    method Down(root: nat, v: nat, level: Level, f: nat, pool: seq<nat>, used: nat,
                ghost t0: Tables, ghost o0: Owners, ghost cut: Option<Level>, ghost w0: Memory)
      returns (ok: bool, next: nat, used': nat, ghost cut': Option<Level>)
      requires Trail(w0, words, root, v, level)
      requires Decodes(words, own, tables) && Going(t0, o0, tables, own, roots, root, v, level, f, cut)
      requires !level.PT? && used <= |pool| && PoolReady(pool, used)
      modifies this
      ensures Decodes(words, own, tables) && OnlyGrew(t0, o0, tables, own, roots) && roots == old(roots)
      ensures used <= used' <= |pool| && used' <= used + 1 && PoolReady(pool, used')
      ensures ok ==> Going(t0, o0, tables, own, roots, root, v, Below(level), next, cut')
      ensures ok ==> Trail(w0, words, root, v, Below(level))
      ensures !ok ==> used == |pool| && tables == old(tables) && own == old(own) && words == old(words)
      ensures var more := Missing(t0, o0, root, Below(level), v) - Missing(t0, o0, root, level, v);
              if ok then used' - used == more else more == 1
      ensures ok ==> cut' == if used' > used && cut.None? then Some(level) else cut
      ensures own.Keys == if used' == used then old(own).Keys else old(own).Keys + {pool[used]}
    {
      GoingAt(t0, o0, tables, own, roots, root, v, level, f, cut);
      StepMissing(t0, o0, tables, own, roots, root, v, level, f, cut);
      var t := ReadEntry(f, level, Idx(level, v));
      if t.Table? {
        StepDown(t0, o0, tables, own, roots, root, v, level, f, cut);
        LinkFound(words, own, tables, root, level, v, f, w0);
        return true, t.addr, used, cut;
      }
      if used == |pool| {
        return false, f, used, cut;
      }
      DownNew(root, v, level, f, pool[used], t0, o0, cut, w0, pool, used);
      return true, pool[used], used + 1, if cut.Some? then cut else Some(level);
    }

    /** The step where there is no table: a new one is made. */
    method DownNew(root: nat, v: nat, level: Level, f: nat, a: nat, ghost t0: Tables, ghost o0: Owners,
                   ghost cut: Option<Level>, ghost w0: Memory, ghost pool: seq<nat>, ghost used: nat)
      requires Decodes(words, own, tables) && Going(t0, o0, tables, own, roots, root, v, level, f, cut)
      requires !level.PT? && used < |pool| && PoolReady(pool, used) && a == pool[used]
      requires Trail(w0, words, root, v, level)
      requires f in own && own[f].level == level && TableOk(tables, own, f) && !tables[f][Idx(level, v)].Table?
      modifies this
      ensures Decodes(words, own, tables) && roots == old(roots) && own.Keys == old(own).Keys + {a}
      ensures PoolReady(pool, used + 1)
      ensures Going(t0, o0, tables, own, roots, root, v, Below(level), a, if cut.Some? then cut else Some(level))
      ensures Trail(w0, words, root, v, Below(level))
    {
      AllocatedIsFresh(words, own, tables, a);
      GoingSplit(t0, o0, tables, own, roots, root, v, level, f, cut, a);
      LinkNew(root, v, level, f, a, w0, pool, used);
    }

    /** The words on the way down, with one more link. */
    method LinkNew(ghost root: nat, v: nat, level: Level, f: nat, a: nat, ghost w0: Memory, ghost pool: seq<nat>,
                   ghost used: nat)
      requires Decodes(words, own, tables) && Sound(tables, own) && !level.CR3? && !level.PT?
      requires TableAt(tables, own, root, level, v) == Some(f) && Trail(w0, words, root, v, level)
      requires f in own && own[f].level == level && TableOk(tables, own, f) && !tables[f][Idx(level, v)].Table?
      requires used < |pool| && PoolReady(pool, used) && a == pool[used]
      modifies this
      ensures Decodes(words, own, tables) && roots == old(roots) && PoolReady(pool, used + 1)
      ensures tables == Put(old(tables), f, Idx(level, v), Table(Below(level), a))
      ensures own == old(own)[a := Child(old(own)[f], Idx(level, v))]
      ensures Trail(w0, words, root, v, Below(level))
    {
      ghost var w := words;
      EntryOnWalk(words, own, tables, root, level, v, f);
      assert DecodesEntry(words[f][Idx(level, v)], own, f, tables[f][Idx(level, v)]);
      MakeTable(f, level, Idx(level, v), a);
      TrailStep(w0, w, words, root, v, level, f, Idx(level, v));
    }

    /** The frames that the allocator has still to return. */
    ghost predicate PoolReady(pool: seq<nat>, used: nat)
      requires used <= |pool|
      reads this
    {
      && (forall k | used <= k < |pool| :: Allocated(words, own, pool[k]))
      && (forall j, k | used <= j < k < |pool| :: pool[j] != pool[k])
    }

    /**
     * Map the page of v at a level to p, with tables from the frames that the allocator returns. The translations
     * afterwards are the expected ones, for every memory map; it fails only if the allocator runs out of frames.
     * The tables below an entry that is written over are lost, and no others. Flags of a table make the last entry
     * refer to p as a table.
     */
    method Map(root: nat, v: nat, target: Level, p: nat, flags: seq<Flag>, pool: seq<nat>, from: nat)
      returns (ok: bool, used: nat)
      requires Valid() && root in roots
      requires (IsMiddle(target) || target.PT?) && Narrow(p) && p % Align(Page(target, p)) == 0
      requires from <= |pool| && PoolReady(pool, from)
      modifies this
      ensures Decodes(words, own, tables) && roots == old(roots)
      ensures from <= used <= |pool| && PoolReady(pool, used)
      ensures var missing := Missing(old(tables), old(own), root, target, v);
              && missing <= 3 && (ok <==> from + missing <= |pool|) && used == if ok then from + missing else |pool|
      ensures Took(old(own).Keys, own.Keys, pool, from, used)
      ensures FindsTable(old(tables), old(own), root, v, target) ==> ok
      ensures !ok || !Links(target, flags) ==> Valid()
      ensures !ok ==> Stopped(old(tables), old(own), tables, own, roots, root, v, target, used > from)
      ensures ok && !Links(target, flags) ==>
                forall r, w: nat | r in roots ::
                  Trans(tables, own, r, w) ==
                  Expected(old(tables), old(own), root, v, target, FinalEntry(target, flags, p), r, w)
      ensures ok && !Links(target, flags) && Allowed(target, flags) ==>
                LeafFlags(words, tables, own, root, v, target, flags)
      ensures !ok || !Links(target, flags) ==>
                MapLoses(old(tables), old(own), tables, own, roots, root, v, target,
                  ok && FinalEntry(target, flags, p).Some?)
      ensures !ok || !Links(target, flags) ==>
                forall r | r in roots && Attached(old(tables), old(own), r) ::
                  Attached(tables, own, r) <==>
                  !(&& ok && FinalEntry(target, flags, p).Some? && FindsTable(old(tables), old(own), root, v, target)
                    && r == root && !IsKernel(v))
      ensures ok && Links(target, flags) ==> Linking(words, old(tables), old(own), roots, root, v, target, p)
      ensures if ok then MappedWords(old(words), words, root, v, target, p, flags)
              else StoppedWords(old(words), words, root, v, target)
    {
      AtMostThree(tables, own, root, target, v);
      var down, f;
      ghost var cut;
      down, f, used, cut := Descend(root, v, target, pool, from);
      if !down {
        AttachedAfter(old(tables), old(own), tables, own, roots, root, v, target, false);
        return false, used;
      }
      WriteLeaf(root, v, target, p, flags, f, old(tables), old(own), cut, old(words));
      if !Links(target, flags) {
        AttachedAfter(old(tables), old(own), tables, own, roots, root, v, target, FinalEntry(target, flags, p).Some?);
      }
      return true, used;
    }

    /** The loop of `map`: down to the table of the target level. */
    method Descend(root: nat, v: nat, target: Level, pool: seq<nat>, from: nat)
      returns (ok: bool, f: nat, used: nat, ghost cut: Option<Level>)
      requires Valid() && root in roots && (IsMiddle(target) || target.PT?)
      requires from <= |pool| && PoolReady(pool, from)
      modifies this
      ensures Decodes(words, own, tables) && roots == old(roots)
      ensures OnlyGrew(old(tables), old(own), tables, own, roots)
      ensures from <= used <= |pool| && PoolReady(pool, used) && Took(old(own).Keys, own.Keys, pool, from, used)
      ensures var missing := Missing(old(tables), old(own), root, target, v);
              && (ok <==> from + missing <= |pool|) && used == if ok then from + missing else |pool|
      ensures if ok then Going(old(tables), old(own), tables, own, roots, root, v, target, f, cut)
              else
                && StoppedWords(old(words), words, root, v, target)
                && !FindsTable(old(tables), old(own), root, v, target)
                && Stopped(old(tables), old(own), tables, own, roots, root, v, target, used > from)
      ensures ok ==> Trail(old(words), words, root, v, target)
    {
      StartTrail(words, root, v);
      f, used, cut := root, from, None;
      var level := PML4;
      assert own[root] == PosAt(root, PML4, v);
      while level != target
        invariant Decodes(words, own, tables) && roots == old(roots)
        invariant Going(old(tables), old(own), tables, own, roots, root, v, level, f, cut)
        invariant Rank(level) <= Rank(target) && used <= |pool|
        invariant used == from + Missing(old(tables), old(own), root, level, v) && (cut.Some? <==> used > from)
        invariant PoolReady(pool, used) && Took(old(own).Keys, own.Keys, pool, from, used)
        invariant Trail(old(words), words, root, v, level)
        decreases Rank(target) - Rank(level)
      {
        TowardsTarget(level, target);
        MissingGrows(old(tables), old(own), root, target, Below(level), v);
        ghost var keys, was, before := own.Keys, used, cut;
        var down, next;
        down, next, used, cut := Down(root, v, level, f, pool, used, old(tables), old(own), cut, old(words));
        TookStep(old(own).Keys, keys, own.Keys, pool, from, was, used);
        if !down {
          FoundNoneMissing(old(tables), old(own), root, v, target);
          StoppedTrans(old(tables), old(own), tables, own, roots, root, v, level, f, before, target);
          return false, f, used, cut;
        }
        f, level := next, Below(level);
      }
      ok := true;
    }

    /** The last step of `map`: `reinit` of the entry of the target level, whose answer is not looked at. */
    method WriteLeaf(root: nat, v: nat, target: Level, p: nat, flags: seq<Flag>, f: nat,
                     ghost t0: Tables, ghost o0: Owners, ghost cut: Option<Level>, ghost w0: Memory)
      requires Decodes(words, own, tables) && (IsMiddle(target) || target.PT?) && Trail(w0, words, root, v, target)
      requires Going(t0, o0, tables, own, roots, root, v, target, f, cut)
      requires Narrow(p) && p % Align(Page(target, p)) == 0
      modifies `words, `tables
      ensures Decodes(words, own, tables)
      ensures words.Keys == old(words).Keys && forall g | g in words && g !in own :: words[g] == old(words)[g]
      ensures LeafWritten(words, t0, o0, tables, own, roots, root, v, target, p, flags)
      ensures MappedWords(w0, words, root, v, target, p, flags)
    {
      GoingAt(t0, o0, tables, own, roots, root, v, target, f, cut);
      ghost var e := TargetOf(Reinited(words[f][Idx(target, v)], target, p, flags).0, target);
      LeafResult(t0, o0, tables, own, roots, root, v, target, f, cut, words, p, flags);
      WriteLast(root, v, target, p, flags, f, e, w0);
    }

    /** The words after the last write. */
    method WriteLast(ghost root: nat, v: nat, target: Level, p: nat, flags: seq<Flag>, f: nat, ghost e: Target,
                     ghost w0: Memory)
      requires Decodes(words, own, tables) && Sound(tables, own) && (IsMiddle(target) || target.PT?)
      requires TableAt(tables, own, root, target, v) == Some(f) && Trail(w0, words, root, v, target)
      requires f in own && own[f].level == target && TableOk(tables, own, f) && f in words && |words[f]| == 512
      requires e == TargetOf(Reinited(words[f][Idx(target, v)], target, p, flags).0, target)
      requires Narrow(p) && p % Align(Page(target, p)) == 0
      modifies `words, `tables
      ensures Decodes(words, own, tables) && tables == Put(old(tables), f, Idx(target, v), e)
      ensures words == WordWritten(old(words), f, Idx(target, v), target, p, flags)
      ensures MappedWords(w0, words, root, v, target, p, flags)
    {
      ghost var w := words;
      var i := Idx(target, v);
      EntryOnWalk(words, own, tables, root, target, v, f);
      LeafWritesWord(words[f][i], target, p, flags);
      WriteEntry(f, target, i, p, flags, e);
      TrailEnd(w0, w, words, root, v, target, f, i, p, flags);
    }

    /**
     * A new memory map with its own root: nothing is mapped in its lower half, the upper half is that of the current
     * map, and no other map changes. The CR3 word refers to the root.
     */
    method New(current: nat, a: nat) returns (cr3: Word)
      requires Valid() && current in roots && Allocated(words, own, a)
      modifies this
      ensures Valid() && roots == old(roots) + {a} && a !in old(roots)
      ensures TargetOf(cr3, CR3) == Table(PML4, a) && Value(cr3, 0, 64) == a
      ensures own == old(own)[a := Pos(User(a), PML4, 0)]
      ensures CopiedWords(old(words), words, current, a)
      ensures NewTranslations(old(tables), old(own), tables, own, old(roots), current, a)
      ensures Lost(tables, own, roots) == old(Lost(tables, own, roots))
    {
      AllocatedIsFresh(words, own, tables, a);
      NewRoot(tables, own, roots, current, a);
      NewLoses(tables, own, roots, current, a);
      CopyUpperHalf(current, a);
      roots := roots + {a};
      cr3 := RootWord(a);
    }

    /** The CR3 word for a root. */
    static method RootWord(a: nat) returns (cr3: Word)
      requires Narrow(a) && a % 0x1000 == 0
      ensures TargetOf(cr3, CR3) == Table(PML4, a) && Value(cr3, 0, 64) == a
    {
      ReinitRoundTrip({}, CR3, a, [], Present);
      cr3 := Reinited({}, CR3, a, []).0;
    }

    method CopyUpperHalf(current: nat, a: nat)
      requires Decodes(words, own, tables) && Allocated(words, own, a)
      requires current in own && own[current].level == PML4 && current in tables && |tables[current]| == 512
      requires a in tables && |tables[a]| == 512
      modifies `words, `tables, `own
      ensures Decodes(words, own, tables) && CopiedWords(old(words), words, current, a)
      ensures tables == WithRoot(old(tables), current, a) && own == old(own)[a := Pos(User(a), PML4, 0)]
    {
      AdoptDecodes(words, own, tables, a, Pos(User(a), PML4, 0));
      own := own[a := Pos(User(a), PML4, 0)];
      tables := WithRoot(tables, current, a);
      words := words[a := words[a][..256] + words[current][256..]];
    }

    /** Give back table f and all tables below it, each once and children first. */
    method DropTable(f: nat, level: Level) returns (freed: seq<nat>)
      requires Valid() && f in own && own[f].level == level && !level.PML4?
      ensures Given(tables, own, freed, f)
      decreases 4 - Rank(level)
    {
      assert TableOk(tables, own, f);
      freed := [];
      NoneBelow(tables, own, f);
      var i := 0;
      while i < 512
        invariant i <= 512 && GivenBelow(tables, own, freed, f, i)
      {
        var t := ReadEntry(f, level, i);
        assert EntryOk(tables[f][i], own, own[f], i);
        if t.Table? {
          var sub := DropTable(t.addr, t.level);
          GiveEntry(tables, own, freed, sub, f, i);
          freed := freed + sub;
        } else {
          GiveSkip(tables, own, freed, f, i);
        }
        i := i + 1;
      }
      GiveLast(tables, own, freed, f);
      freed := freed + [f];
    }

    /**
     * Drop a memory map. Given back are exactly the tables below the lower half, each once and children before parents,
     * and then the root; never a table of the upper half or of another map. No other map changes.
     */
    method Drop(root: nat) returns (freed: seq<nat>)
      requires Valid() && root in roots
      modifies `own, `roots
      ensures NoDup(freed) && |freed| > 0 && freed[|freed| - 1] == root
      ensures root in old(own) && GivenBelow(tables, old(own), freed[..|freed| - 1], root, 256)
      ensures forall x | x in freed :: x in old(own) && old(own)[x].space == User(root) && x !in own
      ensures Valid() && roots == old(roots) - {root} && own == Without(old(own), root)
      ensures forall r, v: nat | r in roots :: Trans(tables, own, r, v) == Trans(tables, old(own), r, v)
      ensures (set x | x in freed) == TablesOf(old(own), root) - Lost(tables, old(own), old(roots))
      ensures (forall x | x in TablesOf(old(own), root) :: x in freed) <==> Attached(tables, old(own), root)
    {
      var below := DropLowerHalf(root);
      freed := below + [root];
      DroppedSpaces(tables, own, below, root);
      GivesReached(tables, own, roots, root, below);
      NoDupAppend(below, [root]);
      assert freed[..|freed| - 1] == below;
      DropInv(tables, own, roots, root);
      DropDecodes(words, own, tables, root);
      own, roots := Without(own, root), roots - {root};
    }

    /** The allocator fills frames that were given back with zeroes before it returns them again. */
    method Scrub(frames: seq<nat>)
      requires Valid() && forall x | x in frames :: x !in own && x in words && |words[x]| == 512 && IsFrame(x)
      modifies `words, `tables
      ensures Valid() && forall x | x in frames :: Allocated(words, own, x)
      ensures words.Keys == old(words).Keys && forall g | g in words && g !in frames :: words[g] == old(words)[g]
      ensures Lost(tables, own, roots) == old(Lost(tables, own, roots)) && SameTables(old(tables), tables, own)
    {
      for n := 0 to |frames|
        invariant Valid() && words.Keys == old(words).Keys
        invariant Lost(tables, own, roots) == old(Lost(tables, own, roots)) && SameTables(old(tables), tables, own)
        invariant forall k | 0 <= k < n :: Allocated(words, own, frames[k])
        invariant forall g | g in words && g !in frames :: words[g] == old(words)[g]
      {
        ScrubOne(frames[n]);
      }
    }

    method ScrubOne(a: nat)
      requires Valid() && a !in own && a in words && IsFrame(a)
      modifies `words, `tables
      ensures Valid() && Allocated(words, own, a) && words == old(words)[a := words[a]]
      ensures tables == old(tables)[a := NoTargets()]
      ensures Lost(tables, own, roots) == old(Lost(tables, own, roots))
    {
      ScrubKeeps(words, tables, own, roots, a);
      words := words[a := seq(512, i => {})];
      tables := tables[a := NoTargets()];
    }

    method DropLowerHalf(root: nat) returns (freed: seq<nat>)
      requires Valid() && root in roots
      ensures root in own && GivenBelow(tables, own, freed, root, 256)
    {
      assert TableOk(tables, own, root);
      freed := [];
      NoneBelow(tables, own, root);
      var i := 0;
      while i < 256
        invariant i <= 256 && GivenBelow(tables, own, freed, root, i)
      {
        var t := ReadEntry(root, PML4, i);
        assert EntryOk(tables[root][i], own, own[root], i);
        if t.Table? {
          var sub := DropTable(t.addr, t.level);
          GiveEntry(tables, own, freed, sub, root, i);
          freed := freed + sub;
        } else {
          GiveSkip(tables, own, freed, root, i);
        }
        i := i + 1;
      }
    }
  }

  /** What hangs below the lower half of a root is its own, and is not the root. */
  lemma DroppedSpaces(tables: Tables, own: Owners, below: seq<nat>, root: nat)
    requires Sound(tables, own) && root in own && own[root] == Pos(User(root), PML4, 0)
    requires GivenBelow(tables, own, below, root, 256)
    ensures forall x | x in below :: x in own && own[x].space == User(root) && x != root
  {
    assert TableOk(tables, own, root);
    forall x | x in below
      ensures x in own && own[x].space == User(root) && x != root
    {
      assert ReachBelow(tables, own, root, 256, x);
      var i :| 0 <= i < 256 && Through(tables, own, root, i, x);
      ThroughDeeper(tables, own, root, i, x);
    }
  }
}
